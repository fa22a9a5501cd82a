/** `StatsRepository`: the four aggregation queries over the hit log.
    Each selects the hits whose timestamp lies in `[start, end]` (BETWEEN
    is inclusive at both ends), optionally only those whose uri is listed,
    groups them by (app, uri), counts either the rows or the distinct ips
    of each group, and orders the groups by that count, largest first.
    The order of groups with equal counts is not fixed by the queries;
    this model keeps the groups' first-appearance order among equals. */
module StatsRepository {
  import opened Common

  /** `EndpointHit`. */
  datatype Hit = Hit(id: int, app: string, uri: string, ip: string, timestamp: int)

  /** `ViewStatsDto`: one group and its count. */
  datatype ViewStats = ViewStats(app: string, uri: string, hits: nat)

  /** The GROUP BY key. */
  type Key = (string, string)

  function KeyOf(h: Hit): Key
  {
    (h.app, h.uri)
  }

  function RowKey(v: ViewStats): Key
  {
    (v.app, v.uri)
  }

  /** The WHERE clause: `timestamp BETWEEN start AND end`, and
      `uri IN uris` when a uri list is given. */
  predicate Selected(h: Hit, start: int, end: int, uris: Option<seq<string>>)
  {
    start <= h.timestamp <= end && (uris.None? || h.uri in uris.value)
  }

  function Filter(hits: seq<Hit>, start: int, end: int, uris: Option<seq<string>>): (r: seq<Hit>)
    ensures forall h :: h in r <==> h in hits && Selected(h, start, end, uris)
  {
    if |hits| == 0 then []
    else (if Selected(hits[0], start, end, uris) then [hits[0]] else []) + Filter(hits[1..], start, end, uris)
  }

  /** The hits of one group. */
  function Group(hits: seq<Hit>, k: Key): (r: seq<Hit>)
    ensures |r| <= |hits|
    ensures forall h :: h in r <==> h in hits && KeyOf(h) == k
  {
    if |hits| == 0 then []
    else (if KeyOf(hits[0]) == k then [hits[0]] else []) + Group(hits[1..], k)
  }

  /** The distinct ips of some hits: there are never more of them than
      hits. */
  function Ips(hits: seq<Hit>): (r: set<string>)
    ensures |r| <= |hits|
    ensures forall h :: h in hits ==> h.ip in r
    ensures forall ip :: ip in r ==> exists h :: h in hits && h.ip == ip
  {
    if |hits| == 0 then {} else {hits[0].ip} + Ips(hits[1..])
  }

  predicate Distinct<T(==)>(s: seq<T>)
  {
    forall i, j :: 0 <= i < j < |s| ==> s[i] != s[j]
  }

  /** The groups present among some hits, each once. */
  function Keys(hits: seq<Hit>): (r: seq<Key>)
    ensures Distinct(r)
    ensures |r| <= |hits|
    ensures forall k :: k in r <==> exists h :: h in hits && KeyOf(h) == k
  {
    if |hits| == 0 then []
    else
      var rest := Keys(hits[1..]);
      if KeyOf(hits[0]) in rest then rest else [KeyOf(hits[0])] + rest
  }

  /** `COUNT(DISTINCT h.ip)` when `unique`, `COUNT(h)` otherwise. */
  function Count(hits: seq<Hit>, k: Key, unique: bool): nat
  {
    if unique then |Ips(Group(hits, k))| else |Group(hits, k)|
  }

  /** One row per listed group. */
  function Rows(hits: seq<Hit>, keys: seq<Key>, unique: bool): (r: seq<ViewStats>)
    ensures |r| == |keys|
    ensures forall i :: 0 <= i < |r| ==> RowKey(r[i]) == keys[i] && r[i].hits == Count(hits, keys[i], unique)
  {
    if |keys| == 0 then []
    else [ViewStats(keys[0].0, keys[0].1, Count(hits, keys[0], unique))] + Rows(hits, keys[1..], unique)
  }

  /** Non-increasing counts: the ORDER BY ... DESC. */
  predicate SortedDesc(rows: seq<ViewStats>)
  {
    forall i, j :: 0 <= i < j < |rows| ==> rows[i].hits >= rows[j].hits
  }

  /** No group appears twice. */
  predicate KeysDistinct(rows: seq<ViewStats>)
  {
    forall i, j :: 0 <= i < j < |rows| ==> RowKey(rows[i]) != RowKey(rows[j])
  }

  /** No row of `rows` belongs to group `k`. */
  predicate KeyFresh(k: Key, rows: seq<ViewStats>)
  {
    forall v :: v in rows ==> RowKey(v) != k
  }

  lemma DistinctTail(rows: seq<ViewStats>)
    requires |rows| > 0 && KeysDistinct(rows)
    ensures KeysDistinct(rows[1..]) && KeyFresh(RowKey(rows[0]), rows[1..])
  {
    forall v | v in rows[1..]
      ensures RowKey(v) != RowKey(rows[0])
    {
      var j :| 0 <= j < |rows[1..]| && rows[1..][j] == v;
      assert rows[j + 1] == v;
    }
  }

  lemma DistinctCons(v: ViewStats, rows: seq<ViewStats>)
    requires KeysDistinct(rows) && KeyFresh(RowKey(v), rows)
    ensures KeysDistinct([v] + rows)
  {
    var r := [v] + rows;
    forall i, j | 0 <= i < j < |r|
      ensures RowKey(r[i]) != RowKey(r[j])
    {
      assert r[j] == rows[j - 1];
      if i > 0 {
        assert r[i] == rows[i - 1];
      } else {
        assert r[j] in rows;
      }
    }
  }

  function Insert(x: ViewStats, rows: seq<ViewStats>): (r: seq<ViewStats>)
    ensures multiset(r) == multiset(rows) + multiset{x}
    ensures forall v :: v in r <==> v == x || v in rows
  {
    if |rows| == 0 || x.hits >= rows[0].hits then [x] + rows
    else
      assert rows == [rows[0]] + rows[1..];
      [rows[0]] + Insert(x, rows[1..])
  }

  lemma {:induction false} InsertSorted(x: ViewStats, rows: seq<ViewStats>)
    requires SortedDesc(rows)
    ensures SortedDesc(Insert(x, rows))
  {
    var r := Insert(x, rows);
    if |rows| == 0 || x.hits >= rows[0].hits {
      forall i, j | 0 <= i < j < |r|
        ensures r[i].hits >= r[j].hits
      {
        if i > 0 {
          assert r[i] == rows[i - 1];
        }
        assert r[j] == rows[j - 1];
      }
    } else {
      var tail := rows[1..];
      assert SortedDesc(tail);
      InsertSorted(x, tail);
      var rest := Insert(x, tail);
      forall v | v in rest
        ensures v.hits <= rows[0].hits
      {
        if v != x {
          var j :| 0 <= j < |tail| && tail[j] == v;
          assert rows[j + 1] == v;
        }
      }
      forall i, j | 0 <= i < j < |r|
        ensures r[i].hits >= r[j].hits
      {
        assert r[j] == rest[j - 1];
        if i > 0 {
          assert r[i] == rest[i - 1];
        } else {
          assert rest[j - 1] in rest;
        }
      }
    }
  }

  /** Insertion sort by count, largest first. */
  function SortDesc(rows: seq<ViewStats>): (r: seq<ViewStats>)
    ensures multiset(r) == multiset(rows)
    ensures SortedDesc(r)
  {
    if |rows| == 0 then []
    else
      assert rows == [rows[0]] + rows[1..];
      InsertSorted(rows[0], SortDesc(rows[1..]));
      Insert(rows[0], SortDesc(rows[1..]))
  }

  lemma {:induction false} InsertKeysDistinct(x: ViewStats, rows: seq<ViewStats>)
    requires KeysDistinct(rows) && KeyFresh(RowKey(x), rows)
    ensures KeysDistinct(Insert(x, rows))
  {
    if |rows| == 0 || x.hits >= rows[0].hits {
      DistinctCons(x, rows);
    } else {
      DistinctTail(rows);
      InsertKeysDistinct(x, rows[1..]);
      DistinctCons(rows[0], Insert(x, rows[1..]));
    }
  }

  /** Sorting keeps every group's row unique. */
  lemma {:induction false} SortKeysDistinct(rows: seq<ViewStats>)
    requires KeysDistinct(rows)
    ensures KeysDistinct(SortDesc(rows))
  {
    if |rows| > 0 {
      DistinctTail(rows);
      SortKeysDistinct(rows[1..]);
      var rest := SortDesc(rows[1..]);
      forall v | v in rest
        ensures RowKey(v) != RowKey(rows[0])
      {
        assert v in multiset(rows[1..]);
      }
      InsertKeysDistinct(rows[0], rest);
    }
  }

  lemma SortMembers(rows: seq<ViewStats>)
    ensures forall v :: v in SortDesc(rows) <==> v in rows
    ensures |SortDesc(rows)| == |rows|
  {
    var r := SortDesc(rows);
    forall v
      ensures v in r <==> v in rows
    {
      assert v in r <==> v in multiset(r);
      assert v in rows <==> v in multiset(rows);
    }
    assert |r| == |multiset(r)| == |multiset(rows)| == |rows|;
  }

  /** GROUP BY (app, uri), count, ORDER BY count DESC over the selected
      hits: one row per group present, none for an absent group, each
      count at least one and equal to the group's count. */
  function Aggregate(hits: seq<Hit>, unique: bool): (r: seq<ViewStats>)
    ensures SortedDesc(r)
    ensures KeysDistinct(r)
    ensures |r| == |Keys(hits)|
    ensures forall v :: v in r ==> v.hits >= 1 && v.hits == Count(hits, RowKey(v), unique)
    ensures forall v :: v in r ==> exists h :: h in hits && KeyOf(h) == RowKey(v)
    ensures forall h :: h in hits ==> exists v :: v in r && RowKey(v) == KeyOf(h)
  {
    var keys := Keys(hits);
    var rows := Rows(hits, keys, unique);
    AggregateFacts(hits, keys, rows, unique);
    SortDesc(rows)
  }

  lemma AggregateFacts(hits: seq<Hit>, keys: seq<Key>, rows: seq<ViewStats>, unique: bool)
    requires keys == Keys(hits) && rows == Rows(hits, keys, unique)
    ensures KeysDistinct(SortDesc(rows))
    ensures |SortDesc(rows)| == |keys|
    ensures forall v :: v in SortDesc(rows) ==> v.hits >= 1 && v.hits == Count(hits, RowKey(v), unique)
    ensures forall v :: v in SortDesc(rows) ==> exists h :: h in hits && KeyOf(h) == RowKey(v)
    ensures forall h :: h in hits ==> exists v :: v in SortDesc(rows) && RowKey(v) == KeyOf(h)
  {
    RowsDistinct(hits, keys, rows, unique);
    SortKeysDistinct(rows);
    SortMembers(rows);
    RowsCounts(hits, keys, rows, unique);
    RowsCover(hits, keys, rows, unique);
  }

  lemma RowsDistinct(hits: seq<Hit>, keys: seq<Key>, rows: seq<ViewStats>, unique: bool)
    requires keys == Keys(hits) && rows == Rows(hits, keys, unique)
    ensures KeysDistinct(rows)
  {
    forall i, j | 0 <= i < j < |rows|
      ensures RowKey(rows[i]) != RowKey(rows[j])
    {
      assert RowKey(rows[i]) == keys[i] && RowKey(rows[j]) == keys[j];
    }
  }

  lemma RowsCounts(hits: seq<Hit>, keys: seq<Key>, rows: seq<ViewStats>, unique: bool)
    requires keys == Keys(hits) && rows == Rows(hits, keys, unique)
    ensures forall v :: v in rows ==> v.hits >= 1 && v.hits == Count(hits, RowKey(v), unique)
    ensures forall v :: v in rows ==> exists h :: h in hits && KeyOf(h) == RowKey(v)
  {
    forall v | v in rows
      ensures v.hits >= 1 && v.hits == Count(hits, RowKey(v), unique)
      ensures exists h :: h in hits && KeyOf(h) == RowKey(v)
    {
      var i :| 0 <= i < |rows| && rows[i] == v;
      assert keys[i] in keys;
      var h :| h in hits && KeyOf(h) == keys[i];
      CountPositive(hits, h, unique);
    }
  }

  /** A group that holds a hit counts at least one. */
  lemma CountPositive(hits: seq<Hit>, h: Hit, unique: bool)
    requires h in hits
    ensures Count(hits, KeyOf(h), unique) >= 1
  {
    var g := Group(hits, KeyOf(h));
    assert h in g;
    assert h.ip in Ips(g);
  }

  lemma RowsCover(hits: seq<Hit>, keys: seq<Key>, rows: seq<ViewStats>, unique: bool)
    requires keys == Keys(hits) && rows == Rows(hits, keys, unique)
    ensures forall h :: h in hits ==> exists v :: v in rows && RowKey(v) == KeyOf(h)
  {
    forall h | h in hits
      ensures exists v :: v in rows && RowKey(v) == KeyOf(h)
    {
      assert KeyOf(h) in keys;
      var i :| 0 <= i < |keys| && keys[i] == KeyOf(h);
      assert rows[i] in rows;
    }
  }

  /** `getUniqueStats(start, end)`. */
  function GetUniqueStats(hits: seq<Hit>, start: int, end: int): seq<ViewStats>
  {
    Aggregate(Filter(hits, start, end, None), true)
  }

  /** `getNotUniqueStats(start, end)`. */
  function GetNotUniqueStats(hits: seq<Hit>, start: int, end: int): seq<ViewStats>
  {
    Aggregate(Filter(hits, start, end, None), false)
  }

  /** `getUniqueStatsForUris(start, end, uris)`. */
  function GetUniqueStatsForUris(hits: seq<Hit>, start: int, end: int, uris: seq<string>): seq<ViewStats>
  {
    Aggregate(Filter(hits, start, end, Some(uris)), true)
  }

  /** `getNotUniqueStatsForUris(start, end, uris)`. */
  function GetNotUniqueStatsForUris(hits: seq<Hit>, start: int, end: int, uris: seq<string>): seq<ViewStats>
  {
    Aggregate(Filter(hits, start, end, Some(uris)), false)
  }

  function SumHits(rows: seq<ViewStats>): nat
  {
    if |rows| == 0 then 0 else rows[0].hits + SumHits(rows[1..])
  }

  /** Sum of the group sizes for a list of groups. */
  function SumGroups(hits: seq<Hit>, keys: seq<Key>): nat
  {
    if |keys| == 0 then 0 else |Group(hits, keys[0])| + SumGroups(hits, keys[1..])
  }

  /** How often `k` is listed. */
  function Occurrences(k: Key, keys: seq<Key>): nat
  {
    if |keys| == 0 then 0 else (if keys[0] == k then 1 else 0) + Occurrences(k, keys[1..])
  }

  lemma {:induction false} OccurrencesOfDistinct(k: Key, keys: seq<Key>)
    requires Distinct(keys)
    ensures Occurrences(k, keys) == if k in keys then 1 else 0
  {
    if |keys| > 0 {
      assert Distinct(keys[1..]);
      OccurrencesOfDistinct(k, keys[1..]);
      if keys[0] == k {
        assert k !in keys[1..] by {
          forall j | 0 <= j < |keys[1..]|
            ensures keys[1..][j] != k
          {
            assert keys[j + 1] == keys[1..][j];
          }
        }
      }
    }
  }

  lemma {:induction false} SumGroupsCons(h: Hit, hits: seq<Hit>, keys: seq<Key>)
    ensures SumGroups([h] + hits, keys) == Occurrences(KeyOf(h), keys) + SumGroups(hits, keys)
  {
    if |keys| > 0 {
      assert ([h] + hits)[1..] == hits;
      SumGroupsCons(h, hits, keys[1..]);
    }
  }

  /** Every hit lies in exactly one of a distinct list of groups that
      covers all of them. */
  lemma {:induction false} SumGroupsCovers(hits: seq<Hit>, keys: seq<Key>)
    requires Distinct(keys)
    requires forall h :: h in hits ==> KeyOf(h) in keys
    ensures SumGroups(hits, keys) == |hits|
  {
    if |hits| == 0 {
      SumGroupsEmpty(keys);
    } else {
      assert hits == [hits[0]] + hits[1..];
      SumGroupsCons(hits[0], hits[1..], keys);
      OccurrencesOfDistinct(KeyOf(hits[0]), keys);
      SumGroupsCovers(hits[1..], keys);
    }
  }

  lemma {:induction false} SumGroupsEmpty(keys: seq<Key>)
    ensures SumGroups([], keys) == 0
  {
    if |keys| > 0 {
      SumGroupsEmpty(keys[1..]);
    }
  }

  lemma {:induction false} SumRowsIsSumGroups(hits: seq<Hit>, keys: seq<Key>)
    ensures SumHits(Rows(hits, keys, false)) == SumGroups(hits, keys)
  {
    if |keys| > 0 {
      var r := Rows(hits, keys, false);
      assert r[1..] == Rows(hits, keys[1..], false);
      SumRowsIsSumGroups(hits, keys[1..]);
    }
  }

  lemma {:induction false} SumHitsInsert(x: ViewStats, rows: seq<ViewStats>)
    ensures SumHits(Insert(x, rows)) == x.hits + SumHits(rows)
  {
    if |rows| > 0 && x.hits < rows[0].hits {
      var r := Insert(x, rows);
      assert r[1..] == Insert(x, rows[1..]);
      SumHitsInsert(x, rows[1..]);
    }
  }

  lemma {:induction false} SumHitsSort(rows: seq<ViewStats>)
    ensures SumHits(SortDesc(rows)) == SumHits(rows)
  {
    if |rows| > 0 {
      SumHitsSort(rows[1..]);
      SumHitsInsert(rows[0], SortDesc(rows[1..]));
    }
  }

  /** The row counts of a non-unique aggregation add up to the number of
      selected hits. */
  lemma NotUniqueCountsSumToHits(hits: seq<Hit>)
    ensures SumHits(Aggregate(hits, false)) == |hits|
  {
    var keys := Keys(hits);
    SumHitsSort(Rows(hits, keys, false));
    SumRowsIsSumGroups(hits, keys);
    SumGroupsCovers(hits, keys);
  }

  /** For one group, the distinct-ip count never exceeds the row count. */
  lemma UniqueAtMostNotUnique(hits: seq<Hit>, u: ViewStats, n: ViewStats)
    requires u in Aggregate(hits, true) && n in Aggregate(hits, false)
    requires RowKey(u) == RowKey(n)
    ensures u.hits <= n.hits
  {
  }

  /** The unique and non-unique aggregations name the same groups. */
  lemma SameGroupsBothWays(hits: seq<Hit>)
    ensures forall u :: u in Aggregate(hits, true) ==> exists n :: n in Aggregate(hits, false) && RowKey(n) == RowKey(u)
    ensures forall n :: n in Aggregate(hits, false) ==> exists u :: u in Aggregate(hits, true) && RowKey(u) == RowKey(n)
  {
    forall u | u in Aggregate(hits, true)
      ensures exists n :: n in Aggregate(hits, false) && RowKey(n) == RowKey(u)
    {
      GroupInOtherAggregate(hits, true, false, u);
    }
    forall n | n in Aggregate(hits, false)
      ensures exists u :: u in Aggregate(hits, true) && RowKey(u) == RowKey(n)
    {
      GroupInOtherAggregate(hits, false, true, n);
    }
  }

  /** A group of one aggregation is a group of any other. */
  lemma GroupInOtherAggregate(hits: seq<Hit>, unique: bool, other: bool, v: ViewStats)
    requires v in Aggregate(hits, unique)
    ensures exists w :: w in Aggregate(hits, other) && RowKey(w) == RowKey(v)
  {
    var h :| h in hits && KeyOf(h) == RowKey(v);
    var w :| w in Aggregate(hits, other) && RowKey(w) == KeyOf(h);
  }

  /** An empty window selects nothing. */
  lemma EmptyWindow(hits: seq<Hit>, start: int, end: int, uris: Option<seq<string>>, unique: bool)
    requires start > end
    ensures Aggregate(Filter(hits, start, end, uris), unique) == []
  {
  }
}
