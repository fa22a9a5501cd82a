/** `StatsServiceImpl`: the append-only hit log of the statistics server
    and the dispatch of a statistics request to one of the four queries. */
module StatsService {
  import opened Common
  import opened StatsRepository

  class HitLog {
    var hits: seq<Hit>
    var hitSeq: int

    /** Ids come from the `hit_seq` sequence: they increase along the log
        and the sequence's next value is unused. */
    ghost predicate Valid()
      reads this
    {
      && (forall i :: 0 <= i < |hits| ==> hits[i].id < hitSeq)
      && (forall i, j :: 0 <= i < j < |hits| ==> hits[i].id < hits[j].id)
    }

    constructor ()
      ensures Valid() && hits == []
    {
      hits, hitSeq := [], 1;
    }

    /** `addHit`: appends exactly one hit carrying the given app, uri, ip
        and timestamp under a fresh id, and returns it. */
    method AddHit(app: string, uri: string, ip: string, timestamp: int) returns (h: Hit)
      requires Valid()
      modifies this
      ensures Valid()
      ensures h.app == app && h.uri == uri && h.ip == ip && h.timestamp == timestamp
      ensures forall i :: 0 <= i < |old(hits)| ==> old(hits)[i].id != h.id
      ensures hits == old(hits) + [h]
      ensures hitSeq == old(hitSeq) + 1
    {
      h := Hit(hitSeq, app, uri, ip, timestamp);
      hits := hits + [h];
      hitSeq := hitSeq + 1;
    }

    /** `getStats`: with no uri list (null or empty) the unfiltered query
        chosen by `unique` answers, whatever the bounds; with a uri list,
        `start` after `end` is a Validation error (equal bounds are
        accepted) and otherwise the uri-filtered query chosen by `unique`
        answers. The log is only read. */
    method GetStats(start: int, end: int, uris: Option<seq<string>>, unique: bool)
      returns (r: Result<seq<ViewStats>>)
      ensures uris.None? || |uris.value| == 0 ==>
        r == Ok(if unique then GetUniqueStats(hits, start, end) else GetNotUniqueStats(hits, start, end))
      ensures uris.Some? && |uris.value| > 0 && start > end ==> r == Err(Validation)
      ensures uris.Some? && |uris.value| > 0 && start <= end ==>
        r == Ok(if unique then GetUniqueStatsForUris(hits, start, end, uris.value)
                else GetNotUniqueStatsForUris(hits, start, end, uris.value))
    {
      if uris.None? || |uris.value| == 0 {
        if unique {
          return Ok(GetUniqueStats(hits, start, end));
        } else {
          return Ok(GetNotUniqueStats(hits, start, end));
        }
      }
      if start > end {
        return Err(Validation);
      }
      if unique {
        r := Ok(GetUniqueStatsForUris(hits, start, end, uris.value));
      } else {
        r := Ok(GetNotUniqueStatsForUris(hits, start, end, uris.value));
      }
    }
  }

  /** A successful statistics answer only counts hits of the window and,
      with a uri list, of the listed uris; every row's count is at least
      one. */
  lemma AnswerRowsAreSelectedGroups(hits: seq<Hit>, start: int, end: int, uris: seq<string>, unique: bool, v: ViewStats)
    requires |uris| > 0
    requires v in (if unique then GetUniqueStatsForUris(hits, start, end, uris)
                   else GetNotUniqueStatsForUris(hits, start, end, uris))
    ensures v.uri in uris && v.hits >= 1
    ensures exists h :: h in hits && start <= h.timestamp <= end && KeyOf(h) == RowKey(v)
  {
    var f := Filter(hits, start, end, Some(uris));
    var h :| h in f && KeyOf(h) == RowKey(v);
    assert h in hits && Selected(h, start, end, Some(uris));
  }
}
