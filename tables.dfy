/** The main service's database: one table per entity, keyed by id, with
    the id sequence that numbers each table (`allocationSize = 1`: every
    insert takes the sequence's next value). The invariants in `Valid` are
    the ones the services maintain between calls; the central one is that
    every event's `confirmedRequests` counter equals the number of its
    CONFIRMED participation requests. */
module Tables {
  import opened Common
  import opened Model

  /** Ids of the CONFIRMED requests of event `e`. */
  function ConfirmedIds(requests: map<int, Request>, e: int): set<int>
  {
    set k | k in requests && requests[k].event == e && requests[k].status == Confirmed
  }

  /** `countByEventIdAndStatus(e, CONFIRMED)`. */
  function ConfirmedCount(requests: map<int, Request>, e: int): nat
  {
    |ConfirmedIds(requests, e)|
  }

  /** `findByRequesterIdAndEventId(userId, eventId).isPresent()`. */
  predicate HasRequest(requests: map<int, Request>, userId: int, eventId: int)
  {
    exists k :: k in requests && requests[k].requester == userId && requests[k].event == eventId
  }

  /** `categoryRepository.findByName(name).isPresent()`. */
  predicate NameTaken(categories: map<int, Category>, name: string)
  {
    exists k :: k in categories && categories[k].name == name
  }

  /** `userRepository.findByEmail(email).isPresent()`. */
  predicate EmailTaken(users: map<int, User>, email: string)
  {
    exists k :: k in users && users[k].email == email
  }

  /** The status of every request in `batch` replaced by `s`. */
  function WithStatus(requests: map<int, Request>, batch: set<int>, s: RequestStatus): (r: map<int, Request>)
    ensures r.Keys == requests.Keys
    ensures forall k :: k in requests && k !in batch ==> r[k] == requests[k]
    ensures forall k :: k in requests && k in batch ==> r[k] == requests[k].(status := s)
  {
    map k | k in requests :: if k in batch then requests[k].(status := s) else requests[k]
  }

  /** The participant limit of an event with a positive limit is respected. */
  predicate WithinLimit(e: Event)
  {
    e.participantLimit > 0 ==> e.confirmedRequests <= e.participantLimit
  }

  ghost predicate UsersKeyed(users: map<int, User>, next: int)
  {
    forall k :: k in users ==> users[k].id == k < next
  }

  ghost predicate CategoriesKeyed(categories: map<int, Category>, next: int)
  {
    forall k :: k in categories ==> categories[k].id == k < next
  }

  ghost predicate EventsKeyed(events: map<int, Event>, next: int)
  {
    forall k :: k in events ==> events[k].id == k < next
  }

  ghost predicate RequestsKeyed(requests: map<int, Request>, next: int)
  {
    forall k :: k in requests ==> requests[k].id == k < next
  }

  ghost predicate CompilationsKeyed(compilations: map<int, Compilation>, next: int)
  {
    forall k :: k in compilations ==> compilations[k].id == k < next
  }

  /** No two categories share a name. */
  ghost predicate NamesUnique(categories: map<int, Category>)
  {
    forall a, b :: a in categories && b in categories && a != b ==> categories[a].name != categories[b].name
  }

  /** No two users share an e-mail. */
  ghost predicate EmailsUnique(users: map<int, User>)
  {
    forall a, b :: a in users && b in users && a != b ==> users[a].email != users[b].email
  }

  /** Every compilation lists stored events only. */
  ghost predicate CompilationsConsistent(compilations: map<int, Compilation>, events: map<int, Event>)
  {
    forall k :: k in compilations ==> compilations[k].events <= events.Keys
  }

  /** Every request refers to a stored event, no user holds two requests
      for one event, and every event's counter equals its number of
      CONFIRMED requests. */
  ghost predicate RequestsConsistent(events: map<int, Event>, requests: map<int, Request>)
  {
    && (forall k :: k in requests ==> requests[k].event in events)
    && (forall a, b :: a in requests && b in requests && a != b ==>
          requests[a].requester != requests[b].requester || requests[a].event != requests[b].event)
    && (forall e :: e in events ==> events[e].confirmedRequests == ConfirmedCount(requests, e))
  }

  class Db {
    var users: map<int, User>
    var categories: map<int, Category>
    var events: map<int, Event>
    var requests: map<int, Request>
    var compilations: map<int, Compilation>

    var userSeq: int
    var categorySeq: int
    var eventSeq: int
    var requestSeq: int
    var compilationSeq: int

    /** Every row is stored under its own id, and that id was drawn from
        the table's sequence (so the sequence's next value is unused). */
    ghost predicate KeysValid()
      reads this
    {
      && UsersKeyed(users, userSeq)
      && CategoriesKeyed(categories, categorySeq)
      && EventsKeyed(events, eventSeq)
      && RequestsKeyed(requests, requestSeq)
      && CompilationsKeyed(compilations, compilationSeq)
    }

    /** The unique columns `categories.name` and `users.email`. */
    ghost predicate UniqueColumns()
      reads this
    {
      NamesUnique(categories) && EmailsUnique(users)
    }

    /** Requests and compilations refer to stored events (events are never
        deleted), and the requests agree with the event counters. */
    ghost predicate ReferencesValid()
      reads this
    {
      RequestsConsistent(events, requests) && CompilationsConsistent(compilations, events)
    }

    ghost predicate Valid()
      reads this
    {
      KeysValid() && UniqueColumns() && ReferencesValid()
    }

    constructor ()
      ensures Valid()
      ensures users == map[] && categories == map[] && events == map[]
      ensures requests == map[] && compilations == map[]
    {
      users, categories, events, requests, compilations := map[], map[], map[], map[], map[];
      userSeq, categorySeq, eventSeq, requestSeq, compilationSeq := 1, 1, 1, 1, 1;
    }
  }

  /** Storing a new request changes the CONFIRMED count of its own event
      by one exactly when it is CONFIRMED, and no other event's count. */
  lemma ConfirmedCountAfterInsert(requests: map<int, Request>, k: int, r: Request, e: int)
    requires k !in requests
    ensures ConfirmedCount(requests[k := r], e)
         == ConfirmedCount(requests, e) + (if r.event == e && r.status == Confirmed then 1 else 0)
  {
    var before := ConfirmedIds(requests, e);
    var after := ConfirmedIds(requests[k := r], e);
    if r.event == e && r.status == Confirmed {
      assert after == before + {k};
    } else {
      assert after == before;
    }
  }

  /** Cancelling one request lowers its event's CONFIRMED count by one
      exactly when it was CONFIRMED, and leaves every count unchanged
      otherwise. */
  lemma ConfirmedCountAfterCancel(requests: map<int, Request>, k: int, e: int)
    requires k in requests
    ensures ConfirmedCount(requests[k := requests[k].(status := RequestCanceled)], e)
         == ConfirmedCount(requests, e)
            - (if requests[k].event == e && requests[k].status == Confirmed then 1 else 0)
  {
    var before := ConfirmedIds(requests, e);
    var after := ConfirmedIds(requests[k := requests[k].(status := RequestCanceled)], e);
    if requests[k].event == e && requests[k].status == Confirmed {
      assert after == before - {k};
    } else {
      assert after == before;
    }
  }

  /** Moving a batch of PENDING requests of event `e` to status `s` adds
      the batch size to `e`'s CONFIRMED count when `s` is CONFIRMED, and
      otherwise changes no count; other events' counts never change. */
  lemma ConfirmedCountAfterBatch(requests: map<int, Request>, batch: set<int>, s: RequestStatus, e: int, x: int)
    requires batch <= requests.Keys
    requires forall k :: k in batch ==> requests[k].event == e && requests[k].status == RequestPending
    ensures ConfirmedCount(WithStatus(requests, batch, s), x)
         == ConfirmedCount(requests, x) + (if s == Confirmed && x == e then |batch| else 0)
  {
    var updated := WithStatus(requests, batch, s);
    var before := ConfirmedIds(requests, x);
    var after := ConfirmedIds(updated, x);
    forall k | k in requests
      ensures k in after <==> (k in before || (s == Confirmed && x == e && k in batch))
    {
      if k in batch {
        assert updated[k] == requests[k].(status := s);
      } else {
        assert updated[k] == requests[k];
      }
    }
    if s == Confirmed && x == e {
      forall k | k in batch
        ensures k !in before
      {
        assert requests[k].status == RequestPending;
      }
      assert after == before + batch;
      assert before !! batch;
    } else {
      assert after == before;
    }
  }
}
