/** `RequestServiceImpl`: participation requests and the confirmed-request
    counter of their event. Every store-changing operation keeps
    `Db.Valid()`, whose central clause is that each event's counter equals
    the number of its CONFIRMED requests; on top of that each operation
    keeps every event within its participant limit. */
module RequestService {
  import opened Common
  import opened Model
  import opened Tables

  /** `addRequest`: NotFound for an unknown user or event; Conflict for the
      event's own initiator, for a second request by the same user (whatever
      the first one's status), for an unpublished event, and for an event
      whose positive limit is already reached. The new request is CONFIRMED
      when the event has no limit or no moderation, PENDING otherwise, and
      a CONFIRMED one adds one to the event's counter. */
  method AddRequest(db: Db, userId: int, eventId: int, now: int) returns (r: Result<Request>)
    requires db.Valid()
    modifies db`requests, db`requestSeq, db`events
    ensures db.Valid()
    ensures userId !in old(db.users) ==> r == Err(NotFound)
    ensures eventId !in old(db.events) ==> r == Err(NotFound)
    ensures userId in old(db.users) && eventId in old(db.events) ==>
      var e := old(db.events)[eventId];
      && (e.initiator == userId ==> r == Err(Conflict))
      && (HasRequest(old(db.requests), userId, eventId) ==> r == Err(Conflict))
      && (e.state != Published ==> r == Err(Conflict))
      && (e.participantLimit > 0 && e.participantLimit <= ConfirmedCount(old(db.requests), eventId) ==> r == Err(Conflict))
    ensures r.Ok? <==>
      && userId in old(db.users) && eventId in old(db.events)
      && var e := old(db.events)[eventId];
      && e.initiator != userId
      && !HasRequest(old(db.requests), userId, eventId)
      && e.state == Published
      && !(e.participantLimit > 0 && e.participantLimit <= ConfirmedCount(old(db.requests), eventId))
    ensures r.Err? ==>
      && db.requests == old(db.requests) && db.events == old(db.events) && db.requestSeq == old(db.requestSeq)
    ensures r.Ok? ==>
      var e := old(db.events)[eventId];
      var status := if e.participantLimit == 0 || !e.requestModeration then Confirmed else RequestPending;
      var added := if status == Confirmed then 1 else 0;
      && r.value == Request(old(db.requestSeq), eventId, userId, status, now)
      && r.value.id !in old(db.requests)
      && db.requests == old(db.requests)[r.value.id := r.value]
      && db.requestSeq == old(db.requestSeq) + 1
      && db.events == old(db.events)[eventId := e.(confirmedRequests := e.confirmedRequests + added)]
      && WithinLimit(db.events[eventId])
  {
    if userId !in db.users {
      return Err(NotFound);
    }
    if eventId !in db.events {
      return Err(NotFound);
    }
    var event := db.events[eventId];
    if event.initiator == userId {
      return Err(Conflict);
    }
    if HasRequest(db.requests, userId, eventId) {
      return Err(Conflict);
    }
    if event.state != Published {
      return Err(Conflict);
    }
    var limit := event.participantLimit;
    if limit > 0 && limit <= ConfirmedCount(db.requests, eventId) {
      return Err(Conflict);
    }
    var request := Request(db.requestSeq, eventId, userId,
                           if event.requestModeration then RequestPending else Confirmed, now);
    if event.participantLimit == 0 {
      request := request.(status := Confirmed);
    }
    StoreRequest(db, request);
    return Ok(request);
  }

  /** Storing a new request under the sequence's next id, and counting it
      on its event when it is CONFIRMED, keeps the invariant. */
  method StoreRequest(db: Db, request: Request)
    requires db.Valid()
    requires request.id == db.requestSeq && request.event in db.events
    requires !HasRequest(db.requests, request.requester, request.event)
    modifies db`requests, db`requestSeq, db`events
    ensures db.Valid()
    ensures request.id !in old(db.requests)
    ensures db.requests == old(db.requests)[request.id := request]
    ensures db.requestSeq == old(db.requestSeq) + 1
    ensures var e := old(db.events)[request.event];
      db.events == old(db.events)[request.event :=
        e.(confirmedRequests := e.confirmedRequests + if request.status == Confirmed then 1 else 0)]
  {
    InsertKeepsConsistency(db.events, db.requests, request);
    if request.status == Confirmed {
      var event := db.events[request.event];
      event := event.(confirmedRequests := event.confirmedRequests + 1);
      db.events := db.events[request.event := event];
    }
    db.requests := db.requests[request.id := request];
    db.requestSeq := db.requestSeq + 1;
  }

  /** A new request for a stored event, by a user without one for it,
      keeps the requests consistent with the counters once its event
      counts it (when CONFIRMED). */
  lemma InsertKeepsConsistency(events: map<int, Event>, requests: map<int, Request>, q: Request)
    requires RequestsConsistent(events, requests)
    requires q.id !in requests && q.event in events
    requires !HasRequest(requests, q.requester, q.event)
    ensures var e := events[q.event];
      RequestsConsistent(
        events[q.event := e.(confirmedRequests := e.confirmedRequests + if q.status == Confirmed then 1 else 0)],
        requests[q.id := q])
  {
    var e := events[q.event];
    var after := events[q.event := e.(confirmedRequests := e.confirmedRequests + if q.status == Confirmed then 1 else 0)];
    var reqs := requests[q.id := q];
    forall x | x in after
      ensures after[x].confirmedRequests == ConfirmedCount(reqs, x)
    {
      ConfirmedCountAfterInsert(requests, q.id, q, x);
    }
  }

  /** `cancelRequest`: NotFound for an unknown request, Forbidden for a
      caller who is not its requester. Otherwise the request becomes
      CANCELED, and the event's counter drops by one exactly when the
      request was CONFIRMED, so cancelling a request twice lowers the
      counter at most once. */
  method CancelRequest(db: Db, userId: int, requestId: int) returns (r: Result<Request>)
    requires db.Valid()
    modifies db`requests, db`events
    ensures db.Valid()
    ensures requestId !in old(db.requests) ==> r == Err(NotFound)
    ensures requestId in old(db.requests) && old(db.requests)[requestId].requester != userId ==> r == Err(Forbidden)
    ensures r.Ok? <==> requestId in old(db.requests) && old(db.requests)[requestId].requester == userId
    ensures r.Err? ==> db.requests == old(db.requests) && db.events == old(db.events)
    ensures r.Ok? ==>
      var q := old(db.requests)[requestId];
      var e := old(db.events)[q.event];
      && r.value == q.(status := RequestCanceled)
      && db.requests == old(db.requests)[requestId := r.value]
      && db.events == if q.status == Confirmed
                      then old(db.events)[q.event := e.(confirmedRequests := e.confirmedRequests - 1)]
                      else old(db.events)
    ensures forall x :: x in old(db.events) && WithinLimit(old(db.events)[x]) ==> WithinLimit(db.events[x])
  {
    if requestId !in db.requests {
      return Err(NotFound);
    }
    var request := db.requests[requestId];
    if request.requester != userId {
      return Err(Forbidden);
    }
    CancelKeepsConsistency(db.events, db.requests, requestId);
    if request.status == Confirmed {
      var event := db.events[request.event];
      event := event.(confirmedRequests := event.confirmedRequests - 1);
      db.events := db.events[request.event := event];
    }
    request := request.(status := RequestCanceled);
    db.requests := db.requests[requestId := request];
    return Ok(request);
  }

  /** Cancelling a request keeps the requests consistent with the
      counters once its event stops counting it (when it was CONFIRMED). */
  lemma CancelKeepsConsistency(events: map<int, Event>, requests: map<int, Request>, k: int)
    requires RequestsConsistent(events, requests) && k in requests
    ensures var q := requests[k];
      var e := events[q.event];
      RequestsConsistent(
        if q.status == Confirmed then events[q.event := e.(confirmedRequests := e.confirmedRequests - 1)] else events,
        requests[k := q.(status := RequestCanceled)])
  {
    var q := requests[k];
    var e := events[q.event];
    var after := if q.status == Confirmed then events[q.event := e.(confirmedRequests := e.confirmedRequests - 1)] else events;
    var reqs := requests[k := q.(status := RequestCanceled)];
    forall x | x in after
      ensures after[x].confirmedRequests == ConfirmedCount(reqs, x)
    {
      ConfirmedCountAfterCancel(requests, k, x);
    }
  }

  /** `findAllById`: the listed ids that name a stored request, each once. */
  function Found(requests: map<int, Request>, ids: seq<int>): (r: set<int>)
    ensures r <= requests.Keys
    ensures forall k :: k in r <==> k in ids && k in requests
  {
    set k | k in ids && k in requests
  }

  /** A batch is acceptable when every found request is a PENDING request
      of the event. */
  predicate BatchPending(requests: map<int, Request>, batch: set<int>, eventId: int)
    requires batch <= requests.Keys
  {
    forall k :: k in batch ==> requests[k].event == eventId && requests[k].status == RequestPending
  }

  /** `RequestStatusUpdateResult`: the requests confirmed and the requests
      rejected by one call, as stored afterwards. */
  datatype StatusUpdateResult = StatusUpdateResult(confirmedRequests: set<Request>, rejectedRequests: set<Request>)

  /** The rows of `batch` in a requests table. */
  function Rows(requests: map<int, Request>, batch: set<int>): (r: set<Request>)
    requires batch <= requests.Keys
    ensures forall k :: k in batch ==> requests[k] in r
    ensures forall q :: q in r ==> exists k :: k in batch && requests[k] == q
  {
    set k | k in batch :: requests[k]
  }

  /** The status of every listed, stored request set to `status`, one id
      at a time and in a copy of the table. */
  method SetStatus(requests: map<int, Request>, ids: seq<int>, status: RequestStatus) returns (updated: map<int, Request>)
    ensures updated == WithStatus(requests, Found(requests, ids), status)
  {
    updated := requests;
    var i := 0;
    while i < |ids|
      invariant 0 <= i <= |ids|
      invariant updated == WithStatus(requests, Found(requests, ids[..i]), status)
    {
      var id := ids[i];
      assert ids[..i + 1] == ids[..i] + [id];
      if id in requests {
        updated := updated[id := requests[id].(status := status)];
      }
      i := i + 1;
    }
    assert ids[..i] == ids;
  }

  /** Storing a PENDING batch of one event under its new status: moving
      it to CONFIRMED adds the batch size to that event's counter, any
      other status changes no counter, so the counters still equal the
      CONFIRMED counts. */
  method CommitBatch(db: Db, eventId: int, batch: set<int>, status: RequestStatus, updated: map<int, Request>)
    requires db.Valid() && eventId in db.events
    requires batch <= db.requests.Keys && BatchPending(db.requests, batch, eventId)
    requires updated == WithStatus(db.requests, batch, status)
    modifies db`requests, db`events
    ensures db.Valid()
    ensures db.requests == updated
    ensures var e := old(db.events)[eventId];
      db.events == if status == Confirmed
                   then old(db.events)[eventId := e.(confirmedRequests := e.confirmedRequests + |batch|)]
                   else old(db.events)
  {
    BatchKeepsConsistency(db.events, db.requests, batch, status, eventId);
    assert forall k :: k in updated ==> updated[k].id == db.requests[k].id;
    db.requests := updated;
    if status == Confirmed {
      var event := db.events[eventId];
      event := event.(confirmedRequests := event.confirmedRequests + |batch|);
      db.events := db.events[eventId := event];
    }
  }

  /** Moving a PENDING batch of one event to a new status keeps the
      requests consistent with the counters once the event counts the
      batch (when the status is CONFIRMED). */
  lemma BatchKeepsConsistency(events: map<int, Event>, requests: map<int, Request>, batch: set<int>,
                              status: RequestStatus, eventId: int)
    requires RequestsConsistent(events, requests) && eventId in events
    requires batch <= requests.Keys && BatchPending(requests, batch, eventId)
    ensures var e := events[eventId];
      RequestsConsistent(
        if status == Confirmed then events[eventId := e.(confirmedRequests := e.confirmedRequests + |batch|)] else events,
        WithStatus(requests, batch, status))
  {
    var e := events[eventId];
    var after := if status == Confirmed then events[eventId := e.(confirmedRequests := e.confirmedRequests + |batch|)] else events;
    var reqs := WithStatus(requests, batch, status);
    forall a, b | a in reqs && b in reqs && a != b
      ensures reqs[a].requester != reqs[b].requester || reqs[a].event != reqs[b].event
    {
      assert reqs[a].requester == requests[a].requester && reqs[a].event == requests[a].event;
      assert reqs[b].requester == requests[b].requester && reqs[b].event == requests[b].event;
    }
    forall x | x in after
      ensures after[x].confirmedRequests == ConfirmedCount(reqs, x)
    {
      ConfirmedCountAfterBatch(requests, batch, status, eventId, x);
    }
  }

  /** `changeRequestStatus`: the event is looked up by id and initiator, so
      a stranger gets NotFound (the Forbidden branch after it cannot be
      reached). Unknown request ids are dropped. A found request of another
      event or not PENDING is a Conflict; so is a confirmation that would
      take the counter past the limit (a limit of 0 admits no non-empty
      batch here) and a target status other than CONFIRMED or REJECTED.
      On success every found request takes the target status and a
      confirmation adds the batch size to the counter. Nothing changes on
      an error. */
  method ChangeRequestStatus(db: Db, userId: int, eventId: int, requestIds: seq<int>, status: RequestStatus)
    returns (r: Result<StatusUpdateResult>)
    requires db.Valid()
    modifies db`requests, db`events
    ensures db.Valid()
    ensures eventId !in old(db.events) || old(db.events)[eventId].initiator != userId ==> r == Err(NotFound)
    ensures r.Err? ==> r.error == NotFound || r.error == Conflict
    ensures r.Err? ==> db.requests == old(db.requests) && db.events == old(db.events)
    ensures eventId in old(db.events) && old(db.events)[eventId].initiator == userId ==>
      var e := old(db.events)[eventId];
      var batch := Found(old(db.requests), requestIds);
      && (!BatchPending(old(db.requests), batch, eventId) ==> r == Err(Conflict))
      && (status == Confirmed && e.confirmedRequests + |batch| > e.participantLimit ==> r == Err(Conflict))
      && (status != Confirmed && status != Rejected ==> r == Err(Conflict))
    ensures r.Ok? <==>
      && eventId in old(db.events) && old(db.events)[eventId].initiator == userId
      && var e := old(db.events)[eventId];
      && var batch := Found(old(db.requests), requestIds);
      && BatchPending(old(db.requests), batch, eventId)
      && (status == Confirmed || status == Rejected)
      && (status == Confirmed ==> e.confirmedRequests + |batch| <= e.participantLimit)
    ensures r.Ok? ==>
      var e := old(db.events)[eventId];
      var batch := Found(old(db.requests), requestIds);
      && db.requests == WithStatus(old(db.requests), batch, status)
      && (status == Confirmed ==>
            && db.events == old(db.events)[eventId := e.(confirmedRequests := e.confirmedRequests + |batch|)]
            && r.value == StatusUpdateResult(Rows(db.requests, batch), {}))
      && (status == Rejected ==>
            && db.events == old(db.events)
            && r.value == StatusUpdateResult({}, Rows(db.requests, batch)))
    ensures forall x :: x in old(db.events) && WithinLimit(old(db.events)[x]) ==> WithinLimit(db.events[x])
  {
    if eventId !in db.events || db.events[eventId].initiator != userId {
      return Err(NotFound);
    }
    var event := db.events[eventId];
    var batch := Found(db.requests, requestIds);
    if !BatchPending(db.requests, batch, eventId) {
      return Err(Conflict);
    }
    if status == Confirmed && event.confirmedRequests + |batch| > event.participantLimit {
      return Err(Conflict);
    }
    // `requests.forEach(r -> r.setStatus(newStatus))`, on a working copy
    // that is committed only once the target status is known to be valid.
    var updated := SetStatus(db.requests, requestIds, status);
    if status == Confirmed {
      CommitBatch(db, eventId, batch, status, updated);
      return Ok(StatusUpdateResult(Rows(updated, batch), {}));
    } else if status == Rejected {
      CommitBatch(db, eventId, batch, status, updated);
      return Ok(StatusUpdateResult({}, Rows(updated, batch)));
    } else {
      return Err(Conflict);
    }
  }

  /** `getUserRequests`: NotFound for an unknown user, otherwise exactly
      the requests the user made. */
  function GetUserRequests(db: Db, userId: int): (r: Result<set<Request>>)
    reads db
    ensures r.Err? <==> userId !in db.users
    ensures r.Err? ==> r.error == NotFound
    ensures r.Ok? ==> forall q :: q in r.value <==> q in db.requests.Values && q.requester == userId
  {
    if userId !in db.users then Err(NotFound)
    else Ok(set q | q in db.requests.Values && q.requester == userId)
  }

  /** `getEventParticipants`: NotFound unless the event exists and belongs
      to the caller (the Forbidden branch after the lookup cannot be
      reached), otherwise exactly the requests for that event. */
  function GetEventParticipants(db: Db, userId: int, eventId: int): (r: Result<set<Request>>)
    reads db
    ensures r.Err? <==> eventId !in db.events || db.events[eventId].initiator != userId
    ensures r.Err? ==> r.error == NotFound
    ensures r.Ok? ==> forall q :: q in r.value <==> q in db.requests.Values && q.event == eventId
  {
    if eventId !in db.events || db.events[eventId].initiator != userId then Err(NotFound)
    else Ok(set q | q in db.requests.Values && q.event == eventId)
  }
}
