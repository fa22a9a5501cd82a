/** `EventServiceImpl`: creation of events, the moderation state machine
    driven through the owner's and the administrator's update requests,
    the argument checks of the public event search, and the mapping
    between event ids and the `/events/{id}` uris whose hit counts are the
    events' views. Times are seconds; `now` stands for
    `LocalDateTime.now()`. */
module EventService {
  import opened Common
  import opened Model
  import opened Tables
  import opened Decimal
  import opened StatsRepository

  const OneHour: int := 3600
  const TwoHours: int := 7200

  /** `EventCreateDto`; an absent `paid`, `participantLimit` or
      `requestModeration` takes the DTO's default. */
  datatype EventCreate = EventCreate(
    title: string,
    annotation: string,
    description: string,
    category: int,
    eventDate: int,
    location: Location,
    paid: Option<bool>,
    participantLimit: Option<int>,
    requestModeration: Option<bool>)

  /** The fields shared by the owner's and the administrator's update
      DTOs; `None` is a null field. */
  datatype EventPatch = EventPatch(
    title: Option<string>,
    annotation: Option<string>,
    description: Option<string>,
    category: Option<int>,
    eventDate: Option<int>,
    location: Option<Location>,
    paid: Option<bool>,
    participantLimit: Option<int>,
    requestModeration: Option<bool>,
    stateAction: Option<StateAction>)

  const EmptyPatch := EventPatch(None, None, None, None, None, None, None, None, None, None)

  // ---------------------------------------------------------------- creation

  /** `addEvent`: an unknown user is NotFound, an unknown category a
      Validation error; otherwise the event is stored PENDING, with no
      confirmed requests, created now, never published, with the DTO's
      defaults for the omitted flags. */
  method AddEvent(db: Db, userId: int, dto: EventCreate, now: int) returns (r: Result<Event>)
    requires db.Valid()
    modifies db`events, db`eventSeq
    ensures db.Valid()
    ensures userId !in old(db.users) ==> r == Err(NotFound)
    ensures userId in old(db.users) && dto.category !in old(db.categories) ==> r == Err(Validation)
    ensures r.Ok? <==> userId in old(db.users) && dto.category in old(db.categories)
    ensures r.Err? ==> db.events == old(db.events) && db.eventSeq == old(db.eventSeq)
    ensures r.Ok? ==>
      var e := r.value;
      && e.id == old(db.eventSeq) && e.id !in old(db.events)
      && e.state == Pending && e.confirmedRequests == 0 && e.createdOn == now
      && e.publishedOn == None && e.moderationResolution == None
      && e.initiator == userId && e.category == dto.category
      && e.title == dto.title && e.annotation == dto.annotation && e.description == dto.description
      && e.eventDate == dto.eventDate && e.location == dto.location
      && e.paid == Patch(false, dto.paid)
      && e.participantLimit == Patch(0, dto.participantLimit)
      && e.requestModeration == Patch(true, dto.requestModeration)
      && db.events == old(db.events)[e.id := e]
      && db.eventSeq == old(db.eventSeq) + 1
  {
    if userId !in db.users {
      return Err(NotFound);
    }
    if dto.category !in db.categories {
      return Err(Validation);
    }
    var event := Event(
      db.eventSeq, dto.title, dto.annotation, dto.description, userId, dto.category,
      dto.eventDate, 0, dto.location, Patch(false, dto.paid), Patch(0, dto.participantLimit),
      Patch(true, dto.requestModeration), Pending, now, None, None);
    assert event.id !in db.events;
    assert forall k :: k in db.requests ==> db.requests[k].event != event.id;
    assert ConfirmedIds(db.requests, event.id) == {};
    db.events := db.events[event.id := event];
    db.eventSeq := db.eventSeq + 1;
    return Ok(event);
  }

  // ------------------------------------------------------------ event search

  datatype SortOrder = ById | ByViews | ByEventDate

  /** The validated arguments of the public event search. */
  datatype EventsQuery = EventsQuery(order: SortOrder, rangeStart: int, rangeEnd: Option<int>)

  /** The argument checks of `getEvents`: both range bounds given with the
      start not strictly before the end (equal bounds included) is a
      Validation error; so is a sort that is neither "VIEWS" nor
      "EVENT_DATE" ignoring case. A missing start defaults to now. */
  function GetEventsArgs(rangeStart: Option<int>, rangeEnd: Option<int>, sort: Option<string>, now: int)
    : (r: Result<EventsQuery>)
    ensures rangeStart.Some? && rangeEnd.Some? && rangeStart.value >= rangeEnd.value ==> r == Err(Validation)
    ensures sort.Some? && !EqualsIgnoreCase(sort.value, "VIEWS") && !EqualsIgnoreCase(sort.value, "EVENT_DATE")
      ==> r == Err(Validation)
    ensures r.Err? ==> r.error == Validation
    ensures r.Ok? <==>
      && !(rangeStart.Some? && rangeEnd.Some? && rangeStart.value >= rangeEnd.value)
      && (sort.None? || EqualsIgnoreCase(sort.value, "VIEWS") || EqualsIgnoreCase(sort.value, "EVENT_DATE"))
    ensures r.Ok? ==>
      && (rangeStart.Some? && rangeEnd.Some? ==> rangeStart.value < rangeEnd.value)
      && r.value.rangeStart == (if rangeStart.Some? then rangeStart.value else now)
      && r.value.rangeEnd == rangeEnd
      && (sort.None? <==> r.value.order == ById)
      && (r.value.order == ByViews ==> EqualsIgnoreCase(sort.value, "VIEWS"))
      && (r.value.order == ByEventDate ==> EqualsIgnoreCase(sort.value, "EVENT_DATE"))
  {
    if rangeStart.Some? && rangeEnd.Some? && !(rangeStart.value < rangeEnd.value) then Err(Validation)
    else
      var order :=
        if sort.None? then Ok(ById)
        else if EqualsIgnoreCase(sort.value, "VIEWS") then Ok(ByViews)
        else if EqualsIgnoreCase(sort.value, "EVENT_DATE") then Ok(ByEventDate)
        else Err(Validation);
      if order.Err? then Err(Validation)
      else Ok(EventsQuery(order.value, Patch(now, rangeStart), rangeEnd))
  }

  // ---------------------------------------------------------- state machine

  /** The owner's actions: SEND_TO_REVIEW makes the event PENDING,
      CANCEL_REVIEW makes it CANCELED, from whatever unpublished state;
      any other action is a Validation error. */
  function OwnerTransition(a: StateAction): (r: Result<EventState>)
    ensures r.Ok? <==> a == SendToReview || a == CancelReview
    ensures r.Err? ==> r.error == Validation
    ensures r.Ok? ==> r.value == Pending || r.value == Canceled
    ensures a == SendToReview ==> r == Ok(Pending)
    ensures a == CancelReview ==> r == Ok(Canceled)
  {
    match a
    case SendToReview => Ok(Pending)
    case CancelReview => Ok(Canceled)
    case _ => Err(Validation)
  }

  /** The administrator's actions on an event in state `s` whose stored
      date is `eventDate`. */
  function AdminTransition(s: EventState, a: StateAction, resolution: Option<string>, eventDate: int, now: int)
    : (r: Result<EventState>)
    ensures r == Ok(Published) <==> a == PublishEvent && s == Pending && eventDate - OneHour >= now
    ensures a == PublishEvent && s != Pending ==> r == Err(Conflict)
    ensures a == PublishEvent && eventDate - OneHour < now ==> r == Err(Conflict)
    ensures (a == ReturnEventForModify || a == RejectEvent) && s == Published ==> r == Err(Conflict)
    ensures a == ReturnEventForModify && s != Published ==>
      r == (if resolution.None? || IsBlank(resolution.value) then Err(Validation) else Ok(ModerationFailed))
    ensures a == RejectEvent && s != Published ==> r == Ok(Canceled)
    ensures a == SendToReview || a == CancelReview ==> r == Err(Validation)
    ensures s == Published ==> r.Err?
  {
    match a
    case PublishEvent =>
      if s != Pending then Err(Conflict)
      else if eventDate - OneHour < now then Err(Conflict)
      else Ok(Published)
    case ReturnEventForModify =>
      if s == Published then Err(Conflict)
      else if resolution.None? || IsBlank(resolution.value) then Err(Validation)
      else Ok(ModerationFailed)
    case RejectEvent =>
      if s == Published then Err(Conflict) else Ok(Canceled)
    case _ => Err(Validation)
  }

  /** The plain fields of a patch applied to an event; everything the
      patch does not name (id, initiator, counter, state, timestamps,
      resolution) is kept. */
  function PatchFields(e: Event, p: EventPatch): (r: Event)
    ensures r.id == e.id && r.initiator == e.initiator && r.confirmedRequests == e.confirmedRequests
    ensures r.state == e.state && r.createdOn == e.createdOn
    ensures r.publishedOn == e.publishedOn && r.moderationResolution == e.moderationResolution
  {
    e.(title := Patch(e.title, p.title),
       annotation := Patch(e.annotation, p.annotation),
       description := Patch(e.description, p.description),
       category := Patch(e.category, p.category),
       eventDate := Patch(e.eventDate, p.eventDate),
       location := Patch(e.location, p.location),
       paid := Patch(e.paid, p.paid),
       participantLimit := Patch(e.participantLimit, p.participantLimit),
       requestModeration := Patch(e.requestModeration, p.requestModeration))
  }

  /** Each given field overwrites exactly its own column. */
  lemma PatchFieldsOverwrites(e: Event, p: EventPatch)
    ensures p.title.Some? ==> PatchFields(e, p).title == p.title.value
    ensures p.title.None? ==> PatchFields(e, p).title == e.title
    ensures p.eventDate.Some? ==> PatchFields(e, p).eventDate == p.eventDate.value
    ensures p.eventDate.None? ==> PatchFields(e, p).eventDate == e.eventDate
    ensures p.participantLimit.Some? ==> PatchFields(e, p).participantLimit == p.participantLimit.value
    ensures p.participantLimit.None? ==> PatchFields(e, p).participantLimit == e.participantLimit
    ensures p.annotation.Some? ==> PatchFields(e, p).annotation == p.annotation.value
    ensures p.annotation.None? ==> PatchFields(e, p).annotation == e.annotation
    ensures p.description.Some? ==> PatchFields(e, p).description == p.description.value
    ensures p.description.None? ==> PatchFields(e, p).description == e.description
    ensures p.category.Some? ==> PatchFields(e, p).category == p.category.value
    ensures p.category.None? ==> PatchFields(e, p).category == e.category
    ensures p.location.Some? ==> PatchFields(e, p).location == p.location.value
    ensures p.location.None? ==> PatchFields(e, p).location == e.location
    ensures p.paid.Some? ==> PatchFields(e, p).paid == p.paid.value
    ensures p.paid.None? ==> PatchFields(e, p).paid == e.paid
    ensures p.requestModeration.Some? ==> PatchFields(e, p).requestModeration == p.requestModeration.value
    ensures p.requestModeration.None? ==> PatchFields(e, p).requestModeration == e.requestModeration
  {
  }

  /** A patch of nulls changes nothing; applying a patch twice is applying
      it once. */
  lemma PatchLaws(e: Event, p: EventPatch)
    ensures PatchFields(e, EmptyPatch) == e
    ensures PatchFields(PatchFields(e, p), p) == PatchFields(e, p)
  {
  }

  /** A patch's category, when given, names a stored category. */
  predicate CategoryKnown(p: EventPatch, categoryIds: set<int>)
  {
    p.category.None? || p.category.value in categoryIds
  }

  /** A patch's date, when given, is not in the past. */
  predicate DateNotPast(p: EventPatch, now: int)
  {
    p.eventDate.None? || p.eventDate.value >= now
  }

  /** `updateEventByUserData`: an unknown category, an action other than
      the owner's two, or a past date is a Validation error, checked in
      that order; otherwise the given fields are written and the action
      sets the state. */
  method UpdateEventByUserData(event: Event, p: EventPatch, categoryIds: set<int>, now: int)
    returns (r: Result<Event>)
    ensures r.Err? ==> r.error == Validation
    ensures r.Ok? <==>
      && CategoryKnown(p, categoryIds)
      && (p.stateAction.Some? ==> OwnerTransition(p.stateAction.value).Ok?)
      && DateNotPast(p, now)
    ensures r.Ok? ==> r.value == PatchFields(event, p).(
      state := if p.stateAction.Some? then OwnerTransition(p.stateAction.value).value else event.state)
  {
    if p.category.Some? && p.category.value !in categoryIds {
      return Err(Validation);
    }
    var e := event;
    if p.stateAction.Some? {
      var action := p.stateAction.value;
      if action == SendToReview {
        e := e.(state := Pending);
      } else if action == CancelReview {
        e := e.(state := Canceled);
      } else {
        return Err(Validation);
      }
    }
    if p.eventDate.Some? && p.eventDate.value < now {
      return Err(Validation);
    }
    return Ok(PatchFields(e, p));
  }

  /** The administrator's action applied to an event: the checks of
      `AdminTransition` against the event as loaded, then the new state;
      publishing also stamps `publishedOn` and clears the resolution,
      returning for modification stores the resolution. */
  method ApplyAdminAction(event: Event, a: StateAction, resolution: Option<string>, now: int)
    returns (r: Result<Event>)
    ensures var t := AdminTransition(event.state, a, resolution, event.eventDate, now);
      && (t.Err? ==> r == Err(t.error))
      && (t.Ok? ==> r == Ok(event.(
            state := t.value,
            publishedOn := if a == PublishEvent then Some(now) else event.publishedOn,
            moderationResolution :=
              if a == PublishEvent then None
              else if a == ReturnEventForModify then resolution
              else event.moderationResolution)))
  {
    var state := event.state;
    if a == PublishEvent {
      if state != Pending {
        return Err(Conflict);
      }
      if event.eventDate - OneHour < now {
        return Err(Conflict);
      }
      return Ok(event.(state := Published, publishedOn := Some(now), moderationResolution := None));
    } else if a == ReturnEventForModify {
      if state == Published {
        return Err(Conflict);
      }
      if resolution.None? || IsBlank(resolution.value) {
        return Err(Validation);
      }
      return Ok(event.(state := ModerationFailed, moderationResolution := resolution));
    } else if a == RejectEvent {
      if state == Published {
        return Err(Conflict);
      }
      return Ok(event.(state := Canceled));
    } else {
      return Err(Validation);
    }
  }

  /** `updateEventByAdminData`: an unknown category is a Validation error,
      checked first; then the action's own checks (`AdminTransition`,
      against the state and the date stored before this update); then a
      past date is a Validation error. Publishing stamps `publishedOn` and
      clears the resolution, returning for modification stores it. */
  method UpdateEventByAdminData(event: Event, p: EventPatch, resolution: Option<string>, categoryIds: set<int>, now: int)
    returns (r: Result<Event>)
    ensures !CategoryKnown(p, categoryIds) ==> r == Err(Validation)
    ensures CategoryKnown(p, categoryIds) && p.stateAction.Some?
      && AdminTransition(event.state, p.stateAction.value, resolution, event.eventDate, now).Err?
      ==> r == Err(AdminTransition(event.state, p.stateAction.value, resolution, event.eventDate, now).error)
    ensures r.Ok? <==>
      && CategoryKnown(p, categoryIds)
      && (p.stateAction.Some? ==> AdminTransition(event.state, p.stateAction.value, resolution, event.eventDate, now).Ok?)
      && DateNotPast(p, now)
    ensures r.Err? && r.error != Validation ==> r.error == Conflict
    ensures CategoryKnown(p, categoryIds)
      && (p.stateAction.Some? ==> AdminTransition(event.state, p.stateAction.value, resolution, event.eventDate, now).Ok?)
      && !DateNotPast(p, now)
      ==> r == Err(Validation)
    ensures r.Ok? && p.stateAction.None? ==> r.value == PatchFields(event, p)
    ensures r.Ok? && p.stateAction.Some? ==>
      var a := p.stateAction.value;
      r.value == PatchFields(event, p).(
        state := AdminTransition(event.state, a, resolution, event.eventDate, now).value,
        publishedOn := if a == PublishEvent then Some(now) else event.publishedOn,
        moderationResolution :=
          if a == PublishEvent then None
          else if a == ReturnEventForModify then resolution
          else event.moderationResolution)
  {
    if p.category.Some? && p.category.value !in categoryIds {
      return Err(Validation);
    }
    var e := event;
    if p.stateAction.Some? {
      var acted := ApplyAdminAction(event, p.stateAction.value, resolution, now);
      if acted.Err? {
        return acted;
      }
      e := acted.value;
    }
    if p.eventDate.Some? && p.eventDate.value < now {
      return Err(Validation);
    }
    return Ok(PatchFields(e, p));
  }

  // ------------------------------------------------------------ update paths

  /** `updateEventByUser`: an unknown user, or an event that is absent or
      belongs to someone else, is NotFound; a published event, or one whose
      stored date is less than two hours away, is a Conflict; then the
      owner's patch applies. An error leaves the table as it was. */
  method UpdateEventByUser(db: Db, userId: int, eventId: int, p: EventPatch, now: int) returns (r: Result<Event>)
    requires db.Valid()
    modifies db`events
    ensures db.Valid()
    ensures userId !in old(db.users) ==> r == Err(NotFound)
    ensures eventId !in old(db.events) || old(db.events)[eventId].initiator != userId ==> r == Err(NotFound)
    ensures userId in old(db.users) && eventId in old(db.events) ==>
      var e := old(db.events)[eventId];
      && (e.initiator == userId && e.state == Published ==> r == Err(Conflict))
      && (e.initiator == userId && e.state != Published && e.eventDate - TwoHours < now ==> r == Err(Conflict))
    ensures r.Err? ==> db.events == old(db.events)
    ensures r.Err? && userId in old(db.users) && eventId in old(db.events)
      && old(db.events)[eventId].initiator == userId && old(db.events)[eventId].state != Published
      && old(db.events)[eventId].eventDate - TwoHours >= now
      ==> r.error == Validation
    ensures r.Ok? ==>
      var e := old(db.events)[eventId];
      && userId in old(db.users) && eventId in old(db.events)
      && e.initiator == userId && e.state != Published && e.eventDate >= now + TwoHours
      && (r.value.category != e.category ==> r.value.category in old(db.categories))
      && (r.value.eventDate != e.eventDate ==> r.value.eventDate >= now)
    ensures r.Ok? ==> db.events == old(db.events)[eventId := r.value]
    ensures r.Ok? <==>
      && userId in old(db.users) && eventId in old(db.events)
      && var e := old(db.events)[eventId];
      && e.initiator == userId && e.state != Published && e.eventDate - TwoHours >= now
      && CategoryKnown(p, old(db.categories).Keys)
      && (p.stateAction.Some? ==> OwnerTransition(p.stateAction.value).Ok?)
      && DateNotPast(p, now)
    ensures r.Ok? ==>
      r.value == PatchFields(old(db.events)[eventId], p).(
        state := if p.stateAction.Some? then OwnerTransition(p.stateAction.value).value
                 else old(db.events)[eventId].state)
  {
    if userId !in db.users {
      return Err(NotFound);
    }
    if eventId !in db.events || db.events[eventId].initiator != userId {
      return Err(NotFound);
    }
    var event := db.events[eventId];
    if event.state == Published {
      return Err(Conflict);
    }
    if event.eventDate - TwoHours < now {
      return Err(Conflict);
    }
    r := UpdateEventByUserData(event, p, db.categories.Keys, now);
    if r.Ok? {
      db.events := db.events[eventId := r.value];
    }
  }

  /** `updateEventByAdmin`: an absent event is NotFound; then the
      administrator's patch applies. An error leaves the table as it was. */
  method UpdateEventByAdmin(db: Db, eventId: int, p: EventPatch, resolution: Option<string>, now: int)
    returns (r: Result<Event>)
    requires db.Valid()
    modifies db`events
    ensures db.Valid()
    ensures eventId !in old(db.events) ==> r == Err(NotFound)
    ensures r.Err? ==> db.events == old(db.events)
    ensures r.Ok? <==>
      && eventId in old(db.events)
      && var e := old(db.events)[eventId];
      && CategoryKnown(p, old(db.categories).Keys)
      && (p.stateAction.Some? ==> AdminTransition(e.state, p.stateAction.value, resolution, e.eventDate, now).Ok?)
      && DateNotPast(p, now)
    ensures r.Err? && r.error != Validation && r.error != NotFound ==> r.error == Conflict
    ensures eventId in old(db.events) && !CategoryKnown(p, old(db.categories).Keys) ==> r == Err(Validation)
    ensures eventId in old(db.events) && CategoryKnown(p, old(db.categories).Keys) && p.stateAction.Some? ==>
      var e := old(db.events)[eventId];
      var t := AdminTransition(e.state, p.stateAction.value, resolution, e.eventDate, now);
      t.Err? ==> r == Err(t.error)
    ensures eventId in old(db.events) && CategoryKnown(p, old(db.categories).Keys)
      && (p.stateAction.Some? ==>
            var e := old(db.events)[eventId];
            AdminTransition(e.state, p.stateAction.value, resolution, e.eventDate, now).Ok?)
      && !DateNotPast(p, now)
      ==> r == Err(Validation)
    ensures r.Ok? ==>
      && db.events == old(db.events)[eventId := r.value]
      && r.value.id == eventId
      && r.value.confirmedRequests == old(db.events)[eventId].confirmedRequests
      && (r.value.state == Published ==> old(db.events)[eventId].state in {Pending, Published})
      && (r.value.state != old(db.events)[eventId].state ==> p.stateAction.Some?)
    ensures r.Ok? && p.stateAction.None? ==> r.value == PatchFields(old(db.events)[eventId], p)
    ensures r.Ok? && p.stateAction.Some? ==>
      var e := old(db.events)[eventId];
      var a := p.stateAction.value;
      r.value == PatchFields(e, p).(
        state := AdminTransition(e.state, a, resolution, e.eventDate, now).value,
        publishedOn := if a == PublishEvent then Some(now) else e.publishedOn,
        moderationResolution :=
          if a == PublishEvent then None
          else if a == ReturnEventForModify then resolution
          else e.moderationResolution)
  {
    if eventId !in db.events {
      return Err(NotFound);
    }
    var event := db.events[eventId];
    r := UpdateEventByAdminData(event, p, resolution, db.categories.Keys, now);
    if r.Ok? {
      db.events := db.events[eventId := r.value];
    }
  }

  /** The publication guard reads the date stored before the update, so
      one administrator request can both publish an event and move it to
      a minute from now. */
  lemma PublishGuardReadsStoredDate()
    ensures
      var now := 0;
      var stored := Event(1, "t", "a", "d", 1, 1, 2 * TwoHours, 0, Location(0.0, 0.0), false, 0, true,
                          Pending, 0, None, None);
      var p := EmptyPatch.(eventDate := Some(60), stateAction := Some(PublishEvent));
      && AdminTransition(stored.state, PublishEvent, None, stored.eventDate, now) == Ok(Published)
      && DateNotPast(p, now)
      && PatchFields(stored, p).eventDate - OneHour < now
  {
  }

  /** `getEvent`: only a published event is visible; anything else is
      NotFound. */
  function GetEvent(db: Db, eventId: int): (r: Result<Event>)
    reads db
    ensures r.Ok? <==> eventId in db.events && db.events[eventId].state == Published
    ensures r.Ok? ==> r.value == db.events[eventId]
    ensures r.Err? ==> r.error == NotFound
  {
    if eventId in db.events && db.events[eventId].state == Published then Ok(db.events[eventId])
    else Err(NotFound)
  }

  // ------------------------------------------------------------------- views

  const EventsPrefix: string := "/events/"

  /** `"/events/" + id`. */
  function EventUri(id: int): string
  {
    EventsPrefix + LongToString(id)
  }

  /** `Long.parseLong(uri.substring("/events/".length()))`: the prefix is
      cut by length, not compared; a uri shorter than the prefix or a
      malformed number gives `None`. */
  function EventIdOfUri(uri: string): (r: Option<int>)
    ensures r.Some? ==> IsLong(r.value)
  {
    if |uri| < |EventsPrefix| then None else ParseLong(uri[|EventsPrefix|..])
  }

  /** Cutting the prefix off an event's uri and parsing the rest gives the
      event's id back. */
  lemma EventUriRoundTrip(id: int)
    requires IsLong(id)
    ensures EventIdOfUri(EventUri(id)) == Some(id)
  {
    assert EventUri(id)[|EventsPrefix|..] == LongToString(id);
    ParseLongRoundTrip(id);
  }

  lemma EventUriInjective(a: int, b: int)
    requires IsLong(a) && IsLong(b) && EventUri(a) == EventUri(b)
    ensures a == b
  {
    EventUriRoundTrip(a);
    EventUriRoundTrip(b);
  }

  /** `getEventView`: the first row's count, or 0 when the statistics have
      no row for the uri. */
  function EventView(rows: seq<ViewStats>): (v: nat)
    ensures |rows| == 0 ==> v == 0
    ensures |rows| > 0 ==> v == rows[0].hits
  {
    if |rows| == 0 then 0 else rows[0].hits
  }

  /** The statistics have no row exactly when no hit was selected. */
  lemma AggregateEmptyIff(hs: seq<Hit>, unique: bool)
    ensures |Aggregate(hs, unique)| == 0 <==> |hs| == 0
  {
    var keys := Keys(hs);
    if |hs| > 0 {
      assert hs[0] in hs;
      assert KeyOf(hs[0]) in keys;
    }
  }

  /** An event has no views exactly when no hit on its uri falls in the
      queried window. */
  lemma NoViewsIffNoHits(hits: seq<Hit>, start: int, end: int, id: int)
    ensures EventView(GetUniqueStatsForUris(hits, start, end, [EventUri(id)])) == 0
        <==> forall h :: h in hits ==> !(start <= h.timestamp <= end && h.uri == EventUri(id))
  {
    var uris := [EventUri(id)];
    var f := Filter(hits, start, end, Some(uris));
    var rows := Aggregate(f, true);
    AggregateEmptyIff(f, true);
    if exists h :: h in hits && start <= h.timestamp <= end && h.uri == EventUri(id) {
      var h :| h in hits && start <= h.timestamp <= end && h.uri == EventUri(id);
      assert Selected(h, start, end, Some(uris));
      assert h in f;
      assert rows[0] in rows;
    }
  }

  lemma {:induction false} GroupOfOneKey(hs: seq<Hit>, k: Key)
    requires forall h :: h in hs ==> KeyOf(h) == k
    ensures Group(hs, k) == hs
  {
    if |hs| > 0 {
      assert hs[0] in hs;
      assert forall h :: h in hs[1..] ==> h in hs;
      GroupOfOneKey(hs[1..], k);
      assert hs == [hs[0]] + hs[1..];
    }
  }

  /** When one application records the hits of an event's uri, the
      event's views are the number of distinct ips among those hits in the
      window. */
  lemma ViewsAreDistinctIps(hits: seq<Hit>, start: int, end: int, id: int, app: string)
    requires forall h :: h in hits && h.uri == EventUri(id) ==> h.app == app
    ensures EventView(GetUniqueStatsForUris(hits, start, end, [EventUri(id)]))
         == |Ips(Filter(hits, start, end, Some([EventUri(id)])))|
  {
    var f := Filter(hits, start, end, Some([EventUri(id)]));
    var k := (app, EventUri(id));
    assert forall h :: h in f ==> KeyOf(h) == k;
    OneKeyView(f, k);
  }

  /** Hits that all share one key aggregate to at most one row, counting
      their distinct ips. */
  lemma OneKeyView(f: seq<Hit>, k: Key)
    requires forall h :: h in f ==> KeyOf(h) == k
    ensures EventView(Aggregate(f, true)) == |Ips(f)|
  {
    var rows := Aggregate(f, true);
    GroupOfOneKey(f, k);
    AggregateEmptyIff(f, true);
    if |rows| > 0 {
      assert rows[0] in rows;
      var h :| h in f && KeyOf(h) == RowKey(rows[0]);
    }
  }

  /** `getEventsView`: each row's uri parsed back to an event id, mapped to
      its count. `None` stands for the exception `Collectors.toMap` throws
      on a repeated id, or `parseLong` on a malformed uri. */
  function EventsView(rows: seq<ViewStats>): Option<map<int, nat>>
  {
    if |rows| == 0 then Some(map[])
    else
      var id := EventIdOfUri(rows[0].uri);
      var rest := EventsView(rows[1..]);
      if id.None? || rest.None? || id.value in rest.value then None
      else Some(rest.value[id.value := rows[0].hits])
  }

  /** Rows whose uris name distinct events map each event to its row's
      count, and nothing else. */
  lemma {:induction false} EventsViewOfDistinctIds(rows: seq<ViewStats>)
    requires forall i :: 0 <= i < |rows| ==> EventIdOfUri(rows[i].uri).Some?
    requires forall i, j :: 0 <= i < j < |rows| ==> EventIdOfUri(rows[i].uri) != EventIdOfUri(rows[j].uri)
    ensures EventsView(rows).Some?
    ensures forall i :: 0 <= i < |rows| ==>
      EventIdOfUri(rows[i].uri).value in EventsView(rows).value
      && EventsView(rows).value[EventIdOfUri(rows[i].uri).value] == rows[i].hits
    ensures forall id :: id in EventsView(rows).value ==>
      exists i :: 0 <= i < |rows| && EventIdOfUri(rows[i].uri) == Some(id)
  {
    if |rows| > 0 {
      var tail := rows[1..];
      assert forall i :: 0 <= i < |tail| ==> tail[i] == rows[i + 1];
      EventsViewOfDistinctIds(tail);
      var rest := EventsView(tail).value;
      var id := EventIdOfUri(rows[0].uri).value;
      assert id !in rest;
      var m := rest[id := rows[0].hits];
      assert EventsView(rows) == Some(m);
      forall i | 0 <= i < |rows|
        ensures EventIdOfUri(rows[i].uri).value in m && m[EventIdOfUri(rows[i].uri).value] == rows[i].hits
      {
        if i > 0 {
          assert tail[i - 1] == rows[i];
          assert EventIdOfUri(rows[i].uri) != EventIdOfUri(rows[0].uri);
        }
      }
      forall x | x in m
        ensures exists i :: 0 <= i < |rows| && EventIdOfUri(rows[i].uri) == Some(x)
      {
        if x != id {
          var j :| 0 <= j < |tail| && EventIdOfUri(tail[j].uri) == Some(x);
          assert EventIdOfUri(rows[j + 1].uri) == Some(x);
        }
      }
    }
  }

  /** Two rows for the same uri (hits recorded under two application
      names) make `getEventsView` fail instead of answering. */
  lemma {:induction false} EventsViewRepeatedUriFails(rows: seq<ViewStats>, i: nat, j: nat)
    requires i < j < |rows| && rows[i].uri == rows[j].uri
    ensures EventsView(rows) == None
  {
    var tail := rows[1..];
    if i > 0 {
      assert tail[i - 1] == rows[i] && tail[j - 1] == rows[j];
      EventsViewRepeatedUriFails(tail, i - 1, j - 1);
    } else {
      EventsViewHasRow(tail, j - 1);
    }
  }

  /** A successful `EventsView` has an entry for every row. */
  lemma {:induction false} EventsViewHasRow(rows: seq<ViewStats>, j: nat)
    requires j < |rows|
    ensures EventsView(rows).Some? ==>
      EventIdOfUri(rows[j].uri).Some? && EventIdOfUri(rows[j].uri).value in EventsView(rows).value
  {
    if j > 0 {
      var tail := rows[1..];
      assert tail[j - 1] == rows[j];
      EventsViewHasRow(tail, j - 1);
    }
  }

  /** The uris of a list of event ids. */
  function EventUris(ids: seq<int>): (r: seq<string>)
    ensures |r| == |ids| && forall i :: 0 <= i < |ids| ==> r[i] == EventUri(ids[i])
  {
    seq(|ids|, i requires 0 <= i < |ids| => EventUri(ids[i]))
  }

  /** Each uri of a list of 64-bit ids parses back to its own id. */
  lemma EventUrisParseBack(ids: seq<int>)
    ensures forall i :: 0 <= i < |ids| && IsLong(ids[i]) ==> EventIdOfUri(EventUris(ids)[i]) == Some(ids[i])
  {
    forall i | 0 <= i < |ids| && IsLong(ids[i])
      ensures EventIdOfUri(EventUris(ids)[i]) == Some(ids[i])
    {
      EventUriRoundTrip(ids[i]);
    }
  }

  /** The statistics client sends the uri list only when it is non-empty;
      an empty list is dropped from the request, and the server then
      answers with its unfiltered query. */
  function ClientUris(uris: seq<string>): (r: Option<seq<string>>)
    ensures r.None? <==> |uris| == 0
    ensures r.Some? ==> r.value == uris
  {
    if |uris| == 0 then None else Some(uris)
  }

  /** The rows `getEventsView` receives for a page of event ids: the
      non-unique statistics filtered by the page's uris, or unfiltered
      when the client dropped an empty list. */
  function PageStats(hits: seq<Hit>, start: int, end: int, ids: seq<int>): seq<ViewStats>
  {
    if ClientUris(EventUris(ids)).None? then GetNotUniqueStats(hits, start, end)
    else GetNotUniqueStatsForUris(hits, start, end, EventUris(ids))
  }

  /** `getEventsView` as written: the statistics for the page, parsed. */
  function EventsViewAsWritten(hits: seq<Hit>, start: int, end: int, ids: seq<int>): Option<map<int, nat>>
  {
    EventsView(PageStats(hits, start, end, ids))
  }

  /** An empty page fails once anyone has listed the public events: the
      unfiltered answer holds the row of the list endpoint's own uri
      "/events", which is shorter than the prefix to cut. */
  lemma EmptyPageFailsOnListHit()
    ensures EventsViewAsWritten([Hit(1, "ewm-main-service", "/events", "1.1.1.1", 5)], 0, 10, []) == None
  {
    var hits := [Hit(1, "ewm-main-service", "/events", "1.1.1.1", 5)];
    var f := Filter(hits, 0, 10, None);
    assert hits[0] in f;
    var rows := Aggregate(f, false);
    assert EventUris([]) == [];
    assert PageStats(hits, 0, 10, []) == rows;
    AggregateEmptyIff(f, false);
    assert rows[0] in rows;
    var h :| h in f && KeyOf(h) == RowKey(rows[0]);
    assert rows[0].uri == "/events";
    assert EventIdOfUri(rows[0].uri) == None;
  }

  /** `getEventsView` as intended: an empty page has no views to look up;
      any other page is parsed from the statistics for its uris. */
  function EventsViewOfPage(hits: seq<Hit>, start: int, end: int, ids: seq<int>): Option<map<int, nat>>
  {
    if |ids| == 0 then Some(map[]) else EventsView(GetNotUniqueStatsForUris(hits, start, end, EventUris(ids)))
  }

  /** An empty page gets the empty map, a non-empty page the answer the
      source computes, and a successful answer only holds events of the
      page. */
  lemma EventsViewOfPageNamesPageEvents(hits: seq<Hit>, start: int, end: int, ids: seq<int>)
    requires forall i :: 0 <= i < |ids| ==> IsLong(ids[i])
    ensures |ids| == 0 ==> EventsViewOfPage(hits, start, end, ids) == Some(map[])
    ensures |ids| > 0 ==> EventsViewOfPage(hits, start, end, ids) == EventsViewAsWritten(hits, start, end, ids)
    ensures EventsViewOfPage(hits, start, end, ids).Some? ==>
      forall id :: id in EventsViewOfPage(hits, start, end, ids).value ==> id in ids
  {
    if |ids| > 0 {
      var rows := GetNotUniqueStatsForUris(hits, start, end, EventUris(ids));
      assert PageStats(hits, start, end, ids) == rows;
      if EventsView(rows).Some? {
        forall id | id in EventsView(rows).value
          ensures id in ids
        {
          EventsViewKeysFromRows(rows, id);
          var v :| v in rows && EventIdOfUri(v.uri) == Some(id);
          RowsNameRequestedEvents(hits, start, end, ids, v);
        }
      }
    }
  }

  /** Every key of a successful `EventsView` is parsed from one of its rows. */
  lemma {:induction false} EventsViewKeysFromRows(rows: seq<ViewStats>, id: int)
    requires EventsView(rows).Some? && id in EventsView(rows).value
    ensures exists v :: v in rows && EventIdOfUri(v.uri) == Some(id)
  {
    if EventIdOfUri(rows[0].uri) != Some(id) {
      EventsViewKeysFromRows(rows[1..], id);
      var v :| v in rows[1..] && EventIdOfUri(v.uri) == Some(id);
      assert v in rows;
    } else {
      assert rows[0] in rows;
    }
  }

  /** Every row the statistics return for a non-empty list of event uris
      parses back to one of the listed ids, so `getEventsView` never meets
      a malformed uri on a non-empty page. The requires on a non-empty
      list is the client's: an empty list is never sent as a filter
      (`EmptyPageFailsOnListHit`). */
  lemma RowsNameRequestedEvents(hits: seq<Hit>, start: int, end: int, ids: seq<int>, v: ViewStats)
    requires |ids| > 0
    requires forall i :: 0 <= i < |ids| ==> IsLong(ids[i])
    requires v in GetNotUniqueStatsForUris(hits, start, end, EventUris(ids))
    ensures EventIdOfUri(v.uri).Some? && EventIdOfUri(v.uri).value in ids
  {
    var uris := EventUris(ids);
    var f := Filter(hits, start, end, Some(uris));
    var h :| h in f && KeyOf(h) == RowKey(v);
    assert h.uri in uris;
    var i :| 0 <= i < |uris| && uris[i] == h.uri;
    EventUriRoundTrip(ids[i]);
  }
}
