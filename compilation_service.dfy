/** `CompilationServiceImpl`: curated, optionally pinned sets of events. */
module CompilationService {
  import opened Common
  import opened Model
  import opened Tables

  /** `eventRepository.findAllById(ids)`: the requested ids that name a
      stored event; unknown ids are dropped. */
  function FoundEvents(events: map<int, Event>, ids: set<int>): (r: set<int>)
    ensures r <= events.Keys && r <= ids
    ensures forall id :: id in ids && id in events ==> id in r
  {
    ids * events.Keys
  }

  /** An event list that is null or empty selects nothing. */
  predicate NoEvents(ids: Option<set<int>>)
  {
    ids.None? || |ids.value| == 0
  }

  /** `addCompilation`: the given title and pinned flag, and the stored
      events among the requested ids (none when the list is null or
      empty). */
  method AddCompilation(db: Db, title: string, eventIds: Option<set<int>>, pinned: bool)
    returns (c: Compilation)
    requires db.Valid()
    modifies db`compilations, db`compilationSeq
    ensures db.Valid()
    ensures c.id == old(db.compilationSeq) && c.id !in old(db.compilations)
    ensures c.title == title && c.pinned == pinned
    ensures c.events == if NoEvents(eventIds) then {} else FoundEvents(db.events, eventIds.value)
    ensures db.compilations == old(db.compilations)[c.id := c]
    ensures db.compilationSeq == old(db.compilationSeq) + 1
  {
    var events: set<int> := {};
    if !NoEvents(eventIds) {
      events := events + FoundEvents(db.events, eventIds.value);
    }
    c := Compilation(db.compilationSeq, title, events, pinned);
    db.compilations := db.compilations[c.id := c];
    db.compilationSeq := db.compilationSeq + 1;
  }

  /** `removeCompilation`: delete by id. */
  method RemoveCompilation(db: Db, compId: int)
    requires db.Valid()
    modifies db`compilations
    ensures db.Valid()
    ensures db.compilations == old(db.compilations) - {compId}
  {
    db.compilations := db.compilations - {compId};
  }

  /** `updateCompilation`: a non-null blank title is a Validation error,
      checked before the lookup; an absent id is NotFound. Otherwise the
      events are replaced only by a non-empty id list, and the title and
      pinned flag only when given. */
  method UpdateCompilation(db: Db, compId: int, title: Option<string>, eventIds: Option<set<int>>, pinned: Option<bool>)
    returns (r: Result<Compilation>)
    requires db.Valid()
    modifies db`compilations
    ensures db.Valid()
    ensures title.Some? && IsBlank(title.value) ==> r == Err(Validation)
    ensures !(title.Some? && IsBlank(title.value)) && compId !in old(db.compilations) ==> r == Err(NotFound)
    ensures r.Ok? <==> !(title.Some? && IsBlank(title.value)) && compId in old(db.compilations)
    ensures r.Err? ==> db.compilations == old(db.compilations)
    ensures r.Ok? ==>
      var c := old(db.compilations)[compId];
      && r.value.id == compId
      && r.value.events == (if NoEvents(eventIds) then c.events else FoundEvents(db.events, eventIds.value))
      && r.value.title == Patch(c.title, title)
      && r.value.pinned == Patch(c.pinned, pinned)
      && db.compilations == old(db.compilations)[compId := r.value]
  {
    if title.Some? && IsBlank(title.value) {
      return Err(Validation);
    }
    if compId !in db.compilations {
      return Err(NotFound);
    }
    var compilation := db.compilations[compId];
    if !NoEvents(eventIds) {
      compilation := compilation.(events := FoundEvents(db.events, eventIds.value));
    }
    if title.Some? {
      compilation := compilation.(title := title.value);
    }
    if pinned.Some? {
      compilation := compilation.(pinned := pinned.value);
    }
    db.compilations := db.compilations[compId := compilation];
    return Ok(compilation);
  }

  /** `getCompilation`: the stored compilation, or NotFound. */
  function GetCompilation(db: Db, compId: int): (r: Result<Compilation>)
    reads db
    requires db.Valid()
    ensures r.Ok? <==> compId in db.compilations
    ensures r.Err? ==> r.error == NotFound
    ensures r.Ok? ==> r.value in db.compilations.Values && r.value.id == compId
  {
    if compId in db.compilations then Ok(db.compilations[compId]) else Err(NotFound)
  }

  /** `getCompilations` without paging: a null flag selects every
      compilation, otherwise exactly those with that flag. */
  function GetCompilations(db: Db, pinned: Option<bool>): (r: set<Compilation>)
    reads db
    ensures pinned.None? ==> r == db.compilations.Values
    ensures pinned.Some? ==>
      forall c :: c in r <==> c in db.compilations.Values && c.pinned == pinned.value
  {
    if pinned.None? then db.compilations.Values
    else set c | c in db.compilations.Values && c.pinned == pinned.value
  }
}
