# explore-with-me: a Dafny model of the service core

This project models the business core of *explore-with-me*, an event platform
made of two Spring applications:

- **The main service.** Users create events. Events go through moderation:
  owners send them to review or cancel them, administrators publish, return
  or reject them. Other users then ask to take part, within each event's
  participant limit.
- **The statistics service.** It records one hit per visited uri and answers
  hit counts grouped by application and uri. The main service shows these
  counts as the views of `/events/{id}`.

The model is split into these modules:

- `Tables`: the main service's database, a class `Db` with one map per
  table and one id sequence per table. Its invariant `Db.Valid()` holds
  three things:
  - every row is stored under its own id;
  - category names and user e-mails are unique;
  - the references hold, and every event's `confirmedRequests` counter
    equals the number of its CONFIRMED requests.

  Every store-changing operation takes `Valid()` and gives it back.
- The service modules: `EventService`, `RequestService`, `CategoryService`,
  `UserService` and `CompilationService`. Their operations take the store
  as a parameter and change only the tables they name. Each `@Transactional`
  operation is all-or-nothing: on an error it leaves every table as it was.
- The entities are datatypes (`Model`). A setter on a loaded entity becomes
  a record update, stored back into its table.
- `StatsRepository`: the four JPQL queries as functions on the hit log.
  "Filter by window and uri, group by (app, uri), count, order by count
  descending" is written out as an insertion sort over grouped rows.
- `StatsService`: the hit log as a class with an append-only sequence.
- `Decimal`: `Long.toString` and `Long.parseLong`, used by the uri/id
  mapping behind views.
- `Common`: the error kinds and an `Option`/`Result` pair.

Times are integers (seconds). Each operation that reads the clock takes it
as a parameter `now`. The error kinds are the four exception classes:
`NotFound` (404), `Validation` (400), `Conflict` (409) and `Forbidden` (403).

The model follows the code's own behaviour in these places:

- **Publishing.** PUBLISH_EVENT on an event that is not PENDING is a
  `Conflict`.
- **Return and reject.** RETURN_EVENT_FOR_MODIFY and REJECT_EVENT are
  refused only for a PUBLISHED event, so CANCELED and MODERATION_FAILED
  events accept them.
- **Owner actions.** SEND_TO_REVIEW and CANCEL_REVIEW apply from any
  unpublished state.
- **Repeat requests.** A second participation request by the same user is
  refused, even when the first one was CANCELED.
- **Limit 0 in batch confirmation.** `addRequest` treats a limit of 0 as
  no limit. The batch confirmation of `changeRequestStatus` compares
  against the limit as it stands, so any non-empty confirmation of a
  limit-0 event is a `Conflict`.
- **The 1h and 2h guards.** The one-hour publication guard and the
  two-hour owner guard read the date stored before the update, not the new
  date in the same request (`EventService.PublishGuardReadsStoredDate`).

## Model

| member | source | states |
|---|---|---|
| Decimal.ParseLongRoundTrip | main-service/src/main/java/ru/practicum/ewm/service/EventServiceImpl.java:414-416 | `Long.parseLong` of `Long.toString(n)` gives back n for every 64-bit n |
| Decimal.ParseLong | main-service/src/main/java/ru/practicum/ewm/service/EventServiceImpl.java:414-416 | a value it returns is always within the 64-bit range |
| Tables.WithStatus | main-service/src/main/java/ru/practicum/ewm/service/RequestServiceImpl.java:147-148 | the batch's rows take the new status, field for field; every other row and the key set are unchanged |
| Tables.ConfirmedCountAfterInsert | main-service/src/main/java/ru/practicum/ewm/service/RequestServiceImpl.java:57-73 | storing a new request raises its own event's CONFIRMED count by one exactly when it is CONFIRMED and leaves every other count alone |
| Tables.ConfirmedCountAfterCancel | main-service/src/main/java/ru/practicum/ewm/service/RequestServiceImpl.java:97-104 | cancelling lowers the event's CONFIRMED count by one exactly when the request was CONFIRMED |
| Tables.ConfirmedCountAfterBatch | main-service/src/main/java/ru/practicum/ewm/service/RequestServiceImpl.java:147-153 | moving a PENDING batch of one event to CONFIRMED adds the batch size to that event's count; any other status or event is untouched |
| EventService.AddEvent | main-service/src/main/java/ru/practicum/ewm/service/EventServiceImpl.java:50-64 | unknown user NotFound, then unknown category Validation; otherwise exactly one event under a fresh id, PENDING, no confirmed requests, created now, with the create-DTO defaults (paid false, limit 0, moderation true) |
| EventService.GetEventsArgs | main-service/src/main/java/ru/practicum/ewm/service/EventServiceImpl.java:90-107 | accepted exactly when the bounds are not both given with start not strictly before end, and the sort is absent or VIEWS / EVENT_DATE compared ignoring case; every rejection is Validation; a missing start becomes now and the sort picks the order |
| EventService.OwnerTransition | main-service/src/main/java/ru/practicum/ewm/service/EventServiceImpl.java:215-226 | SEND_TO_REVIEW gives PENDING, CANCEL_REVIEW gives CANCELED, every other action is Validation |
| EventService.AdminTransition | main-service/src/main/java/ru/practicum/ewm/service/EventServiceImpl.java:278-330 | PUBLISHED comes out exactly for PUBLISH on a PENDING event at least an hour ahead; the other causes are Conflict; RETURN needs a non-blank resolution (else Validation); REJECT cancels; a published event accepts no action |
| EventService.PatchFieldsOverwrites | main-service/src/main/java/ru/practicum/ewm/service/EventServiceImpl.java:235-265 | each of the nine patchable fields, when given, overwrites exactly its column, and a null one leaves it |
| EventService.PatchLaws | main-service/src/main/java/ru/practicum/ewm/service/EventServiceImpl.java:332-369 | an all-null patch changes nothing; applying a patch twice equals applying it once |
| EventService.UpdateEventByUserData | main-service/src/main/java/ru/practicum/ewm/service/EventServiceImpl.java:206-268 | succeeds exactly when the category exists, the action is one of the owner's two, and the date is not past; every failure is Validation; success writes the given fields and the action's state, leaves id, initiator, counter and timestamps alone |
| EventService.UpdateEventByAdminData | main-service/src/main/java/ru/practicum/ewm/service/EventServiceImpl.java:270-372 | unknown category Validation first, then the action's own error, then a past date Validation; success exactly when all three pass; success writes the fields and the new state; PUBLISH stamps publishedOn = now and clears the resolution; RETURN stores it |
| EventService.ApplyAdminAction | main-service/src/main/java/ru/practicum/ewm/service/EventServiceImpl.java:282-329 | an admin action either fails exactly as `AdminTransition` says, or yields the event in the transition's state; PUBLISH also stamps publishedOn = now and clears the resolution, RETURN stores the given resolution, REJECT touches nothing else |
| EventService.UpdateEventByUser | main-service/src/main/java/ru/practicum/ewm/service/EventServiceImpl.java:172-190 | unknown user or someone else's event NotFound; PUBLISHED or less than two hours ahead Conflict; past those guards every failure is Validation; so a success implies a stored date at least now + 2h; an error changes no table; success stores exactly the patched event in the owner action's state |
| EventService.UpdateEventByAdmin | main-service/src/main/java/ru/practicum/ewm/service/EventServiceImpl.java:195-203 | absent event NotFound; then unknown category Validation, the action's own error, a past date Validation; success exactly under the admin rules and stores exactly the patched event with the new state, publishedOn and resolution; errors change nothing |
| EventService.PublishGuardReadsStoredDate | main-service/src/main/java/ru/practicum/ewm/service/EventServiceImpl.java:286-289 | one request can publish an event while moving its date to less than an hour ahead, because the guard reads the stored date |
| EventService.GetEvent | main-service/src/main/java/ru/practicum/ewm/service/EventServiceImpl.java:68-74 | only a PUBLISHED event is returned; any other id is NotFound |
| EventService.EventIdOfUri | main-service/src/main/java/ru/practicum/ewm/service/EventServiceImpl.java:414-416 | the prefix is cut by length; a parsed id is a 64-bit value; a short or malformed uri gives none |
| EventService.EventUriRoundTrip | main-service/src/main/java/ru/practicum/ewm/service/EventServiceImpl.java:398-419 | cutting `/events/` off an event's uri and parsing the rest gives back its id |
| EventService.EventUriInjective | main-service/src/main/java/ru/practicum/ewm/service/EventServiceImpl.java:398-401 | distinct event ids have distinct uris |
| EventService.NoViewsIffNoHits | main-service/src/main/java/ru/practicum/ewm/service/EventServiceImpl.java:385-396 | an event has 0 views exactly when no hit on its uri lies in the window |
| EventService.ViewsAreDistinctIps | main-service/src/main/java/ru/practicum/ewm/service/EventServiceImpl.java:385-396 | with one application recording the uri, the views are the number of distinct ips that hit it in the window |
| EventService.OneKeyView | stats/stats-server/src/main/java/ru/practicum/ewm/stats/repository/StatsRepository.java:14-22 | hits that share one (app, uri) key give a view count equal to their number of distinct ips |
| EventService.EventsViewOfDistinctIds | main-service/src/main/java/ru/practicum/ewm/service/EventServiceImpl.java:398-419 | rows whose uris name distinct events give a map with exactly those ids, each mapped to its row's count |
| EventService.EventsViewRepeatedUriFails | main-service/src/main/java/ru/practicum/ewm/service/EventServiceImpl.java:413-419 | two rows with one uri (hits under two application names) make the map collection fail |
| EventService.RowsNameRequestedEvents | main-service/src/main/java/ru/practicum/ewm/service/EventServiceImpl.java:398-419 | for a non-empty page, every row the statistics return for its uris parses back to one of the page's ids |
| EventService.EventUrisParseBack | main-service/src/main/java/ru/practicum/ewm/service/EventServiceImpl.java:399-401 | the uri built for each 64-bit id of a page parses back to that id |
| EventService.EmptyPageFailsOnListHit | stats/stats-client/src/main/java/ru/practicum/ewm/stats/client/StatsClient.java:41-43 | as written, an empty page sends no uri list, gets the unfiltered answer, and a hit on "/events" makes the view lookup fail |
| EventService.EventsViewOfPageNamesPageEvents | main-service/src/main/java/ru/practicum/ewm/service/EventServiceImpl.java:398-419 | as intended, an empty page gets the empty map, a non-empty one the answer the source computes, and a successful answer names only events of the page |
| EventService.EventsViewKeysFromRows | main-service/src/main/java/ru/practicum/ewm/service/EventServiceImpl.java:412-418 | every key of a successful view map is parsed from one of the rows |
| RequestService.AddRequest | main-service/src/main/java/ru/practicum/ewm/service/RequestServiceImpl.java:33-74 | the checks in order: NotFound for the user, then the event; Conflict for the initiator, a repeat request of any status, an unpublished event, a positive limit already reached. Success adds exactly one request (CONFIRMED when the limit is 0 or moderation is off, else PENDING), raises the counter by one iff CONFIRMED, keeps the invariant and leaves the event within its limit |
| RequestService.CancelRequest | main-service/src/main/java/ru/practicum/ewm/service/RequestServiceImpl.java:89-105 | NotFound, then Forbidden for a stranger; success makes the request CANCELED and lowers the counter by one only if it was CONFIRMED (so a second cancel lowers nothing); keeps the invariant and every event's limit |
| RequestService.StoreRequest | main-service/src/main/java/ru/practicum/ewm/service/RequestServiceImpl.java:57-73 | saving a new request under the next id and, when it is CONFIRMED, raising its event's counter by one keeps every table invariant and changes nothing else |
| RequestService.InsertKeepsConsistency | main-service/src/main/java/ru/practicum/ewm/service/RequestServiceImpl.java:57-73 | a first request of a user for a stored event, with the counter raised iff it is CONFIRMED, keeps the counter equal to the number of CONFIRMED requests and one request per user and event |
| RequestService.CancelKeepsConsistency | main-service/src/main/java/ru/practicum/ewm/service/RequestServiceImpl.java:97-104 | cancelling a request, with the counter lowered iff it was CONFIRMED, keeps the counters consistent |
| RequestService.SetStatus | main-service/src/main/java/ru/practicum/ewm/service/RequestServiceImpl.java:147 | the loop over the ids gives the table with the found batch moved to the new status |
| RequestService.CommitBatch | main-service/src/main/java/ru/practicum/ewm/service/RequestServiceImpl.java:147-153 | storing the batch and, for CONFIRMED, adding its size to the counter keeps the invariant |
| RequestService.BatchKeepsConsistency | main-service/src/main/java/ru/practicum/ewm/service/RequestServiceImpl.java:147-153 | giving a set of PENDING requests of one event a new status, with the counter raised by the set's size iff the status is CONFIRMED, keeps the counters consistent |
| RequestService.ChangeRequestStatus | main-service/src/main/java/ru/practicum/ewm/service/RequestServiceImpl.java:124-163 | NotFound unless the event is the caller's (never Forbidden); Conflict for a found request of another event or not PENDING, a confirmation past the limit (a limit of 0 refuses any non-empty batch), or a target other than CONFIRMED/REJECTED, with nothing changed; success moves the whole batch, adds its size to the counter for CONFIRMED only, and reports the batch |
| RequestService.GetUserRequests | main-service/src/main/java/ru/practicum/ewm/service/RequestServiceImpl.java:77-85 | NotFound for an unknown user, else exactly that user's requests |
| RequestService.GetEventParticipants | main-service/src/main/java/ru/practicum/ewm/service/RequestServiceImpl.java:108-120 | NotFound unless the event is the caller's, else exactly the event's requests |
| CategoryService.AddCategory | main-service/src/main/java/ru/practicum/ewm/service/CategoryServiceImpl.java:27-34 | Conflict exactly when the name is taken; otherwise one category under a fresh id, names stay unique |
| CategoryService.RemoveCategory | main-service/src/main/java/ru/practicum/ewm/service/CategoryServiceImpl.java:38-42 | deletes that id and nothing else |
| CategoryService.UpdateCategory | main-service/src/main/java/ru/practicum/ewm/service/CategoryServiceImpl.java:46-62 | NotFound first, then Conflict when any category (itself included) has the name; success renames only that category |
| CategoryService.GetCategory | main-service/src/main/java/ru/practicum/ewm/service/CategoryServiceImpl.java:73-79 | the stored category, or NotFound |
| UserService.AddUser | main-service/src/main/java/ru/practicum/ewm/service/UserServiceImpl.java:26-33 | Conflict exactly when the e-mail is used; otherwise one user under a fresh id, e-mails stay unique |
| UserService.RemoveUser | main-service/src/main/java/ru/practicum/ewm/service/UserServiceImpl.java:37-39 | deletes that id and nothing else |
| UserService.GetUsers | main-service/src/main/java/ru/practicum/ewm/service/UserServiceImpl.java:42-54 | null or empty ids give every user, otherwise exactly the users whose id is listed |
| CompilationService.AddCompilation | main-service/src/main/java/ru/practicum/ewm/service/CompilationServiceImpl.java:34-48 | the given title and pinned flag, no events for a null or empty list, else the stored ones among the requested |
| CompilationService.RemoveCompilation | main-service/src/main/java/ru/practicum/ewm/service/CompilationServiceImpl.java:52-54 | deletes that id and nothing else |
| CompilationService.UpdateCompilation | main-service/src/main/java/ru/practicum/ewm/service/CompilationServiceImpl.java:58-79 | blank non-null title Validation before the lookup, then NotFound; events replaced only by a non-empty list, title and pinned only when given |
| CompilationService.GetCompilation | main-service/src/main/java/ru/practicum/ewm/service/CompilationServiceImpl.java:82-87 | the stored compilation, or NotFound |
| CompilationService.GetCompilations | main-service/src/main/java/ru/practicum/ewm/service/CompilationServiceImpl.java:90-98 | a null flag gives every compilation, otherwise exactly those with that flag |
| StatsRepository.Filter | stats/stats-server/src/main/java/ru/practicum/ewm/stats/repository/StatsRepository.java:46-52 | a hit is kept exactly when start ≤ timestamp ≤ end (both ends inclusive) and, with a uri list, its uri is listed |
| StatsRepository.Group | stats/stats-server/src/main/java/ru/practicum/ewm/stats/repository/StatsRepository.java:18 | exactly the hits of one (app, uri) pair |
| StatsRepository.Ips | stats/stats-server/src/main/java/ru/practicum/ewm/stats/repository/StatsRepository.java:15 | the distinct ips of a group, never more than its hits |
| StatsRepository.Keys | stats/stats-server/src/main/java/ru/practicum/ewm/stats/repository/StatsRepository.java:18 | each (app, uri) pair of the hits exactly once |
| StatsRepository.SortDesc | stats/stats-server/src/main/java/ru/practicum/ewm/stats/repository/StatsRepository.java:19 | a permutation of the rows ordered by count, largest first |
| StatsRepository.InsertSorted | stats/stats-server/src/main/java/ru/practicum/ewm/stats/repository/StatsRepository.java:29 | inserting into rows ordered by count keeps them ordered |
| StatsRepository.SortKeysDistinct | stats/stats-server/src/main/java/ru/practicum/ewm/stats/repository/StatsRepository.java:40 | ordering the rows keeps one row per key |
| StatsRepository.Aggregate | stats/stats-server/src/main/java/ru/practicum/ewm/stats/repository/StatsRepository.java:14-22 | one row per (app, uri) among the hits, no other, each with a count ≥ 1 equal to the group's distinct ips (unique) or hits (not unique), ordered by count descending |
| StatsRepository.NotUniqueCountsSumToHits | stats/stats-server/src/main/java/ru/practicum/ewm/stats/repository/StatsRepository.java:24-32 | the non-unique counts add up to the number of selected hits |
| StatsRepository.UniqueAtMostNotUnique | stats/stats-server/src/main/java/ru/practicum/ewm/stats/repository/StatsRepository.java:34-56 | per group the unique count never exceeds the non-unique count |
| StatsRepository.SameGroupsBothWays | stats/stats-server/src/main/java/ru/practicum/ewm/stats/repository/StatsRepository.java:14-32 | every group of the unique answer is a group of the non-unique answer and the other way round |
| StatsRepository.EmptyWindow | stats/stats-server/src/main/java/ru/practicum/ewm/stats/repository/StatsRepository.java:17 | a window whose start is after its end selects nothing |
| StatsService.HitLog.AddHit | stats/stats-server/src/main/java/ru/practicum/ewm/stats/service/StatsServiceImpl.java:26-30 | appends exactly one hit carrying the given fields under a fresh id and returns it |
| StatsService.HitLog.GetStats | stats/stats-server/src/main/java/ru/practicum/ewm/stats/service/StatsServiceImpl.java:33-44 | null or empty uris use the unfiltered query of the flag whatever the bounds; otherwise start after end is Validation (equal bounds accepted) and the uri query of the flag answers; the log is not changed |
| StatsService.AnswerRowsAreSelectedGroups | stats/stats-server/src/main/java/ru/practicum/ewm/stats/service/StatsServiceImpl.java:42-43 | every row of a uri-filtered answer is a listed uri with a hit in the window, count ≥ 1 |

## Left out

- Controllers, request DTO validation annotations, the error handler and
  the message texts are not modelled. The DTOs appear as their fields; a
  null field is `None`.
- The HTTP client between the main service and the statistics service is
  not modelled, except for its dropping of an empty uri list
  (`EventService.ClientUris`). In particular the hit that `getEvent` and
  `getEvents` record, and the client-side check on the query window, are
  left out. The view functions act on the rows the statistics service
  returns.
- The moderation resolution is an extra parameter `resolution` of
  `EventService.AdminTransition`, `EventService.ApplyAdminAction`,
  `EventService.UpdateEventByAdminData` and `EventService.UpdateEventByAdmin`.
  The source reads `getModerationResolution()` from the administrator's
  update, but `EventUpdateAdminDto` as shipped declares no such field;
  the parameter stands for whatever that getter returns.
- The query window of the view lookups is a fixed application creation
  date up to now. The model takes the window's bounds as parameters.
- `findEvents` is not modelled: the text, category, paid and availability
  filters, paging and ordering of `getEvents`. Only its argument checks
  are modelled.
- `getUserEvent`, `getUserEvents`, `getAdminEvents` and the paged
  `getCategories` are not modelled. Paging is dropped from every list
  operation, and their results are sets.
- Concurrency and the locking the capacity check would need under
  concurrent requests are not modelled. Each operation is one atomic step.
- Each operation reads the clock once. The source calls
  `LocalDateTime.now()` several times within one operation.
- Foreign keys are not modelled. Deleting a user or a category does not
  check for events or requests that still refer to it; the database
  constraints that would refuse such deletes are not part of this model.
- Event deletion is not modelled. There is no such operation in the core,
  and `Db.Valid()` relies on events never being deleted.
- Integers are unbounded: the 32-bit `confirmedRequests` and
  `participantLimit` and the 64-bit ids do not wrap. The uri/id mapping
  does check the 64-bit range of `Long.parseLong`.
- EventService.EventIdOfUri: the `/events/` prefix is cut by Dafny
  characters (Unicode scalar values), while `String.substring` counts
  UTF-16 code units, so a uri holding a supplementary character before
  the cut splits differently (`/event` followed by one emoji and `5` is
  8 characters here and gives no id, 9 units in Java and gives 5).
- `Long.parseLong` accepts only ASCII digits here. The JDK also accepts
  other Unicode decimal digits.
- `Location` coordinates are reals, not floating point.
- StatsRepository.Aggregate: rows with equal counts come out in the
  insertion sort's order. The SQL leaves that order unspecified, and
  nothing is proved about it.
- EventService.EventsViewOfDistinctIds: rows whose different uris parse to
  the same id (such as `/events/05` and `/events/5`) also make the
  function fail, as the duplicate key does in the source. They are not
  covered by a lemma.
- An owner or administrator update may set `participantLimit` below the
  current counter. The limit is kept only by the three request
  operations, which is what their contracts state.

## Findings

| source | as written | input that shows it | evidently intended | confidence | as-written member | corrected member |
|---|---|---|---|---|---|---|
| main-service/src/main/java/ru/practicum/ewm/service/EventServiceImpl.java:398-419 | `getEventsView` hands an empty id list to the statistics client, which drops an empty `uris` parameter (stats/stats-client/src/main/java/ru/practicum/ewm/stats/client/StatsClient.java:41-43), so the server answers with the unfiltered query; a row for the public list endpoint's uri `/events` then reaches `substring(8)` on a 7-character string and throws | an administrator search whose page is empty, after one hit on `/events` inside the window | an empty page has no views to look up and gets the empty map | not executed | EventService.EmptyPageFailsOnListHit | EventService.EventsViewOfPageNamesPageEvents |
