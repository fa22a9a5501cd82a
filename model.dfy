/** The persistent records of the main service (the JPA entities under
    `model/`), as values. References to other entities (initiator,
    category, event, requester) are held as ids. Times are seconds on one
    integer clock. */
module Model {
  import opened Common

  datatype EventState = Pending | Published | Canceled | ModerationFailed

  /** `EventStateAction`: the first two are the owner's, the last three the
      administrator's, but both update DTOs accept any of them. */
  datatype StateAction = SendToReview | CancelReview | PublishEvent | ReturnEventForModify | RejectEvent

  datatype RequestStatus = RequestPending | Confirmed | Rejected | RequestCanceled

  /** Latitude and longitude are copied, never inspected. */
  datatype Location = Location(lat: real, lon: real)

  datatype User = User(id: int, name: string, email: string)

  datatype Category = Category(id: int, name: string)

  /** `Event`, with the `moderationResolution` column that the service
      writes when an event is published or returned for modification. */
  datatype Event = Event(
    id: int,
    title: string,
    annotation: string,
    description: string,
    initiator: int,
    category: int,
    eventDate: int,
    confirmedRequests: int,
    location: Location,
    paid: bool,
    participantLimit: int,
    requestModeration: bool,
    state: EventState,
    createdOn: int,
    publishedOn: Option<int>,
    moderationResolution: Option<string>)

  datatype Request = Request(id: int, event: int, requester: int, status: RequestStatus, created: int)

  datatype Compilation = Compilation(id: int, title: string, events: set<int>, pinned: bool)
}
