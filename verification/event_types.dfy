/**
  The records the recommendation service reads. The repository declares the
  event shape more than once with differing field names; this is the one
  canonical record the service needs. Optional fields of the source take
  their "absent" value here: no tags is the empty sequence, no registration
  count is 0, no interests or registrations is the empty sequence.
  Timestamps are integer milliseconds since the epoch.
 */
module EventTypes {

  datatype Option<T> = None | Some(value: T)

  datatype Event = Event(
    id: string,
    category: string,
    tags: seq<string>,
    location: string,
    startTime: int,
    registrationCount: nat
  )

  datatype User = User(
    interests: seq<string>,
    registeredEvents: seq<string>
  )
}
