/** The two persisted documents the registration handler reads and writes. */
module Models {
  import opened Wrappers

  /** Document identifiers (MongoDB ObjectIds), each taken in one canonical spelling and
      compared as strings. */
  type CourseId = string
  type UserId = string

  /** A course document: its identifier is the key under which the catalog holds it. */
  datatype Course = Course(name: string, credits: int, timeslot: string, seats: int)

  /** A user document. `registeredCourses` may be absent on a stored document; `maxCredits`
      is stored but never consulted by the registration handler. */
  datatype User = User(
    username: string,
    email: string,
    password: string,
    isAdmin: bool,
    registeredCourses: Option<seq<CourseId>>,
    maxCredits: int)
}
