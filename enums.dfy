/** The enumerations the entities use (package `enums`). */
module Enums {

  datatype UserRole = Player | Organizer | Admin

  datatype EventStatus =
    | Draft
    | Upcoming
    | RegistrationOpen
    | RegistrationClosed
    | Ongoing
    | Completed
    | Cancelled

  datatype EventVisibility = Public | Private

  datatype ParticipationType = Solo | Duo | Squad

  datatype RegistrationStatus = Pending | Confirmed | Rejected | Cancelled
}
