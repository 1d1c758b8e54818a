/**
 * The user row (entity/User.java) and the existence checks signup runs against
 * the user table.
 */
module Users {
  import opened Wrappers
  import opened Enums

  datatype User = User(
    id: nat,
    username: string,
    email: string,
    phoneNumber: string,
    /** The encoded password; the encoder is not part of this model. */
    password: string,
    role: UserRole,
    bgmiGameId: Option<string>,
    bgmiInGameName: Option<string>,
    enabled: bool)

  predicate ExistsByUsername(users: seq<User>, username: string) {
    exists i :: 0 <= i < |users| && users[i].username == username
  }

  predicate ExistsByEmail(users: seq<User>, email: string) {
    exists i :: 0 <= i < |users| && users[i].email == email
  }

  predicate ExistsByPhoneNumber(users: seq<User>, phone: string) {
    exists i :: 0 <= i < |users| && users[i].phoneNumber == phone
  }

  predicate ExistsById(users: seq<User>, id: nat) {
    exists i :: 0 <= i < |users| && users[i].id == id
  }

  /** findById: the position of the user with id `id`. */
  function IndexOfUser(users: seq<User>, id: nat): (r: Option<nat>)
    ensures r.Some? ==> r.value < |users| && users[r.value].id == id
    ensures r.None? <==> !ExistsById(users, id)
  {
    if users == [] then None
    else if users[0].id == id then Some(0)
    else match IndexOfUser(users[1..], id)
      case None => None
      case Some(i) => Some(i + 1)
  }

  /** The table's unique columns: id, username, email and phone number. */
  predicate UniqueUsers(users: seq<User>) {
    forall i, j :: 0 <= i < j < |users| ==>
      users[i].id != users[j].id
      && users[i].username != users[j].username
      && users[i].email != users[j].email
      && users[i].phoneNumber != users[j].phoneNumber
  }
}
