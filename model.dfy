/** The account entity and the request and response shapes the service exchanges. */
module Model {
  import opened Wrappers

  /** A point in time; the model never inspects it (LocalDateTime in the source). */
  type Timestamp = int

  /** The id of a record the store has not saved yet (a null id in the source).
      The store hands out ids from 1 upwards, so no stored record has this id. */
  const Unassigned: nat := 0

  /** A stored account. */
  datatype User = User(
    id: nat,
    firstName: string,
    lastName: string,
    email: string,
    username: string,
    password: string,
    createdAt: Timestamp,
    updatedAt: Timestamp,
    active: bool)

  /** What the service returns for an account: every field except the password. */
  datatype UserResponse = UserResponse(
    id: nat,
    firstName: string,
    lastName: string,
    email: string,
    username: string,
    createdAt: Timestamp,
    updatedAt: Timestamp,
    active: bool)

  /** The fields a creation request supplies. */
  datatype UserCreateRequest = UserCreateRequest(
    firstName: string,
    lastName: string,
    email: string,
    username: string,
    password: string)

  /** A partial update: `None` means "leave this field unchanged". There is no username. */
  datatype UserUpdateRequest = UserUpdateRequest(
    firstName: Option<string>,
    lastName: Option<string>,
    email: Option<string>,
    password: Option<string>,
    active: Option<bool>)

  /** A unique key the store can be searched by. */
  datatype Key = ByEmail(email: string) | ByUsername(username: string)

  predicate Holds(u: User, key: Key) {
    match key
    case ByEmail(e) => u.email == e
    case ByUsername(n) => u.username == n
  }

  /** Some stored record holds `key`. */
  predicate Taken(users: map<nat, User>, key: Key) {
    exists k | k in users :: Holds(users[k], key)
  }

  ghost predicate UniqueEmails(users: map<nat, User>) {
    forall j, k :: j in users && k in users && users[j].email == users[k].email ==> j == k
  }

  ghost predicate UniqueUsernames(users: map<nat, User>) {
    forall j, k :: j in users && k in users && users[j].username == users[k].username ==> j == k
  }

  /** The store's uniqueness invariant: no two records share an email or a username. */
  ghost predicate UniqueAccounts(users: map<nat, User>) {
    UniqueEmails(users) && UniqueUsernames(users)
  }
}
