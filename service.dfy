/** The account service (UserServiceImpl.java): uniqueness checks on create and update, the
    lookups, partial update and delete, all on top of a repository it is handed. */
module Service {
  import opened Wrappers
  import opened Errors
  import opened Model
  import opened Repository

  // The fixed part of each failure message; the key the source appends is not modelled.
  const EmailInUse := "Email already in use: "
  const UsernameInUse := "Username already in use: "
  const NotFoundWithId := "User not found with id: "
  const NotFoundWithUsername := "User not found with username: "
  const NotFoundWithEmail := "User not found with email: "

  /** The only kinds of failure the service itself raises. */
  predicate RaisedByService(e: UserManagementException) {
    e.status == Status.NotFound || e.status == Status.Conflict
  }

  /** The response for a record: all of its fields except the password. */
  function MapToUserResponse(u: User): (r: UserResponse)
    ensures r.id == u.id && r.firstName == u.firstName && r.lastName == u.lastName
    ensures r.email == u.email && r.username == u.username
    ensures r.createdAt == u.createdAt && r.updatedAt == u.updatedAt && r.active == u.active
  {
    UserResponse(u.id, u.firstName, u.lastName, u.email, u.username, u.createdAt, u.updatedAt, u.active)
  }

  /** The response does not depend on the password, and determines everything else. */
  lemma ResponseOmitsExactlyPassword(u: User, v: User)
    ensures MapToUserResponse(u) == MapToUserResponse(v) <==> u.(password := v.password) == v
  {
  }

  /** One response per record, in the same order. */
  function ResponsesOf(users: seq<User>): (r: seq<UserResponse>)
    ensures |r| == |users|
    ensures forall i :: 0 <= i < |users| ==> r[i] == MapToUserResponse(users[i])
  {
    if users == [] then [] else [MapToUserResponse(users[0])] + ResponsesOf(users[1..])
  }

  /** Every record's response occurs among the responses. */
  lemma ResponsesOfMembers(users: seq<User>)
    ensures forall u :: u in users ==> MapToUserResponse(u) in ResponsesOf(users)
  {
    var r := ResponsesOf(users);
    forall u | u in users ensures MapToUserResponse(u) in r {
      var i :| 0 <= i < |users| && users[i] == u;
      assert r[i] == MapToUserResponse(u);
    }
  }

  /** Replacing one record keeps emails and usernames unique when the username is kept and the
      email is either kept or held by no record. */
  lemma ReplaceKeepsUnique(users: map<nat, User>, id: nat, u: User)
    requires UniqueAccounts(users) && id in users
    requires u.username == users[id].username
    requires u.email == users[id].email || !Taken(users, ByEmail(u.email))
    ensures UniqueAccounts(users[id := u])
  {
    var m := users[id := u];
    forall j, k | j in m && k in m && j != k ensures m[j].email != m[k].email {
      if j != id && k != id {
        assert m[j] == users[j] && m[k] == users[k];
      } else {
        var other := if j == id then k else j;
        if u.email != users[id].email {
          assert !Holds(users[other], ByEmail(u.email));
        }
        assert users[other].email != u.email;
      }
    }
    forall j, k | j in m && k in m && j != k ensures m[j].username != m[k].username {
      assert m[j].username == users[j].username && m[k].username == users[k].username;
    }
  }

  /** The setters of a partial update other than the email's: a present field overwrites the
      stored one, a missing one leaves it, and the modification time is set to `now`. */
  method ApplyPresentFields(user: User, request: UserUpdateRequest, now: Timestamp)
    returns (updated: User)
    ensures updated == user.(firstName := request.firstName.GetOr(user.firstName),
                             lastName := request.lastName.GetOr(user.lastName),
                             password := request.password.GetOr(user.password),
                             active := request.active.GetOr(user.active),
                             updatedAt := now)
  {
    updated := user;
    if request.firstName.Some? {
      updated := updated.(firstName := request.firstName.value);
    }
    if request.lastName.Some? {
      updated := updated.(lastName := request.lastName.value);
    }
    if request.password.Some? {
      updated := updated.(password := request.password.value);
    }
    if request.active.Some? {
      updated := updated.(active := request.active.value);
    }
    updated := updated.(updatedAt := now);
  }

  class UserService {
    const repository: UserRepository

    constructor (repository: UserRepository)
      ensures this.repository == repository
    {
      this.repository := repository;
    }

    function GetUserById(id: nat): (r: Result<UserResponse, UserManagementException>)
      reads repository
      ensures r.Failure? <==> id !in repository.users
      ensures r.Failure? ==> r.error == UserManagementException.NotFound(NotFoundWithId)
      ensures r.Success? ==> r.value == MapToUserResponse(repository.users[id])
    {
      match repository.FindById(id)
      case None => Failure(UserManagementException.NotFound(NotFoundWithId))
      case Some(u) => Success(MapToUserResponse(u))
    }

    function GetUserByUsername(username: string): (r: Result<UserResponse, UserManagementException>)
      reads repository
      requires repository.Valid()
      ensures r.Failure? <==> !Taken(repository.users, ByUsername(username))
      ensures r.Failure? ==> r.error == UserManagementException.NotFound(NotFoundWithUsername)
      ensures r.Success? ==> r.value.username == username && r.value.id in repository.users
                             && r.value == MapToUserResponse(repository.users[r.value.id])
      ensures UniqueUsernames(repository.users) ==>
                forall k :: k in repository.users && repository.users[k].username == username ==>
                  r == Success(MapToUserResponse(repository.users[k]))
    {
      match repository.FindBy(ByUsername(username))
      case None => Failure(UserManagementException.NotFound(NotFoundWithUsername))
      case Some(u) => Success(MapToUserResponse(u))
    }

    function GetUserByEmail(email: string): (r: Result<UserResponse, UserManagementException>)
      reads repository
      requires repository.Valid()
      ensures r.Failure? <==> !Taken(repository.users, ByEmail(email))
      ensures r.Failure? ==> r.error == UserManagementException.NotFound(NotFoundWithEmail)
      ensures r.Success? ==> r.value.email == email && r.value.id in repository.users
                             && r.value == MapToUserResponse(repository.users[r.value.id])
      ensures UniqueEmails(repository.users) ==>
                forall k :: k in repository.users && repository.users[k].email == email ==>
                  r == Success(MapToUserResponse(repository.users[k]))
    {
      match repository.FindBy(ByEmail(email))
      case None => Failure(UserManagementException.NotFound(NotFoundWithEmail))
      case Some(u) => Success(MapToUserResponse(u))
    }

    /** One response per stored record, in the store's (ascending id) order. */
    function GetAllUsers(): (r: seq<UserResponse>)
      reads repository
      requires repository.Valid()
      ensures |r| == |repository.users|
      ensures forall i :: 0 <= i < |r| ==>
                r[i].id in repository.users && r[i] == MapToUserResponse(repository.users[r[i].id])
      ensures forall k :: k in repository.users ==> MapToUserResponse(repository.users[k]) in r
      ensures forall i, j :: 0 <= i < j < |r| ==> r[i].id < r[j].id
    {
      var all := repository.FindAll();
      ResponsesOfMembers(all);
      ResponsesOf(all)
    }

    method CreateUser(request: UserCreateRequest, createdNow: Timestamp, updatedNow: Timestamp)
      returns (r: Result<UserResponse, UserManagementException>)
      requires repository.Valid()
      modifies repository
      ensures repository.Valid()
      ensures Taken(old(repository.users), ByEmail(request.email)) ==>
                r == Failure(UserManagementException.Conflict(EmailInUse))
      ensures !Taken(old(repository.users), ByEmail(request.email))
              && Taken(old(repository.users), ByUsername(request.username)) ==>
                r == Failure(UserManagementException.Conflict(UsernameInUse))
      ensures r.Failure? <==>
                Taken(old(repository.users), ByEmail(request.email))
                || Taken(old(repository.users), ByUsername(request.username))
      ensures r.Failure? ==> RaisedByService(r.error)
      ensures r.Failure? ==>
                repository.users == old(repository.users) && repository.nextId == old(repository.nextId)
      ensures r.Success? ==>
                && r.value.id == old(repository.nextId)
                && r.value.id !in old(repository.users)
                && repository.nextId > r.value.id
                && repository.users ==
                     old(repository.users)[r.value.id := User(r.value.id, request.firstName,
                       request.lastName, request.email, request.username, request.password,
                       createdNow, updatedNow, true)]
                && |repository.users| == |old(repository.users)| + 1
      ensures r.Success? ==> GetUserById(r.value.id) == r
      ensures UniqueAccounts(old(repository.users)) ==> UniqueAccounts(repository.users)
    {
      if repository.ExistsByEmail(request.email) {
        return Failure(UserManagementException.Conflict(EmailInUse));
      }
      if repository.ExistsByUsername(request.username) {
        return Failure(UserManagementException.Conflict(UsernameInUse));
      }
      var user := User(Unassigned, request.firstName, request.lastName, request.email,
                       request.username, request.password, createdNow, updatedNow, true);
      var saved := repository.Insert(user);
      r := Success(MapToUserResponse(saved));
    }

    method UpdateUser(id: nat, request: UserUpdateRequest, now: Timestamp)
      returns (r: Result<UserResponse, UserManagementException>)
      requires repository.Valid()
      modifies repository
      ensures repository.Valid()
      ensures id !in old(repository.users) ==>
                r == Failure(UserManagementException.NotFound(NotFoundWithId))
      ensures id in old(repository.users) ==>
                (r.Failure? <==>
                   && request.email.Some?
                   && request.email.value != old(repository.users)[id].email
                   && Taken(old(repository.users), ByEmail(request.email.value)))
      ensures id in old(repository.users) && r.Failure? ==>
                r == Failure(UserManagementException.Conflict(EmailInUse))
      ensures r.Failure? ==> RaisedByService(r.error)
      ensures r.Failure? ==>
                repository.users == old(repository.users) && repository.nextId == old(repository.nextId)
      ensures r.Success? ==>
                && id in old(repository.users)
                && repository.nextId == old(repository.nextId)
                && repository.users.Keys == old(repository.users).Keys
                && (forall k :: k in old(repository.users) && k != id ==>
                      repository.users[k] == old(repository.users)[k])
      ensures r.Success? ==>
                var was, now' := old(repository.users)[id], repository.users[id];
                && now'.id == was.id
                && now'.username == was.username
                && now'.createdAt == was.createdAt
                && now'.updatedAt == now
                && now'.firstName == request.firstName.GetOr(was.firstName)
                && now'.lastName == request.lastName.GetOr(was.lastName)
                && now'.email == request.email.GetOr(was.email)
                && now'.password == request.password.GetOr(was.password)
                && now'.active == request.active.GetOr(was.active)
      ensures r.Success? ==> GetUserById(id) == r
      ensures UniqueAccounts(old(repository.users)) ==> UniqueAccounts(repository.users)
    {
      var found := repository.FindById(id);
      if found.None? {
        return Failure(UserManagementException.NotFound(NotFoundWithId));
      }
      var user := found.value;
      if request.email.Some? && request.email.value != user.email {
        var holder := repository.FindBy(ByEmail(request.email.value));
        if holder.Some? && holder.value.id != id {
          return Failure(UserManagementException.Conflict(EmailInUse));
        }
        // With a store that matches emails exactly, as this one does, the holder found carries
        // the new email and this account does not, so its id always differs from `id`: the
        // guard above fails only when nobody holds the email.
        assert holder.None?;
        user := user.(email := request.email.value);
      }
      user := ApplyPresentFields(user, request, now);
      if UniqueAccounts(repository.users) {
        ReplaceKeepsUnique(repository.users, id, user);
      }
      var saved := repository.Update(user);
      r := Success(MapToUserResponse(saved));
    }

    method DeleteUser(id: nat) returns (r: Result<(), UserManagementException>)
      requires repository.Valid()
      modifies repository
      ensures repository.Valid()
      ensures r.Failure? <==> id !in old(repository.users)
      ensures r.Failure? ==> r.error == UserManagementException.NotFound(NotFoundWithId)
      ensures r.Failure? ==>
                repository.users == old(repository.users) && repository.nextId == old(repository.nextId)
      ensures r.Success? ==>
                repository.users == old(repository.users) - {id}
                && repository.nextId == old(repository.nextId)
                && |repository.users| == |old(repository.users)| - 1
      ensures GetUserById(id) == Failure(UserManagementException.NotFound(NotFoundWithId))
      ensures UniqueAccounts(old(repository.users)) ==> UniqueAccounts(repository.users)
    {
      if !repository.ExistsById(id) {
        return Failure(UserManagementException.NotFound(NotFoundWithId));
      }
      repository.DeleteById(id);
      r := Success(());
    }
  }
}
