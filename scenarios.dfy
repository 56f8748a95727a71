/** Client code that follows the service's documented scenarios, proved from the contracts
    alone. */
module Scenarios {
  import opened Wrappers
  import opened Errors
  import opened Model
  import opened Repository
  import opened Service

  /** Creating a second account with an email already in use is a conflict and saves nothing. */
  method DuplicateEmailScenario(t0: Timestamp, t1: Timestamp) {
    var repository := new UserRepository();
    var service := new UserService(repository);
    var john := UserCreateRequest("John", "Doe", "john.doe@example.com", "johndoe", "password123");
    var first := service.CreateUser(john, t0, t0);
    assert first.Success?;
    assert first.value.active && first.value.username == "johndoe";
    assert service.GetUserById(first.value.id) == first;

    var second := UserCreateRequest("John", "Doe", "john.doe@example.com", "johndoe2", "password123");
    var again := service.CreateUser(second, t1, t1);
    assert Holds(repository.users[first.value.id], ByEmail("john.doe@example.com"));
    assert again == Failure(UserManagementException.Conflict(EmailInUse));
    assert |repository.users| == 1;
  }

  /** A partial update changes exactly the fields it names; deleting then makes lookups fail. */
  method UpdateThenDeleteScenario(t0: Timestamp, t1: Timestamp) {
    var repository := new UserRepository();
    var service := new UserService(repository);
    var jane := UserCreateRequest("Jane", "Smith", "jane.smith@example.com", "janesmith", "password123");
    var created := service.CreateUser(jane, t0, t0);
    assert created.Success?;
    var id := created.value.id;

    var change := UserUpdateRequest(Some("Jane Updated"), Some("Smith Updated"),
                                    Some("jane.updated@example.com"), None, None);
    assert !Taken(repository.users, ByEmail("jane.updated@example.com"));
    var updated := service.UpdateUser(id, change, t1);
    assert updated.Success?;
    assert updated.value.firstName == "Jane Updated" && updated.value.lastName == "Smith Updated";
    assert updated.value.email == "jane.updated@example.com";
    assert updated.value.username == "janesmith" && updated.value.active;

    // Re-sending the account's own email never conflicts with the account itself.
    var same := UserUpdateRequest(None, None, Some("jane.updated@example.com"), None, None);
    var again := service.UpdateUser(id, same, t1);
    assert again.Success?;

    var deleted := service.DeleteUser(id);
    assert deleted.Success?;
    assert service.GetUserById(id).Failure?;
    var twice := service.DeleteUser(id);
    assert twice == Failure(UserManagementException.NotFound(NotFoundWithId));
  }
}
