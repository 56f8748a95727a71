# User management service — a Dafny model

This project models the account service of a small user-management API. The service
(`UserServiceImpl`) sits on a repository that holds account records. It does four things:

- creates an account once the email and the username are both unused;
- looks accounts up by id, username or email, and lists them all;
- applies partial updates, where a missing field means "leave unchanged";
- deletes an account that exists.

It reports failures through `UserManagementException`, which is an HTTP status kind plus a message.

The modules follow the program's structure:

- `Wrappers` (`wrappers.dfy`): `Option` for Java's `null`/`Optional`, and `Result` for "returns a value or throws".
- `Errors` (`errors.dfy`): the exception as a datatype with its three factories.
- `Model` (`model.dfy`): the `User` record, the response and request shapes, and the uniqueness invariant.
- `Repository` (`repository.dfy`): an in-memory store, `class UserRepository`. It holds a `map` from id to `User` and a fresh-id counter `nextId`. Ids start at 1 and are never reused. Queries scan the ids in ascending order.
- `Service` (`service.dfy`): `MapToUserResponse`, and `class UserService` over the repository it is given. The lookups are functions that read the store. Create, update and delete are methods that modify it.
- `Scenarios` (`scenarios.dfy`): client methods that follow the repository's own tests. They are proved from the contracts alone: a duplicate-email create, then an update, a same-email update, and a delete.

The clock is a parameter. `createUser` reads it twice (lines 43-44), and nothing guarantees the two reads return the same value. So `CreateUser` takes two timestamps and does not promise that they are equal.

The comparison of emails at line 91 is `String.equals`, which the model states as sequence equality. The store's own lookups (`existsByEmail` at line 27, `existsByUsername` at line 32, `findByEmail` at line 92) are matched by the database, whose collation the source does not fix. This model's store matches keys exactly too.

With a store that matches keys exactly, as this model's does, the self-exclusion test at `UserServiceImpl.java:94` never rejects in a sequential run. The record found by email holds the new address, and the account being updated holds a different one, so the ids always differ. An update therefore conflicts exactly when a new address is given, it differs from the current one, and some record holds it. Re-sending the current address is never looked up.

## Model

| member | source | states |
|---|---|---|
| `Errors.Status.Code` | src/main/java/com/usermanagement/api/exception/UserManagementException.java:9 | each status carries its HTTP code (404, 400, 409), a client-error code, and the code identifies the status |
| `Errors.UserManagementException.NotFound` | src/main/java/com/usermanagement/api/exception/UserManagementException.java:16-18 | `notFound(m)` has status NOT_FOUND and message `m` exactly |
| `Errors.UserManagementException.BadRequest` | src/main/java/com/usermanagement/api/exception/UserManagementException.java:20-22 | `badRequest(m)` has status BAD_REQUEST and message `m` exactly |
| `Errors.UserManagementException.Conflict` | src/main/java/com/usermanagement/api/exception/UserManagementException.java:24-26 | `conflict(m)` has status CONFLICT and message `m` exactly |
| `Errors.FactoriesDistinguishable` | src/main/java/com/usermanagement/api/exception/UserManagementException.java:9-26 | exceptions from different factories always differ, whatever the messages; each factory keeps its message, so equal exceptions mean equal messages |
| `Repository.FirstHolder` | src/main/java/com/usermanagement/api/service/UserServiceImpl.java:92 | the scan behind `findByEmail`/`findByUsername` returns a stored id holding the key with no lower holder, and returns none exactly when no id in range holds it |
| `Repository.IdsFrom` | src/main/java/com/usermanagement/api/service/UserServiceImpl.java:79 | the scan behind `findAll` lists exactly the stored ids in range, strictly ascending |
| `Repository.ConsIncreasing` | src/main/java/com/usermanagement/api/service/UserServiceImpl.java:79 | putting an id below every listed id in front keeps the list strictly ascending |
| `Repository.IncreasingCard` | src/main/java/com/usermanagement/api/service/UserServiceImpl.java:79 | a strictly ascending id list has as many distinct ids as entries, so `findAll` lists each record once |
| `Repository.ListedIds` | src/main/java/com/usermanagement/api/service/UserServiceImpl.java:79 | when every stored id is below the bound, the listed ids are exactly the stored ids, as many as there are records |
| `Repository.ListingComplete` | src/main/java/com/usermanagement/api/service/UserServiceImpl.java:79 | listing the records of those ids gives each stored record once, filed under its id, in ascending id order |
| `Repository.UserRepository.ExistsById` | src/main/java/com/usermanagement/api/service/UserServiceImpl.java:126 | `existsById` is true exactly when `findById` finds a record |
| `Repository.UserRepository.ExistsByEmail` | src/main/java/com/usermanagement/api/service/UserServiceImpl.java:27 | `existsByEmail` is true exactly when `findByEmail` finds a record |
| `Repository.UserRepository.ExistsByUsername` | src/main/java/com/usermanagement/api/service/UserServiceImpl.java:32 | `existsByUsername` is true exactly when `findByUsername` finds a record |
| `Repository.UserRepository.FindById` | src/main/java/com/usermanagement/api/service/UserServiceImpl.java:55 | `findById` finds a record exactly when the id is stored, returns the record filed under it, and that record carries the id |
| `Repository.UserRepository.FindBy` | src/main/java/com/usermanagement/api/service/UserServiceImpl.java:63-71 | `findByUsername`/`findByEmail` are empty exactly when no record holds the key; a found record is stored under its id and holds the key; under uniqueness it is the one holder |
| `Repository.UserRepository.FindAll` | src/main/java/com/usermanagement/api/service/UserServiceImpl.java:79 | `findAll` returns every stored record exactly once (as many entries as records), each stored under its id, in ascending id order |
| `Repository.UserRepository.Insert` | src/main/java/com/usermanagement/api/service/UserServiceImpl.java:48 | `save` of a new record stamps it with the fresh id `nextId`, which no record has, adds just that record and advances the counter |
| `Repository.UserRepository.Update` | src/main/java/com/usermanagement/api/service/UserServiceImpl.java:119 | `save` of a loaded record replaces that record only and leaves the counter alone |
| `Repository.UserRepository.DeleteById` | src/main/java/com/usermanagement/api/service/UserServiceImpl.java:129 | `deleteById` removes exactly that id and never lowers the counter, so ids are not reused |
| `Service.MapToUserResponse` | src/main/java/com/usermanagement/api/service/UserServiceImpl.java:132-143 | the response copies id, names, email, username, both timestamps and the active flag; the response type has no password |
| `Service.ResponseOmitsExactlyPassword` | src/main/java/com/usermanagement/api/service/UserServiceImpl.java:132-143 | two records give the same response exactly when they differ at most in the password |
| `Service.ResponsesOf` | src/main/java/com/usermanagement/api/service/UserServiceImpl.java:79-81 | the stream map gives one response per record, position by position, in the same order |
| `Service.ResponsesOfMembers` | src/main/java/com/usermanagement/api/service/UserServiceImpl.java:79-81 | every record's response occurs in the mapped list |
| `Service.ApplyPresentFields` | src/main/java/com/usermanagement/api/service/UserServiceImpl.java:101-118 | each present field among first name, last name, password and active overwrites the stored one; a missing field is kept; `updatedAt` becomes `now`; nothing else changes |
| `Service.ReplaceKeepsUnique` | src/main/java/com/usermanagement/api/service/UserServiceImpl.java:91-99 | replacing a record, keeping its username and either keeping its email or taking one nobody holds, keeps emails and usernames pairwise distinct |
| `Service.UserService.constructor` | src/main/java/com/usermanagement/api/service/UserServiceImpl.java:21 | the service works on the repository it is given |
| `Service.UserService.GetUserById` | src/main/java/com/usermanagement/api/service/UserServiceImpl.java:54-58 | fails with NotFound exactly when the id is absent; otherwise returns the mapped record for that id |
| `Service.UserService.GetUserByUsername` | src/main/java/com/usermanagement/api/service/UserServiceImpl.java:62-66 | fails with NotFound exactly when no record has the username; otherwise returns a mapped stored record with that username, which is the one holder when usernames are unique |
| `Service.UserService.GetUserByEmail` | src/main/java/com/usermanagement/api/service/UserServiceImpl.java:70-74 | fails with NotFound exactly when no record has the email; otherwise returns a mapped stored record with that email, which is the one holder when emails are unique |
| `Service.UserService.GetAllUsers` | src/main/java/com/usermanagement/api/service/UserServiceImpl.java:78-82 | one response per stored record: as many as records, each the mapped record for its id, every record present, in ascending id order |
| `Service.UserService.CreateUser` | src/main/java/com/usermanagement/api/service/UserServiceImpl.java:25-50 | Conflict (email) when the email is taken, checked first; else Conflict (username) when the username is taken; it fails exactly in those cases and then changes nothing; on success it adds exactly one record with a fresh id, the request's fields verbatim and `active = true`, a lookup by that id returns the response, and unique emails and usernames stay unique |
| `Service.UserService.UpdateUser` | src/main/java/com/usermanagement/api/service/UserServiceImpl.java:86-121 | NotFound for an absent id; otherwise Conflict exactly when a different new email is held by a record; a failure changes nothing; on success only present fields are overwritten, `updatedAt` is set, and id, username and createdAt are kept; other records are untouched; a lookup returns the response; uniqueness is preserved |
| `Service.UserService.DeleteUser` | src/main/java/com/usermanagement/api/service/UserServiceImpl.java:125-130 | fails with NotFound exactly when the id is absent, then changes nothing; otherwise removes exactly that record; afterwards `GetUserById` for the id fails with NotFound; uniqueness is preserved |

## Left out

- Failure messages: only the fixed text of each message is modelled. The key the source appends (id, username or email) is not.
- The HTTP controller, the bean-validation annotations on the request types, and the `UserService` interface are left out. The controller only maps results to response codes, the annotations are enforced before the service runs, and the interface has no logic.
- `User.java`, `UserResponse.java`, `UserCreateRequest.java` and `UserRepository.java` are not part of this model. The record and response shapes are taken from the builder calls at `UserServiceImpl.java:37-46` and `133-142`.
- The repository is an in-memory stand-in. JPA's id generation and query ordering are not available. Ids come from a counter starting at 1, `findAll` lists records in ascending id order, and a key held by several records finds the lowest id. JPA would reject such a non-unique result instead.
- `Service.UserService.CreateUser`: does not model the two `now()` calls as clock reads. They are two arbitrary timestamp parameters, so nothing is promised about their order or equality.
- `Service.UserService.UpdateUser`: does not promise that `updatedAt` never decreases, because the time is a parameter.
- Store lookups by email and username (lines 27, 32 and 92) use exact sequence equality. Other database collations, such as case-insensitive matching, are not modelled. Under such a collation, line 92 could return the account's own record, and the self-exclusion test at line 94 would then prevent a false Conflict.
- `Errors.Status` has only the three kinds the factories use. The public constructor at `UserManagementException.java:11-14` accepts any `HttpStatus`, but in the source only the factories build the exception. `Status.Code` is there for the transport layer, which is not modelled.
- Ids are unbounded naturals. The 64-bit `Long` range and its overflow are not modelled.
- Null fields in a creation request are not modelled. They are rejected by validation before the service runs.
- `@Transactional` boundaries and the read-then-write race between concurrent creates or updates are not modelled. The model is sequential.
- Unexpected repository failures, such as a lost database connection, are not modelled. The source lets them propagate unchanged.
- The password is stored in plain text, as in the source. There is no hashing to model.
