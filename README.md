# StudentADO user service: authentication and user management in Dafny

This project models the business logic of a small user-account service. Users have two roles, "Teacher" and "Student". The service has two parts:

- **Authentication** (`AuthenticationLogic.dfy`):
  - `Register` runs its checks in a fixed order: a duplicate email first, then the designation. It then inserts the user and checks the id the store returned.
  - `Login` looks the user up by email, verifies the password and issues a token. An unknown email and a wrong password give the same answer.
- **User management** (`UserManagementLogic.dfy`):
  - two read projections onto the public `UserDTO`;
  - a partial `UpdateUser` that refuses an email another user already owns;
  - a `DeleteUser` that removes only an existing user.

Both services work against the user store declared by the repository interface. Here the store is the in-memory class `Repositories.UserRepository` (`UserRepository.dfy`). It holds:

- a map from id to `User` row;
- the listing order, newest created first;
- an identity counter that hands out fresh ids.

Its `const acceptsWrites` stands for a store whose writes report failure, within what the repository interface (`Repositories/IUserRepository.cs:12-14`) allows a store to answer: `UpdateAsync` and `DeleteAsync` return false when no row is affected, and `CreateAsync` returns an id that is not positive. The SQL repository reports a failed update or delete this way, but a failed insert there throws instead of returning 0; the 0 answer is what another implementation of the interface, such as a stub, may give. With `acceptsWrites` set to false, the services' "Registration failed", "Update failed" and "Delete failed" paths can be reached and stated. With it set to true, `Create` always returns a fresh id > 0, and `Update`/`Delete` return whether the id was present.

The service methods are proved against the store's contracts. Each state-changing method states its whole new state. Each also keeps two invariants: the store invariant `Valid()`, and uniqueness of emails whenever it held before (`EmailsUnique()`).

The password hasher (`HashPassword`, `VerifyPassword`) and the token issuer (`GenerateToken`) are injected as function-valued fields of `AuthenticationLogic`, so the model assumes nothing about them beyond determinism: a function value gives the same answer to the same arguments. The one exception is `RegisterThenLogin`: it assumes, as its premise, that the verifier accepts what the hasher produced. The current time is a parameter `now`.

A user's designation is meant to be "Teacher" or "Student": the comment on the entity (`Models/User.cs:31`) and the pattern on the registration request (`DTOs/AuthDTOs.cs:36`) both say so. The services enforce it only at registration: `UpdateUser` accepts any non-empty designation (`BusinessLogic/UserManagementLogic.cs:61-64`), and so does the model.

In `UpdateUser` the source looks up the new email and refuses it when the owner has a different id. An email that differs from the user's own can only belong to a different user. So the refusal condition is exactly "the new email is non-empty, differs from the current one, and exists in the store" (`EmailConflict`), and `UpdateUser`'s contract is stated in those terms.

## Model

| member | source | states |
|---|---|---|
| `Repositories.FirstWithEmail` | Repositories/UserRepository.cs:38-56 | the lookup by email returns the first listed row with that email, and returns none exactly when no listed row has it |
| `Repositories.Without` | Repositories/UserRepository.cs:130-142 | removing an id keeps exactly the other ids and keeps the listing newest-first |
| `Repositories.NewestFirstCount` | Repositories/UserRepository.cs:58-77 | a newest-first listing names each id once: the set of its ids has as many elements as the listing |
| `Repositories.RewritePreservesUniqueEmails` | BusinessLogic/UserManagementLogic.cs:45-53 | rewriting one row keeps emails unique if its email is kept or is used by no row |
| `Repositories.UpdatedRow` | Repositories/UserRepository.cs:105-111 | an UPDATE writes name, email, date of birth, designation and update time, and keeps id, password hash and creation time |
| `Repositories.UserRepository.RowCount` | Repositories/UserRepository.cs:58-77 | the listing has exactly one entry per stored row |
| `Repositories.UserRepository.GetById` | Repositories/UserRepository.cs:18-36 | returns the row with that id, or none exactly when there is no such row |
| `Repositories.OwnersCounted` | Repositories/UserRepository.cs:148-155 | counting the rows with an email gives a positive number exactly when some row has that email |
| `Repositories.UserRepository.EmailExists` | Repositories/UserRepository.cs:144-156 | true iff some stored row has exactly this email |
| `Repositories.UserRepository.GetByEmail` | Repositories/UserRepository.cs:38-56 | returns a stored row with that email, none exactly when the email is not stored, and the unique owner when emails are unique |
| `Repositories.UserRepository.GetAll` | Repositories/UserRepository.cs:58-77 | lists the rows in the store's order |
| `Repositories.UserRepository.GetAllComplete` | Repositories/UserRepository.cs:58-77 | the listing holds every row once, newest created (highest id) first |
| `Repositories.UserRepository.Create` | Repositories/IUserRepository.cs:12 | inserts the row under a fresh id > 0 and returns that id (as the SQL insert at Repositories/UserRepository.cs:79-99 does), or, for a store that refuses writes, returns 0 and changes nothing |
| `Repositories.UserRepository.Update` | Repositories/UserRepository.cs:101-128 | returns true iff a row with the id existed and was rewritten; otherwise nothing changes |
| `Repositories.UserRepository.Delete` | Repositories/UserRepository.cs:130-142 | returns true iff the row existed and was removed; otherwise nothing changes |
| `Authentication.AuthenticationLogic.constructor` | BusinessLogic/AuthenticationLogic.cs:15-19 | the service keeps the store and the injected hasher and token issuer |
| `Authentication.AuthenticationLogic.Register` | BusinessLogic/AuthenticationLogic.cs:22-55 | a taken email fails with "Email already exists" before any designation check; an invalid designation fails next; both leave the store unchanged; success happens iff email is new, designation is Teacher/Student and the insert succeeds, and then exactly one row is added with the hashed password and creation time `now`; a failed insert gives "Registration failed" with id 0; unique emails stay unique |
| `Authentication.AuthenticationLogic.Login` | BusinessLogic/AuthenticationLogic.cs:58-86 | every failure is the identical ("Invalid email or password", no response); an unknown email fails; success returns "Login successful" with a stored user's name, email, designation and the token for its id, email and designation; with unique emails it succeeds iff a user with that email has a verifying password hash; the store is only read |
| `Authentication.RegisterThenLogin` | BusinessLogic/AuthenticationLogic.cs:37-85 | whatever the store held before, after a successful registration logging in with the same email and password succeeds and answers with the registered name, email and designation |
| `UserManagement.MapToUserDTO` | BusinessLogic/UserManagementLogic.cs:104-115 | the public view carries id, name, email, date of birth, designation and creation time of the user |
| `UserManagement.MapToUserDTOHidesSecrets` | BusinessLogic/UserManagementLogic.cs:104-115 | the view does not depend on the password hash or the update time |
| `UserManagement.UserManagementLogic.constructor` | BusinessLogic/UserManagementLogic.cs:15-18 | the service keeps the store |
| `UserManagement.UserManagementLogic.GetAllUsers` | BusinessLogic/UserManagementLogic.cs:21-25 | one view per stored user, each equal to the projection of its row, every user present, newest first |
| `UserManagement.UserManagementLogic.GetUserById` | BusinessLogic/UserManagementLogic.cs:28-32 | none exactly when no user has the id, otherwise the projection of that user |
| `UserManagement.UserManagementLogic.GetAllUsersAgreesWithGetUserById` | BusinessLogic/UserManagementLogic.cs:21-32 | every listed view is what GetUserById returns for its id, and every user GetUserById finds is listed |
| `UserManagement.UserManagementLogic.UpdateUser` | BusinessLogic/UserManagementLogic.cs:35-81 | a missing id fails with "User not found"; a non-empty new email stored for another user fails with "Email already exists"; both leave the store unchanged; otherwise it succeeds iff the store write succeeds; on success only that user changes: non-empty name, email and designation and a present date of birth replace the old values; id, password hash and creation time stay; the update time becomes `now`; a failed write gives "Update failed" with no change; unique emails stay unique |
| `UserManagement.UserManagementLogic.DeleteUser` | BusinessLogic/UserManagementLogic.cs:84-101 | a missing id fails with "User not found" and changes nothing; otherwise success iff the store delete succeeds, removing exactly that user; a failed delete gives "Delete failed" with no change; unique emails stay unique |

## Left out

- Asynchrony, connections, SQL commands and readers are left out. The store is an in-memory class with sequential calls. The race between checking and inserting an email under concurrent registrations is not modelled.
- The SQL listing sorts by the CreatedAt column (`Repositories/UserRepository.cs:64`). The model lists rows by identity order, newest first. Rows with equal CreatedAt come back in no fixed order, so the model's order is one the source may return; the two agree when every insert gets a strictly later timestamp.
- The repository stamps CreatedAt and UpdatedAt with its own clock (`Repositories/UserRepository.cs:93`, `:119`). The model keeps the service's `now`.
- Repositories.UserRepository.GetByEmail: SQL without ORDER BY returns an unspecified matching row. The model returns the first row in listing order. The two agree when emails are unique.
- Email comparison is exact. The database's collation, which may ignore case, is not modelled. This is also why the source's "existing owner is this same user" case cannot arise in the model.
- The hasher's salt and randomness are left out. Token contents, expiry and signing are left out too, as is the check that a token is non-empty. The crypto functions are parameters.
- C# null and empty strings are both "". DateTime is an integer tick count.
- The identity column is a 32-bit integer, but the model's ids are unbounded.
- Input validation by data annotations is left out, and so are the HTTP controllers and role-based authorisation. These belong to the web framework, not the services.
- Store calls never throw in the model. In the source, SQL and connection errors propagate out of the services uncaught, and so does the failure of the `(int)` cast at `Repositories/UserRepository.cs:96` when an insert yields no identity.
- The repository's console logging in UpdateAsync is left out.
