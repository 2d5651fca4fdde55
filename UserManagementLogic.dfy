/**
  * Reading, updating and deleting users. Reads project the stored rows onto
  * the public UserDTO; an update is partial (empty fields are left alone) and
  * refuses an email another user already has; a delete removes exactly the
  * named user.
  */
module UserManagement {
  import opened Wrappers
  import opened Models
  import opened DTOs
  import opened Repositories

  const UserNotFound := "User not found"
  const EmailAlreadyExists := "Email already exists"
  const UserUpdated := "User updated successfully"
  const UpdateFailed := "Update failed"
  const UserDeleted := "User deleted successfully"
  const DeleteFailed := "Delete failed"

  datatype OperationResult = OperationResult(success: bool, message: string)

  /** The public view of a user: its id, name, email, date of birth, designation and creation time. */
  function MapToUserDTO(user: User): (d: UserDTO)
    ensures d.userId == user.userId && d.name == user.name && d.email == user.email
    ensures d.dateOfBirth == user.dateOfBirth && d.designation == user.designation
    ensures d.createdAt == user.createdAt
  {
    UserDTO(user.userId, user.name, user.email, user.dateOfBirth, user.designation, user.createdAt)
  }

  /** The password hash and the update time do not show through the projection. */
  lemma MapToUserDTOHidesSecrets(user: User, passwordHash: string, updatedAt: Option<DateTime>)
    ensures MapToUserDTO(user.(passwordHash := passwordHash, updatedAt := updatedAt)) == MapToUserDTO(user)
  {
  }

  /**
    * `after` is `before` with the partial update `dto` applied at `now`: each
    * non-empty field of `dto` replaces the stored one, the others stay; the
    * id, password hash and creation time never change; the update time is `now`.
    */
  ghost predicate PartiallyUpdated(before: User, after: User, dto: UpdateUserDTO, now: DateTime) {
    && after.userId == before.userId
    && after.passwordHash == before.passwordHash
    && after.createdAt == before.createdAt
    && after.updatedAt == Some(now)
    && after.name == (if dto.name != "" then dto.name else before.name)
    && after.email == (if dto.email != "" then dto.email else before.email)
    && after.designation == (if dto.designation != "" then dto.designation else before.designation)
    && after.dateOfBirth == (if dto.dateOfBirth.Some? then dto.dateOfBirth.value else before.dateOfBirth)
  }

  class UserManagementLogic {
    const userRepository: UserRepository

    constructor(userRepository: UserRepository)
      ensures this.userRepository == userRepository
    {
      this.userRepository := userRepository;
    }

    /** Every stored user's public view, in the store's order (newest created first). */
    function GetAllUsers(): (r: seq<UserDTO>)
      reads userRepository
      requires userRepository.Valid()
      ensures |r| == |userRepository.users|
      ensures forall i :: 0 <= i < |r| ==>
        r[i].userId in userRepository.users && r[i] == MapToUserDTO(userRepository.users[r[i].userId])
      ensures forall id :: id in userRepository.users ==> exists i :: 0 <= i < |r| && r[i].userId == id
      ensures forall i, j :: 0 <= i < j < |r| ==> r[i].userId > r[j].userId
    {
      userRepository.GetAllComplete();
      var users := userRepository.GetAll();
      assert forall i :: 0 <= i < |users| ==> users[i].userId == userRepository.order[i];
      var r := seq(|users|, i requires 0 <= i < |users| => MapToUserDTO(users[i]));
      assert forall i :: 0 <= i < |r| ==> r[i] == MapToUserDTO(users[i]);
      r
    }

    /** The public view of the user with `userId`; None exactly when there is no such user. */
    function GetUserById(userId: int): (r: Option<UserDTO>)
      reads userRepository
      requires userRepository.Valid()
      ensures r.None? <==> userId !in userRepository.users
      ensures r.Some? ==> r.value == MapToUserDTO(userRepository.users[userId]) && r.value.userId == userId
    {
      match userRepository.GetById(userId)
      case None => None
      case Some(user) => Some(MapToUserDTO(user))
    }

    /** The two reads agree: a user is listed by GetAllUsers exactly when GetUserById finds it, with the same view. */
    lemma GetAllUsersAgreesWithGetUserById()
      requires userRepository.Valid()
      ensures forall d :: d in GetAllUsers() ==> GetUserById(d.userId) == Some(d)
      ensures forall id :: GetUserById(id).Some? ==> GetUserById(id).value in GetAllUsers()
    {
    }

    /**
      * An update would change the user's email to one that is already stored.
      * An empty email, or the user's own, is never looked up.
      */
    ghost predicate EmailConflict(userId: int, dto: UpdateUserDTO)
      reads userRepository
      requires userId in userRepository.users
    {
      dto.email != "" && dto.email != userRepository.users[userId].email && userRepository.EmailExists(dto.email)
    }

    /** Applies the partial update `dto` at time `now` to the user with `userId`. */
    method UpdateUser(userId: int, dto: UpdateUserDTO, now: DateTime) returns (r: OperationResult)
      requires userRepository.Valid()
      modifies userRepository
      ensures userRepository.Valid()
      ensures userId !in old(userRepository.users) ==>
        r == OperationResult(false, UserNotFound) && unchanged(userRepository)
      ensures userId in old(userRepository.users) && old(EmailConflict(userId, dto)) ==>
        r == OperationResult(false, EmailAlreadyExists) && unchanged(userRepository)
      ensures r.success <==>
        userId in old(userRepository.users) && !old(EmailConflict(userId, dto)) && userRepository.acceptsWrites
      // Only the named user changes, and only as the partial update says.
      ensures r.success ==>
        && r.message == UserUpdated
        && userId in userRepository.users
        && userRepository.users.Keys == old(userRepository.users).Keys
        && (forall id :: id in old(userRepository.users) && id != userId ==>
              userRepository.users[id] == old(userRepository.users)[id])
        && PartiallyUpdated(old(userRepository.users)[userId], userRepository.users[userId], dto, now)
        && userRepository.order == old(userRepository.order)
        && userRepository.nextId == old(userRepository.nextId)
      ensures userId in old(userRepository.users) && !old(EmailConflict(userId, dto)) && !r.success ==>
        r == OperationResult(false, UpdateFailed) && unchanged(userRepository)
      ensures old(userRepository.EmailsUnique()) ==> userRepository.EmailsUnique()
    {
      var found := userRepository.GetById(userId);
      if found.None? {
        return OperationResult(false, UserNotFound);
      }
      var user := found.value;

      if dto.email != "" && dto.email != user.email {
        var existingUser := userRepository.GetByEmail(dto.email);
        if existingUser.Some? && existingUser.value.userId != userId {
          return OperationResult(false, EmailAlreadyExists);
        }
        user := user.(email := dto.email);
      }

      if dto.name != "" {
        user := user.(name := dto.name);
      }
      if dto.designation != "" {
        user := user.(designation := dto.designation);
      }
      if dto.dateOfBirth.Some? {
        user := user.(dateOfBirth := dto.dateOfBirth.value);
      }
      user := user.(updatedAt := Some(now));
      ghost var before := old(userRepository.users);
      assert PartiallyUpdated(before[userId], UpdatedRow(before[userId], user), dto, now);
      assert old(userRepository.EmailsUnique()) ==>
        UniqueEmails(before[userId := UpdatedRow(before[userId], user)]) by {
        if old(userRepository.EmailsUnique()) {
          RewritePreservesUniqueEmails(before, userId, UpdatedRow(before[userId], user));
        }
      }

      var updated := userRepository.Update(user);
      if updated {
        return OperationResult(true, UserUpdated);
      }
      return OperationResult(false, UpdateFailed);
    }

    /** Deletes the user with `userId`. */
    method DeleteUser(userId: int) returns (r: OperationResult)
      requires userRepository.Valid()
      modifies userRepository
      ensures userRepository.Valid()
      ensures userId !in old(userRepository.users) ==>
        r == OperationResult(false, UserNotFound) && unchanged(userRepository)
      ensures r.success <==> userId in old(userRepository.users) && userRepository.acceptsWrites
      ensures r.success ==>
        && r.message == UserDeleted
        && userRepository.users == old(userRepository.users) - {userId}
        && userRepository.order == Without(old(userRepository.order), userId)
        && userRepository.nextId == old(userRepository.nextId)
      ensures userId in old(userRepository.users) && !r.success ==>
        r == OperationResult(false, DeleteFailed) && unchanged(userRepository)
      ensures old(userRepository.EmailsUnique()) ==> userRepository.EmailsUnique()
    {
      var found := userRepository.GetById(userId);
      if found.None? {
        return OperationResult(false, UserNotFound);
      }
      var deleted := userRepository.Delete(userId);
      if deleted {
        return OperationResult(true, UserDeleted);
      }
      return OperationResult(false, DeleteFailed);
    }
  }
}
