/** Option, the conventional stand-in for a C# reference that may be null. */
module Wrappers {

  datatype Option<+T> = None | Some(value: T)
}

/** The persisted entity of the service: one row of the Users table. */
module Models {
  import opened Wrappers

  /** A point in time (C# DateTime), as a count of ticks. */
  type DateTime = int

  /**
    * A user record. `userId` is assigned by the store on creation;
    * `designation` is a free string ("Teacher" or "Student" at registration,
    * any non-empty string after an update); `updatedAt` is absent until the
    * first update.
    */
  datatype User = User(
    userId: int,
    name: string,
    email: string,
    passwordHash: string,
    dateOfBirth: DateTime,
    designation: string,
    createdAt: DateTime,
    updatedAt: Option<DateTime>)
}

/**
  * Request and response shapes of the services. A C# string that may be
  * null or empty is a `string` here, with "" standing for both, because the
  * services only ever test them with string.IsNullOrEmpty.
  */
module DTOs {
  import opened Wrappers
  import opened Models

  datatype LoginDTO = LoginDTO(email: string, password: string)

  datatype RegisterDTO = RegisterDTO(
    name: string,
    email: string,
    password: string,
    dateOfBirth: DateTime,
    designation: string)

  datatype LoginResponseDTO = LoginResponseDTO(
    token: string,
    name: string,
    email: string,
    designation: string)

  /** The public projection of a user: everything but the password hash and the update time. */
  datatype UserDTO = UserDTO(
    userId: int,
    name: string,
    email: string,
    dateOfBirth: DateTime,
    designation: string,
    createdAt: DateTime)

  /** A partial update: "" or None means "leave this field as it is". */
  datatype UpdateUserDTO = UpdateUserDTO(
    name: string,
    email: string,
    designation: string,
    dateOfBirth: Option<DateTime>)
}
