/**
  * Registration and login. Registration runs its checks in a fixed order
  * (duplicate email, then designation, then the insert, then the returned
  * id); login looks the user up by email, verifies the password and issues a
  * token, and reports an unknown email and a wrong password alike.
  */
module Authentication {
  import opened Wrappers
  import opened Models
  import opened DTOs
  import opened Repositories

  const EmailAlreadyExists := "Email already exists"
  const InvalidDesignation := "Designation must be either 'Teacher' or 'Student'"
  const RegistrationSuccessful := "Registration successful"
  const RegistrationFailed := "Registration failed"
  const InvalidCredentials := "Invalid email or password"
  const LoginSuccessful := "Login successful"

  datatype RegisterResult = RegisterResult(success: bool, message: string, userId: int)

  datatype LoginResult = LoginResult(success: bool, message: string, response: Option<LoginResponseDTO>)

  /** The two roles a user may register with. */
  predicate IsDesignation(designation: string) {
    designation == "Teacher" || designation == "Student"
  }

  class AuthenticationLogic {
    const userRepository: UserRepository
    /** The password hasher and the token issuer, whose workings are not part of this model. */
    const hashPassword: string -> string
    const verifyPassword: (string, string) -> bool
    const generateToken: (int, string, string) -> string

    constructor(userRepository: UserRepository, hashPassword: string -> string,
                verifyPassword: (string, string) -> bool, generateToken: (int, string, string) -> string)
      ensures this.userRepository == userRepository
      ensures this.hashPassword == hashPassword && this.verifyPassword == verifyPassword
      ensures this.generateToken == generateToken
    {
      this.userRepository := userRepository;
      this.hashPassword := hashPassword;
      this.verifyPassword := verifyPassword;
      this.generateToken := generateToken;
    }

    /** Registers a new user at time `now`. */
    method Register(dto: RegisterDTO, now: DateTime) returns (r: RegisterResult)
      requires userRepository.Valid()
      modifies userRepository
      ensures userRepository.Valid()
      // A taken email is reported first, whatever the designation.
      ensures old(userRepository.EmailExists(dto.email)) ==>
        r == RegisterResult(false, EmailAlreadyExists, 0) && unchanged(userRepository)
      ensures !old(userRepository.EmailExists(dto.email)) && !IsDesignation(dto.designation) ==>
        r == RegisterResult(false, InvalidDesignation, 0) && unchanged(userRepository)
      ensures r.success <==>
        !old(userRepository.EmailExists(dto.email)) && IsDesignation(dto.designation) && userRepository.acceptsWrites
      // Exactly one row is added, carrying the request's fields, the hashed password and `now`.
      ensures r.success ==>
        && r.message == RegistrationSuccessful
        && r.userId > 0 && r.userId !in old(userRepository.users)
        && userRepository.users == old(userRepository.users)[r.userId :=
             User(r.userId, dto.name, dto.email, hashPassword(dto.password), dto.dateOfBirth,
                  dto.designation, now, None)]
        && userRepository.order == [r.userId] + old(userRepository.order)
        && userRepository.nextId == old(userRepository.nextId) + 1
      ensures !old(userRepository.EmailExists(dto.email)) && IsDesignation(dto.designation) && !r.success ==>
        r == RegisterResult(false, RegistrationFailed, 0) && unchanged(userRepository)
      ensures old(userRepository.EmailsUnique()) ==> userRepository.EmailsUnique()
    {
      if userRepository.EmailExists(dto.email) {
        return RegisterResult(false, EmailAlreadyExists, 0);
      }
      if dto.designation != "Teacher" && dto.designation != "Student" {
        return RegisterResult(false, InvalidDesignation, 0);
      }
      var user := User(0, dto.name, dto.email, hashPassword(dto.password), dto.dateOfBirth,
                       dto.designation, now, None);
      var userId := userRepository.Create(user);
      if userId > 0 {
        return RegisterResult(true, RegistrationSuccessful, userId);
      }
      return RegisterResult(false, RegistrationFailed, 0);
    }

    /** Checks the credentials and, when they hold, issues a token for the stored user. */
    function Login(dto: LoginDTO): (r: LoginResult)
      reads userRepository
      requires userRepository.Valid()
      // An unknown email and a wrong password give the same answer.
      ensures !r.success ==> r == LoginResult(false, InvalidCredentials, None)
      ensures !userRepository.EmailExists(dto.email) ==> !r.success
      ensures r.success ==>
        && r.message == LoginSuccessful
        && exists id :: id in userRepository.users
             && userRepository.users[id].email == dto.email
             && verifyPassword(dto.password, userRepository.users[id].passwordHash)
             && r.response == Some(LoginResponseDTO(
                  generateToken(id, dto.email, userRepository.users[id].designation),
                  userRepository.users[id].name, dto.email, userRepository.users[id].designation))
      ensures userRepository.EmailsUnique() ==>
        (r.success <==>
           exists id :: id in userRepository.users
             && userRepository.users[id].email == dto.email
             && verifyPassword(dto.password, userRepository.users[id].passwordHash))
    {
      match userRepository.GetByEmail(dto.email)
      case None => LoginResult(false, InvalidCredentials, None)
      case Some(user) =>
        if !verifyPassword(dto.password, user.passwordHash) then
          LoginResult(false, InvalidCredentials, None)
        else
          var token := generateToken(user.userId, user.email, user.designation);
          LoginResult(true, LoginSuccessful, Some(LoginResponseDTO(token, user.name, user.email, user.designation)))
    }
  }

  /**
    * A fresh registration followed by a login with the same credentials
    * succeeds and answers with the registered name, email and designation,
    * provided the password hasher verifies what it hashed.
    */
  method RegisterThenLogin(auth: AuthenticationLogic, dto: RegisterDTO, now: DateTime)
    returns (registered: RegisterResult, loggedIn: LoginResult)
    requires auth.userRepository.Valid()
    requires forall p :: auth.verifyPassword(p, auth.hashPassword(p))
    modifies auth.userRepository
    ensures registered.success ==>
      && loggedIn.success && loggedIn.message == LoginSuccessful
      && loggedIn.response == Some(LoginResponseDTO(
           auth.generateToken(registered.userId, dto.email, dto.designation),
           dto.name, dto.email, dto.designation))
  {
    registered := auth.Register(dto, now);
    if registered.success {
      // The new row is the only one with this email, whatever the store held before.
      var users := auth.userRepository.users;
      assert forall id :: id in users && users[id].email == dto.email ==> id == registered.userId;
      assert auth.userRepository.GetByEmail(dto.email) == Some(users[registered.userId]);
    }
    loggedIn := auth.Login(LoginDTO(dto.email, dto.password));
  }
}
