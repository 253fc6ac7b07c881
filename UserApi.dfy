/** `UserController`: registration, profile and login endpoints under `api/User`. */
module UserApi {
  import opened Prelude
  import opened Strings
  import opened Hashing
  import opened Http
  import opened Users

  const EmailTaken := "Пользователь с таким email уже существует"
  const RegistrationFailed := "Ошибка при регистрации: "
  const InvalidUserData := "Invalid user data."
  const CredentialsRequired := "Email and Password are required."
  const WrongCredentials := "Неверный email или пароль"
  const LoginSuccessful := "Login successful"

  datatype RegisterRequest = RegisterRequest(name: NString, email: NString, password: NString)
  datatype LoginRequest = LoginRequest(email: NString, password: NString)

  /** The anonymous object of the 201 response: no password. */
  datatype UserView = UserView(id: int, name: NString, email: NString, role: NString)

  /** The claims of the cookie identity. */
  datatype Claims = Claims(nameIdentifier: int, name: string, email: string, role: string)

  datatype LoginBody = LoginBody(message: string, userId: int, name: NString, role: string)

  /** The response, and the identity signed in when there is one. */
  datatype LoginOutcome = LoginOutcome(response: Response<LoginBody>, signIn: Option<Claims>)

  /** The user the controller hands to `RegisterUserAsync`. */
  function NewUser(request: RegisterRequest): UserModel {
    UserModel(0, request.name, request.email, request.password, Some(DefaultRole), 0)
  }

  /**
   * `POST api/User/register`: 400 for an invalid model state, 409 for a taken
   * e-mail, 500 with the exception message when the service throws, else 201
   * with the stored user's key, name, e-mail and role.
   */
  function RegisterResponse(t: UserTable, sha: Sha256, request: RegisterRequest, modelStateValid: bool, now: int): (r: Response<UserView>)
    ensures r.StatusCode() == 400 <==> !modelStateValid
    ensures r.StatusCode() == 409 <==> modelStateValid && ByEmail(t.users, request.email).Some?
    ensures r.Conflict? ==> r.message == EmailTaken
  {
    if !modelStateValid then ValidationProblem
    else if ByEmail(t.users, request.email).Some? then Conflict(EmailTaken)
    else match RegisterResult(t, sha, Some(NewUser(request)), now)
      case Failure(e) => ServerError(RegistrationFailed + e.Message())
      case Success(u) => Created(UserView(u.id, u.name, u.email, u.role))
  }

  function AfterRegisterRequest(t: UserTable, sha: Sha256, request: RegisterRequest, modelStateValid: bool, now: int): UserTable {
    if !modelStateValid || ByEmail(t.users, request.email).Some? then t
    else AfterRegister(t, sha, Some(NewUser(request)), now)
  }

  /**
   * Register through the controller: a conflict or bad request adds nothing; the only
   * service failure left is a blank password, reported as 500; otherwise the new user
   * has role "user" and the response echoes it without the password.
   */
  lemma RegisterRequestOutcome(t: UserTable, sha: Sha256, request: RegisterRequest, modelStateValid: bool, now: int)
    requires Valid(t)
    ensures var r, t' := RegisterResponse(t, sha, request, modelStateValid, now), AfterRegisterRequest(t, sha, request, modelStateValid, now);
      && Valid(t')
      && (r.StatusCode() != 201 ==> t' == t)
      && (r.ServerError? <==> modelStateValid && ByEmail(t.users, request.email).None? && IsNullOrWhiteSpace(request.password))
      && (r.ServerError? ==> r.message == RegistrationFailed + "Password is required")
      && (r.Created? ==>
            && |t'.users| == |t.users| + 1
            && ById(t'.users, r.value.id).Some?
            && var u := ById(t'.users, r.value.id).value;
            && r.value == UserView(u.id, u.name, u.email, u.role)
            && u.role == Some(DefaultRole) && u.email == request.email
            && u.password == Some(HashOf(sha, request.password.value)))
  {
    RegisterOutcome(t, sha, Some(NewUser(request)), now);
  }

  /** `GET api/User/{id}`. */
  function GetUserResponse(t: UserTable, id: int): (r: Response<UserModel>)
    ensures r.StatusCode() == 404 <==> forall j :: 0 <= j < |t.users| ==> t.users[j].id != id
    ensures r.Ok? ==> r.value in t.users && r.value.id == id
    ensures r.Ok? || r.NotFound?
  {
    match ById(t.users, id)
    case None => NotFound
    case Some(u) => Ok(u)
  }

  /** `PUT api/User/{id}`: 400 for a missing body or a mismatched key, 404 for an unknown user, else 204. */
  function UpdateUserResponse(t: UserTable, id: int, updatedUser: Option<UserModel>): (r: Response<UserModel>)
    ensures r.StatusCode() == 400 <==> updatedUser.None? || updatedUser.value.id != id
    ensures r.StatusCode() == 404 <==> updatedUser.Some? && updatedUser.value.id == id && ById(t.users, id).None?
    ensures r.BadRequest? ==> r.message == InvalidUserData
    ensures r.BadRequest? || r.NotFound? || r.NoContent?
  {
    if updatedUser.None? || id != updatedUser.value.id then BadRequest(InvalidUserData)
    else if ById(t.users, id).None? then NotFound
    else NoContent
  }

  /** The user the controller passes on: the stored row, still with its stored hash, given the new name and e-mail. */
  function UpdateArgument(existing: UserModel, updatedUser: UserModel): UserModel {
    existing.(name := updatedUser.name, email := updatedUser.email)
  }

  function AfterUpdateRequest(t: UserTable, sha: Sha256, id: int, updatedUser: Option<UserModel>): UserTable {
    if updatedUser.None? || id != updatedUser.value.id || ById(t.users, id).None? then t
    else
      match AfterUpdateUser(t, sha, UpdateArgument(ById(t.users, id).value, updatedUser.value))
      case Failure(_) => t
      case Success(t') => t'
  }

  /**
   * Updating a profile through the controller hashes the stored hash again: the new
   * stored password is the hash of the old stored value, and role and key stay.
   */
  lemma UpdateDoubleHashes(t: UserTable, sha: Sha256, id: int, updatedUser: UserModel)
    requires Valid(t) && updatedUser.id == id && ById(t.users, id).Some?
    requires !IsNullOrEmpty(ById(t.users, id).value.password)
    ensures var before, t' := ById(t.users, id).value, AfterUpdateRequest(t, sha, id, Some(updatedUser));
      && ById(t'.users, id).Some?
      && ById(t'.users, id).value == before.(name := updatedUser.name, email := updatedUser.email,
                                             password := Some(HashOf(sha, before.password.value)))
  {
    var before := ById(t.users, id).value;
    UpdateUserOutcome(t, sha, UpdateArgument(before, updatedUser));
  }

  /**
   * Consequently a user who registered with `password` and then edited the profile
   * can log in with that password again only when the two digests collide.
   */
  lemma UpdateLocksOutUser(t: UserTable, sha: Sha256, id: int, updatedUser: UserModel, password: string)
    requires Valid(t) && updatedUser.id == id && ById(t.users, id).Some?
    requires ById(t.users, id).value.password == Some(HashOf(sha, password))
    requires !AllWhiteSpace(password) && !IsNullOrWhiteSpace(updatedUser.email)
    requires forall j :: 0 <= j < |t.users| && t.users[j].id != id ==> t.users[j].email != updatedUser.email
    ensures var t' := AfterUpdateRequest(t, sha, id, Some(updatedUser));
      Authenticate(t', sha, updatedUser.email, Some(password)).Some? <==> sha(password) == sha(HashOf(sha, password))
  {
    var before := ById(t.users, id).value;
    var t' := AfterUpdateRequest(t, sha, id, Some(updatedUser));
    UpdateDoubleHashes(t, sha, id, updatedUser);
    UpdateUserOutcome(t, sha, UpdateArgument(before, updatedUser));
    var k := IndexById(t'.users, id);
    SameIdsSameIndex(t.users, t'.users, id);
    assert IndexByEmail(t'.users, updatedUser.email) == k by {
      forall j | 0 <= j < |t'.users| && j != k ensures t'.users[j].email != updatedUser.email {
        assert t'.users[j] == t.users[j];
        assert j < k || j > k;
      }
    }
    AuthenticateNeedsMatchingDigest(t', sha, updatedUser.email, password, HashOf(sha, password));
  }

  /**
   * `POST api/User/{UserId}` (login): 400 for a missing request or an empty e-mail or
   * password, 401 when authentication fails, an exception when the stored name or
   * e-mail is null, else 200 and a cookie identity with the trimmed name and the
   * role defaulting to "user".
   */
  function LoginResult(t: UserTable, sha: Sha256, request: Option<LoginRequest>): (o: LoginOutcome)
    ensures o.response.StatusCode() == 400 <==>
      request.None? || IsNullOrEmpty(request.value.email) || IsNullOrEmpty(request.value.password)
    ensures o.response.StatusCode() == 401 <==>
      o.response.StatusCode() != 400 && Authenticate(t, sha, request.value.email, request.value.password).None?
    ensures o.response.Unauthorized? ==> o.response.message == WrongCredentials
    ensures o.signIn.Some? <==> o.response.Ok?
    ensures o.response.Ok? ==>
      var u := Authenticate(t, sha, request.value.email, request.value.password).value;
      && u.name.Some? && u.email.Some?
      && o.signIn.value == Claims(u.id, Trim(u.name.value), u.email.value, o.response.value.role)
      && o.response.value == LoginBody(LoginSuccessful, u.id, u.name, o.response.value.role)
      && o.response.value.role == (if u.role.None? then DefaultRole else u.role.value)
  {
    if request.None? || IsNullOrEmpty(request.value.email) || IsNullOrEmpty(request.value.password) then
      LoginOutcome(BadRequest(CredentialsRequired), None)
    else match Authenticate(t, sha, request.value.email, request.value.password)
      case None => LoginOutcome(Unauthorized(WrongCredentials), None)
      case Some(u) =>
        if u.name.None? || u.email.None? then LoginOutcome(Unhandled, None)
        else
          var role := if u.role.None? then DefaultRole else u.role.value;
          LoginOutcome(Ok(LoginBody(LoginSuccessful, u.id, u.name, role)),
                       Some(Claims(u.id, Trim(u.name.value), u.email.value, role)))
  }

  /** A user registered through the controller with a non-blank name can log in with the same e-mail and password. */
  lemma RegisterThenLogin(t: UserTable, sha: Sha256, request: RegisterRequest, now: int)
    requires Valid(t)
    requires !IsNullOrWhiteSpace(request.name) && !IsNullOrWhiteSpace(request.email) && !IsNullOrWhiteSpace(request.password)
    requires RegisterResponse(t, sha, request, true, now).Created?
    ensures var o := LoginResult(AfterRegisterRequest(t, sha, request, true, now), sha, Some(LoginRequest(request.email, request.password)));
      && o.response.Ok? && o.response.value.role == DefaultRole
      && o.signIn.value.name == Trim(request.name.value)
  {
    RegisterThenAuthenticate(t, sha, NewUser(request), now);
  }

  class UserController {
    const userService: UserService

    constructor(userService: UserService)
      ensures this.userService == userService
    {
      this.userService := userService;
    }

    method Register(request: RegisterRequest, modelStateValid: bool, now: int) returns (r: Response<UserView>)
      requires Valid(userService.Table())
      modifies userService
      ensures Valid(userService.Table())
      ensures r == RegisterResponse(old(userService.Table()), userService.sha, request, modelStateValid, now)
      ensures userService.Table() == AfterRegisterRequest(old(userService.Table()), userService.sha, request, modelStateValid, now)
    {
      if !modelStateValid {
        return ValidationProblem;
      }
      var existingUser := userService.GetUserByEmail(request.email);
      if existingUser.Some? {
        return Conflict(EmailTaken);
      }
      var newUser := UserModel(0, request.name, request.email, request.password, Some(DefaultRole), 0);
      var created := userService.RegisterUser(Some(newUser), now);
      match created {
        case Failure(e) => r := ServerError(RegistrationFailed + e.Message());
        case Success(u) => r := Created(UserView(u.id, u.name, u.email, u.role));
      }
    }

    method GetUser(id: int) returns (r: Response<UserModel>)
      ensures r == GetUserResponse(userService.Table(), id)
    {
      var user := userService.GetUserById(id);
      r := if user.None? then NotFound else Ok(user.value);
    }

    method UpdateUser(id: int, updatedUser: Option<UserModel>) returns (r: Response<UserModel>)
      requires Valid(userService.Table())
      modifies userService
      ensures Valid(userService.Table())
      ensures r == UpdateUserResponse(old(userService.Table()), id, updatedUser)
      ensures userService.Table() == AfterUpdateRequest(old(userService.Table()), userService.sha, id, updatedUser)
    {
      if updatedUser.None? || id != updatedUser.value.id {
        return BadRequest(InvalidUserData);
      }
      var existingUser := userService.GetUserById(id);
      if existingUser.None? {
        return NotFound;
      }
      var existing := existingUser.value;
      existing := existing.(name := updatedUser.value.name, email := updatedUser.value.email);
      var _ := userService.UpdateUser(existing);
      r := NoContent;
    }

    method Login(request: Option<LoginRequest>) returns (o: LoginOutcome)
      ensures o == LoginResult(userService.Table(), userService.sha, request)
    {
      if request.None? || IsNullOrEmpty(request.value.email) || IsNullOrEmpty(request.value.password) {
        return LoginOutcome(BadRequest(CredentialsRequired), None);
      }
      var user := userService.AuthenticateUser(request.value.email, request.value.password);
      if user.None? {
        return LoginOutcome(Unauthorized(WrongCredentials), None);
      }
      var u := user.value;
      if u.name.None? || u.email.None? {
        return LoginOutcome(Unhandled, None);
      }
      var role := if u.role.None? then DefaultRole else u.role.value;
      var claims := Claims(u.id, Trim(u.name.value), u.email.value, role);
      o := LoginOutcome(Ok(LoginBody(LoginSuccessful, u.id, u.name, role)), Some(claims));
    }
  }
}
