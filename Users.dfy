/**
 * `UserService`: the `Users` table, registration with hash-on-store,
 * authentication and profile update.
 */
module Users {
  import opened Prelude
  import opened Strings
  import opened Hashing

  /** A `UserModel` row; `registeredAt` is the clock reading in ticks. */
  datatype UserModel = UserModel(id: int, name: NString, email: NString, password: NString, role: NString, registeredAt: int)

  /** The exceptions the service throws. */
  datatype UserError = UserNull | PasswordRequired | EmailExists | UserNotFound
  {
    function Message(): string {
      match this
      case UserNull => "Value cannot be null. (Parameter 'user')"
      case PasswordRequired => "Password is required"
      case EmailExists => "Email already exists"
      case UserNotFound => "User not found"
    }
  }

  const DefaultRole := "user"

  /** The `Users` table in key order, with the next identity value. */
  datatype UserTable = UserTable(users: seq<UserModel>, nextId: int)

  predicate Valid(t: UserTable) {
    && t.nextId >= 1
    && (forall i :: 0 <= i < |t.users| ==> 1 <= t.users[i].id < t.nextId)
    && (forall i, j :: 0 <= i < j < |t.users| ==> t.users[i].id < t.users[j].id)
  }

  /** No two users share an e-mail address. */
  predicate UniqueEmails(t: UserTable) {
    forall i, j :: 0 <= i < j < |t.users| ==> t.users[i].email != t.users[j].email
  }

  /** Position of the first user with this key, or -1. */
  function IndexById(users: seq<UserModel>, id: int): int {
    IndexWhere(users, (u: UserModel) => u.id == id)
  }

  /** Position of the first user with this e-mail address, or -1. */
  function IndexByEmail(users: seq<UserModel>, email: NString): int {
    IndexWhere(users, (u: UserModel) => u.email == email)
  }

  /** `FirstOrDefaultAsync(u => u.Id == id)`. */
  function ById(users: seq<UserModel>, id: int): Option<UserModel> {
    var k := IndexById(users, id);
    if k < 0 then None else Some(users[k])
  }

  /** `FirstOrDefaultAsync(u => u.Email == email)`. */
  function ByEmail(users: seq<UserModel>, email: NString): Option<UserModel> {
    var k := IndexByEmail(users, email);
    if k < 0 then None else Some(users[k])
  }

  /** The user `RegisterUserAsync` stores: hashed password, clock reading, default role, next key. */
  function Registered(t: UserTable, sha: Sha256, user: UserModel, now: int): UserModel
    requires user.password.Some?
  {
    user.(id := t.nextId,
          password := Some(HashOf(sha, user.password.value)),
          registeredAt := now,
          role := if user.role.None? then Some(DefaultRole) else user.role)
  }

  /** `RegisterUserAsync`: the three checks in order, then the stored user. */
  function RegisterResult(t: UserTable, sha: Sha256, user: Option<UserModel>, now: int): Result<UserModel, UserError> {
    if user.None? then Failure(UserNull)
    else if IsNullOrWhiteSpace(user.value.password) then Failure(PasswordRequired)
    else if IndexByEmail(t.users, user.value.email) >= 0 then Failure(EmailExists)
    else Success(Registered(t, sha, user.value, now))
  }

  /** The table after `RegisterUserAsync`: one more row on success, unchanged on every failure. */
  function AfterRegister(t: UserTable, sha: Sha256, user: Option<UserModel>, now: int): UserTable {
    match RegisterResult(t, sha, user, now)
    case Failure(_) => t
    case Success(u) => UserTable(t.users + [u], t.nextId + 1)
  }

  /** `UpdateUserAsync`: overwrite name, e-mail and role; re-hash only a non-empty password. */
  function AfterUpdateUser(t: UserTable, sha: Sha256, user: UserModel): Result<UserTable, UserError> {
    var k := IndexById(t.users, user.id);
    if k < 0 then Failure(UserNotFound)
    else
      var row := t.users[k].(name := user.name, email := user.email, role := user.role);
      var row' := if IsNullOrEmpty(user.password) then row else row.(password := Some(HashOf(sha, user.password.value)));
      Success(t.(users := t.users[k := row']))
  }

  /**
   * `AuthenticateUserAsync`: null for a blank e-mail or password, an unknown
   * e-mail or a hash mismatch; otherwise the stored user.
   */
  function Authenticate(t: UserTable, sha: Sha256, email: NString, password: NString): (r: Option<UserModel>)
    ensures r.Some? <==>
      (&& !IsNullOrWhiteSpace(email) && !IsNullOrWhiteSpace(password)
       && ByEmail(t.users, email).Some?
       && ByEmail(t.users, email).value.password == Some(HashOf(sha, password.value)))
    ensures r.Some? ==> r.value in t.users && r.value.email == email
  {
    if IsNullOrWhiteSpace(email) || IsNullOrWhiteSpace(password) then None
    else
      var user := ByEmail(t.users, email);
      if user.None? then None
      else if !VerifyPassword(sha, password, user.value.password) then None
      else user
  }

  // ---- what the service promises -----------------------------------------------------------

  /**
   * Registration rejects a null user, a blank password and a taken e-mail, in that
   * order, leaving the table unchanged; otherwise it adds exactly the returned user,
   * under a new key, with the hash of the password and the default role when none was given.
   */
  lemma RegisterOutcome(t: UserTable, sha: Sha256, user: Option<UserModel>, now: int)
    requires Valid(t)
    ensures var r, t' := RegisterResult(t, sha, user, now), AfterRegister(t, sha, user, now);
      && Valid(t')
      && (r == Failure(UserNull) <==> user.None?)
      && (r == Failure(PasswordRequired) <==> user.Some? && IsNullOrWhiteSpace(user.value.password))
      && (r == Failure(EmailExists) <==>
            user.Some? && !IsNullOrWhiteSpace(user.value.password)
            && exists j :: 0 <= j < |t.users| && t.users[j].email == user.value.email)
      && (r.Failure? ==> t' == t)
      && (r.Success? ==>
            && |t'.users| == |t.users| + 1
            && ById(t'.users, t.nextId) == Some(r.value)
            && r.value.email == user.value.email && r.value.name == user.value.name
            && r.value.password == Some(HashOf(sha, user.value.password.value))
            && r.value.role == (if user.value.role.None? then Some(DefaultRole) else user.value.role)
            && r.value.registeredAt == now)
  {
    var r := RegisterResult(t, sha, user, now);
    if r.Success? {
      var t' := AfterRegister(t, sha, user, now);
      assert t'.users[|t.users|] == r.value;
      assert IndexById(t'.users, t.nextId) == |t.users| by {
        forall j | 0 <= j < |t.users| ensures t'.users[j].id != t.nextId {
          assert t'.users[j] == t.users[j];
        }
      }
    }
  }

  /** Registration keeps e-mail addresses unique. */
  lemma RegisterKeepsUniqueEmails(t: UserTable, sha: Sha256, user: Option<UserModel>, now: int)
    requires UniqueEmails(t)
    ensures UniqueEmails(AfterRegister(t, sha, user, now))
  {
    var t' := AfterRegister(t, sha, user, now);
    if RegisterResult(t, sha, user, now).Success? {
      forall i, j | 0 <= i < j < |t'.users| ensures t'.users[i].email != t'.users[j].email {
        if j == |t.users| {
          assert t'.users[i] == t.users[i];
        } else {
          assert t'.users[i] == t.users[i] && t'.users[j] == t.users[j];
        }
      }
    }
  }

  /** A freshly registered user can log in with the password given at registration. */
  lemma RegisterThenAuthenticate(t: UserTable, sha: Sha256, user: UserModel, now: int)
    requires Valid(t) && !IsNullOrWhiteSpace(user.email) && !IsNullOrWhiteSpace(user.password)
    requires RegisterResult(t, sha, Some(user), now).Success?
    ensures Authenticate(AfterRegister(t, sha, Some(user), now), sha, user.email, user.password)
            == Some(RegisterResult(t, sha, Some(user), now).value)
  {
    var t' := AfterRegister(t, sha, Some(user), now);
    var u := RegisterResult(t, sha, Some(user), now).value;
    assert t'.users[|t.users|] == u;
    assert IndexByEmail(t'.users, user.email) == |t.users| by {
      forall j | 0 <= j < |t.users| ensures t'.users[j].email != user.email {
        assert t'.users[j] == t.users[j];
      }
    }
  }

  /** Logging in succeeds only with a password whose digest equals the one the stored hash was made from. */
  lemma AuthenticateNeedsMatchingDigest(t: UserTable, sha: Sha256, email: NString, password: string, original: string)
    requires ByEmail(t.users, email).Some? && ByEmail(t.users, email).value.password == Some(HashOf(sha, original))
    requires !IsNullOrWhiteSpace(email) && !AllWhiteSpace(password)
    ensures Authenticate(t, sha, email, Some(password)).Some? <==> sha(password) == sha(original)
  {
    if HashOf(sha, password) == HashOf(sha, original) {
      HexInjective(sha(password), sha(original));
    }
  }

  /**
   * Update of an unknown key fails with "User not found"; of a known one it overwrites
   * name, e-mail and role, keeps the key and registration time, replaces the stored hash
   * exactly when the given password is non-empty, and leaves every other user as it was.
   */
  lemma UpdateUserOutcome(t: UserTable, sha: Sha256, user: UserModel)
    requires Valid(t)
    ensures var r := AfterUpdateUser(t, sha, user);
      && (r == Failure(UserNotFound) <==> ById(t.users, user.id).None?)
      && (r.Success? ==>
            var before, after := ById(t.users, user.id).value, ById(r.value.users, user.id);
            && Valid(r.value)
            && |r.value.users| == |t.users|
            && after.Some?
            && after.value.name == user.name && after.value.email == user.email && after.value.role == user.role
            && after.value.registeredAt == before.registeredAt
            && after.value.password == (if IsNullOrEmpty(user.password) then before.password
                                        else Some(HashOf(sha, user.password.value)))
            && forall id :: id != user.id ==> ById(r.value.users, id) == ById(t.users, id))
  {
    var r := AfterUpdateUser(t, sha, user);
    if r.Success? {
      var users' := r.value.users;
      var k := IndexById(t.users, user.id);
      assert forall j :: 0 <= j < |users'| ==> users'[j].id == t.users[j].id;
      forall id ensures IndexById(users', id) == IndexById(t.users, id) {
        SameIdsSameIndex(t.users, users', id);
      }
    }
  }

  lemma SameIdsSameIndex(a: seq<UserModel>, b: seq<UserModel>, id: int)
    requires |a| == |b| && forall j :: 0 <= j < |a| ==> a[j].id == b[j].id
    ensures IndexById(a, id) == IndexById(b, id)
  {
    SameVerdictsSameIndex(a, b, (u: UserModel) => u.id == id);
  }

  /** Updating one user's e-mail to another user's address is accepted, so addresses can end up shared. */
  lemma UpdateCanShareEmail(sha: Sha256)
    ensures var a, b := UserModel(1, None, Some("a@x"), None, None, 0), UserModel(2, None, Some("b@x"), None, None, 0);
      var t := UserTable([a, b], 3);
      && UniqueEmails(t)
      && AfterUpdateUser(t, sha, b.(email := a.email)).Success?
      && !UniqueEmails(AfterUpdateUser(t, sha, b.(email := a.email)).value)
  {
    var a, b := UserModel(1, None, Some("a@x"), None, None, 0), UserModel(2, None, Some("b@x"), None, None, 0);
    var t := UserTable([a, b], 3);
    assert t.users[0].id == 1 && t.users[1].id == 2;
    assert IndexById(t.users, 2) == 1;
    var t' := AfterUpdateUser(t, sha, b.(email := a.email)).value;
    assert t'.users[0].email == t'.users[1].email;
  }

  // ---- the service object ----------------------------------------------------------------

  class UserService {
    const sha: Sha256
    var users: seq<UserModel>
    var nextId: int

    function Table(): UserTable
      reads this
    {
      UserTable(users, nextId)
    }

    constructor(sha: Sha256)
      ensures this.sha == sha && Table() == UserTable([], 1) && Valid(Table())
    {
      this.sha := sha;
      users, nextId := [], 1;
    }

    method GetUserById(id: int) returns (user: Option<UserModel>)
      ensures user == ById(users, id)
      ensures user.Some? ==> user.value in users && user.value.id == id
      ensures user.None? <==> forall j :: 0 <= j < |users| ==> users[j].id != id
    {
      var k := IndexById(users, id);
      user := if k < 0 then None else Some(users[k]);
    }

    method GetUserByEmail(email: NString) returns (user: Option<UserModel>)
      ensures user == ByEmail(users, email)
      ensures user.Some? ==> user.value in users && user.value.email == email
      ensures user.None? <==> forall j :: 0 <= j < |users| ==> users[j].email != email
    {
      var k := IndexByEmail(users, email);
      user := if k < 0 then None else Some(users[k]);
    }

    method UpdateUser(user: UserModel) returns (error: Option<UserError>)
      requires Valid(Table())
      modifies this
      ensures Valid(Table())
      ensures AfterUpdateUser(old(Table()), sha, user).Failure? ==> error == Some(UserNotFound) && Table() == old(Table())
      ensures AfterUpdateUser(old(Table()), sha, user).Success? ==> error.None? && Table() == AfterUpdateUser(old(Table()), sha, user).value
    {
      var k := IndexById(users, user.id);
      if k < 0 {
        return Some(UserNotFound);
      }
      var existing := users[k];
      existing := existing.(name := user.name, email := user.email, role := user.role);
      if !IsNullOrEmpty(user.password) {
        var hash := HashPassword(sha, user.password.value);
        existing := existing.(password := Some(hash));
      }
      users := users[k := existing];
      error := None;
      UpdateUserOutcome(old(Table()), sha, user);
    }

    method RegisterUser(user: Option<UserModel>, now: int) returns (r: Result<UserModel, UserError>)
      requires Valid(Table())
      modifies this
      ensures Valid(Table())
      ensures r == RegisterResult(old(Table()), sha, user, now)
      ensures Table() == AfterRegister(old(Table()), sha, user, now)
    {
      if user.None? {
        return Failure(UserNull);
      }
      var u := user.value;
      if IsNullOrWhiteSpace(u.password) {
        return Failure(PasswordRequired);
      }
      if IndexByEmail(users, u.email) >= 0 {
        return Failure(EmailExists);
      }
      var hash := HashPassword(sha, u.password.value);
      u := u.(password := Some(hash), registeredAt := now);
      if u.role.None? {
        u := u.(role := Some(DefaultRole));
      }
      u := u.(id := nextId);
      users := users + [u];
      nextId := nextId + 1;
      r := Success(u);
      RegisterOutcome(old(Table()), sha, user, now);
    }

    method AuthenticateUser(email: NString, password: NString) returns (user: Option<UserModel>)
      ensures user == Authenticate(Table(), sha, email, password)
    {
      if IsNullOrWhiteSpace(email) || IsNullOrWhiteSpace(password) {
        return None;
      }
      user := GetUserByEmail(email);
      if user.None? {
        return None;
      }
      if !VerifyPassword(sha, password, user.value.password) {
        return None;
      }
    }
  }
}
