/** Authentication in `backend/auth.php`: member login and registration,
    admin login, and the check of the bearer tokens they hand out.

    A token is `user_<id>_<time>` or `admin_<id>_<time>`, with the id and the
    login instant (`time()`, `env.now` here) in decimal.  Verifying a token
    splits it on `_` and looks up the id in the second piece.
    `password_verify` and `password_hash` are the parameters `verify` and
    `hash`; `filter_var(..., FILTER_VALIDATE_EMAIL)` is `isEmail`.
 */
module Auth {
  import opened Basics
  import opened Text
  import opened Tables
  import opened Config

  // Messages the handlers return, word for word.
  const BlockedMessage: string := "Your account has been blocked. Please contact administrator."
  const ShortPassword: string := "Password must be at least 6 characters long"
  const ContactTaken: string := "User with this email or student ID already exists"

  // ----------------------------------------------------------------- tokens

  function UserToken(id: nat, time: int): string {
    "user_" + NatToString(id) + "_" + IntToString(time)
  }

  function AdminToken(id: nat, time: int): string {
    "admin_" + NatToString(id) + "_" + IntToString(time)
  }

  /** The id piece of a token names `id`: it is a run of decimal digits
      denoting that number (leading zeros allowed). */
  predicate NamesId(piece: string, id: int) {
    IsDigits(piece) && DigitsValue(piece) == id
  }

  /** `SELECT ... FROM users WHERE id = ? AND status = 'active'`. */
  function FindActiveUserById(users: seq<User>, piece: string): (r: Option<User>)
    ensures r.Some? ==> r.value in users && r.value.status == Active && NamesId(piece, r.value.id)
    ensures r.None? <==> forall i :: 0 <= i < |users| ==> !(users[i].status == Active && NamesId(piece, users[i].id))
  {
    if users == [] then None
    else if users[0].status == Active && NamesId(piece, users[0].id) then Some(users[0])
    else
      assert forall i :: 1 <= i < |users| ==> users[i] == users[1..][i - 1];
      FindActiveUserById(users[1..], piece)
  }

  /** `SELECT ... FROM admins WHERE id = ?`. */
  function FindAdminById(admins: seq<Admin>, piece: string): (r: Option<Admin>)
    ensures r.Some? ==> r.value in admins && NamesId(piece, r.value.id)
    ensures r.None? <==> forall i :: 0 <= i < |admins| ==> !NamesId(piece, admins[i].id)
  {
    if admins == [] then None
    else if NamesId(piece, admins[0].id) then Some(admins[0])
    else
      assert forall i :: 1 <= i < |admins| ==> admins[i] == admins[1..][i - 1];
      FindAdminById(admins[1..], piece)
  }

  datatype Session = UserSession(user: User) | AdminSession(admin: Admin)

  /** The `user_` token shape: at least three `_`-separated pieces. */
  predicate UserShaped(token: string) {
    StartsWith(token, "user_") && |Split(token, '_')| >= 3
  }

  predicate AdminShaped(token: string) {
    StartsWith(token, "admin_") && |Split(token, '_')| >= 3
  }

  /** The member a `user_` token designates, if any. */
  function UserOf(st: State, token: string): (r: Option<User>)
    ensures r.Some? ==> UserShaped(token) && r.value in st.users && r.value.status == Active
    ensures r.Some? ==> NamesId(Split(token, '_')[1], r.value.id)
  {
    if UserShaped(token) then FindActiveUserById(st.users, Split(token, '_')[1]) else None
  }

  /** The admin an `admin_` token designates, if any. */
  function AdminOf(st: State, token: string): (r: Option<Admin>)
    ensures r.Some? ==> AdminShaped(token) && r.value in st.admins
    ensures r.Some? ==> NamesId(Split(token, '_')[1], r.value.id)
  {
    if AdminShaped(token) then FindAdminById(st.admins, Split(token, '_')[1]) else None
  }

  /** `verifyUserToken`: an `empty()` token is refused outright; a
      `user_` token with at least three pieces whose second piece names an
      active member gives that member; an `admin_` token likewise gives an
      admin; everything else is invalid. */
  function VerifyToken(st: State, token: string): (r: Result<Session>)
    ensures PhpEmpty(token) ==> r == Err(Http(401, "Token required"))
    ensures r.Ok? && r.value.UserSession? <==> !PhpEmpty(token) && UserOf(st, token).Some?
    ensures r.Ok? && r.value.AdminSession? <==> !PhpEmpty(token) && UserOf(st, token).None? && AdminOf(st, token).Some?
    ensures r.Ok? && r.value.UserSession? ==> r.value.user == UserOf(st, token).value
    ensures r.Ok? && r.value.AdminSession? ==> r.value.admin == AdminOf(st, token).value
    ensures !PhpEmpty(token) && r.Err? ==> r.error == Http(401, "Invalid or expired token")
  {
    if PhpEmpty(token) then Err(Http(401, "Token required"))
    else
      match UserOf(st, token)
      case Some(u) => Ok(UserSession(u))
      case None =>
        match AdminOf(st, token)
        case Some(a) => Ok(AdminSession(a))
        case None => Err(Http(401, "Invalid or expired token"))
  }

  lemma NoUnderscoreInNumber(n: nat, t: int)
    ensures '_' !in NatToString(n)
    ensures '_' !in IntToString(t)
  {
    assert !IsDigit('_') && !IsDigit('-');
    if t < 0 {
      assert IntToString(t) == "-" + NatToString(-t);
    }
  }

  /** Three pieces free of `_`, glued with `_`, split back into themselves. */
  lemma SplitThree(a: string, b: string, c: string)
    requires '_' !in a && '_' !in b && '_' !in c
    ensures Split(a + "_" + b + "_" + c, '_') == [a, b, c]
  {
    var parts := [a, b, c];
    assert Join(parts[1..], "_") == b + "_" + c by {
      assert parts[1..][1..] == [c];
    }
    assert Join(parts, "_") == a + "_" + b + "_" + c;
    SplitJoin(parts, '_');
  }

  /** The pieces of a minted token: the prefix word, the id and the time. */
  lemma TokenPieces(word: string, n: string, t: string)
    requires '_' !in word && '_' !in n && '_' !in t
    ensures var token := word + "_" + n + "_" + t;
      && StartsWith(token, word + "_")
      && Split(token, '_') == [word, n, t]
      && |token| > |word|
  {
    var token := word + "_" + n + "_" + t;
    SplitThree(word, n, t);
    assert token[..|word| + 1] == word + "_";
  }

  lemma UserTokenSpelled(id: nat, time: int)
    ensures UserToken(id, time) == "user" + "_" + NatToString(id) + "_" + IntToString(time)
  {
  }

  lemma UserTokenParts(id: nat, time: int)
    ensures Split(UserToken(id, time), '_') == ["user", NatToString(id), IntToString(time)]
    ensures StartsWith(UserToken(id, time), "user_")
  {
    NoUnderscoreInNumber(id, time);
    TokenPieces("user", NatToString(id), IntToString(time));
    UserTokenSpelled(id, time);
  }

  /** A minted member token has the `user_` shape and designates whoever
      holds the id. */
  lemma UserTokenShape(st: State, id: nat, time: int)
    ensures var token := UserToken(id, time);
      && !PhpEmpty(token) && UserShaped(token) && !AdminShaped(token)
      && UserOf(st, token) == FindActiveUserById(st.users, NatToString(id))
  {
    UserTokenParts(id, time);
    UserPrefixed(st, UserToken(id, time), NatToString(id), IntToString(time));
  }

  /** Any text starting `user_` that splits into three pieces. */
  lemma UserPrefixed(st: State, token: string, n: string, t: string)
    requires StartsWith(token, "user_") && Split(token, '_') == ["user", n, t]
    ensures !PhpEmpty(token) && UserShaped(token) && !AdminShaped(token)
    ensures UserOf(st, token) == FindActiveUserById(st.users, n)
  {
    assert token[0] == 'u' by { assert token[..5][0] == 'u'; }
    assert !StartsWith(token, "admin_") by {
      assert |token| < 6 || token[..6][0] == 'u';
    }
  }

  lemma AdminTokenSpelled(id: nat, time: int)
    ensures AdminToken(id, time) == "admin" + "_" + NatToString(id) + "_" + IntToString(time)
  {
  }

  lemma AdminTokenParts(id: nat, time: int)
    ensures Split(AdminToken(id, time), '_') == ["admin", NatToString(id), IntToString(time)]
    ensures StartsWith(AdminToken(id, time), "admin_")
  {
    NoUnderscoreInNumber(id, time);
    TokenPieces("admin", NatToString(id), IntToString(time));
    AdminTokenSpelled(id, time);
  }

  lemma AdminTokenShape(st: State, id: nat, time: int)
    ensures var token := AdminToken(id, time);
      && !PhpEmpty(token) && AdminShaped(token) && !UserShaped(token)
      && AdminOf(st, token) == FindAdminById(st.admins, NatToString(id))
  {
    AdminTokenParts(id, time);
    AdminPrefixed(st, AdminToken(id, time), NatToString(id), IntToString(time));
  }

  /** Any text starting `admin_` that splits into three pieces. */
  lemma AdminPrefixed(st: State, token: string, n: string, t: string)
    requires StartsWith(token, "admin_") && Split(token, '_') == ["admin", n, t]
    ensures !PhpEmpty(token) && AdminShaped(token) && !UserShaped(token)
    ensures AdminOf(st, token) == FindAdminById(st.admins, n)
  {
    assert token[0] == 'a' by { assert token[..6][0] == 'a'; }
    assert !StartsWith(token, "user_") by {
      assert |token| < 5 || token[..5][0] == 'a';
    }
  }

  /** With unique ids, the lookup by a member's own id finds that member. */
  lemma FindOwnUser(users: seq<User>, u: User)
    requires UniqueUserIds(users)
    requires u in users && u.status == Active
    ensures FindActiveUserById(users, NatToString(u.id)) == Some(u)
  {
    var f := FindActiveUserById(users, NatToString(u.id));
    var i :| 0 <= i < |users| && users[i] == u;
    assert NamesId(NatToString(u.id), users[i].id);
    var j :| 0 <= j < |users| && users[j] == f.value;
    assert users[j].id == u.id;
  }

  lemma FindOwnAdmin(admins: seq<Admin>, a: Admin)
    requires UniqueAdminIds(admins)
    requires a in admins
    ensures FindAdminById(admins, NatToString(a.id)) == Some(a)
  {
    var f := FindAdminById(admins, NatToString(a.id));
    var i :| 0 <= i < |admins| && admins[i] == a;
    assert NamesId(NatToString(a.id), admins[i].id);
    var j :| 0 <= j < |admins| && admins[j] == f.value;
    assert admins[j].id == a.id;
  }

  /** Round trip: the token minted for an active member verifies to that
      member, whatever the login time (ids are unique). */
  lemma UserTokenRoundTrip(st: State, u: User, time: int)
    requires UniqueUserIds(st.users)
    requires u in st.users && u.status == Active
    ensures VerifyToken(st, UserToken(u.id, time)) == Ok(UserSession(u))
  {
    UserTokenShape(st, u.id, time);
    FindOwnUser(st.users, u);
  }

  /** Conversely, a minted member token for an id no active member holds
      (a blocked member's, say) is refused. */
  lemma UserTokenOfInactive(st: State, id: nat, time: int)
    requires forall i :: 0 <= i < |st.users| && st.users[i].id == id ==> st.users[i].status != Active
    ensures VerifyToken(st, UserToken(id, time)) == Err(Http(401, "Invalid or expired token"))
  {
    UserTokenShape(st, id, time);
    assert FindActiveUserById(st.users, NatToString(id)).None?;
  }

  /** Round trip for admins. */
  lemma AdminTokenRoundTrip(st: State, a: Admin, time: int)
    requires UniqueAdminIds(st.admins)
    requires a in st.admins
    ensures VerifyToken(st, AdminToken(a.id, time)) == Ok(AdminSession(a))
  {
    AdminTokenShape(st, a.id, time);
    FindOwnAdmin(st.admins, a);
  }

  // ------------------------------------------------------------------ login

  /** `SELECT ... FROM users WHERE email = ? AND status = 'active'`, first row. */
  function FindActiveByEmail(users: seq<User>, email: string): (r: Option<User>)
    ensures r.Some? ==> r.value in users && r.value.email == email && r.value.status == Active
    ensures r.None? <==> forall i :: 0 <= i < |users| ==> !(users[i].email == email && users[i].status == Active)
    ensures r.Some? ==>
      exists i :: 0 <= i < |users| && users[i] == r.value &&
        forall j :: 0 <= j < i ==> !(users[j].email == email && users[j].status == Active)
  {
    if users == [] then None
    else if users[0].email == email && users[0].status == Active then Some(users[0])
    else
      var r := FindActiveByEmail(users[1..], email);
      assert forall i :: 1 <= i < |users| ==> users[i] == users[1..][i - 1];
      if r.Some? then
        var i :| 0 <= i < |users[1..]| && users[1..][i] == r.value &&
          forall j :: 0 <= j < i ==> !(users[1..][j].email == email && users[1..][j].status == Active);
        assert users[i + 1] == r.value;
        r
      else r
  }

  datatype LoginReply = LoginReply(user: User, token: string)

  /** `handleUserLogin`: only active members are looked up, so a blocked
      member's correct password still gets 401 and the 403 for blocked
      accounts is never produced. */
  function Login(st: State, email: string, password: string, env: Env, isEmail: string -> bool, verify: (string, string) -> bool)
    : (r: Result<(State, LoginReply)>)
    ensures !isEmail(email) ==> r == Err(BadRequest("Invalid email format"))
    ensures r.Ok? <==>
      isEmail(email) && FindActiveByEmail(st.users, email).Some? &&
      verify(password, FindActiveByEmail(st.users, email).value.passwordHash)
    ensures isEmail(email) && r.Err? ==> r.error == Http(401, "Invalid email or password")
    ensures r.Ok? ==>
      var u := r.value.1.user;
      && u == FindActiveByEmail(st.users, email).value
      && r.value.1.token == UserToken(u.id, env.now)
      && r.value.0.(activity := st.activity) == st
  {
    if !isEmail(email) then Err(BadRequest("Invalid email format"))
    else
      match FindActiveByEmail(st.users, email)
      case None => Err(Http(401, "Invalid email or password"))
      case Some(u) =>
        if !verify(password, u.passwordHash) then Err(Http(401, "Invalid email or password"))
        else if u.status == Blocked then Err(Http(403, BlockedMessage))
        else
          Ok((LogActivity(st, env.logOk, Activity(Some(u.id), "user_login", "Successful login")), LoginReply(u, UserToken(u.id, env.now))))
  }

  /** A member whose every account with this email is blocked (or inactive)
      is told the credentials are wrong, even with the right password. */
  lemma BlockedMemberGets401(st: State, email: string, password: string, env: Env, isEmail: string -> bool, verify: (string, string) -> bool)
    requires isEmail(email)
    requires forall i :: 0 <= i < |st.users| && st.users[i].email == email ==> st.users[i].status != Active
    ensures Login(st, email, password, env, isEmail, verify) == Err(Http(401, "Invalid email or password"))
  {
  }

  /** The token a successful login returns verifies to the member who
      logged in. */
  lemma LoginTokenVerifies(st: State, email: string, password: string, env: Env, isEmail: string -> bool, verify: (string, string) -> bool)
    requires UniqueUserIds(st.users)
    requires Login(st, email, password, env, isEmail, verify).Ok?
    ensures var r := Login(st, email, password, env, isEmail, verify).value;
      VerifyToken(r.0, r.1.token) == Ok(UserSession(r.1.user))
  {
    var r := Login(st, email, password, env, isEmail, verify).value;
    UserTokenRoundTrip(r.0, r.1.user, env.now);
  }

  // ------------------------------------------------------------ admin login

  /** `SELECT ... FROM admins WHERE username = ?`, first row. */
  function FindAdminByUsername(admins: seq<Admin>, username: string): (r: Option<Admin>)
    ensures r.Some? ==> r.value in admins && r.value.username == username
    ensures r.None? <==> forall i :: 0 <= i < |admins| ==> admins[i].username != username
  {
    if admins == [] then None
    else if admins[0].username == username then Some(admins[0])
    else
      assert forall i :: 1 <= i < |admins| ==> admins[i] == admins[1..][i - 1];
      FindAdminByUsername(admins[1..], username)
  }

  datatype AdminLoginReply = AdminLoginReply(admin: Admin, token: string)

  /** `handleAdminLogin`: an unknown username and a wrong password are
      answered alike. */
  function AdminLogin(st: State, username: string, password: string, env: Env, verify: (string, string) -> bool)
    : (r: Result<(State, AdminLoginReply)>)
    ensures r.Ok? <==>
      FindAdminByUsername(st.admins, username).Some? && verify(password, FindAdminByUsername(st.admins, username).value.passwordHash)
    ensures r.Err? ==> r.error == Http(401, "Invalid username or password")
    ensures r.Ok? ==>
      && r.value.1.admin == FindAdminByUsername(st.admins, username).value
      && r.value.1.token == AdminToken(r.value.1.admin.id, env.now)
      && r.value.0.(activity := st.activity) == st
  {
    match FindAdminByUsername(st.admins, username)
    case None => Err(Http(401, "Invalid username or password"))
    case Some(a) =>
      if !verify(password, a.passwordHash) then Err(Http(401, "Invalid username or password"))
      else Ok((LogActivity(st, env.logOk, Activity(Some(a.id), "admin_login", "Admin logged in")), AdminLoginReply(a, AdminToken(a.id, env.now))))
  }

  /** The admin token from a successful admin login verifies to that admin. */
  lemma AdminLoginTokenVerifies(st: State, username: string, password: string, env: Env, verify: (string, string) -> bool)
    requires UniqueAdminIds(st.admins)
    requires AdminLogin(st, username, password, env, verify).Ok?
    ensures var r := AdminLogin(st, username, password, env, verify).value;
      VerifyToken(r.0, r.1.token) == Ok(AdminSession(r.1.admin))
  {
    var r := AdminLogin(st, username, password, env, verify).value;
    AdminTokenRoundTrip(r.0, r.1.admin, env.now);
  }

  // ---------------------------------------------------------- registration

  /** The registration fields after sanitizing (the password is kept raw);
      `phone` is `None` when it was not sent. */
  datatype RegisterInput = RegisterInput(
    studentId: string, name: string, email: string, password: string,
    course: string, year: string, phone: Option<string>)

  datatype RegisterReply = RegisterReply(status: int, userId: nat)

  /** `handleUserRegister`: a valid email, a password of at least 6 bytes,
      and an email and student id nobody uses yet; the new member is active
      and stores the hash of the password. */
  function Register(st: State, input: RegisterInput, env: Env, isEmail: string -> bool, hash: string -> string)
    : (r: Result<(State, RegisterReply)>)
    ensures !isEmail(input.email) ==> r == Err(BadRequest("Invalid email format"))
    ensures isEmail(input.email) && Utf8Length(input.password) < 6 ==>
      r == Err(BadRequest(ShortPassword))
    ensures isEmail(input.email) && Utf8Length(input.password) >= 6 && UserExists(st.users, input.email, input.studentId) ==>
      r == Err(BadRequest(ContactTaken))
    ensures r.Ok? <==>
      isEmail(input.email) && Utf8Length(input.password) >= 6 && !UserExists(st.users, input.email, input.studentId)
    ensures r.Ok? ==>
      && r.value.1.status == 201
      && r.value.0.users == st.users + [User(r.value.1.userId, input.studentId, input.name, input.email,
                                             hash(input.password), input.phone, input.course, input.year, Active)]
      && (forall i :: 0 <= i < |st.users| ==> st.users[i].id != r.value.1.userId)
      && r.value.0.(users := st.users, activity := st.activity) == st
  {
    if !isEmail(input.email) then Err(BadRequest("Invalid email format"))
    else if Utf8Length(input.password) < 6 then Err(BadRequest(ShortPassword))
    else if UserExists(st.users, input.email, input.studentId) then
      Err(BadRequest(ContactTaken))
    else
      var id := NextId(st.users, (u: User) => u.id);
      var user := User(id, input.studentId, input.name, input.email, hash(input.password), input.phone, input.course, input.year, Active);
      var st1 := st.(users := st.users + [user]);
      Ok((LogActivity(st1, env.logOk, Activity(Some(id), "user_registration", "New user registered: " + input.name)), RegisterReply(201, id)))
  }

  /** Registration keeps emails and student ids unique. */
  lemma RegisterKeepsContactsUnique(st: State, input: RegisterInput, env: Env, isEmail: string -> bool, hash: string -> string)
    requires UniqueContacts(st.users)
    requires Register(st, input, env, isEmail, hash).Ok?
    ensures UniqueContacts(Register(st, input, env, isEmail, hash).value.0.users)
  {
    var r := Register(st, input, env, isEmail, hash).value;
    AppendKeepsContactsUnique(st.users, r.0.users[|st.users|]);
    assert r.0.users == st.users + [r.0.users[|st.users|]];
  }

  /** A freshly registered member can log in with the same email and
      password (given that `verify` accepts a password against its own
      hash), and is the member the login returns. */
  lemma RegisteredMemberCanLogIn(st: State, input: RegisterInput, env: Env, env': Env,
                                 isEmail: string -> bool, hash: string -> string, verify: (string, string) -> bool)
    requires forall p :: verify(p, hash(p))
    requires Register(st, input, env, isEmail, hash).Ok?
    ensures var st' := Register(st, input, env, isEmail, hash).value.0;
      var id := Register(st, input, env, isEmail, hash).value.1.userId;
      && Login(st', input.email, input.password, env', isEmail, verify).Ok?
      && Login(st', input.email, input.password, env', isEmail, verify).value.1.user.id == id
  {
    var st' := Register(st, input, env, isEmail, hash).value.0;
    var us := st'.users;
    var n := |st.users|;
    assert us[n].email == input.email && us[n].status == Active;
    forall i | 0 <= i < n ensures !(us[i].email == input.email && us[i].status == Active) {
      assert us[i] == st.users[i];
    }
    var found := FindActiveByEmail(us, input.email);
    var i :| 0 <= i < |us| && us[i] == found.value &&
      forall j :: 0 <= j < i ==> !(us[j].email == input.email && us[j].status == Active);
    assert i == n;
  }

  // ------------------------------------------------------------ request bodies

  /* The three handlers first call `validateInput` on the decoded request
     body; only a body that passes reaches the handlers above.  Passwords
     are used as sent; every other field is sanitized (`stripTags` stands for
     PHP's `strip_tags`). */

  const LoginFields: seq<string> := ["email", "password"]
  const AdminLoginFields: seq<string> := ["username", "password"]
  const RegisterFields: seq<string> := ["student_id", "name", "email", "password", "course", "year"]

  /** `handleUserLogin` on the request body. */
  function LoginRequest(st: State, data: map<string, Value>, env: Env, stripTags: string -> string,
                        isEmail: string -> bool, verify: (string, string) -> bool)
    : (r: Result<(State, LoginReply)>)
    ensures ValidateInput(data, LoginFields).Fail? ==> r == Err(ValidateInput(data, LoginFields).error)
    ensures ValidateInput(data, LoginFields).Pass? ==>
      r == Login(st, TextField(data, "email", "", stripTags), RawOf(Field(data, "password", Null)), env, isEmail, verify)
    ensures r.Ok? ==> forall k :: 0 <= k < |LoginFields| ==> !Blank(data, LoginFields[k])
  {
    match ValidateInput(data, LoginFields)
    case Fail(e) => Err(e)
    case Pass => Login(st, TextField(data, "email", "", stripTags), RawOf(Field(data, "password", Null)), env, isEmail, verify)
  }

  /** An empty email is reported as missing before its format is checked. */
  lemma EmptyEmailIs422(st: State, data: map<string, Value>, env: Env, stripTags: string -> string,
                        isEmail: string -> bool, verify: (string, string) -> bool)
    requires "email" in data && data["email"] == Str("")
    requires !Blank(data, "password") && !HoldsArray(data, "password")
    ensures LoginRequest(st, data, env, stripTags, isEmail, verify) == Err(Http(422, MissingMessage(["email"])))
  {
    EmptyEmailFailsValidation(data);
  }

  lemma EmptyEmailFailsValidation(data: map<string, Value>)
    requires "email" in data && data["email"] == Str("")
    requires !Blank(data, "password") && !HoldsArray(data, "password")
    ensures ValidateInput(data, LoginFields) == Fail(Http(422, MissingMessage(["email"])))
  {
    assert LoginFields[0] == "email" && LoginFields[1] == "password";
    EmptyFirstOfTwoReported(data, LoginFields);
  }

  /** `handleAdminLogin` on the request body. */
  function AdminLoginRequest(st: State, data: map<string, Value>, env: Env, stripTags: string -> string,
                             verify: (string, string) -> bool)
    : (r: Result<(State, AdminLoginReply)>)
    ensures ValidateInput(data, AdminLoginFields).Fail? ==> r == Err(ValidateInput(data, AdminLoginFields).error)
    ensures ValidateInput(data, AdminLoginFields).Pass? ==>
      r == AdminLogin(st, TextField(data, "username", "", stripTags), RawOf(Field(data, "password", Null)), env, verify)
    ensures r.Ok? ==> forall k :: 0 <= k < |AdminLoginFields| ==> !Blank(data, AdminLoginFields[k])
  {
    match ValidateInput(data, AdminLoginFields)
    case Fail(e) => Err(e)
    case Pass => AdminLogin(st, TextField(data, "username", "", stripTags), RawOf(Field(data, "password", Null)), env, verify)
  }

  /** The registration fields read from the body; `phone` only when set. */
  function RegisterInputOf(data: map<string, Value>, stripTags: string -> string): RegisterInput {
    RegisterInput(TextField(data, "student_id", "", stripTags), TextField(data, "name", "", stripTags),
                  TextField(data, "email", "", stripTags), RawOf(Field(data, "password", Null)),
                  TextField(data, "course", "", stripTags), TextField(data, "year", "", stripTags),
                  if "phone" in data && !data["phone"].Null? then Some(TextOf(data["phone"], stripTags)) else None)
  }

  /** `handleUserRegister` on the request body. */
  function RegisterRequest(st: State, data: map<string, Value>, env: Env, stripTags: string -> string,
                           isEmail: string -> bool, hash: string -> string)
    : (r: Result<(State, RegisterReply)>)
    ensures ValidateInput(data, RegisterFields).Fail? ==> r == Err(ValidateInput(data, RegisterFields).error)
    ensures ValidateInput(data, RegisterFields).Pass? ==>
      r == Register(st, RegisterInputOf(data, stripTags), env, isEmail, hash)
    ensures r.Ok? ==> forall k :: 0 <= k < |RegisterFields| ==> !Blank(data, RegisterFields[k])
  {
    match ValidateInput(data, RegisterFields)
    case Fail(e) => Err(e)
    case Pass => Register(st, RegisterInputOf(data, stripTags), env, isEmail, hash)
  }

  /** A password of spaces only (six of them pass the length check) is
      reported as missing instead, when every other field is supplied. */
  lemma BlankPasswordIs422(st: State, data: map<string, Value>, env: Env, stripTags: string -> string,
                           isEmail: string -> bool, hash: string -> string)
    requires "password" in data && data["password"].Str?
    requires forall k :: 0 <= k < |data["password"].s| ==> PhpSpace(data["password"].s[k])
    requires forall j :: 0 <= j < |RegisterFields| && j != 3 ==>
      !Blank(data, RegisterFields[j]) && !HoldsArray(data, RegisterFields[j])
    ensures RegisterRequest(st, data, env, stripTags, isEmail, hash) == Err(Http(422, MissingMessage(["password"])))
  {
    WhitespaceIsBlank(data, "password");
    assert RegisterFields[3] == "password";
    OnlyBlankReported(data, RegisterFields, 3);
    assert ValidateInput(data, RegisterFields).Fail?;
  }

  /** Whoever registers has a name and a password with some character
      other than whitespace. */
  lemma RegisteredFieldsHaveText(st: State, data: map<string, Value>, env: Env, stripTags: string -> string,
                                 isEmail: string -> bool, hash: string -> string)
    requires "password" in data && data["password"].Str?
    requires "name" in data && data["name"].Str?
    requires RegisterRequest(st, data, env, stripTags, isEmail, hash).Ok?
    ensures exists k :: 0 <= k < |data["password"].s| && !PhpSpace(data["password"].s[k])
    ensures exists k :: 0 <= k < |data["name"].s| && !PhpSpace(data["name"].s[k])
  {
    assert !Blank(data, RegisterFields[1]) && !Blank(data, RegisterFields[3]);
    assert RegisterFields[1] == "name" && RegisterFields[3] == "password";
    SuppliedTextIsNotWhitespace(data, "password");
    SuppliedTextIsNotWhitespace(data, "name");
  }
}
