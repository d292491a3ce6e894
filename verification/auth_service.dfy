/** Account operations: signup, login, and the password-reset pair. Password
    hashing and comparison, token signing and reset-token generation are
    parameters. A request field that is absent is the empty string, which
    the checks treat like the source's falsy value. */
module AuthService {
  import opened Wrappers
  import Js
  import Store
  import ProgressRules

  const FieldsMissing := AppError(400, "Email, password, and username are required")
  const PasswordTooShort := AppError(400, "Password must be at least 8 characters long")
  const InvalidEmail := AppError(400, "Invalid email format")
  const InvalidUsername := AppError(400, "Username must be between 3 and 20 characters")
  const EmailTaken := AppError(409, "Email already registered")
  const UsernameTaken := AppError(409, "Username already taken")
  const LoginFieldsMissing := AppError(400, "Email and password are required")
  const InvalidCredentials := AppError(401, "Invalid email or password")
  const EmailMissing := AppError(400, "Email is required")
  const UserNotFound := AppError(404, "User not found")
  const ResetFieldsMissing := AppError(400, "Token and new password are required")
  const TokenUnknown := AppError(400, "Invalid or expired reset token")
  const TokenUsed := AppError(400, "This reset token has already been used")
  const TokenExpired := AppError(400, "Reset token has expired")

  const MinPasswordLength: int := 8
  const MinUsernameLength: int := 3
  const MaxUsernameLength: int := 20
  /** A reset token lives one hour. */
  const ResetTokenLifetimeMs: int := 3_600_000
  const LearnerRole := "learner"

  // ---------------------------------------------------------------------
  // Email format

  /** No whitespace and no '@': the class `[^\s@]`, over a whole string. */
  predicate PlainChars(t: string) {
    forall k :: 0 <= k < |t| ==> !Js.IsWhitespace(t[k]) && t[k] != '@'
  }

  /** `s` splits as local part, '@' at `i`, domain head, '.' at `j`, domain
      tail, each part one or more `[^\s@]` characters. */
  predicate SplitsAt(s: string, i: int, j: int) {
    && 0 < i && i + 1 < j && j + 1 < |s|
    && s[i] == '@' && s[j] == '.'
    && PlainChars(s[..i]) && PlainChars(s[i + 1..j]) && PlainChars(s[j + 1..])
  }

  /** The language of `^[^\s@]+@[^\s@]+\.[^\s@]+$`. */
  predicate EmailPattern(s: string) {
    exists i, j :: 0 <= i < |s| && 0 <= j < |s| && SplitsAt(s, i, j)
  }

  /** Every character of a matching string is outside `\s`, and its only
      '@' is the separator. */
  lemma SplitShape(s: string, i: int, j: int, m: int)
    requires SplitsAt(s, i, j)
    requires 0 <= m < |s|
    ensures !Js.IsWhitespace(s[m])
    ensures s[m] == '@' <==> m == i
  {
    if m < i {
      assert s[..i][m] == s[m];
    } else if i < m < j {
      assert s[i + 1..j][m - i - 1] == s[m];
    } else if j < m {
      assert s[j + 1..][m - j - 1] == s[m];
    }
  }

  lemma SpaceRejected(s: string, k: int)
    requires 0 <= k < |s| && Js.IsWhitespace(s[k])
    ensures !EmailPattern(s)
  {
    forall i, j | 0 <= i < |s| && 0 <= j < |s|
      ensures !SplitsAt(s, i, j)
    {
      if SplitsAt(s, i, j) {
        SplitShape(s, i, j, k);
      }
    }
  }

  lemma TwoAtsRejected(s: string, a: int, b: int)
    requires 0 <= a < b < |s| && s[a] == '@' && s[b] == '@'
    ensures !EmailPattern(s)
  {
    forall i, j | 0 <= i < |s| && 0 <= j < |s|
      ensures !SplitsAt(s, i, j)
    {
      if SplitsAt(s, i, j) {
        SplitShape(s, i, j, a);
        SplitShape(s, i, j, b);
      }
    }
  }

  /** With '@' only at `at`, a match needs a '.' strictly inside the domain. */
  lemma NoDotRejected(s: string, at: int)
    requires 0 <= at < |s| && s[at] == '@'
    requires forall m :: 0 <= m < |s| && m != at ==> s[m] != '@'
    requires forall m :: at + 1 < m < |s| - 1 ==> s[m] != '.'
    ensures !EmailPattern(s)
  {
    forall i, j | 0 <= i < |s| && 0 <= j < |s|
      ensures !SplitsAt(s, i, j)
    {
      if SplitsAt(s, i, j) {
        SplitShape(s, i, j, at);
      }
    }
  }

  lemma NoAtRejected(s: string)
    requires forall m :: 0 <= m < |s| ==> s[m] != '@'
    ensures !EmailPattern(s)
  {
  }

  lemma LeadingAtRejected(s: string)
    requires |s| > 0 && s[0] == '@'
    requires forall m :: 0 < m < |s| ==> s[m] != '@'
    ensures !EmailPattern(s)
  {
    forall i, j | 0 <= i < |s| && 0 <= j < |s|
      ensures !SplitsAt(s, i, j)
    {
      if SplitsAt(s, i, j) {
        SplitShape(s, i, j, 0);
      }
    }
  }

  lemma PatternFromParts(s: string, at: int, j: int)
    requires forall m :: 0 <= m < |s| ==> !Js.IsWhitespace(s[m])
    requires 0 < at && at + 1 < j && j + 1 < |s|
    requires s[at] == '@' && s[j] == '.'
    requires forall m :: 0 <= m < |s| && m != at ==> s[m] != '@'
    ensures EmailPattern(s)
  {
    assert PlainChars(s[..at]);
    assert PlainChars(s[at + 1..j]);
    assert PlainChars(s[j + 1..]);
    assert SplitsAt(s, at, j);
  }

  /** `isValidEmail`: one pass finds the single '@' and rejects whitespace,
      a second looks for a '.' with characters on both sides inside the
      domain. It accepts exactly the language of the source's expression. */
  method IsValidEmail(s: string) returns (r: bool)
    ensures r <==> EmailPattern(s)
  {
    var at := -1;
    var k := 0;
    while k < |s|
      invariant 0 <= k <= |s|
      invariant -1 <= at < k
      invariant at >= 0 ==> s[at] == '@'
      invariant forall m :: 0 <= m < k && m != at ==> s[m] != '@'
      invariant forall m :: 0 <= m < k ==> !Js.IsWhitespace(s[m])
    {
      if Js.IsWhitespace(s[k]) {
        SpaceRejected(s, k);
        return false;
      }
      if s[k] == '@' {
        if at >= 0 {
          TwoAtsRejected(s, at, k);
          return false;
        }
        at := k;
      }
      k := k + 1;
    }
    if at < 0 {
      NoAtRejected(s);
      return false;
    }
    if at == 0 {
      LeadingAtRejected(s);
      return false;
    }
    var j := at + 2;
    while j < |s| - 1
      invariant at + 2 <= j
      invariant forall m :: at + 1 < m < j && m < |s| - 1 ==> s[m] != '.'
    {
      if s[j] == '.' {
        PatternFromParts(s, at, j);
        return true;
      }
      j := j + 1;
    }
    NoDotRejected(s, at);
    return false;
  }

  /** Examples from the signup cases: plain addresses pass; one without a
      domain dot, or with a space, does not. */
  lemma EmailExamples()
    ensures EmailPattern("test@example.com")
    ensures !EmailPattern("invalid-email")
    ensures !EmailPattern("a b@c.de")
  {
    PatternFromParts("test@example.com", 4, 12);
    SpaceRejected("a b@c.de", 1);
    assert forall m :: 0 <= m < |"invalid-email"| ==> "invalid-email"[m] != '@';
    NoAtRejected("invalid-email");
  }

  // ---------------------------------------------------------------------
  // Signup and login

  /** What an authenticated response carries besides the token. */
  datatype UserView = UserView(id: string, email: string, username: string, role: string)

  datatype AuthResponse = AuthResponse(accessToken: string, user: UserView)

  function ViewOf(u: Store.User): UserView {
    UserView(u.id, u.email, u.username, u.role)
  }

  /** The token issued for a user at `now`: signed over id, email and role,
      and over the issue time, from which the signer stamps issue and expiry. */
  function Issue(u: Store.User, sign: (Store.Claims, int) -> string, now: int): AuthResponse {
    AuthResponse(sign(Store.Claims(u.id, u.email, u.role), now), ViewOf(u))
  }

  /** The first stored user matching the predicate (the store's `findFirst`). */
  function FirstUser(users: seq<Store.User>, p: Store.User -> bool): (r: Option<Store.User>)
    ensures r.Some? ==> r.value in users && p(r.value)
    ensures r.None? <==> forall k :: 0 <= k < |users| ==> !p(users[k])
    ensures r.Some? ==> exists k :: 0 <= k < |users| && users[k] == r.value
                                    && forall m :: 0 <= m < k ==> !p(users[m])
  {
    if users == [] then None
    else if p(users[0]) then Some(users[0])
    else
      var r := FirstUser(users[1..], p);
      assert r.Some? ==> exists k :: 0 <= k < |users[1..]| && users[1..][k] == r.value
                                     && forall m :: 0 <= m < k ==> !p(users[1..][m]);
      assert r.Some? ==> exists k :: 0 <= k < |users| && users[k] == r.value
                                     && forall m :: 0 <= m < k ==> !p(users[m]) by {
        if r.Some? {
          var k :| 0 <= k < |users[1..]| && users[1..][k] == r.value
                   && forall m :: 0 <= m < k ==> !p(users[1..][m]);
          assert users[k + 1] == r.value;
          assert forall m :: 0 <= m < k + 1 ==> !p(users[m]) by {
            forall m | 0 <= m < k + 1 ensures !p(users[m]) {
              if m > 0 { assert users[m] == users[1..][m - 1]; }
            }
          }
        }
      }
      r
  }

  /** The user stored under an email address, if any. */
  function UserByEmail(users: seq<Store.User>, email: string): Option<Store.User> {
    FirstUser(users, (u: Store.User) => u.email == email)
  }

  /** Stored emails and usernames are lower-case and each is unique. */
  ghost predicate AccountsWellFormed(users: seq<Store.User>) {
    && (forall k :: 0 <= k < |users| ==> users[k].email == Js.ToLower(users[k].email)
                                         && users[k].username == Js.ToLower(users[k].username))
    && (forall a, b :: 0 <= a < b < |users| ==> users[a].email != users[b].email)
    && (forall a, b :: 0 <= a < b < |users| ==> users[a].username != users[b].username)
    && (forall a, b :: 0 <= a < b < |users| ==> users[a].id != users[b].id)
  }

  /** An id no stored user or streak row has yet (the store's generated
      uuid). */
  predicate FreshId(db: Store.Db, id: string) {
    id !in db.streaks && forall k :: 0 <= k < |db.users| ==> db.users[k].id != id
  }

  /** The four field checks signup makes before looking for a conflict;
      lengths are counted in UTF-16 code units, as `length` counts them. */
  predicate SignupFieldsValid(email: string, password: string, username: string) {
    && email != "" && password != "" && username != ""
    && Js.Utf16Length(password) >= MinPasswordLength && EmailPattern(email)
    && MinUsernameLength <= Js.Utf16Length(username) <= MaxUsernameLength
  }

  /** Some stored user already has the lower-cased email or username. */
  predicate AccountTaken(users: seq<Store.User>, email: string, username: string) {
    exists k :: 0 <= k < |users| && (users[k].email == Js.ToLower(email) || users[k].username == Js.ToLower(username))
  }

  /** `signup`. Checks, in order: all three fields present; the password at
      least 8 UTF-16 code units; the email well formed; the username 3 to 20
      code units; then no user with the lower-cased email or username (409),
      the message naming the email when the first such user has it. A new
      learner is stored under a fresh id with lower-cased email and username
      and the hashed password, with a streak row of (0, 0) stamped now. */
  function Signup(db: Store.Db, email: string, password: string, username: string,
                  newId: string, hash: string -> string, sign: (Store.Claims, int) -> string, now: int)
    : (r: Result<(Store.Db, AuthResponse)>)
    requires FreshId(db, newId)
    ensures (email == "" || password == "" || username == "") ==> r == Err(FieldsMissing)
    ensures email != "" && password != "" && username != "" ==>
              var pw, name := Js.Utf16Length(password), Js.Utf16Length(username);
              && (pw < MinPasswordLength ==> r == Err(PasswordTooShort))
              && (pw >= MinPasswordLength && !EmailPattern(email) ==> r == Err(InvalidEmail))
              && ((pw >= MinPasswordLength && EmailPattern(email)
                   && !(MinUsernameLength <= name <= MaxUsernameLength)) ==> r == Err(InvalidUsername))
    ensures (SignupFieldsValid(email, password, username) && AccountTaken(db.users, email, username))
            ==> r.Err? && r.error.statusCode == 409
    ensures r.Ok? <==>
              && SignupFieldsValid(email, password, username)
              && forall k :: 0 <= k < |db.users| ==>
                   db.users[k].email != Js.ToLower(email) && db.users[k].username != Js.ToLower(username)
    ensures r.Err? && r.error.statusCode == 409 ==>
              r.error == (if exists k :: 0 <= k < |db.users| && db.users[k].email == Js.ToLower(email)
                                           && forall m :: 0 <= m < k ==> db.users[m].username != Js.ToLower(username)
                          then EmailTaken else UsernameTaken)
    ensures r.Ok? ==>
              var u := Store.User(newId, Js.ToLower(email), Js.ToLower(username), hash(password), LearnerRole);
              && r.value.0 == db.(users := db.users + [u], streaks := db.streaks[newId := Store.Streak(0, 0, now)])
              && r.value.1 == Issue(u, sign, now)
  {
    if email == "" || password == "" || username == "" then Err(FieldsMissing)
    else if Js.Utf16Length(password) < MinPasswordLength then Err(PasswordTooShort)
    else if !EmailPattern(email) then Err(InvalidEmail)
    else if Js.Utf16Length(username) < MinUsernameLength || Js.Utf16Length(username) > MaxUsernameLength then
      Err(InvalidUsername)
    else
      var lowerEmail := Js.ToLower(email);
      var lowerName := Js.ToLower(username);
      match FirstUser(db.users, (u: Store.User) => u.email == lowerEmail || u.username == lowerName)
      case Some(existing) =>
        ConflictMessage(db.users, lowerEmail, lowerName);
        Err(if existing.email == lowerEmail then EmailTaken else UsernameTaken)
      case None =>
        var u := Store.User(newId, lowerEmail, lowerName, hash(password), LearnerRole);
        var db' := db.(users := db.users + [u], streaks := db.streaks[newId := Store.Streak(0, 0, now)]);
        Ok((db', Issue(u, sign, now)))
  }

  /** Four emoji are four code points but eight UTF-16 code units, so they
      make a long enough password; twenty make a username too long, though
      it has only twenty code points. */
  lemma AstralLengths()
    ensures var pw := "\U{1F600}\U{1F600}\U{1F600}\U{1F600}";
            |pw| == 4 && Js.Utf16Length(pw) == 8 == MinPasswordLength
    ensures var name := seq(20, _ => '\U{1F600}');
            |name| == 20 == MaxUsernameLength && Js.Utf16Length(name) == 40
  {
    Js.Utf16LengthOfAstral("\U{1F600}\U{1F600}\U{1F600}\U{1F600}");
    Js.Utf16LengthOfAstral(seq(20, _ => '\U{1F600}'));
  }

  /** The first user matching email or username has the email exactly when
      some user has the email and no earlier user has the username. */
  lemma ConflictMessage(users: seq<Store.User>, email: string, name: string)
    requires FirstUser(users, (u: Store.User) => u.email == email || u.username == name).Some?
    ensures FirstUser(users, (u: Store.User) => u.email == email || u.username == name).value.email == email
            <==> exists k :: 0 <= k < |users| && users[k].email == email
                             && forall m :: 0 <= m < k ==> users[m].username != name
  {
    var p := (u: Store.User) => u.email == email || u.username == name;
    var k := FirstIndex(users, p);
    if users[k].email == email {
      assert forall m :: 0 <= m < k ==> !p(users[m]);
    } else {
      UsernameFirst(users, email, name, k);
    }
  }

  /** When the first user with the email or the username has the username
      only, every user with the email has a user with the username before it. */
  lemma UsernameFirst(users: seq<Store.User>, email: string, name: string, k: nat)
    requires k < |users| && users[k].email != email && users[k].username == name
    requires forall m :: 0 <= m < k ==> !(users[m].email == email || users[m].username == name)
    ensures forall k' :: 0 <= k' < |users| && users[k'].email == email ==>
              exists m :: 0 <= m < k' && users[m].username == name
  {
    forall k' | 0 <= k' < |users| && users[k'].email == email
      ensures exists m :: 0 <= m < k' && users[m].username == name
    {
      assert k < k';
    }
  }

  /** The position of the user `FirstUser` finds. */
  lemma FirstIndex(users: seq<Store.User>, p: Store.User -> bool) returns (k: nat)
    requires FirstUser(users, p).Some?
    ensures k < |users| && users[k] == FirstUser(users, p).value
    ensures forall m :: 0 <= m < k ==> !p(users[m])
  {
    k :| 0 <= k < |users| && users[k] == FirstUser(users, p).value && forall m :: 0 <= m < k ==> !p(users[m]);
  }

  /** Signup keeps stored accounts lower-case and unique. */
  lemma SignupKeepsAccountsWellFormed(db: Store.Db, email: string, password: string, username: string,
                                      newId: string, hash: string -> string, sign: (Store.Claims, int) -> string, now: int)
    requires AccountsWellFormed(db.users) && FreshId(db, newId)
    requires Signup(db, email, password, username, newId, hash, sign, now).Ok?
    ensures AccountsWellFormed(Signup(db, email, password, username, newId, hash, sign, now).value.0.users)
  {
    var users := Signup(db, email, password, username, newId, hash, sign, now).value.0.users;
    var n := |db.users|;
    Js.LowerIdempotent(email);
    Js.LowerIdempotent(username);
    assert users[n].email == Js.ToLower(email) && users[n].username == Js.ToLower(username);
    assert forall k :: 0 <= k < n ==> users[k] == db.users[k];
  }

  /** Once signed up, the same email and username are refused with "Email
      already registered", and the same email with any other valid
      username is refused with a 409. */
  lemma SignupTwiceRejected(db: Store.Db, email: string, password: string, username: string,
                            newId: string, hash: string -> string, sign: (Store.Claims, int) -> string, now: int,
                            username2: string, newId2: string, later: int)
    requires FreshId(db, newId) && FreshId(db, newId2) && newId2 != newId
    requires Signup(db, email, password, username, newId, hash, sign, now).Ok?
    requires MinUsernameLength <= Js.Utf16Length(username2) <= MaxUsernameLength
    ensures var db' := Signup(db, email, password, username, newId, hash, sign, now).value.0;
            var r := Signup(db', email, password, username2, newId2, hash, sign, later);
            && r.Err? && r.error.statusCode == 409
            && (username2 == username ==> r == Err(EmailTaken))
  {
    var db' := Signup(db, email, password, username, newId, hash, sign, now).value.0;
    var n := |db.users|;
    assert db'.users[n].email == Js.ToLower(email);
    if username2 == username {
      assert forall m :: 0 <= m < n ==> db'.users[m] == db.users[m];
      assert forall m :: 0 <= m < n ==> db'.users[m].username != Js.ToLower(username2);
    }
  }

  /** Signup's (0, 0) streak row, followed by a first lesson two or more
      days later, leaves a current run of 1 above a longest run of 0. */
  lemma SignupStreakThenGap(db: Store.Db, email: string, password: string, username: string,
                            newId: string, hash: string -> string, sign: (Store.Claims, int) -> string, now: int,
                            later: int)
    requires FreshId(db, newId)
    requires Signup(db, email, password, username, newId, hash, sign, now).Ok?
    requires ProgressRules.DayNumber(later) - ProgressRules.DayNumber(now) >= 2
    ensures var db' := Signup(db, email, password, username, newId, hash, sign, now).value.0;
            var s := ProgressRules.NextStreak(Store.StreakOf(db', newId), later);
            s.current == 1 && s.longest == 0
  {
    ProgressRules.SeededStreakBreaksAfterGap(now, later);
  }

  /** `login`: both fields required (400); then the user stored under the
      lower-cased email must exist and the password must match its hash,
      both failures giving the same 401. */
  function Login(db: Store.Db, email: string, password: string,
                 compare: (string, string) -> bool, sign: (Store.Claims, int) -> string, now: int)
    : (r: Result<AuthResponse>)
    ensures (email == "" || password == "") ==> r == Err(LoginFieldsMissing)
    ensures r.Ok? <==> email != "" && password != "" && UserByEmail(db.users, Js.ToLower(email)).Some?
                       && compare(password, UserByEmail(db.users, Js.ToLower(email)).value.passwordHash)
    ensures r.Ok? ==> r.value == Issue(UserByEmail(db.users, Js.ToLower(email)).value, sign, now)
                      && r.value.user.email == Js.ToLower(email)
    ensures r.Err? && email != "" && password != "" ==> r.error == InvalidCredentials
  {
    if email == "" || password == "" then Err(LoginFieldsMissing)
    else
      match UserByEmail(db.users, Js.ToLower(email))
      case None => Err(InvalidCredentials)
      case Some(u) =>
        if !compare(password, u.passwordHash) then Err(InvalidCredentials)
        else Ok(Issue(u, sign, now))
  }

  /** A login after signup, at any later time, with the password just chosen
      and a hash its comparison accepts, succeeds as the new user: the same
      user view, with a token signed over the same claims at the login time. */
  lemma SignupThenLogin(db: Store.Db, email: string, password: string, username: string,
                        newId: string, hash: string -> string, sign: (Store.Claims, int) -> string, now: int,
                        compare: (string, string) -> bool, later: int)
    requires FreshId(db, newId)
    requires Signup(db, email, password, username, newId, hash, sign, now).Ok?
    requires compare(password, hash(password))
    ensures var (db', resp) := Signup(db, email, password, username, newId, hash, sign, now).value;
            var r := Login(db', email, password, compare, sign, later);
            && r.Ok? && r.value.user == resp.user
            && r.value.accessToken == sign(Store.Claims(newId, Js.ToLower(email), LearnerRole), later)
  {
    var db' := Signup(db, email, password, username, newId, hash, sign, now).value.0;
    var n := |db.users|;
    assert forall m :: 0 <= m < n ==> db'.users[m] == db.users[m];
    assert db'.users[n].email == Js.ToLower(email);
    var found := UserByEmail(db'.users, Js.ToLower(email));
    var k :| 0 <= k < |db'.users| && db'.users[k] == found.value
             && forall m :: 0 <= m < k ==> db'.users[m].email != Js.ToLower(email);
    assert k == n;
  }

  // ---------------------------------------------------------------------
  // Password reset

  /** `requestPasswordReset`: the email is required (400) and must belong to
      a user (404); then a fresh token for that user is stored, expiring one
      hour from now and not yet used. Sending the link is left out. */
  function RequestPasswordReset(db: Store.Db, email: string, token: string, now: int): (r: Result<Store.Db>)
    requires token !in db.resetTokens
    ensures email == "" ==> r == Err(EmailMissing)
    ensures email != "" && UserByEmail(db.users, Js.ToLower(email)).None? ==> r == Err(UserNotFound)
    ensures r.Ok? <==> email != "" && UserByEmail(db.users, Js.ToLower(email)).Some?
    ensures r.Ok? ==>
              var u := UserByEmail(db.users, Js.ToLower(email)).value;
              && r.value == db.(resetTokens := db.resetTokens[token := Store.ResetToken(u.id, now + ResetTokenLifetimeMs, None)])
              && r.value.resetTokens.Keys == db.resetTokens.Keys + {token}
  {
    if email == "" then Err(EmailMissing)
    else
      match UserByEmail(db.users, Js.ToLower(email))
      case None => Err(UserNotFound)
      case Some(u) =>
        Ok(db.(resetTokens := db.resetTokens[token := Store.ResetToken(u.id, now + ResetTokenLifetimeMs, None)]))
  }

  /** Sets the password hash of the users with the given id. */
  function SetPassword(users: seq<Store.User>, userId: string, passwordHash: string): (r: seq<Store.User>)
    ensures |r| == |users|
    ensures forall k :: 0 <= k < |users| ==>
              r[k] == if users[k].id == userId then users[k].(passwordHash := passwordHash) else users[k]
  {
    seq(|users|, k requires 0 <= k < |users| =>
      if users[k].id == userId then users[k].(passwordHash := passwordHash) else users[k])
  }

  /** `resetPassword`. Checks, in order: token and password present; the
      password at least 8 UTF-16 code units; the token known; not used (before
      expiry is looked at); not expired (expiry equal to now still passes).
      Then the token's user gets the new hash and the token is stamped used. */
  function ResetPassword(db: Store.Db, token: string, newPassword: string, hash: string -> string, now: int)
    : (r: Result<Store.Db>)
    ensures (token == "" || newPassword == "") ==> r == Err(ResetFieldsMissing)
    ensures token != "" && newPassword != "" ==>
              var pw := Js.Utf16Length(newPassword);
              && (pw < MinPasswordLength ==> r == Err(PasswordTooShort))
              && (pw >= MinPasswordLength && token !in db.resetTokens ==> r == Err(TokenUnknown))
              && ((pw >= MinPasswordLength && token in db.resetTokens
                   && db.resetTokens[token].usedAt.Some?) ==> r == Err(TokenUsed))
              && ((pw >= MinPasswordLength && token in db.resetTokens
                   && db.resetTokens[token].usedAt.None? && db.resetTokens[token].expiresAt < now)
                  ==> r == Err(TokenExpired))
    ensures r.Ok? <==> token != "" && newPassword != "" && Js.Utf16Length(newPassword) >= MinPasswordLength
                       && token in db.resetTokens && db.resetTokens[token].usedAt.None?
                       && now <= db.resetTokens[token].expiresAt
    ensures r.Ok? ==>
              var rt := db.resetTokens[token];
              && r.value == db.(users := SetPassword(db.users, rt.userId, hash(newPassword)),
                                resetTokens := db.resetTokens[token := rt.(usedAt := Some(now))])
  {
    if token == "" || newPassword == "" then Err(ResetFieldsMissing)
    else if Js.Utf16Length(newPassword) < MinPasswordLength then Err(PasswordTooShort)
    else if token !in db.resetTokens then Err(TokenUnknown)
    else
      var rt := db.resetTokens[token];
      if rt.usedAt.Some? then Err(TokenUsed)
      else if rt.expiresAt < now then Err(TokenExpired)
      else
        Ok(db.(users := SetPassword(db.users, rt.userId, hash(newPassword)),
               resetTokens := db.resetTokens[token := rt.(usedAt := Some(now))]))
  }

  /** A reset token works once: any later use, with any valid password and
      at any time, is refused as already used. */
  lemma ResetTokenSingleUse(db: Store.Db, token: string, newPassword: string, hash: string -> string, now: int,
                            password2: string, later: int)
    requires ResetPassword(db, token, newPassword, hash, now).Ok?
    requires Js.Utf16Length(password2) >= MinPasswordLength
    ensures ResetPassword(ResetPassword(db, token, newPassword, hash, now).value, token, password2, hash, later)
            == Err(TokenUsed)
  {
  }

  /** A token issued at `now` is accepted up to and including one hour
      later, and refused as expired one millisecond after that. */
  lemma ResetTokenLifetime(db: Store.Db, email: string, token: string, now: int,
                           newPassword: string, hash: string -> string)
    requires token !in db.resetTokens && token != ""
    requires RequestPasswordReset(db, email, token, now).Ok?
    requires Js.Utf16Length(newPassword) >= MinPasswordLength
    ensures var db' := RequestPasswordReset(db, email, token, now).value;
            && ResetPassword(db', token, newPassword, hash, now + ResetTokenLifetimeMs).Ok?
            && ResetPassword(db', token, newPassword, hash, now + ResetTokenLifetimeMs + 1) == Err(TokenExpired)
  {
  }

  /** After a reset the token's user can log in with the new password. */
  lemma ResetThenLogin(db: Store.Db, token: string, newPassword: string, hash: string -> string, now: int,
                       email: string, compare: (string, string) -> bool, sign: (Store.Claims, int) -> string,
                       later: int)
    requires token != "" && Js.Utf16Length(newPassword) >= MinPasswordLength
    requires token in db.resetTokens && db.resetTokens[token].usedAt.None?
    requires now <= db.resetTokens[token].expiresAt
    requires email != ""
    requires UserByEmail(db.users, Js.ToLower(email)).Some?
    requires UserByEmail(db.users, Js.ToLower(email)).value.id == db.resetTokens[token].userId
    requires compare(newPassword, hash(newPassword))
    ensures Login(ResetPassword(db, token, newPassword, hash, now).value, email, newPassword, compare, sign, later).Ok?
  {
    var e := Js.ToLower(email);
    var rt := db.resetTokens[token];
    SetPasswordLookup(db.users, rt.userId, hash(newPassword), e);
  }

  /** Changing a password leaves lookups by email finding the same user,
      with the new hash when it is that user's. */
  lemma SetPasswordLookup(users: seq<Store.User>, userId: string, passwordHash: string, email: string)
    requires UserByEmail(users, email).Some?
    ensures var u := UserByEmail(users, email).value;
            UserByEmail(SetPassword(users, userId, passwordHash), email)
              == Some(if u.id == userId then u.(passwordHash := passwordHash) else u)
  {
    var users' := SetPassword(users, userId, passwordHash);
    var found := UserByEmail(users, email).value;
    var k :| 0 <= k < |users| && users[k] == found && forall m :: 0 <= m < k ==> users[m].email != email;
    assert forall m :: 0 <= m < k ==> users'[m].email == users[m].email;
    UserByEmailIsFirst(users', email, k);
  }

  /** The user found by email is the first one with that email. */
  lemma UserByEmailIsFirst(users: seq<Store.User>, email: string, k: int)
    requires 0 <= k < |users| && users[k].email == email
    requires forall m :: 0 <= m < k ==> users[m].email != email
    ensures UserByEmail(users, email) == Some(users[k])
  {
    var r := UserByEmail(users, email);
    var k' :| 0 <= k' < |users| && users[k'] == r.value && forall m :: 0 <= m < k' ==> users[m].email != email;
    assert k' == k;
  }
}
