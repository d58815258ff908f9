/**
 * Identity and access: the checks of `signup` and `login`, the admin gate,
 * the approval of a user and the default-admin seeding, as functions of the
 * users table. `Tracker.Store` applies them to its own table.
 */
module Accounts {
  import opened Wrappers
  import opened Rows
  import opened Records
  import opened Text

  /** The primary key and the two unique columns of the users table. */
  predicate UsersValid(users: seq<User>)
  {
    UniqueKeys(users, UserKey) && UniqueKeys(users, UsernameKey) && UniqueKeys(users, EmailKey)
  }

  /** `User.query.get(id)`, as the index of the row. */
  function UserIndex(users: seq<User>, id: nat): (r: Option<nat>)
    ensures r.Some? ==> r.value < |users| && users[r.value].id == id
    ensures r.None? <==> forall i :: 0 <= i < |users| ==> users[i].id != id
  {
    FirstIndex(users, (x: User) => x.id == id)
  }

  /** `User.query.filter_by(email=email).first()`. */
  function UserByEmail(users: seq<User>, email: string): (r: Option<User>)
    ensures r.Some? <==> exists i :: 0 <= i < |users| && users[i].email == email
    ensures r.Some? ==> r.value in users && r.value.email == email
  {
    First(users, (x: User) => x.email == email)
  }

  /** `User.query.filter((User.email == email) | (User.username == username)).first()`. */
  function UserClash(users: seq<User>, email: string, username: string): (r: Option<User>)
    ensures r.Some? <==> exists i :: 0 <= i < |users| && (users[i].email == email || users[i].username == username)
    ensures r.Some? ==> r.value in users && (r.value.email == email || r.value.username == username)
  {
    First(users, (x: User) => x.email == email || x.username == username)
  }

  // ---------------------------------------------------------------- signup

  datatype SignupOutcome = FieldsRequired | AlreadyExists | SignedUp(id: nat)

  /**
   * The checks of `signup` on the stripped username, the stripped and
   * lower-cased email and the stripped password: a blank field, then a
   * clash with an existing username or email, reject; otherwise the new
   * user's id is the next free key.
   */
  function SignupDecision(users: seq<User>, username: string, email: string, password: string): (r: SignupOutcome)
    ensures r == FieldsRequired <==> Strip(username) == [] || Strip(email) == [] || Strip(password) == []
    ensures r == AlreadyExists <==>
      && r != FieldsRequired
      && exists i :: 0 <= i < |users| && (users[i].email == NormalizeEmail(email) || users[i].username == Strip(username))
    ensures r.SignedUp? ==> r.id == NextId(users, UserKey)
  {
    var name := Strip(username);
    var mail := NormalizeEmail(email);
    var secret := Strip(password);
    if name == [] || mail == [] || secret == [] then FieldsRequired
    else if UserClash(users, mail, name).Some? then AlreadyExists
    else SignedUp(NextId(users, UserKey))
  }

  /** The row a successful signup adds: not an admin, not approved, the email lower-cased, the stripped password hashed. */
  function NewUser(users: seq<User>, username: string, email: string, password: string, hashOf: string -> string): (r: User)
    ensures forall i :: 0 <= i < |users| ==> users[i].id < r.id
    ensures !r.isAdmin && !r.isApproved
  {
    User(NextId(users, UserKey), Strip(username), NormalizeEmail(email), hashOf(Strip(password)), false, false)
  }

  /** The users table after a signup. */
  function SignupUsers(users: seq<User>, username: string, email: string, password: string,
                       hashOf: string -> string): (r: seq<User>)
    ensures !SignupDecision(users, username, email, password).SignedUp? ==> r == users
    ensures SignupDecision(users, username, email, password).SignedUp? ==>
      && |r| == |users| + 1 && r[..|users|] == users
      && r[|users|].id == SignupDecision(users, username, email, password).id
      && !r[|users|].isAdmin && !r[|users|].isApproved
      && r[|users|].username == Strip(username) && r[|users|].email == NormalizeEmail(email)
      && r[|users|].passwordHash == hashOf(Strip(password))
  {
    if SignupDecision(users, username, email, password).SignedUp?
    then users + [NewUser(users, username, email, password, hashOf)]
    else users
  }

  /** Signup keeps the primary key and both unique columns unique. */
  lemma SignupKeepsValid(users: seq<User>, username: string, email: string, password: string, hashOf: string -> string)
    requires UsersValid(users)
    ensures UsersValid(SignupUsers(users, username, email, password, hashOf))
  {
    if SignupDecision(users, username, email, password).SignedUp? {
      var x := NewUser(users, username, email, password, hashOf);
      var t := users + [x];
      AppendFreshKey(users, UserKey, x);
      forall i, j | 0 <= i < j < |t| ensures t[i].username != t[j].username && t[i].email != t[j].email {
        assert t[i] == users[i];
        if j < |users| { assert t[j] == users[j]; }
      }
    }
  }

  // ----------------------------------------------------------------- login

  datatype LoginOutcome = InvalidCredentials | PendingApproval | LoggedIn(id: nat)

  /**
   * The checks of `login`: the user whose email is the stripped, lower-cased
   * input; then the password check; then the approval flag. `check` is the
   * password-hash verifier, applied to the stored hash and the raw password.
   */
  function Login(users: seq<User>, email: string, password: string, check: (string, string) -> bool): (r: LoginOutcome)
    ensures r.LoggedIn? ==>
      exists i :: 0 <= i < |users| && users[i].id == r.id && users[i].isApproved
                  && users[i].email == NormalizeEmail(email) && check(users[i].passwordHash, password)
    ensures r == PendingApproval ==>
      exists i :: 0 <= i < |users| && !users[i].isApproved
                  && users[i].email == NormalizeEmail(email) && check(users[i].passwordHash, password)
    ensures (forall i :: 0 <= i < |users| ==> users[i].email != NormalizeEmail(email)) ==> r == InvalidCredentials
  {
    match UserByEmail(users, NormalizeEmail(email))
    case None => InvalidCredentials
    case Some(user) =>
      if !check(user.passwordHash, password) then InvalidCredentials
      else if !user.isApproved then PendingApproval
      else LoggedIn(user.id)
  }

  /** With unique emails, the login outcome is decided by the one user with that email. */
  lemma LoginByEmail(users: seq<User>, email: string, password: string, check: (string, string) -> bool, k: nat)
    requires UsersValid(users) && k < |users| && users[k].email == NormalizeEmail(email)
    ensures Login(users, email, password, check) ==
      if !check(users[k].passwordHash, password) then InvalidCredentials
      else if !users[k].isApproved then PendingApproval
      else LoggedIn(users[k].id)
  {
    UserByEmailUnique(users, k);
  }

  lemma UserByEmailUnique(users: seq<User>, k: nat)
    requires UniqueKeys(users, EmailKey) && k < |users|
    ensures UserByEmail(users, users[k].email) == Some(users[k])
  {
    var r := UserByEmail(users, users[k].email);
    var i :| 0 <= i < |users| && users[i] == r.value;
    assert EmailKey(users[i]) == EmailKey(users[k]);
  }

  // ------------------------------------------------------------ admin gate

  /** `admin_required`: the session is bound to a stored user, and that user is an admin. */
  function AdminAllowed(users: seq<User>, current: Option<nat>): (r: bool)
    ensures r ==> current.Some? && exists i :: 0 <= i < |users| && users[i].id == current.value && users[i].isAdmin
  {
    match current
    case None => false
    case Some(id) =>
      match UserIndex(users, id)
      case None => false
      case Some(k) => users[k].isAdmin
  }

  /** With unique ids, the gate lets a session through exactly when its user is an admin. */
  lemma AdminAllowedExactly(users: seq<User>, k: nat)
    requires UniqueKeys(users, UserKey) && k < |users|
    ensures AdminAllowed(users, Some(users[k].id)) == users[k].isAdmin
  {
    UserIndexUnique(users, k);
  }

  lemma UserIndexUnique(users: seq<User>, k: nat)
    requires UniqueKeys(users, UserKey) && k < |users|
    ensures UserIndex(users, users[k].id) == Some(k)
  {
    var r := UserIndex(users, users[k].id);
    assert UserKey(users[r.value]) == UserKey(users[k]);
  }

  // -------------------------------------------------------------- approval

  /**
   * `admin_approve`'s effect: the user with primary key `id` becomes
   * approved; nothing else in the table changes, and nothing at all when
   * there is no such user.
   */
  function ApproveUsers(users: seq<User>, id: nat): (r: seq<User>)
    ensures |r| == |users|
    ensures forall i :: 0 <= i < |users| ==>
      r[i] == users[i] || (users[i].id == id && r[i] == users[i].(isApproved := true))
    ensures (forall i :: 0 <= i < |users| ==> users[i].id != id) ==> r == users
  {
    match UserIndex(users, id)
    case None => users
    case Some(k) => users[k := users[k].(isApproved := true)]
  }

  /** With unique ids, approving changes the one user with that id, and only its approval flag. */
  lemma ApproveTarget(users: seq<User>, k: nat)
    requires UniqueKeys(users, UserKey) && k < |users|
    ensures ApproveUsers(users, users[k].id) == users[k := users[k].(isApproved := true)]
  {
    UserIndexUnique(users, k);
  }

  /** Approval is one-way and idempotent: approving twice is approving once. */
  lemma ApproveIdempotent(users: seq<User>, id: nat)
    requires UniqueKeys(users, UserKey)
    ensures ApproveUsers(ApproveUsers(users, id), id) == ApproveUsers(users, id)
  {
    var once := ApproveUsers(users, id);
    match UserIndex(users, id)
    case None =>
    case Some(k) =>
      assert forall i :: 0 <= i < |users| ==> once[i].id == users[i].id;
      assert UniqueKeys(once, UserKey) by {
        forall i, j | 0 <= i < j < |once| ensures UserKey(once[i]) != UserKey(once[j]) {
          assert UserKey(users[i]) != UserKey(users[j]);
        }
      }
      UserIndexUnique(once, k);
  }

  /** Approval keeps the primary key and both unique columns unique. */
  lemma ApproveKeepsValid(users: seq<User>, id: nat)
    requires UsersValid(users)
    ensures UsersValid(ApproveUsers(users, id))
  {
    var r := ApproveUsers(users, id);
    forall i, j | 0 <= i < j < |r|
      ensures r[i].id != r[j].id && r[i].username != r[j].username && r[i].email != r[j].email
    {
      assert UserKey(users[i]) != UserKey(users[j]);
      assert UsernameKey(users[i]) != UsernameKey(users[j]);
      assert EmailKey(users[i]) != EmailKey(users[j]);
    }
  }

  /**
   * Signup, then approval, then login with the same email and password: the
   * new user is pending before approval and logged in after it. The password
   * must already be stripped, since signup hashes the stripped password and
   * login checks the raw one; `check` must accept a password against its own
   * hash.
   */
  lemma SignupApproveLogin(users: seq<User>, username: string, email: string, password: string,
                           hashOf: string -> string, check: (string, string) -> bool)
    requires UsersValid(users)
    requires SignupDecision(users, username, email, password).SignedUp?
    requires Strip(password) == password && check(hashOf(password), password)
    ensures Login(SignupUsers(users, username, email, password, hashOf), email, password, check) == PendingApproval
    ensures Login(ApproveUsers(SignupUsers(users, username, email, password, hashOf), NextId(users, UserKey)),
                  email, password, check) == LoggedIn(NextId(users, UserKey))
  {
    var x := NewUser(users, username, email, password, hashOf);
    var u1 := SignupUsers(users, username, email, password, hashOf);
    var k := |users|;
    assert u1 == users + [x] && u1[k] == x;
    SignupKeepsValid(users, username, email, password, hashOf);
    LoginByEmail(u1, email, password, check, k);
    var u2 := ApproveUsers(u1, x.id);
    ApproveTarget(u1, k);
    ApproveKeepsValid(u1, x.id);
    assert u2[k] == x.(isApproved := true);
    LoginByEmail(u2, email, password, check, k);
  }

  /**
   * Signup strips the password before hashing it and login does not: with a
   * verifier that accepts exactly the hashed password, a password typed with
   * surrounding whitespace at signup is refused when typed the same way at
   * login, and accepted when typed stripped.
   */
  lemma PaddedPasswordNeedsStripping(users: seq<User>, username: string, email: string, password: string,
                                     hashOf: string -> string)
    requires UsersValid(users)
    requires SignupDecision(users, username, email, password).SignedUp?
    requires hashOf(Strip(password)) != hashOf(password)
    ensures var u1 := ApproveUsers(SignupUsers(users, username, email, password, hashOf), NextId(users, UserKey));
      var exact := (h: string, p: string) => h == hashOf(p);
      Login(u1, email, password, exact) == InvalidCredentials &&
      Login(u1, email, Strip(password), exact) == LoggedIn(NextId(users, UserKey))
  {
    var exact := (h: string, p: string) => h == hashOf(p);
    var x := NewUser(users, username, email, password, hashOf);
    var u0 := SignupUsers(users, username, email, password, hashOf);
    var k := |users|;
    assert u0 == users + [x] && u0[k] == x;
    SignupKeepsValid(users, username, email, password, hashOf);
    var u1 := ApproveUsers(u0, x.id);
    ApproveTarget(u0, k);
    ApproveKeepsValid(u0, x.id);
    assert u1[k] == x.(isApproved := true);
    LoginByEmail(u1, email, password, exact, k);
    LoginByEmail(u1, email, Strip(password), exact, k);
  }

  // ------------------------------------------------------- default admin

  /** `User.query.filter_by(is_admin=True).first()` finds a row. */
  predicate HasAdmin(users: seq<User>)
  {
    exists i :: 0 <= i < |users| && users[i].isAdmin
  }

  /**
   * The start-up seeding: when no user is an admin, add one, approved, with
   * the configured email (stored as configured, not lower-cased), username
   * and password hash.
   */
  function BootstrapUsers(users: seq<User>, email: string, username: string, passwordHash: string): (r: seq<User>)
    ensures HasAdmin(r)
    ensures HasAdmin(users) ==> r == users
    ensures !HasAdmin(users) ==>
      && |r| == |users| + 1 && r[..|users|] == users
      && r[|users|].id == NextId(users, UserKey)
      && r[|users|].isAdmin && r[|users|].isApproved
      && r[|users|].email == email && r[|users|].username == username
      && r[|users|].passwordHash == passwordHash
  {
    if HasAdmin(users) then users
    else
      var r := users + [User(NextId(users, UserKey), username, email, passwordHash, true, true)];
      assert r[|users|].isAdmin;
      r
  }

  /** Seeding is idempotent: running it again changes nothing. */
  lemma BootstrapIdempotent(users: seq<User>, email: string, username: string, passwordHash: string)
    ensures BootstrapUsers(BootstrapUsers(users, email, username, passwordHash), email, username, passwordHash)
         == BootstrapUsers(users, email, username, passwordHash)
  {
  }

  /**
   * The seeded admin can log in, passes the admin gate, and the table stays
   * valid, provided its configured email and username are not taken and the
   * email is already in lower case (login looks up the lower-cased input).
   */
  lemma BootstrapAdminLogsIn(users: seq<User>, email: string, username: string, passwordHash: string,
                             typed: string, password: string, check: (string, string) -> bool)
    requires UsersValid(users) && !HasAdmin(users)
    requires forall i :: 0 <= i < |users| ==> users[i].email != email && users[i].username != username
    requires NormalizeEmail(typed) == email && check(passwordHash, password)
    ensures UsersValid(BootstrapUsers(users, email, username, passwordHash))
    ensures Login(BootstrapUsers(users, email, username, passwordHash), typed, password, check) == LoggedIn(NextId(users, UserKey))
    ensures AdminAllowed(BootstrapUsers(users, email, username, passwordHash), Some(NextId(users, UserKey)))
  {
    var x := User(NextId(users, UserKey), username, email, passwordHash, true, true);
    var r := BootstrapUsers(users, email, username, passwordHash);
    var k := |users|;
    assert r == users + [x] && r[k] == x;
    AppendFreshKey(users, UserKey, x);
    forall i, j | 0 <= i < j < |r| ensures r[i].username != r[j].username && r[i].email != r[j].email {
      assert r[i] == users[i];
      if j < |users| { assert r[j] == users[j]; }
    }
    LoginByEmail(r, typed, password, check, k);
    AdminAllowedExactly(r, k);
  }

  /**
   * A configured admin email with an upper-case ASCII letter can never be
   * typed in at login: login lower-cases the input, seeding does not, so the
   * seeded admin never logs in.
   */
  lemma MixedCaseAdminEmailLocksOut(users: seq<User>, email: string, username: string, passwordHash: string,
                                    typed: string, password: string, check: (string, string) -> bool, j: nat)
    requires !HasAdmin(users)
    requires j < |email| && 'A' <= email[j] <= 'Z'
    ensures Login(BootstrapUsers(users, email, username, passwordHash), typed, password, check)
         != LoggedIn(NextId(users, UserKey))
  {
    var r := BootstrapUsers(users, email, username, passwordHash);
    var n := NormalizeEmail(typed);
    if j < |n| {
      NormalizedIsLowerCase(typed, j);
    }
    assert n != email;
    forall i | 0 <= i < |r| && r[i].email == n ensures r[i].id != NextId(users, UserKey) {
      if i < |users| {
        assert r[i] == users[i];
      }
    }
  }
}
