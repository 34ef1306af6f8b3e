/** The decisions of the authentication layer: which outcome a registration or login form
    leads to, where a successful login sends the user, and whether a guarded page proceeds
    for a given session. Messages, redirects and the session cookie itself are represented
    only by the outcome values. */
module Auth {
  import opened Optional
  import opened Seqs
  import opened Tables
  import opened Queries
  import Database

  const MIN_PASSWORD_LENGTH: nat := 6

  /** A form field counts as given when it was submitted and is not empty. */
  predicate Given(field: Option<string>) {
    field.Some? && field.value != ""
  }

  // ---------------------------------------------------------------------------------------
  // register

  /** The checks register makes before it touches the users table, in their order. */
  datatype RegisterCheck = FieldsMissing | PasswordsDiffer | PasswordTooShort | ChecksPassed

  function CheckRegistration(username: Option<string>, password: Option<string>, confirm: Option<string>): (r: RegisterCheck)
    ensures r == FieldsMissing <==> !Given(username) || !Given(password)
    ensures r == PasswordsDiffer <==> Given(username) && Given(password) && password != confirm
    ensures r == PasswordTooShort <==>
      Given(username) && Given(password) && password == confirm && |password.value| < MIN_PASSWORD_LENGTH
    ensures r == ChecksPassed <==>
      Given(username) && Given(password) && password == confirm && |password.value| >= MIN_PASSWORD_LENGTH
  {
    if !Given(username) || !Given(password) then FieldsMissing
    else if password != confirm then PasswordsDiffer
    else if |password.value| < MIN_PASSWORD_LENGTH then PasswordTooShort
    else ChecksPassed
  }

  /** A mismatch is reported even when the password is also too short. */
  lemma MismatchBeforeLength(username: string, password: string, confirm: Option<string>)
    requires username != "" && password != "" && |password| < MIN_PASSWORD_LENGTH
    requires confirm != Some(password)
    ensures CheckRegistration(Some(username), Some(password), confirm) == PasswordsDiffer
  {
  }

  /** Six characters are enough. */
  lemma SixCharactersPass(username: string, password: string)
    requires username != "" && |password| == MIN_PASSWORD_LENGTH
    ensures CheckRegistration(Some(username), Some(password), Some(password)) == ChecksPassed
  {
  }

  datatype RegisterOutcome = Rejected(check: RegisterCheck) | UsernameTaken | Registered(userId: nat)

  /** register: the three checks, then create_user with role member; a failed insert is
      reported as a taken username. `hashed` is the hash create_user would store. */
  method Register(lib: Database.Library, username: Option<string>, password: Option<string>,
                  confirm: Option<string>, hashed: Hash) returns (outcome: RegisterOutcome)
    requires lib.Valid()
    modifies lib
    ensures lib.Valid()
    ensures CheckRegistration(username, password, confirm) != ChecksPassed ==>
      outcome == Rejected(CheckRegistration(username, password, confirm)) && unchanged(lib)
    ensures CheckRegistration(username, password, confirm) == ChecksPassed ==>
      (outcome == UsernameTaken <==> old(HasUsername(lib.users, username.value)))
    ensures outcome == UsernameTaken ==> unchanged(lib)
    ensures CheckRegistration(username, password, confirm) == ChecksPassed
            && !old(HasUsername(lib.users, username.value))
            ==> outcome == Registered(old(lib.lastUserId) + 1)
    ensures outcome.Registered? ==>
      && CheckRegistration(username, password, confirm) == ChecksPassed
      && lib.users == old(lib.users) + [User(outcome.userId, username.value, hashed, MEMBER)]
    ensures outcome.Registered? ==> lib.lastUserId == outcome.userId
    ensures lib.books == old(lib.books) && lib.borrowed == old(lib.borrowed)
    ensures lib.lastBookId == old(lib.lastBookId) && lib.lastRecordId == old(lib.lastRecordId)
  {
    var check := CheckRegistration(username, password, confirm);
    if check != ChecksPassed {
      return Rejected(check);
    }
    var userId := lib.CreateUser(username.value, hashed, MEMBER);
    // the handler tests the returned id for truth; AUTOINCREMENT ids start at 1
    if userId.Some? && userId.value != 0 {
      outcome := Registered(userId.value);
    } else {
      outcome := UsernameTaken;
    }
  }

  // ---------------------------------------------------------------------------------------
  // login

  datatype Dashboard = AdminDashboard | MemberDashboard

  /** What a successful login writes into the session. */
  datatype SessionData = SessionData(userId: nat, username: string, role: string)

  datatype LoginOutcome = LoginFieldsMissing | InvalidCredentials | LoggedIn(session: SessionData, target: Dashboard)

  /** login: both fields, then the user row for the username and the password check against
      its stored hash; `verify` stands for the hashing library's check. */
  function Login(username: Option<string>, password: Option<string>, users: seq<User>,
                 verify: (string, Hash) -> bool): (r: LoginOutcome)
    ensures r == LoginFieldsMissing <==> !Given(username) || !Given(password)
    ensures r.LoggedIn? ==>
      && Given(username) && Given(password)
      && r.session.username == username.value
      && (exists u :: u in users && u.id == r.session.userId && u.username == username.value
                      && u.role == r.session.role && verify(password.value, u.password))
    ensures r.LoggedIn? ==> (r.target == AdminDashboard <==> r.session.role == ADMIN)
    ensures Given(username) && Given(password) && Distinct(users, Username)
            && (exists u :: u in users && u.username == username.value && verify(password.value, u.password))
            ==> r.LoggedIn?
    ensures Given(username) && Given(password)
            && (forall u :: u in users && u.username == username.value ==> !verify(password.value, u.password))
            ==> r == InvalidCredentials
  {
    if !Given(username) || !Given(password) then LoginFieldsMissing
    else
      match GetUserByUsername(users, username.value)
      case Some(u) =>
        if verify(password.value, u.password) then
          LoggedIn(SessionData(u.id, u.username, u.role), if u.role == ADMIN then AdminDashboard else MemberDashboard)
        else
          UniqueUsernameFound(users, u, username.value);
          InvalidCredentials
      case None => InvalidCredentials
  }

  /** With unique usernames, the row found for a username is the only one. */
  lemma UniqueUsernameFound(users: seq<User>, found: User, username: string)
    requires found in users && found.username == username
    ensures Distinct(users, Username) ==> forall u :: u in users && u.username == username ==> u == found
  {
    if Distinct(users, Username) {
      forall u | u in users && u.username == username ensures u == found {
        var i :| 0 <= i < |users| && users[i] == u;
        var j :| 0 <= j < |users| && users[j] == found;
        DistinctAt(users, Username, i, j);
      }
    }
  }

  // ---------------------------------------------------------------------------------------
  // Guards on pages

  /** The parts of the session the guards look at. */
  datatype Session = Session(userId: Option<nat>, role: Option<string>)

  datatype Guard = Proceed | LoginFirst | PermissionDenied

  /** login_required */
  function LoginRequired(s: Session): (r: Guard)
    ensures r == Proceed <==> s.userId.Some?
    ensures r == LoginFirst <==> s.userId.None?
  {
    if s.userId.None? then LoginFirst else Proceed
  }

  /** role_required(required) */
  function RoleRequired(required: string, s: Session): (r: Guard)
    ensures r == LoginFirst <==> s.userId.None?
    ensures r == PermissionDenied <==> s.userId.Some? && s.role != Some(required)
    ensures r == Proceed <==> s.userId.Some? && s.role == Some(required)
  {
    if s.userId.None? then LoginFirst
    else if s.role != Some(required) then PermissionDenied
    else Proceed
  }

  /** The role the pages behind each dashboard require. */
  function DashboardRole(d: Dashboard): string {
    match d
    case AdminDashboard => ADMIN
    case MemberDashboard => MEMBER
  }

  function SessionAfter(data: SessionData): Session {
    Session(Some(data.userId), Some(data.role))
  }

  /** A user who logs in is sent to the dashboard whose guard admits them. */
  lemma LoginLandsOnPermittedDashboard(username: Option<string>, password: Option<string>, users: seq<User>,
                                       verify: (string, Hash) -> bool)
    requires forall u :: u in users ==> AllowedRole(u.role)
    requires Login(username, password, users, verify).LoggedIn?
    ensures var r := Login(username, password, users, verify);
            RoleRequired(DashboardRole(r.target), SessionAfter(r.session)) == Proceed
            && LoginRequired(SessionAfter(r.session)) == Proceed
  {
    var r := Login(username, password, users, verify);
    var u :| u in users && u.id == r.session.userId && u.username == username.value
             && u.role == r.session.role && verify(password.value, u.password);
    assert AllowedRole(u.role);
  }
}
