/**
 The authenticate-or-register handler and the profile update.

 The document store is a map from email to user record (the schema makes the
 email unique); the database id is a counter owned by the controller. The
 request-body schema, bcrypt and the token signer are functions the
 controller is given and knows nothing about.
 */
module UserController {
  import opened Optional
  import opened LoginLimiter

  type UserId = nat

  /** A stored user. `password` holds the bcrypt hash; `coordinates` is the GeoJSON pair [longitude, latitude]. */
  datatype User = User(id: UserId, email: string, password: string, username: string, coordinates: seq<real>)

  /** The `user` object of a successful authentication response. */
  datatype UserSummary = UserSummary(id: UserId, email: string)

  /** A user as returned by a query that deselects the password. */
  datatype PublicUser = PublicUser(id: UserId, email: string, username: string, coordinates: seq<real>)

  /** The collaborators the handler calls but whose code is not modelled. */
  datatype Services = Services(
    authSchema: (string, string) -> bool,  // does {email, password} parse?
    hash: string -> string,                // bcrypt.hash, run by the pre-save hook
    compare: (string, string) -> bool,     // bcrypt.compare(plain, hash)
    sign: UserId -> string)                // jwt.sign({ id })

  datatype AuthResponse =
    | InvalidInput                                                      // 400 "Invalid input data"
    | InvalidCredentials                                                // 401 "Invalid credentials"
    | Authenticated(message: string, token: string, user: UserSummary)  // 200
  {
    function Status(): int {
      match this
      case InvalidInput => 400
      case InvalidCredentials => 401
      case Authenticated(_, _, _) => 200
    }
  }

  type UserStore = map<string, User>

  /** Every user is stored under its own email, with an id below `nextId` that no other user has. */
  ghost predicate StoreValid(users: UserStore, nextId: nat) {
    && (forall e :: e in users ==> users[e].email == e && users[e].id < nextId)
    && (forall e1, e2 :: e1 in users && e2 in users && users[e1].id == users[e2].id ==> e1 == e2)
  }

  /** Both fields are given and the request-body schema accepts them. */
  predicate InputParses(s: Services, email: Option<string>, password: Option<string>) {
    email.Some? && password.Some? && s.authSchema(email.value, password.value)
  }

  predicate PasswordMismatch(users: UserStore, s: Services, email: Option<string>, password: Option<string>) {
    InputParses(s, email, password) && email.value in users && !s.compare(password.value, users[email.value].password)
  }

  predicate PasswordMatch(users: UserStore, s: Services, email: Option<string>, password: Option<string>) {
    InputParses(s, email, password) && email.value in users && s.compare(password.value, users[email.value].password)
  }

  predicate UnknownEmail(users: UserStore, s: Services, email: Option<string>, password: Option<string>) {
    InputParses(s, email, password) && email.value !in users
  }

  /** The document `User.create({ email, password })` saves: hashed password, schema defaults for the rest. */
  function NewUser(id: UserId, email: string, password: string, s: Services): (u: User)
    ensures u.id == id && u.email == email && u.password == s.hash(password)
    ensures u.username == "" && u.coordinates == [0.0, 0.0]
  {
    User(id, email, s.hash(password), "", [0.0, 0.0])
  }

  /** Everything one call of the handler does: its response, the new store, and its writes to the limiter. */
  datatype AuthEffect = AuthEffect(response: AuthResponse, users: UserStore, nextId: nat, events: seq<Event>)

  /** The handler, as a function of the store and the request. */
  function HandleAuthSpec(users: UserStore, nextId: nat, s: Services,
                          email: Option<string>, password: Option<string>, now: int): (eff: AuthEffect)
    // invalid input: 400, nothing written
    ensures eff.response.InvalidInput? <==> !InputParses(s, email, password)
    ensures eff.response.Status() ==
      if !InputParses(s, email, password) then 400
      else if PasswordMismatch(users, s, email, password) then 401
      else 200
    ensures !InputParses(s, email, password) ==> eff.users == users && eff.nextId == nextId && eff.events == []
    // at most one write to the limiter: a failure exactly on a mismatch, a reset exactly on a login
    ensures |eff.events| <= 1
    ensures (|eff.events| == 1 && eff.events[0].Failed?) <==> PasswordMismatch(users, s, email, password)
    ensures (|eff.events| == 1 && eff.events[0].Reset?) <==> PasswordMatch(users, s, email, password)
    ensures PasswordMismatch(users, s, email, password) ==>
      eff.events == [Failed(email.value, now)] && eff.response == InvalidCredentials && eff.users == users
    ensures PasswordMatch(users, s, email, password) ==>
      eff.events == [Reset(email.value)] && eff.users == users && eff.response.Authenticated?
      && eff.response.message == "Login successful"
    // sign-up: one new user, the limiter untouched
    ensures UnknownEmail(users, s, email, password) ==>
      eff.events == [] && eff.response.Authenticated? && eff.response.message == "Sign up successful"
      && eff.users == users[email.value := NewUser(nextId, email.value, password.value, s)]
    // existing users are never changed, and the store keeps its invariant
    ensures forall e :: e in users ==> e in eff.users && eff.users[e] == users[e]
    ensures StoreValid(users, nextId) ==> StoreValid(eff.users, eff.nextId)
    ensures InputParses(s, email, password) && email.value in users ==> eff.nextId == nextId
    ensures UnknownEmail(users, s, email, password) ==> eff.nextId == nextId + 1
    // a success names the stored user by id and email only, with a token for that id
    ensures eff.response.Authenticated? ==>
      InputParses(s, email, password) && email.value in eff.users
      && eff.response.user == UserSummary(eff.users[email.value].id, eff.users[email.value].email)
      && eff.response.token == s.sign(eff.users[email.value].id)
  {
    if !InputParses(s, email, password) then AuthEffect(InvalidInput, users, nextId, [])
    else
      var e, p := email.value, password.value;
      if e in users then
        var user := users[e];
        if !s.compare(p, user.password) then AuthEffect(InvalidCredentials, users, nextId, [Failed(e, now)])
        else AuthEffect(Authenticated("Login successful", s.sign(user.id), UserSummary(user.id, user.email)),
                        users, nextId, [Reset(e)])
      else
        var user := NewUser(nextId, e, p, s);
        AuthEffect(Authenticated("Sign up successful", s.sign(user.id), UserSummary(user.id, user.email)),
                   users[e := user], nextId + 1, [])
  }

  /** After a successful login the limiter lets the email through at any time, whatever its record was. */
  lemma LoginClearsBlock(m: AttemptMap, users: UserStore, nextId: nat, s: Services,
                         email: Option<string>, password: Option<string>, now: int, later: int)
    requires PasswordMatch(users, s, email, password) && email.value != ""
    ensures CheckAttempts(ApplyAll(m, HandleAuthSpec(users, nextId, s, email, password, now).events), email, later)
            == Allowed(NoAttempts)
  {
  }

  /**
   When the comparison accepts every password against its own hash, a user who
   signs up with a password can then log in with it.
   */
  lemma SignUpThenLogIn(users: UserStore, nextId: nat, s: Services,
                        email: string, password: string, t1: int, t2: int)
    requires forall p :: s.compare(p, s.hash(p))
    requires UnknownEmail(users, s, Some(email), Some(password))
    ensures var signUp := HandleAuthSpec(users, nextId, s, Some(email), Some(password), t1);
      var logIn := HandleAuthSpec(signUp.users, signUp.nextId, s, Some(email), Some(password), t2);
      && signUp.response.Authenticated? && signUp.response.message == "Sign up successful"
      && logIn.response.Authenticated? && logIn.response.message == "Login successful"
      && logIn.response.user == signUp.response.user
      && logIn.users == signUp.users && logIn.events == [Reset(email)]
  {
    var signUp := HandleAuthSpec(users, nextId, s, Some(email), Some(password), t1);
    assert signUp.users[email] == NewUser(nextId, email, password, s);
    assert PasswordMatch(signUp.users, s, Some(email), Some(password));
  }

  /** The record `findByIdAndUpdate` writes: new username and location, email and password kept. */
  function UpdateRecord(u: User, username: string, lng: real, lat: real): (u': User)
    ensures u'.id == u.id && u'.email == u.email && u'.password == u.password
    ensures u'.username == username
    ensures |u'.coordinates| == 2 && u'.coordinates[0] == lng && u'.coordinates[1] == lat
  {
    u.(username := username, coordinates := [lng, lat])
  }

  /** `.select('-password')`: every field but the password hash. */
  function WithoutPassword(u: User): (r: PublicUser)
    ensures r.id == u.id && r.email == u.email && r.username == u.username && r.coordinates == u.coordinates
  {
    PublicUser(u.id, u.email, u.username, u.coordinates)
  }

  /** Updating one record in place keeps the store's invariant: ids and emails do not move. */
  lemma UpdateKeepsStoreValid(users: UserStore, nextId: nat, e: string, username: string, lng: real, lat: real)
    requires StoreValid(users, nextId) && e in users
    ensures StoreValid(users[e := UpdateRecord(users[e], username, lng, lat)], nextId)
  {
  }

  /** The handlers of the user routes, over the user collection and the shared limiter. */
  class Controller {
    var users: UserStore
    var nextId: nat
    const limiter: Limiter
    const services: Services

    ghost predicate Valid()
      reads this, limiter
    {
      limiter.Valid() && StoreValid(users, nextId)
    }

    constructor (limiter: Limiter, services: Services)
      requires limiter.Valid()
      ensures Valid()
      ensures this.limiter == limiter && this.services == services
      ensures users == map[] && nextId == 0
    {
      this.limiter := limiter;
      this.services := services;
      users := map[];
      nextId := 0;
    }

    /** POST /auth after the limiter: log in an existing user or sign up a new one. */
    method HandleAuth(email: Option<string>, password: Option<string>, now: int) returns (r: AuthResponse)
      requires Valid()
      modifies this, limiter
      ensures Valid()
      ensures var eff := HandleAuthSpec(old(users), old(nextId), services, email, password, now);
        && r == eff.response
        && users == eff.users && nextId == eff.nextId
        && limiter.history == old(limiter.history) + eff.events
        && limiter.failedLoginAttempts == ApplyAll(old(limiter.failedLoginAttempts), eff.events)
    {
      if !(email.Some? && password.Some? && services.authSchema(email.value, password.value)) {
        ReplayAppend(limiter.history, []);
        return InvalidInput;
      }
      var e, p := email.value, password.value;
      var message: string;
      var user: User;
      if e in users {
        user := users[e];
        var isMatch := services.compare(p, user.password);
        if !isMatch {
          limiter.RecordFailedLogin(e, now);
          ReplayAppend(old(limiter.history), [Failed(e, now)]);
          return InvalidCredentials;
        }
        limiter.ResetFailedLogin(e);
        ReplayAppend(old(limiter.history), [Reset(e)]);
        message := "Login successful";
      } else {
        user := NewUser(nextId, e, p, services);
        users := users[e := user];
        nextId := nextId + 1;
        ReplayAppend(limiter.history, []);
        message := "Sign up successful";
      }
      var token := services.sign(user.id);
      r := Authenticated(message, token, UserSummary(user.id, user.email));
    }

    /** PUT /update for the user `userId` named by the bearer token. */
    method UpdateProfile(userId: UserId, username: string, lng: real, lat: real) returns (r: Option<PublicUser>)
      requires Valid()
      modifies this
      ensures Valid()
      ensures nextId == old(nextId)
      ensures r.Some? <==> exists e :: e in old(users) && old(users)[e].id == userId
      ensures r.None? ==> users == old(users)
      ensures r.Some? ==>
        exists e :: e in old(users) && old(users)[e].id == userId
          && users == old(users)[e := UpdateRecord(old(users)[e], username, lng, lat)]
          && r.value == WithoutPassword(users[e])
    {
      if e :| e in users && users[e].id == userId {
        UpdateKeepsStoreValid(users, nextId, e, username, lng, lat);
        var updated := UpdateRecord(users[e], username, lng, lat);
        users := users[e := updated];
        r := Some(WithoutPassword(updated));
      } else {
        r := None;
      }
    }
  }
}
