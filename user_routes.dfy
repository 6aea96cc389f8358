/**
 POST /auth: the login limiter runs first, and only a request it lets through
 reaches the authenticate-or-register handler.
 */
module UserRoutes {
  import opened Optional
  import opened LoginLimiter
  import opened UserController

  datatype RouteResponse =
    | EmailRequired              // 400 from the limiter
    | TooManyAttempts            // 429 from the limiter
    | Handled(auth: AuthResponse)
  {
    function Status(): int {
      match this
      case EmailRequired => 400
      case TooManyAttempts => 429
      case Handled(auth) => auth.Status()
    }
  }

  /** Everything one request does: the response, the new store, and the writes to the limiter. */
  datatype RouteEffect = RouteEffect(response: RouteResponse, users: UserStore, nextId: nat, events: seq<Event>)

  /** The route, as a function of the limiter's dictionary, the store and the request. */
  function PostAuthSpec(m: AttemptMap, users: UserStore, nextId: nat, s: Services,
                        email: Option<string>, password: Option<string>, now: int): (eff: RouteEffect)
    // a request the limiter stops reaches neither the store nor the limiter's dictionary
    ensures !eff.response.Handled? ==> eff.users == users && eff.nextId == nextId && eff.events == []
    ensures eff.response == EmailRequired <==> !Present(email)
    ensures eff.response == TooManyAttempts <==> Present(email) && IsBlocked(Lookup(m, email.value), now)
    ensures eff.response.Status() == 429 <==> Present(email) && IsBlocked(Lookup(m, email.value), now)
    // a request it lets through is exactly one call of the handler
    ensures eff.response.Handled? ==>
      var a := HandleAuthSpec(users, nextId, s, email, password, now);
      eff == RouteEffect(Handled(a.response), a.users, a.nextId, a.events)
    // while blocked, the block cannot be extended: no failure is recorded
    ensures CheckAttempts(m, email, now).Blocked? ==> ApplyAll(m, eff.events) == m
  {
    match CheckAttempts(m, email, now)
    case MissingEmail => RouteEffect(EmailRequired, users, nextId, [])
    case Blocked => RouteEffect(TooManyAttempts, users, nextId, [])
    case Allowed(_) =>
      var a := HandleAuthSpec(users, nextId, s, email, password, now);
      RouteEffect(Handled(a.response), a.users, a.nextId, a.events)
  }

  /**
   A known email that gets its password wrong twice, starting with no failures
   on record, is turned away with 429 for every request in the five minutes
   after the second failure, whatever password it sends, and let through again
   from then on.
   */
  lemma TwoWrongPasswordsThenBlocked(m: AttemptMap, users: UserStore, nextId: nat, s: Services,
                                     email: string, wrong: string, t1: int, t2: int)
    requires PasswordMismatch(users, s, Some(email), Some(wrong)) && email != ""
    requires Lookup(m, email).count == 0
    ensures var first := PostAuthSpec(m, users, nextId, s, Some(email), Some(wrong), t1);
      var m1 := ApplyAll(m, first.events);
      var second := PostAuthSpec(m1, users, nextId, s, Some(email), Some(wrong), t2);
      var m2 := ApplyAll(m1, second.events);
      && first.response == Handled(InvalidCredentials)
      && second.response == Handled(InvalidCredentials)
      && (forall now, password :: now - t2 < BLOCK_TIME ==>
            PostAuthSpec(m2, users, nextId, s, Some(email), password, now).response == TooManyAttempts)
      && (forall now, password :: now - t2 >= BLOCK_TIME ==>
            PostAuthSpec(m2, users, nextId, s, Some(email), password, now).response.Handled?)
  {
    var first := PostAuthSpec(m, users, nextId, s, Some(email), Some(wrong), t1);
    assert first.events == [Failed(email, t1)];
    ApplyAllSingle(m, Failed(email, t1));
    var m1 := ApplyAll(m, first.events);
    assert Lookup(m1, email) == Attempts(1, t1);
    var second := PostAuthSpec(m1, users, nextId, s, Some(email), Some(wrong), t2);
    assert second.events == [Failed(email, t2)];
    ApplyAllSingle(m1, Failed(email, t2));
    var m2 := ApplyAll(m1, second.events);
    assert Lookup(m2, email) == Attempts(2, t2);
  }

  /** The route handler: the limiter's check, then the controller. */
  method PostAuth(c: Controller, email: Option<string>, password: Option<string>, now: int) returns (r: RouteResponse)
    requires c.Valid()
    modifies c, c.limiter
    ensures c.Valid()
    ensures var eff := PostAuthSpec(old(c.limiter.failedLoginAttempts), old(c.users), old(c.nextId),
                                    c.services, email, password, now);
      && r == eff.response
      && c.users == eff.users && c.nextId == eff.nextId
      && c.limiter.history == old(c.limiter.history) + eff.events
      && c.limiter.failedLoginAttempts == ApplyAll(old(c.limiter.failedLoginAttempts), eff.events)
  {
    var verdict := c.limiter.Check(email, now);
    match verdict
    case MissingEmail =>
      r := EmailRequired;
    case Blocked =>
      r := TooManyAttempts;
    case Allowed(_) =>
      var a := c.HandleAuth(email, password, now);
      r := Handled(a);
  }
}
