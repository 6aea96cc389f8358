/** A value that may be absent, as a field of a JSON request body may be. */
module Optional {
  datatype Option<+T> = None | Some(value: T)
}

/**
 The in-memory guard against repeated failed logins, keyed by email.

 The process-wide dictionary of the middleware is the field of a `Limiter`
 object; the wall clock (`Date.now()`) is the explicit parameter `now`, in
 milliseconds.
 */
module LoginLimiter {
  import opened Optional

  /** Failures after which an email is blocked. */
  const MAX_ATTEMPTS: int := 2
  /** How long a block lasts after the most recent failure: five minutes, in milliseconds. */
  const BLOCK_TIME: int := 5 * 60 * 1000

  /** What is kept per email: the number of failures and the time of the last one. */
  datatype Attempts = Attempts(count: int, lastAttempt: int)

  /** The record assumed for an email with nothing stored, and the one a reset writes. */
  const NoAttempts := Attempts(0, 0)

  type AttemptMap = map<string, Attempts>

  /** What the middleware does with a login request. */
  datatype Verdict =
    | MissingEmail                 // 400 "Email is required"
    | Blocked                      // 429 "Too many failed login attempts. Try again later."
    | Allowed(attempts: Attempts)  // handed on to the controller with the request

  /** The two writes to the dictionary, as a history of what happened to it. */
  datatype Event = Failed(email: string, at: int) | Reset(email: string)

  /** JavaScript truthiness of the `email` field of the body: absent and "" are falsy. */
  predicate Present(email: Option<string>) {
    email.Some? && email.value != ""
  }

  /** The stored record, or the all-zero record when the email has none. */
  function Lookup(m: AttemptMap, email: string): Attempts {
    if email in m then m[email] else NoAttempts
  }

  /** The blocking rule: too many failures, the last of them within the block time. */
  predicate IsBlocked(a: Attempts, now: int) {
    a.count >= MAX_ATTEMPTS && now - a.lastAttempt < BLOCK_TIME
  }

  /** The decision of the middleware, as a function of the dictionary and the clock. */
  function CheckAttempts(m: AttemptMap, email: Option<string>, now: int): (v: Verdict)
    ensures v.MissingEmail? <==> !Present(email)
    ensures Present(email) ==>
      (v.Blocked? <==> Lookup(m, email.value).count >= 2 && now - Lookup(m, email.value).lastAttempt < 300000)
    ensures v.Allowed? ==> Present(email) && v.attempts == Lookup(m, email.value)
    ensures Present(email) && email.value !in m ==> v == Allowed(Attempts(0, 0))
  {
    if !Present(email) then MissingEmail
    else
      var attempts := Lookup(m, email.value);
      if IsBlocked(attempts, now) then Blocked else Allowed(attempts)
  }

  /** The dictionary after a failed login for `email` at time `now`. */
  function RecordFailure(m: AttemptMap, email: string, now: int): (m': AttemptMap)
    ensures m'.Keys == m.Keys + {email}
    ensures m'[email].count == Lookup(m, email).count + 1
    ensures m'[email].lastAttempt == now
    ensures forall e :: e in m && e != email ==> m'[e] == m[e]
  {
    m[email := Attempts(Lookup(m, email).count + 1, now)]
  }

  /** The dictionary after a successful login for `email`. */
  function ResetRecord(m: AttemptMap, email: string): (m': AttemptMap)
    ensures m'.Keys == m.Keys + {email}
    ensures m'[email] == NoAttempts
    ensures forall e :: e in m && e != email ==> m'[e] == m[e]
    ensures forall now :: !CheckAttempts(m', Some(email), now).Blocked?
    ensures email != "" ==> forall now :: CheckAttempts(m', Some(email), now) == Allowed(NoAttempts)
  {
    m[email := NoAttempts]
  }

  function Apply(m: AttemptMap, ev: Event): AttemptMap {
    match ev
    case Failed(email, at) => RecordFailure(m, email, at)
    case Reset(email) => ResetRecord(m, email)
  }

  /** The dictionary after a sequence of writes, applied in order. */
  function ApplyAll(m: AttemptMap, evs: seq<Event>): AttemptMap
    decreases |evs|
  {
    if evs == [] then m else Apply(ApplyAll(m, evs[..|evs| - 1]), evs[|evs| - 1])
  }

  /** The dictionary a process has after the writes `h`, starting from the empty one. */
  function Replay(h: seq<Event>): AttemptMap {
    ApplyAll(map[], h)
  }

  ghost predicate CountsNonNegative(m: AttemptMap) {
    forall e :: e in m ==> m[e].count >= 0
  }

  /** The indices in `h` of the failures of `email` that no later reset of `email` has wiped out. */
  ghost function FailuresSinceLastReset(h: seq<Event>, email: string): set<nat> {
    set i: nat | i < |h| && h[i].Failed? && h[i].email == email
                 && (forall j :: i < j < |h| ==> h[j] != Reset(email))
  }

  /** Applying writes in two batches is applying them in one. */
  lemma {:induction false} ApplyAllAppend(m: AttemptMap, a: seq<Event>, b: seq<Event>)
    ensures ApplyAll(m, a + b) == ApplyAll(ApplyAll(m, a), b)
    decreases |b|
  {
    if b == [] {
      assert a + b == a;
    } else {
      var b' := b[..|b| - 1];
      assert (a + b)[..|a + b| - 1] == a + b';
      assert (a + b)[|a + b| - 1] == b[|b| - 1];
      ApplyAllAppend(m, a, b');
    }
  }

  /** The dictionary after a history extended by `evs` is the old dictionary with `evs` applied. */
  lemma ReplayAppend(h: seq<Event>, evs: seq<Event>)
    ensures Replay(h + evs) == ApplyAll(Replay(h), evs)
  {
    ApplyAllAppend(map[], h, evs);
  }

  /** A batch of one write is that write. */
  lemma ApplyAllSingle(m: AttemptMap, ev: Event)
    ensures ApplyAll(m, [ev]) == Apply(m, ev)
  {
  }

  /** One more write to the history is one more write to the dictionary. */
  lemma ReplaySnoc(h: seq<Event>, ev: Event)
    ensures Replay(h + [ev]) == Apply(Replay(h), ev)
  {
  }

  /** Invariant: every stored count is a non-negative integer. */
  lemma {:induction false} ReplayCountsNonNegative(h: seq<Event>)
    ensures CountsNonNegative(Replay(h))
    decreases |h|
  {
    if h != [] {
      var p := h[..|h| - 1];
      assert h == p + [h[|h| - 1]];
      ReplayCountsNonNegative(p);
      ReplaySnoc(p, h[|h| - 1]);
    }
  }

  /** An event for another email leaves the surviving failures of `email` as they were. */
  lemma FailuresSinceOtherEvent(p: seq<Event>, ev: Event, email: string)
    requires ev.email != email
    ensures FailuresSinceLastReset(p + [ev], email) == FailuresSinceLastReset(p, email)
  {
    var h := p + [ev];
    forall i: nat | i < |p|
      ensures i in FailuresSinceLastReset(h, email) <==> i in FailuresSinceLastReset(p, email)
    {
      assert h[i] == p[i];
      assert (forall j :: i < j < |h| ==> h[j] != Reset(email))
         <==> (forall j :: i < j < |p| ==> p[j] != Reset(email)) by {
        assert h[|p|] == ev;
        assert forall j :: 0 <= j < |p| ==> h[j] == p[j];
      }
    }
  }

  /** A reset of `email` wipes out all its earlier failures. */
  lemma FailuresSinceResetEvent(p: seq<Event>, email: string)
    ensures FailuresSinceLastReset(p + [Reset(email)], email) == {}
  {
    var h := p + [Reset(email)];
    forall i: nat | i < |h|
      ensures i !in FailuresSinceLastReset(h, email)
    {
      if i < |p| { assert h[|p|] == Reset(email); }
    }
  }

  /** A failure of `email` adds its own index to the surviving failures. */
  lemma FailuresSinceFailedEvent(p: seq<Event>, email: string, t: int)
    ensures FailuresSinceLastReset(p + [Failed(email, t)], email) == FailuresSinceLastReset(p, email) + {|p|}
    ensures |p| !in FailuresSinceLastReset(p, email)
  {
    var h := p + [Failed(email, t)];
    forall i: nat | i < |p|
      ensures i in FailuresSinceLastReset(h, email) <==> i in FailuresSinceLastReset(p, email)
    {
      assert h[i] == p[i];
      assert (forall j :: i < j < |h| ==> h[j] != Reset(email))
         <==> (forall j :: i < j < |p| ==> p[j] != Reset(email)) by {
        assert h[|p|] == Failed(email, t);
        assert forall j :: 0 <= j < |p| ==> h[j] == p[j];
      }
    }
    assert |p| in FailuresSinceLastReset(h, email);
  }

  /**
   What a stored record means, in terms of the history of writes: the count is
   the number of failures since the last reset of that email, a zero count goes
   with a zero time, and otherwise the time is that of the most recent event for
   the email, which is a failure.
   */
  lemma {:induction false} ReplayRecordMeaning(h: seq<Event>, email: string)
    ensures Lookup(Replay(h), email).count == |FailuresSinceLastReset(h, email)|
    ensures Lookup(Replay(h), email).count == 0 ==> Lookup(Replay(h), email).lastAttempt == 0
    ensures Lookup(Replay(h), email).count > 0 ==>
      exists i :: 0 <= i < |h| && h[i] == Failed(email, Lookup(Replay(h), email).lastAttempt)
                  && forall j :: i < j < |h| ==> h[j].email != email
    decreases |h|
  {
    if h == [] {
      assert FailuresSinceLastReset(h, email) == {};
    } else {
      var p, ev := h[..|h| - 1], h[|h| - 1];
      assert h == p + [ev];
      ReplaySnoc(p, ev);
      ReplayRecordMeaning(p, email);
      var a := Lookup(Replay(h), email);
      if ev.email != email {
        FailuresSinceOtherEvent(p, ev, email);
        assert Lookup(Replay(p), email) == a;
        if a.count > 0 {
          var i :| 0 <= i < |p| && p[i] == Failed(email, a.lastAttempt)
                   && forall j :: i < j < |p| ==> p[j].email != email;
          assert h[i] == p[i];
          assert forall j :: i < j < |h| ==> h[j].email != email by {
            assert forall j :: i < j < |p| ==> h[j] == p[j];
          }
        }
      } else if ev.Reset? {
        FailuresSinceResetEvent(p, email);
      } else {
        FailuresSinceFailedEvent(p, email, ev.at);
        assert h[|p|] == Failed(email, a.lastAttempt);
      }
    }
  }

  /**
   Two failures in a row, the later at `t2`, block the email exactly while
   `now - t2 < BLOCK_TIME`: the window runs from the most recent failure.
   */
  lemma TwoFailuresBlockWithinWindow(m: AttemptMap, email: string, t1: int, t2: int, now: int)
    requires email != "" && CountsNonNegative(m)
    ensures var m' := RecordFailure(RecordFailure(m, email, t1), email, t2);
      CheckAttempts(m', Some(email), now) ==
        if now - t2 < BLOCK_TIME then Blocked else Allowed(Attempts(Lookup(m, email).count + 2, t2))
  {
  }

  /**
   A block lapses on its own: a record that blocks at some time allows every
   check from `lastAttempt + BLOCK_TIME` on, since the check writes nothing.
   */
  lemma BlockLapses(m: AttemptMap, email: string, now: int, later: int)
    requires CheckAttempts(m, Some(email), now).Blocked?
    requires later >= Lookup(m, email).lastAttempt + BLOCK_TIME
    ensures CheckAttempts(m, Some(email), later) == Allowed(Lookup(m, email))
  {
  }

  /**
   The count survives a lapsed block: one further failure after the window
   re-blocks at once, with a count of at least three.
   */
  lemma ReblockAfterLapse(m: AttemptMap, email: string, t: int, now: int)
    requires email != ""
    requires Lookup(m, email).count >= MAX_ATTEMPTS
    requires CheckAttempts(m, Some(email), t).Allowed?
    requires t <= now < t + BLOCK_TIME
    ensures Lookup(RecordFailure(m, email, t), email).count >= 3
    ensures CheckAttempts(RecordFailure(m, email, t), Some(email), now).Blocked?
  {
  }

  /**
   Starting from no record, a failure at `t` and another more than a block
   time later still combine: the check right after the second one blocks.
   */
  lemma SpacedFailuresStillBlock(m: AttemptMap, email: string, t: int)
    requires email != "" && Lookup(m, email) == NoAttempts
    ensures var t2 := t + BLOCK_TIME + 1;
      CheckAttempts(RecordFailure(RecordFailure(m, email, t), email, t2), Some(email), t2).Blocked?
  {
  }

  /** The in-memory dictionary of failed logins, shared by the middleware and the controller. */
  class Limiter {
    var failedLoginAttempts: AttemptMap
    ghost var history: seq<Event>

    ghost predicate Valid()
      reads this
    {
      && failedLoginAttempts == Replay(history)
      && CountsNonNegative(failedLoginAttempts)
    }

    constructor ()
      ensures Valid()
      ensures failedLoginAttempts == map[] && history == []
    {
      failedLoginAttempts := map[];
      history := [];
    }

    /** The middleware: reads the dictionary and writes nothing. */
    method Check(email: Option<string>, now: int) returns (v: Verdict)
      ensures v == CheckAttempts(failedLoginAttempts, email, now)
    {
      if email.None? || email.value == "" {
        return MissingEmail;
      }
      var attempts := if email.value in failedLoginAttempts then failedLoginAttempts[email.value] else NoAttempts;
      if attempts.count >= MAX_ATTEMPTS && now - attempts.lastAttempt < BLOCK_TIME {
        return Blocked;
      }
      return Allowed(attempts);
    }

    method RecordFailedLogin(email: string, now: int)
      requires Valid()
      modifies this
      ensures Valid()
      ensures failedLoginAttempts == RecordFailure(old(failedLoginAttempts), email, now)
      ensures history == old(history) + [Failed(email, now)]
    {
      var attempts := if email in failedLoginAttempts then failedLoginAttempts[email] else NoAttempts;
      failedLoginAttempts := failedLoginAttempts[email := Attempts(attempts.count + 1, now)];
      ReplaySnoc(history, Failed(email, now));
      history := history + [Failed(email, now)];
    }

    method ResetFailedLogin(email: string)
      requires Valid()
      modifies this
      ensures Valid()
      ensures failedLoginAttempts == ResetRecord(old(failedLoginAttempts), email)
      ensures history == old(history) + [Reset(email)]
    {
      failedLoginAttempts := failedLoginAttempts[email := NoAttempts];
      ReplaySnoc(history, Reset(email));
      history := history + [Reset(email)];
    }
  }
}
