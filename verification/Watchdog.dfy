/**
  The daemon's watchdog: one deadline of its own, any number of leases, and one timer for the earliest
  of them. Time is a logical clock. Every method is one critical section, a step of the clock or the
  timer, or an invocation of the expiry callback, which happens after the lock has been given up.
 */
module Watchdog {
  import opened Common

  type Id = string
  type Time = int

  const MILLISECOND: Time := 1_000_000

  datatype Lease = Lease(timeout: Time, deadline: Time)

  /** What the deadlines are, without the timer that watches them. */
  datatype State = State(now: Time, timeout: Time, active: bool, deadline: Time, leases: map<Id, Lease>)

  /** Some step of a run. */
  datatype Step =
    | Creates(timeout: Time) | Feeds | Leases(id: Id, timeout: Time) | FeedsLease(id: Id) | Releases(id: Id)
    | Stops | Passes(time: nat) | Expires | Fires | Invokes(i: nat)

  /** The leases whose deadline is in the future. */
  function Unexpired(leases: map<Id, Lease>, now: Time): map<Id, Lease> {
    map id | id in leases && leases[id].deadline > now :: leases[id]
  }

  /** What a step does to the deadlines. */
  function Apply(v: State, s: Step): State {
    match s
    case Creates(t) => v.(timeout := t, deadline := v.now + t, active := true)
    case Feeds => if v.active then v.(deadline := v.now + v.timeout) else v
    case Leases(id, t) => if t > 0 then v.(leases := v.leases[id := Lease(t, v.now + t)]) else v
    case FeedsLease(id) =>
      if id in v.leases
      then v.(leases := v.leases[id := Lease(v.leases[id].timeout, v.now + v.leases[id].timeout)])
      else v
    case Releases(id) => v.(leases := v.leases - {id})
    case Stops => v.(active := false)
    case Passes(time) => v.(now := v.now + time)
    case Expires =>
      var left := Unexpired(v.leases, v.now);
      v.(leases := left, active := v.active && (left != map[] || v.deadline > v.now))
    case Fires => v
    case Invokes(_) => v
  }

  function After(v: State, steps: seq<Step>): State {
    if steps == [] then v else Apply(After(v, steps[..|steps| - 1]), steps[|steps| - 1])
  }

  /** No lease and no active watchdog has a deadline in the future. */
  ghost predicate Quiet(v: State) {
    (v.active ==> v.deadline <= v.now) && forall id :: id in v.leases ==> v.leases[id].deadline <= v.now
  }

  // ----- decisions to expire, and what may come between them and the callback -----

  /** A decision to invoke the callback: the state it was made in, and how many steps had been logged then. */
  datatype Decision = Decision(seen: State, since: nat)

  /** An invocation of the callback: the state decided on, the steps taken since then, and the state it meets. */
  datatype Call = Call(seen: State, between: seq<Step>, met: State)

  /** The callback is decided on when no lease is left and no active watchdog has time left. */
  ghost predicate Sound(seen: State, persistent: bool) { Quiet(seen) && seen.leases == map[] && !persistent }

  /** A decision whose callback has not been invoked yet; it leaves the watchdog inactive. */
  ghost predicate Tracked(d: Decision, log: seq<Step>, v: State, persistent: bool) {
    Sound(d.seen, persistent) && d.since <= |log| && v == After(d.seen.(active := false), log[d.since..])
  }

  ghost predicate Answers(c: Call, persistent: bool) {
    Sound(c.seen, persistent) && c.met == After(c.seen.(active := false), c.between)
  }

  /** What has happened: steps that may change a deadline, decisions still to be carried out, invocations. */
  datatype Past = Past(log: seq<Step>, due: seq<Decision>, calls: seq<Call>) {
    ghost predicate Leads(v: State, persistent: bool) {
      && (forall i {:trigger due[i]} :: 0 <= i < |due| ==> Tracked(due[i], log, v, persistent))
      && (forall i {:trigger calls[i]} :: 0 <= i < |calls| ==> Answers(calls[i], persistent))
    }

    function Then(s: Step): Past { Past(log + [s], due, calls) }

    function Decided(seen: State): Past { Past(log, due + [Decision(seen, |log|)], calls) }

    function Invoked(i: nat, v: State): Past
      requires i < |due| && due[i].since <= |log|
    {
      Past(log, due[..i] + due[i + 1..], calls + [Call(due[i].seen, log[due[i].since..], v)])
    }

    lemma {:induction false} ThenLeads(v: State, persistent: bool, s: Step)
      requires Leads(v, persistent)
      ensures Then(s).Leads(Apply(v, s), persistent)
    {
      forall i | 0 <= i < |due|
        ensures Tracked(due[i], log + [s], Apply(v, s), persistent)
      {
        var n := due[i].since;
        assert Tracked(due[i], log, v, persistent);
        assert (log + [s])[n..] == log[n..] + [s];
        assert (log[n..] + [s])[..|log| - n] == log[n..];
      }
    }

    /** A critical section that leaves `v` may have decided on the callback, for `seen`. */
    lemma {:induction false} DecidedIf(seen: State, v: State, next: Past, persistent: bool)
      requires Leads(v, persistent)
      requires next == this || (next == Decided(seen) && Sound(seen, persistent) && v == seen.(active := false))
      ensures next.Leads(v, persistent)
    {
      assert next == Decided(seen) && v == seen.(active := false) && Sound(seen, persistent) ==>
          Tracked(Decision(seen, |log|), log, v, persistent);
    }

    lemma {:induction false} InvokedLeads(i: nat, v: State, persistent: bool)
      requires Leads(v, persistent) && i < |due|
      ensures due[i].since <= |log| && Invoked(i, v).Leads(v, persistent)
    {
      assert Tracked(due[i], log, v, persistent);
    }
  }

  /** All that a step may change, but for the time of the last operation. */
  datatype Moment = Moment(view: State, leasing: bool, armed: Option<Time>, firings: nat, past: Past)

  /** The expiry of the timer is acted on: nothing has time left, there was something to watch, the daemon may go. */
  predicate ExpiryDecides(a: Moment, persistent: bool) {
    && !persistent && (a.view.active || a.leasing) && (a.view.active ==> a.view.deadline <= a.view.now)
    && forall id :: id in a.view.leases ==> a.view.leases[id].deadline <= a.view.now
  }

  /** Releasing the lease is acted on: it was there, it was the last, nothing else is watched, the daemon may go. */
  predicate ReleaseDecides(a: Moment, id: Id, persistent: bool) {
    !persistent && !a.view.active && id in a.view.leases && a.view.leases.Keys == {id}
  }

  /** What one step does. */
  ghost predicate Moves(a: Moment, s: Step, b: Moment, persistent: bool) {
    match s
    case Fires =>
      b == if a.armed.Some? && a.armed.value <= a.view.now then a.(armed := None, firings := a.firings + 1) else a
    case Invokes(i) =>
      if i < |a.past.due| then a.past.due[i].since <= |a.past.log| && b == a.(past := a.past.Invoked(i, a.view))
      else b == a
    case Expires =>
      if a.firings == 0 then b == a
      else
        && b.view == Apply(a.view, s) && b.leasing == a.leasing && b.firings == a.firings - 1
        && b.past == if ExpiryDecides(a, persistent) then a.past.Then(s).Decided(a.view.(leases := map[]))
                     else a.past.Then(s)
    case Releases(id) =>
      && b.view == Apply(a.view, s) && b.leasing == a.leasing && b.firings == a.firings
      && b.past == if ReleaseDecides(a, id, persistent) then a.past.Then(s).Decided(b.view) else a.past.Then(s)
    case _ =>
      && b.view == Apply(a.view, s) && b.firings == a.firings && b.past == a.past.Then(s)
      && b.leasing == (a.leasing || (s.Leases? && s.timeout > 0))
  }

  predicate MakesLease(s: Step, id: Id) { s.Leases? && s.id == id && s.timeout > 0 }

  /** From an inactive watchdog without leases, only Create makes it active and only CreateLease makes a lease. */
  lemma {:induction false} LiveHasOrigin(v: State, steps: seq<Step>)
    requires v.leases == map[] && !v.active
    ensures After(v, steps).active ==> exists i :: 0 <= i < |steps| && steps[i].Creates?
    ensures forall id :: id in After(v, steps).leases ==> exists i :: 0 <= i < |steps| && MakesLease(steps[i], id)
  {
    if steps != [] {
      var n := |steps| - 1;
      var was, last := After(v, steps[..n]), steps[n];
      LiveHasOrigin(v, steps[..n]);
      forall id | id in Apply(was, last).leases
        ensures exists i :: 0 <= i < |steps| && MakesLease(steps[i], id)
      {
        if !MakesLease(last, id) {
          var i :| 0 <= i < n && MakesLease(steps[..n][i], id);
          assert MakesLease(steps[i], id);
        }
      }
      if Apply(was, last).active && !last.Creates? {
        var i :| 0 <= i < n && steps[..n][i].Creates?;
        assert steps[i].Creates?;
      }
    }
  }

  // ----- how long a deadline lasts, from the steps alone -----

  /** The time that has passed before step `n` since step `i`, or since it was last fed. */
  function Age(steps: seq<Step>, i: nat, n: nat, feed: Step): nat
    requires i < n <= |steps|
    decreases n
  {
    if n == i + 1 then 0
    else if steps[n - 1] == feed then 0
    else Age(steps, i, n - 1, feed) + if steps[n - 1].Passes? then steps[n - 1].time else 0
  }

  /** Step `k` ends the lease made by step `i`: it is released, made anew, or found expired. */
  predicate EndsLease(steps: seq<Step>, i: nat, k: nat)
    requires i < k < |steps| && steps[i].Leases?
  {
    || steps[k] == Releases(steps[i].id) || MakesLease(steps[k], steps[i].id)
    || (steps[k].Expires? && Age(steps, i, k, FeedsLease(steps[i].id)) >= steps[i].timeout)
  }

  /** Step `i` makes a lease, and no step before `n` ends it. */
  ghost predicate LeaseHeld(steps: seq<Step>, i: nat, n: nat) {
    && i < n <= |steps| && steps[i].Leases? && steps[i].timeout > 0
    && forall k {:trigger EndsLease(steps, i, k)} :: i < k < n ==> !EndsLease(steps, i, k)
  }

  /** ... and it has time left. */
  ghost predicate LeaseAhead(steps: seq<Step>, i: nat, n: nat) {
    LeaseHeld(steps, i, n) && Age(steps, i, n, FeedsLease(steps[i].id)) < steps[i].timeout
  }

  ghost predicate AnyLeaseAhead(steps: seq<Step>, n: nat) {
    exists j: nat :: LeaseAhead(steps, j, n)
  }

  /** Step `k` ends what Create did at step `i`: created anew, stopped, or found expired with no lease left. */
  ghost predicate EndsWatch(steps: seq<Step>, i: nat, k: nat)
    requires i < k < |steps| && steps[i].Creates?
  {
    || steps[k].Creates? || steps[k].Stops?
    || (steps[k].Expires? && Age(steps, i, k, Feeds) >= steps[i].timeout && !AnyLeaseAhead(steps, k))
  }

  ghost predicate WatchHeld(steps: seq<Step>, i: nat, n: nat) {
    && i < n <= |steps| && steps[i].Creates?
    && forall k {:trigger EndsWatch(steps, i, k)} :: i < k < n ==> !EndsWatch(steps, i, k)
  }

  ghost predicate WatchAhead(steps: seq<Step>, i: nat, n: nat) {
    WatchHeld(steps, i, n) && Age(steps, i, n, Feeds) < steps[i].timeout
  }

  lemma {:induction false} LeaseHeldNext(steps: seq<Step>, i: nat, n: nat)
    requires n < |steps| && i < n && steps[i].Leases?
    ensures LeaseHeld(steps, i, n + 1) <==> LeaseHeld(steps, i, n) && !EndsLease(steps, i, n)
  {
    assert LeaseHeld(steps, i, n + 1) ==> !EndsLease(steps, i, n);
  }

  lemma {:induction false} WatchHeldNext(steps: seq<Step>, i: nat, n: nat)
    requires n < |steps| && i < n && steps[i].Creates?
    ensures WatchHeld(steps, i, n + 1) <==> WatchHeld(steps, i, n) && !EndsWatch(steps, i, n)
  {
    assert WatchHeld(steps, i, n + 1) ==> !EndsWatch(steps, i, n);
  }

  /** The lease that step `i` made, as it is before step `n`. */
  function LeaseFrom(steps: seq<Step>, i: nat, n: nat, now: Time): Lease
    requires i < n <= |steps| && steps[i].Leases?
  {
    Lease(steps[i].timeout, now - Age(steps, i, n, FeedsLease(steps[i].id)) + steps[i].timeout)
  }

  /** A lease that is held is there, with the deadline its age gives it. */
  lemma {:induction false} HeldIsThere(v: State, steps: seq<Step>, i: nat, n: nat)
    requires LeaseHeld(steps, i, n)
    ensures var s := After(v, steps[..n]);
            steps[i].id in s.leases && s.leases[steps[i].id] == LeaseFrom(steps, i, n, s.now)
    decreases n
  {
    TakeNext(steps, n - 1);
    if i < n - 1 {
      LeaseHeldNext(steps, i, n - 1);
      HeldIsThere(v, steps, i, n - 1);
    }
  }

  /** A lease that is there was made by some step and is held since. */
  lemma {:induction false} ThereIsHeld(v: State, steps: seq<Step>, n: nat, id: Id) returns (i: nat)
    requires v.leases == map[] && n <= |steps| && id in After(v, steps[..n]).leases
    ensures LeaseHeld(steps, i, n) && steps[i].id == id
    decreases n
  {
    TakeNext(steps, n - 1);
    if MakesLease(steps[n - 1], id) {
      i := n - 1;
    } else {
      i := ThereIsHeld(v, steps, n - 1, id);
      HeldIsThere(v, steps, i, n - 1);
      LeaseHeldNext(steps, i, n - 1);
    }
  }

  /** Some lease has time left exactly when the state has one. */
  lemma {:induction false} LeasesAhead(v: State, steps: seq<Step>, n: nat)
    requires v.leases == map[] && n <= |steps|
    ensures var s := After(v, steps[..n]);
            AnyLeaseAhead(steps, n) <==> exists id :: id in s.leases && s.leases[id].deadline > s.now
  {
    var s := After(v, steps[..n]);
    if AnyLeaseAhead(steps, n) {
      var j: nat :| LeaseAhead(steps, j, n);
      HeldIsThere(v, steps, j, n);
    }
    if id :| id in s.leases && s.leases[id].deadline > s.now {
      var j := ThereIsHeld(v, steps, n, id);
      HeldIsThere(v, steps, j, n);
      assert LeaseAhead(steps, j, n);
    }
  }

  lemma {:induction false} UnexpiredLeft(leases: map<Id, Lease>, now: Time)
    ensures Unexpired(leases, now) != map[] <==> exists id :: id in leases && leases[id].deadline > now
  {
    if id :| id in leases && leases[id].deadline > now {
      assert id in Unexpired(leases, now);
    }
    if Unexpired(leases, now) != map[] {
      var id :| id in Unexpired(leases, now);
    }
  }

  lemma {:induction false} LastLease(leases: map<Id, Lease>, id: Id)
    requires id in leases
    ensures leases - {id} == map[] <==> leases.Keys == {id}
  {
    if leases - {id} == map[] {
      forall x | x in leases ensures x == id { assert x != id ==> x in leases - {id}; }
    }
  }

  lemma {:induction false} WatchIsActive(v: State, steps: seq<Step>, i: nat, n: nat)
    requires v.leases == map[] && WatchHeld(steps, i, n)
    ensures var s := After(v, steps[..n]);
            && s.active && s.timeout == steps[i].timeout
            && s.deadline == s.now - Age(steps, i, n, Feeds) + steps[i].timeout
    decreases n
  {
    TakeNext(steps, n - 1);
    if i < n - 1 {
      var s := After(v, steps[..n - 1]);
      WatchHeldNext(steps, i, n - 1);
      WatchIsActive(v, steps, i, n - 1);
      if steps[n - 1].Expires? {
        LeasesAhead(v, steps, n - 1);
        UnexpiredLeft(s.leases, s.now);
      }
    }
  }

  lemma {:induction false} ActiveIsWatched(v: State, steps: seq<Step>, n: nat) returns (i: nat)
    requires v.leases == map[] && !v.active && n <= |steps| && After(v, steps[..n]).active
    ensures WatchHeld(steps, i, n)
    decreases n
  {
    TakeNext(steps, n - 1);
    if steps[n - 1].Creates? {
      i := n - 1;
    } else {
      var s := After(v, steps[..n - 1]);
      i := ActiveIsWatched(v, steps, n - 1);
      WatchIsActive(v, steps, i, n - 1);
      LeasesAhead(v, steps, n - 1);
      UnexpiredLeft(s.leases, s.now);
      WatchHeldNext(steps, i, n - 1);
    }
  }

  /** A Create or a CreateLease among the steps set a deadline that has not run out, been ended or replaced since. */
  ghost predicate StillAhead(steps: seq<Step>, i: nat) {
    LeaseAhead(steps, i, |steps|) || WatchAhead(steps, i, |steps|)
  }

  /**
    After a decision, the callback meets a deadline that is still ahead exactly when a watchdog or a lease
    was created in between and, by the steps that followed, still has time left.
   */
  lemma {:induction false} DisturbedOnlyByCreation(seen: State, between: seq<Step>)
    requires seen.leases == map[]
    ensures !Quiet(After(seen.(active := false), between)) <==> exists i: nat :: StillAhead(between, i)
  {
    var v, n := seen.(active := false), |between|;
    var met := After(v, between);
    assert between[..n] == between;
    LeasesAhead(v, between, n);
    if met.active {
      var i := ActiveIsWatched(v, between, n);
      WatchIsActive(v, between, i, n);
      assert met.deadline > met.now ==> StillAhead(between, i);
    }
    if !Quiet(met) && !(met.active && met.deadline > met.now) {
      var id :| id in met.leases && met.leases[id].deadline > met.now;
      var j := ThereIsHeld(v, between, n, id);
      HeldIsThere(v, between, j, n);
      assert StillAhead(between, j);
    }
    if i: nat :| StillAhead(between, i) {
      if WatchAhead(between, i, n) {
        WatchIsActive(v, between, i, n);
      } else {
        assert AnyLeaseAhead(between, n);
      }
    }
  }

  /** So as long as nothing was created in between, the callback runs in quiet. */
  lemma {:induction false} QuietWithoutCreation(seen: State, between: seq<Step>)
    requires seen.leases == map[]
    requires forall i :: 0 <= i < |between| ==> !between[i].Creates? && !between[i].Leases?
    ensures Quiet(After(seen.(active := false), between))
  {
    DisturbedOnlyByCreation(seen, between);
    assert forall i: nat :: !StillAhead(between, i);
  }

  /** A lease made between the decision and the callback is alive when the callback runs. */
  lemma {:induction false} CallbackOverLiveLease(seen: State, id: Id, timeout: Time)
    requires seen.leases == map[] && timeout > 0
    ensures !Quiet(After(seen.(active := false), [Leases(id, timeout)]))
  {
    var v := seen.(active := false);
    assert [Leases(id, timeout)][..0] == [];
    assert After(v, [Leases(id, timeout)]) == v.(leases := v.leases[id := Lease(timeout, v.now + timeout)]);
  }

  // ----- the timer -----

  /**
    The timer goes off in time for every deadline; for passed ones, a millisecond after the last operation
    at the latest.
   */
  ghost predicate InTime(at: Time, v: State, lastOp: Time) {
    && (v.active ==> at <= Max(v.deadline, lastOp + MILLISECOND))
    && forall id :: id in v.leases ==> at <= Max(v.leases[id].deadline, lastOp + MILLISECOND)
  }

  /** Whatever deadline there is has a timer set in time, or one that went off and whose callback is on its way. */
  ghost predicate Covered(armed: Option<Time>, firings: nat, v: State, lastOp: Time) {
    if armed.None? then firings > 0 || (!v.active && v.leases == map[]) else InTime(armed.value, v, lastOp)
  }

  ghost predicate IsDeadline(d: Time, v: State) {
    (v.active && d == v.deadline) || exists id :: id in v.leases && v.leases[id].deadline == d
  }

  /** The timer is set for a deadline that exists, or a millisecond from now if that has passed. */
  ghost predicate SetFor(at: Time, v: State) {
    exists d {:trigger IsDeadline(d, v)} :: IsDeadline(d, v) && at == if d > v.now then d else v.now + MILLISECOND
  }

  class Controller {
    const persistent: bool
    var now: Time
    var timeout: Time
    var deadline: Time
    var active: bool
    var leases: map<Id, Lease>
    var leasing: bool        // the lease map has been made
    var hasTimer: bool
    var armed: Option<Time>  // when the timer will go off
    var firings: nat         // expiries of the timer whose callback has not run yet
    var past: Past           // includes the decisions whose onExpired has not been invoked yet
    ghost var lastOp: Time
    ghost var stopped: bool  // Stop has been called, and nothing has set the timer since

    constructor (persistent: bool)
      ensures Valid() && this.persistent == persistent && !stopped && past.Leads(View(), persistent)
      ensures View() == State(0, 0, false, 0, map[]) && past == Past([], [], [])
      ensures !leasing && !hasTimer && armed == None && firings == 0
    {
      this.persistent, now, timeout, deadline, active, leases, leasing := persistent, 0, 0, 0, false, map[], false;
      hasTimer, armed, firings, past, lastOp, stopped := false, None, 0, Past([], [], []), 0, false;
    }

    function View(): State
      reads this
    {
      State(now, timeout, active, deadline, leases)
    }

    function Current(): Moment
      reads this
    {
      Moment(View(), leasing, armed, firings, past)
    }

    ghost predicate Valid()
      reads this
    {
      && (!hasTimer ==> !active && leases == map[] && armed == None)
      && (leases != map[] ==> leasing) && lastOp <= now
      && (!stopped ==> Covered(armed, firings, View(), lastOp))
    }

    /** The earliest deadline, if there is any. */
    method Earliest() returns (next: Option<Time>)
      ensures active ==> next.Some? && next.value <= deadline
      ensures forall id :: id in leases ==> next.Some? && next.value <= leases[id].deadline
      ensures next.None? ==> !active && leases == map[]
      ensures next.Some? ==> IsDeadline(next.value, View())
    {
      next := if active then Some(deadline) else None;
      var left := leases.Keys;
      while left != {}
        invariant left <= leases.Keys
        invariant active ==> next.Some? && next.value <= deadline
        invariant next.Some? ==> IsDeadline(next.value, View())
        invariant forall id :: id in leases && id !in left ==> next.Some? && next.value <= leases[id].deadline
        decreases |left|
      {
        var id :| id in left;
        if next.None? || leases[id].deadline < next.value {
          next := Some(leases[id].deadline);
        }
        left := left - {id};
      }
      if next.None? { assert leases == map[]; }
    }

    /** resetTimerLocked */
    method ResetTimer()
      requires (leases != map[] ==> leasing) && (!hasTimer ==> armed == None)
      modifies this`hasTimer, this`armed, this`lastOp, this`stopped
      ensures Valid() && !stopped && lastOp == now && Covered(armed, 0, View(), lastOp)
      ensures armed.Some? ==> SetFor(armed.value, View())
    {
      var next := Earliest();
      lastOp, stopped := now, false;
      if next.None? {
        armed := None;
        return;
      }
      var delay := next.value - now;
      if delay <= 0 {
        delay := MILLISECOND;
      }
      hasTimer, armed := true, Some(now + delay);
    }

    method Create(timeout: Time)
      requires Valid()
      modifies this
      ensures Valid() && !stopped && View() == Apply(old(View()), Creates(timeout))
      ensures past == old(past).Then(Creates(timeout)) && firings == old(firings) && leasing == old(leasing)
    {
      this.timeout, deadline, active, past := timeout, now + timeout, true, past.Then(Creates(timeout));
      if !hasTimer {
        hasTimer, armed, lastOp, stopped := true, Some(now + timeout), now, false;
        return;
      }
      ResetTimer();
    }

    method Feed() returns (ok: bool)
      requires Valid()
      modifies this
      ensures Valid() && View() == Apply(old(View()), Feeds) && (ok <==> old(active))
      ensures past == old(past).Then(Feeds) && firings == old(firings) && leasing == old(leasing)
      ensures stopped ==> old(stopped) && !ok
    {
      past := past.Then(Feeds);
      if !active || !hasTimer {
        return false;
      }
      deadline := now + timeout;
      ResetTimer();
      ok := true;
    }

    method CreateLease(id: Id, timeout: Time) returns (ok: bool)
      requires Valid()
      modifies this
      ensures Valid() && View() == Apply(old(View()), Leases(id, timeout)) && (ok <==> timeout > 0)
      ensures past == old(past).Then(Leases(id, timeout)) && firings == old(firings) && leasing == (old(leasing) || ok)
      ensures stopped ==> old(stopped) && !ok
    {
      past := past.Then(Leases(id, timeout));
      if timeout <= 0 {
        return false;
      }
      leases, leasing := leases[id := Lease(timeout, now + timeout)], true;
      ResetTimer();
      ok := true;
    }

    method FeedLease(id: Id) returns (ok: bool)
      requires Valid()
      modifies this
      ensures Valid() && View() == Apply(old(View()), FeedsLease(id)) && (ok <==> id in old(leases))
      ensures past == old(past).Then(FeedsLease(id)) && firings == old(firings) && leasing == old(leasing)
      ensures stopped ==> old(stopped) && !ok
    {
      past := past.Then(FeedsLease(id));
      if id !in leases {
        return false;
      }
      leases := leases[id := Lease(leases[id].timeout, now + leases[id].timeout)];
      ResetTimer();
      ok := true;
    }

    /** The last lease of an inactive watchdog takes the daemon with it. */
    method ReleaseLease(id: Id) returns (ok: bool)
      requires Valid()
      modifies this
      ensures Valid() && View() == Apply(old(View()), Releases(id)) && (ok <==> id in old(leases))
      ensures (stopped ==> old(stopped)) && firings == old(firings) && leasing == old(leasing)
      ensures var past' := old(past).Then(Releases(id));
              past == if ok && leases == map[] && !active && !persistent then past'.Decided(View()) else past'
    {
      ok := id in leases;
      leases, past := leases - {id}, past.Then(Releases(id));
      if !ok {
        assert leases == old(leases);
        return;
      }
      if |leases| == 0 && !active {
        armed, lastOp := None, now;
        if !persistent {
          past := past.Decided(View());
        }
      } else {
        ResetTimer();
      }
    }

    method Stop()
      requires Valid()
      modifies this
      ensures Valid() && View() == Apply(old(View()), Stops) && armed == None
      ensures past == old(past).Then(Stops) && firings == old(firings) && leasing == old(leasing)
    {
      active, armed, stopped, past := false, None, true, past.Then(Stops);
    }

    /** Time passes. */
    method Advance(time: nat)
      requires Valid()
      modifies this`now, this`past
      ensures Valid() && View() == Apply(old(View()), Passes(time)) && past == old(past).Then(Passes(time))
    {
      now, past := now + time, past.Then(Passes(time));
    }

    /** The timer goes off; its callback still has to take the lock. */
    method Fire() returns (ok: bool)
      requires Valid()
      modifies this`armed, this`firings
      ensures Valid() && (ok <==> old(armed).Some? && old(armed).value <= now)
      ensures if ok then firings == old(firings) + 1 && armed == None else unchanged(this)
    {
      ok := armed.Some? && armed.value <= now;
      if ok {
        armed, firings := None, firings + 1;
      }
    }

    /** The leases that are left when those whose deadline is not in the future go. */
    method DropExpired() returns (left: map<Id, Lease>)
      ensures left == Unexpired(leases, now)
    {
      left := leases;
      var todo := leases.Keys;
      while todo != {}
        invariant todo <= leases.Keys
        invariant forall id :: id in left <==> id in leases && (id in todo || leases[id].deadline > now)
        invariant forall id :: id in left ==> left[id] == leases[id]
        decreases |todo|
      {
        var id :| id in todo;
        if left[id].deadline <= now {
          left := left - {id};
        }
        todo := todo - {id};
      }
    }

    /** expire, up to the unlock: a firing, possibly of a timer that was stopped or set anew in the meantime. */
    method Expire() returns (decided: bool)
      requires Valid() && firings > 0
      modifies this
      ensures Valid() && View() == Apply(old(View()), Expires) && (stopped ==> old(stopped))
      ensures firings == old(firings) - 1 && leasing == old(leasing)
      ensures decided <==> !persistent && leases == map[] && (old(active) ==> old(deadline) <= now)
                           && (old(active) || old(leasing))
      ensures var past', seen := old(past).Then(Expires), old(View()).(leases := map[]);
              past == if decided then past'.Decided(seen) else past'
    {
      var left := DropExpired();
      leases, firings, past := left, firings - 1, past.Then(Expires);
      if leases != map[] || (active && deadline > now) {
        ResetTimer();
        return false;
      }
      decided := (active || leasing) && !persistent;
      if decided {
        past := past.Decided(View());
      }
      active := false;
    }

    /** onExpired is invoked for one of the decisions made, outside of the lock. */
    method Invoke(i: nat)
      requires Valid() && i < |past.due| && past.due[i].since <= |past.log|
      modifies this`past
      ensures Valid() && past == old(past).Invoked(i, View())
    {
      past := past.Invoked(i, View());
    }

    /** Any one step, if it can be taken. */
    method Take(s: Step)
      requires Valid() && past.Leads(View(), persistent)
      modifies this
      ensures Valid() && past.Leads(View(), persistent) && (stopped ==> old(stopped) || s == Stops)
      ensures Moves(old(Current()), s, Current(), persistent)
    {
      past.ThenLeads(View(), persistent, s);
      var b := true;
      match s
      case Creates(t) => Create(t);
      case Feeds => b := Feed();
      case Leases(id, t) => b := CreateLease(id, t);
      case FeedsLease(id) => b := FeedLease(id);
      case Releases(id) =>
        if id in leases { LastLease(leases, id); }
        b := ReleaseLease(id);
        old(past).Then(s).DecidedIf(View(), View(), past, persistent);
      case Stops => Stop();
      case Passes(time) => Advance(time);
      case Fires => b := Fire();
      case Expires =>
        if firings > 0 {
          UnexpiredLeft(leases, now);
          b := Expire();
          old(past).Then(s).DecidedIf(old(View()).(leases := map[]), View(), past, persistent);
        }
      case Invokes(k) =>
        if k < |past.due| {
          past.InvokedLeads(k, View(), persistent);
          Invoke(k);
        }
    }

    /**
      Any run, step by step. The timer is set in time, or a firing is on its way, unless Stop has been called. Every
      invocation of the callback was decided on in quiet, never for a persistent watchdog, and meets a
      deadline ahead only when a watchdog or a lease was created after the decision.
     */
    method Run(steps: seq<Step>) returns (ghost trace: seq<Moment>)
      requires Valid() && past.Leads(View(), persistent)
      modifies this
      ensures |trace| == |steps| + 1 && trace[0] == old(Current()) && trace[|steps|] == Current()
      ensures forall i {:trigger steps[i]} :: 0 <= i < |steps| ==> Moves(trace[i], steps[i], trace[i + 1], persistent)
      ensures Valid() && (!old(stopped) && Stops !in steps ==> Covered(armed, firings, View(), lastOp))
      ensures past.Leads(View(), persistent)
      ensures forall c :: c in past.calls ==>
                && Sound(c.seen, persistent)
                && (!Quiet(c.met) <==> exists i: nat :: StillAhead(c.between, i))
    {
      trace := [Current()];
      for i := 0 to |steps|
        invariant Valid() && (stopped ==> old(stopped) || Stops in steps[..i]) && past.Leads(View(), persistent)
        invariant |trace| == i + 1 && trace[0] == old(Current()) && trace[i] == Current()
        invariant forall k {:trigger steps[k]} :: 0 <= k < i ==> Moves(trace[k], steps[k], trace[k + 1], persistent)
      {
        TakeNext(steps, i);
        Take(steps[i]);
        trace := trace + [Current()];
      }
      assert steps[..|steps|] == steps;
      forall c | c in past.calls
        ensures Sound(c.seen, persistent)
        ensures !Quiet(c.met) <==> exists i: nat :: StillAhead(c.between, i)
      {
        assert Answers(c, persistent);
        DisturbedOnlyByCreation(c.seen, c.between);
      }
    }
  }

  /** A run from the start in which the callback is invoked while a lease has time left. */
  method ExpireOverLease() returns (w: Controller)
    ensures w.Valid() && |w.past.calls| == 1 && !Quiet(w.past.calls[0].met)
  {
    w := new Controller(false);
    var ok := w.CreateLease("first", 5);
    w.Advance(MILLISECOND);
    ok := w.Fire();
    ok := w.Expire();
    assert Unexpired(map["first" := Lease(5, 5)], MILLISECOND) == map[];
    ok := w.CreateLease("second", 10);
    assert "second" in w.leases && w.leases["second"].deadline > w.now;
    w.Invoke(0);
  }
}
