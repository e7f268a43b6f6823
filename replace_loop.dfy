/**
 * The retry loop of `subscribe_only_` when the single subscriber slot is
 * taken: signal the current subscriber to step down, sleep a random time
 * below a doubling bound, and try again until the slot is free or the
 * deadline has passed.
 *
 * Times are whole microseconds. The random draw is a fraction
 * `draw / DrawScale` of the current bound; the clock reading after each
 * failed creation is part of the attempt.
 */
module ReplaceLoop {
  import opened IpcErrors

  /** `max_sleep` before the first doubling: 0.002 s. */
  const InitialBoundMicros: nat := 2000
  /** The cap on `max_sleep`: 0.1 s. */
  const BoundCapMicros: nat := 100000
  /** Resolution of the random draw in `0.0..=max_sleep`. */
  const DrawScale: nat := 1000

  type Draw = d: nat | d <= DrawScale

  /** What `subscriber_builder().create()` reports. */
  datatype CreateOutcome = Created | Occupied | CreateFailed

  /** One turn of the loop as the transport, the random source and the clock see it. */
  datatype Attempt = Attempt(notifyOk: bool, draw: Draw, waitOk: bool, create: CreateOutcome, now: nat)

  /** `Acquired`: the slot was taken at this turn; `ScriptEnded`: the attempts ran out with the loop still going. */
  datatype ReplaceOutcome = Acquired | Failed(error: Error) | ScriptEnded

  /** The outcome, the number of turns used, and the sleeps performed. */
  datatype Replaced = Replaced(outcome: ReplaceOutcome, used: nat, sleeps: seq<nat>)

  /** `max_sleep = 0.1.min(max_sleep * 2.0)`. */
  function Double(b: nat): nat {
    if 2 * b < BoundCapMicros then 2 * b else BoundCapMicros
  }

  /** `max_sleep` during turn `k`: doubled once more before each signal. */
  function Bound(k: nat): (b: nat)
    ensures b <= BoundCapMicros
  {
    if k == 0 then Double(InitialBoundMicros) else Double(Bound(k - 1))
  }

  function Pow2(k: nat): nat {
    if k == 0 then 1 else 2 * Pow2(k - 1)
  }

  /** The bound of turn `k` is 2 ms doubled k + 1 times, capped at 100 ms: 4, 8, 16, 32, 64, 100, 100, ... ms. */
  lemma {:induction false} BoundClosedForm(k: nat)
    ensures Bound(k) == if InitialBoundMicros * Pow2(k + 1) < BoundCapMicros then InitialBoundMicros * Pow2(k + 1) else BoundCapMicros
  {
    if k > 0 {
      BoundClosedForm(k - 1);
      assert Pow2(k + 1) == 2 * Pow2(k);
    }
  }

  /** The bound never shrinks, and from the sixth turn on it is the cap. */
  lemma {:induction false} BoundGrows(k: nat)
    ensures Bound(k) <= Bound(k + 1)
    ensures k >= 5 ==> Bound(k) == BoundCapMicros
  {
    if k >= 5 {
      if k == 5 {
        assert Bound(0) == 4000 && Bound(1) == 8000 && Bound(2) == 16000;
        assert Bound(3) == 32000 && Bound(4) == 64000;
      } else {
        BoundGrows(k - 1);
      }
    }
  }

  /** The sleep of one turn: `random_range(0.0..=max_sleep)`. */
  function SleepFor(bound: nat, draw: Draw): (s: nat)
    ensures s <= bound
  {
    bound * draw / DrawScale
  }

  /** The turn signalled, slept, found the slot still taken, and the deadline has not passed: go round again. */
  predicate Continues(a: Attempt, deadline: nat) {
    a.notifyOk && a.waitOk && a.create == Occupied && a.now <= deadline
  }

  /** The loop from turn `k` on. */
  function Loop(attempts: seq<Attempt>, k: nat, deadline: nat, timeout: nat): (r: Replaced)
    requires k <= |attempts|
    ensures k <= r.used <= |attempts|
    decreases |attempts| - k
  {
    if k == |attempts| then Replaced(ScriptEnded, k, [])
    else
      var a := attempts[k];
      if !a.notifyOk then Replaced(Failed(NotifierNotify), k + 1, [])
      else
        var s := SleepFor(Bound(k), a.draw);
        if !a.waitOk then Replaced(Failed(NodeWait), k + 1, [s])
        else match a.create
          case Created => Replaced(Acquired, k + 1, [s])
          case CreateFailed => Replaced(Failed(SubscriberCreate), k + 1, [s])
          case Occupied =>
            if a.now > deadline then Replaced(Failed(Timeout(timeout)), k + 1, [s])
            else
              var rest := Loop(attempts, k + 1, deadline, timeout);
              Replaced(rest.outcome, rest.used, [s] + rest.sleeps)
  }

  /** How the turn that ended the loop decides the outcome. */
  predicate EndsAs(outcome: ReplaceOutcome, last: Attempt, deadline: nat, timeout: nat) {
    match outcome
    case Acquired => last.notifyOk && last.waitOk && last.create == Created
    case ScriptEnded => false
    case Failed(e) =>
      if !last.notifyOk then e == NotifierNotify
      else if !last.waitOk then e == NodeWait
      else if last.create == CreateFailed then e == SubscriberCreate
      else last.create == Occupied && last.now > deadline && e == Timeout(timeout)
  }

  /** The turns of the loop: all but the last went round again, and the last decides the outcome. */
  lemma {:induction false} LoopTurns(attempts: seq<Attempt>, k: nat, deadline: nat, timeout: nat)
    requires k <= |attempts|
    ensures var r := Loop(attempts, k, deadline, timeout);
            && (forall j :: k <= j < r.used - 1 ==> Continues(attempts[j], deadline))
            && (r.outcome.ScriptEnded? <==> r.used == |attempts| && (r.used == k || Continues(attempts[r.used - 1], deadline)))
            && (!r.outcome.ScriptEnded? ==> r.used > k && EndsAs(r.outcome, attempts[r.used - 1], deadline, timeout))
    decreases |attempts| - k
  {
    if k < |attempts| && Continues(attempts[k], deadline) {
      LoopTurns(attempts, k + 1, deadline, timeout);
    }
  }

  /** The sleeps of the loop: one per turn that got past the notification, each a draw below that turn's bound. */
  lemma {:induction false} LoopSleeps(attempts: seq<Attempt>, k: nat, deadline: nat, timeout: nat)
    requires k <= |attempts|
    ensures var r := Loop(attempts, k, deadline, timeout);
            && |r.sleeps| == (if r.outcome == Failed(NotifierNotify) then r.used - k - 1 else r.used - k)
            && (forall i :: 0 <= i < |r.sleeps| ==> r.sleeps[i] == SleepFor(Bound(k + i), attempts[k + i].draw))
    decreases |attempts| - k
  {
    if k < |attempts| && Continues(attempts[k], deadline) {
      LoopSleeps(attempts, k + 1, deadline, timeout);
      var rest := Loop(attempts, k + 1, deadline, timeout);
      var r := Loop(attempts, k, deadline, timeout);
      assert r.sleeps == [SleepFor(Bound(k), attempts[k].draw)] + rest.sleeps;
      forall i | 0 <= i < |r.sleeps|
        ensures r.sleeps[i] == SleepFor(Bound(k + i), attempts[k + i].draw)
      {
        if i > 0 {
          assert r.sleeps[i] == rest.sleeps[i - 1];
        }
      }
    }
  }

  /**
   * Every turn before the last went round again; the last decides the
   * outcome (a free slot wins even past the deadline, the timeout needs
   * the slot still taken and the clock strictly past the deadline); the
   * attempts run out only while the loop keeps going; one sleep per turn
   * that got past the notification, each a draw below that turn's bound.
   */
  lemma LoopOutcome(attempts: seq<Attempt>, k: nat, deadline: nat, timeout: nat)
    requires k <= |attempts|
    ensures var r := Loop(attempts, k, deadline, timeout);
            && (forall j :: k <= j < r.used - 1 ==> Continues(attempts[j], deadline))
            && (r.outcome.ScriptEnded? <==> r.used == |attempts| && (r.used == k || Continues(attempts[r.used - 1], deadline)))
            && (!r.outcome.ScriptEnded? ==> r.used > k && EndsAs(r.outcome, attempts[r.used - 1], deadline, timeout))
            && |r.sleeps| == (if r.outcome == Failed(NotifierNotify) then r.used - k - 1 else r.used - k)
            && (forall i :: 0 <= i < |r.sleeps| ==> r.sleeps[i] == SleepFor(Bound(k + i), attempts[k + i].draw))
  {
    LoopTurns(attempts, k, deadline, timeout);
    LoopSleeps(attempts, k, deadline, timeout);
  }

  /** The sleeps already performed, followed by what the loop from some turn on does. */
  function After(sleeps: seq<nat>, rest: Replaced): Replaced {
    Replaced(rest.outcome, rest.used, sleeps + rest.sleeps)
  }

  /** A turn that ends the loop: its outcome with no sleeps of later turns. */
  lemma AfterLast(sleeps: seq<nat>, outcome: ReplaceOutcome, used: nat, last: seq<nat>)
    ensures After(sleeps, Replaced(outcome, used, last)) == Replaced(outcome, used, sleeps + last)
  {
  }

  /** Going round once more: the loop from turn `k` is that turn's sleep followed by the loop from `k + 1`. */
  lemma LoopContinues(attempts: seq<Attempt>, sleeps: seq<nat>, k: nat, deadline: nat, timeout: nat)
    requires k < |attempts| && Continues(attempts[k], deadline)
    ensures After(sleeps, Loop(attempts, k, deadline, timeout)) ==
            After(sleeps + [SleepFor(Bound(k), attempts[k].draw)], Loop(attempts, k + 1, deadline, timeout))
  {
    var rest := Loop(attempts, k + 1, deadline, timeout);
    assert sleeps + ([SleepFor(Bound(k), attempts[k].draw)] + rest.sleeps) ==
           sleeps + [SleepFor(Bound(k), attempts[k].draw)] + rest.sleeps;
  }

  /** The `loop` in `subscribe_only_`, from its first turn. */
  method AcquireByReplace(attempts: seq<Attempt>, deadline: nat, timeout: nat) returns (r: Replaced)
    ensures r == Loop(attempts, 0, deadline, timeout)
  {
    var maxSleep := InitialBoundMicros;
    var sleeps: seq<nat> := [];
    var k := 0;
    while true
      invariant k <= |attempts|
      invariant maxSleep == if k == 0 then InitialBoundMicros else Bound(k - 1)
      invariant Loop(attempts, 0, deadline, timeout) == After(sleeps, Loop(attempts, k, deadline, timeout))
      decreases |attempts| - k
    {
      if k == |attempts| {
        AfterLast(sleeps, ScriptEnded, k, []);
        assert sleeps + [] == sleeps;
        return Replaced(ScriptEnded, k, sleeps);
      }
      maxSleep := Double(maxSleep);
      var a := attempts[k];
      if !a.notifyOk {
        AfterLast(sleeps, Failed(NotifierNotify), k + 1, []);
        assert sleeps + [] == sleeps;
        return Replaced(Failed(NotifierNotify), k + 1, sleeps);
      }
      var s := SleepFor(maxSleep, a.draw);
      if !a.waitOk {
        AfterLast(sleeps, Failed(NodeWait), k + 1, [s]);
        return Replaced(Failed(NodeWait), k + 1, sleeps + [s]);
      }
      match a.create {
        case Created =>
          AfterLast(sleeps, Acquired, k + 1, [s]);
          return Replaced(Acquired, k + 1, sleeps + [s]);
        case CreateFailed =>
          AfterLast(sleeps, Failed(SubscriberCreate), k + 1, [s]);
          return Replaced(Failed(SubscriberCreate), k + 1, sleeps + [s]);
        case Occupied =>
          if a.now > deadline {
            AfterLast(sleeps, Failed(Timeout(timeout)), k + 1, [s]);
            return Replaced(Failed(Timeout(timeout)), k + 1, sleeps + [s]);
          }
      }
      LoopContinues(attempts, sleeps, k, deadline, timeout);
      sleeps := sleeps + [s];
      k := k + 1;
    }
  }

  /** Every sleep is below 100 ms, and below the bound of its turn. */
  lemma SleepsBounded(attempts: seq<Attempt>, deadline: nat, timeout: nat)
    ensures var r := Loop(attempts, 0, deadline, timeout);
            forall i :: 0 <= i < |r.sleeps| ==> r.sleeps[i] <= Bound(i) <= BoundCapMicros
  {
    LoopOutcome(attempts, 0, deadline, timeout);
  }

  /** A free slot is taken even when the deadline has already passed. */
  lemma CreatedWinsPastDeadline(attempts: seq<Attempt>, deadline: nat, timeout: nat)
    requires |attempts| > 0 && attempts[0].notifyOk && attempts[0].waitOk && attempts[0].create == Created
    ensures Loop(attempts, 0, deadline, timeout).outcome == Acquired
  {
  }
}
