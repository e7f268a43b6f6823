/**
 * The body of the subscriber thread: wait for events, drain the subscriber
 * after every successful wait, and stop when the keep-alive flag reads
 * false. The transport is a script of `Round`s, one per turn of the outer
 * loop; the caller's `receive` closure is `handler` (true for `Ok`).
 */
module SubscriberThread {
  import opened Wrappers
  import opened SubscriberHandles
  import opened Traits

  /** The event the publisher signals after sending. */
  const NotifyEvent: nat := 11
  /** The event a replacing subscriber signals. */
  const ReplaceEvent: nat := 13

  /** What one `timed_wait_all` gives: an error, or success after delivering these event ids to the callback. */
  datatype Wait = WaitFailed | Woken(events: seq<nat>)

  /** How draining the subscriber ends once the messages in `inbox` are taken. */
  datatype DrainEnd = Emptied | ReceiveFailed

  /**
   * One turn of the outer loop: whether the handle's owner cleared the flag
   * before it is read, the wait's outcome, and what `receive` then yields.
   */
  datatype Round<M> = Round(closedByOwner: bool, wait: Wait, inbox: seq<M>, drainEnd: DrainEnd)

  /** Why the loop ended; `ScriptEnded` means the script ran out while the thread still runs. */
  datatype Exit = ListenerFailed | Stopped | WaitEnded | ReceiveError | HandlerError | ScriptEnded

  /** The messages passed to `handler`, in order, and how the loop ended. */
  datatype Outcome<M> = Outcome(handled: seq<M>, exit: Exit)

  /** The handler returned an error for this message. */
  function Rejects<M>(handler: M -> bool): M -> bool {
    m => !handler(m)
  }

  /**
   * The inner `while let Some(message) = subscriber.receive()?` loop: the
   * messages handed to `handler` and the error that stopped it, if any.
   */
  function Drain<M>(inbox: seq<M>, handler: M -> bool, end: DrainEnd): (r: Outcome<M>)
    ensures r.exit in {Stopped, HandlerError, ReceiveError}
    ensures r.handled <= inbox
    ensures r.exit == HandlerError <==> exists k :: 0 <= k < |inbox| && !handler(inbox[k])
    ensures r.exit == HandlerError ==> r.handled != [] && !handler(r.handled[|r.handled| - 1])
    ensures forall k :: 0 <= k < |r.handled| - 1 ==> handler(r.handled[k])
    ensures r.exit != HandlerError ==> r.handled == inbox && forall k :: 0 <= k < |inbox| ==> handler(inbox[k])
    ensures r.exit != HandlerError ==> (r.exit == ReceiveError <==> end == ReceiveFailed)
  {
    var k := FirstWhere(inbox, Rejects(handler));
    if k < |inbox| then
      Outcome(inbox[..k + 1], HandlerError)
    else
      assert forall j :: 0 <= j < |inbox| ==> !Rejects(handler)(inbox[j]);
      Outcome(inbox, if end == ReceiveFailed then ReceiveError else Stopped)
  }

  /** The outer loop from a flag value on: what it hands to `handler` and why it ends. */
  function Run<M>(flag: bool, rounds: seq<Round<M>>, handler: M -> bool): Outcome<M>
    decreases |rounds|
  {
    if !flag then Outcome([], Stopped)
    else if rounds == [] then Outcome([], ScriptEnded)
    else
      var r := rounds[0];
      if r.closedByOwner then Outcome([], Stopped)
      else match r.wait
        case WaitFailed => Outcome([], WaitEnded)
        case Woken(events) =>
          var d := Drain(r.inbox, handler, r.drainEnd);
          if d.exit != Stopped then d
          else
            var rest := Run(ReplaceEvent !in events, rounds[1..], handler);
            Outcome(r.inbox + rest.handled, rest.exit)
  }

  /** The whole thread: create the listener, then run the loop. */
  function Thread<M>(listenerOk: bool, rounds: seq<Round<M>>, handler: M -> bool): Outcome<M> {
    if listenerOk then Run(true, rounds, handler) else Outcome([], ListenerFailed)
  }

  /** The `timed_wait_all` callback over the delivered events: a replace event clears the flag. */
  method OnEvents(keepAlive: KeepAlive, events: seq<nat>)
    modifies keepAlive
    ensures keepAlive.value == (old(keepAlive.value) && ReplaceEvent !in events)
    ensures keepAlive.held == old(keepAlive.held)
  {
    for i := 0 to |events|
      invariant keepAlive.value == (old(keepAlive.value) && ReplaceEvent !in events[..i])
      invariant keepAlive.held == old(keepAlive.held)
    {
      assert events[..i + 1] == events[..i] + [events[i]];
      if events[i] == ReplaceEvent {
        keepAlive.value := false;
      }
    }
    assert events[..|events|] == events;
  }

  /** The inner drain loop: hand each received message to `handler` until `receive` has none or an error occurs. */
  method DrainLoop<M>(inbox: seq<M>, handler: M -> bool, end: DrainEnd) returns (r: Outcome<M>)
    ensures r == Drain(inbox, handler, end)
  {
    var k := 0;
    while k < |inbox|
      invariant k <= |inbox|
      invariant forall j :: 0 <= j < k ==> handler(inbox[j])
    {
      if !handler(inbox[k]) {
        FirstWhereIs(inbox, Rejects(handler), k);
        return Outcome(inbox[..k + 1], HandlerError);
      }
      k := k + 1;
    }
    FirstWhereIs(inbox, Rejects(handler), |inbox|);
    if end == ReceiveFailed {
      return Outcome(inbox, ReceiveError);
    }
    return Outcome(inbox, Stopped);
  }

  /** The messages handed over before, followed by what the rest of the loop hands over. */
  function Joined<M>(before: seq<M>, rest: Outcome<M>): Outcome<M> {
    Outcome(before + rest.handled, rest.exit)
  }

  lemma JoinedAppend<M>(before: seq<M>, inbox: seq<M>, rest: Outcome<M>)
    ensures Joined(before, Outcome(inbox + rest.handled, rest.exit)) == Joined(before + inbox, rest)
  {
    assert before + (inbox + rest.handled) == before + inbox + rest.handled;
  }

  /** One round that woke without the owner closing the handle: drain, then go on with the flag the events leave. */
  lemma RunRound<M>(rounds: seq<Round<M>>, handler: M -> bool)
    requires rounds != [] && !rounds[0].closedByOwner && rounds[0].wait.Woken?
    ensures var d := Drain(rounds[0].inbox, handler, rounds[0].drainEnd);
            Run(true, rounds, handler) ==
            if d.exit != Stopped then d
            else Outcome(rounds[0].inbox + Run(ReplaceEvent !in rounds[0].wait.events, rounds[1..], handler).handled,
                         Run(ReplaceEvent !in rounds[0].wait.events, rounds[1..], handler).exit)
  {
  }

  /**
   * The spawned closure: run the receive loop, then store false in the flag
   * and drop the thread's strong reference, whichever way the loop ended.
   * `handle` is any handle on the same flag, such as the one returned to
   * the caller: it reads closed exactly once the thread has stopped.
   */
  method RunThread<M>(keepAlive: KeepAlive, ghost handle: SubscriberHandle, listenerOk: bool, rounds: seq<Round<M>>,
                      handler: M -> bool)
    returns (r: Outcome<M>)
    requires keepAlive.value && keepAlive.held && handle.keepAlive == keepAlive
    modifies keepAlive
    ensures r == Thread(listenerOk, rounds, handler)
    ensures r.exit != ScriptEnded ==> !keepAlive.value && !keepAlive.held
    ensures r.exit == ScriptEnded ==> keepAlive.value && keepAlive.held
    ensures handle.IsClosed() <==> r.exit != ScriptEnded
  {
    if !listenerOk {
      r := Outcome([], ListenerFailed);
    } else {
      var handled: seq<M> := [];
      var i := 0;
      while true
        invariant i <= |rounds| && keepAlive.held
        invariant Run(true, rounds, handler) == Joined(handled, Run(keepAlive.value, rounds[i..], handler))
        decreases |rounds| - i
      {
        if !keepAlive.value {
          r := Outcome(handled, Stopped);
          break;
        }
        if i == |rounds| {
          r := Outcome(handled, ScriptEnded);
          break;
        }
        var round := rounds[i];
        if round.closedByOwner {
          keepAlive.value := false;
          r := Outcome(handled, Stopped);
          break;
        }
        if round.wait.WaitFailed? {
          r := Outcome(handled, WaitEnded);
          break;
        }
        OnEvents(keepAlive, round.wait.events);
        var d := DrainLoop(round.inbox, handler, round.drainEnd);
        RunRound(rounds[i..], handler);
        if d.exit != Stopped {
          r := Outcome(handled + d.handled, d.exit);
          break;
        }
        JoinedAppend(handled, round.inbox, Run(keepAlive.value, rounds[i..][1..], handler));
        assert rounds[i..][1..] == rounds[i + 1..];
        handled := handled + round.inbox;
        i := i + 1;
      }
    }
    if r.exit != ScriptEnded {
      keepAlive.value := false;
      keepAlive.Release();
    }
  }

  /** All the messages the script's rounds deliver, in order. */
  function Inboxes<M>(rounds: seq<Round<M>>): seq<M>
    decreases |rounds|
  {
    if rounds == [] then [] else rounds[0].inbox + Inboxes(rounds[1..])
  }

  /** Messages reach the handler in the order they arrive, each once, with none skipped. */
  lemma {:induction false} HandledInOrder<M>(flag: bool, rounds: seq<Round<M>>, handler: M -> bool)
    ensures Run(flag, rounds, handler).handled <= Inboxes(rounds)
    decreases |rounds|
  {
    if flag && rounds != [] && !rounds[0].closedByOwner && rounds[0].wait.Woken? {
      var r := rounds[0];
      var d := Drain(r.inbox, handler, r.drainEnd);
      if d.exit == Stopped {
        HandledInOrder(ReplaceEvent !in r.wait.events, rounds[1..], handler);
      }
    }
  }

  /** Every message handed over was accepted, except the last when the handler failed. */
  predicate Accepted<M>(o: Outcome<M>, handler: M -> bool) {
    forall k :: 0 <= k < |o.handled| && (o.exit != HandlerError || k < |o.handled| - 1) ==> handler(o.handled[k])
  }

  /** The handler never sees a message after one it rejected. */
  lemma {:induction false} HandledAccepted<M>(flag: bool, rounds: seq<Round<M>>, handler: M -> bool)
    ensures Accepted(Run(flag, rounds, handler), handler)
    decreases |rounds|
  {
    if flag && rounds != [] && !rounds[0].closedByOwner && rounds[0].wait.Woken? {
      var r := rounds[0];
      var d := Drain(r.inbox, handler, r.drainEnd);
      if d.exit == Stopped {
        HandledAccepted(ReplaceEvent !in r.wait.events, rounds[1..], handler);
        var rest := Run(ReplaceEvent !in r.wait.events, rounds[1..], handler);
        assert Accepted(rest, handler);
        var all := Run(flag, rounds, handler).handled;
        assert all == r.inbox + rest.handled;
        forall k | 0 <= k < |all| && (rest.exit != HandlerError || k < |all| - 1)
          ensures handler(all[k])
        {
          if k >= |r.inbox| {
            assert all[k] == rest.handled[k - |r.inbox|];
            assert rest.exit != HandlerError || k - |r.inbox| < |rest.handled| - 1;
            assert handler(rest.handled[k - |r.inbox|]);
          } else {
            assert all[k] == r.inbox[k];
            assert handler(r.inbox[k]);
          }
        }
      }
    }
  }

  /**
   * A replace event clears the flag but the messages of that same round are
   * still drained; the loop then stops without waiting again.
   */
  lemma ReplaceStillDrains<M>(rounds: seq<Round<M>>, handler: M -> bool)
    requires rounds != [] && !rounds[0].closedByOwner
    requires rounds[0].wait.Woken? && ReplaceEvent in rounds[0].wait.events
    requires rounds[0].drainEnd == Emptied && forall k :: 0 <= k < |rounds[0].inbox| ==> handler(rounds[0].inbox[k])
    ensures Run(true, rounds, handler) == Outcome(rounds[0].inbox, Stopped)
  {
    var d := Drain(rounds[0].inbox, handler, rounds[0].drainEnd);
    assert d.exit == Stopped;
    assert rounds[0].inbox + [] == rounds[0].inbox;
  }

  /** Without a replace event, a failed wait or an owner's close, the loop keeps going round after round. */
  lemma {:induction false} QuietRoundsContinue<M>(rounds: seq<Round<M>>, handler: M -> bool)
    requires forall i :: 0 <= i < |rounds| ==> !rounds[i].closedByOwner && rounds[i].drainEnd == Emptied
    requires forall i :: 0 <= i < |rounds| ==> rounds[i].wait.Woken? && ReplaceEvent !in rounds[i].wait.events
    requires forall m :: m in Inboxes(rounds) ==> handler(m)
    ensures Run(true, rounds, handler) == Outcome(Inboxes(rounds), ScriptEnded)
    decreases |rounds|
  {
    if rounds != [] {
      assert forall m :: m in Inboxes(rounds[1..]) ==> m in Inboxes(rounds);
      assert forall k :: 0 <= k < |rounds[0].inbox| ==> rounds[0].inbox[k] in Inboxes(rounds);
      QuietRoundsContinue(rounds[1..], handler);
    }
  }
}
