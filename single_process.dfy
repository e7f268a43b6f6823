/**
 * The entry points `single_process_` and `subscribe_only_`: validate the
 * names, build the node and the two services, then either become the one
 * subscriber, or (when the slot is taken) publish the input, or ask the
 * current subscriber to step down and take its place.
 *
 * Every transport call's success is a field of `SetupOracle`; the thread
 * spawn is `spawnOk`.
 */
module SingleProcess {
  import opened Wrappers
  import opened IpcErrors
  import opened SubscriberHandles
  import opened Publish
  import opened ReplaceLoop

  /** What the transport reports while `single_process_` or `subscribe_only_` sets up, in call order. */
  datatype SetupOracle = SetupOracle(
    nodeNameOk: bool,
    serviceNameOk: bool,
    nodeOk: bool,
    firstServiceOk: bool,
    sweepOk: bool,
    secondServiceOk: bool,
    eventServiceOk: bool,
    subscriber: CreateOutcome)

  /** What `build_service` did: its result, how many times it opened the service, and whether the dead-node sweep ran. */
  datatype ServiceBuild = ServiceBuild(result: Result<(), Error>, opens: nat, swept: bool)

  /** `build_service`: open or create; on failure sweep dead nodes' stale resources and try exactly once more. */
  function BuildService(firstOk: bool, sweepOk: bool, secondOk: bool): (r: ServiceBuild)
    ensures r.result.Ok? <==> firstOk || secondOk
    ensures r.result.Err? ==> r.result.error == ServiceOpenOrCreate
    ensures r.swept <==> !firstOk
    ensures r.opens == (if r.swept then 2 else 1)
  {
    if firstOk then ServiceBuild(Ok(()), 1, false)
    else ServiceBuild(if secondOk then Ok(()) else Err(ServiceOpenOrCreate), 2, true)
  }

  /** A failing sweep is only logged: it never changes what `build_service` returns. */
  lemma SweepFailureSwallowed(firstOk: bool, secondOk: bool)
    ensures BuildService(firstOk, false, secondOk) == BuildService(firstOk, true, secondOk)
    ensures BuildService(firstOk, false, secondOk).result.Ok? <==> firstOk || secondOk
  {
  }

  /** The first setup step that fails, in the order the entry points take them; `None` when all succeed. */
  function SetupError(o: SetupOracle): (r: Option<Error>)
    ensures r == Some(InvalidNodeName) <==> !o.nodeNameOk
    ensures r == Some(InvalidServiceName) <==> o.nodeNameOk && !o.serviceNameOk
    ensures r == Some(NodeCreation) <==> o.nodeNameOk && o.serviceNameOk && !o.nodeOk
    ensures r == Some(ServiceOpenOrCreate) <==> o.nodeNameOk && o.serviceNameOk && o.nodeOk && !o.firstServiceOk && !o.secondServiceOk
    ensures r == Some(EventOpenOrCreate) <==>
              o.nodeNameOk && o.serviceNameOk && o.nodeOk && (o.firstServiceOk || o.secondServiceOk) && !o.eventServiceOk
    ensures r.None? <==> o.nodeNameOk && o.serviceNameOk && o.nodeOk && (o.firstServiceOk || o.secondServiceOk) && o.eventServiceOk
  {
    if !o.nodeNameOk then Some(InvalidNodeName)
    else if !o.serviceNameOk then Some(InvalidServiceName)
    else if !o.nodeOk then Some(NodeCreation)
    else
      var service := BuildService(o.firstServiceOk, o.sweepOk, o.secondServiceOk);
      if service.result.Err? then Some(service.result.error)
      else if !o.eventServiceOk then Some(EventOpenOrCreate)
      else None
  }

  /** `ControlFlow<(), SubscriberHandle>`. */
  datatype ControlFlow = Continue(handle: SubscriberHandle) | Break

  /** `ControlFlow` with the handle left abstract: this process subscribes, or it published and is done. */
  datatype Flow = Subscribing | Delivered

  /** What `single_process_` decides and, when it published, what `publish_input` did. */
  datatype Dispatched<M> = Dispatched(result: Result<Flow, Error>, publish: Option<Published<M>>)

  /** The `single_process_` dispatch on what the setup and the first subscriber creation reported. */
  function SingleProcessDispatch<M>(o: SetupOracle, spawnOk: bool, p: PublishOracle<M>): (r: Dispatched<M>)
    ensures r.publish.Some? <==> SetupError(o).None? && o.subscriber == Occupied
    ensures r.publish.Some? ==> r.publish.value == PublishInput(p)
    ensures r.result == Ok(Subscribing) <==> SetupError(o).None? && o.subscriber == Created && spawnOk
    ensures r.result == Ok(Delivered) <==> r.publish.Some? && PublishInput(p).result.Ok?
    ensures SetupError(o).Some? ==> r.result == Err(SetupError(o).value)
    ensures SetupError(o).None? && o.subscriber == Created && !spawnOk ==> r.result == Err(Spawn)
    ensures SetupError(o).None? && o.subscriber == CreateFailed ==> r.result == Err(SubscriberCreate)
    ensures r.result.Err? && r.publish.Some? ==> r.publish.value.sent.None? && r.result.error == r.publish.value.result.error
  {
    match SetupError(o)
    case Some(e) => Dispatched(Err(e), None)
    case None =>
      match o.subscriber
      case Created => Dispatched(if spawnOk then Ok(Subscribing) else Err(Spawn), None)
      case Occupied =>
        var published := PublishInput(p);
        Dispatched(if published.result.Ok? then Ok(Delivered) else Err(published.result.error), Some(published))
      case CreateFailed => Dispatched(Err(SubscriberCreate), None)
  }

  /** The input is asked for only when another process holds the slot, and then only after every setup step succeeded. */
  lemma InputOnlyWhenOccupied<M>(o: SetupOracle, spawnOk: bool, p: PublishOracle<M>)
    ensures CallInput in (match SingleProcessDispatch(o, spawnOk, p).publish
                          case None => []
                          case Some(pub) => pub.steps)
            <==> SetupError(o).None? && o.subscriber == Occupied && p.publisherOk && p.notifierOk && p.loanOk
  {
  }

  /**
   * `create_subscriber_thread`: take a new handle, then spawn the thread
   * that owns the strong flag. When the spawn fails the closure and the
   * handle are dropped, so only the error is returned; the id is used up
   * either way.
   */
  method CreateSubscriberThread(counter: IdCounter, spawnOk: bool) returns (r: Result<SubscriberHandle, Error>, thread: Option<KeepAlive>)
    modifies counter
    ensures counter.next == (old(counter.next) + 1) % U64Modulus
    ensures r.Ok? <==> spawnOk
    ensures r.Err? ==> r.error == Spawn && thread.None?
    ensures r.Ok? ==> thread == Some(r.value.keepAlive) && fresh(r.value.keepAlive)
    ensures r.Ok? ==> r.value.subscriberId == old(counter.next) && !r.value.IsClosed()
  {
    var handle, strong := counter.NewHandle();
    if spawnOk {
      r := Ok(handle);
      thread := Some(strong);
    } else {
      r := Err(Spawn);
      thread := None;
    }
  }

  /** `single_process_`, with the handle taken from `counter`. */
  method SingleProcessEntry<M>(counter: IdCounter, o: SetupOracle, spawnOk: bool, p: PublishOracle<M>)
    returns (r: Result<ControlFlow, Error>, publish: Option<Published<M>>)
    modifies counter
    ensures var d := SingleProcessDispatch(o, spawnOk, p);
            && publish == d.publish
            && (r.Err? <==> d.result.Err?)
            && (r.Err? ==> r.error == d.result.error)
            && (r == Ok(Break) <==> d.result == Ok(Delivered))
    ensures r.Ok? && r.value.Continue? ==>
              r.value.handle.subscriberId == old(counter.next) && fresh(r.value.handle.keepAlive) && !r.value.handle.IsClosed()
    ensures counter.next == if SetupError(o).None? && o.subscriber == Created then (old(counter.next) + 1) % U64Modulus else old(counter.next)
  {
    publish := None;
    var setup := SetupError(o);
    if setup.Some? {
      return Err(setup.value), None;
    }
    match o.subscriber {
      case Created =>
        var created, _ := CreateSubscriberThread(counter, spawnOk);
        if created.Ok? {
          r := Ok(Continue(created.value));
        } else {
          r := Err(created.error);
        }
      case Occupied =>
        var published := PublishInput(p);
        publish := Some(published);
        if published.result.Err? {
          r := Err(published.result.error);
        } else {
          r := Ok(Break);
        }
      case CreateFailed =>
        r := Err(SubscriberCreate);
    }
  }

  /**
   * How the replace turn `u` that ended the loop decides the result: a free
   * slot starts the thread after `u + 1` turns (or fails to spawn it), a
   * failed turn passes its error on.
   */
  predicate ReplaceResult(v: Result<nat, Error>, u: nat, last: Attempt, spawnOk: bool, deadline: nat, timeout: nat) {
    match v
    case Ok(n) => spawnOk && n == u + 1 && EndsAs(Acquired, last, deadline, timeout)
    case Err(e) => (!spawnOk && e == Spawn && EndsAs(Acquired, last, deadline, timeout)) || EndsAs(Failed(e), last, deadline, timeout)
  }

  /**
   * What `subscribe_only_` ends with: `Some(Ok(n))` when a subscriber
   * thread started after `n` replace turns, `Some(Err(e))` on failure, and
   * `None` when the attempts ran out with the replace loop still going.
   * The deadline is `start + timeout` on the same clock as the attempts.
   */
  function SubscribeOnly(o: SetupOracle, spawnOk: bool, notifierOk: bool, start: nat, timeout: nat, attempts: seq<Attempt>)
    : (r: Option<Result<nat, Error>>)
    ensures SetupError(o).Some? ==> r == Some(Err(SetupError(o).value))
    ensures SetupError(o).None? && o.subscriber == Created ==> r == Some(if spawnOk then Ok(0) else Err(Spawn))
    ensures SetupError(o).None? && o.subscriber == CreateFailed ==> r == Some(Err(SubscriberCreate))
    ensures SetupError(o).None? && o.subscriber == Occupied && !notifierOk ==> r == Some(Err(NotifierCreate))
    ensures r.None? ==> SetupError(o).None? && o.subscriber == Occupied && notifierOk
    ensures SetupError(o).None? && o.subscriber == Occupied && notifierOk ==>
              (r.None? <==> forall j :: 0 <= j < |attempts| ==> Continues(attempts[j], start + timeout))
    ensures SetupError(o).None? && o.subscriber == Occupied && notifierOk && r.Some? ==>
              exists u :: 0 <= u < |attempts| && (forall j :: 0 <= j < u ==> Continues(attempts[j], start + timeout))
                          && ReplaceResult(r.value, u, attempts[u], spawnOk, start + timeout, timeout)
  {
    match SetupError(o)
    case Some(e) => Some(Err(e))
    case None =>
      match o.subscriber
      case Created => Some(if spawnOk then Ok(0) else Err(Spawn))
      case CreateFailed => Some(Err(SubscriberCreate))
      case Occupied =>
        if !notifierOk then Some(Err(NotifierCreate))
        else
          var replaced := Loop(attempts, 0, start + timeout, timeout);
          LoopOutcome(attempts, 0, start + timeout, timeout);
          match replaced.outcome
          case ScriptEnded => None
          case Failed(e) => Some(Err(e))
          case Acquired => Some(if spawnOk then Ok(replaced.used) else Err(Spawn))
  }

  /** A slot found free on the first replace turn starts the subscriber thread after that one turn. */
  lemma SubscribeOnlyReplaces(o: SetupOracle, spawnOk: bool, start: nat, timeout: nat, attempts: seq<Attempt>)
    requires SetupError(o).None? && o.subscriber == Occupied && spawnOk
    requires |attempts| > 0 && attempts[0].notifyOk && attempts[0].waitOk && attempts[0].create == Created
    ensures SubscribeOnly(o, spawnOk, true, start, timeout, attempts) == Some(Ok(1))
  {
  }

  /** `subscribe_only_`, with the handle taken from `counter`. */
  method SubscribeOnlyEntry(counter: IdCounter, o: SetupOracle, spawnOk: bool, notifierOk: bool, start: nat, timeout: nat,
                            attempts: seq<Attempt>)
    returns (r: Option<Result<SubscriberHandle, Error>>)
    modifies counter
    ensures var s := SubscribeOnly(o, spawnOk, notifierOk, start, timeout, attempts);
            && (r.None? <==> s.None?)
            && (r.Some? && r.value.Err? <==> s.Some? && s.value.Err?)
            && (r.Some? && r.value.Err? ==> r.value.error == s.value.error)
    ensures r.Some? && r.value.Ok? ==>
              r.value.value.subscriberId == old(counter.next) && fresh(r.value.value.keepAlive) && !r.value.value.IsClosed()
    ensures counter.next ==
              if SetupError(o).None? &&
                 (o.subscriber == Created ||
                  (o.subscriber == Occupied && notifierOk && Loop(attempts, 0, start + timeout, timeout).outcome == Acquired))
              then (old(counter.next) + 1) % U64Modulus
              else old(counter.next)
  {
    var setup := SetupError(o);
    if setup.Some? {
      return Some(Err(setup.value));
    }
    match o.subscriber {
      case Created =>
        var created, _ := CreateSubscriberThread(counter, spawnOk);
        return Some(created);
      case CreateFailed =>
        return Some(Err(SubscriberCreate));
      case Occupied =>
        if !notifierOk {
          return Some(Err(NotifierCreate));
        }
        var replaced := AcquireByReplace(attempts, start + timeout, timeout);
        match replaced.outcome {
          case ScriptEnded =>
            return None;
          case Failed(e) =>
            return Some(Err(e));
          case Acquired =>
            var created, _ := CreateSubscriberThread(counter, spawnOk);
            return Some(created);
        }
    }
  }
}
