/**
 * `publish_input`: create a publisher and a notifier, loan a sample, fill
 * it with the caller's input, send it, then notify and wait a little. Each
 * transport call's success is a field of `PublishOracle`; the caller's
 * `input` closure is the `input` result.
 */
module Publish {
  import opened Wrappers
  import opened IpcErrors
  import opened SubscriberThread

  /** The wait after a delivered notification, in milliseconds. */
  const NotifiedWaitMillis: nat := 50
  /** The wait after a failed notification, in milliseconds. */
  const UnnotifiedWaitMillis: nat := 200

  /** What `publish_input` asks of the transport and of its caller, in the order it may ask. */
  datatype Step = CreatePublisher | CreateNotifier(eventId: nat) | LoanSample | CallInput | SendSample | Notify | WaitMillis(ms: nat)

  datatype PublishOracle<M> = PublishOracle(
    publisherOk: bool,
    notifierOk: bool,
    loanOk: bool,
    input: Result<M, string>,
    sendOk: bool,
    notifyOk: bool,
    waitOk: bool)

  /** The result, the steps taken, and the message handed to the transport by `send`, if any. */
  datatype Published<M> = Published(result: Result<(), Error>, steps: seq<Step>, sent: Option<M>)

  /** Every step `publish_input` takes when nothing fails, in order; the last wait depends on the notification. */
  function AllSteps(notifyOk: bool): seq<Step> {
    [CreatePublisher, CreateNotifier(NotifyEvent), LoanSample, CallInput, SendSample, Notify,
     WaitMillis(if notifyOk then NotifiedWaitMillis else UnnotifiedWaitMillis)]
  }

  /**
   * The steps taken are the ones up to the first that fails, and that step
   * names the error; only a successful `send` hands the message over.
   */
  function PublishInput<M>(o: PublishOracle<M>): (r: Published<M>)
    ensures r.steps <= AllSteps(o.notifyOk)
    ensures r.result.Err? <==> r.sent.None?
    ensures r.result.Ok? <==> o.publisherOk && o.notifierOk && o.loanOk && o.input.Ok? && o.sendOk
    ensures r.result.Ok? ==> r.sent == Some(o.input.value) && r.steps == AllSteps(o.notifyOk)
    ensures CallInput in r.steps <==> o.publisherOk && o.notifierOk && o.loanOk
    ensures SendSample in r.steps <==> o.publisherOk && o.notifierOk && o.loanOk && o.input.Ok?
    ensures Notify in r.steps <==> r.result.Ok?
    ensures r.result.Err? ==>
              |r.steps| == if !o.publisherOk then 1 else if !o.notifierOk then 2 else if !o.loanOk then 3
                           else if o.input.Err? then 4 else 5
    ensures !o.publisherOk ==> r.result == Err(PublisherCreate)
    ensures o.publisherOk && !o.notifierOk ==> r.result == Err(NotifierCreate)
    ensures o.publisherOk && o.notifierOk && !o.loanOk ==> r.result == Err(Loan)
    ensures o.publisherOk && o.notifierOk && o.loanOk && o.input.Err? ==> r.result == Err(Input(o.input.error))
    ensures o.publisherOk && o.notifierOk && o.loanOk && o.input.Ok? && !o.sendOk ==> r.result == Err(Send)
  {
    var ready := [CreatePublisher, CreateNotifier(NotifyEvent), LoanSample];
    if !o.publisherOk then Published(Err(PublisherCreate), [CreatePublisher], None)
    else if !o.notifierOk then Published(Err(NotifierCreate), [CreatePublisher, CreateNotifier(NotifyEvent)], None)
    else if !o.loanOk then Published(Err(Loan), ready, None)
    else if o.input.Err? then Published(Err(Input(o.input.error)), ready + [CallInput], None)
    else if !o.sendOk then Published(Err(Send), ready + [CallInput, SendSample], None)
    else Published(Ok(()), AllSteps(o.notifyOk), Some(o.input.value))
  }

  /** A failed notification or an interrupted wait after sending never turns the result into an error. */
  lemma AfterSendIgnored<M>(o: PublishOracle<M>, notifyOk: bool, waitOk: bool)
    ensures PublishInput(o.(notifyOk := notifyOk, waitOk := waitOk)).result == PublishInput(o).result
    ensures PublishInput(o.(notifyOk := notifyOk, waitOk := waitOk)).sent == PublishInput(o).sent
  {
  }
}
