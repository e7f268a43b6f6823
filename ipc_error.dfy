/**
 * The failures the single-process entry points report, one tag per source
 * error type folded into the caller's error `E`.
 */
module IpcErrors {

  datatype Error =
    | InvalidNodeName        // SemanticStringError from NodeName::new
    | InvalidServiceName     // ServiceNameError
    | NodeCreation           // NodeCreationFailure
    | ServiceOpenOrCreate    // PublishSubscribeOpenOrCreateError
    | EventOpenOrCreate      // EventOpenOrCreateError
    | SubscriberCreate       // SubscriberCreateError other than "exceeds max subscribers"
    | Spawn                  // std::io::Error from the thread builder
    | PublisherCreate        // PublisherCreateError
    | NotifierCreate         // NotifierCreateError
    | Loan                   // LoanError
    | Input(reason: string)  // the error the caller's `input` closure returned
    | Send                   // SendError
    | NotifierNotify         // NotifierNotifyError
    | NodeWait               // NodeWaitFailure
    | Timeout(micros: nat)   // SubscribeOnlyTimeoutError, carrying the timeout
}
