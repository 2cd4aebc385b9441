/** The worker's retry decision. */
module Retry {
  import opened Common

  /** What a publisher says about one event; error holds the message of its Error, if any. */
  datatype PublishResult = PublishResult(success: bool, error: Option<string>, retryable: bool)

  datatype Decision = Succeed | Reschedule | GiveUp

  function DecideRetry(result: PublishResult, retryCount: nat, maxRetries: int): Decision {
    if result.success then Succeed
    else if !result.retryable || retryCount >= maxRetries then GiveUp
    else Reschedule
  }
}
