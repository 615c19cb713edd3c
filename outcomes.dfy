/** The result of a step that may raise: the value it produced, or the fact
    that it raised. Every exception in the request handlers ends in the same
    generic failure, so the failure carries no payload. */
module Outcomes {

  datatype Outcome<+T> = Ok(value: T) | Fail
}
