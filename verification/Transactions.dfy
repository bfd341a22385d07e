/** What can become of a transaction that a script sends and then waits for. */
module Transactions {
  /** It takes effect and the script goes on, it throws without taking effect, or it takes effect and
      waiting for its receipt throws. */
  datatype Fate = Confirmed | Rejected | Unconfirmed
}
