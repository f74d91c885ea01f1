/** What the Linux and the Windows runner have in common: their replies, and how a step or
    a read of theirs can fail. */
module Runners {
  import opened Records

  datatype Error =
    | InvalidArgument
    | InvalidPreparedReceipt
    | OperationExists
    | StaleTarget
    | Unsupported
    | AlreadyCommitted
    | MutationIndeterminate

  datatype Reply = Done | Refused(error: Error)

  datatype Reconciliation = Answered(answer: Answer) | NotAnswered(error: Error)

  /** A step without an effect of its own, such as flushing a directory. */
  method Attempt(fails: bool) returns (ok: bool)
    ensures !fails ==> ok
  {
    ok := true;
    if fails {
      ok := *;
    }
  }

  /** A read that confirms a fact, or fails to: a file that does not open counts as absent,
      a hash that cannot be computed as different, an unknown error as not missing. */
  method Look(fact: bool, fails: bool) returns (seen: bool)
    ensures seen ==> fact
    ensures !fails ==> seen == fact
  {
    seen := fact;
    if fails && fact {
      seen := *;
    }
  }
}
