/** The durable record of one file mutation, as the Linux and Windows runners keep it. */
module Records {
  import opened Volumes

  /** `write_file` and `apply_patch` are both `Write`. */
  datatype Operation = Write | Move | Delete | MakeDirectory

  datatype Phase =
    | Prepared
    | TargetQuarantining
    | TargetQuarantined
    | StageInstalling
    | Committed
    | RolledBack

  datatype Record = Record(
    token: string,
    operation: Operation,
    path: string,
    destination: Option<string>,
    expectMissing: bool,
    expected: Claim,
    staged: Claim,
    backup: Claim,
    phase: Phase)
  {
    predicate Creates() { operation == Write && expectMissing }

    predicate Overwrites() { operation == Write && !expectMissing }

    /** The claims of an overwrite cannot both hold of one file. */
    predicate TellsApart() { Overwrites() ==> staged.id != expected.id }
  }

  /** What reconcile answers. */
  datatype Answer = AnsweredRolledBack | AnsweredCommitted | AnsweredNotCommitted | AnsweredIndeterminate

  predicate Settled(phase: Phase) {
    phase in {Prepared, Committed, RolledBack}
  }

  predicate Decided(phase: Phase) {
    phase in {Committed, RolledBack}
  }

  // ---------------------------------------------------------------- phases in the file

  function PhaseNumber(phase: Phase): (n: nat)
    ensures 1 <= n <= 6
  {
    match phase
    case Prepared => 1
    case TargetQuarantining => 2
    case TargetQuarantined => 3
    case StageInstalling => 4
    case Committed => 5
    case RolledBack => 6
  }

  function PhaseOf(n: nat): (phase: Phase)
    requires 1 <= n <= 6
    ensures PhaseNumber(phase) == n
  {
    match n
    case 1 => Prepared
    case 2 => TargetQuarantining
    case 3 => TargetQuarantined
    case 4 => StageInstalling
    case 5 => Committed
    case _ => RolledBack
  }
}
