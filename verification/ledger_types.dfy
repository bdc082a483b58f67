/** Value types of the attempt ledger: bounded integers, closed outcome sets,
    audit tombstones and the durable restart state. */
module LedgerTypes {
  import opened Foundation

  const MAX_PROFILE_DEPENDENCIES: int := 4096
  const MAX_SERIALIZED_CONTRACT_BYTES: int := 4 * 1024 * 1024

  datatype ClaimOutcome =
    | ClaimSucceeded
    | CapabilityCancelled
    | CapabilityFailed
    | CapabilityExpired
    | ClaimRejectedTerminal
    | ClaimAttemptCancelled

  datatype AttemptPhase =
    | Open
    | Sealed
    | Cancelling
    | Publishing
    | Published
    | PublishFailed
    | CancelFailed
    | Cancelled

  predicate TerminalPhase(phase: AttemptPhase) {
    phase.Published? || phase.PublishFailed? || phase.CancelFailed? || phase.Cancelled?
  }

  /** Outcomes after which the source demands that every claim succeeded. */
  predicate PublicationPhase(phase: AttemptPhase) {
    phase.Published? || phase.PublishFailed?
  }

  datatype ObjectKind = AttemptRecord | ClaimRecord | OtherRecord(kind: string)

  /** The text of a tombstone outcome: one of the two closed enums, or anything else. */
  datatype OutcomeText =
    | OfClaim(claim: ClaimOutcome)
    | OfAttempt(phase: AttemptPhase)
    | OtherText(text: string)

  datatype Tombstone = Tombstone(
    schemaVersion: int,
    kind: ObjectKind,
    sequence: uint64,
    claimCount: uint64,
    attemptSequence: uint64,
    ordinal: uint64,
    outcome: OutcomeText)

  datatype RestartState = RestartState(
    schemaVersion: int,
    next: uint64,
    exhausted: bool,
    truncated: uint64,
    tombstones: seq<Tombstone>)

  datatype LedgerLimits = LedgerLimits(
    maxRetainedAttempts: int,
    maxClaimEntriesPerAttempt: int,
    maxRetainedClaimEntries: int,
    auditTombstoneLimit: int,
    auditTombstoneMaxEncodedBytes: int)

  const DefaultLimits := LedgerLimits(64, MAX_PROFILE_DEPENDENCIES, 64 * MAX_PROFILE_DEPENDENCIES, 4096, 256)

  /** The ranges in validateLedgerLimits that the ledger protocol depends on. */
  predicate ValidLimits(limits: LedgerLimits) {
    && 0 < limits.maxRetainedAttempts <= 0x1_0000
    && 0 < limits.maxClaimEntriesPerAttempt <= MAX_PROFILE_DEPENDENCIES
    && 0 < limits.auditTombstoneLimit <= 0x10_0000
    && 0 < limits.auditTombstoneMaxEncodedBytes <= MAX_SERIALIZED_CONTRACT_BYTES
    && limits.maxClaimEntriesPerAttempt <= limits.maxRetainedClaimEntries
  }

  /** The limits CoversTerminalWatermark validates with, whatever the ledger's own are. */
  const MaximumRestartLimits := DefaultLimits.(
    maxClaimEntriesPerAttempt := MAX_PROFILE_DEPENDENCIES,
    auditTombstoneLimit := MAX_SERIALIZED_CONTRACT_BYTES / 64,
    auditTombstoneMaxEncodedBytes := MAX_SERIALIZED_CONTRACT_BYTES)

  // ---- encoded sizes ---------------------------------------------------------

  /** Length of the decimal text of a 64-bit number. */
  function DecimalDigits(n: uint64): (digits: nat)
    ensures 1 <= digits <= 20
  {
    if n < 10 then 1
    else if n < 100 then 2
    else if n < 1_000 then 3
    else if n < 10_000 then 4
    else if n < 100_000 then 5
    else if n < 1_000_000 then 6
    else if n < 10_000_000 then 7
    else if n < 100_000_000 then 8
    else if n < 1_000_000_000 then 9
    else if n < 10_000_000_000 then 10
    else if n < 100_000_000_000 then 11
    else if n < 1_000_000_000_000 then 12
    else if n < 10_000_000_000_000 then 13
    else if n < 100_000_000_000_000 then 14
    else if n < 1_000_000_000_000_000 then 15
    else if n < 10_000_000_000_000_000 then 16
    else if n < 100_000_000_000_000_000 then 17
    else if n < 1_000_000_000_000_000_000 then 18
    else if n < 10_000_000_000_000_000_000 then 19
    else 20
  }

  lemma DecimalDigitsMonotone(m: uint64, n: uint64)
    requires m <= n
    ensures DecimalDigits(m) <= DecimalDigits(n)
  {
  }

  function PhaseBytes(phase: AttemptPhase): nat {
    match phase
    case Open => 4
    case Sealed => 6
    case Cancelling => 10
    case Publishing => 10
    case Published => 9
    case PublishFailed => 14
    case CancelFailed => 13
    case Cancelled => 9
  }

  function ClaimOutcomeBytes(outcome: ClaimOutcome): nat {
    match outcome
    case ClaimSucceeded => 15
    case CapabilityCancelled => 20
    case CapabilityFailed => 17
    case CapabilityExpired => 18
    case ClaimRejectedTerminal => 23
    case ClaimAttemptCancelled => 17
  }

  function OutcomeBytes(outcome: OutcomeText): nat {
    match outcome
    case OfClaim(claim) => ClaimOutcomeBytes(claim)
    case OfAttempt(phase) => PhaseBytes(phase)
    case OtherText(text) => |text|
  }

  function KindBytes(kind: ObjectKind): nat {
    match kind
    case AttemptRecord => 7
    case ClaimRecord => 5
    case OtherRecord(text) => |text|
  }

  /** Length of the tombstone's closed JSON projection: 102 or 131 fixed
      characters, the decimal numbers and the outcome text. */
  function EncodedBytes(tombstone: Tombstone): nat {
    if tombstone.kind.AttemptRecord? then
      102 + DecimalDigits(tombstone.sequence) + DecimalDigits(tombstone.claimCount) + OutcomeBytes(tombstone.outcome)
    else
      131 + DecimalDigits(tombstone.sequence) + DecimalDigits(tombstone.attemptSequence)
      + DecimalDigits(tombstone.ordinal) + OutcomeBytes(tombstone.outcome)
  }

  /** What the aggregate preflight charges for one tombstone of the restart
      object: eight for the slot, the struct and field names, five 32-byte
      numbers and two strings at six bytes a character. */
  function TombstoneCost(tombstone: Tombstone): nat {
    614 + 6 * KindBytes(tombstone.kind) + 6 * OutcomeBytes(tombstone.outcome)
  }

  function HistoryCost(tombstones: seq<Tombstone>): nat {
    if |tombstones| == 0 then 0
    else HistoryCost(tombstones[..|tombstones| - 1]) + TombstoneCost(tombstones[|tombstones| - 1])
  }

  /** The cumulative budget of marshalBounded; the JSON text is always shorter
      than the charge, so the budget is the binding bound. */
  predicate AggregateFits(tombstones: seq<Tombstone>) {
    434 + HistoryCost(tombstones) <= MAX_SERIALIZED_CONTRACT_BYTES
  }
}
