/** The texts of tombstones: the encoded sizes the ledger bounds are those of the
    canonical JSON projection. */
module TombstoneText {
  import opened Foundation
  import opened LedgerTypes
  import opened RestartHistory

  function PhaseText(phase: AttemptPhase): string {
    match phase
    case Open => "open"
    case Sealed => "sealed"
    case Cancelling => "cancelling"
    case Publishing => "publishing"
    case Published => "published"
    case PublishFailed => "publish_failed"
    case CancelFailed => "cancel_failed"
    case Cancelled => "cancelled"
  }

  function ClaimOutcomeText(outcome: ClaimOutcome): string {
    match outcome
    case ClaimSucceeded => "claim_succeeded"
    case CapabilityCancelled => "capability_cancelled"
    case CapabilityFailed => "capability_failed"
    case CapabilityExpired => "capability_expired"
    case ClaimRejectedTerminal => "claim_rejected_terminal"
    case ClaimAttemptCancelled => "attempt_cancelled"
  }

  function OutcomeTextOf(outcome: OutcomeText): string {
    match outcome
    case OfClaim(claim) => ClaimOutcomeText(claim)
    case OfAttempt(phase) => PhaseText(phase)
    case OtherText(text) => text
  }

  lemma OutcomeBytesAreLength(outcome: OutcomeText)
    ensures OutcomeBytes(outcome) == |OutcomeTextOf(outcome)|
  {
  }

  function KindText(kind: ObjectKind): string {
    match kind
    case AttemptRecord => "attempt"
    case ClaimRecord => "claim"
    case OtherRecord(text) => text
  }

  lemma KindBytesAreLength(kind: ObjectKind)
    ensures KindBytes(kind) == |KindText(kind)|
  {
  }

  /** The number of digits is that of the decimal text. */
  lemma {:induction false} DigitsAreLength(n: uint64)
    ensures DecimalDigits(n) == |Numeral(n)|
    decreases n
  {
    if n >= 10 {
      DigitsAreLength(n / 10);
      DigitsOfTenth(n);
    }
  }

  lemma DigitsOfTenth(n: uint64)
    requires n >= 10
    ensures DecimalDigits(n) == DecimalDigits(n / 10) + 1
  {
  }

  function Quoted(text: string): string { "\"" + text + "\"" }

  function NumberField(name: string, n: nat): string { Quoted(name) + ":" + Numeral(n) }

  function TextField(name: string, text: string): string { Quoted(name) + ":" + Quoted(text) }

  /** The closed projection of a tombstone: one of two field lists, in this order. */
  function Json(t: Tombstone): string {
    if t.kind.AttemptRecord? then
      "{" + NumberField("schema_version", 1) + "," + TextField("object_kind", "attempt") + ","
      + NumberField("terminal_sequence", t.sequence) + "," + NumberField("claim_count", t.claimCount) + ","
      + TextField("terminal_outcome", OutcomeTextOf(t.outcome)) + "}"
    else
      "{" + NumberField("schema_version", 1) + "," + TextField("object_kind", "claim") + ","
      + NumberField("terminal_sequence", t.sequence) + "," + NumberField("attempt_terminal_sequence", t.attemptSequence) + ","
      + NumberField("claim_ordinal", t.ordinal) + "," + TextField("terminal_outcome", OutcomeTextOf(t.outcome)) + "}"
  }

  lemma FieldLengths(name: string, n: nat, text: string)
    ensures |NumberField(name, n)| == |name| + 3 + |Numeral(n)|
    ensures |TextField(name, text)| == |name| + 5 + |text|
  {
  }

  /** The encoded size of a tombstone is the length of its text. */
  lemma EncodedBytesAreLength(t: Tombstone)
    requires WellFormed(t)
    ensures EncodedBytes(t) == |Json(t)|
  {
    hide DecimalDigits, Numeral, NumberField, TextField, OutcomeTextOf;
    OutcomeBytesAreLength(t.outcome);
    DigitsAreLength(t.sequence);
    DigitsAreLength(t.claimCount);
    DigitsAreLength(t.attemptSequence);
    DigitsAreLength(t.ordinal);
    OneDigit();
    FieldLengths("schema_version", 1, "");
    FieldLengths("object_kind", 0, KindText(t.kind));
    FieldLengths("terminal_sequence", t.sequence, "");
    FieldLengths("claim_count", t.claimCount, "");
    FieldLengths("attempt_terminal_sequence", t.attemptSequence, "");
    FieldLengths("claim_ordinal", t.ordinal, "");
    FieldLengths("terminal_outcome", 0, OutcomeTextOf(t.outcome));
  }

  lemma OneDigit()
    ensures |Numeral(1)| == 1
  {
  }

  // ---- the closed projection -----------------------------------------------------------------

  /** What the two projections carry. */
  datatype Projection =
    | AttemptProjection(sequence: uint64, claimCount: uint64, outcome: OutcomeText)
    | ClaimProjection(sequence: uint64, attemptSequence: uint64, ordinal: uint64, outcome: OutcomeText)

  function Projected(t: Tombstone): Projection {
    if t.kind.AttemptRecord? then AttemptProjection(t.sequence, t.claimCount, t.outcome)
    else ClaimProjection(t.sequence, t.attemptSequence, t.ordinal, t.outcome)
  }

  /** The tombstone a projection decodes to. */
  function Restored(p: Projection): Tombstone {
    match p
    case AttemptProjection(sequence, claimCount, outcome) => Tombstone(1, AttemptRecord, sequence, claimCount, 0, 0, outcome)
    case ClaimProjection(sequence, attemptSequence, ordinal, outcome) =>
      Tombstone(1, ClaimRecord, sequence, 0, attemptSequence, ordinal, outcome)
  }

  /** A tombstone is well formed exactly when its projection loses nothing of it, its
      numbers are those of a consumed sequence, and its outcome is a terminal one of its
      own kind. */
  lemma WellFormedIffProjectable(t: Tombstone)
    ensures WellFormed(t) <==>
      && Restored(Projected(t)) == t && t.sequence > 0
      && (t.kind.AttemptRecord? ==> t.claimCount > 0 && OutcomeTextOf(t.outcome) in TerminalTexts && t.outcome.OfAttempt?)
      && (t.kind.ClaimRecord? ==> t.attemptSequence > 0 && t.outcome.OfClaim?)
  {
  }

  const TerminalTexts: set<string> := {"published", "publish_failed", "cancel_failed", "cancelled"}

  /** The preflight charges six for every character of the two texts of a tombstone. */
  lemma ChargeIsOfTexts(t: Tombstone)
    ensures TombstoneCost(t) == 614 + 6 * |KindText(t.kind) + OutcomeTextOf(t.outcome)|
  {
    hide KindText, OutcomeTextOf;
    KindBytesAreLength(t.kind);
    OutcomeBytesAreLength(t.outcome);
  }
}
