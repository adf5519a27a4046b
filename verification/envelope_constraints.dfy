/** The mailer's envelope constraints: `EnvelopeHasRecipient`,
    `EnvelopeRecipientCount` and `EnvelopeSenderSame`.  Each gives false
    for null, refuses any other value that is not an envelope, and
    describes its failure as "the Envelope …". */
module EnvelopeConstraints {
  import opened Php
  import opened PhpStrings
  import opened Matchers

  /** An envelope as its getters show it: the sender's `toString()` and
      each recipient's `toString()`, in order. */
  datatype Envelope = Envelope(sender: string, recipients: seq<string>)

  /** What `matches($other)` is given: null, an envelope, or another value. */
  datatype Subject = NullSubject | EnvelopeSubject(envelope: Envelope) | OtherSubject

  datatype EnvelopeConstraint =
    | HasRecipient(address: string)
    | RecipientCount(expectedValue: int)
    | SenderSame(address: string)

  /** `toString()`. */
  function Text(c: EnvelopeConstraint): string
  {
    match c
    case HasRecipient(a) => "contains recipient \"" + a + "\""
    case RecipientCount(n) => "has \"" + IntToString(n) + "\" recipients"
    case SenderSame(a) => "contains sender \"" + a + "\""
  }

  /** The logic error for a value that is not an envelope. */
  function NotEnvelope(c: EnvelopeConstraint): string
  {
    match c
    case HasRecipient(_) => "Unable to test a envelope recipient on non Envelope instance."
    case RecipientCount(_) => "Unable to test a envelope recipients count on non Envelope instance."
    case SenderSame(_) => "Unable to test a envelope sender on non Envelope instance."
  }

  /** The `foreach` of `EnvelopeHasRecipient::matches`: true at the first
      recipient equal to the address. */
  function FindRecipient(recipients: seq<string>, address: string): bool
  {
    recipients != [] && (recipients[0] == address || FindRecipient(recipients[1..], address))
  }

  /** The search finds the address iff some recipient is exactly it. */
  lemma {:induction false} FindRecipientIff(recipients: seq<string>, address: string)
    ensures FindRecipient(recipients, address) <==> exists i :: 0 <= i < |recipients| && recipients[i] == address
  {
    if recipients != [] {
      FindRecipientIff(recipients[1..], address);
      if recipients[0] != address && exists i :: 0 <= i < |recipients| && recipients[i] == address {
        var i :| 0 <= i < |recipients| && recipients[i] == address;
        assert recipients[1..][i - 1] == address;
      }
    }
  }

  /** `matches($other)`. */
  function Matches(c: EnvelopeConstraint, other: Subject): (r: Result<bool>)
    ensures other.NullSubject? ==> r == Ok(false)
    ensures other.OtherSubject? ==> r == Throws(Logic(NotEnvelope(c)))
    ensures other.EnvelopeSubject? ==> r.Ok?
    ensures other.EnvelopeSubject? && c.RecipientCount? ==>
      r == Ok(|other.envelope.recipients| == c.expectedValue)
    ensures other.EnvelopeSubject? && c.SenderSame? ==> r == Ok(other.envelope.sender == c.address)
  {
    match other
    case NullSubject => Ok(false)
    case OtherSubject => Throws(Logic(NotEnvelope(c)))
    case EnvelopeSubject(e) =>
      match c
      case HasRecipient(a) => Ok(FindRecipient(e.recipients, a))
      case RecipientCount(n) => Ok(|e.recipients| == n)
      case SenderSame(a) => Ok(e.sender == a)
  }

  /** `EnvelopeHasRecipient` holds iff some recipient is exactly the address. */
  lemma HasRecipientIff(address: string, e: Envelope)
    ensures Matches(HasRecipient(address), EnvelopeSubject(e)) == Ok(true)
      <==> exists i :: 0 <= i < |e.recipients| && e.recipients[i] == address
  {
    FindRecipientIff(e.recipients, address);
  }

  /** `evaluate`, inherited: the failure reads "Failed asserting that the
      Envelope <toString>." under the description. */
  function Evaluate(c: EnvelopeConstraint, other: Subject, description: string, returnResult: bool)
    : (r: Result<Option<bool>>)
    ensures other.OtherSubject? ==> r == Throws(Logic(NotEnvelope(c)))
    ensures other.NullSubject? && returnResult ==> r == Ok(Some(false))
    ensures Matches(c, other) == Ok(false) && !returnResult ==>
      r == Throws(ExpectationFailed(Failure(FailText(description, "Failed asserting that " + ("the Envelope " + Text(c)) + "."), None)))
    ensures Matches(c, other) == Ok(true) ==> r == (if returnResult then Ok(Some(true)) else Ok(None))
  {
    EvaluateMatches(Matches(c, other), "the Envelope " + Text(c), description, returnResult)
  }

  /** The value the mailer records, `?Envelope`, as a subject. */
  function SubjectOf(e: Option<Envelope>): Subject
  {
    if e.Some? then EnvelopeSubject(e.value) else NullSubject
  }

  /** The constraint over what the mailer records, which is never a
      non-envelope: a missing envelope is rejected. */
  function AsMatcher(c: EnvelopeConstraint): (m: Matcher<Option<Envelope>>)
    ensures m.text == Text(c)
    ensures !m.accepts(None)
  {
    Matcher((e: Option<Envelope>) => Matches(c, SubjectOf(e)) == Ok(true), Text(c))
  }
}
