/** The recipient constraints of the notifier.
    `NotificationEmailRecipientSame` and `NotificationSmsRecipientSame`
    compare a recipient's address with a string;
    `NotificationEmailRecipient` and `NotificationSmsRecipient` hand the
    address to a constraint.  The email and SMS variants differ only in the
    address they read, so each pair is one definition over `Kind`. */
module NotificationRecipientConstraints {
  import opened Php
  import opened Matchers

  /** A recipient as its interfaces show it: `getEmail()` when it is an
      `EmailRecipientInterface`, `getPhone()` when it is an
      `SmsRecipientInterface`, `None` where it is not. */
  datatype Recipient = Recipient(email: Option<string>, phone: Option<string>)

  /** Which address a constraint reads. */
  datatype Kind = Email | Sms

  function Address(r: Recipient, kind: Kind): Option<string>
  {
    if kind == Email then r.email else r.phone
  }

  function Word(kind: Kind): string
  {
    if kind == Email then "email" else "phone"
  }

  const InvalidRecipients := "Unable to test a recipient exists for invalid recipients list."

  /** `Notification{Email,Sms}RecipientSame($address)`. */
  datatype RecipientSame = RecipientSame(kind: Kind, address: string)

  /** `toString()`. */
  function SameText(c: RecipientSame): string
  {
    "contains \"" + c.address + "\""
  }

  /** `matches($other)`: `None` stands for a value that is no
      `RecipientInterface` at all, which is refused with a logic error. */
  function SameMatches(c: RecipientSame, other: Option<Recipient>): (r: Result<bool>)
    ensures r.Throws? <==> other.None?
    ensures r.Throws? ==> r.error == Logic(InvalidRecipients)
    ensures r == Ok(true) <==> other.Some? && Address(other.value, c.kind) == Some(c.address)
  {
    if other.None? then Throws(Logic(InvalidRecipients))
    else Ok(Address(other.value, c.kind) == Some(c.address))
  }

  /** `evaluate`, inherited: the failure names "the Message body" and the
      description; a logic error escapes whatever `returnResult` says. */
  function SameEvaluate(c: RecipientSame, other: Option<Recipient>, description: string, returnResult: bool)
    : (r: Result<Option<bool>>)
    ensures other.None? ==> r == Throws(Logic(InvalidRecipients))
    ensures other.Some? && returnResult ==> r == Ok(Some(Address(other.value, c.kind) == Some(c.address)))
    ensures other.Some? && !returnResult && Address(other.value, c.kind) == Some(c.address) ==> r == Ok(None)
    ensures other.Some? && !returnResult && Address(other.value, c.kind) != Some(c.address) ==>
      r == Throws(ExpectationFailed(Failure(
        FailText(description, "Failed asserting that " + ("the Message body " + SameText(c)) + "."), None)))
  {
    EvaluateMatches(SameMatches(c, other), "the Message body " + SameText(c), description, returnResult)
  }

  /** A recipient lacking the interface never matches, even one whose
      other address is the expected string. */
  lemma SameNeedsTheInterface(c: RecipientSame, r: Recipient)
    requires Address(r, c.kind).None?
    ensures SameMatches(c, Some(r)) == Ok(false)
  {
  }

  /** `Notification{Email,Sms}Recipient($address)`. */
  datatype RecipientMatching = RecipientMatching(kind: Kind, inner: Matcher<string>)

  /** The constructor: a plain address is wrapped in `IsIdentical`. */
  function NewMatching(kind: Kind, address: Expected<string>): (c: RecipientMatching)
    ensures c.kind == kind
    ensures address.Raw? ==> forall s :: c.inner.accepts(s) <==> s == address.value
    ensures address.Is? ==> c.inner == address.matcher
  {
    RecipientMatching(kind, Normalize(address))
  }

  /** `toString()`. */
  function MatchingText(c: RecipientMatching): (t: string)
    ensures t == "recipient " + Word(c.kind) + " " + c.inner.text
  {
    "recipient " + Word(c.kind) + " " + c.inner.text
  }

  /** The description the inner check runs under. */
  function InnerDescription(c: RecipientMatching): string
  {
    "recipient " + Word(c.kind)
  }

  /** `evaluate($other, $description, $returnResult)` as written: a
      recipient without the address gives false in both modes; otherwise
      the inner check runs in throwing mode, and its failure becomes false
      with `returnResult` and is rethrown without. */
  function MatchingEvaluate(c: RecipientMatching, other: Option<Recipient>, description: string, returnResult: bool)
    : (r: Result<Option<bool>>)
    ensures other.None? || Address(other.value, c.kind).None? ==> r == Ok(Some(false))
    ensures other.Some? && Address(other.value, c.kind).Some? ==>
      var a := Address(other.value, c.kind).value;
      && (returnResult ==> r == Ok(Some(c.inner.accepts(a))))
      && (!returnResult && c.inner.accepts(a) ==> r == Ok(None))
      && (!returnResult && !c.inner.accepts(a) ==>
            r == Throws(ExpectationFailed(Failure(Rejection(c.inner, InnerDescription(c)), None))))
  {
    if other.None? || Address(other.value, c.kind).None? then Ok(Some(false))
    else
      var inner := Matchers.Evaluate(c.inner, Address(other.value, c.kind).value, InnerDescription(c), false);
      if inner.Throws? then (if returnResult && inner.error.ExpectationFailed? then Ok(Some(false)) else inner)
      else if returnResult then Ok(Some(true))
      else Ok(None)
  }

  /** What a caller that evaluates in throwing mode and catches
      `ExpectationFailedException`, as `ArrayContains` does, counts as a
      failure. */
  predicate CaughtAsFailure(r: Result<Option<bool>>)
  {
    r.Throws? && r.error.ExpectationFailed?
  }

  /** As written, the two modes disagree on a recipient without the
      address: `returnResult` says false, but throwing mode returns instead
      of throwing, so a catching caller sees no failure. */
  lemma MissingAddressUnnoticed(c: RecipientMatching, r: Recipient, description: string)
    requires Address(r, c.kind).None?
    ensures MatchingEvaluate(c, Some(r), description, true) == Ok(Some(false))
    ensures !CaughtAsFailure(MatchingEvaluate(c, Some(r), description, false))
  {
  }

  /** The evaluation the constraint evidently intends: a recipient without
      the address fails like a rejected address, thrown in throwing mode. */
  function MatchingEvaluateCorrected(c: RecipientMatching, other: Option<Recipient>, description: string, returnResult: bool)
    : (r: Result<Option<bool>>)
    ensures other.Some? && Address(other.value, c.kind).Some? ==>
      r == MatchingEvaluate(c, other, description, returnResult)
    ensures (other.None? || Address(other.value, c.kind).None?) && !returnResult ==>
      r == Throws(ExpectationFailed(Failure(FailText(description, "Failed asserting that " + MatchingText(c) + "."), None)))
  {
    if (other.None? || Address(other.value, c.kind).None?) && !returnResult then
      Throws(ExpectationFailed(Failure(FailText(description, "Failed asserting that " + MatchingText(c) + "."), None)))
    else MatchingEvaluate(c, other, description, returnResult)
  }

  /** Corrected, the modes agree: throwing mode throws a failure exactly
      when `returnResult` says false, and the verdict is that the address
      exists and the inner constraint accepts it. */
  lemma CorrectedModesAgree(c: RecipientMatching, other: Option<Recipient>, description: string)
    ensures var verdict := other.Some? && Address(other.value, c.kind).Some? && c.inner.accepts(Address(other.value, c.kind).value);
      && MatchingEvaluateCorrected(c, other, description, true) == Ok(Some(verdict))
      && (CaughtAsFailure(MatchingEvaluateCorrected(c, other, description, false)) <==> !verdict)
  {
  }

  /** The constraints as predicates over the values a notification's
      recipient list holds; `view` says what a value is as a recipient
      (the recipient classes are not part of this model). */
  function SameAsMatcher(c: RecipientSame, view: Value -> Option<Recipient>): (m: Matcher<Value>)
    ensures m.text == SameText(c)
  {
    Matcher((v: Value) => SameMatches(c, view(v)) == Ok(true), SameText(c))
  }

  function MatchingAsMatcher(c: RecipientMatching, view: Value -> Option<Recipient>): (m: Matcher<Value>)
    ensures m.text == MatchingText(c)
  {
    Matcher((v: Value) => !CaughtAsFailure(MatchingEvaluateCorrected(c, view(v), "", false)), MatchingText(c))
  }

  /** How `ArrayContains`, catching failures in throwing mode, reads the
      constraint as written. */
  function MatchingAsWrittenMatcher(c: RecipientMatching, view: Value -> Option<Recipient>): (m: Matcher<Value>)
    ensures m.text == MatchingText(c)
  {
    Matcher((v: Value) => !CaughtAsFailure(MatchingEvaluate(c, view(v), "", false)), MatchingText(c))
  }
}
