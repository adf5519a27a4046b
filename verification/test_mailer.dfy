/** `TestMailer`: a mailer that records every message sent with its
    envelope, and a group table (`GROUP_NAME` "mailer") of the messages
    expected. */
module Mailer {
  import opened Php
  import opened Matchers
  import opened Expectations
  import opened Grouping
  import opened FirstFit
  import opened TestGroups
  import opened EnvelopeConstraints

  /** A message by class: a plain `RawMessage` with its `toString()`, a
      `Message` with its body's `toString()` (none without a body), an
      `Email` with its text body. */
  datatype MailMessage =
    | RawMessage(text: string)
    | MimeMessage(body: Option<string>)
    | Email(textBody: Option<string>)

  /** `['message' => …, 'envelope' => …]`. */
  datatype Mail = Mail(message: MailMessage, envelope: Option<Envelope>)

  const GroupName := "mailer"

  /** `needle` occurs in `haystack` from position `i`. */
  predicate OccursAt(haystack: string, needle: string, i: int)
  {
    0 <= i && i + |needle| <= |haystack| && haystack[i..i + |needle|] == needle
  }

  /** PHP's `str_contains($haystack, $needle)`. */
  predicate ContainsText(haystack: string, needle: string)
  {
    exists i :: 0 <= i <= |haystack| && OccursAt(haystack, needle, i)
  }

  /** The text `MessageBodyContains` searches: a missing body reads as
      the empty string. */
  function BodyText(m: MailMessage): string
  {
    match m
    case RawMessage(text) => text
    case MimeMessage(body) => if body.Some? then body.value else ""
    case Email(textBody) => if textBody.Some? then textBody.value else ""
  }

  /** `new MessageBodyContains($text)`. */
  function BodyContains(text: string): (m: Matcher<MailMessage>)
    ensures m.text == "contains \"" + text + "\""
    ensures forall msg :: m.accepts(msg) <==> ContainsText(BodyText(msg), text)
  {
    Matcher((msg: MailMessage) => ContainsText(BodyText(msg), text), "contains \"" + text + "\"")
  }

  /** A body contains every one of its own slices, and an empty text is
      found in any body. */
  lemma BodyContainsSlice(msg: MailMessage, i: nat, j: nat)
    requires i <= j <= |BodyText(msg)|
    ensures BodyContains(BodyText(msg)[i..j]).accepts(msg)
    ensures BodyContains("").accepts(msg)
  {
    var s := BodyText(msg);
    assert OccursAt(s, s[i..j], i);
    assert OccursAt(s, "", 0);
  }

  /** What `expect` is given: a text the body must contain, or a constraint. */
  datatype MessageExpectation = BodyWith(text: string) | MessageIs(constraint: Matcher<MailMessage>)

  /** A plain string becomes `MessageBodyContains`. */
  function MessageMatcher(e: MessageExpectation): (m: Matcher<MailMessage>)
    ensures e.MessageIs? ==> m == e.constraint
    ensures e.BodyWith? ==> m == BodyContains(e.text)
  {
    if e.BodyWith? then BodyContains(e.text) else e.constraint
  }

  function MessageOf(d: Mail): MailMessage
  {
    d.message
  }

  function EnvelopeOf(d: Mail): Option<Envelope>
  {
    d.envelope
  }

  /** The message field of `expect($text)` accepts the mails whose body
      contains the text. */
  lemma ExpectedTextAccepts(index: nat, text: string, d: Mail)
    ensures FieldEntry(index, "message", Is(MessageMatcher(BodyWith(text))), MessageOf).constraint.accepts(d)
      <==> ContainsText(BodyText(d.message), text)
  {
    FieldEntryAccepts(index, "message", Is(MessageMatcher(BodyWith(text))), MessageOf, d);
  }

  /** An envelope field accepts the mails whose envelope the envelope
      constraint accepts; a mail sent without an envelope never. */
  lemma EnvelopeFieldAccepts(index: nat, c: EnvelopeConstraint, d: Mail)
    ensures FieldEntry(index, "envelope", Is(EnvelopeConstraints.AsMatcher(c)), EnvelopeOf).constraint.accepts(d)
      <==> d.envelope.Some? && Matches(c, EnvelopeSubject(d.envelope.value)) == Ok(true)
  {
    FieldEntryAccepts(index, "envelope", Is(EnvelopeConstraints.AsMatcher(c)), EnvelopeOf, d);
  }

  class TestMailer {
    const table: GroupTable<Mail>
    var data: seq<Mail>

    ghost predicate Valid()
      reads this, table
    {
      table.Valid() && table.groupName == GroupName
    }

    constructor ()
      ensures Valid() && fresh(table)
      ensures data == [] && table.entries == [] && table.current == 0
    {
      table := new GroupTable(GroupName);
      data := [];
    }

    /** `send($message, $envelope)`. */
    method Send(message: MailMessage, envelope: Option<Envelope>)
      modifies this
      ensures data == old(data) + [Mail(message, envelope)]
    {
      data := data + [Mail(message, envelope)];
    }

    /** `expect($message)`: a new group whose first field is the message. */
    method Expect(message: MessageExpectation)
      requires Valid()
      modifies table
      ensures Valid()
      ensures table.current == old(table.current) + 1
      ensures table.entries == old(table.entries) + [FieldEntry(table.current, "message", Is(MessageMatcher(message)), MessageOf)]
    {
      table.Next();
      var r := table.Set("message", Is(MessageMatcher(message)), MessageOf);
    }

    /** `envelope($envelope)`: one envelope constraint per group. */
    method Envelope(envelope: Matcher<Option<Envelope>>) returns (r: Result<()>)
      requires Valid()
      modifies table
      ensures Valid() && table.current == old(table.current)
      ensures r.Throws? <==> old(table.DeclaredInCurrent("envelope"))
      ensures r.Throws? ==> r.error == Runtime("Cannot redefine " + FieldKey(table.current, "envelope"))
      ensures r.Throws? ==> table.entries == old(table.entries)
      ensures r.Ok? ==> table.entries == old(table.entries) + [FieldEntry(table.current, "envelope", Is(envelope), EnvelopeOf)]
    {
      r := table.Set("envelope", Is(envelope), EnvelopeOf);
    }

    /** `assert($strict)` over `getValue()`, the mails in send order. */
    method Assert(strict: bool) returns (failures: seq<GroupFailure>)
      requires Valid()
      ensures failures == Report(GroupName, Match(Members(GroupBy(table.entries)), data), strict)
    {
      failures := table.Assert(data, strict);
    }
  }
}
