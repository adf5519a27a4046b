/** `TestNotifier`: a notifier that records every notification sent with
    its recipients, and a group table (`GROUP_NAME` "notifier") of the
    notifications expected. */
module Notifier {
  import opened Php
  import opened PhpArrays
  import opened Matchers
  import opened Expectations
  import opened Grouping
  import opened FirstFit
  import opened TestGroups
  import opened ArrayContainsConstraint
  import opened NotificationRecipientConstraints

  /** The exception a notification carries, as `getException()` shows it. */
  datatype NotificationException = NotificationException(className: string, message: string, code: int)

  /** A notification as its getters show it; `channels` is what
      `getChannels(new NoRecipient())` returns. */
  datatype Notification = Notification(
    subject: string,
    content: string,
    importance: string,
    emoji: string,
    exception: Option<NotificationException>,
    channels: seq<string>)

  /** `['notification' => …, 'recipients' => …]`. */
  datatype Sent = Sent(notification: Notification, recipients: seq<Value>)

  const GroupName := "notifier"

  function SubjectField(subject: Expected<Value>): Field<Sent>
  {
    Field("notification_subject", subject, (d: Sent) => Str(d.notification.subject))
  }

  function ContentField(content: Expected<Value>): Field<Sent>
  {
    Field("notification_content", content, (d: Sent) => Str(d.notification.content))
  }

  function ImportanceField(importance: Expected<Value>): Field<Sent>
  {
    Field("notification_importance", importance, (d: Sent) => Str(d.notification.importance))
  }

  function EmojiField(emoji: Expected<Value>): Field<Sent>
  {
    Field("notification_emoji", emoji, (d: Sent) => Str(d.notification.emoji))
  }

  /** `getException()?->getClass()`: null without an exception. */
  function ExceptionClassField(className: string): Field<Sent>
  {
    Field("notification_exception_class", PlainString(className),
      (d: Sent) => NullableString(if d.notification.exception.Some? then Some(d.notification.exception.value.className) else None))
  }

  function ExceptionMessageField(message: Expected<Value>): Field<Sent>
  {
    Field("notification_exception_message", message,
      (d: Sent) => NullableString(if d.notification.exception.Some? then Some(d.notification.exception.value.message) else None))
  }

  function ExceptionCodeField(code: Expected<Value>): Field<Sent>
  {
    Field("notification_exception_code", code,
      (d: Sent) => if d.notification.exception.Some? then Int(d.notification.exception.value.code) else Null)
  }

  /** The channels as the PHP list `getChannels` returns. */
  function ChannelList(channels: seq<string>): (a: PhpArray<Value>)
    ensures |a| == |channels| && IsList(a)
    ensures forall i :: 0 <= i < |channels| ==> a[i].1 == Str(channels[i])
  {
    FromList(seq(|channels|, i requires 0 <= i < |channels| => Str(channels[i])))
  }

  function ChannelsField(channels: Expected<Value>): Field<Sent>
  {
    Field("notification_channels", channels, (d: Sent) => Arr(ChannelList(d.notification.channels)))
  }

  /** `if ($message)` / `if ($code)`: an optional expectation is declared
      when given and truthy; a constraint is an object, always truthy. */
  predicate Given(e: Option<Expected<Value>>)
  {
    e.Some? && (e.value.Is? || Truthy(e.value.value))
  }

  /** The fields `exception` declares, in order. */
  function ExceptionFields(className: string, message: Option<Expected<Value>>, code: Option<Expected<Value>>)
    : (fs: seq<Field<Sent>>)
    ensures DistinctNames(fs)
    ensures fs != [] && fs[0] == ExceptionClassField(className)
    ensures Names(fs) == ["notification_exception_class"]
      + (if Given(message) then ["notification_exception_message"] else [])
      + (if Given(code) then ["notification_exception_code"] else [])
    ensures Given(message) ==> fs[1].expected == message.value
    ensures Given(code) ==> fs[|fs| - 1].expected == code.value
  {
    [ExceptionClassField(className)]
      + (if Given(message) then [ExceptionMessageField(message.value)] else [])
      + (if Given(code) then [ExceptionCodeField(code.value)] else [])
  }

  /** A code of 0, an empty message or a message "0" declare nothing: only
      the class is checked. */
  lemma FalsyDetailsIgnored(className: string, message: string, mShown: string, cShown: string)
    requires EmptyString(message)
    ensures ExceptionFields(className, Some(Raw(Str(message), mShown)), Some(Raw(Int(0), cShown)))
      == [ExceptionClassField(className)]
  {
  }

  /** `new Callback($callback)`. */
  function Callback<V>(callback: V -> bool): (m: Matcher<V>)
    ensures m.accepts == callback
  {
    Matcher(callback, "is accepted by specified callback")
  }

  /** `new Count(0)` on an array. */
  const NoElements := Matcher((v: Value) => v.Arr? && |v.entries| == 0, "count matches 0")

  /** Each given constraint as an expectation. */
  function AllIs(cs: seq<Matcher<Value>>): (es: seq<Expected<Value>>)
    ensures |es| == |cs| && forall i :: 0 <= i < |cs| ==> es[i] == Is(cs[i])
  {
    seq(|cs|, i requires 0 <= i < |cs| => Is(cs[i]))
  }

  /** The constraint `recipients(...$recipients)` declares: `Count(0)`
      without arguments, otherwise a strict `ArrayContains` of the list. */
  function RecipientsMatcher(cs: seq<Matcher<Value>>): Matcher<Value>
  {
    if cs == [] then NoElements
    else ArrayContainsConstraint.AsMatcher(ArrayContains(FromList(AllIs(cs)), true))
  }

  function RecipientsField(cs: seq<Matcher<Value>>): Field<Sent>
  {
    Field("recipients", Is(RecipientsMatcher(cs)), (d: Sent) => Arr(FromList(d.recipients)))
  }

  /** Both forms amount to: exactly one recipient per constraint, each
      accepted by the constraint at its position. */
  lemma RecipientsFieldAccepts(cs: seq<Matcher<Value>>, d: Sent)
    ensures var f := RecipientsField(cs);
      (Normalize(f.expected).accepts(f.actual(d))
       <==> |d.recipients| == |cs| && forall i :: 0 <= i < |cs| ==> cs[i].accepts(d.recipients[i]))
  {
    if cs != [] {
      StrictListContains(AllIs(cs), d.recipients);
    }
  }

  /** As written, `recipients(new NotificationEmailRecipient(…))` (or the
      SMS form) passes for a sent notification whose only recipient lacks
      the address; with the corrected evaluation it fails. */
  lemma RecipientWithoutAddressPasses(c: RecipientMatching, view: Value -> Option<Recipient>, v: Value, n: Notification)
    requires view(v).Some? && Address(view(v).value, c.kind).None?
    ensures Normalize(RecipientsField([MatchingAsWrittenMatcher(c, view)]).expected).accepts(Arr(FromList([v])))
    ensures !Normalize(RecipientsField([MatchingAsMatcher(c, view)]).expected).accepts(Arr(FromList([v])))
  {
    RecipientsFieldAccepts([MatchingAsWrittenMatcher(c, view)], Sent(n, [v]));
    RecipientsFieldAccepts([MatchingAsMatcher(c, view)], Sent(n, [v]));
  }

  class TestNotifier {
    const table: GroupTable<Sent>
    var data: seq<Sent>

    ghost predicate Valid()
      reads this, table
    {
      table.Valid() && table.groupName == GroupName
    }

    constructor ()
      ensures Valid() && fresh(table)
      ensures data == [] && table.entries == [] && table.current == 0
    {
      table := new GroupTable(GroupName);
      data := [];
    }

    /** `send($notification, ...$recipients)`. */
    method Send(notification: Notification, recipients: seq<Value>)
      modifies this
      ensures data == old(data) + [Sent(notification, recipients)]
    {
      data := data + [Sent(notification, recipients)];
    }

    /** `expect($subject)`: a new group. */
    method Expect(subject: Expected<Value>)
      requires Valid()
      requires subject.Raw? ==> subject.value.Str?
      modifies table
      ensures Valid()
      ensures table.current == old(table.current) + 1
      ensures table.entries == old(table.entries) + FieldEntries(table.current, [SubjectField(subject)])
    {
      table.Open([SubjectField(subject)]);
    }

    method Content(content: Expected<Value>) returns (r: Result<()>)
      requires Valid()
      requires content.Raw? ==> content.value.Str?
      modifies table
      ensures Valid()
      ensures table.SetOutcome(ContentField(content), r)
    {
      r := table.SetField(ContentField(content));
    }

    method Importance(importance: Expected<Value>) returns (r: Result<()>)
      requires Valid()
      requires importance.Raw? ==> importance.value.Str?
      modifies table
      ensures Valid()
      ensures table.SetOutcome(ImportanceField(importance), r)
    {
      r := table.SetField(ImportanceField(importance));
    }

    method Emoji(emoji: Expected<Value>) returns (r: Result<()>)
      requires Valid()
      requires emoji.Raw? ==> emoji.value.Str?
      modifies table
      ensures Valid()
      ensures table.SetOutcome(EmojiField(emoji), r)
    {
      r := table.SetField(EmojiField(emoji));
    }

    /** `exception($class, $message, $code)`: the class always, message and
        code only when truthy; the first redefinition throws. */
    method Exception(className: string, message: Option<Expected<Value>>, code: Option<Expected<Value>>)
      returns (r: Result<()>)
      requires Valid()
      modifies table
      ensures Valid() && table.current == old(table.current)
      ensures r.Ok? ==> table.entries == old(table.entries) + FieldEntries(table.current, ExceptionFields(className, message, code))
      ensures r.Ok? <==> forall i :: 0 <= i < |ExceptionFields(className, message, code)| ==>
        !old(table.DeclaredInCurrent(ExceptionFields(className, message, code)[i].name))
      ensures var fs := ExceptionFields(className, message, code);
        r.Throws? ==> exists k :: (
          && 0 <= k < |fs| && old(table.DeclaredInCurrent(fs[k].name))
          && (forall i :: 0 <= i < k ==> !old(table.DeclaredInCurrent(fs[i].name)))
          && r.error == Runtime("Cannot redefine " + FieldKey(table.current, fs[k].name))
          && table.entries == old(table.entries) + FieldEntries(table.current, fs[..k]))
    {
      r := table.SetAll(ExceptionFields(className, message, code));
    }

    method Channels(channels: Expected<Value>) returns (r: Result<()>)
      requires Valid()
      requires channels.Raw? ==> channels.value.Arr?
      modifies table
      ensures Valid()
      ensures table.SetOutcome(ChannelsField(channels), r)
    {
      r := table.SetField(ChannelsField(channels));
    }

    /** `custom($callback)`: the callback, as a `Callback` constraint, is
        applied to the notification itself. */
    method Custom(callback: Notification -> bool) returns (r: Result<()>)
      requires Valid()
      modifies table
      ensures Valid() && table.current == old(table.current)
      ensures r.Throws? <==> old(table.DeclaredInCurrent("notification_custom"))
      ensures r.Throws? ==>
        r.error == Runtime("Cannot redefine " + FieldKey(table.current, "notification_custom"))
        && table.entries == old(table.entries)
      ensures r.Ok? ==>
        table.entries == old(table.entries) + [FieldEntry(table.current, "notification_custom", Is(Callback(callback)), NotificationOf)]
      ensures forall n :: table.DeclaredInCurrent(n) <==> old(table.DeclaredInCurrent(n)) || (r.Ok? && n == "notification_custom")
    {
      r := table.Set("notification_custom", Is(Callback(callback)), NotificationOf);
    }

    method Recipients(cs: seq<Matcher<Value>>) returns (r: Result<()>)
      requires Valid()
      modifies table
      ensures Valid()
      ensures table.SetOutcome(RecipientsField(cs), r)
    {
      r := table.SetField(RecipientsField(cs));
    }

    /** `assert($strict)` over `getValue()`, the notifications in send order. */
    method Assert(strict: bool) returns (failures: seq<GroupFailure>)
      requires Valid()
      ensures failures == Report(GroupName, Match(Members(GroupBy(table.entries)), data), strict)
    {
      failures := table.Assert(data, strict);
    }
  }

  function NotificationOf(d: Sent): Notification
  {
    d.notification
  }

  /** The custom field accepts exactly what the callback accepts. */
  lemma CustomFieldAccepts(index: nat, callback: Notification -> bool, d: Sent)
    ensures FieldEntry(index, "notification_custom", Is(Callback(callback)), NotificationOf).constraint.accepts(d)
      == callback(d.notification)
  {
    FieldEntryAccepts(index, "notification_custom", Is(Callback(callback)), NotificationOf, d);
  }
}
