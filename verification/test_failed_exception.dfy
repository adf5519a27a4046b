/** The message of `TestFailedException`: one entry per wrapped
    `ExpectationFailedException`, joined by blank lines and trimmed. */
module TestFailedException {
  import opened Php
  import opened PhpStrings

  /** `if ($this->description)`: null, "" and "0" add no prefix. */
  predicate HasDescription(description: Option<string>)
  {
    description.Some? && !EmptyString(description.value)
  }

  /** One entry: the failure's text, then its comparison or a newline,
      behind the description line when there is a description. */
  function Entry(f: Failure, description: Option<string>): (e: string)
  {
    var value := f.text + (if f.comparison.Some? then f.comparison.value else "\n");
    if HasDescription(description) then description.value + "\n" + value else value
  }

  function Entries(failures: seq<Failure>, description: Option<string>): (es: seq<string>)
    ensures |es| == |failures|
    ensures forall i :: 0 <= i < |failures| ==> es[i] == Entry(failures[i], description)
  {
    seq(|failures|, i requires 0 <= i < |failures| => Entry(failures[i], description))
  }

  /** `trim(implode("\n\n", $exceptions))`. */
  function Message(failures: seq<Failure>, description: Option<string>): string
  {
    Trim(Join(Entries(failures, description), "\n\n"))
  }

  /** `implode` puts the first part first and the rest after one separator. */
  lemma {:induction false} JoinCons(parts: seq<string>, sep: string)
    requires |parts| >= 2
    ensures Join(parts, sep) == parts[0] + sep + Join(parts[1..], sep)
  {
    if |parts| > 2 {
      var init := parts[..|parts| - 1];
      JoinCons(init, sep);
      assert init[1..] == parts[1..][..|parts[1..]| - 1];
    }
  }

  /** Every entry carries the description line when there is one, and the
      entries keep the order of the failures. */
  lemma EntriesShape(failures: seq<Failure>, description: Option<string>, i: nat)
    requires i < |failures|
    ensures var e := Entries(failures, description)[i];
      && (HasDescription(description) ==> e[..|description.value| + 1] == description.value + "\n")
      && (!HasDescription(description) ==> e[..|failures[i].text|] == failures[i].text)
      && (failures[i].comparison.None? ==> e[|e| - 1] == '\n')
  {
  }

  /** No failures give an empty message. */
  lemma MessageOfNone(description: Option<string>)
    ensures Message([], description) == ""
  {
  }

  /** The message lists the entries in order, separated by a blank line,
      with the whitespace at both ends removed. */
  lemma {:induction false} MessageJoinsEntries(failures: seq<Failure>, description: Option<string>)
    requires |failures| >= 2
    ensures Message(failures, description)
         == Trim(Entry(failures[0], description) + "\n\n" + Join(Entries(failures[1..], description), "\n\n"))
  {
    var es := Entries(failures, description);
    JoinCons(es, "\n\n");
    assert es[1..] == Entries(failures[1..], description);
  }

  /** The message is a slice of the joined entries, and starts and ends
      with a character that `trim()` keeps. */
  lemma MessageIsTrimmed(failures: seq<Failure>, description: Option<string>)
    ensures var j := Join(Entries(failures, description), "\n\n");
      var m := Message(failures, description);
      && (exists a, b :: 0 <= a <= b <= |j| && m == j[a..b])
      && (m != [] ==> !IsTrimmed(m[0]) && !IsTrimmed(m[|m| - 1]))
  {
    TrimSpec(Join(Entries(failures, description), "\n\n"));
  }
}
