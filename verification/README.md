# phpunit-testing-tools, modelled in Dafny

`forlond/phpunit-testing-tools` gives PHPUnit tests recording doubles for
framework services: a PSR logger, a Symfony event dispatcher, translator,
notifier, mailer, HTTP client, form and validator, a workflow marking store
and a Doctrine statement. Each double records what the code under test did
with it. The test then declares *expectations* on those records with a fluent
builder, and `assert()` checks them all at once.

This project models the core of that machinery and proves what it promises.

- **The expectation table** (`AbstractTest`). This is a name-keyed table of
  `TestConstraint`s; a constraint is a resolver followed by a PHPUnit
  constraint. A name is declared once. A plain expected value is compared by
  identity. `assert()` evaluates every constraint and collects every failure
  into one `TestFailedException`.
- **Grouped expectations** (`AbstractTestGroup`, `AbstractTestCollection`).
  - A counter prefixes every field as `"<index>.<name>"`.
  - `getConstraints()` rebuilds one conjunction per index.
  - `assert()` matches the groups greedily against the recorded elements. Each
    group claims the first remaining element it accepts. Unmatched groups are
    reported and so, in strict mode, are unclaimed elements.
  - The collection variant reports the unmatched expectations before the
    leftovers.
- **The conjunction units.** These are `TestConstraint`, `TestConstraintGroup`
  and `TestConstraintCollection`.
- **The PHPUnit constraints of the library.** These are `ArrayContains`,
  `AssociativeArrayContains`, `ListArrayContains`, `WithConsecutive` and
  `TraversableContainsCallback`.
- **The failure message** of `TestFailedException`.
- **The recorders and their builders.**
  - The append-only recorders: `TestLogger`, `TestEventDispatcher`,
    `TestTranslator`, `TestNotifier`, `TestMailer` and `TestHttpClient`.
  - `TestForm` with `TestFormErrors`.
  - `TestConstraintViolationList` and `TestConstraintValidatorConfigurator`.
  - `TestMarkingStorage` and `TestStatement`.
- **The envelope and recipient constraints** of the mailer and notifier
  doubles.

How PHP is represented:

- A PHP value is `Php.Value`: null, bool, int, string, array or object.
- A PHP array is an ordered sequence of (key, value) pairs with unique keys.
- An object is known by its handle, its class name and, when it is
  `Stringable`, its string.
- A PHPUnit constraint is a `Matchers.Matcher`, a predicate with its
  description. An argument typed `Constraint|mixed` is a
  `Matchers.Expected`: either a plain value (with the Exporter's rendering of
  it) or a matcher.
- An object that implements `ArrayAccess` is read through a parameter
  (`PhpArrays.Access`) that gives its offsets.
- A thrown exception is the `Throws` case of `Php.Result`.

Each recorder is a class. Its recorded list is a `seq` field that its methods
append to. Its inherited constraint table is a `GroupTable` or
`CollectionTable` object that it holds. Every builder method states the
table's whole new state. A one-field builder adds exactly one new entry, or
throws the redefinition error with the table unchanged. A builder that
declares several fields (`TestNotifier::exception`) keeps the entries of the
fields before the first redefined one.

`assert()` is stated against specification functions:

- `FirstFit.Match`: the greedy claims and the unclaimed elements.
- `TestGroups.Report` and `TestCollections.Outcome`: what gets reported.

The lemmas beside them prove the matching properties. Each group claims at
most one element, and no element is claimed twice. A claimed element is the
first remaining one the group accepts. An unclaimed element was rejected by
every earlier group that could have taken it.

## Model

| member | source | states |
|---|---|---|
| Expectations.Declare | src/AbstractTest.php:43-54 | throws "Cannot redefine <name>" exactly when the name is already a key; otherwise appends exactly one entry under that name after the existing ones, its constraint delegating to the normalised expectation; key uniqueness is kept |
| Expectations.DeclaredConstraintAccepts | src/AbstractTest.php:49-53 | the stored constraint accepts x iff the given matcher accepts the resolved value; a plain value accepts exactly the identical resolved value |
| Expectations.RejectingSpec | src/AbstractTest.php:28-34 | the positions of rejecting constraints are listed once each, ascending, and every rejecting position is listed |
| Expectations.FailuresInOrder | src/AbstractTest.php:28-34 | `assert` collects one failure per rejecting constraint and does not stop at the first; the k-th failure is the one the k-th rejecting constraint throws |
| Expectations.RejectingNoneIff | src/AbstractTest.php:28-34 | no rejecting position iff every constraint accepts |
| Expectations.FailuresEmptyIff | src/AbstractTest.php:36-38 | the failure list is empty iff every constraint accepts the value |
| Expectations.EmptyTableAsserts | src/AbstractTest.php:25-38 | an empty table collects no failure |
| Expectations.ExpectationTable.constructor | src/AbstractTest.php:18 | the table starts empty |
| Expectations.ExpectationTable.Set | src/AbstractTest.php:43-54 | a redefinition throws and changes nothing; otherwise the table becomes `Declare` of the old table |
| Expectations.ExpectationTable.GetConstraints | src/AbstractTest.php:59-62 | the constraints in declaration order, one per entry |
| Expectations.ExpectationTable.Assert | src/AbstractTest.php:23-39 | passes iff every constraint accepts the value; otherwise throws a `TestFailedException` built from all failures in declaration order with the description |
| Expectations.DefaultFailureDescription | src/AbstractTest.php:64-67 | the default description is null, so no entry is prefixed |
| TestConstraints.New | src/TestConstraint.php:12-17 | keeps the name and the delegate's description |
| TestConstraints.EvaluateResolvesThenDelegates | src/TestConstraint.php:22-25 | evaluating applies the resolver once and passes the result, with the name as description, to the delegate |
| TestConstraints.EvaluateOutcomes | src/TestConstraint.php:22-25 | with `returnResult` the verdict is returned; without it, null on pass and a thrown failure on reject whose text starts with the name and a newline |
| TestConstraints.ToStringOfNew | src/TestConstraint.php:30-33 | `toString` is the name, a space and the delegate's description |
| TestConstraints.DoublingResolverExample | src/TestConstraint.php:22-25 | with a doubling resolver, input 10 reaches an identity check as 20: accepted by 20, rejected by 21, null in throwing mode |
| TestConstraintGroups.AllAccept | src/TestConstraintGroup.php:18-27 | true iff every member accepts the input |
| TestConstraintGroups.Tried | src/TestConstraintGroup.php:20-24 | members are tried in order and trying stops at the first rejecting member; every earlier member accepted |
| TestConstraintGroups.Evaluate | src/TestConstraintGroup.php:18-27 | corrected, each member asked for its verdict: a group accepts iff every member accepts |
| TestConstraintGroups.EvaluateAsWrittenSpec | src/TestConstraintGroup.php:18-27 | as written, each member evaluated in throwing mode: true iff every member accepts and returns true on a pass; a member that rejects throws its failure out of the loop |
| TestConstraintGroups.PlainGroupNeverMatches | src/TestConstraintGroup.php:20-22 | as written, a group whose first member returns null on a pass gives false when that member accepts and throws that member's failure when it rejects |
| TestConstraintGroups.EmptyGroupAccepts | src/TestConstraintGroup.php:18-27 | an empty group accepts anything |
| TestConstraintCollections.TestConstraintCollection.constructor | src/TestConstraintCollection.php:13 | a new collection is empty |
| TestConstraintCollections.TestConstraintCollection.AddConstraint | src/TestConstraintCollection.php:15-20 | appends one constraint at the end, keeps the earlier ones and returns the same collection |
| TestConstraintCollections.TestConstraintCollection.Evaluate | src/TestConstraintCollection.php:22-31 | true iff every added constraint accepts |
| Grouping.FieldKeyRoundTrip | src/AbstractTestGroup.php:65 | the text before the first dot of `"<index>.<name>"` is the index's digits and parses back to the index, even for dotted names; the rest is the name |
| Grouping.FieldKeyInjective | src/AbstractTestGroup.php:65 | two field keys are equal iff their indices and names are |
| Grouping.FieldEntry | src/AbstractTestGroup.php:63-66 | a group field is stored under `"<index>.<name>"`, and that key is the constraint's name |
| Grouping.FieldEntryAccepts | src/AbstractTestGroup.php:63-66 | a stored group field accepts a record iff its normalised expectation accepts the resolved value |
| Grouping.Names | src/AbstractTestGroup.php:63-66 | the names of a run of fields, in order |
| Grouping.FieldEntries | src/AbstractTestGroup.php:63-66 | the entries a run of fields declares in one group, one per field, in order |
| Grouping.Find | src/AbstractTestGroup.php:80 | the position of the first group with a prefix, or -1 when none has it |
| Grouping.LabelsSpec | src/AbstractTestGroup.php:78-80 | the group labels are distinct and each is the index part of some key, and every key's index part is a label |
| Grouping.SelectOfAbsent | src/AbstractTestGroup.php:78-80 | no constraint is selected for a label no key has |
| Grouping.GroupByShape | src/AbstractTestGroup.php:73-84 | one group per distinct index in first-appearance order, each holding exactly the constraints of its index in declaration order |
| Grouping.TotalUpdate | src/AbstractTestGroup.php:80 | replacing one group changes the constraint count by the difference of sizes |
| Grouping.GroupByKeepsAll | src/AbstractTestGroup.php:73-84 | grouping loses and duplicates no constraint: the group sizes add up to the table size |
| Grouping.LabelsOfFieldKeys | src/AbstractTestGroup.php:65-80 | the labels are the digits of the declared indices, deduplicated in order |
| Grouping.DedupAscending | src/AbstractTestGroup.php:68-71 | indices that never decrease give strictly ascending groups |
| FirstFit.FirstAcceptedSpec | src/AbstractTestGroup.php:29-34 | the first remaining element, in recorded order, that the group accepts; none when no remaining element is accepted |
| FirstFit.Match | src/AbstractTestGroup.php:27-42 | one claim per group, and the unclaimed elements stay in range |
| FirstFit.RangeSpec | src/AbstractTestGroup.php:25 | the working copy starts as every position, ascending |
| FirstFit.RemoveAt | src/AbstractTestGroup.php:31 | `unset` of a claimed position keeps the rest ascending and removes exactly that element |
| FirstFit.ClaimedSnoc | src/AbstractTestGroup.php:27-34 | a further group's claim adds exactly that element to the claimed ones |
| FirstFit.MatchStep | src/AbstractTestGroup.php:27-42 | a new group either claims nothing and leaves the rest unchanged, or claims its first accepted remaining element, which is then removed |
| FirstFit.MatchRest | src/AbstractTestGroup.php:27-34 | an element is left over iff no group claimed it, and the leftovers keep recorded order |
| FirstFit.MatchAccepted | src/AbstractTestGroup.php:30 | a claimed element is accepted by the group claiming it |
| FirstFit.MatchInjective | src/AbstractTestGroup.php:31-32 | no element is claimed by two groups |
| FirstFit.FirstFitAt | src/AbstractTestGroup.php:29-33 | an element still unclaimed when a group is tried, and before that group's claim, is rejected by that group |
| FirstFit.FirstFitLast | src/AbstractTestGroup.php:29-33 | the same for the last group tried, given the working copy the earlier groups left |
| FirstFit.MatchFirstFit | src/AbstractTestGroup.php:29-33 | the claim is first-fit for every group: every earlier remaining element is rejected |
| FirstFit.UnmatchedSpec | src/AbstractTestGroup.php:35-41 | exactly the groups that claimed nothing, ascending |
| FirstFit.UnmatchedSnoc | src/AbstractTestGroup.php:35-41 | a further group is reported unmatched iff it claimed nothing |
| FirstFit.MatchNext | src/AbstractTestGroup.php:27-42 | one more group keeps the earlier claims and adds its own: the element at the place the inner loop found, which leaves the working copy, or nothing |
| FirstFit.UnmatchedEmptyIff | src/AbstractTestGroup.php:35-41 | no group is unmatched iff every group claimed an element |
| FirstFit.GreedyIsNotOptimal | src/AbstractTestGroup.php:29-33 | greedy claiming can fail where a perfect matching exists: an accept-anything group takes the only element a later group could have used |
| TestGroups.Members | src/AbstractTestGroup.php:83 | the members of each group, in group order |
| TestGroups.NoMatches | src/AbstractTestGroup.php:35-41 | one no-match failure per unmatched group, in group order |
| TestGroups.NoMatchesSnoc | src/AbstractTestGroup.php:35-41 | a further group adds exactly one failure, after the earlier ones, iff it claimed nothing |
| TestGroups.UnmatchedGroupIsEngineError | src/AbstractTestGroup.php:35-41 | as written, an unmatched group ends `assert` in the engine error of the undefined `toString()`, exactly when some group claimed nothing; otherwise the leftovers in strict mode |
| TestGroups.ReportEmptyIff | src/AbstractTestGroup.php:44-56 | nothing is reported iff every group claimed an element and, in strict mode, nothing is left over |
| TestGroups.ReportLeftover | src/AbstractTestGroup.php:44-52 | non-strict mode reports only unmatched groups; strict mode with leftovers ends with one failure listing them; the leftovers are exactly the unclaimed elements |
| TestGroups.GroupBySamePrefix | src/AbstractTestGroup.php:73-84 | keys of one index form one group holding all their constraints in order |
| TestGroups.OneOpenIsOneGroup | src/AbstractTestGroup.php:68-84 | one `next()` then declarations gives one group, index 1, of those fields |
| TestGroups.OneGroupOneElement | src/AbstractTestGroup.php:22-59 | one recorded element accepted by the only group gives no failure, strict or not |
| TestGroups.ClaimStep | src/AbstractTestGroup.php:27-42 | one turn of the outer loop keeps the working copy and the failures equal to those of the matching of the groups seen so far |
| TestGroups.FindClaim | src/AbstractTestGroup.php:29-34 | the inner loop returns the first remaining element the group accepts |
| TestGroups.GroupTable.constructor | src/AbstractTestGroup.php:15-17 | an empty table with counter 0 under the recorder's group name |
| TestGroups.GroupTable.Next | src/AbstractTestGroup.php:68-71 | the counter goes up by exactly 1, no entry changes, and nothing is declared in the new group |
| TestGroups.GroupTable.Set | src/AbstractTestGroup.php:63-66 | stores the field under `"<current>.<name>"`; a name already declared in the current group throws the redefinition error and changes nothing; the same name may be declared in another group |
| TestGroups.GroupTable.KeyDeclaredIff | src/AbstractTestGroup.php:63-66 | the key `"<current>.<name>"` is taken iff the current group already declares the name |
| TestGroups.GroupTable.SetField | src/AbstractTestGroup.php:63-66 | one builder call: exactly the new field appended, or the redefinition error with the table unchanged |
| TestGroups.GroupTable.SetAll | src/AbstractTestGroup.php:63-66 | declares fields in order until the first already declared one, which throws; the earlier ones stay declared |
| TestGroups.GroupTable.Open | src/AbstractTestGroup.php:68-71 | `next()` then the fields: a new group holding exactly those fields |
| TestGroups.GroupTable.GetConstraints | src/AbstractTestGroup.php:73-84 | the groups by index, built from the table |
| TestGroups.GroupTable.GroupsFollowCounter | src/AbstractTestGroup.php:68-84 | one group per index used, labelled by the index, in ascending index order |
| TestGroups.GroupTable.Assert | src/AbstractTestGroup.php:22-59 | the failures are the unmatched groups, then the leftovers in strict mode, of the greedy matching of the groups against the recorded list, which is left unchanged; groups are evaluated by the corrected verdict and failures are structural |
| TestCollections.OutcomeSpec | src/AbstractTestCollection.php:14-46 | passes iff every expectation matched and, in strict mode, nothing is left over; leftovers are reported only when every expectation matched; unmatched expectations are reported iff some expectation matched nothing |
| TestCollections.FindClaimIn | src/AbstractTestCollection.php:19-26 | the inner loop returns the first remaining element the collection accepts |
| TestCollections.ClaimStepIn | src/AbstractTestCollection.php:19-27 | one turn of the outer loop keeps the working copy and the unmatched list equal to those of the matching of the collections seen so far |
| TestCollections.AddToCollection | src/AbstractTestCollection.php:64-68 | one turn of the grouping loop: the constraint joins the collection of its prefix, a new collection when the prefix is new; the earlier collections stay where they are |
| TestCollections.CollectionTable.constructor | src/AbstractTestCollection.php:10 | an empty table with counter 0 |
| TestCollections.CollectionTable.Next | src/AbstractTestCollection.php:55-58 | the counter goes up by exactly 1 and no entry changes |
| TestCollections.CollectionTable.Set | src/AbstractTestCollection.php:48-53 | stores the field under `"<current>.<name>"`; a redefinition in the current group throws and changes nothing |
| TestCollections.CollectionTable.KeyDeclaredIff | src/AbstractTestCollection.php:48-53 | the key `"<current>.<name>"` is taken iff the current group already declares the name |
| TestCollections.CollectionTable.SetField | src/AbstractTestCollection.php:48-53 | one builder call: exactly the new field appended, or the redefinition error with the table unchanged |
| TestCollections.CollectionTable.Open | src/AbstractTestCollection.php:55-58 | `next()` then the fields: a new group holding exactly those fields |
| TestCollections.CollectionTable.GetConstraints | src/AbstractTestCollection.php:60-71 | one new, distinct `TestConstraintCollection` per index, holding that index's constraints in declaration order |
| TestCollections.CollectionTable.Assert | src/AbstractTestCollection.php:14-46 | the outcome of greedy matching of the collections against the recorded list |
| TestFailedException.Entries | src/Exception/TestFailedException.php:18-26 | one entry per failure, in the given order |
| TestFailedException.EntriesShape | src/Exception/TestFailedException.php:20-24 | a non-empty description and a newline start each entry; otherwise the failure text does; without a comparison the entry ends with a newline |
| TestFailedException.MessageOfNone | src/Exception/TestFailedException.php:28 | no failure gives an empty message |
| TestFailedException.MessageJoinsEntries | src/Exception/TestFailedException.php:28 | entries are separated by a blank line, first entry first |
| TestFailedException.MessageIsTrimmed | src/Exception/TestFailedException.php:28 | the message is a slice of the joined entries with no surrounding whitespace |
| TestFailedException.JoinCons | src/Exception/TestFailedException.php:28 | `implode` of two or more parts is the first part, the separator and the rest |
| PhpStrings.Join | src/Exception/TestFailedException.php:28 | `implode` of no part is empty, and of one part is that part |
| PhpStrings.TrimSpec | src/Exception/TestFailedException.php:28 | `trim` gives a slice with no whitespace at either end, changes nothing already trimmed, and empties an all-whitespace string |
| PhpStrings.BeforeFirstDot | src/AbstractTestGroup.php:79 | `explode('.')[0]`: the longest dot-free prefix, which ends at the first dot |
| PhpStrings.BeforeFirstDotOfJoin | src/AbstractTestGroup.php:65-79 | a dot-free part joined by a dot comes back first |
| PhpStrings.ParseNatOfNatToString | src/AbstractTestGroup.php:65 | the decimal `%d` rendering of an index parses back to it |
| PhpStrings.NatToStringInjective | src/AbstractTestGroup.php:65 | distinct indices render differently |
| Php.EmptyString | src/Exception/TestFailedException.php:22 | a string is falsy exactly when it is `""` or `"0"` |
| Php.AsString | src/Psr/Log/TestLogger.php:34 | the string a string or `Stringable` value converts to |
| PhpArrays.KeysOf | src/PHPUnit/Constraint/ArrayContains.php:48 | the keys of an array, one per pair, in order |
| PhpArrays.KeyText | src/PHPUnit/Constraint/ArrayContains.php:31 | `%s` of a key: a string key is itself, a non-negative int key its decimal digits |
| PhpArrays.HasKeyIff | src/PHPUnit/Constraint/ArrayContains.php:29 | `array_key_exists` holds iff some pair has that key |
| PhpArrays.HasKeySpec | src/PHPUnit/Constraint/ArrayContains.php:29-40 | `array_key_exists` holds iff the key is one of the array's keys, and then `$other[$key]` is the value of a pair with that key |
| PhpArrays.UnsetAbsent | src/PHPUnit/Constraint/ArrayContains.php:44 | `unset` of an absent key changes nothing |
| PhpArrays.WithoutNothing | src/PHPUnit/Constraint/ArrayContains.php:47 | before any key is removed the working copy is the input |
| PhpArrays.ArrayKey | src/Symfony/Translation/TestTranslator.php:37 | a string used as an array key stays a string key unless it is a canonical decimal integer |
| PhpArrays.FromList | src/Symfony/Notifier/TestNotifier.php:115 | a list array: keys 0, 1, … in order, holding the elements |
| PhpArrays.ListHasKey | src/PHPUnit/Constraint/ListArrayContains.php:31-32 | a list has key i iff 0 <= i < its length, and there it holds its i-th element |
| PhpStrings.NatToString | src/AbstractTestGroup.php:65 | `%d` of a non-negative integer: a non-empty run of decimal digits |
| PhpStrings.IntToString | src/Symfony/Mailer/Constraint/EnvelopeRecipientCount.php:17 | the decimal rendering of any integer is non-empty |
| PhpStrings.NatToStringNoLeadingZero | src/AbstractTestGroup.php:65 | a positive index renders without a leading zero, so it is canonical as an array key |
| PhpArrays.StringCast | src/Symfony/Translation/TestTranslator.php:39 | `(string)` throws only on an object without `__toString`; a string-like value gives its string, an int its digits, null and false the empty string |
| PhpArrays.CanonicalNatToString | src/Symfony/Translation/TestTranslator.php:37 | the decimal digits of a non-negative integer are canonical, read back as that integer, and are "0" only for zero |
| PhpArrays.ArrayKeyOfIntToString | src/Symfony/Translation/TestTranslator.php:37 | a decimal integer string used as an array key is that integer key |
| PhpArrays.UnsetSpec | src/PHPUnit/Constraint/ArrayContains.php:44 | `unset` removes exactly the pairs with that key and keeps the others |
| PhpArrays.Without | src/PHPUnit/Constraint/ArrayContains.php:44 | removing a run of keys keeps exactly the pairs with other keys |
| PhpArrays.WithoutSnoc | src/PHPUnit/Constraint/ArrayContains.php:28-45 | removing one more key is one more `unset` |
| PhpArrays.WithoutKeepsOthers | src/PHPUnit/Constraint/ArrayContains.php:29-40 | removing earlier keys does not change the presence or value of a later key |
| PhpArrays.GetAtIndex | src/PHPUnit/Constraint/ArrayContains.php:40 | with unique keys, looking up a pair's key gives its value |
| Matchers.InstanceOf | src/Symfony/Form/TestForm.php:41-43 | a class name becomes a check that accepts exactly the objects of that class or a subclass |
| Matchers.Normalize | src/AbstractTest.php:49-51 | a plain value becomes an `IsIdentical` with description "is identical to <value>"; a constraint is kept |
| Matchers.NormalizeRaw | src/AbstractTest.php:49-51 | a wrapped plain value accepts exactly itself |
| Matchers.PlainString | src/Psr/Log/TestLogger.php:46 | a string argument is a plain string expectation |
| Matchers.AsStringExpected | src/Psr/Log/TestLogger.php:42-52 | corrected (Findings row 2): a plain `Stringable` expectation stands for its string; constraints and other values are kept |
| Matchers.StringableNeverIdentical | src/AbstractTest.php:49-50 | as written, a plain `Stringable` expectation never accepts the string a recorder stores |
| Matchers.StringableComparedByText | src/Psr/Log/TestLogger.php:34-46 | compared by its string, it accepts exactly the records holding that string |
| Matchers.FailText | src/PHPUnit/Constraint/ArrayContains.php:40 | the description, when not empty, is a line of its own before the failure |
| Matchers.Evaluate | src/TestConstraint.php:24 | `Constraint::evaluate`: the verdict with `returnResult`; otherwise null on pass and a thrown failure on reject |
| Matchers.EvaluateMatches | src/Symfony/Mailer/Constraint/EnvelopeHasRecipient.php:20-37 | `evaluate` over a `matches` that may throw: its exception passes through, and otherwise as `Evaluate` |
| Matchers.EvaluateEqual | src/PHPUnit/Constraint/WithConsecutive.php:47-52 | `IsEqual::evaluate`: true on a pass in both modes; a rejection as `Evaluate` |
| ArrayContainsConstraint.KeyError | src/PHPUnit/Constraint/ArrayContains.php:29-43 | a missing key gives exactly one "exist" error; a present key gives an error iff its value is rejected |
| ArrayContainsConstraint.ExtraErrors | src/PHPUnit/Constraint/ArrayContains.php:47-53 | one "does not exist" error per leftover key, in order |
| ArrayContainsConstraint.Verdict | src/PHPUnit/Constraint/ArrayContains.php:55-63 | with `returnResult` true iff no errors; otherwise one combined failure when there are errors, null when there are none |
| ArrayContainsConstraint.KeyErrorsSnoc | src/PHPUnit/Constraint/ArrayContains.php:28-45 | the failures of one more expected key come after those of the earlier keys |
| ArrayContainsConstraint.KeyStep | src/PHPUnit/Constraint/ArrayContains.php:28-45 | the loop turn for a key: its lookup in the working copy sees the original, then the key is removed |
| ArrayContainsConstraint.ReportExtras | src/PHPUnit/Constraint/ArrayContains.php:48-52 | the loop over the leftovers gives `ExtraErrors` |
| ArrayContainsConstraint.Evaluate | src/PHPUnit/Constraint/ArrayContains.php:21-64 | a non-array throws the logic error whatever `returnResult`; otherwise the verdict on all key errors, then, in strict mode, the extra-key errors |
| ArrayContainsConstraint.AllKeysHoldSnoc | src/PHPUnit/Constraint/ArrayContains.php:28-45 | every key holds so far iff the earlier ones hold and the new one does |
| ArrayContainsConstraint.KeyErrorsEmptyIff | src/PHPUnit/Constraint/ArrayContains.php:28-45 | no key error iff every expected key is present with an accepted value |
| ArrayContainsConstraint.KeyErrorsAtMostOneEach | src/PHPUnit/Constraint/ArrayContains.php:28-45 | at most one error per expected key |
| ArrayContainsConstraint.MissingKeyReported | src/PHPUnit/Constraint/ArrayContains.php:29-34 | each missing key is reported |
| ArrayContainsConstraint.LeftoverEmptyIff | src/PHPUnit/Constraint/ArrayContains.php:44-47 | nothing is left iff every input key is an expected key |
| ArrayContainsConstraint.ErrorsEmptyIff | src/PHPUnit/Constraint/ArrayContains.php:27-56 | no errors iff every key holds and, in strict mode, the input has no other key |
| ArrayContainsConstraint.NonStrictIgnoresExtras | src/PHPUnit/Constraint/ArrayContains.php:47 | non-strict mode reports only key errors, at most one per expected key |
| ArrayContainsConstraint.StrictReportsExtras | src/PHPUnit/Constraint/ArrayContains.php:47-53 | strict mode reports every input key that is not expected |
| ArrayContainsConstraint.EmptyStrictAcceptsOnlyEmpty | src/PHPUnit/Constraint/ArrayContains.php:28-47 | an empty expected array in strict mode passes iff the input is empty |
| ArrayContainsConstraint.AsMatcher | src/PHPUnit/Constraint/ArrayContains.php:66-69 | the description is "contains another array" |
| ArrayContainsConstraint.StrictListContains | src/PHPUnit/Constraint/ArrayContains.php:21-64 | on lists in strict mode: passes iff the lengths are equal and each position is accepted |
| AssociativeArrayContainsConstraint.New | src/PHPUnit/Constraint/AssociativeArrayContains.php:14-23 | a list array, the empty array included, throws the invalid-argument error; otherwise the constraint keeps its arguments |
| AssociativeArrayContainsConstraint.Matches | src/PHPUnit/Constraint/AssociativeArrayContains.php:28-44 | the early-return loop over the offsets of an array or an `ArrayAccess` object: false at the first absent key or rejected value, each key unset once checked; then true outside strict mode, and in strict mode iff the value is empty: an array with nothing else left, never an object |
| AssociativeArrayContainsConstraint.AsMatcher | src/PHPUnit/Constraint/AssociativeArrayContains.php:28-52 | accepts what `matches` accepts, arrays and `ArrayAccess` objects alike; described as "contains another associative array" |
| AssociativeArrayContainsConstraint.AgreesWithArrayContains | src/PHPUnit/Constraint/AssociativeArrayContains.php:28-44 | an array matches iff `ArrayContains` with the same arguments finds no error; an `ArrayAccess` object matches iff the mode is not strict and non-strict `ArrayContains` finds no error in its offsets; any other value never matches |
| ListArrayContainsConstraint.New | src/PHPUnit/Constraint/ListArrayContains.php:11-19 | a non-list array throws the invalid-argument error |
| ListArrayContainsConstraint.Evaluate | src/PHPUnit/Constraint/ListArrayContains.php:21-47 | checks every position of an array or `ArrayAccess` object with one line per failing one; the flag with `returnResult`; otherwise a failure with the lines when unsuccessful, null when successful; an object without `ArrayAccess` is the engine error "Cannot use object of type … as array" in both modes |
| ListArrayContainsConstraint.LineIfFails | src/PHPUnit/Constraint/ListArrayContains.php:31-34 | a position adds nothing iff its index exists and its value is accepted, and otherwise exactly its numbered line |
| ListArrayContainsConstraint.LinesEmptyIff | src/PHPUnit/Constraint/ListArrayContains.php:26-36 | no line iff every expected position exists and is accepted |
| ListArrayContainsConstraint.LinesNumbered | src/PHPUnit/Constraint/ListArrayContains.php:26-36 | each failing position has its line; there is no early exit |
| ListArrayContainsConstraint.ListVerdict | src/PHPUnit/Constraint/ListArrayContains.php:26-36 | on a list: success iff the input is at least as long and each expected position is accepted |
| ListArrayContainsConstraint.ExtraElementsIgnored | src/PHPUnit/Constraint/ListArrayContains.php:21-47 | elements past the expected length never change the verdict |
| ListArrayContainsConstraint.NonArrayFailsAll | src/PHPUnit/Constraint/ListArrayContains.php:26-36 | a value with no offsets, neither an array nor an `ArrayAccess` object, fails a non-empty expectation |
| ListArrayContainsConstraint.ArrayAccessAsArray | src/PHPUnit/Constraint/ListArrayContains.php:26-36 | an `ArrayAccess` object passes exactly when the array of its offsets would |
| WithConsecutiveConstraint.MaxLength | src/PHPUnit/Constraint/WithConsecutive.php:27 | `count(max($calls))`: the length of the longest call, 0 for none |
| WithConsecutiveConstraint.Queues | src/PHPUnit/Constraint/WithConsecutive.php:27-36 | one queue per argument position, as many as the longest call, each with one slot per call; slot i of queue j holds argument j of call i, and is missing exactly when call i is shorter |
| WithConsecutiveConstraint.PaddedAsWritten | src/PHPUnit/Constraint/WithConsecutive.php:33 | `array_pad` with the class name string keeps the call as its prefix |
| WithConsecutiveConstraint.SentinelCollision | src/PHPUnit/Constraint/WithConsecutive.php:33-42 | as written, a call whose argument is the class name string reads as a missing argument |
| WithConsecutiveConstraint.PaddedMissingIff | src/PHPUnit/Constraint/WithConsecutive.php:32-34 | with a separate padding value, a slot is missing iff the call had no argument there |
| WithConsecutiveConstraint.AsConstraint | src/PHPUnit/Constraint/WithConsecutive.php:47-49 | a queued plain value is compared with `IsEqual`; a constraint is kept |
| WithConsecutiveConstraint.Step | src/PHPUnit/Constraint/WithConsecutive.php:42-59 | a missing slot throws even with `returnResult`; a rejection gives false with `returnResult` and a failure prefixed "Invocation #n failed." without; a pass gives true for a queued plain value (its `IsEqual`) and the inner null for a queued constraint, in both modes |
| WithConsecutiveConstraint.WithConsecutive.constructor | src/PHPUnit/Constraint/WithConsecutive.php:14-19 | a new constraint has invocation 0 and the given queue |
| WithConsecutiveConstraint.WithConsecutive.Evaluate | src/PHPUnit/Constraint/WithConsecutive.php:39-60 | the counter goes up by one and the queue loses its front on every call, pass or fail; the result is `Step` on the old front |
| WithConsecutiveConstraint.From | src/PHPUnit/Constraint/WithConsecutive.php:21-37 | fewer than two calls throw; with no arguments, one shared empty constraint per call; otherwise one new distinct constraint per position holding that position's queue |
| WithConsecutiveConstraint.Seen | src/PHPUnit/Constraint/WithConsecutive.php:41-46 | what n consecutive evaluations see: one (front slot, invocation number) pair per evaluation |
| WithConsecutiveConstraint.SeenFollowsQueue | src/PHPUnit/Constraint/WithConsecutive.php:41-46 | the k-th evaluation sees the k-th queued slot, or a missing one once the queue is used up, as invocation k + 1 after the start |
| WithConsecutiveConstraint.Outcomes | src/PHPUnit/Constraint/WithConsecutive.php:39-60 | consecutive evaluations give one outcome each, each `Step` on what that evaluation sees |
| WithConsecutiveConstraint.OutcomesFollowQueue | src/PHPUnit/Constraint/WithConsecutive.php:41-46 | the k-th evaluation checks the k-th queued slot as invocation k+1; past the queue it reports the argument missing |
| WithConsecutiveConstraint.CallsCheckedInOrder | src/PHPUnit/Constraint/WithConsecutive.php:21-60 | the constraint `from()` builds for position j sees, at the k-th call, argument j of the k-th expected call as invocation k + 1, or a missing argument when that call was shorter |
| TraversableContainsCallbackConstraint.MatchesFrom | src/PHPUnit/Constraint/TraversableContainsCallback.php:22-35 | true iff some element's callback returns true with every earlier one returning false; false iff all return false; otherwise the runtime error at the first non-bool answer |
| TraversableContainsCallbackConstraint.Matches | src/PHPUnit/Constraint/TraversableContainsCallback.php:22-35 | `foreach` over an array's pairs or an object's: true iff some element's callback returns true with every earlier one false; a value that cannot be iterated, and an empty array, give false |
| TraversableContainsCallbackConstraint.BoolCallbackIsExists | src/PHPUnit/Constraint/TraversableContainsCallback.php:24-34 | with bool answers, `matches` is true iff the callback returns true for some element |
| TraversableContainsCallbackConstraint.StopsAtFirstTrue | src/PHPUnit/Constraint/TraversableContainsCallback.php:29-31 | elements after the first true answer are never looked at |
| TraversableContainsCallbackConstraint.StopsAtFirstTrueFrom | src/PHPUnit/Constraint/TraversableContainsCallback.php:24-31 | the same, from any starting element |
| Logger.ExpectFields | src/Psr/Log/TestLogger.php:42-52 | `expect` declares level and message, and context only when non-null, under distinct names; the message with the corrected `Stringable` comparison |
| Logger.MessageFieldAccepts | src/Psr/Log/TestLogger.php:34-46 | with the corrected comparison, a plain string or `Stringable` message expectation accepts exactly the records with that message string |
| Logger.TestLogger.constructor | src/Psr/Log/TestLogger.php:18-25 | no records and an empty "logger" group table |
| Logger.TestLogger.Log | src/Psr/Log/TestLogger.php:27-35 | a message that is not a string or `Stringable` throws and adds nothing; otherwise exactly one record with the message as a string is appended |
| Logger.TestLogger.Expect | src/Psr/Log/TestLogger.php:42-52 | a new group holding exactly the declared fields |
| Logger.TestLogger.Reset | src/Psr/Log/TestLogger.php:54-57 | empties the records and leaves the expectations untouched |
| Logger.TestLogger.Assert | src/Psr/Log/TestLogger.php:59-62 | group assertion against the records in call order |
| Logger.SimpleExpectationHolds | tests/Psr/Log/TestLoggerTest.php:11-20 | the test's expectation accepts the record the test logs |
| Logger.SimpleAssert | tests/Psr/Log/TestLoggerTest.php:11-20 | one logged record with its matching expectation asserts without failure |
| Logger.ExpectedRecordAccepted | src/Psr/Log/TestLogger.php:42-62 | one group whose fields all accept the only record reports nothing |
| EventDispatcher.EventExpected | src/Symfony/EventDispatcher/TestEventDispatcher.php:22-24 | a class name becomes an instance-of check; a constraint is kept |
| EventDispatcher.ExpectFields | src/Symfony/EventDispatcher/TestEventDispatcher.php:20-34 | declares the event, and the name only when given |
| EventDispatcher.EventFieldAccepts | src/Symfony/EventDispatcher/TestEventDispatcher.php:22-30 | a class name expectation accepts exactly the events of that class or a subclass |
| EventDispatcher.RecordOf | src/Symfony/EventDispatcher/TestEventDispatcher.php:38 | the recorded name defaults to the event's class name |
| EventDispatcher.TestEventDispatcher.constructor | src/Symfony/EventDispatcher/TestEventDispatcher.php:15-18 | no events and an empty "event dispatcher" group table |
| EventDispatcher.TestEventDispatcher.Expect | src/Symfony/EventDispatcher/TestEventDispatcher.php:20-34 | a new group holding exactly the declared fields |
| EventDispatcher.TestEventDispatcher.Dispatch | src/Symfony/EventDispatcher/TestEventDispatcher.php:36-41 | appends one record and returns the event unchanged |
| EventDispatcher.TestEventDispatcher.AddListener | src/Symfony/EventDispatcher/TestEventDispatcher.php:43-46 | always throws the unmodifiable error |
| EventDispatcher.TestEventDispatcher.AddSubscriber | src/Symfony/EventDispatcher/TestEventDispatcher.php:48-51 | always throws the unmodifiable error |
| EventDispatcher.TestEventDispatcher.RemoveListener | src/Symfony/EventDispatcher/TestEventDispatcher.php:53-56 | always throws the unmodifiable error |
| EventDispatcher.TestEventDispatcher.RemoveSubscriber | src/Symfony/EventDispatcher/TestEventDispatcher.php:58-61 | always throws the unmodifiable error |
| EventDispatcher.TestEventDispatcher.GetListeners | src/Symfony/EventDispatcher/TestEventDispatcher.php:63-66 | always empty |
| EventDispatcher.TestEventDispatcher.GetListenerPriority | src/Symfony/EventDispatcher/TestEventDispatcher.php:68-71 | always null |
| EventDispatcher.TestEventDispatcher.HasListeners | src/Symfony/EventDispatcher/TestEventDispatcher.php:73-76 | always false |
| EventDispatcher.TestEventDispatcher.Assert | src/Symfony/EventDispatcher/TestEventDispatcher.php:78-81 | group assertion against the dispatched events in order |
| Translation.Translate | src/Symfony/Translation/TestTranslator.php:37-42 | a set, non-null translation is returned as a string, throwing only on an object without `__toString`; an absent id gives the id back |
| Translation.TranslationFound | src/Symfony/Translation/TestTranslator.php:37-40 | a string translation is returned |
| Translation.NullTranslationIsNone | src/Symfony/Translation/TestTranslator.php:37-42 | a null translation counts as absent |
| Translation.NumericIdFindsIntKey | src/Symfony/Translation/TestTranslator.php:37 | a numeric id finds the integer key |
| Translation.ParameterFieldAccepts | src/Symfony/Translation/TestTranslator.php:60-69 | `parameter(name)` compares `params[name]`, or null when the key is absent |
| Translation.DomainFieldAccepts | src/Symfony/Translation/TestTranslator.php:71-76 | with the corrected `Stringable` comparison, a plain domain accepts exactly the calls with that domain |
| Translation.TestTranslator.constructor | src/Symfony/Translation/TestTranslator.php:28-31 | keeps the translations; no calls and an empty "translator" table |
| Translation.TestTranslator.Trans | src/Symfony/Translation/TestTranslator.php:33-43 | records the call before the lookup, whatever the lookup gives, and returns `Translate` |
| Translation.TestTranslator.Expect | src/Symfony/Translation/TestTranslator.php:45-51 | a new group declaring the id |
| Translation.TestTranslator.Parameters | src/Symfony/Translation/TestTranslator.php:53-58 | declares the parameters field in the current group, or the redefinition error |
| Translation.TestTranslator.Parameter | src/Symfony/Translation/TestTranslator.php:60-69 | declares `parameters.<name>` in the current group, or the redefinition error |
| Translation.TestTranslator.Domain | src/Symfony/Translation/TestTranslator.php:71-76 | declares the domain, with the corrected `Stringable` comparison, in the current group, or the redefinition error |
| Translation.TestTranslator.Locale | src/Symfony/Translation/TestTranslator.php:78-83 | declares the locale, with the corrected `Stringable` comparison, in the current group, or the redefinition error |
| Translation.TestTranslator.Reset | src/Symfony/Translation/TestTranslator.php:85-88 | empties the calls and leaves the expectations untouched |
| Translation.TestTranslator.Assert | src/Symfony/Translation/TestTranslator.php:90-93 | group assertion against the calls in order |
| Notifier.ChannelList | src/Symfony/Notifier/TestNotifier.php:109-119 | the channel names as a list array, in order |
| Notifier.ExceptionFields | src/Symfony/Notifier/TestNotifier.php:78-107 | always the class; the message and the code only when truthy |
| Notifier.FalsyDetailsIgnored | src/Symfony/Notifier/TestNotifier.php:84-104 | an empty or "0" message and code 0 declare nothing but the class |
| Notifier.Callback | src/Symfony/Notifier/TestNotifier.php:121-128 | the callback is the matcher's predicate |
| Notifier.AllIs | src/Symfony/Notifier/TestNotifier.php:130-141 | each given constraint as an expectation, in order |
| Notifier.RecipientsFieldAccepts | src/Symfony/Notifier/TestNotifier.php:130-141 | without arguments exactly no recipient is accepted; otherwise exactly one recipient per constraint, each accepted at its position |
| Notifier.RecipientWithoutAddressPasses | src/Symfony/Notifier/Constraint/NotificationEmailRecipient.php:28-30 | as written, a recipient without the address passes `recipients(...)`; corrected, it fails |
| Notifier.CustomFieldAccepts | src/Symfony/Notifier/TestNotifier.php:121-128 | the custom field accepts a record iff the callback accepts its notification |
| Notifier.TestNotifier.constructor | src/Symfony/Notifier/TestNotifier.php:16-22 | no records and an empty "notifier" table |
| Notifier.TestNotifier.Send | src/Symfony/Notifier/TestNotifier.php:24-27 | appends one record of the notification and its recipients |
| Notifier.TestNotifier.Expect | src/Symfony/Notifier/TestNotifier.php:29-40 | a new group declaring the subject |
| Notifier.TestNotifier.Content | src/Symfony/Notifier/TestNotifier.php:42-52 | declares the content in the current group, or the redefinition error |
| Notifier.TestNotifier.Importance | src/Symfony/Notifier/TestNotifier.php:54-64 | declares the importance in the current group, or the redefinition error |
| Notifier.TestNotifier.Emoji | src/Symfony/Notifier/TestNotifier.php:66-76 | declares the emoji in the current group, or the redefinition error |
| Notifier.TestNotifier.Exception | src/Symfony/Notifier/TestNotifier.php:78-107 | declares the class, then the message and the code when truthy; passes iff none was declared in the group; otherwise throws the redefinition error of the first declared one, after declaring exactly the fields before it |
| Notifier.TestNotifier.Channels | src/Symfony/Notifier/TestNotifier.php:109-119 | declares the channels in the current group, or the redefinition error |
| Notifier.TestNotifier.Custom | src/Symfony/Notifier/TestNotifier.php:121-128 | declares the callback on the notification; a second one throws "Cannot redefine <index>.notification_custom" and changes nothing |
| Notifier.TestNotifier.Recipients | src/Symfony/Notifier/TestNotifier.php:130-141 | declares the recipients in the current group, or the redefinition error |
| Notifier.TestNotifier.Assert | src/Symfony/Notifier/TestNotifier.php:143-146 | group assertion against the records in send order |
| NotificationRecipientConstraints.SameMatches | src/Symfony/Notifier/Constraint/NotificationEmailRecipientSame.php:21-32 | a non-recipient throws the logic error; true iff the recipient has that address exactly, so another recipient kind gives false |
| NotificationRecipientConstraints.SameEvaluate | src/Symfony/Notifier/Constraint/NotificationEmailRecipientSame.php:16-37 | `evaluate` over `matches`: the logic error passes through; otherwise the verdict, or null or a failure in throwing mode |
| NotificationRecipientConstraints.SameNeedsTheInterface | src/Symfony/Notifier/Constraint/NotificationSmsRecipientSame.php:27-31 | a recipient without the address gives false |
| NotificationRecipientConstraints.NewMatching | src/Symfony/Notifier/Constraint/NotificationEmailRecipient.php:17-24 | a plain address becomes an identity check; a constraint is kept |
| NotificationRecipientConstraints.MatchingText | src/Symfony/Notifier/Constraint/NotificationSmsRecipient.php:50-53 | "recipient email" or "recipient phone", a space and the inner description |
| NotificationRecipientConstraints.MatchingEvaluate | src/Symfony/Notifier/Constraint/NotificationEmailRecipient.php:26-48 | a recipient without the address gives false in both modes; otherwise the verdict with `returnResult`, null or the rethrown failure without |
| NotificationRecipientConstraints.MissingAddressUnnoticed | src/Symfony/Notifier/Constraint/NotificationEmailRecipient.php:28-30 | as written, throwing mode returns without throwing for a recipient without the address |
| NotificationRecipientConstraints.MatchingEvaluateCorrected | src/Symfony/Notifier/Constraint/NotificationEmailRecipient.php:26-48 | a recipient without the address throws a failure in throwing mode; otherwise as written |
| NotificationRecipientConstraints.CorrectedModesAgree | src/Symfony/Notifier/Constraint/NotificationSmsRecipient.php:26-48 | corrected, throwing mode fails iff `returnResult` says false, and the verdict is that the address exists and is accepted |
| NotificationRecipientConstraints.SameAsMatcher | src/Symfony/Notifier/Constraint/NotificationEmailRecipientSame.php:16-19 | described as `contains "<address>"` |
| NotificationRecipientConstraints.MatchingAsMatcher | src/Symfony/Notifier/Constraint/NotificationEmailRecipient.php:50-53 | described as "recipient email " and the inner description |
| NotificationRecipientConstraints.MatchingAsWrittenMatcher | src/Symfony/Notifier/Constraint/NotificationEmailRecipient.php:50-53 | the same description, over the as-written evaluation |
| EnvelopeConstraints.FindRecipientIff | src/Symfony/Mailer/Constraint/EnvelopeHasRecipient.php:30-36 | the recipient loop finds the address iff some recipient equals it exactly |
| EnvelopeConstraints.Matches | src/Symfony/Mailer/Constraint/EnvelopeRecipientCount.php:20-31 | null gives false; a non-envelope throws the logic error; otherwise the recipient count equals n, or the sender equals the address |
| EnvelopeConstraints.HasRecipientIff | src/Symfony/Mailer/Constraint/EnvelopeHasRecipient.php:20-37 | true iff some recipient equals the address exactly |
| EnvelopeConstraints.Evaluate | src/Symfony/Mailer/Constraint/EnvelopeSenderSame.php:15-36 | the logic error passes through; null gives false with `returnResult`; a rejection fails in throwing mode |
| EnvelopeConstraints.AsMatcher | src/Symfony/Mailer/Constraint/EnvelopeHasRecipient.php:15-24 | carries the constraint's description and never accepts a mail without an envelope |
| Mailer.BodyContains | src/Symfony/Mailer/Constraint/MessageBodyContains.php:20-40 | described as `contains "<text>"`; accepts exactly the messages whose body text contains the text |
| Mailer.BodyContainsSlice | src/Symfony/Mailer/Constraint/MessageBodyContains.php:25-40 | any slice of the body, and the empty string, is contained |
| Mailer.MessageMatcher | src/Symfony/Mailer/TestMailer.php:25-30 | a string becomes a body-contains check; a constraint is kept |
| Mailer.ExpectedTextAccepts | src/Symfony/Mailer/TestMailer.php:23-33 | an `expect` with a part of the body accepts the mail |
| Mailer.EnvelopeFieldAccepts | src/Symfony/Mailer/TestMailer.php:35-40 | the envelope field accepts a mail iff the envelope constraint accepts its envelope |
| Mailer.TestMailer.constructor | src/Symfony/Mailer/TestMailer.php:13-16 | no mails and an empty "mailer" table |
| Mailer.TestMailer.Send | src/Symfony/Mailer/TestMailer.php:18-21 | appends one record of the message and its envelope |
| Mailer.TestMailer.Expect | src/Symfony/Mailer/TestMailer.php:23-33 | a new group, then the message field |
| Mailer.TestMailer.Envelope | src/Symfony/Mailer/TestMailer.php:35-40 | declares the envelope in the current group; a second one throws the redefinition error |
| Mailer.TestMailer.Assert | src/Symfony/Mailer/TestMailer.php:42-45 | group assertion against the mails in send order |
| HttpClient.ExpectFields | src/Symfony/HttpClient/TestHttpClient.php:57-64 | declares method and uri, the uri with the corrected `Stringable` comparison |
| HttpClient.ExpectFieldsAccept | src/Symfony/HttpClient/TestHttpClient.php:57-64 | with the corrected comparison, a plain method and uri accept exactly the responses with that method and url |
| HttpClient.AnsweredMatchesExpect | src/Symfony/HttpClient/TestHttpClient.php:35-64 | a response to `request($method, …)` satisfies `expect($method2, $uri)` iff the methods are equal and the resolved URL is the uri's string |
| HttpClient.OptionFieldAccepts | src/Symfony/HttpClient/TestHttpClient.php:73-82 | `option(name)` compares `options[name]`, or null when the option is absent |
| HttpClient.TestHttpClient.constructor | src/Symfony/HttpClient/TestHttpClient.php:28-33 | no responses, an empty table, and a mock client over the base uri |
| HttpClient.TestHttpClient.Request | src/Symfony/HttpClient/TestHttpClient.php:35-42 | the delegate's exception passes through and nothing is recorded; otherwise the response, carrying the requested method and the delegate's resolved URL and options, is appended and returned |
| HttpClient.TestHttpClient.Stream | src/Symfony/HttpClient/TestHttpClient.php:44-47 | records nothing and passes the stream through |
| HttpClient.TestHttpClient.WithOptions | src/Symfony/HttpClient/TestHttpClient.php:49-55 | a new client with no responses and an empty table over the reconfigured delegate; the original is unchanged |
| HttpClient.TestHttpClient.Expect | src/Symfony/HttpClient/TestHttpClient.php:57-64 | a new group declaring exactly method and uri |
| HttpClient.TestHttpClient.Options | src/Symfony/HttpClient/TestHttpClient.php:66-71 | declares the options in the current group, or the redefinition error |
| HttpClient.TestHttpClient.Option | src/Symfony/HttpClient/TestHttpClient.php:73-82 | declares `options.<name>` in the current group, or the redefinition error |
| HttpClient.TestHttpClient.Reset | src/Symfony/HttpClient/TestHttpClient.php:84-87 | empties the responses and leaves the expectations untouched |
| HttpClient.TestHttpClient.Assert | src/Symfony/HttpClient/TestHttpClient.php:89-92 | group assertion against the responses in order |
| FormErrors.PluralizationFieldAccepts | src/Symfony/Form/TestFormErrors.php:41-46 | a plain number accepts exactly the errors pluralized by it, never an error without one |
| FormErrors.TestFormErrors.constructor | src/Symfony/Form/TestFormErrors.php:14-17 | keeps the errors; an empty "form errors" table |
| FormErrors.TestFormErrors.Expect | src/Symfony/Form/TestFormErrors.php:19-25 | a new group declaring exactly the message |
| FormErrors.TestFormErrors.MessageTemplate | src/Symfony/Form/TestFormErrors.php:27-32 | declares the template in the current group; repeating it throws |
| FormErrors.TestFormErrors.Parameters | src/Symfony/Form/TestFormErrors.php:34-39 | declares the parameters in the current group; repeating them throws |
| FormErrors.TestFormErrors.Pluralization | src/Symfony/Form/TestFormErrors.php:41-46 | declares the pluralization in the current group; repeating it throws |
| FormErrors.TestFormErrors.Cause | src/Symfony/Form/TestFormErrors.php:48-53 | declares the cause in the current group; repeating it throws |
| FormErrors.TestFormErrors.Assert | src/Symfony/Form/TestFormErrors.php:55-58 | group assertion, reported as "form errors", against the errors in iteration order |
| Forms.ChildNamed | src/Symfony/Form/TestForm.php:225 | a child with the name when there is one, none iff no child has it |
| Forms.ChildNames | src/Symfony/Form/TestForm.php:237 | the children's names, in order |
| Forms.NotVisited | src/Symfony/Form/TestForm.php:237 | `array_diff`: exactly the names not visited |
| Forms.ReverseCons | src/Symfony/Form/TestForm.php:258-263 | prepending while walking up puts the ancestor at the end of the reversed path |
| Forms.ChildPathExtendsParent | src/Symfony/Form/TestForm.php:256-265 | a child's dotted name is its parent's, a dot and its own name |
| Forms.Step | src/Symfony/Form/TestForm.php:206-228 | corrected, the name handed to `has()` as the string it was declared with: a child declared absent fails iff the form has it; a missing child fails; a nested runtime error ends the loop; otherwise a nested failure is collected and the child is visited |
| Forms.LoopStep | src/Symfony/Form/TestForm.php:206-207 | as written: a name PHP stores as an integer key reaches `has()` as an int and ends the loop in a `TypeError`; any other name takes `Step` |
| Forms.NumericNameDiscrepancy | src/Symfony/Form/TestForm.php:206-207 | a child named "0" the form has: the loop as written ends in the `TypeError`, the corrected step visits it |
| Forms.OptionFieldAccepts | src/Symfony/Form/TestForm.php:57-66 | `option(name)` compares the option, or the default when the key is absent |
| Forms.TestForm.constructor | src/Symfony/Form/TestForm.php:21-30 | no expectations, no children, no errors test, child assertion on |
| Forms.TestForm.DisableChildAssertion | src/Symfony/Form/TestForm.php:32-37 | turns child assertion off and changes nothing else |
| Forms.TestForm.Type | src/Symfony/Form/TestForm.php:39-48 | a class name becomes an instance-of check on the resolved type; declares it or throws the redefinition error |
| Forms.TestForm.Options | src/Symfony/Form/TestForm.php:50-55 | declares the options or throws the redefinition error |
| Forms.TestForm.Option | src/Symfony/Form/TestForm.php:57-66 | declares `options.<name>` or throws the redefinition error |
| Forms.TestForm.Required | src/Symfony/Form/TestForm.php:68-73 | declares required or throws the redefinition error |
| Forms.TestForm.Disabled | src/Symfony/Form/TestForm.php:75-80 | declares disabled or throws the redefinition error |
| Forms.TestForm.IsEmpty | src/Symfony/Form/TestForm.php:82-87 | declares isEmpty or throws the redefinition error |
| Forms.TestForm.PropertyPath | src/Symfony/Form/TestForm.php:89-94 | declares the property path (null when there is none) or throws the redefinition error |
| Forms.TestForm.Data | src/Symfony/Form/TestForm.php:110-115 | declares the data or throws the redefinition error |
| Forms.TestForm.NormData | src/Symfony/Form/TestForm.php:117-122 | declares the normalised data or throws the redefinition error |
| Forms.TestForm.ViewData | src/Symfony/Form/TestForm.php:124-129 | declares the view data or throws the redefinition error |
| Forms.TestForm.ExtraData | src/Symfony/Form/TestForm.php:131-136 | declares the extra data or throws the redefinition error |
| Forms.TestForm.Valid | src/Symfony/Form/TestForm.php:138-147 | a form not submitted throws before anything is declared; otherwise declares valid or throws the redefinition error |
| Forms.TestForm.Submitted | src/Symfony/Form/TestForm.php:149-154 | declares submitted or throws the redefinition error |
| Forms.TestForm.Errors | src/Symfony/Form/TestForm.php:96-108 | a second call throws "Cannot redefine errors" and changes nothing; otherwise keeps the errors test over this form's errors |
| Forms.TestForm.Child | src/Symfony/Form/TestForm.php:156-172 | an already declared name throws; otherwise records the nested test of a child the form has, or a child to report missing |
| Forms.TestForm.Absence | src/Symfony/Form/TestForm.php:174-183 | an already declared name throws; otherwise records the child as expected absent |
| Forms.TestForm.AbortedStays | src/Symfony/Form/TestForm.php:206-228 | a runtime error from a nested test ends the children loop with that error |
| Forms.TestForm.ScanGrows | src/Symfony/Form/TestForm.php:206-228 | the loop only adds failures and visited names |
| Forms.TestForm.ScanReports | src/Symfony/Form/TestForm.php:208-221 | for each declared child, the finished loop holds its failure: present when absent, missing when declared |
| Forms.TestForm.PassedMeans | src/Symfony/Form/TestForm.php:185-249 | passing means every field holds, the errors test passes, every absent child is absent, every declared child exists and, in strict mode with child assertion, the visited count equals the form's child count |
| Forms.TestForm.MissingChildFails | src/Symfony/Form/TestForm.php:162-221 | a declared child the form lacks makes `assert` fail with that child's message |
| Forms.TestForm.PresentAbsentChildFails | src/Symfony/Form/TestForm.php:208-215 | a child declared absent that the form has makes `assert` fail with that child's message |
| Forms.TestForm.FailureDescription | src/Symfony/Form/TestForm.php:256-265 | the loop up the parent chain names the form by its dotted path from the root |
| Forms.TestForm.ScanUnfold | src/Symfony/Form/TestForm.php:206-228 | one more child is one more `Step` |
| Forms.TestForm.NestedChild | src/Symfony/Form/TestForm.php:223-227 | a declared child the form has is asserted through its own nested test |
| Forms.TestForm.NumericChildAborts | src/Symfony/Form/TestForm.php:206-207 | with the fields passing, a declared child whose name is a canonical integer makes `assert` end in a runtime error |
| Forms.TestForm.AssertErrors | src/Symfony/Form/TestForm.php:191-197 | the errors test's assertion, its failures under the form's description |
| Forms.TestForm.AssertChild | src/Symfony/Form/TestForm.php:206-228 | one turn of the children loop: the `TypeError` for a name stored as an integer key, otherwise `Step` |
| Forms.TestForm.AssertChildren | src/Symfony/Form/TestForm.php:206-228 | the whole children loop, stopping at a nested runtime error or at the `TypeError` of a name stored as an integer key |
| Forms.TestForm.Assert | src/Symfony/Form/TestForm.php:185-249 | field failures are thrown first; disabling child assertion with children declared is a runtime error; a child name stored as an integer key is the `TypeError`; otherwise the errors and children failures, and in strict mode the child-count check |
| ViolationList.OptionalInt | src/Symfony/Validator/TestConstraintViolationList.php:77-86 | a plural as its int, null when absent |
| ViolationList.ConstraintValue | src/Symfony/Validator/TestConstraintViolationList.php:88-97 | the violation's constraint object, null when absent |
| ViolationList.ConstraintFieldAccepts | src/Symfony/Validator/TestConstraintViolationList.php:88-97 | a plain constraint object accepts exactly the violations raised by that very object |
| ViolationList.CodeFieldAccepts | src/Symfony/Validator/TestConstraintViolationList.php:99-108 | a plain code accepts exactly the violations with that code |
| ViolationList.TestConstraintViolationList.constructor | src/Symfony/Validator/TestConstraintViolationList.php:16-19 | keeps the list; an empty collection table |
| ViolationList.TestConstraintViolationList.Expect | src/Symfony/Validator/TestConstraintViolationList.php:21-31 | a new group declaring exactly the message |
| ViolationList.TestConstraintViolationList.Path | src/Symfony/Validator/TestConstraintViolationList.php:33-42 | declares the path in the current group, or the redefinition error |
| ViolationList.TestConstraintViolationList.Parameters | src/Symfony/Validator/TestConstraintViolationList.php:44-53 | declares the parameters, or the redefinition error |
| ViolationList.TestConstraintViolationList.MessageTemplate | src/Symfony/Validator/TestConstraintViolationList.php:55-64 | declares the template, or the redefinition error |
| ViolationList.TestConstraintViolationList.InvalidValue | src/Symfony/Validator/TestConstraintViolationList.php:66-75 | declares the invalid value, or the redefinition error |
| ViolationList.TestConstraintViolationList.Plural | src/Symfony/Validator/TestConstraintViolationList.php:77-86 | declares the plural, or the redefinition error |
| ViolationList.TestConstraintViolationList.Constraint | src/Symfony/Validator/TestConstraintViolationList.php:88-97 | declares the constraint, or the redefinition error |
| ViolationList.TestConstraintViolationList.Code | src/Symfony/Validator/TestConstraintViolationList.php:99-108 | declares the code, or the redefinition error |
| ViolationList.TestConstraintViolationList.Root | src/Symfony/Validator/TestConstraintViolationList.php:110-119 | declares the root, or the redefinition error |
| ViolationList.TestConstraintViolationList.Assert | src/Symfony/Validator/TestConstraintViolationList.php:121-124 | collection assertion against the list in order: unmatched expectations before leftovers |
| ViolationConfigurator.Subjects | src/Symfony/Validator/TestConstraintValidatorConfigurator.php:97-103 | what `matches` reads from a violation, field by field, in its order |
| ViolationConfigurator.AllAccept | src/Symfony/Validator/TestConstraintValidatorConfigurator.php:95-104 | the chain holds iff every check accepts its field |
| ViolationConfigurator.Evaluated | src/Symfony/Validator/TestConstraintValidatorConfigurator.php:97-103 | the chain evaluates checks in order up to and including the first rejection |
| ViolationConfigurator.DefaultsCheckOnlyMessage | src/Symfony/Validator/TestConstraintValidatorConfigurator.php:30-104 | with the defaults, a violation matches iff its message does |
| ViolationConfigurator.TestConstraintValidatorConfigurator.Checks | src/Symfony/Validator/TestConstraintValidatorConfigurator.php:97-103 | the seven field constraints in `matches` order |
| ViolationConfigurator.TestConstraintValidatorConfigurator.constructor | src/Symfony/Validator/TestConstraintValidatorConfigurator.php:30-41 | the message normalised, the six other fields accepting anything |
| ViolationConfigurator.TestConstraintValidatorConfigurator.Path | src/Symfony/Validator/TestConstraintValidatorConfigurator.php:48-53 | replaces the path check only (last call wins) and returns itself |
| ViolationConfigurator.TestConstraintValidatorConfigurator.Parameters | src/Symfony/Validator/TestConstraintValidatorConfigurator.php:55-60 | replaces the parameters check only and returns itself |
| ViolationConfigurator.TestConstraintValidatorConfigurator.MessageTemplate | src/Symfony/Validator/TestConstraintValidatorConfigurator.php:62-67 | replaces the template check only and returns itself |
| ViolationConfigurator.TestConstraintValidatorConfigurator.InvalidValue | src/Symfony/Validator/TestConstraintValidatorConfigurator.php:69-74 | replaces the invalid-value check only and returns itself |
| ViolationConfigurator.TestConstraintValidatorConfigurator.Plural | src/Symfony/Validator/TestConstraintValidatorConfigurator.php:76-81 | replaces the plural check only and returns itself |
| ViolationConfigurator.TestConstraintValidatorConfigurator.Constraint | src/Symfony/Validator/TestConstraintValidatorConfigurator.php:83-88 | replaces the constraint check only and returns itself |
| ViolationConfigurator.TestConstraintValidatorConfigurator.Matches | src/Symfony/Validator/TestConstraintValidatorConfigurator.php:95-104 | true iff all seven field constraints accept the violation |
| ViolationConfigurator.TestConstraintValidatorConfigurator.Assert | src/Symfony/Validator/TestConstraintValidatorConfigurator.php:90-93 | the list's collection assertion |
| ViolationConfigurator.TestConstraintValidatorConfigurator.Expect | src/Symfony/Validator/TestConstraintValidatorConfigurator.php:43-46 | as written: the list declares a new group with the message, and then the return type check fails with a `TypeError`, since the list is not `self` |
| ViolationConfigurator.TestConstraintValidatorConfigurator.ExpectCorrected | src/Symfony/Validator/TestConstraintValidatorConfigurator.php:43-46 | corrected return type: the same new group declaring only the message, and the list itself returned |
| MarkingStorage.Marking.constructor | src/Symfony/Workflow/TestMarkingStorage.php:26 | a new marking has no places |
| MarkingStorage.TestMarkingStorage.constructor | src/Symfony/Workflow/TestMarkingStorage.php:15-18 | nothing stored |
| MarkingStorage.TestMarkingStorage.GetMarking | src/Symfony/Workflow/TestMarkingStorage.php:20-27 | the stored marking of the subject, or a new empty one and nothing stored |
| MarkingStorage.TestMarkingStorage.SetMarking | src/Symfony/Workflow/TestMarkingStorage.php:29-32 | replaces the subject's marking, keyed by object identity, leaves every other subject's alone and ignores the context |
| Statement.PassedArgs | src/Doctrine/DBAL/TestStatement.php:25-28 | `func_get_args()`: the required arguments followed by exactly the leading optional arguments that were passed, up to the first one left out |
| Statement.TestStatement.constructor | src/Doctrine/DBAL/TestStatement.php:15-20 | no bindings and the given results |
| Statement.TestStatement.BindValue | src/Doctrine/DBAL/TestStatement.php:25-28 | appends exactly one binding holding the call's arguments |
| Statement.TestStatement.BindParam | src/Doctrine/DBAL/TestStatement.php:33-36 | appends exactly one binding holding the call's arguments |
| Statement.TestStatement.Execute | src/Doctrine/DBAL/TestStatement.php:41-44 | the results given at construction, whatever the bindings or parameters |
| Statement.TestStatement.Reset | src/Doctrine/DBAL/TestStatement.php:46-49 | empties the bindings |

## Left out

- Exporter rendering and diffs are not modelled. This covers
  `Exporter::export`, the comparison failure texts, and the descriptions of
  `IsIdentical`, `IsEqual`, `IsInstanceOf`, `Count` and `Callback`.
  - Each matcher is a predicate with a description string.
  - A plain expected value carries its rendering as an opaque string.
  - `IsEqual` is a parameter (`equals`), and so is the class hierarchy
    behind `IsInstanceOf` (`isA`).
- TestGroups.Report and TestCollections.Outcome keep failures structural
  (which group, which leftovers). The failure texts are not rebuilt.
- TestGroups.GroupTable.Assert reports an unmatched group structurally. As
  written, building that failure is the engine error of Findings row 5.
- As written, `TestConstraint::evaluate` declares `?bool`
  (src/TestConstraint.php:22) while its interface declares `bool`
  (src/TestConstraintInterface.php:10). PHP refuses to load the class with
  a fatal "must be compatible" error. Every `set()` builds a
  `TestConstraint` (src/AbstractTest.php:53), so the first builder call of
  any recorder dies on it. The model assumes the declaration loads, for
  instance with the interface widened to `?bool`. The repository's own test
  (tests/TestConstraintTest.php:34-44) assumes this too when it expects
  null. Findings rows 2, 4, 5 and 6 describe the code once that
  declaration loads.
- TestConstraintGroups.Evaluate and TestConstraintCollections.TestConstraintCollection.Evaluate
  take each member's verdict through the bool-returning interface
  (Findings row 4).
- TestGroups.GroupTable.Assert and TestCollections.CollectionTable.Assert
  therefore evaluate groups by the corrected verdict.
- Matchers.Evaluate stands for the `evaluate` of every given constraint. A
  caller's constraint that overrides `evaluate` differently is not
  distinguished.
- Matchers.AsStringExpected is the corrected comparison of Findings row 2.
  As written, a `Stringable` expectation never matches.
- Logger.ExpectFields, Logger.MessageFieldAccepts and Logger.TestLogger.Expect
  use that corrected comparison for the message.
- Translation.DomainFieldAccepts, Translation.TestTranslator.Domain and
  Translation.TestTranslator.Locale use it for the domain and the locale.
- HttpClient.ExpectFields, HttpClient.ExpectFieldsAccept and
  HttpClient.TestHttpClient.Expect use it for the uri.
- Floats are not modelled, and neither is PHP's loose comparison.
  - `max($calls)` is read as the longest call, which is what counting its
    result gives.
  - Integers are unbounded; PHP's 64-bit integer limits do not matter to
    these keys and counters.
- HttpClient.TestHttpClient.Request takes the wrapped `MockHttpClient`'s
  answer as a parameter: the response object's identity, the URL it
  resolves against the base URI and the options it prepares, or the
  exception it throws (an exhausted response factory, an invalid method).
  Which request makes it throw is not modelled. Streamed chunks are passed
  through without modelling them.
- AssociativeArrayContainsConstraint.Matches reads an `ArrayAccess` object
  through a fixed map of offsets (`access`). That map is consulted by
  `offsetExists` and `offsetGet`, and `offsetUnset` removes from it. The
  model does not capture that the `unset` is done in place on the caller's
  object and stays after `matches` returns. It also does not capture an
  object whose offset methods disagree with one another.
- ListArrayContainsConstraint.Evaluate reads `offsetGet` of a missing
  offset as null. It leaves out the warnings of reading an offset of a
  scalar.
- `Translation.Translate`: the `TranslatorTrait` fallback for an id without
  a translation is modelled as the id itself. Parameter substitution and
  pluralisation are not modelled.
- `LocaleAwareInterface` on the translator is not modelled.
- The notifier recipients and the mailer envelope are modelled as values.
  - Which interface a recipient implements is a parameter (`view`).
  - `getChannels(new NoRecipient())` is the notification's fixed channel
    list. How a notification picks channels per recipient is not modelled.
- `TestForm` and `TestFormErrors`:
  - `errors($expect)` and `child($name, $expect)` take callbacks that
    configure a fresh nested test. The model takes the already configured
    test object.
  - The form's children are assumed to have distinct names, as Symfony
    keeps them.
  - `IsResolvedFormType` is not part of this model.
- MarkingStorage.TestMarkingStorage: the `SplObjectStorage` is keyed by the
  object handle. A marking's contents beyond its places are not modelled.
- `TestConstraintConfiguratorTrait` duplicates `AbstractTest::set` with a
  stale constructor call.
- Not modelled, because they only delegate to or assemble third-party
  objects:
  - the JMS Serializer adapters;
  - the Doctrine doubles other than `TestStatement`;
  - the Symfony kernel, security and workflow helpers;
  - `NotificationNoRecipient`.
- Mailer.BodyText reads the text body of an `Email`. The source hands an
  `Email` to Symfony's `EmailTextBodyContains`
  (src/Symfony/Mailer/Constraint/MessageBodyContains.php:28), which is not
  part of this model.
- Mailer.BodyText reads a `RawMessage` as its text. A `RawMessage` subclass
  that is not a `Message` reaches `str_contains` as an object
  (src/Symfony/Mailer/Constraint/MessageBodyContains.php:35-39) and throws a
  `TypeError`; such a message is not represented.
- The logger tests call `disableStrictSize` and `disableStrictSequence`,
  which the source does not have. No positional matching mode is modelled.

## Findings

| source | as written | input that shows it | evidently intended | confidence | as-written member | corrected member |
|---|---|---|---|---|---|---|
| src/PHPUnit/Constraint/WithConsecutive.php:33-42 | short calls are padded with the class name string, and `evaluate` treats that string as "no argument" | `from(['Forlond\TestTools\PHPUnit\Constraint\WithConsecutive'], [])`: the first call's argument reads as missing | padding distinguishable from every argument | not executed | WithConsecutiveConstraint.SentinelCollision | WithConsecutiveConstraint.PaddedMissingIff |
| src/AbstractTest.php:49-50 | once `TestConstraint` loads (see Left out), a plain `Stringable` expectation is wrapped in `IsIdentical` and compared with the string the recorder stored (src/Psr/Log/TestLogger.php:34-46) | `expect('info', $stringable)` after `info($stringable)`: the object is never identical to its string | compare by the string the object converts to | not executed | Matchers.StringableNeverIdentical | Matchers.StringableComparedByText |
| src/Symfony/Notifier/Constraint/NotificationEmailRecipient.php:28-30 | a recipient without an email returns false in throwing mode instead of throwing; src/Symfony/Notifier/Constraint/NotificationSmsRecipient.php:28-30 does the same for a phone | `recipients(new NotificationEmailRecipient('a@b.c'))` for a notification sent to a recipient with only a phone: the assertion passes | fail in throwing mode as the verdict says | not executed | NotificationRecipientConstraints.MissingAddressUnnoticed | NotificationRecipientConstraints.CorrectedModesAgree |
| src/TestConstraintGroup.php:18-27 | once `TestConstraint` loads (see Left out), a member is a `TestConstraint`, evaluated without `returnResult`: null on a pass, a thrown failure on a rejection (src/TestConstraint.php:24); the same in src/TestConstraintCollection.php:22-31 | `new TestConstraintGroup([$c])` with `$c` a `TestConstraint` over `IsIdentical(1)` and the input 1: false, so this group never claims an element (a delegate such as `IsEqual` returns true on a pass and is spared); with the input 2 the failure escapes `assert()` | a group accepts iff every member accepts | not executed | TestConstraintGroups.PlainGroupNeverMatches | TestConstraintGroups.Evaluate |
| src/AbstractTestGroup.php:35-41 | once `TestConstraint` loads (see Left out), the unmatched-group failure calls `toString()` on a `TestConstraintGroup`, which declares none | a logger with one `expect()` and no record: `assert()` ends in an engine error instead of the failure | report the unmatched group | not executed | TestGroups.UnmatchedGroupIsEngineError | TestGroups.ReportEmptyIff |
| src/Symfony/Validator/TestConstraintValidatorConfigurator.php:43-46 | once `TestConstraint` loads (see Left out), `expect()` returns what the list's `expect()` returns, a `TestConstraintViolationList`, where the signature declares `self` | `$configurator->expect('x')`: a `TypeError` after the new group is declared | return the list, as the list's own `expect()` does | not executed | ViolationConfigurator.TestConstraintValidatorConfigurator.Expect | ViolationConfigurator.TestConstraintValidatorConfigurator.ExpectCorrected |
| src/Symfony/Form/TestForm.php:206-207 | a child name that is a canonical integer is stored as an integer key, and `foreach` hands `has()` an int under `strict_types` | `child('0', $cb)` on a form with a child "0": `assert()` ends in a `TypeError` | look the child up by the name it was declared with | not executed | Forms.NumericNameDiscrepancy | Forms.Step |
