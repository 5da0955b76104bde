# ValidatableEntry, modelled in Dafny

ValidatableEntry is a .NET MAUI control. It is a text entry with a floating
placeholder label above it and a validation message below it. An ordered
list of validation rules decides whether the entry is valid. A rule is a
pure predicate on the text that carries an error message. A validation pass:

- resets the entry to valid with no message;
- runs the rules in order;
- stops at the first rule that rejects the text, and shows that rule's message.

Changes of validity raise the `ValidationStateChanged` event. A pass runs
when the entry loses focus, if `ValidateOnFocusLost` is set. It also runs
on every text change, if `ValidateOnTextChanged` is set, but only once a
first pass has happened.

The model has five modules:

- `Wrappers`: `Option`.
- `DotNet`: the parts of the .NET base library the rules call:
  - 32-bit `int` and `char.IsWhiteSpace`;
  - `string.IsNullOrEmpty` and `string.IsNullOrWhiteSpace`;
  - `int.TryParse` and `int.ToString`;
  - `string.Split(char)`.

  It also holds their properties: the parse/print round trip, overflow as
  parse failure, that joining the parts of `Split` gives the text back, and
  that `Split` gives back parts without a separator that were joined.
  `string.Length` counts UTF-16 code units, as .NET does.
- `Rules`: the rules of the ValidatableEntry project as one datatype with a
  `Validate` predicate: AlwaysPass, MinLength, MaxLength and IsInt.
- `TextRules`: the rules of the older ValidatableEntryText project. These are
  its copy of MinLength, proved to agree with the other copy, and
  `IsValidUrlRule`, with its dotted-quad `isValidIP` check.
- `Controller`: the control as a class `ValidatableEntry`, with:
  - the entry text and placeholder;
  - the floating label's text, visibility and colour;
  - the normal and error colours;
  - the message, `IsValid` and `IsNeverValidated`;
  - the two policy flags and the rule list.

  A ghost log records the payload of every `ValidationStateChanged`
  notification. A second ghost log records the rules whose `Validate` ran.
  The class invariant `Valid()` says three things:
  - the notification log is exactly the sequence of changes of `IsValid`
    from its initial `false`;
  - nothing has been consulted before the first pass;
  - the floating label shows the placeholder and is visible exactly when
    there is text.

  Every operation keeps this invariant. The effect of a pass is stated once,
  as the two-state predicate `Validated()`, in terms of the specification
  function `FirstFailure`:
  - the validity is whether no rule rejects;
  - the message is that of the first rejecting rule;
  - the consulted rules are the prefix up to and including it;
  - the notifications are those of the optimistic reset followed by the
    verdict.

## Model

| member | source | states |
|---|---|---|
| `DotNet.EmptyIsBlank` | ValidatableEntry/MinLengthRule.cs:11 | the empty string (and a null one, modelled as empty) counts as blank, so the blank guard covers it |
| `DotNet.Utf16Length` | ValidatableEntry/MinLengthRule.cs:12 | `Length` counts UTF-16 code units: at least one and at most two per character |
| `DotNet.Utf16LengthOfBmp` | ValidatableEntry/MaxLengthRule.cs:11 | on text within the Basic Multilingual Plane, `Length` is the number of characters |
| `DotNet.ParseRoundTrip` | ValidatableEntry/IsIntRule.cs:16 | `TryParse` of what `ToString` prints gives back the same int32 |
| `DotNet.OverflowDoesNotParse` | ValidatableEntry/IsIntRule.cs:16 | a numeral above `int.MaxValue` is a parse failure |
| `DotNet.NegativeOverflowDoesNotParse` | ValidatableEntry/IsIntRule.cs:16 | a negative numeral below `int.MinValue` is a parse failure |
| `DotNet.NoDigitNoNumber` | ValidatableEntry/IsIntRule.cs:16-25 | a text without a decimal digit never parses, so it takes the failure branch |
| `DotNet.SplitJoin` | ValidatableEntryText/Models/IsValidUrlRule.cs:9 | joining the parts of `Split` with the separator gives the text back; there is one part more than there are separators, and no part holds a separator |
| `DotNet.JoinSplit` | ValidatableEntryText/Models/IsValidUrlRule.cs:9 | `Split` of parts without a separator, joined by it, gives those parts back |
| `DotNet.SplitAtSeparator` | ValidatableEntryText/Models/IsValidUrlRule.cs:9 | a separator-free head followed by a separator becomes the first part, and the rest is split on its own |
| `Rules.MinLengthRejectsBlank` | ValidatableEntry/MinLengthRule.cs:11 | empty or white-space-only text is rejected, whatever its length |
| `Rules.MinLengthIsStrict` | ValidatableEntry/MinLengthRule.cs:12 | non-blank text passes exactly when its UTF-16 length exceeds `MinLength`; a length equal to `MinLength` fails |
| `Rules.MinLengthNonPositiveAcceptsNonBlank` | ValidatableEntry/MinLengthRule.cs:11-12 | with `MinLength <= 0`, every non-blank text passes |
| `Rules.MinLengthUpwardClosed` | ValidatableEntry/MinLengthRule.cs:12 | if a text passes, every non-blank text at least as long in UTF-16 code units passes |
| `Rules.MaxLengthAcceptsBlank` | ValidatableEntry/MaxLengthRule.cs:10 | empty or white-space-only text passes, however long it is and whatever `MaxLength` is |
| `Rules.MaxLengthIsStrict` | ValidatableEntry/MaxLengthRule.cs:11 | non-blank text passes exactly when its UTF-16 length is below `MaxLength`; a length equal to `MaxLength` fails |
| `Rules.MaxLengthAtMostOneRejectsNonBlank` | ValidatableEntry/MaxLengthRule.cs:11 | with `MaxLength <= 1`, every non-blank text fails |
| `Rules.MaxLengthDownwardClosed` | ValidatableEntry/MaxLengthRule.cs:11 | if a non-blank text passes, every non-blank text no longer in UTF-16 code units passes |
| `Rules.IsIntAcceptsExactlyRange` | ValidatableEntry/IsIntRule.cs:14-26 | the rule passes exactly the texts that parse to an int32 within the closed range `[MinValue, MaxValue]` |
| `Rules.IsIntRejectsOverflow` | ValidatableEntry/IsIntRule.cs:24-25 | a numeral above the int32 range fails, whatever the bounds |
| `Rules.IsIntRejectsNegativeOverflow` | ValidatableEntry/IsIntRule.cs:24-25 | a numeral below the int32 range fails, whatever the bounds |
| `Rules.IsIntAcceptsInRange` | ValidatableEntry/IsIntRule.cs:18-22 | the bounds are inclusive: every value from `MinValue` to `MaxValue`, both ends included, passes as `ToString` writes it |
| `Rules.IsIntRejectsOutside` | ValidatableEntry/IsIntRule.cs:18-21 | a value below `MinValue` or above `MaxValue` fails |
| `Rules.NewIsIntAcceptsEveryNumeral` | ValidatableEntry/IsIntRule.cs:12-13 | with the initial bounds `int.MinValue` and `int.MaxValue`, a text passes exactly when it parses |
| `Rules.IsIntEmptyRangeRejectsAll` | ValidatableEntry/IsIntRule.cs:18-21 | with `MinValue > MaxValue` no text passes |
| `Rules.AlwaysPassAcceptsAll` | ValidatableEntry/AlwaysPassRule.cs:11-16 | every text passes, blank ones included, and the message has no bearing on the verdict |
| `Rules.SurrogatePairExamples` | ValidatableEntry/MaxLengthRule.cs:11 | U+1F600, one character but two code units, passes MinLength 1 and fails MaxLength 2 |
| `Rules.RuleExamples` | ValidatableEntry/MinLengthRule.cs:9-13 | worked verdicts: MinLength 2 rejects "ab" and accepts "abc"; MinLength 0 rejects "" and "  "; MaxLength 3 accepts "" and "ab" and rejects "abc"; IsInt 0..10 accepts "0", "5" and "10" and rejects "15" and "x" |
| `TextRules.MinLengthAgreesWithEntryCopy` | ValidatableEntryText/Models/MinLengthRule.cs:9-13 | the older copy of MinLength gives the same verdict as the ValidatableEntry copy on every text |
| `TextRules.MinLengthProperties` | ValidatableEntryText/Models/MinLengthRule.cs:11-12 | in the older copy, blank text is rejected; non-blank text passes exactly when its UTF-16 length exceeds `MinLength`; equal length fails; `MinLength <= 0` accepts all non-blank text |
| `TextRules.PartRejectedIff` | ValidatableEntryText/Models/IsValidUrlRule.cs:12-17 | the `Any` lambda clears a part exactly when it parses to a value in 1..255; a part that does not parse, the empty part included, is rejected |
| `TextRules.IsValidIPIff` | ValidatableEntryText/Models/IsValidUrlRule.cs:7-19 | `isValidIP` holds exactly when there are four `'.'`-separated parts and each parses into 1..255 |
| `TextRules.WrongPartCountRejected` | ValidatableEntryText/Models/IsValidUrlRule.cs:11 | a text whose number of dots is not three is not an IP address |
| `TextRules.NumeralPart` | ValidatableEntryText/Models/IsValidUrlRule.cs:16 | a part written by `ToString` is accepted exactly when its number lies in 1..255 |
| `TextRules.DottedQuadIff` | ValidatableEntryText/Models/IsValidUrlRule.cs:9-17 | the dotted quad of four int32 numbers is an IP address exactly when each lies in 1..255 |
| `TextRules.WrongPartCountExamples` | ValidatableEntryText/Models/IsValidUrlRule.cs:11 | "1.2.3" and "1.2.3.4.5" fail |
| `TextRules.EmptyPartExample` | ValidatableEntryText/Models/IsValidUrlRule.cs:15-16 | "1..2.3" fails on its empty part |
| `TextRules.LowestAndHighestPartsAccepted` | ValidatableEntryText/Models/IsValidUrlRule.cs:16 | "1.1.1.1" and "255.255.255.255" pass |
| `TextRules.ZeroPartRejected` | ValidatableEntryText/Models/IsValidUrlRule.cs:16 | "0.1.1.1" fails |
| `TextRules.Part256Rejected` | ValidatableEntryText/Models/IsValidUrlRule.cs:16 | "256.1.1.1" fails |
| `TextRules.UrlMatchAccepts` | ValidatableEntryText/Models/IsValidUrlRule.cs:26-29 | when the URL pattern matches, the rule passes without the IP check |
| `TextRules.UrlFallsBackToIP` | ValidatableEntryText/Models/IsValidUrlRule.cs:26-27 | when the URL pattern does not match, the verdict is `isValidIP` |
| `TextRules.UrlAcceptsExactly` | ValidatableEntryText/Models/IsValidUrlRule.cs:23-30 | the rule passes exactly when the pattern matches or the text is an IP address |
| `Controller.FirstFailure` | ValidatableEntry/ValidatableEntry.cs:139-146 | the index of the first rejecting rule: every earlier rule accepts, and there is none exactly when every rule accepts |
| `Controller.RunNotificationsAreChanges` | ValidatableEntry/ValidatableEntry.cs:118-122 | the notifications of a pass extend a log of changes to a log of changes that ends at the new verdict |
| `Controller.RunNotificationCases` | ValidatableEntry/ValidatableEntry.cs:136-143 | because of the optimistic reset, invalid to invalid notifies `[true, false]`, valid to valid notifies nothing, valid to invalid `[false]`, invalid to valid `[true]` |
| `Controller.AppendChange` | ValidatableEntry/ValidatableEntry.cs:118-121 | appending a value that differs from the latest keeps the log a log of changes |
| `Controller.NoRulesAccept` | ValidatableEntry/ValidatableEntry.cs:135-138 | with no rules a pass ends valid with an empty message, whatever the text |
| `Controller.FirstFailureIsFirst` | ValidatableEntry/ValidatableEntry.cs:139-146 | when rule k rejects and all before it accept, k is the first failure, its message is the one shown, and the rules consulted are exactly those up to k |
| `Controller.AllAcceptOutcome` | ValidatableEntry/ValidatableEntry.cs:135-147 | when every rule accepts, the pass ends valid with an empty message, having consulted every rule |
| `Controller.AlwaysPassNeverFails` | ValidatableEntry/ValidatableEntry.cs:141-144 | an AlwaysPass rule is never the first failing rule, so its message is never shown |
| `Controller.AlwaysPassListAccepts` | ValidatableEntry/ValidatableEntry.cs:135-147 | a list made only of AlwaysPass rules ends the pass valid with an empty message |
| `Controller.FirstFailureAppend` | ValidatableEntry/ValidatableEntry.cs:139-146 | appending rules never changes an earlier failure; after a list that accepts, the first failure is the first failure of the appended rules, shifted |
| `Controller.ValidatableEntry.constructor` | ValidatableEntry/ValidatableEntry.cs:171-199 | a new control is invalid and never validated, validates on focus loss but not on text change, has no rules, shows no label and has notified nothing |
| `Controller.ValidatableEntry.SetIsValid` | ValidatableEntry/ValidatableEntry.cs:113-126 | the `IsValid` setter logs the new value only when it differs from the old one, and always paints the label Normal when valid and Error otherwise |
| `Controller.ValidatableEntry.RunValidations` | ValidatableEntry/ValidatableEntry.cs:132-149 | a pass leaves the entry validated: `IsNeverValidated` false, `IsValid` true exactly when no rule rejects the text, the first rejecting rule's message or "", no rule after it consulted, the reset-then-verdict notifications, and the label coloured by the verdict |
| `Controller.ValidatableEntry.ConsultRules` | ValidatableEntry/ValidatableEntry.cs:139-146 | the rule loop: returns the index of the first rejecting rule (the length when there is none), having called `Validate` on exactly the rules up to and including it |
| `Controller.ValidatableEntry.SetValidationErrorMessage` | ValidatableEntry/ValidatableEntry.cs:105 | the message is replaced |
| `Controller.ValidatableEntry.OnEntryTextChanged` | ValidatableEntry/ValidatableEntry.cs:162-170 | the label is visible exactly when the text is not empty; a pass runs exactly when `ValidateOnTextChanged` is set and a pass has already run, and otherwise no validity state moves |
| `Controller.ValidatableEntry.OnUnfocused` | ValidatableEntry/ValidatableEntry.cs:201-205 | a pass runs exactly when `ValidateOnFocusLost` is set, and otherwise no validity state moves |
| `Controller.ValidatableEntry.SetText` | ValidatableEntry/ValidatableEntry.cs:184 | writing a new text runs the text-changed handler; writing the same text changes nothing |
| `Controller.ValidatableEntry.SetPlaceholder` | ValidatableEntry/ValidatableEntry.cs:96-104 | the entry's placeholder and the floating label get the same text |
| `Controller.ValidatableEntry.SetFloatingPlaceholderNormalColor` | ValidatableEntry/ValidatableEntry.cs:33-40 | the label is repainted with the new normal colour only while the entry is valid or never validated |
| `Controller.ValidatableEntry.SetFloatingPlaceholderErrorColor` | ValidatableEntry/ValidatableEntry.cs:41-48 | the label is repainted with the new error colour only while the entry is invalid and has been validated |
| `Controller.Scenario` | ValidatableEntry/ValidatableEntry.cs:162-170 | with MinLength 0 and text-change validation on: typing "a" before any pass validates nothing; losing focus validates it; clearing the text then revalidates on its own, ending invalid with the rule's message after the notifications `[true, false]` |

`IsNeverValidated` starts `true`. Every pass leaves it `false`: see
`Validated()` in `RunValidations`. Every other operation either leaves it
unchanged (`ValidityUnchanged()`) or does not modify it. So nothing sets it
back to `true`.

## Left out

- Layout, fonts, font sizes, `IsPassword`, the validation message's colour and
  the grid assembly of the constructor (ValidatableEntry/ValidatableEntry.cs:10-63,
  186-196) are UI only. Colours are opaque tokens (`Color`).
- The `BindableProperty` declarations, their static change callbacks and
  `OnPropertyChanged` (ValidatableEntry/ValidatableEntry.cs:66-93, 122) are
  MAUI binding plumbing. `SetText` stands for a write to `Text` that raises
  `TextChanged`.
- Event subscription (ValidatableEntry/ValidatableEntry.cs:184-185) is modelled
  as direct calls of the handlers. Handlers other than the control's own are
  not modelled: `OnValidationStateChanged` appends its payload to the ghost
  notification log instead of calling subscribers.
- A `null` string or rule list is modelled as the empty one. For strings this
  changes no verdict of a ValidatableEntry rule. One exception: `IsValidUrlRule`
  throws on a `null` text, because `Regex.IsMatch(null)` throws; that is not
  modelled.
- SetText: in .NET, writing `""` over a `null` text, or `null` over `""`, is a
  change of the bindable `Entry.Text`. It raises `TextChanged` and so runs
  `OnEntryTextChanged`, which may run a validation pass. In the model both
  values are `""`, so such a write changes nothing and runs no pass. One
  example is the first `Text = ""` on an entry that has never been typed into.
- A .NET string is a sequence of UTF-16 code units and may hold a lone
  surrogate. Here a string is a sequence of Unicode scalar values, so a lone
  surrogate cannot be written. `Length` is modelled by `Utf16Length`, which
  counts a character outside the Basic Multilingual Plane as its surrogate pair.
- The URL regular expression (ValidatableEntryText/Models/IsValidUrlRule.cs:25)
  is not interpreted. `Validate` takes the outcome of matching it as the
  parameter `urlPatternMatches`. `RegexRule` and `IsValidEmailRule` are not
  part of this model for the same reason, and neither is the sample view model.
- `int.TryParse` is modelled with the default integer number style and an
  invariant culture. That means optional white space around the numeral, an
  optional leading sign, and ASCII digits. Culture-specific signs,
  trailing NUL characters and hexadecimal styles are left out.
- The loop of `RunValidations` is the separate method `ConsultRules`. Its early
  `return` at the first rejecting rule hands that rule's index back to
  `RunValidations`, which then sets `IsValid` to false and shows the message.
  The order of effects is the same as in the source.
- `SetIsValid` used before any validation pass (for instance through the
  bindable `IsValid`) paints the label with the error colour when setting
  `false`. The colour setters, by contrast, treat a never-validated entry as
  normal. The model keeps both behaviours as written. `ColorFollowsState()` is
  therefore promised only once a pass has run, or when it held before.
