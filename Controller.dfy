/**
  The validation controller of the `ValidatableEntry` control, without its
  widgets: the entry text, the placeholder shown inside the entry and on the
  floating label above it, the floating label's visibility and colour, the
  validation message, the validity flags, the two validate-on policy flags and
  the ordered rule list.  `ValidationStateChanged` notifications are recorded
  in a ghost log; so are the rules a validation pass consults.
*/
module Controller {
  import opened Wrappers
  import opened DotNet
  import opened Rules

  /** An opaque colour; `NoColor` is a colour property nobody has set (null). */
  datatype Color = NoColor | Named(name: string)

  // ---------------------------------------------------------------------------
  // What a validation pass decides
  // ---------------------------------------------------------------------------

  /** The index of the first rule that rejects the text, or None when every
      rule accepts it. */
  function FirstFailure(rules: seq<ValidationRule>, text: string): (r: Option<nat>)
    ensures r.Some? ==> r.value < |rules| && !rules[r.value].Validate(text)
    ensures r.Some? ==> forall j | 0 <= j < r.value :: rules[j].Validate(text)
    ensures r.None? <==> forall j | 0 <= j < |rules| :: rules[j].Validate(text)
  {
    if |rules| == 0 then None
    else if !rules[0].Validate(text) then Some(0)
    else
      match FirstFailure(rules[1..], text)
      case None => None
      case Some(i) => Some(i + 1)
  }

  /** The message a validation pass leaves: the first rejecting rule's. */
  function RunMessage(rules: seq<ValidationRule>, text: string): string
  {
    match FirstFailure(rules, text)
    case None => ""
    case Some(i) => rules[i].errorMessage
  }

  /** The rules a validation pass calls `Validate` on, in order. */
  function Consulted(rules: seq<ValidationRule>, text: string): seq<ValidationRule>
  {
    match FirstFailure(rules, text)
    case None => rules
    case Some(i) => rules[..i + 1]
  }

  /** The notifications a validation pass raises, given the validity before
      and after it: one for the optimistic reset to valid if that is a change,
      then one for the final verdict if that is invalid. */
  function RunNotifications(wasValid: bool, nowValid: bool): seq<bool>
  {
    (if wasValid then [] else [true]) + (if nowValid then [] else [false])
  }

  /** A log of changes of a boolean that started at `start`: each entry differs
      from the one before it, the first from `start`. */
  ghost predicate IsChangeLog(start: bool, log: seq<bool>)
  {
    forall i | 0 <= i < |log| :: log[i] != (if i == 0 then start else log[i - 1])
  }

  /** The value a change log leaves the boolean at. */
  function Latest(start: bool, log: seq<bool>): bool
  {
    if |log| == 0 then start else log[|log| - 1]
  }

  /** Recording a real change keeps a change log one. */
  lemma AppendChange(start: bool, log: seq<bool>, v: bool)
    requires IsChangeLog(start, log) && v != Latest(start, log)
    ensures IsChangeLog(start, log + [v]) && Latest(start, log + [v]) == v
  {
    var log' := log + [v];
    forall i | 0 <= i < |log'|
      ensures log'[i] != (if i == 0 then start else log'[i - 1])
    {
      if i < |log| {
        assert log'[i] == log[i];
        if i > 0 { assert log'[i - 1] == log[i - 1]; }
      } else if i > 0 {
        assert log'[i - 1] == log[|log| - 1];
      }
    }
    assert IsChangeLog(start, log');
  }

  /** A validation pass records exactly the changes of validity it makes:
      the log of a pass continues any change log and ends at the new verdict. */
  lemma RunNotificationsAreChanges(start: bool, log: seq<bool>, nowValid: bool)
    requires IsChangeLog(start, log)
    ensures IsChangeLog(start, log + RunNotifications(Latest(start, log), nowValid))
    ensures Latest(start, log + RunNotifications(Latest(start, log), nowValid)) == nowValid
  {
    var mid := if Latest(start, log) then log else log + [true];
    if !Latest(start, log) {
      AppendChange(start, log, true);
    }
    if !nowValid {
      AppendChange(start, mid, false);
      assert log + RunNotifications(Latest(start, log), nowValid) == mid + [false];
    } else {
      assert log + RunNotifications(Latest(start, log), nowValid) == mid;
    }
  }

  /** Invalid to invalid raises two notifications, `true` then `false`;
      valid to valid raises none. */
  lemma RunNotificationCases()
    ensures RunNotifications(false, false) == [true, false]
    ensures RunNotifications(true, true) == []
    ensures RunNotifications(true, false) == [false]
    ensures RunNotifications(false, true) == [true]
  {
  }

  /** A pass over no rules accepts any text and leaves no message. */
  lemma NoRulesAccept(text: string)
    ensures FirstFailure([], text) == None && RunMessage([], text) == ""
  {
  }

  /** The message is that of the first rejecting rule, and every rule before it accepts. */
  lemma {:induction false} FirstFailureIsFirst(rules: seq<ValidationRule>, text: string, k: nat)
    requires k < |rules| && !rules[k].Validate(text)
    requires forall j | 0 <= j < k :: rules[j].Validate(text)
    ensures FirstFailure(rules, text) == Some(k)
    ensures RunMessage(rules, text) == rules[k].errorMessage
    ensures Consulted(rules, text) == rules[..k + 1]
  {
    if k > 0 {
      FirstFailureIsFirst(rules[1..], text, k - 1);
    }
  }

  /** When every rule accepts, the pass ends valid with no message, having
      consulted every rule. */
  lemma AllAcceptOutcome(rules: seq<ValidationRule>, text: string)
    requires forall j | 0 <= j < |rules| :: rules[j].Validate(text)
    ensures FirstFailure(rules, text) == None
    ensures RunMessage(rules, text) == "" && Consulted(rules, text) == rules
  {
  }

  /** An AlwaysPass rule is never the first failing rule, so its message is never shown. */
  lemma AlwaysPassNeverFails(rules: seq<ValidationRule>, text: string)
    ensures FirstFailure(rules, text).Some? ==> !rules[FirstFailure(rules, text).value].AlwaysPassRule?
  {
  }

  /** A list of AlwaysPass rules only always validates, with an empty message. */
  lemma AlwaysPassListAccepts(rules: seq<ValidationRule>, text: string)
    requires forall j | 0 <= j < |rules| :: rules[j].AlwaysPassRule?
    ensures FirstFailure(rules, text) == None && RunMessage(rules, text) == ""
  {
  }

  /** Appending rules never changes an earlier verdict of failure, and a list
      that accepts defers to the rules appended to it. */
  lemma {:induction false} FirstFailureAppend(rules: seq<ValidationRule>, more: seq<ValidationRule>, text: string)
    ensures FirstFailure(rules, text).Some? ==> FirstFailure(rules + more, text) == FirstFailure(rules, text)
    ensures FirstFailure(rules, text).None? ==>
      FirstFailure(rules + more, text) ==
        match FirstFailure(more, text) case None => None case Some(i) => Some(|rules| + i)
  {
    var all := rules + more;
    if |rules| == 0 {
      assert all == more;
    } else {
      assert all[0] == rules[0];
      assert all[1..] == rules[1..] + more;
      if rules[0].Validate(text) {
        FirstFailureAppend(rules[1..], more, text);
      }
    }
  }

  // ---------------------------------------------------------------------------
  // The control
  // ---------------------------------------------------------------------------

  class ValidatableEntry {
    var text: string                 // Entry.Text
    var entryPlaceholder: string     // Entry.Placeholder
    var floatingText: string         // FloatingPlaceholder.Text
    var floatingVisible: bool        // FloatingPlaceholder.IsVisible
    var floatingColor: Color         // FloatingPlaceholder.TextColor
    var normalColor: Color           // FloatingPlaceholderNormalColor
    var errorColor: Color            // FloatingPlaceholderErrorColor
    var errorMessage: string         // ValidationErrorMessage
    var isValid: bool
    var isNeverValidated: bool
    var validateOnTextChanged: bool
    var validateOnFocusLost: bool
    var rules: seq<ValidationRule>   // ValidationRules; a null list is the empty one
    ghost var notifications: seq<bool>         // payloads of ValidationStateChanged
    ghost var consulted: seq<ValidationRule>   // rules whose Validate ran

    /** The invariant every operation keeps: the notification log holds exactly
        the changes of `isValid` from its initial `false`; nothing is consulted
        before the first pass; the floating label shows the placeholder and is
        visible exactly when there is text. */
    ghost predicate Valid()
      reads this
    {
      StateValid() && floatingVisible == (text != "")
    }

    /** Valid() short of the label visibility, which the text-changed handler
        brings up to date after the text moves. */
    ghost predicate StateValid()
      reads this
    {
      && IsChangeLog(false, notifications)
      && Latest(false, notifications) == isValid
      && (isNeverValidated ==> consulted == [])
      && floatingText == entryPlaceholder
    }

    /** The label colour the colour setters maintain: Normal while valid or
        never validated, Error otherwise. */
    ghost predicate ColorFollowsState()
      reads this
    {
      floatingColor == if isValid || isNeverValidated then normalColor else errorColor
    }

    /** The whole effect of `RunValidations` on the validity state. */
    twostate predicate Validated()
      reads this
    {
      && !isNeverValidated
      && isValid == FirstFailure(rules, text).None?
      && errorMessage == RunMessage(rules, text)
      && notifications == old(notifications) + RunNotifications(old(isValid), isValid)
      && consulted == old(consulted) + Consulted(rules, text)
      && floatingColor == (if isValid then normalColor else errorColor)
    }

    /** Nothing of the validity state has moved. */
    twostate predicate ValidityUnchanged()
      reads this
    {
      && isValid == old(isValid)
      && isNeverValidated == old(isNeverValidated)
      && errorMessage == old(errorMessage)
      && notifications == old(notifications)
      && consulted == old(consulted)
      && floatingColor == old(floatingColor)
    }

    constructor ()
      ensures Valid() && ColorFollowsState()
      ensures text == "" && entryPlaceholder == "" && !floatingVisible
      ensures normalColor == NoColor && errorColor == NoColor && floatingColor == NoColor
      ensures errorMessage == "" && !isValid && isNeverValidated
      ensures !validateOnTextChanged && validateOnFocusLost
      ensures rules == [] && notifications == [] && consulted == []
    {
      text := "";
      entryPlaceholder := "";
      floatingText := "";
      floatingVisible := false;
      normalColor := NoColor;
      errorColor := NoColor;
      floatingColor := normalColor;
      errorMessage := "";
      isValid := false;
      isNeverValidated := true;
      validateOnTextChanged := false;
      validateOnFocusLost := true;
      rules := [];
      notifications := [];
      consulted := [];
    }

    /** The `IsValid` setter: notify only on a change, recolour always. */
    method SetIsValid(value: bool)
      requires Valid()
      modifies this`isValid, this`notifications, this`floatingColor
      ensures Valid()
      ensures isValid == value
      ensures notifications == old(notifications) + (if old(isValid) != value then [value] else [])
      ensures floatingColor == if value then normalColor else errorColor
      ensures !isNeverValidated ==> ColorFollowsState()
    {
      if isValid != value {
        AppendChange(false, notifications, value);
        isValid := value;
        notifications := notifications + [isValid];
      }
      floatingColor := if isValid then normalColor else errorColor;
    }

    /** Run the rules in order; the first that rejects the text makes the
        entry invalid with its message, and no rule after it runs. */
    method RunValidations()
      requires Valid()
      modifies this`isNeverValidated, this`errorMessage, this`isValid,
               this`notifications, this`floatingColor, this`consulted
      ensures Valid() && Validated() && ColorFollowsState()
    {
      isNeverValidated := false;
      errorMessage := "";
      SetIsValid(true);
      if |rules| == 0 {
        NoRulesAccept(text);
        return;
      }
      var failed := ConsultRules();
      if failed < |rules| {
        SetIsValid(false);
        errorMessage := rules[failed].errorMessage;
      }
    }

    /** The loop of `RunValidations`: call `Validate` on each rule in order,
        stopping at the first that rejects the text, whose index is returned
        (`|rules|` when none does). */
    method ConsultRules() returns (failed: nat)
      requires StateValid() && !isNeverValidated
      modifies this`consulted
      ensures StateValid()
      ensures failed <= |rules|
      ensures FirstFailure(rules, text) == if failed < |rules| then Some(failed) else None
      ensures consulted == old(consulted) + Consulted(rules, text)
    {
      var t, rs := text, rules;
      failed := 0;
      while failed < |rs|
        invariant 0 <= failed <= |rs|
        invariant forall j | 0 <= j < failed :: rs[j].Validate(t)
        invariant consulted == old(consulted) + rs[..failed]
      {
        consulted := consulted + [rs[failed]];
        if !rs[failed].Validate(t) {
          FirstFailureIsFirst(rs, t, failed);
          return;
        }
        failed := failed + 1;
      }
      AllAcceptOutcome(rs, t);
    }

    /** The `ValidationErrorMessage` setter. */
    method SetValidationErrorMessage(message: string)
      requires Valid()
      modifies this`errorMessage
      ensures Valid()
      ensures errorMessage == message
    {
      errorMessage := message;
    }

    /** The handler of the entry's `TextChanged`: show the floating label
        exactly when there is text, then validate if text-change validation is
        on and a pass has already run. */
    method OnEntryTextChanged()
      requires StateValid()
      modifies this`floatingVisible, this`isNeverValidated, this`errorMessage, this`isValid,
               this`notifications, this`floatingColor, this`consulted
      ensures Valid()
      ensures floatingVisible == !IsNullOrEmpty(text)
      ensures validateOnTextChanged && !old(isNeverValidated) ==> Validated()
      ensures !(validateOnTextChanged && !old(isNeverValidated)) ==> ValidityUnchanged()
      ensures old(ColorFollowsState()) ==> ColorFollowsState()
    {
      floatingVisible := !IsNullOrEmpty(text);
      if validateOnTextChanged && !isNeverValidated {
        RunValidations();
      }
    }

    /** The handler of the entry's `Unfocused`. */
    method OnUnfocused()
      requires Valid()
      modifies this`isNeverValidated, this`errorMessage, this`isValid,
               this`notifications, this`floatingColor, this`consulted
      ensures Valid()
      ensures validateOnFocusLost ==> Validated()
      ensures !validateOnFocusLost ==> ValidityUnchanged()
      ensures old(ColorFollowsState()) ==> ColorFollowsState()
    {
      if validateOnFocusLost {
        RunValidations();
      }
    }

    /** The host writes the entry's text; a new value raises `TextChanged`,
        which runs `OnEntryTextChanged`. */
    method SetText(t: string)
      requires Valid()
      modifies this`text, this`floatingVisible, this`isNeverValidated, this`errorMessage,
               this`isValid, this`notifications, this`floatingColor, this`consulted
      ensures Valid()
      ensures text == t
      ensures floatingVisible == (t != "")
      ensures t != old(text) && validateOnTextChanged && !old(isNeverValidated) ==> Validated()
      ensures !(t != old(text) && validateOnTextChanged && !old(isNeverValidated)) ==> ValidityUnchanged()
      ensures old(ColorFollowsState()) ==> ColorFollowsState()
    {
      if t != text {
        text := t;
        OnEntryTextChanged();
      }
    }

    /** The `Placeholder` setter: the same text inside the entry and on the
        floating label. */
    method SetPlaceholder(p: string)
      requires Valid()
      modifies this`entryPlaceholder, this`floatingText
      ensures Valid()
      ensures entryPlaceholder == p && floatingText == p
    {
      entryPlaceholder := p;
      floatingText := p;
    }

    /** The `FloatingPlaceholderNormalColor` setter: repaint the label only
        while it shows the normal state. */
    method SetFloatingPlaceholderNormalColor(c: Color)
      requires Valid()
      modifies this`normalColor, this`floatingColor
      ensures Valid()
      ensures normalColor == c
      ensures floatingColor == if isValid || isNeverValidated then c else old(floatingColor)
      ensures old(ColorFollowsState()) ==> ColorFollowsState()
    {
      normalColor := c;
      if isValid || isNeverValidated {
        floatingColor := normalColor;
      }
    }

    /** The `FloatingPlaceholderErrorColor` setter: repaint the label only
        while it shows the error state. */
    method SetFloatingPlaceholderErrorColor(c: Color)
      requires Valid()
      modifies this`errorColor, this`floatingColor
      ensures Valid()
      ensures errorColor == c
      ensures floatingColor == if !isValid && !isNeverValidated then c else old(floatingColor)
      ensures old(ColorFollowsState()) ==> ColorFollowsState()
    {
      errorColor := c;
      if !isValid && !isNeverValidated {
        floatingColor := errorColor;
      }
    }
  }

  /** A scenario: MinLength(0) with text-change validation on.  Typing before
      any pass validates nothing; losing focus validates "a"; clearing the
      text then re-validates on its own and notifies the change to invalid. */
  method Scenario() returns (e: ValidatableEntry)
    ensures e.text == "" && !e.isValid && !e.isNeverValidated
    ensures e.errorMessage == "too short"
    ensures e.notifications == [true, false]
  {
    e := new ValidatableEntry();
    e.rules := [MinLengthRule("too short", 0)];
    e.validateOnTextChanged := true;
    e.SetText("a");
    assert e.isNeverValidated && e.notifications == [];
    e.OnUnfocused();
    assert "a"[0] == 'a';
    assert e.isValid && e.notifications == [true];
    e.SetText("");
  }
}
