/** The contact page: the FAQ accordion, per-field validation feedback and
    the character counter under the message box. */
module Contact {
  import opened Wrappers
  import opened Text

  // ---------------------------------------------------------------------
  // FAQ accordion
  // ---------------------------------------------------------------------

  predicate AtMostOneActive(items: seq<bool>)
  {
    forall i, j :: 0 <= i < |items| && 0 <= j < |items| && items[i] && items[j] ==> i == j
  }

  /** A click on question `i`: every other active item is closed, then item
      `i` is toggled. */
  function FaqClick(items: seq<bool>, i: nat): (r: seq<bool>)
    requires i < |items|
    ensures |r| == |items|
    ensures r[i] == !items[i]
    ensures forall j :: 0 <= j < |items| && j != i ==> !r[j]
  {
    var closed := seq(|items|, j requires 0 <= j < |items| => if j != i && items[j] then false else items[j]);
    closed[i := !closed[i]]
  }

  /** Whatever was open before, a click leaves at most one item open: the
      clicked one if it was closed, none if it was the open one. */
  lemma FaqClickLeavesAtMostOne(items: seq<bool>, i: nat)
    requires i < |items|
    ensures AtMostOneActive(FaqClick(items, i))
    ensures items[i] ==> forall j :: 0 <= j < |items| ==> !FaqClick(items, i)[j]
    ensures !items[i] ==> forall j :: 0 <= j < |items| ==> (FaqClick(items, i)[j] <==> j == i)
  {
  }

  /** Clicking the same question twice from a closed state closes it again
      and leaves every item closed. */
  lemma FaqClickTwice(items: seq<bool>, i: nat)
    requires i < |items| && !items[i]
    ensures forall j :: 0 <= j < |items| ==> !FaqClick(FaqClick(items, i), i)[j]
  {
  }

  /** Any run of clicks keeps the accordion shape. */
  function FaqClicks(items: seq<bool>, clicks: seq<nat>): (r: seq<bool>)
    requires forall k :: 0 <= k < |clicks| ==> clicks[k] < |items|
    ensures |r| == |items|
    decreases |clicks|
  {
    if |clicks| == 0 then items else FaqClicks(FaqClick(items, clicks[0]), clicks[1..])
  }

  lemma {:induction false} FaqClicksAtMostOne(items: seq<bool>, clicks: seq<nat>)
    requires forall k :: 0 <= k < |clicks| ==> clicks[k] < |items|
    requires AtMostOneActive(items)
    ensures AtMostOneActive(FaqClicks(items, clicks))
    decreases |clicks|
  {
    if |clicks| > 0 {
      FaqClickLeavesAtMostOne(items, clicks[0]);
      FaqClicksAtMostOne(FaqClick(items, clicks[0]), clicks[1..]);
    }
  }

  // ---------------------------------------------------------------------
  // Field validation
  // ---------------------------------------------------------------------

  /** The flags of the browser's constraint validation that the messages
      depend on; `otherInvalid` stands for every other failed constraint. */
  datatype Validity = Validity(valueMissing: bool, typeMismatch: bool, otherInvalid: bool)

  predicate IsValid(v: Validity)
  {
    !v.valueMissing && !v.typeMismatch && !v.otherInvalid
  }

  const RequiredMessage := "This field is required"
  const EmailMessage := "Please enter a valid email address"
  const PhoneMessage := "Please enter a valid phone number"
  const CheckMessage := "Please check this field"

  /** `getValidationMessage`: a missing value outranks a type mismatch, and a
      mismatch is described only for e-mail and telephone fields. */
  function ValidationMessage(v: Validity, kind: string): (m: string)
    ensures v.valueMissing ==> m == RequiredMessage
    ensures !v.valueMissing && v.typeMismatch && kind == "email" ==> m == EmailMessage
    ensures !v.valueMissing && v.typeMismatch && kind == "tel" ==> m == PhoneMessage
    ensures !v.valueMissing && (!v.typeMismatch || kind !in {"email", "tel"}) ==> m == CheckMessage
  {
    if v.valueMissing then RequiredMessage
    else if v.typeMismatch && kind == "email" then EmailMessage
    else if v.typeMismatch && kind == "tel" then PhoneMessage
    else CheckMessage
  }

  /** The four messages are distinct, so the shown text tells which rule
      fired. */
  lemma MessagesDistinct()
    ensures RequiredMessage != EmailMessage && RequiredMessage != PhoneMessage && RequiredMessage != CheckMessage
    ensures EmailMessage != PhoneMessage && EmailMessage != CheckMessage && PhoneMessage != CheckMessage
  {
    assert RequiredMessage[0] != EmailMessage[0];
    assert RequiredMessage[0] != PhoneMessage[0];
    assert RequiredMessage[0] != CheckMessage[0];
    assert EmailMessage[21] != PhoneMessage[21];
    assert EmailMessage[7] != CheckMessage[7];
    assert PhoneMessage[7] != CheckMessage[7];
  }

  /** Read backwards: the message shown names the rule that fired. */
  lemma MessageNamesTheRule(v: Validity, kind: string)
    ensures ValidationMessage(v, kind) == RequiredMessage <==> v.valueMissing
    ensures ValidationMessage(v, kind) == EmailMessage <==> !v.valueMissing && v.typeMismatch && kind == "email"
    ensures ValidationMessage(v, kind) == PhoneMessage <==> !v.valueMissing && v.typeMismatch && kind == "tel"
    ensures ValidationMessage(v, kind) == CheckMessage <==>
              !v.valueMissing && (!v.typeMismatch || kind !in {"email", "tel"})
  {
    MessagesDistinct();
  }

  const ErrorBorder := "#ef4444"

  /** A form field together with the error elements its parent holds (in
      document order) and its inline border colour. */
  datatype Field = Field(value: string, validity: Validity, kind: string, errors: seq<string>, border: string)

  /** `clearFieldError`: the first error element under the parent goes away
      and the border colour is reset. */
  function ClearFieldError(f: Field): (r: Field)
    ensures r.value == f.value && r.validity == f.validity && r.kind == f.kind
    ensures r.border == ""
    ensures |f.errors| == 0 ==> r.errors == []
    ensures |f.errors| > 0 ==> |r.errors| == |f.errors| - 1 && f.errors == [f.errors[0]] + r.errors
  {
    f.(errors := if |f.errors| > 0 then f.errors[1..] else f.errors, border := "")
  }

  /** `showFieldError`: clear first, then add one error with the message and
      colour the border. */
  function ShowFieldError(f: Field, message: string): (r: Field)
    ensures r.value == f.value && r.validity == f.validity && r.kind == f.kind
    ensures r.border == ErrorBorder
    ensures |r.errors| > 0 && r.errors[|r.errors| - 1] == message
    ensures |f.errors| <= 1 ==> r.errors == [message]
  {
    var cleared := ClearFieldError(f);
    cleared.(errors := cleared.errors + [message], border := ErrorBorder)
  }

  /** Showing an error and then clearing it restores a field that had none. */
  lemma ShowThenClear(f: Field, message: string)
    requires |f.errors| == 0
    ensures ClearFieldError(ShowFieldError(f, message)) == f.(border := "")
  {
  }

  /** `validateField` (on blur): an invalid field gets its message only when
      its trimmed value is non-empty; every other case clears the error. */
  function ValidateField(f: Field): (r: Field)
    ensures r.value == f.value && r.validity == f.validity && r.kind == f.kind
    ensures !IsValid(f.validity) && !IsBlank(f.value) ==>
      r == ShowFieldError(f, ValidationMessage(f.validity, f.kind))
    ensures IsValid(f.validity) || IsBlank(f.value) ==> r == ClearFieldError(f)
  {
    TrimSpec(f.value);
    if !IsValid(f.validity) && Trim(f.value) != "" then
      ShowFieldError(f, ValidationMessage(f.validity, f.kind))
    else
      ClearFieldError(f)
  }

  /** The state a field is in when it shows at most one error, with the red
      border exactly when it shows one. */
  predicate Tidy(f: Field)
  {
    |f.errors| <= 1 && (f.border == ErrorBorder <==> |f.errors| == 1)
  }

  /** Blur and input both keep a tidy field tidy. */
  lemma ValidateKeepsTidy(f: Field)
    requires Tidy(f)
    ensures Tidy(ValidateField(f))
    ensures Tidy(ClearFieldError(f))
  {
  }

  /** A blank value is never reported, and a tidy field's one error after a
      blur is the message for its validity. */
  lemma ValidateShowsAtMostTheMessage(f: Field)
    requires Tidy(f)
    ensures IsBlank(f.value) ==> ValidateField(f).errors == []
    ensures !IsValid(f.validity) && !IsBlank(f.value) ==>
      ValidateField(f).errors == [ValidationMessage(f.validity, f.kind)]
    ensures IsValid(f.validity) ==> ValidateField(f).errors == []
  {
  }

  /** For a field whose `valueMissing` flag implies an empty value (text-like
      controls: text, e-mail, telephone, textarea) a blur never shows "This
      field is required", because the empty value is trimmed to nothing and
      the error is cleared instead. A required checkbox or radio button is
      outside this hypothesis: its value stays "on" while unchecked. */
  lemma RequiredMessageNeverShown(f: Field)
    requires f.validity.valueMissing ==> f.value == ""
    requires Tidy(f)
    ensures RequiredMessage !in ValidateField(f).errors
  {
    MessagesDistinct();
    if f.validity.valueMissing {
      assert IsBlank(f.value);
    }
  }

  // ---------------------------------------------------------------------
  // Character counter
  // ---------------------------------------------------------------------

  const MaxLength: nat := 1000

  /** The counter's text colour: `var(--gray-400)`, `#F59E0B` or `#EF4444`. */
  datatype CounterColour = Gray400 | Amber | Red

  datatype Counter = Counter(text: string, visible: bool, colour: CounterColour)

  /** The counter as created, before any input. */
  const InitialCounter := Counter("0/1000", false, Gray400)

  /** `${length}/${maxLength}`. */
  function CounterText(length: nat): (t: string)
    ensures |t| > 5 && t[|t| - 5..] == "/1000"
  {
    NatToDecimal(length) + "/" + NatToDecimal(MaxLength)
  }

  /** The colour rule: red above 90% of the limit, amber above 75%, grey
      otherwise (the thresholds are the exact values 900 and 750). */
  function CounterColourFor(length: nat): (c: CounterColour)
    ensures c == Red <==> length > 900
    ensures c == Amber <==> 750 < length <= 900
    ensures c == Gray400 <==> length <= 750
  {
    if 10 * length > 9 * MaxLength then Red
    else if 4 * length > 3 * MaxLength then Amber
    else Gray400
  }

  /** The counter after an input event on a value of `length` characters. */
  function OnInput(length: nat): (c: Counter)
    ensures c.visible <==> length > 0
    ensures c.colour == CounterColourFor(length)
    ensures ParseCounter(c.text) == Some(length)
  {
    CounterRoundTrip(length);
    Counter(CounterText(length), length > 0, CounterColourFor(length))
  }

  /** Reads a counter text `<digits>/1000` back as its length. */
  function ParseCounter(t: string): (r: Option<nat>)
  {
    if |t| > 5 && t[|t| - 5..] == "/1000" && IsDigits(t[..|t| - 5]) && |t[..|t| - 5]| > 0 then
      Some(DecimalValue(t[..|t| - 5]))
    else None
  }

  /** The counter text names the length exactly. */
  lemma CounterRoundTrip(length: nat)
    ensures ParseCounter(CounterText(length)) == Some(length)
  {
    var digits := NatToDecimal(length);
    var t := CounterText(length);
    assert NatToDecimal(MaxLength) == "1000";
    assert t[..|t| - 5] == digits;
    DecimalRoundTrip(length);
  }

  /** Different lengths never give the same counter text. */
  lemma CounterTextInjective(a: nat, b: nat)
    requires CounterText(a) == CounterText(b)
    ensures a == b
  {
    CounterRoundTrip(a);
    CounterRoundTrip(b);
  }

  function ColourRank(c: CounterColour): nat
  {
    match c
    case Gray400 => 0
    case Amber => 1
    case Red => 2
  }

  /** Typing more never moves the colour back towards grey. */
  lemma ColourMonotone(a: nat, b: nat)
    requires a <= b
    ensures ColourRank(CounterColourFor(a)) <= ColourRank(CounterColourFor(b))
  {
  }

  /** The counter as created looks exactly like the counter for an empty
      value. */
  lemma InitialCounterIsEmptyInput()
    ensures OnInput(0) == InitialCounter
  {
    assert NatToDecimal(0) == "0";
    assert NatToDecimal(MaxLength) == "1000";
  }
}
