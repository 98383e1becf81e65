/** The interval prompt of extract-images-script.js (`promptNumberInput`),
    shown when shot detection found no shot: the user is asked again until
    the loop accepts an answer, and the answer's `parseInt` is returned.
    `Number(text)` and `parseInt(text)` are JavaScript built-ins applied to
    the typed text; each answer carries both results. */
module IntervalPrompt {
  import opened Options

  /** One answer to `prompt`: Cancel (`null`), or typed text with its
      `Number` value and its `parseInt` value (`None` for `NaN`). The text
      "0.5", for example, is `Typed(Some(0.5), Some(0))`. */
  datatype Answer = Cancel | Typed(number: Option<real>, parsed: Option<int>)

  /** Where the prompt stands after some answers: still asking, or returned
      an interval (`None` for `NaN`). */
  datatype Outcome = Prompting | Returned(interval: Option<int>)

  // ---------------------------------------------------------------------
  // As written
  // ---------------------------------------------------------------------

  /** The loop condition `(input != null && isNaN(input)) || input <= 0`.
      `null <= 0` compares `0 <= 0`, so Cancel asks again too. */
  predicate RepromptsAsWritten(a: Answer) {
    match a
    case Cancel => true
    case Typed(number, _) => number.None? || number.value <= 0.0
  }

  /** `promptNumberInput` as written, over the answers given so far: the
      first answer the loop lets through is returned as its `parseInt`. */
  function PromptAsWritten(answers: seq<Answer>): (r: Outcome)
    ensures r.Returned? ==> exists k :: 0 <= k < |answers| && answers[k].Typed? && r.interval == answers[k].parsed
    decreases |answers|
  {
    if |answers| == 0 then Prompting
    else if RepromptsAsWritten(answers[0]) then PromptAsWritten(answers[1..])
    else Returned(answers[0].parsed)
  }

  /** Cancel never ends the prompt: it is skipped like a rejected answer,
      so the "NaN if cancelled" outcome the caller handles cannot arise
      from it. */
  lemma CancelRepromptsAsWritten(rest: seq<Answer>)
    ensures PromptAsWritten([Cancel] + rest) == PromptAsWritten(rest)
    ensures PromptAsWritten([Cancel]) == Prompting
  {
    assert ([Cancel] + rest)[1..] == rest;
  }

  /** "0.5" is accepted, and the interval returned is 0. */
  lemma FractionAcceptedAsZero()
    ensures PromptAsWritten([Typed(Some(0.5), Some(0))]) == Returned(Some(0))
  {
  }

  // ---------------------------------------------------------------------
  // Corrected
  // ---------------------------------------------------------------------

  /** The evidently intended loop condition: ask again unless the user
      cancelled or the returned value is a whole number of seconds of at
      least one. */
  predicate Reprompts(a: Answer) {
    match a
    case Cancel => false
    case Typed(_, parsed) => parsed.None? || parsed.value < 1
  }

  /** `promptNumberInput` as its documentation describes it: the first
      accepted answer decides, Cancel returning `NaN`. */
  function PromptNumberInput(answers: seq<Answer>): (r: Outcome)
    ensures r.Returned? && r.interval.Some? ==> r.interval.value >= 1
    decreases |answers|
  {
    if |answers| == 0 then Prompting
    else if Reprompts(answers[0]) then PromptNumberInput(answers[1..])
    else if answers[0].Cancel? then Returned(None)
    else Returned(answers[0].parsed)
  }

  /** Cancelling returns `NaN` at once. */
  lemma CancelReturnsNaN(rest: seq<Answer>)
    ensures PromptNumberInput([Cancel] + rest) == Returned(None)
  {
  }

  /** A typed answer whose `parseInt` is at least one is returned; any
      other typed answer is skipped. */
  lemma TypedAnswer(a: Answer, rest: seq<Answer>)
    requires a.Typed?
    ensures a.parsed.Some? && a.parsed.value >= 1 ==> PromptNumberInput([a] + rest) == Returned(a.parsed)
    ensures !(a.parsed.Some? && a.parsed.value >= 1) ==> PromptNumberInput([a] + rest) == PromptNumberInput(rest)
  {
    assert ([a] + rest)[1..] == rest;
  }

  /** An answer typed as a whole number: its `Number` and `parseInt` values
      agree. */
  predicate WholeNumeral(a: Answer) {
    && a.Typed?
    && (a.number.Some? <==> a.parsed.Some?)
    && (a.number.Some? ==> a.number.value == a.parsed.value as real)
  }

  /** On whole-number answers the corrected prompt behaves as written: the
      two differ only on Cancel and on answers whose `Number` and
      `parseInt` values disagree, such as "0.5". */
  lemma {:induction false} PromptAgreesOnWholeNumerals(answers: seq<Answer>)
    requires forall k :: 0 <= k < |answers| ==> WholeNumeral(answers[k])
    ensures PromptNumberInput(answers) == PromptAsWritten(answers)
    decreases |answers|
  {
    if |answers| > 0 {
      assert WholeNumeral(answers[0]);
      PromptAgreesOnWholeNumerals(answers[1..]);
    }
  }
}
