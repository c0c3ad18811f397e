/** The poll record and the pure rules of `create-poll` and `submit-answer`:
    request validation, the time-limit clamp, the option filter and answer
    validation. */
module Polls {
  import opened Wrappers
  import opened JsStrings

  /** `currentPoll`: the stored options are the raw strings that survive the
      blank filter; `isActive` is always true while the poll is stored. */
  datatype Poll = Poll(question: string, options: seq<string>, createdAt: int, expiresAt: int, isActive: bool)

  /** The `pollData` payload of `create-poll`; None stands for a missing
      (undefined or null) field. */
  datatype PollRequest = PollRequest(question: Option<string>, options: Option<seq<string>>, timeLimit: Option<int>)

  const DEFAULT_LIMIT: int := 60
  const MIN_LIMIT: int := 10
  const MAX_LIMIT: int := 300
  const MILLIS_PER_SECOND: int := 1000

  /** `Math.min(Math.max(timeLimit || 60, 10), 300)`: a missing or zero limit
      means 60 seconds, anything else is clamped into [10, 300]. */
  function ClampLimit(timeLimit: Option<int>): (secs: int)
    ensures MIN_LIMIT <= secs <= MAX_LIMIT
    ensures (timeLimit.None? || timeLimit == Some(0)) ==> secs == DEFAULT_LIMIT
    ensures timeLimit.Some? && timeLimit.value != 0 && MIN_LIMIT <= timeLimit.value <= MAX_LIMIT ==> secs == timeLimit.value
    ensures timeLimit.Some? && timeLimit.value != 0 && timeLimit.value < MIN_LIMIT ==> secs == MIN_LIMIT
    ensures timeLimit.Some? && timeLimit.value > MAX_LIMIT ==> secs == MAX_LIMIT
  {
    var requested := match timeLimit
      case Some(t) => if t != 0 then t else DEFAULT_LIMIT
      case None => DEFAULT_LIMIT;
    var atLeast := if requested > MIN_LIMIT then requested else MIN_LIMIT;
    if atLeast < MAX_LIMIT then atLeast else MAX_LIMIT
  }

  /** The shape test of `create-poll`: a truthy question and an options
      array with at least two entries, counted before any filtering. */
  predicate WellFormed(req: PollRequest) {
    && req.question.Some? && req.question.value != ""
    && req.options.Some? && |req.options.value| >= 2
  }

  /** `options.filter(opt => opt.trim())`: the options whose trimmed form is
      non-empty, untrimmed, in their original order. */
  function KeepNonBlank(options: seq<string>): (kept: seq<string>)
    ensures |kept| <= |options|
    ensures forall x :: x in kept <==> x in options && !Blank(x)
  {
    if options == [] then []
    else if TrimStart(options[0]) == [] then KeepNonBlank(options[1..])
    else [options[0]] + KeepNonBlank(options[1..])
  }

  /** The filter works element by element, so it keeps the survivors'
      order. */
  lemma {:induction false} KeepNonBlankAppend(a: seq<string>, b: seq<string>)
    ensures KeepNonBlank(a + b) == KeepNonBlank(a) + KeepNonBlank(b)
  {
    if a == [] {
      assert a + b == b;
    } else {
      assert (a + b)[1..] == a[1..] + b;
      assert (a + b)[0] == a[0];
      KeepNonBlankAppend(a[1..], b);
    }
  }

  /** A single option is kept exactly when it is not blank. */
  lemma KeepOne(x: string)
    ensures KeepNonBlank([x]) == (if Blank(x) then [] else [x])
  {
    BlankIffTrimsToEmpty(x);
    assert [x][1..] == [];
  }

  /** The option-count test runs on the raw options, so a request with two
      options of which one is blank passes it and stores a one-option poll. */
  lemma BlankOptionSurvivesCheck()
    ensures WellFormed(PollRequest(Some("Color?"), Some(["Red", " "]), None))
    ensures KeepNonBlank(["Red", " "]) == ["Red"]
  {
    var red, blank := "Red", " ";
    assert !IsWhitespace(red[0]) && IsWhitespace(blank[0]);
    KeepOne(red);
    KeepOne(blank);
    KeepNonBlankAppend([red], [blank]);
    assert [red] + [blank] == ["Red", " "];
  }

  /** The poll `create-poll` stores for a well-formed request at time `now`. */
  function StartPoll(req: PollRequest, now: int): (p: Poll)
    requires WellFormed(req)
    ensures p.question == req.question.value && p.options == KeepNonBlank(req.options.value)
    ensures p.createdAt == now && p.isActive
    ensures now + MIN_LIMIT * MILLIS_PER_SECOND <= p.expiresAt <= now + MAX_LIMIT * MILLIS_PER_SECOND
    ensures p.expiresAt == now + ClampLimit(req.timeLimit) * MILLIS_PER_SECOND
  {
    Poll(req.question.value, KeepNonBlank(req.options.value), now, now + ClampLimit(req.timeLimit) * MILLIS_PER_SECOND, true)
  }

  /** The answer test of `submit-answer`: `parseInt(answer)` is a number in
      [0, optionCount). */
  predicate ValidAnswer(answer: string, optionCount: nat) {
    match ParseInt(answer)
    case Some(v) => 0 <= v < optionCount
    case None => false
  }

  /** The `studentAnswer` reported for an accepted answer. */
  function AnswerIndex(answer: string, optionCount: nat): (i: nat)
    requires ValidAnswer(answer, optionCount)
    ensures i < optionCount && ParseInt(answer) == Some(i)
  {
    ParseInt(answer).value
  }

  /** An answer that parses to an index in range but is not that index's
      decimal form is accepted by `submit-answer` and credited by no option,
      since the tally compares the stored string with `index.toString()`. */
  lemma {:induction false} AcceptedButUncounted(answer: string, v: int, optionCount: nat)
    requires ParseInt(answer) == Some(v) && 0 <= v < optionCount
    requires ToDecimal(v) != answer
    ensures ValidAnswer(answer, optionCount)
    ensures forall i: nat :: ToDecimal(i) != answer
  {
    NotDecimal(answer, v);
  }

  /** A leading zero: "01" is accepted as option 1. */
  lemma LeadingZeroUncounted()
    ensures ValidAnswer("01", 2) && forall i: nat :: ToDecimal(i) != "01"
  {
    assert "01" == "0" + ToDecimal(1);
    ParseLeadingZero(1);
    AcceptedButUncounted("01", 1, 2);
  }

  /** Leading whitespace: " 1" is accepted as option 1. */
  lemma LeadingSpaceUncounted()
    ensures ValidAnswer(" 1", 2) && forall i: nat :: ToDecimal(i) != " 1"
  {
    assert " 1" == " " + ToDecimal(1);
    ParseSkipsBlank(" ", ToDecimal(1));
    ParseDecimal(1);
    AcceptedButUncounted(" 1", 1, 2);
  }

  /** Trailing text: "1abc" is accepted as option 1. */
  lemma TrailingTextUncounted()
    ensures ValidAnswer("1abc", 2) && forall i: nat :: ToDecimal(i) != "1abc"
  {
    assert "1abc" == ToDecimal(1) + "abc";
    DigitsValueOfDecimal(1);
    ParseIgnoresTrailing(ToDecimal(1), "abc");
    AcceptedButUncounted("1abc", 1, 2);
  }

  /** A minus sign: "-0" is accepted as option 0. */
  lemma NegativeZeroUncounted()
    ensures ValidAnswer("-0", 2) && forall i: nat :: ToDecimal(i) != "-0"
  {
    assert "-0" == "-" + ToDecimal(0);
    ParseNegative(0);
    AcceptedButUncounted("-0", 0, 2);
  }
}
