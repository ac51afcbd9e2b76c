/**
  The older question engine of inquire.js, kept at the root of the
  repository beside src/inquire.js.

  It walks the specs like the newer engine, but it has no defaults, no
  completer and no transform of persisted answers: the prompt is always the
  trimmed question plus one space, a string answer needs to be non-empty
  unless blanks are allowed, and the resolved answer is the transformed input
  itself. A rejected input is asked again WITHOUT the answers list, so the
  retried prompt is never pre-filled and its transform receives `undefined`.
  Every level of the recursion that completes writes the answers it built
  from that spec on to the answers file, innermost level first.
 */
module LegacyInquire {
  import opened JsValue
  import opened Answers
  import opened TypeCheck
  import Newer = Inquire

  // ---------------------------------------------------------------------
  // getValueType

  /**
    `.replace(/\[object |]/g, '')`: every `[object ` and every `]` is
    removed, scanning from the left.
   */
  function StripMarks(s: string): string
    decreases |s|
  {
    if |s| >= 8 && s[..8] == "[object " then StripMarks(s[8..])
    else if s == [] then []
    else if s[0] == ']' then StripMarks(s[1..])
    else [s[0]] + StripMarks(s[1..])
  }

  /** `getValueType`: the lower-cased class name, found by deleting the marks around it. */
  function GetValueType(v: Value): string
  {
    Lower(StripMarks(ObjectToString(v)))
  }

  predicate NoBrackets(s: string)
  {
    forall i :: 0 <= i < |s| ==> s[i] != '[' && s[i] != ']'
  }

  /** A bracket-free name followed by the closing `]` loses exactly that bracket. */
  lemma {:induction false} StripClosing(s: string)
    requires NoBrackets(s)
    ensures StripMarks(s + "]") == s
    decreases |s|
  {
    if s != [] {
      var t := s + "]";
      assert t[0] == s[0] && t[1..] == s[1..] + "]";
      assert |t| >= 8 ==> t[..8][0] == s[0];
      StripClosing(s[1..]);
    }
  }

  /** The older `getValueType` and the newer `getType` give every value the same tag. */
  lemma GetValueTypeIsGetType(v: Value)
    ensures GetValueType(v) == GetType(v)
  {
    ClassNameNoBrackets(v);
    TagOfName(ClassName(v));
  }

  /** No class name holds a bracket. */
  lemma ClassNameNoBrackets(v: Value)
    ensures NoBrackets(ClassName(v))
  {
  }

  /** Deleting the marks and cutting off the first 8 and the last character agree on a bracket-free name. */
  lemma TagOfName(c: string)
    requires NoBrackets(c)
    ensures var t := Lower("[object " + c + "]"); Lower(StripMarks("[object " + c + "]")) == t[8..|t| - 1]
  {
    var o := "[object " + c + "]";
    assert o[..8] == "[object " && o[8..] == c + "]";
    StripClosing(c);
    var t := Lower(o);
    assert t[8..|t| - 1] == Lower(c);
  }

  // ---------------------------------------------------------------------
  // Pure helpers of the walk

  /**
    `findAnswer`: nothing when the answers list is `undefined` (a retry),
    otherwise the first record carrying the question's name.
   */
  function FindAnswer(q: Question, answers: Option<seq<Record>>): (r: Option<Record>)
    ensures answers.None? ==> r.None?
    ensures r.Some? ==> r.value.name == q.name && r.value in answers.value
  {
    if answers.None? then None else Find(answers.value, q.name)
  }

  /** `transformAnswer`: a function-valued `transform` is applied; otherwise the value passes through. */
  function TransformAnswer(answer: Value, answers: Option<seq<Record>>, transform: Prop<Transform>): Value
  {
    if transform.Call? then transform.f(answer, answers) else answer
  }

  /**
    `checkIsAnswerValid`: a string is valid when it is non-empty or blanks
    are allowed, `null` and `undefined` never are, anything else always is.
   */
  function CheckIsAnswerValid(answer: Value, allowBlank: bool): bool
  {
    match answer
    case Str(s) => s != "" || allowBlank
    case Null => false
    case Undef => false
    case _ => true
  }

  /**
    The source decides by a `switch` on the `getValueType` tag, with
    `!!answer || allowBlank` for strings; the tags pick the same cases.
   */
  lemma CheckIsAnswerValidByTag(answer: Value, allowBlank: bool)
    ensures CheckIsAnswerValid(answer, allowBlank) <==>
      var t := GetValueType(answer);
      if t == "string" then Truthy(answer) || allowBlank
      else t != "null" && t != "undefined"
  {
    GetValueTypeIsGetType(answer);
  }

  /**
    `deriveAnswer` with `generateAnswer`: the record found under `useAnswer`
    gives its answer, transformed against the answers list when there is a
    transform; a missing source gives `''` and the transform is not called.
   */
  function DeriveAnswer(q: Question, answers: seq<Record>): (r: Record)
    ensures r.name == q.name
  {
    var answerToUse := Find(answers, q.useAnswer);
    Record(q.name, if answerToUse.None? then Str("")
                   else TransformAnswer(answerToUse.value.answer, Some(answers), q.transform))
  }

  // ---------------------------------------------------------------------
  // One question, asked until the answer is valid

  /** What the user sees for one attempt: the prompt text and the pre-filled input. */
  datatype Prompt = Prompt(text: string, prefill: Option<Value>)

  /** The prompt `query` shows: the previous answer is written into the line when a record exists. */
  function PromptFor(q: Question, answers: Option<seq<Record>>): Prompt
  {
    var previousAnswer := FindAnswer(q, answers);
    Prompt(Trim(q.question) + " ", if previousAnswer.None? then None else Some(previousAnswer.value.answer))
  }

  /** The answers list attempt `i` of one query sees: only the first attempt has it. */
  function AttemptAnswers(answers: Option<seq<Record>>, i: nat): Option<seq<Record>>
  {
    if i == 0 then answers else None
  }

  /** Does the raw input, once transformed against `answers`, pass validation? */
  predicate Accepts(q: Question, answers: Option<seq<Record>>, raw: Value)
  {
    CheckIsAnswerValid(TransformAnswer(raw, answers, q.transform), q.allowBlank)
  }

  /**
    `query` with its `catch`: each prompt reads one input; a rejected input
    makes `query` call itself without the answers list. The resolved answer
    is the transformed first accepted input.
   */
  function Query(q: Question, answers: Option<seq<Record>>, inputs: seq<Value>): (r: Asked)
    ensures r.attempts >= 1
    ensures |r.rest| <= |inputs| && r.rest == inputs[|inputs| - |r.rest|..]
    ensures r.answer.None? ==>
      && r.rest == []
      && r.attempts == |inputs| + 1
      && forall i :: 0 <= i < |inputs| ==> !Accepts(q, AttemptAnswers(answers, i), inputs[i])
    ensures r.answer.Some? ==>
      && r.attempts == |inputs| - |r.rest|
      && Accepts(q, AttemptAnswers(answers, r.attempts - 1), inputs[r.attempts - 1])
      && r.answer.value == TransformAnswer(inputs[r.attempts - 1], AttemptAnswers(answers, r.attempts - 1), q.transform)
      && forall i :: 0 <= i < r.attempts - 1 ==> !Accepts(q, AttemptAnswers(answers, i), inputs[i])
    decreases |inputs|
  {
    if inputs == [] then Asked(1, None, [])
    else
      var answer := TransformAnswer(inputs[0], answers, q.transform);
      if CheckIsAnswerValid(answer, q.allowBlank) then Asked(1, Some(answer), inputs[1..])
      else
        var again := Query(q, None, inputs[1..]);
        assert forall i :: 1 <= i < |inputs| ==> inputs[i] == inputs[1..][i - 1];
        Asked(again.attempts + 1, again.answer, again.rest)
  }

  /** The prompts of `n` attempts: the first with the answers list, the retries without. */
  function Prompts(q: Question, answers: Option<seq<Record>>, n: nat): (r: seq<Prompt>)
    requires n >= 1
    ensures |r| == n && r[0] == PromptFor(q, answers)
    ensures forall i :: 1 <= i < n ==> r[i] == PromptFor(q, None)
  {
    [PromptFor(q, answers)] + Repeat(PromptFor(q, None), n - 1)
  }

  /** The first prompt followed by the `k` prompts of the retry is `k + 1` prompts. */
  lemma PromptsRetry(q: Question, answers: Option<seq<Record>>, k: nat)
    requires k >= 1
    ensures [PromptFor(q, answers)] + Prompts(q, None, k) == Prompts(q, answers, k + 1)
  {
    var p := PromptFor(q, None);
    assert Prompts(q, None, k) == [p] + Repeat(p, k - 1);
    RepeatAppend(p, k - 1);
    assert Prompts(q, answers, k + 1) == [PromptFor(q, answers)] + Repeat(p, k);
  }

  /**
    The prompts of a retried query: the first prompt, then those of the
    query over the remaining input, are the prompts of the whole query.
   */
  lemma RetryShown(q: Question, answers: Option<seq<Record>>, inputs: seq<Value>,
                   start: seq<Prompt>, before: seq<Prompt>, after: seq<Prompt>)
    requires inputs != [] && !Accepts(q, answers, inputs[0])
    requires before == start + [PromptFor(q, answers)]
    requires after == before + Prompts(q, None, Query(q, None, inputs[1..]).attempts)
    ensures after == start + Prompts(q, answers, Query(q, answers, inputs).attempts)
  {
    QueryStep(q, answers, inputs);
    var k := Query(q, None, inputs[1..]).attempts;
    PromptsRetry(q, answers, k);
    AppendAssociates(start, [PromptFor(q, answers)], Prompts(q, None, k));
  }

  // ---------------------------------------------------------------------
  // The walk

  /**
    The records built, the prompts shown, the unread input, whether the walk
    ended, and the contents written to the answers file, in order.
   */
  datatype Run = Run(answers: seq<Record>, prompts: seq<Prompt>, rest: seq<Value>, done: bool,
                     writes: seq<seq<Record>>)

  /** What one spec contributes to the walk. */
  datatype Step =
    | Stop
    | Waiting(prompts: seq<Prompt>)
    | Answered(answer: Record, prompts: seq<Prompt>, rest: seq<Value>)

  /**
    The dispatch of `inquire` on `questions[0] || {}`: `askQuestion` when it
    has a prompt, else `useAnswer` when it names a source, else stop.
   */
  function Dispatch(q: Question, previous: seq<Record>, inputs: seq<Value>): (s: Step)
    ensures s.Stop? <==> !Asks(q) && !Derives(q)
    ensures s.Waiting? ==> Asks(q)
    ensures s.Answered? ==> s.answer.name == q.name && |s.rest| <= |inputs|
    ensures Derives(q) ==> s == Answered(DeriveAnswer(q, previous), [], inputs)
  {
    if Asks(q) then
      var asked := Query(q, Some(previous), inputs);
      var prompts := Prompts(q, Some(previous), asked.attempts);
      if asked.answer.None? then Waiting(prompts)
      else Answered(Record(q.name, asked.answer.value), prompts, asked.rest)
    else if Derives(q) then Answered(DeriveAnswer(q, previous), [], inputs)
    else Stop
  }

  /**
    `inquire` with `askNextQuestion`: dispatch on the first spec, recurse on
    the rest with the new record appended to the lookup list, prepend the
    record, and, once what follows has resolved, write the answers of this
    level to the file. A level still waiting for input writes nothing.
   */
  function Inquire(questions: seq<Question>, previous: seq<Record>, inputs: seq<Value>): Run
    decreases |questions|
  {
    var step := if questions == [] then Stop else Dispatch(questions[0], previous, inputs);
    match step
    case Stop => Run([], [], inputs, true, [[]])
    case Waiting(prompts) => Run([], prompts, [], false, [])
    case Answered(answer, prompts, rest) =>
      var following := Inquire(questions[1..], previous + [answer], rest);
      var answers := [answer] + following.answers;
      Run(answers, prompts + following.prompts, following.rest, following.done,
          following.writes + if following.done then [answers] else [])
  }

  /** The walk over a spec that was answered: its record, then the walk over the rest. */
  lemma InquireAnswered(questions: seq<Question>, previous: seq<Record>, inputs: seq<Value>)
    requires questions != [] && Dispatch(questions[0], previous, inputs).Answered?
    ensures var step := Dispatch(questions[0], previous, inputs);
      var f := Inquire(questions[1..], previous + [step.answer], step.rest);
      Inquire(questions, previous, inputs) ==
        Run([step.answer] + f.answers, step.prompts + f.prompts, f.rest, f.done,
            f.writes + if f.done then [[step.answer] + f.answers] else [])
  {
  }

  /**
    Dispatch and stop: a finished walk has one record per spec of the
    answerable prefix; a walk still waiting for input has fewer, and has
    read all of it.
   */
  lemma {:induction false} InquireCount(questions: seq<Question>, previous: seq<Record>, inputs: seq<Value>)
    ensures var r := Inquire(questions, previous, inputs);
      && (r.done ==> |r.answers| == Answerable(questions))
      && (!r.done ==> |r.answers| < Answerable(questions) && r.rest == [])
    decreases |questions|
  {
    if questions != [] {
      var step := Dispatch(questions[0], previous, inputs);
      if step.Answered? {
        assert Answerable(questions) == 1 + Answerable(questions[1..]);
        InquireCount(questions[1..], previous + [step.answer], step.rest);
      }
    }
  }

  /**
    The answers file: a finished walk writes once per level, innermost
    first, each time the records from that level on, so the last write is
    the whole answer list; a walk still waiting has written nothing.
   */
  lemma {:induction false} InquireWrites(questions: seq<Question>, previous: seq<Record>, inputs: seq<Value>)
    ensures var r := Inquire(questions, previous, inputs);
      && (r.done ==>
            && |r.writes| == |r.answers| + 1
            && (forall k :: 0 <= k < |r.writes| ==> r.writes[k] == r.answers[|r.answers| - k..])
            && r.writes[|r.answers|] == r.answers)
      && (!r.done ==> r.writes == [])
    decreases |questions|
  {
    if questions != [] {
      var step := Dispatch(questions[0], previous, inputs);
      if step.Answered? {
        InquireWrites(questions[1..], previous + [step.answer], step.rest);
        var f := Inquire(questions[1..], previous + [step.answer], step.rest);
        InquireAnswered(questions, previous, inputs);
        var r := Inquire(questions, previous, inputs);
        assert r.done == f.done && r.answers == [step.answer] + f.answers;
        if f.done {
          assert r.writes == f.writes + [r.answers];
          SuffixWrites(f.answers, f.writes, step.answer);
        } else {
          assert r.writes == f.writes;
        }
      }
    }
  }

  /** One more level of a finished walk keeps the writes the suffixes of the answers. */
  lemma SuffixWrites(answers: seq<Record>, writes: seq<seq<Record>>, answer: Record)
    requires |writes| == |answers| + 1
    requires forall k :: 0 <= k < |writes| ==> writes[k] == answers[|answers| - k..]
    ensures var all := [answer] + answers;
      var w := writes + [all];
      && |w| == |all| + 1
      && (forall k :: 0 <= k < |w| ==> w[k] == all[|all| - k..])
      && w[|all|] == all
  {
    var all := [answer] + answers;
    var w := writes + [all];
    forall k | 0 <= k < |w| ensures w[k] == all[|all| - k..] {
      if k < |writes| {
        assert all[|all| - k..] == answers[|answers| - k..];
      }
    }
  }

  /**
    `answers` is a run of records for the leading `questions`, built one at a
    time against a lookup list that starts as `lookup` and grows by each
    record, while the input is read from `inputs` on: an asked spec's record
    is its name with the answer its query resolves to on the input left at
    that point (the first attempt seeing the lookup list), and a derived
    spec's record is `deriveAnswer` against exactly the lookup list at that
    point.
   */
  ghost predicate BuiltFrom(questions: seq<Question>, lookup: seq<Record>, inputs: seq<Value>, answers: seq<Record>)
    decreases |answers|
  {
    || answers == []
    || (&& questions != []
        && var q := questions[0];
           if Asks(q) then
             var asked := Query(q, Some(lookup), inputs);
             && asked.answer.Some?
             && answers[0] == Record(q.name, asked.answer.value)
             && BuiltFrom(questions[1..], lookup + [answers[0]], asked.rest, answers[1..])
           else
             && Derives(q)
             && answers[0] == DeriveAnswer(q, lookup)
             && BuiltFrom(questions[1..], lookup + [answers[0]], inputs, answers[1..]))
  }

  /** Every record the walk builds is the one `BuiltFrom` describes. */
  lemma {:induction false} InquireRecords(questions: seq<Question>, previous: seq<Record>, inputs: seq<Value>)
    ensures BuiltFrom(questions, previous, inputs, Inquire(questions, previous, inputs).answers)
    decreases |questions|
  {
    if questions != [] {
      var step := Dispatch(questions[0], previous, inputs);
      if step.Answered? {
        InquireRecords(questions[1..], previous + [step.answer], step.rest);
        var r := Inquire(questions, previous, inputs);
        assert r.answers[1..] == Inquire(questions[1..], previous + [step.answer], step.rest).answers;
      }
    }
  }

  /** In particular the records carry the spec names in the spec order. */
  lemma {:induction false} BuiltFromNames(questions: seq<Question>, lookup: seq<Record>, inputs: seq<Value>, answers: seq<Record>)
    requires BuiltFrom(questions, lookup, inputs, answers)
    ensures |answers| <= |questions|
    ensures forall i :: 0 <= i < |answers| ==> answers[i].name == questions[i].name
    decreases |answers|
  {
    if answers != [] {
      var q := questions[0];
      var next := if Asks(q) then Query(q, Some(lookup), inputs).rest else inputs;
      BuiltFromNames(questions[1..], lookup + [answers[0]], next, answers[1..]);
      forall i | 1 <= i < |answers| ensures answers[i].name == questions[i].name {
        assert answers[i] == answers[1..][i - 1] && questions[i] == questions[1..][i - 1];
      }
    }
  }

  /**
    A spec with a prompt is asked even when it also has `useAnswer`; a spec
    with neither field ends the walk at once, writing an empty list.
   */
  lemma DispatchOrder(q: Question, rest: seq<Question>, previous: seq<Record>, inputs: seq<Value>)
    ensures Asks(q) ==> Inquire([q] + rest, previous, inputs).prompts[0] == PromptFor(q, Some(previous))
    ensures !Asks(q) && !Derives(q) ==> Inquire([q] + rest, previous, inputs) == Run([], [], inputs, true, [[]])
  {
    assert ([q] + rest)[0] == q && ([q] + rest)[1..] == rest;
  }

  // ---------------------------------------------------------------------
  // Properties of one query

  /**
    One attempt of `query`: an accepted first input resolves it to the
    transformed input; a rejected one costs a prompt and the query starts
    over on the next input without the answers list.
   */
  lemma QueryStep(q: Question, answers: Option<seq<Record>>, inputs: seq<Value>)
    requires inputs != []
    ensures Accepts(q, answers, inputs[0]) ==>
      Query(q, answers, inputs) == Asked(1, Some(TransformAnswer(inputs[0], answers, q.transform)), inputs[1..])
    ensures !Accepts(q, answers, inputs[0]) ==>
      var again := Query(q, None, inputs[1..]);
      Query(q, answers, inputs) == Asked(again.attempts + 1, again.answer, again.rest)
  {
  }

  /**
    Pre-fill: the first prompt writes the previous answer exactly when a
    record with the question's name exists; a retried prompt never does.
    The prompt text is the trimmed question and one space either way.
   */
  lemma PrefillOnlyFromRecord(q: Question, previous: seq<Record>)
    ensures PromptFor(q, Some(previous)).prefill.Some? <==> Find(previous, q.name).Some?
    ensures Find(previous, q.name).Some? ==>
      PromptFor(q, Some(previous)).prefill.value == Find(previous, q.name).value.answer
    ensures PromptFor(q, None).prefill.None?
    ensures PromptFor(q, None).text == PromptFor(q, Some(previous)).text == Trim(q.question) + " "
  {
  }

  /** The walk starts with the prompts of its first spec. */
  lemma FirstPrompts(q: Question, rest: seq<Question>, previous: seq<Record>, inputs: seq<Value>)
    requires Asks(q)
    ensures var p := Dispatch(q, previous, inputs).prompts;
      var r := Inquire([q] + rest, previous, inputs);
      |p| <= |r.prompts| && r.prompts[..|p|] == p
  {
    assert ([q] + rest)[0] == q && ([q] + rest)[1..] == rest;
  }

  /**
    A rejected input makes the walk show the same question again, this time
    without the pre-filled previous answer, and the retry's transform sees
    `undefined` instead of the answers list.
   */
  lemma RejectedInputLosesAnswers(q: Question, rest: seq<Question>, previous: seq<Record>, inputs: seq<Value>)
    requires Asks(q) && inputs != [] && !Accepts(q, Some(previous), inputs[0])
    ensures var r := Inquire([q] + rest, previous, inputs);
      && |r.prompts| >= 2
      && r.prompts[0] == PromptFor(q, Some(previous))
      && r.prompts[1] == PromptFor(q, None) && r.prompts[1].prefill.None?
    ensures Query(q, Some(previous), inputs).answer == Query(q, None, inputs[1..]).answer
  {
    QueryStep(q, Some(previous), inputs);
    FirstPrompts(q, rest, previous, inputs);
  }

  /**
    A string answer is valid iff it is non-empty or blanks are allowed; with
    no truthy default configured, the newer engine judges every value alike.
   */
  lemma ValidityAgreesWithoutDefault(answer: Value, q: Question)
    requires !q.defaultAnswer.IsTruthy()
    ensures CheckIsAnswerValid(answer, q.allowBlank) == Newer.CheckIsAnswerValid(answer, q)
  {
  }

  /**
    A resolved answer is never `null` or `undefined`; a blank string only
    when blanks are allowed.
   */
  lemma AcceptedAnswer(q: Question, answers: Option<seq<Record>>, inputs: seq<Value>)
    requires Query(q, answers, inputs).answer.Some?
    ensures var a := Query(q, answers, inputs).answer.value;
      !a.Null? && !a.Undef? && (a == Str("") ==> q.allowBlank)
  {
  }

  // ---------------------------------------------------------------------
  // Derived answers

  /**
    A missing source gives `''` without calling the transform; a found
    source gives `transform(source, answers)`, or the source answer unchanged
    when there is no transform.
   */
  lemma DerivedAnswers(q: Question, answers: seq<Record>)
    ensures Find(answers, q.useAnswer).None? ==> DeriveAnswer(q, answers) == Record(q.name, Str(""))
    ensures Find(answers, q.useAnswer).Some? && q.transform.Call? ==>
      DeriveAnswer(q, answers) ==
        Record(q.name, q.transform.f(Find(answers, q.useAnswer).value.answer, Some(answers)))
    ensures Find(answers, q.useAnswer).Some? && !q.transform.Call? ==>
      DeriveAnswer(q, answers) == Record(q.name, Find(answers, q.useAnswer).value.answer)
  {
  }

  // ---------------------------------------------------------------------
  // Example

  function Ask(name: string, text: string): Question
  {
    Question(name, text, "", false, Missing, Missing)
  }

  /** An asked spec without a transform takes a non-empty first input as it is, in one prompt. */
  lemma AnsweredAtOnce(q: Question, previous: seq<Record>, inputs: seq<Value>)
    requires Asks(q) && !q.transform.Call?
    requires inputs != [] && inputs[0].Str? && inputs[0].s != ""
    ensures Dispatch(q, previous, inputs) ==
      Answered(Record(q.name, inputs[0]), [PromptFor(q, Some(previous))], inputs[1..])
  {
    QueryStep(q, Some(previous), inputs);
  }

  /** A last spec that is answered: its record, and two writes, `[]` and then that record. */
  lemma InquireLast(q: Question, previous: seq<Record>, inputs: seq<Value>)
    requires Dispatch(q, previous, inputs).Answered?
    ensures var answer := Dispatch(q, previous, inputs).answer;
      var r := Inquire([q], previous, inputs);
      r.answers == [answer] && r.done && r.writes == [[], [answer]]
  {
    InquireAnswered([q], previous, inputs);
    assert [q][1..] == [];
  }

  /**
    Two asked questions answered in turn: the file is written three times,
    with `[]`, then the last record, then both records.
   */
  lemma TwoAnsweredWrites(q0: Question, q1: Question, x: Value, y: Value)
    requires Asks(q0) && !q0.transform.Call? && Asks(q1) && !q1.transform.Call?
    requires x.Str? && x.s != "" && y.Str? && y.s != ""
    ensures var a, b := Record(q0.name, x), Record(q1.name, y);
      Inquire([q0, q1], [], [x, y]).writes == [[], [b], [a, b]]
  {
    var a, b := Record(q0.name, x), Record(q1.name, y);
    AnsweredAtOnce(q0, [], [x, y]);
    InquireAnswered([q0, q1], [], [x, y]);
    assert [q0, q1][1..] == [q1] && [x, y][1..] == [y] && [] + [a] == [a];
    AnsweredAtOnce(q1, [a], [y]);
    InquireLast(q1, [a], [y]);
    assert [a] + [b] == [a, b];
    assert [[], [b]] + [[a, b]] == [[], [b], [a, b]];
  }

  /** The same with the names and replies of the engine's test. */
  lemma WritesExample(text: string, x: Value, y: Value)
    requires text != "" && x == Str("x") && y == Str("y")
    ensures var a, b := Record("a", x), Record("b", y);
      Inquire([Ask("a", text), Ask("b", text)], [], [x, y]).writes == [[], [b], [a, b]]
  {
    TwoAnsweredWrites(Ask("a", text), Ask("b", text), x, y);
  }

  // ---------------------------------------------------------------------
  // The stateful engine: readline and the answers file

  /**
    One run of the exported function: the lines the user will type, the
    prompts shown so far, the parsed contents of the `.erector` answers file
    (None when there is none), and every list written to it, in order.
   */
  class Session {
    var pending: seq<Value>
    var shown: seq<Prompt>
    var answersFile: Option<seq<Record>>
    var written: seq<seq<Record>>

    constructor (inputs: seq<Value>, stored: Option<seq<Record>>)
      ensures pending == inputs && shown == [] && answersFile == stored && written == []
    {
      pending := inputs;
      shown := [];
      answersFile := stored;
      written := [];
    }

    /** `fs.writeFileSync` of the answers path. */
    method Save(answers: seq<Record>)
      modifies this
      ensures answersFile == Some(answers) && written == old(written) + [answers]
      ensures pending == old(pending) && shown == old(shown)
    {
      answersFile := Some(answers);
      written := written + [answers];
    }

    /**
      The first half of `query`: show the trimmed question and write the
      previous answer into the input line when a record exists.
     */
    method ShowPrompt(q: Question, answers: Option<seq<Record>>)
      modifies this
      ensures shown == old(shown) + [PromptFor(q, answers)]
      ensures pending == old(pending) && answersFile == old(answersFile) && written == old(written)
    {
      var previousAnswer := FindAnswer(q, answers);
      shown := shown + [Prompt(Trim(q.question) + " ",
                               if previousAnswer.None? then None else Some(previousAnswer.value.answer))];
    }

    /**
      `query`: show the prompt, read one line, transform and validate it; an
      invalid answer makes it call itself without the answers list.
     */
    method AskQuery(q: Question, answers: Option<seq<Record>>) returns (answer: Option<Value>)
      modifies this
      ensures var a := Query(q, answers, old(pending));
        && answer == a.answer && pending == a.rest
        && shown == old(shown) + Prompts(q, answers, a.attempts)
      ensures answersFile == old(answersFile) && written == old(written)
      decreases |pending|
    {
      ShowPrompt(q, answers);
      assert Prompts(q, answers, 1) == [PromptFor(q, answers)] + [];
      var inputs := pending;
      if inputs == [] {
        answer := None;
        return;
      }
      QueryStep(q, answers, inputs);
      pending := inputs[1..];
      var transformed := TransformAnswer(inputs[0], answers, q.transform);
      if CheckIsAnswerValid(transformed, q.allowBlank) {
        answer := Some(transformed);
      } else {
        ghost var before := shown;
        answer := AskQuery(q, None);
        RetryShown(q, answers, inputs, old(shown), before, shown);
      }
    }

    /** The dispatch of `inquire` on one spec: ask it, derive it, or stop. */
    method Next(q: Question, previous: seq<Record>) returns (step: Step)
      modifies this
      ensures step == Dispatch(q, previous, old(pending))
      ensures shown == old(shown) + (if step.Stop? then [] else step.prompts)
      ensures pending == if step.Answered? then step.rest else if step.Waiting? then [] else old(pending)
      ensures answersFile == old(answersFile) && written == old(written)
    {
      if q.question != "" {
        var before := |shown|;
        var a := AskQuery(q, Some(previous));
        if a.None? {
          step := Waiting(shown[before..]);
        } else {
          step := Answered(Record(q.name, a.value), shown[before..], pending);
        }
      } else if q.useAnswer != "" {
        step := Answered(DeriveAnswer(q, previous), [], pending);
      } else {
        step := Stop;
      }
    }

    /**
      `inquire`: dispatch on the first spec, carry on with the rest against
      the answers extended by the new record, and once that has resolved
      write this level's answers to the file.
     */
    method Walk(questions: seq<Question>, previous: seq<Record>) returns (answers: seq<Record>, done: bool)
      modifies this
      ensures var r := Inquire(questions, previous, old(pending));
        && answers == r.answers && done == r.done && pending == r.rest && shown == old(shown) + r.prompts
        && written == old(written) + r.writes
      ensures answersFile == if done then Some(answers) else old(answersFile)
      decreases |questions|
    {
      var step := Stop;
      if questions != [] {
        step := Next(questions[0], previous);
      }
      match step
      case Stop =>
        answers, done := [], true;
        Save(answers);
      case Waiting(_) =>
        answers, done := [], false;
      case Answered(answer, prompts, _) =>
        var following;
        following, done := Walk(questions[1..], previous + [answer]);
        answers := [answer] + following;
        ghost var f := Inquire(questions[1..], previous + [answer], step.rest);
        InquireAnswered(questions, previous, old(pending));
        AppendAssociates(old(shown), prompts, f.prompts);
        if done {
          Save(answers);
          AppendAssociates(old(written), f.writes, [answers]);
        }
    }

    /** The exported function: read the answers file, then walk the questions. */
    method Start(questions: seq<Question>) returns (answers: seq<Record>, done: bool)
      modifies this
      ensures var previous := if old(answersFile).Some? then old(answersFile).value else [];
        var r := Inquire(questions, previous, old(pending));
        && answers == r.answers && done == r.done && pending == r.rest && shown == old(shown) + r.prompts
        && written == old(written) + r.writes
      ensures done ==> answersFile == Some(answers)
      ensures !done ==> answersFile == old(answersFile) && written == old(written)
    {
      var previousAnswers: seq<Record> := [];
      if answersFile.Some? {
        previousAnswers := answersFile.value;
      }
      InquireWrites(questions, previousAnswers, pending);
      answers, done := Walk(questions, previousAnswers);
    }
  }
}
