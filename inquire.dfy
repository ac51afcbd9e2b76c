/**
  The question-answer engine of src/inquire.js.

  The walk goes over the question specifications in order and builds the
  answer records in the same order. A spec with a prompt is asked (and asked
  again for as long as the transformed input is invalid); a spec with only
  `useAnswer` copies, possibly transformed, an answer found in the lookup
  list; any other spec ends the walk. The lookup list is the persisted
  answers of the previous run followed by this run's answers so far.

  The user is a finite sequence of input values, one consumed per prompt.
  When it runs out while a prompt is waiting, the run is not `done`: the
  source would wait for ever.
 */
module Inquire {
  import opened JsValue
  import opened Answers
  import opened TypeCheck

  // ---------------------------------------------------------------------
  // Tab completion

  /** The function held by the module-level `completer` variable. */
  datatype Completer =
    | Base                        // `baseCompleter`
    | OfferDefault(default: Value) // the closure `query` installs for a truthy default

  datatype Completion = Completion(options: seq<Value>, line: string)

  /** What `query` installs before each prompt. */
  function CompleterFor(default: Value): Completer
  {
    if Truthy(default) then OfferDefault(default) else Base
  }

  /**
    Calling the installed completer on the typed line. `None` stands for the
    TypeError `startsWith` throws when the default is not a string.
   */
  function CompleteLine(c: Completer, line: string): (r: Option<Completion>)
  {
    match c
    case Base => Some(Completion([Str("")], line))
    case OfferDefault(d) =>
      if !d.Str? then None
      else
        var complete := line <= d.s || line == "";
        Some(Completion([if complete then d else Str("")], line))
  }

  /**
    The completer offers the default exactly when the typed line is a prefix
    of it (the empty line included), offers `''` otherwise, and always hands
    the line back unchanged.
   */
  lemma CompleterOffersDefault(default: Value, line: string)
    requires !Truthy(default) || default.Str?
    ensures CompleteLine(CompleterFor(default), line).Some?
    ensures CompleteLine(CompleterFor(default), line).value.line == line
    ensures |CompleteLine(CompleterFor(default), line).value.options| == 1
    ensures CompleteLine(CompleterFor(default), line).value.options[0] ==
      if Truthy(default) && line <= default.s then default else Str("")
  {
  }
  /**
    A truthy default that is not a string: tab completion calls `startsWith`
    on it, which throws a TypeError, whatever the line.
   */
  lemma CompleterNonStringThrows(default: Value, line: string)
    requires Truthy(default) && !default.Str?
    ensures CompleteLine(CompleterFor(default), line).None?
  {
  }


  // ---------------------------------------------------------------------
  // Prompt text

  const Punctuation: seq<char> := [':', '.', '?', '!']

  /** `augmentQuestion` */
  function AugmentQuestion(question: string, default: Value): string
  {
    var text := Trim(question);
    var punctuated := text != [] && text[|text| - 1] in Punctuation;
    var body := if punctuated then text[..|text| - 1] else text;
    var shown := if Truthy(default) then body + " (" + ToText(default) + ")" else body;
    (if punctuated then shown + [text[|text| - 1]] else shown) + " "
  }

  /**
    The prompt text is the trimmed question followed by one space; a truthy
    default is shown as ` (default)` placed before a single trailing `:`,
    `.`, `?` or `!`, or at the end when there is none.
   */
  lemma AugmentQuestionText(question: string, default: Value)
    ensures var r := AugmentQuestion(question, default);
      && |r| > 0 && r[|r| - 1] == ' '
      && (!Truthy(default) ==> r == Trim(question) + " ")
      && (Truthy(default) ==>
            var t := Trim(question);
            if t != [] && t[|t| - 1] in Punctuation
            then r == t[..|t| - 1] + " (" + ToText(default) + ")" + [t[|t| - 1]] + " "
            else r == t + " (" + ToText(default) + ")" + " ")
  {
    if Truthy(default) {
      AugmentWithDefault(question, default);
    } else {
      AugmentWithoutDefault(question, default);
    }
  }

  lemma AugmentWithoutDefault(question: string, default: Value)
    requires !Truthy(default)
    ensures AugmentQuestion(question, default) == Trim(question) + " "
  {
    var t := Trim(question);
    if t != [] && t[|t| - 1] in Punctuation {
      assert t[..|t| - 1] + [t[|t| - 1]] == t;
    }
  }

  lemma AugmentWithDefault(question: string, default: Value)
    requires Truthy(default)
    ensures var r := AugmentQuestion(question, default);
      var t := Trim(question);
      if t != [] && t[|t| - 1] in Punctuation
      then r == t[..|t| - 1] + " (" + ToText(default) + ")" + [t[|t| - 1]] + " "
      else r == t + " (" + ToText(default) + ")" + " "
  {
  }

  // ---------------------------------------------------------------------
  // Pure helpers of the walk

  /**
    `getDefaultAnswer`: `''` when the spec has no `defaultAnswer` key, the
    function's result when it is a function, the value itself otherwise.
   */
  function GetDefaultAnswer(q: Question, answers: seq<Record>): Value
  {
    match q.defaultAnswer
    case Missing => Str("")
    case Plain(v) => v
    case Call(f) => f(answers)
  }

  /** `findAnswer`: the answer of the first record with that name, or `undefined`. */
  function FindAnswer(answers: seq<Record>, name: string): Value
  {
    match Find(answers, name)
    case None => Undef
    case Some(record) => record.answer
  }

  /**
    `findAnswer` gives `undefined` when no record has the name, and
    otherwise the answer of the first record that has it.
   */
  lemma FindAnswerIsFirst(answers: seq<Record>, name: string)
    ensures (forall i :: 0 <= i < |answers| ==> answers[i].name != name) ==> FindAnswer(answers, name) == Undef
    ensures forall i :: 0 <= i < |answers| && answers[i].name == name
                        && (forall j :: 0 <= j < i ==> answers[j].name != name) ==>
              FindAnswer(answers, name) == answers[i].answer
  {
    FindFirst(answers, name);
    forall i | 0 <= i < |answers| && answers[i].name == name
               && (forall j :: 0 <= j < i ==> answers[j].name != name)
      ensures FindAnswer(answers, name) == answers[i].answer
    {
      var k :| && 0 <= k < |answers| && answers[k] == Find(answers, name).value
               && forall j :: 0 <= j < k ==> answers[j].name != name;
      assert answers[k].name == name;
      assert !(k < i) && !(i < k);
    }
  }

  /**
    `transformAnswer`: a function-valued `transform` is applied to the value
    and the answers; without one, a truthy `defaultAnswer` discards the value
    (giving `''`); otherwise the value passes through.
   */
  function TransformAnswer(answer: Value, answers: seq<Record>, q: Question): Value
  {
    if q.transform.Call? then q.transform.f(answer, Some(answers))
    else if q.defaultAnswer.IsTruthy() then Str("")
    else answer
  }

  /**
    `checkIsAnswerValid`: a string is valid when it is non-empty, or blanks
    are allowed, or a truthy `defaultAnswer` is configured (a function
    counts); `null` and `undefined` never are; anything else always is.
   */
  function CheckIsAnswerValid(answer: Value, q: Question): bool
  {
    match answer
    case Str(s) => s != "" || q.allowBlank || q.defaultAnswer.IsTruthy()
    case Null => false
    case Undef => false
    case _ => true
  }

  /** The source decides by a `switch` on the `getType` tag; the tags pick the same cases. */
  lemma CheckIsAnswerValidByTag(answer: Value, q: Question)
    ensures CheckIsAnswerValid(answer, q) <==>
      var t := GetType(answer);
      if t == "string" then answer.s != "" || q.allowBlank || q.defaultAnswer.IsTruthy()
      else t != "null" && t != "undefined"
  {
  }

  /** `deriveAnswer`: transform the answer found under `useAnswer` and name it. */
  function DeriveAnswer(q: Question, answers: seq<Record>): Record
  {
    var answerToUse := FindAnswer(answers, q.useAnswer);
    Record(q.name, TransformAnswer(answerToUse, answers, q))
  }

  /** `useAnswer`: a derived record whose answer is `undefined` gets `''` instead. */
  function UseAnswer(q: Question, answers: seq<Record>): (r: Record)
    ensures r.name == q.name
    ensures r.answer != Undef
    ensures DeriveAnswer(q, answers).answer != Undef ==> r == DeriveAnswer(q, answers)
    ensures DeriveAnswer(q, answers).answer == Undef ==> r.answer == Str("")
  {
    var answer := DeriveAnswer(q, answers);
    if answer.answer == Undef then answer.(answer := Str("")) else answer
  }

  /**
    `transformPreviousAnswers`: each persisted record whose name has a
    function in `transforms` gets its answer replaced by the function's result.
    (Non-function entries of the transforms object behave as absent ones.)
   */
  function TransformPreviousAnswers(answers: seq<Record>, transforms: map<string, Value -> Value>): (r: seq<Record>)
    ensures |r| == |answers|
    ensures forall i :: 0 <= i < |r| ==> r[i].name == answers[i].name
    ensures forall i :: 0 <= i < |r| && answers[i].name !in transforms ==> r[i] == answers[i]
    ensures forall i :: 0 <= i < |r| && answers[i].name in transforms ==>
              r[i].answer == transforms[answers[i].name](answers[i].answer)
  {
    seq(|answers|, i requires 0 <= i < |answers| =>
      var answer := answers[i];
      if answer.name in transforms then answer.(answer := transforms[answer.name](answer.answer))
      else answer)
  }

  // ---------------------------------------------------------------------
  // One question, asked until the answer is valid

  /** What the user sees for one attempt: prompt text, pre-filled input, completer. */
  datatype Prompt = Prompt(text: string, prefill: Option<string>, completer: Completer)

  /** The prompt `query` shows; the pre-fill is `'' + previousAnswer` unless that is `undefined`. */
  function PromptFor(q: Question, answers: seq<Record>): Prompt
  {
    var previousAnswer := FindAnswer(answers, q.name);
    var defaultAnswer := GetDefaultAnswer(q, answers);
    Prompt(AugmentQuestion(q.question, defaultAnswer),
           if previousAnswer == Undef then None else Some(ToText(previousAnswer)),
           CompleterFor(defaultAnswer))
  }

  /** Does the raw input, once transformed, pass validation? */
  predicate Accepts(q: Question, answers: seq<Record>, raw: Value)
  {
    CheckIsAnswerValid(TransformAnswer(raw, answers, q), q)
  }

  /** `answer || defaultAnswer`: what an accepted raw input resolves to. */
  function Accepted(q: Question, answers: seq<Record>, raw: Value): Value
  {
    var answer := TransformAnswer(raw, answers, q);
    if Truthy(answer) then answer else GetDefaultAnswer(q, answers)
  }

  /**
    `query`, with the retry of its `catch`: the prompt is shown again, with
    the same answers list, for every rejected input. Each prompt reads one
    input; the resolved answer is that of the first accepted input.
   */
  function Query(q: Question, answers: seq<Record>, inputs: seq<Value>): (r: Asked)
    ensures r.attempts >= 1
    ensures |r.rest| <= |inputs| && r.rest == inputs[|inputs| - |r.rest|..]
    ensures r.answer.None? ==>
      && r.rest == []
      && r.attempts == |inputs| + 1
      && forall i :: 0 <= i < |inputs| ==> !Accepts(q, answers, inputs[i])
    ensures r.answer.Some? ==>
      && r.attempts == |inputs| - |r.rest|
      && Accepts(q, answers, inputs[r.attempts - 1])
      && r.answer.value == Accepted(q, answers, inputs[r.attempts - 1])
      && forall i :: 0 <= i < r.attempts - 1 ==> !Accepts(q, answers, inputs[i])
    decreases |inputs|
  {
    if inputs == [] then Asked(1, None, [])
    else
      var answer := TransformAnswer(inputs[0], answers, q);
      if CheckIsAnswerValid(answer, q) then
        Asked(1, Some(if Truthy(answer) then answer else GetDefaultAnswer(q, answers)), inputs[1..])
      else
        var again := Query(q, answers, inputs[1..]);
        assert forall i :: 1 <= i < |inputs| ==> inputs[i] == inputs[1..][i - 1];
        Asked(again.attempts + 1, again.answer, again.rest)
  }

  // ---------------------------------------------------------------------
  // The walk

  /** The records built, the prompts shown, the unread input, and whether the walk ended. */
  datatype Run = Run(answers: seq<Record>, prompts: seq<Prompt>, rest: seq<Value>, done: bool)

  /** What one spec contributes to the walk. */
  datatype Step =
    | Stop                                                     // neither asked nor derived
    | Waiting(prompts: seq<Prompt>)                            // asked, input ran out
    | Answered(answer: Record, prompts: seq<Prompt>, rest: seq<Value>)

  /**
    The dispatch of `inquire` on one spec: `askQuestion` (query, then
    `generateAnswer`) when it has a prompt, else `useAnswer` when it names a
    source, else stop.
   */
  function Dispatch(q: Question, previous: seq<Record>, inputs: seq<Value>): (s: Step)
    ensures s.Stop? <==> !Asks(q) && !Derives(q)
    ensures s.Waiting? ==> Asks(q)
    ensures s.Answered? ==> s.answer.name == q.name && |s.rest| <= |inputs|
    ensures Derives(q) ==> s == Answered(UseAnswer(q, previous), [], inputs)
  {
    if Asks(q) then
      var asked := Query(q, previous, inputs);
      var prompts := Repeat(PromptFor(q, previous), asked.attempts);
      if asked.answer.None? then Waiting(prompts)
      else Answered(Record(q.name, asked.answer.value), prompts, asked.rest)
    else if Derives(q) then Answered(UseAnswer(q, previous), [], inputs)
    else Stop
  }

  /**
    `inquire` with `askNextQuestion`: dispatch on the first spec, then
    recurse on the rest with the new record appended to the lookup list, and
    prepend the record to what follows.
   */
  function Inquire(questions: seq<Question>, previous: seq<Record>, inputs: seq<Value>): Run
    decreases |questions|
  {
    if questions == [] then Run([], [], inputs, true)
    else
      match Dispatch(questions[0], previous, inputs)
      case Stop => Run([], [], inputs, true)
      case Waiting(prompts) => Run([], prompts, [], false)
      case Answered(answer, prompts, rest) =>
        var following := Inquire(questions[1..], previous + [answer], rest);
        Run([answer] + following.answers, prompts + following.prompts, following.rest, following.done)
  }

  /** The walk from spec `i` on, unfolded by one dispatch. */
  lemma InquireFrom(questions: seq<Question>, i: nat, lookup: seq<Record>, inputs: seq<Value>)
    requires i < |questions|
    ensures var step := Dispatch(questions[i], lookup, inputs);
      Inquire(questions[i..], lookup, inputs) ==
        if step.Stop? then Run([], [], inputs, true)
        else if step.Waiting? then Run([], step.prompts, [], false)
        else
          var following := Inquire(questions[i + 1..], lookup + [step.answer], step.rest);
          Run([step.answer] + following.answers, step.prompts + following.prompts, following.rest, following.done)
  {
    assert questions[i..][0] == questions[i] && questions[i..][1..] == questions[i + 1..];
  }

  /**
    The walk after `answers` have been built and `prompts` shown, seen from
    spec `i` on: one more answered spec moves the cursor by one.
   */
  lemma InquireAdvance(questions: seq<Question>, i: nat, previous: seq<Record>, answers: seq<Record>,
                       prompts: seq<Prompt>, inputs: seq<Value>)
    requires i < |questions| && Dispatch(questions[i], previous + answers, inputs).Answered?
    ensures var step := Dispatch(questions[i], previous + answers, inputs);
      var s := Inquire(questions[i..], previous + answers, inputs);
      var t := Inquire(questions[i + 1..], previous + (answers + [step.answer]), step.rest);
      Run(answers + s.answers, prompts + s.prompts, s.rest, s.done)
        == Run((answers + [step.answer]) + t.answers, (prompts + step.prompts) + t.prompts, t.rest, t.done)
  {
    var step := Dispatch(questions[i], previous + answers, inputs);
    InquireFrom(questions, i, previous + answers, inputs);
    var t := Inquire(questions[i + 1..], previous + answers + [step.answer], step.rest);
    AppendAssociates(previous, answers, [step.answer]);
    AppendAssociates(answers, [step.answer], t.answers);
    AppendAssociates(prompts, step.prompts, t.prompts);
  }

  /**
    Dispatch and stop: a finished walk has one record per spec of the
    answerable prefix; a walk still waiting for input has fewer, and has
    read all of it.
   */
  lemma {:induction false} InquireCount(questions: seq<Question>, previous: seq<Record>, inputs: seq<Value>)
    ensures var r := Inquire(questions, previous, inputs);
      && (r.done ==> |r.answers| == Answerable(questions))
      && (!r.done ==> |r.answers| < Answerable(questions) && r.rest == [])
    decreases |questions|
  {
    if questions != [] {
      var step := Dispatch(questions[0], previous, inputs);
      if step.Answered? {
        assert Answerable(questions) == 1 + Answerable(questions[1..]);
        InquireCount(questions[1..], previous + [step.answer], step.rest);
      }
    }
  }

  /**
    `answers` is a run of records for the leading `questions`, built one at a
    time against a lookup list that starts as `lookup` and grows by each
    record, while the input is read from `inputs` on: an asked spec's record
    is its name with the answer its query resolves to on the input left at
    that point (the query then consumes its attempts), and a derived spec's
    record is `useAnswer` against exactly the lookup list at that point.
   */
  ghost predicate BuiltFrom(questions: seq<Question>, lookup: seq<Record>, inputs: seq<Value>, answers: seq<Record>)
    decreases |answers|
  {
    || answers == []
    || (&& questions != []
        && var q := questions[0];
           if Asks(q) then
             var asked := Query(q, lookup, inputs);
             && asked.answer.Some?
             && answers[0] == Record(q.name, asked.answer.value)
             && BuiltFrom(questions[1..], lookup + [answers[0]], asked.rest, answers[1..])
           else
             && Derives(q)
             && answers[0] == UseAnswer(q, lookup)
             && BuiltFrom(questions[1..], lookup + [answers[0]], inputs, answers[1..]))
  }

  /** Every record the walk builds is the one `BuiltFrom` describes. */
  lemma {:induction false} InquireRecords(questions: seq<Question>, previous: seq<Record>, inputs: seq<Value>)
    ensures BuiltFrom(questions, previous, inputs, Inquire(questions, previous, inputs).answers)
    decreases |questions|
  {
    if questions != [] {
      var step := Dispatch(questions[0], previous, inputs);
      if step.Answered? {
        InquireRecords(questions[1..], previous + [step.answer], step.rest);
        var r := Inquire(questions, previous, inputs);
        assert r.answers[1..] == Inquire(questions[1..], previous + [step.answer], step.rest).answers;
      }
    }
  }

  /** In particular the records carry the spec names in the spec order. */
  lemma {:induction false} BuiltFromNames(questions: seq<Question>, lookup: seq<Record>, inputs: seq<Value>, answers: seq<Record>)
    requires BuiltFrom(questions, lookup, inputs, answers)
    ensures |answers| <= |questions|
    ensures forall i :: 0 <= i < |answers| ==> answers[i].name == questions[i].name
    decreases |answers|
  {
    if answers != [] {
      var q := questions[0];
      var next := if Asks(q) then Query(q, lookup, inputs).rest else inputs;
      BuiltFromNames(questions[1..], lookup + [answers[0]], next, answers[1..]);
      forall i | 1 <= i < |answers| ensures answers[i].name == questions[i].name {
        assert answers[i] == answers[1..][i - 1] && questions[i] == questions[1..][i - 1];
      }
    }
  }

  /**
    A spec with a prompt is asked even when it also has `useAnswer`; a spec
    with neither field ends the walk at once, whatever follows it.
   */
  lemma DispatchOrder(q: Question, rest: seq<Question>, previous: seq<Record>, inputs: seq<Value>)
    ensures Asks(q) ==> Inquire([q] + rest, previous, inputs).prompts[0] == PromptFor(q, previous)
    ensures !Asks(q) && !Derives(q) ==> Inquire([q] + rest, previous, inputs) == Run([], [], inputs, true)
  {
    assert ([q] + rest)[0] == q && ([q] + rest)[1..] == rest;
  }

  // ---------------------------------------------------------------------
  // Properties of one query

  /**
    One attempt of `query`: an accepted first input resolves it; a rejected
    one costs a prompt and the query starts over on the next input.
   */
  lemma QueryStep(q: Question, answers: seq<Record>, inputs: seq<Value>)
    requires inputs != []
    ensures Accepts(q, answers, inputs[0]) ==>
      Query(q, answers, inputs) == Asked(1, Some(Accepted(q, answers, inputs[0])), inputs[1..])
    ensures !Accepts(q, answers, inputs[0]) ==>
      var again := Query(q, answers, inputs[1..]);
      Query(q, answers, inputs) == Asked(again.attempts + 1, again.answer, again.rest)
  {
  }

  /**
    A rejected input makes the next prompt of the walk the same question
    again, with the same answers list.
   */
  lemma RejectedInputAsksAgain(q: Question, rest: seq<Question>, previous: seq<Record>, inputs: seq<Value>)
    requires Asks(q) && inputs != [] && !Accepts(q, previous, inputs[0])
    ensures var r := Inquire([q] + rest, previous, inputs);
      |r.prompts| >= 2 && r.prompts[0] == r.prompts[1] == PromptFor(q, previous)
  {
    assert ([q] + rest)[0] == q && ([q] + rest)[1..] == rest;
  }

  /**
    With no `transform` and a truthy `defaultAnswer`, every input is accepted
    and the stored answer is the computed default, whatever was typed.
   */
  lemma DefaultDiscardsInput(q: Question, answers: seq<Record>, raw: Value)
    requires !q.transform.Call? && q.defaultAnswer.IsTruthy()
    ensures Accepts(q, answers, raw)
    ensures Accepted(q, answers, raw) ==
      if q.defaultAnswer.Call? then q.defaultAnswer.f(answers) else q.defaultAnswer.v
  {
  }

  /**
    `answer || defaultAnswer`: an accepted answer that is falsy once
    transformed resolves to the default, which is the result of calling a
    function default with the answers list, a plain default as it is, and
    `''` when the spec has no `defaultAnswer` key.
   */
  lemma FalsyAnswerTakesDefault(q: Question, answers: seq<Record>, raw: Value)
    requires Accepts(q, answers, raw) && !Truthy(TransformAnswer(raw, answers, q))
    ensures q.defaultAnswer.Call? ==> Accepted(q, answers, raw) == q.defaultAnswer.f(answers)
    ensures q.defaultAnswer.Plain? ==> Accepted(q, answers, raw) == q.defaultAnswer.v
    ensures q.defaultAnswer.Missing? ==> Accepted(q, answers, raw) == Str("")
  {
  }

  /** A truthy transformed answer is kept, whatever the default. */
  lemma TruthyAnswerKept(q: Question, answers: seq<Record>, raw: Value)
    requires Truthy(TransformAnswer(raw, answers, q))
    ensures Accepts(q, answers, raw)
    ensures Accepted(q, answers, raw) == TransformAnswer(raw, answers, q)
  {
  }

  /** Without a `defaultAnswer` key the fallback is `''`: an accepted blank stays blank. */
  lemma NoDefaultFallsBackToBlank(q: Question, answers: seq<Record>, raw: Value)
    requires q.defaultAnswer.Missing? && Accepts(q, answers, raw)
    ensures Accepted(q, answers, raw) == (
      var t := TransformAnswer(raw, answers, q);
      if Truthy(t) then t else Str(""))
  {
  }

  /** `null` and `undefined` are never accepted, so they are always asked again. */
  lemma NullishRejected(q: Question, answers: seq<Record>, raw: Value)
    requires TransformAnswer(raw, answers, q).Null? || TransformAnswer(raw, answers, q).Undef?
    ensures !Accepts(q, answers, raw)
  {
  }

  // ---------------------------------------------------------------------
  // Derived answers

  /**
    A derived record: a found source answer is copied unchanged when there
    is no transform (and no truthy default, which would blank it); with a
    transform it is `transform(source, answers)`; a missing source with
    neither gives `''`.
   */
  lemma DerivedAnswers(q: Question, answers: seq<Record>)
    ensures var source := FindAnswer(answers, q.useAnswer);
      && (!q.transform.Call? && !q.defaultAnswer.IsTruthy() && source != Undef ==>
            UseAnswer(q, answers) == Record(q.name, source))
      && (q.transform.Call? && q.transform.f(source, Some(answers)) != Undef ==>
            UseAnswer(q, answers) == Record(q.name, q.transform.f(source, Some(answers))))
      && (q.transform.Call? && q.transform.f(source, Some(answers)) == Undef ==>
            UseAnswer(q, answers) == Record(q.name, Str("")))
      && (!q.transform.Call? && q.defaultAnswer.IsTruthy() ==>
            UseAnswer(q, answers) == Record(q.name, Str("")))
      && (!q.transform.Call? && Find(answers, q.useAnswer).None? ==>
            UseAnswer(q, answers) == Record(q.name, Str("")))
  {
  }

  /**
    Persisted records come first in the lookup list, so a persisted record
    shadows this run's answer of the same name, for derived answers and for
    the pre-filled input alike.
   */
  lemma PersistedShadows(q: Question, persisted: seq<Record>, current: seq<Record>)
    ensures Find(persisted, q.useAnswer).Some? ==>
      FindAnswer(persisted + current, q.useAnswer) == Find(persisted, q.useAnswer).value.answer
    ensures Find(persisted, q.name).Some? && Find(persisted, q.name).value.answer != Undef ==>
      PromptFor(q, persisted + current).prefill == Some(ToText(Find(persisted, q.name).value.answer))
    ensures Find(persisted, q.name).None? ==>
      PromptFor(q, persisted + current).prefill ==
        (if FindAnswer(current, q.name) == Undef then None else Some(ToText(FindAnswer(current, q.name))))
  {
    if Find(persisted, q.useAnswer).Some? {
      FindShadows(persisted, current, q.useAnswer);
    }
    if Find(persisted, q.name).Some? {
      FindShadows(persisted, current, q.name);
    } else {
      FindFallsThrough(persisted, current, q.name);
    }
  }

  // ---------------------------------------------------------------------
  // Examples from the engine's tests

  function AskFood(name: string, text: string): Question
  {
    Question(name, text, "", false, Missing, Missing)
  }

  function Derived(name: string, source: string, transform: Prop<Transform>): Question
  {
    Question(name, "", source, false, Missing, transform)
  }

  /** The padding around the question of the engine's test is whitespace only. */
  lemma PaddedQuestion(lead: string, core: string, trail: string)
    requires lead == "  " && core == "Do you like food?" && trail == "      "
    ensures Trim(lead + core + trail) == core
  {
    var text := lead + core + trail;
    assert text[|lead|..|lead| + |core|] == core;
    assert forall i :: 0 <= i < |lead| ==> text[i] == lead[i];
    assert forall i :: |lead| + |core| <= i < |text| ==> text[i] == trail[i - |lead| - |core|];
    assert text[|lead|] == 'D' && text[|lead| + |core| - 1] == '?';
    TrimIs(text, |lead|, |lead| + |core|);
  }

  /** The question text is trimmed and gets one trailing space. */
  lemma TrimmedPromptExample(lead: string, core: string, trail: string)
    requires lead == "  " && core == "Do you like food?" && trail == "      "
    ensures PromptFor(AskFood("food", lead + core + trail), []).text == core + " "
  {
    AugmentQuestionText(lead + core + trail, Str(""));
    PaddedQuestion(lead, core, trail);
  }

  /** A last spec that is derived adds its `useAnswer` record and reads nothing. */
  lemma DerivedLast(q: Question, lookup: seq<Record>, inputs: seq<Value>)
    requires Derives(q)
    ensures Inquire([q], lookup, inputs) == Run([UseAnswer(q, lookup)], [], inputs, true)
  {
    assert [q][1..] == [];
  }

  /** An asked spec with no transform and a falsy default is answered by a non-empty typed string. */
  lemma AnsweredFirst(q: Question, typed: Value)
    requires Asks(q) && !q.transform.Call? && !q.defaultAnswer.IsTruthy()
    requires typed.Str? && typed.s != ""
    ensures Dispatch(q, [], [typed]).Answered? && Dispatch(q, [], [typed]).answer == Record(q.name, typed)
      && Dispatch(q, [], [typed]).rest == []
  {
    assert TransformAnswer(typed, [], q) == typed;
    TruthyAnswerKept(q, [], typed);
    QueryStep(q, [], [typed]);
    assert [typed][1..] == [];
  }

  /**
    An asked spec answered by its first input, then a derived spec: two
    records, the second read from the first.
   */
  lemma AskThenDerive(q0: Question, q1: Question, typed: Value)
    requires Asks(q0) && !q0.transform.Call? && !q0.defaultAnswer.IsTruthy()
    requires Derives(q1) && typed.Str? && typed.s != ""
    ensures var first := Record(q0.name, typed);
      Inquire([q0, q1], [], [typed]).answers == [first, UseAnswer(q1, [first])]
  {
    var first := Record(q0.name, typed);
    AnsweredFirst(q0, typed);
    var step := Dispatch(q0, [], [typed]);
    assert [q0, q1][0] == q0 && [q0, q1][1..] == [q1];
    assert [] + [first] == [first];
    DerivedLast(q1, [first], step.rest);
    var following := Inquire([q1], [first], step.rest);
    assert Inquire([q0, q1], [], [typed]).answers == [first] + following.answers;
  }

  /** Whatever the prompt, an answer typed for `fav` is copied into `derived`. */
  lemma DerivedExample(text: string, typed: Value)
    requires text != "" && typed == Str("pizza")
    ensures Inquire([AskFood("fav", text), Derived("derived", "fav", Missing)], [], [typed]).answers
         == [Record("fav", typed), Record("derived", typed)]
  {
    AskThenDerive(AskFood("fav", text), Derived("derived", "fav", Missing), typed);
  }

  /** An unknown source name gives a blank derived answer. */
  lemma UnknownSourceExample(text: string, typed: Value)
    requires text != "" && typed == Str("pizza")
    ensures Inquire([AskFood("fav", text), Derived("derived", "unknown", Missing)], [], [typed]).answers
         == [Record("fav", typed), Record("derived", Str(""))]
  {
    AskThenDerive(AskFood("fav", text), Derived("derived", "unknown", Missing), typed);
  }

  /** The derived-answer transform of the engine's tests. */
  function IsTheBest(answer: Value, answers: Option<seq<Record>>): Value
  {
    Str(ToText(answer) + " is the best!")
  }

  /** A transform on a derived answer is applied to the source answer. */
  lemma TransformExample(text: string, typed: Value)
    requires text != "" && typed == Str("pizza")
    ensures
      Inquire([AskFood("fav", text), Derived("derived", "fav", Call(IsTheBest))], [], [typed]).answers
        == [Record("fav", typed), Record("derived", Str(typed.s + " is the best!"))]
  {
    var q1 := Derived("derived", "fav", Call(IsTheBest));
    AskThenDerive(AskFood("fav", text), q1, typed);
    assert FindAnswer([Record("fav", typed)], "fav") == typed;
  }

  /** Calling back with no input shows the same prompt again before taking the next line. */
  lemma NoInputAsksAgainExample(text: string, typed: Value)
    requires text != "" && typed == Str("Y")
    ensures var r := Inquire([AskFood("food", text)], [], [Undef, typed]);
      && |r.prompts| == 2 && r.prompts[0] == r.prompts[1]
      && r.answers == [Record("food", typed)]
  {
    var q := AskFood("food", text);
    var inputs := [Undef, typed];
    RetryThenAccept(q, typed);
    var p := PromptFor(q, []);
    assert Dispatch(q, [], inputs) == Answered(Record("food", typed), Repeat(p, 2), []);
    InquireSingle(q, [], inputs);
  }

  /** A one-spec list whose spec is answered: that record, its prompts, and the walk ends. */
  lemma InquireSingle(q: Question, previous: seq<Record>, inputs: seq<Value>)
    requires Dispatch(q, previous, inputs).Answered?
    ensures var step := Dispatch(q, previous, inputs);
      Inquire([q], previous, inputs) == Run([step.answer], step.prompts, step.rest, true)
  {
    var step := Dispatch(q, previous, inputs);
    assert [q][1..] == [];
    assert step.prompts + [] == step.prompts;
  }

  /** No input is rejected, then a non-empty string is taken as it is: two prompts. */
  lemma RetryThenAccept(q: Question, typed: Value)
    requires !q.transform.Call? && !q.defaultAnswer.IsTruthy()
    requires typed.Str? && typed.s != ""
    ensures Query(q, [], [Undef, typed]) == Asked(2, Some(typed), [])
  {
    var inputs := [Undef, typed];
    assert TransformAnswer(Undef, [], q) == Undef;
    assert !Accepts(q, [], Undef);
    assert TransformAnswer(typed, [], q) == typed;
    TruthyAnswerKept(q, [], typed);
    assert inputs[1..] == [typed];
    QueryStep(q, [], inputs);
    QueryStep(q, [], [typed]);
    assert [typed][1..] == [];
  }

  /**
    The prompts of a retried query: the first prompt, then those of the
    query over the remaining input, are the prompts of the whole query.
   */
  lemma RetryShown(q: Question, answers: seq<Record>, inputs: seq<Value>,
                   start: seq<Prompt>, before: seq<Prompt>, after: seq<Prompt>)
    requires inputs != [] && !Accepts(q, answers, inputs[0])
    requires before == start + [PromptFor(q, answers)]
    requires after == before + Repeat(PromptFor(q, answers), Query(q, answers, inputs[1..]).attempts)
    ensures after == start + Repeat(PromptFor(q, answers), Query(q, answers, inputs).attempts)
  {
    QueryStep(q, answers, inputs);
    var p, k := PromptFor(q, answers), Query(q, answers, inputs[1..]).attempts;
    RepeatAppend(p, k);
    AppendAssociates(start, [p], Repeat(p, k));
  }

  // ---------------------------------------------------------------------
  // The stateful engine: readline, the module-level completer, the answers file

  /**
    One run of the exported function: the lines the user will type, the
    prompts shown so far, the module-level `completer`, and the parsed
    contents of the `.erector` answers file (None when there is no file).
   */
  class Session {
    var pending: seq<Value>
    var shown: seq<Prompt>
    var completer: Completer
    var answersFile: Option<seq<Record>>

    constructor (inputs: seq<Value>, stored: Option<seq<Record>>)
      ensures pending == inputs && shown == [] && completer == Base && answersFile == stored
    {
      pending := inputs;
      shown := [];
      completer := Base;
      answersFile := stored;
    }

    /** Pressing tab: the readline interface calls whatever `completer` holds now. */
    method Complete(line: string) returns (r: Option<Completion>)
      ensures r == CompleteLine(completer, line)
    {
      r := CompleteLine(completer, line);
    }

    /**
      The first half of `query`: look up the previous answer and the default,
      install the completer, and show the augmented question with the
      previous answer written into the input line.
     */
    method ShowPrompt(q: Question, answers: seq<Record>)
      modifies this
      ensures shown == old(shown) + [PromptFor(q, answers)]
      ensures completer == CompleterFor(GetDefaultAnswer(q, answers))
      ensures pending == old(pending) && answersFile == old(answersFile)
    {
      var previousAnswer := FindAnswer(answers, q.name);
      var defaultAnswer := GetDefaultAnswer(q, answers);
      completer := CompleterFor(defaultAnswer);
      var prefill := if previousAnswer == Undef then None else Some(ToText(previousAnswer));
      var prompt := Prompt(AugmentQuestion(q.question, defaultAnswer), prefill, completer);
      assert prompt == PromptFor(q, answers);
      shown := shown + [prompt];
    }

    /**
      `query`: show the prompt, read one line, transform and validate it;
      an invalid answer makes it call itself with the same arguments.
     */
    method Ask(q: Question, answers: seq<Record>) returns (answer: Option<Value>)
      modifies this
      ensures var a := Query(q, answers, old(pending));
        && answer == a.answer && pending == a.rest
        && shown == old(shown) + Repeat(PromptFor(q, answers), a.attempts)
      ensures completer == CompleterFor(GetDefaultAnswer(q, answers))
      ensures answersFile == old(answersFile)
      decreases |pending|
    {
      ShowPrompt(q, answers);
      assert Repeat(PromptFor(q, answers), 1) == [PromptFor(q, answers)];
      var inputs := pending;
      if inputs == [] {
        answer := None;
        return;
      }
      QueryStep(q, answers, inputs);
      pending := inputs[1..];
      var transformed := TransformAnswer(inputs[0], answers, q);
      if CheckIsAnswerValid(transformed, q) {
        answer := Some(if Truthy(transformed) then transformed else GetDefaultAnswer(q, answers));
        assert Accepts(q, answers, inputs[0]);
      } else {
        ghost var before := shown;
        answer := Ask(q, answers);
        RetryShown(q, answers, inputs, old(shown), before, shown);
      }
    }

    /**
      The dispatch of `inquire` on one spec: ask it (`askQuestion`), derive
      it (`useAnswer`), or stop.
     */
    method Next(q: Question, previous: seq<Record>) returns (step: Step)
      modifies this
      ensures step == Dispatch(q, previous, old(pending))
      ensures shown == old(shown) + (if step.Stop? then [] else step.prompts)
      ensures pending == if step.Answered? then step.rest else if step.Waiting? then [] else old(pending)
      ensures answersFile == old(answersFile)
    {
      if q.question != "" {
        var before := |shown|;
        var a := Ask(q, previous);
        if a.None? {
          step := Waiting(shown[before..]);
        } else {
          step := Answered(Record(q.name, a.value), shown[before..], pending);
        }
      } else if q.useAnswer != "" {
        step := Answered(UseAnswer(q, previous), [], pending);
      } else {
        step := Stop;
      }
    }

    /**
      `inquire`: dispatch on the first spec, then carry on with the rest
      (`askNextQuestion`) against the answers extended by the new record.
     */
    method Walk(questions: seq<Question>, previous: seq<Record>) returns (answers: seq<Record>, done: bool)
      modifies this
      ensures var r := Inquire(questions, previous, old(pending));
        && answers == r.answers && done == r.done && pending == r.rest && shown == old(shown) + r.prompts
      ensures answersFile == old(answersFile)
      decreases |questions|
    {
      if questions == [] {
        return [], true;
      }
      var step := Next(questions[0], previous);
      match step
      case Stop =>
        return [], true;
      case Waiting(_) =>
        return [], false;
      case Answered(answer, prompts, _) =>
        var following;
        following, done := Walk(questions[1..], previous + [answer]);
        answers := [answer] + following;
        AppendAssociates(old(shown), prompts, Inquire(questions[1..], previous + [answer], step.rest).prompts);
    }

    /**
      The exported function: read the answers file and pass it through the
      per-name transforms, walk the questions, and, when asked to and the
      walk finished, overwrite the file with this run's answers.
     */
    method Start(questions: seq<Question>, saveAnswers: bool, transforms: map<string, Value -> Value>)
      returns (answers: seq<Record>, done: bool)
      modifies this
      ensures var previous := if old(answersFile).Some?
                              then TransformPreviousAnswers(old(answersFile).value, transforms) else [];
        var r := Inquire(questions, previous, old(pending));
        && answers == r.answers && done == r.done && pending == r.rest && shown == old(shown) + r.prompts
      ensures answersFile == if done && saveAnswers then Some(answers) else old(answersFile)
    {
      var previousAnswers: seq<Record> := [];
      if answersFile.Some? {
        previousAnswers := TransformPreviousAnswers(answersFile.value, transforms);
      }
      answers, done := Walk(questions, previousAnswers);
      if done && saveAnswers {
        answersFile := Some(answers);
      }
    }
  }
}
