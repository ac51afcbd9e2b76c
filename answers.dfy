/**
  The data both question engines share: answer records, question
  specifications, and the first-match lookup `answers.find(...)` by name.
 */
module Answers {
  import opened JsValue

  /** `{ name, answer }`, as `generateAnswer` builds it. */
  datatype Record = Record(name: string, answer: Value)

  /**
    The second argument a transform receives: the answers list, or
    `undefined` (None) when the older engine re-asks a question.
   */
  type Transform = (Value, Option<seq<Record>>) -> Value

  /** A `defaultAnswer` function: computes the default from the answers so far. */
  type DefaultFn = seq<Record> -> Value

  /**
    A question specification. An absent `question` or `useAnswer` is the empty
    string, which is exactly as falsy as the missing field.
   */
  datatype Question = Question(
    name: string,
    question: string,
    useAnswer: string,
    allowBlank: bool,
    defaultAnswer: Prop<DefaultFn>,
    transform: Prop<Transform>)

  /** `answers.find((answer) => answer.name === name)`: the first record with that name. */
  function Find(answers: seq<Record>, name: string): (r: Option<Record>)
    ensures r.Some? ==> r.value.name == name && r.value in answers
  {
    if answers == [] then None
    else if answers[0].name == name then Some(answers[0])
    else Find(answers[1..], name)
  }

  /**
    `Find` yields nothing exactly when no record has the name, and otherwise
    the record at the first index holding it.
   */
  lemma {:induction false} FindFirst(answers: seq<Record>, name: string)
    ensures Find(answers, name).None? <==> forall i :: 0 <= i < |answers| ==> answers[i].name != name
    ensures Find(answers, name).Some? ==>
      exists i :: && 0 <= i < |answers| && answers[i] == Find(answers, name).value
                  && forall j :: 0 <= j < i ==> answers[j].name != name
  {
    if answers != [] && answers[0].name != name {
      FindFirst(answers[1..], name);
      var r := Find(answers, name);
      forall i | 1 <= i < |answers| ensures answers[i] == answers[1..][i - 1] {}
      if r.Some? {
        var i :| 0 <= i < |answers[1..]| && answers[1..][i] == r.value
                 && forall j :: 0 <= j < i ==> answers[1..][j].name != name;
        assert forall j :: 0 <= j < i + 1 ==> answers[j].name != name by {
          forall j | 0 <= j < i + 1 ensures answers[j].name != name {
            if j > 0 { assert answers[j] == answers[1..][j - 1]; }
          }
        }
        assert answers[i + 1] == r.value;
      }
    }
  }

  /**
    A record earlier in the list shadows any later record with the same name:
    persisted answers come first, so they win over this run's answers.
   */
  lemma {:induction false} FindShadows(earlier: seq<Record>, later: seq<Record>, name: string)
    requires Find(earlier, name).Some?
    ensures Find(earlier + later, name) == Find(earlier, name)
  {
    if earlier[0].name != name {
      assert (earlier + later)[1..] == earlier[1..] + later;
      FindShadows(earlier[1..], later, name);
    }
  }

  /** When the earlier part has no such name, the lookup falls through to the later part. */
  lemma {:induction false} FindFallsThrough(earlier: seq<Record>, later: seq<Record>, name: string)
    requires Find(earlier, name).None?
    ensures Find(earlier + later, name) == Find(later, name)
  {
    if earlier != [] {
      assert (earlier + later)[1..] == earlier[1..] + later;
      FindFallsThrough(earlier[1..], later, name);
    } else {
      assert earlier + later == later;
    }
  }

  // ---------------------------------------------------------------------
  // Shared by both walks

  /** `question.question` is truthy: the spec is asked. */
  predicate Asks(q: Question) { q.question != "" }

  /** No prompt but a truthy `useAnswer`: the spec is derived. */
  predicate Derives(q: Question) { q.question == "" && q.useAnswer != "" }

  /** The number of leading specs that are asked or derived: the walk stops at the first other one. */
  function Answerable(questions: seq<Question>): (n: nat)
    ensures n <= |questions|
    ensures forall i :: 0 <= i < n ==> Asks(questions[i]) || Derives(questions[i])
    ensures n < |questions| ==> !Asks(questions[n]) && !Derives(questions[n])
  {
    if questions == [] || !(Asks(questions[0]) || Derives(questions[0])) then 0
    else
      var n := Answerable(questions[1..]);
      assert forall i :: 1 <= i < |questions| ==> questions[i] == questions[1..][i - 1];
      1 + n
  }

  /**
    How many prompts were shown, the resolved answer (None: still waiting),
    and the unread input.
   */
  datatype Asked = Asked(attempts: nat, answer: Option<Value>, rest: seq<Value>)

  /** `n` copies of one value. */
  function Repeat<T>(p: T, n: nat): (r: seq<T>)
    ensures |r| == n && forall i :: 0 <= i < n ==> r[i] == p
  {
    if n == 0 then [] else Repeat(p, n - 1) + [p]
  }

  lemma AppendAssociates<T>(a: seq<T>, b: seq<T>, c: seq<T>)
    ensures a + (b + c) == (a + b) + c
  {
  }

  /** One copy followed by `n` more copies is `n + 1` copies. */
  lemma {:induction false} RepeatAppend<T>(p: T, n: nat)
    ensures [p] + Repeat(p, n) == Repeat(p, n + 1)
  {
    if n > 0 {
      RepeatAppend(p, n - 1);
      assert [p] + Repeat(p, n) == ([p] + Repeat(p, n - 1)) + [p];
    }
  }
}
