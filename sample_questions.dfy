/**
  The sample question list of examples/questions.js: a yes/no question whose
  transform normalises the reply (or rejects it with `null`), and a derived
  answer that strips the whitespace out of an earlier one.
 */
module SampleQuestions {
  import opened JsValue
  import opened Answers
  import Inquire
  import LegacyInquire

  /** The replies `/^(y(es)?|no?|Alright\!)$/` matches. */
  predicate IsYesNo(s: string)
  {
    s == "y" || s == "yes" || s == "n" || s == "no" || s == "Alright!"
  }

  /**
    `getYesNoValue`: the first character, lower-cased, looked up in
    `{ a: true, n: false, y: true }`; a truthy entry gives `'Alright!'`,
    anything else `''`. The source indexes the first character, so it is
    only ever given a non-empty reply.
   */
  function GetYesNoValue(s: string): string
    requires s != ""
  {
    var c := LowerChar(s[0]);
    if c == 'a' || c == 'y' then "Alright!" else ""
  }

  /** `handleYesNo`: a matching string is normalised; anything else becomes `null`. */
  function HandleYesNo(v: Value): (r: Value)
    ensures r == Str("Alright!") || r == Str("") || r == Null
  {
    if v.Str? && IsYesNo(v.s) then Str(GetYesNoValue(v.s)) else Null
  }

  /** `convertSpaces`: every `\s` character removed. */
  function ConvertSpaces(s: string): (r: string)
    ensures |r| <= |s|
    ensures forall i :: 0 <= i < |r| ==> !IsWhitespace(r[i])
  {
    if s == [] then []
    else if IsWhitespace(s[0]) then ConvertSpaces(s[1..])
    else [s[0]] + ConvertSpaces(s[1..])
  }

  /** `handleYesNo` as a question's transform: the answers are not used. */
  function YesNoTransform(v: Value, answers: Option<seq<Record>>): Value
  {
    HandleYesNo(v)
  }

  /**
    `convertSpaces` as a question's transform. The source calls
    `value.replace`, which only a string has; the model leaves any other
    value as `undefined`.
   */
  function SpacesTransform(v: Value, answers: Option<seq<Record>>): Value
  {
    if v.Str? then Str(ConvertSpaces(v.s)) else Undef
  }

  /** The exported question list. */
  function Sample(): (r: seq<Question>)
    ensures |r| == 4
    ensures forall i :: 0 <= i < 3 ==> Asks(r[i])
    ensures Derives(r[3]) && r[3].useAnswer == r[0].name
  {
    [ Question("food", "What is your favorite food?", "", false, Missing, Missing),
      Question("unused", "What is your age?", "", true, Missing, Missing),
      Question("yesNo", "Answer yes/no:", "", true, Missing, Call(YesNoTransform)),
      Question("foodId", "", "food", false, Missing, Call(SpacesTransform)) ]
  }

  // ---------------------------------------------------------------------
  // Properties

  /**
    The mapping, case by case and in both directions: `y`, `yes` and
    `Alright!` give `'Alright!'`, `n` and `no` give `''`, and every other
    value gives `null`.
   */
  lemma YesNoMapping(v: Value)
    ensures HandleYesNo(v) == Str("Alright!") <==> v == Str("y") || v == Str("yes") || v == Str("Alright!")
    ensures HandleYesNo(v) == Str("") <==> v == Str("n") || v == Str("no")
    ensures HandleYesNo(v) == Null <==> !(v.Str? && IsYesNo(v.s))
  {
  }

  /** The match is case-sensitive: capitalised replies are rejected. */
  lemma YesNoIsCaseSensitive()
    ensures HandleYesNo(Str("Y")) == Null && HandleYesNo(Str("YES")) == Null
    ensures HandleYesNo(Str("No")) == Null && HandleYesNo(Str("alright!")) == Null
  {
  }

  /** Text that has no whitespace is left as it is. */
  lemma {:induction false} ConvertSpacesKeepsPlain(s: string)
    requires forall i :: 0 <= i < |s| ==> !IsWhitespace(s[i])
    ensures ConvertSpaces(s) == s
    decreases |s|
  {
    if s != [] {
      ConvertSpacesKeepsPlain(s[1..]);
      assert [s[0]] + s[1..] == s;
    }
  }

  /** Removing whitespace twice is removing it once. */
  lemma ConvertSpacesIdempotent(s: string)
    ensures ConvertSpaces(ConvertSpaces(s)) == ConvertSpaces(s)
  {
    ConvertSpacesKeepsPlain(ConvertSpaces(s));
  }

  /** Only whitespace is removed: every other character keeps its number of occurrences. */
  lemma {:induction false} ConvertSpacesKeepsOthers(s: string, c: char)
    requires !IsWhitespace(c)
    ensures multiset(ConvertSpaces(s))[c] == multiset(s)[c]
    decreases |s|
  {
    if s != [] {
      ConvertSpacesKeepsOthers(s[1..], c);
      assert s == [s[0]] + s[1..];
      assert multiset(s) == multiset([s[0]]) + multiset(s[1..]);
    }
  }

  /**
    Removal works piece by piece, so the characters kept stay in their
    order: with the one-character cases the contract fixes, this pins the
    result down completely.
   */
  lemma {:induction false} ConvertSpacesAppend(a: string, b: string)
    ensures ConvertSpaces(a + b) == ConvertSpaces(a) + ConvertSpaces(b)
    decreases |a|
  {
    if a != [] {
      assert (a + b)[1..] == a[1..] + b;
      ConvertSpacesAppend(a[1..], b);
    } else {
      assert a + b == b;
    }
  }

  /**
    With blanks allowed, a `no` (normalised to `''`) is an accepted answer,
    while an unrecognised reply (normalised to `null`) makes the engine ask
    again; the older engine decides the same.
   */
  lemma YesNoAcceptance(answers: seq<Record>, v: Value)
    ensures Inquire.Accepts(Sample()[2], answers, v) <==> v.Str? && IsYesNo(v.s)
    ensures LegacyInquire.Accepts(Sample()[2], Some(answers), v) <==> v.Str? && IsYesNo(v.s)
    ensures LegacyInquire.Accepts(Sample()[2], None, v) <==> v.Str? && IsYesNo(v.s)
  {
    var q := Sample()[2];
    assert q.transform == Call(YesNoTransform) && q.allowBlank;
  }

  /** The derived `foodId` is the `food` answer with its whitespace removed. */
  lemma FoodIdDerived(answers: seq<Record>, food: string)
    requires Find(answers, "food") == Some(Record("food", Str(food)))
    ensures Inquire.DeriveAnswer(Sample()[3], answers) == Record("foodId", Str(ConvertSpaces(food)))
    ensures LegacyInquire.DeriveAnswer(Sample()[3], answers) == Record("foodId", Str(ConvertSpaces(food)))
  {
  }

  /** All four questions of the sample are asked or derived: the walk covers the whole list. */
  lemma SampleAnswerable()
    ensures Answerable(Sample()) == 4
  {
    var q := Sample();
    assert q[1..][1..][1..][1..] == [];
  }
}
