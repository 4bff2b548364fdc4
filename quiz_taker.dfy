/** The quiz session engine of components/QuizTaker.tsx: the Fisher–Yates
    `shuffleArray`, `stripLabel`, the start-up effect that randomises the
    questions and their options, answer selection, scoring on submit, and
    the case-sensitive review marking.

    `Math.random()` is an input: `draw(i)` is the number drawn when the loop
    is at index `i`, and `Math.floor(Math.random() * (i + 1))` is
    `draw(i) % (i + 1)`, which ranges over the same indices 0..i. */
module QuizTaker {
  import opened Types
  import opened Text

  // ----- shuffleArray -----

  /** Exchanges the elements at `i` and `j`. */
  function Swap<T>(s: seq<T>, i: nat, j: nat): (r: seq<T>)
    requires i < |s| && j < |s|
    ensures |r| == |s|
  {
    s[i := s[j]][j := s[i]]
  }

  /** The swaps the loop still has to make when `remaining` indices are left:
      at index `remaining - 1` down to index 1. */
  function ShuffleFrom<T>(s: seq<T>, draw: nat -> nat, remaining: nat): (r: seq<T>)
    requires remaining <= |s|
    ensures |r| == |s|
    decreases remaining
  {
    if remaining <= 1 then s
    else ShuffleFrom(Swap(s, remaining - 1, draw(remaining - 1) % remaining), draw, remaining - 1)
  }

  /** What `shuffleArray` returns for the draws `draw`. */
  function Shuffled<T>(s: seq<T>, draw: nat -> nat): (r: seq<T>)
    ensures |r| == |s|
  {
    ShuffleFrom(s, draw, |s|)
  }

  lemma SwapPermutes<T>(s: seq<T>, i: nat, j: nat)
    requires i < |s| && j < |s|
    ensures multiset(Swap(s, i, j)) == multiset(s)
  {
    var t := s[i := s[j]];
    assert multiset(t) == multiset(s) - multiset{s[i]} + multiset{s[j]};
    assert t[j] == s[j];
    assert multiset(t[j := s[i]]) == multiset(t) - multiset{t[j]} + multiset{s[i]};
  }

  lemma {:induction false} ShuffleFromPermutes<T>(s: seq<T>, draw: nat -> nat, remaining: nat)
    requires remaining <= |s|
    ensures multiset(ShuffleFrom(s, draw, remaining)) == multiset(s)
    decreases remaining
  {
    if remaining > 1 {
      var t := Swap(s, remaining - 1, draw(remaining - 1) % remaining);
      SwapPermutes(s, remaining - 1, draw(remaining - 1) % remaining);
      ShuffleFromPermutes(t, draw, remaining - 1);
    }
  }

  /** Whatever the draws, the shuffle is a permutation of its input. */
  lemma ShuffledPermutes<T>(s: seq<T>, draw: nat -> nat)
    ensures multiset(Shuffled(s, draw)) == multiset(s)
  {
    ShuffleFromPermutes(s, draw, |s|);
  }

  /** `shuffleArray`: copies the input into a fresh array and swaps, from the
      last index down to index 1, each element with one at or below it. The
      input is a value and is not changed. */
  method ShuffleArray<T>(items: seq<T>, draw: nat -> nat) returns (shuffled: seq<T>)
    ensures shuffled == Shuffled(items, draw)
    ensures multiset(shuffled) == multiset(items)
  {
    var newArr := new T[|items|](k requires 0 <= k < |items| => items[k]);
    assert newArr[..] == items;
    var i := newArr.Length - 1;
    while i > 0
      invariant -1 <= i < newArr.Length
      invariant ShuffleFrom(newArr[..], draw, i + 1) == Shuffled(items, draw)
    {
      var j := draw(i) % (i + 1);
      ghost var before := newArr[..];
      var tmp := newArr[i];
      newArr[i] := newArr[j];
      newArr[j] := tmp;
      assert newArr[..] == Swap(before, i, j);
      i := i - 1;
    }
    shuffled := newArr[..];
    ShuffledPermutes(items, draw);
  }

  // ----- stripLabel -----

  /** Length of the prefix that `/^([a-zA-Z]|[0-9]+)[\)\.]\s+/` matches, or 0
      when it does not match: one letter or a run of digits, a `)` or `.`,
      then all the whitespace that follows (at least one character). */
  function LabelLength(s: string): (n: nat)
    ensures n <= |s|
    ensures n == 0 || n >= 3
  {
    var d := LabelHead(s);
    if d == 0 || d >= |s| || !(s[d] == ')' || s[d] == '.') then 0
    else
      var w := PrefixRun(IsSpace, s[d + 1..]);
      if w == 0 then 0 else d + 1 + w
  }

  /** The length of what `([a-zA-Z]|[0-9]+)` takes: one letter if the text
      starts with one, otherwise the leading digits. */
  function LabelHead(s: string): (d: nat)
    ensures d <= |s|
  {
    if |s| > 0 && IsAsciiLetter(s[0]) then 1 else PrefixRun(IsDigit, s)
  }

  /** `stripLabel`: drops the label, if there is one, then trims. */
  function StripLabel(s: string): (r: string)
    ensures IsTrimmed(r)
    ensures |r| <= |s|
    ensures LabelLength(s) == 0 ==> r == Trim(s)
  {
    Trim(s[LabelLength(s)..])
  }

  /** A label the pattern accepts: one ASCII letter, or one or more digits. */
  predicate IsLabel(prefix: string) {
    || (|prefix| == 1 && IsAsciiLetter(prefix[0]))
    || (|prefix| > 0 && forall i :: 0 <= i < |prefix| ==> IsDigit(prefix[i]))
  }

  /** Where the label match of a labelled string ends: after the label, the
      separator, the whitespace and any whitespace the body starts with. */
  lemma LabelLengthOf(prefix: string, sep: char, ws: string, body: string)
    requires IsLabel(prefix)
    requires sep == ')' || sep == '.'
    requires ws != [] && AllSpace(ws)
    ensures LabelLength(prefix + [sep] + ws + body) == |prefix| + 1 + |ws| + PrefixRun(IsSpace, body)
  {
    var s := prefix + [sep] + ws + body;
    LabelledParts(prefix, sep, ws, body);
    LabelHeadOf(prefix, [sep] + (ws + body));
    PrefixRunAfter(IsSpace, ws, body);
    LabelLengthAt(s, |prefix|, ws + body);
  }

  /** Where the parts of a labelled string sit. */
  lemma LabelledParts(prefix: string, sep: char, ws: string, body: string)
    ensures var s := prefix + [sep] + ws + body;
            && s == prefix + ([sep] + (ws + body))
            && s[|prefix|] == sep
            && s[|prefix| + 1..] == ws + body
  {
  }

  /** `LabelLength` once the label and its separator are known. */
  lemma LabelLengthAt(s: string, d: nat, rest: string)
    requires LabelHead(s) == d && 0 < d < |s| && (s[d] == ')' || s[d] == '.')
    requires s[d + 1..] == rest
    ensures LabelLength(s) == if PrefixRun(IsSpace, rest) == 0 then 0 else d + 1 + PrefixRun(IsSpace, rest)
  {
  }

  /** The `([a-zA-Z]|[0-9]+)` alternative takes exactly the label. */
  lemma LabelHeadOf(prefix: string, rest: string)
    requires IsLabel(prefix)
    requires |rest| > 0 && !IsDigit(rest[0])
    ensures LabelHead(prefix + rest) == |prefix|
  {
    var s := prefix + rest;
    assert s[0] == prefix[0];
    if !(|prefix| == 1 && IsAsciiLetter(prefix[0])) {
      PrefixRunAfter(IsDigit, prefix, rest);
    }
  }

  /** A labelled string loses its label, its separator and the whitespace
      after it, and is trimmed. */
  lemma StripLabelled(prefix: string, sep: char, ws: string, body: string)
    requires IsLabel(prefix)
    requires sep == ')' || sep == '.'
    requires ws != [] && AllSpace(ws)
    ensures StripLabel(prefix + [sep] + ws + body) == Trim(body)
  {
    var s := prefix + [sep] + ws + body;
    LabelLengthOf(prefix, sep, ws, body);
    var p := PrefixRun(IsSpace, body);
    assert s[LabelLength(s)..] == body[p..];
    PrefixRunAll(IsSpace, body);
    assert body == body[..p] + body[p..];
    TrimAfterSpaces(body[..p], body[p..]);
  }

  /** Text that starts with neither a letter nor a digit keeps everything
      but its surrounding whitespace. */
  lemma StripUnlabelled(s: string)
    requires |s| > 0 && !IsAsciiLetter(s[0]) && !IsDigit(s[0])
    ensures StripLabel(s) == Trim(s)
  {
  }

  /** `c) ` put before `body`. */
  function LetterLabelled(c: char, body: string): string {
    [c, ')', ' '] + body
  }

  lemma LetterLabelledStrips(c: char, body: string)
    requires IsAsciiLetter(c)
    ensures StripLabel(LetterLabelled(c, body)) == Trim(body)
  {
    assert LetterLabelled(c, body) == [c] + [')'] + [' '] + body;
    StripLabelled([c], ')', [' '], body);
  }

  /** Stripping is not idempotent: under a first label, a second one
      survives one application and is removed by the next, so "a) b) c"
      gives "b) c" and then "c". */
  lemma StripNotIdempotent(first: char, second: char, body: string)
    requires IsAsciiLetter(first) && IsAsciiLetter(second)
    requires body != [] && IsTrimmed(body)
    ensures StripLabel(LetterLabelled(first, LetterLabelled(second, body))) == LetterLabelled(second, body)
    ensures StripLabel(LetterLabelled(second, body)) == body
  {
    LetterLabelledTrimmed(second, body);
    LetterLabelledStrips(first, LetterLabelled(second, body));
    LetterLabelledStrips(second, body);
  }

  lemma LetterLabelledTrimmed(c: char, body: string)
    requires IsAsciiLetter(c)
    requires body != [] && IsTrimmed(body)
    ensures IsTrimmed(LetterLabelled(c, body))
  {
    var s := LetterLabelled(c, body);
    assert s[0] == c;
    assert s[|s| - 1] == body[|body| - 1];
  }

  // ----- session start -----

  /** Applies `f` to every element, in order (`Array.prototype.map`). */
  function Map<A, B>(f: A -> B, s: seq<A>): (r: seq<B>)
    ensures |r| == |s|
  {
    seq(|s|, k requires 0 <= k < |s| => f(s[k]))
  }

  lemma SwapMap<A, B>(f: A -> B, s: seq<A>, i: nat, j: nat)
    requires i < |s| && j < |s|
    ensures Swap(Map(f, s), i, j) == Map(f, Swap(s, i, j))
  {
  }

  /** Shuffling commutes with a map: the same draws move the mapped
      elements exactly as they move the originals. */
  lemma {:induction false} ShuffleFromMap<A, B>(f: A -> B, s: seq<A>, draw: nat -> nat, remaining: nat)
    requires remaining <= |s|
    ensures ShuffleFrom(Map(f, s), draw, remaining) == Map(f, ShuffleFrom(s, draw, remaining))
    decreases remaining
  {
    if remaining > 1 {
      var j := draw(remaining - 1) % remaining;
      SwapMap(f, s, remaining - 1, j);
      ShuffleFromMap(f, Swap(s, remaining - 1, j), draw, remaining - 1);
    }
  }

  /** A mapped shuffle holds the same elements as the mapped original. */
  lemma ShuffledMapPermutes<A, B>(f: A -> B, s: seq<A>, draw: nat -> nat)
    ensures multiset(Map(f, Shuffled(s, draw))) == multiset(Map(f, s))
  {
    ShuffleFromMap(f, s, draw, |s|);
    ShuffledPermutes(Map(f, s), draw);
  }

  lemma MapPointwise<A, B>(f: A -> B, s: seq<A>, t: seq<A>)
    requires |s| == |t|
    requires forall k :: 0 <= k < |s| ==> f(s[k]) == f(t[k])
    ensures Map(f, s) == Map(f, t)
  {
  }

  /** The start-up map's callback: the options shuffled with the draws
      `draw` and then stripped, and the correct answer stripped; id and text
      are kept. */
  function CleanQuestion(q: Question, draw: nat -> nat): (r: Question)
    ensures r.id == q.id && r.text == q.text && |r.options| == |q.options|
  {
    q.(options := Map(StripLabel, Shuffled(q.options, draw)),
       correctAnswer := StripLabel(q.correctAnswer))
  }

  /** The questions the start-up effect produces: the questions shuffled with
      `draw`, then the `k`-th of them cleaned with the draws `optionDraw(k)`. */
  function Randomized(qs: seq<Question>, draw: nat -> nat, optionDraw: nat -> nat -> nat): (r: seq<Question>)
    ensures |r| == |qs|
  {
    var p := Shuffled(qs, draw);
    seq(|p|, k requires 0 <= k < |p| => CleanQuestion(p[k], optionDraw(k)))
  }

  /** The first `k + 1` randomised questions extend the first `k` by the
      cleaned `k`-th question of the shuffle. */
  lemma RandomizedSnoc(qs: seq<Question>, draw: nat -> nat, optionDraw: nat -> nat -> nat, k: nat)
    requires k < |qs|
    ensures Randomized(qs, draw, optionDraw)[..k + 1]
         == Randomized(qs, draw, optionDraw)[..k] + [CleanQuestion(Shuffled(qs, draw)[k], optionDraw(k))]
  {
    var r := Randomized(qs, draw, optionDraw);
    SliceSnoc(r, 0, k);
    assert r[0..k + 1] == r[..k + 1] && r[0..k] == r[..k];
  }

  lemma RandomizedAt(qs: seq<Question>, draw: nat -> nat, optionDraw: nat -> nat -> nat, k: nat)
    requires k < |qs|
    ensures Randomized(qs, draw, optionDraw)[k] == CleanQuestion(Shuffled(qs, draw)[k], optionDraw(k))
  {
  }

  function IdOf(q: Question): string { q.id }
  function TextOf(q: Question): string { q.text }

  /** One cleaned question: same id and text, options that are the stripped
      originals in some order, and the stripped correct answer. */
  lemma CleanQuestionSpec(q: Question, draw: nat -> nat)
    ensures CleanQuestion(q, draw).id == q.id && CleanQuestion(q, draw).text == q.text
    ensures multiset(CleanQuestion(q, draw).options) == multiset(Map(StripLabel, q.options))
    ensures CleanQuestion(q, draw).correctAnswer == StripLabel(q.correctAnswer)
  {
    ShuffledMapPermutes(StripLabel, q.options, draw);
  }

  /** If the correct answer was one of the options, the cleaned correct
      answer is one of the cleaned options. */
  lemma CorrectStaysAnOption(q: Question, draw: nat -> nat)
    requires q.correctAnswer in q.options
    ensures CleanQuestion(q, draw).correctAnswer in CleanQuestion(q, draw).options
  {
    var k :| 0 <= k < |q.options| && q.options[k] == q.correctAnswer;
    var m := Map(StripLabel, q.options);
    assert m[k] == StripLabel(q.correctAnswer);
    assert StripLabel(q.correctAnswer) in multiset(m);
    CleanQuestionSpec(q, draw);
  }

  /** Cleaning keeps the ids and the texts, position by position. */
  lemma RandomizedKeepsIdsAndTexts(qs: seq<Question>, draw: nat -> nat, optionDraw: nat -> nat -> nat)
    ensures Map(IdOf, Randomized(qs, draw, optionDraw)) == Map(IdOf, Shuffled(qs, draw))
    ensures Map(TextOf, Randomized(qs, draw, optionDraw)) == Map(TextOf, Shuffled(qs, draw))
  {
    var r := Randomized(qs, draw, optionDraw);
    var p := Shuffled(qs, draw);
    forall k | 0 <= k < |r|
      ensures r[k].id == p[k].id && r[k].text == p[k].text
    {
      RandomizedAt(qs, draw, optionDraw, k);
    }
    MapPointwise(IdOf, r, p);
    MapPointwise(TextOf, r, p);
  }

  /** Session start keeps the questions as a permutation: the ids and the
      texts of the result are those of the input in some order, and the
      `k`-th question is the cleaned `k`-th question of a permutation of the
      input. */
  lemma RandomizedSpec(qs: seq<Question>, draw: nat -> nat, optionDraw: nat -> nat -> nat)
    ensures multiset(Map(IdOf, Randomized(qs, draw, optionDraw))) == multiset(Map(IdOf, qs))
    ensures multiset(Map(TextOf, Randomized(qs, draw, optionDraw))) == multiset(Map(TextOf, qs))
    ensures multiset(Shuffled(qs, draw)) == multiset(qs)
    ensures forall k :: 0 <= k < |qs| ==>
              Randomized(qs, draw, optionDraw)[k] == CleanQuestion(Shuffled(qs, draw)[k], optionDraw(k))
  {
    RandomizedKeepsIdsAndTexts(qs, draw, optionDraw);
    ShuffledMapPermutes(IdOf, qs, draw);
    ShuffledMapPermutes(TextOf, qs, draw);
    ShuffledPermutes(qs, draw);
  }

  // ----- scoring and review -----

  /** `handleSubmit`'s test: a selection is recorded, is not the empty string
      (which is falsy), and equals the correct answer ignoring case. */
  predicate Counts(q: Question, answers: map<string, string>)
    ensures Counts(q, answers) ==> q.id in answers && |answers[q.id]| == |q.correctAnswer|
  {
    q.id in answers && answers[q.id] != "" && Lower(answers[q.id]) == Lower(q.correctAnswer)
  }

  /** The number of questions that count. */
  function Score(qs: seq<Question>, answers: map<string, string>): (n: nat)
    ensures n <= |qs|
  {
    if qs == [] then 0
    else Score(qs[..|qs| - 1], answers) + (if Counts(qs[|qs| - 1], answers) then 1 else 0)
  }

  /** With no selections the score is 0. */
  lemma {:induction false} ScoreNoAnswers(qs: seq<Question>)
    ensures Score(qs, map[]) == 0
  {
    if qs != [] {
      ScoreNoAnswers(qs[..|qs| - 1]);
    }
  }

  /** The score is full exactly when every question counts. */
  lemma {:induction false} ScoreFull(qs: seq<Question>, answers: map<string, string>)
    ensures Score(qs, answers) == |qs| <==> forall k :: 0 <= k < |qs| ==> Counts(qs[k], answers)
  {
    if qs != [] {
      var init := qs[..|qs| - 1];
      ScoreFull(init, answers);
      assert forall k :: 0 <= k < |init| ==> init[k] == qs[k];
    }
  }

  /** Selecting every correct answer, where none is empty, scores full marks. */
  lemma ScoreAllCorrect(qs: seq<Question>, answers: map<string, string>)
    requires forall k :: 0 <= k < |qs| ==>
               qs[k].id in answers && answers[qs[k].id] == qs[k].correctAnswer && qs[k].correctAnswer != ""
    ensures Score(qs, answers) == |qs|
  {
    ScoreFull(qs, answers);
  }

  /** Review marking's test (`userSelection === correctAns`): exact and case
      sensitive. */
  predicate MarkedCorrect(q: Question, answers: map<string, string>)
    ensures MarkedCorrect(q, answers) ==> q.id in answers && Lower(answers[q.id]) == Lower(q.correctAnswer)
  {
    q.id in answers && answers[q.id] == q.correctAnswer
  }

  /** A question marked correct in review, with a non-empty answer, counted
      in the score. */
  lemma MarkedCounts(q: Question, answers: map<string, string>)
    requires MarkedCorrect(q, answers) && q.correctAnswer != ""
    ensures Counts(q, answers)
  {
  }

  /** The converse fails: a non-empty selection is counted in the score and
      marked incorrect in review exactly when it differs from the correct
      answer but not after lower-casing, that is, only in letter case. */
  lemma CountedButMarkedIncorrect(q: Question, a: string)
    requires a != ""
    ensures Counts(q, map[q.id := a]) && !MarkedCorrect(q, map[q.id := a])
            <==> a != q.correctAnswer && Lower(a) == Lower(q.correctAnswer)
  {
  }

  /** Such selections exist: "PARIS" for the correct answer "Paris". */
  lemma CaseOnlyMismatch(q: Question)
    requires q.correctAnswer == "Paris"
    ensures Counts(q, map[q.id := "PARIS"])
    ensures !MarkedCorrect(q, map[q.id := "PARIS"])
  {
    LowerAt("PARIS");
    LowerAt("Paris");
    assert Lower("PARIS") == "paris";
    assert Lower("Paris") == "paris";
    CountedButMarkedIncorrect(q, "PARIS");
  }

  // ----- the component state -----

  /** The callback of the start-up map, for one question. */
  method Clean(q: Question, draw: nat -> nat) returns (cleaned: Question)
    ensures cleaned == CleanQuestion(q, draw)
  {
    var shuffledRawOptions := ShuffleArray(q.options, draw);
    var cleanedOptions := Map(StripLabel, shuffledRawOptions);
    var cleanedCorrect := StripLabel(q.correctAnswer);
    cleaned := q.(options := cleanedOptions, correctAnswer := cleanedCorrect);
  }

  /** The state of one `QuizTaker`: the randomised questions, the selections
      keyed by question id, the submitted flag and the score. */
  class QuizSession {
    const quiz: Quiz
    var shuffledQuestions: seq<Question>
    var answers: map<string, string>
    var isSubmitted: bool
    var score: int

    /** The score is between 0 and the number of questions, so the result
        screen's incorrect count `total - score` is never negative and its
        percentage is between 0 and 100. Every method of the class keeps it;
        it is the fact that screen relies on, not a precondition of any
        method. */
    ghost predicate Valid()
      reads this
    {
      0 <= score <= |shuffledQuestions|
    }

    /** The `useState` initial values. */
    constructor(quiz: Quiz)
      ensures this.quiz == quiz
      ensures shuffledQuestions == [] && answers == map[] && !isSubmitted && score == 0
      ensures Valid()
    {
      this.quiz := quiz;
      shuffledQuestions := [];
      answers := map[];
      isSubmitted := false;
      score := 0;
    }

    /** The start-up effect: shuffles the questions, and for each, in order,
        shuffles its options with the next draws and strips the labels; then
        clears the selections, the flag and the score. */
    method Start(draw: nat -> nat, optionDraw: nat -> nat -> nat)
      modifies this
      ensures shuffledQuestions == Randomized(quiz.questions, draw, optionDraw)
      ensures |shuffledQuestions| == |quiz.questions|
      ensures answers == map[] && !isSubmitted && score == 0
      ensures Valid()
    {
      ghost var target := Randomized(quiz.questions, draw, optionDraw);
      var shuffled := ShuffleArray(quiz.questions, draw);
      var randomized: seq<Question> := [];
      for k := 0 to |shuffled|
        invariant randomized == target[..k]
      {
        var cleaned := Clean(shuffled[k], optionDraw(k));
        RandomizedSnoc(quiz.questions, draw, optionDraw, k);
        randomized := randomized + [cleaned];
      }
      assert target[..|shuffled|] == target;
      shuffledQuestions := randomized;
      answers := map[];
      isSubmitted := false;
      score := 0;
    }

    /** `handleSelect`: ignored after submission; otherwise records `option`
        for `questionId`, replacing an earlier selection, and changes nothing
        else. */
    method Select(questionId: string, option: string)
      modifies this
      ensures old(isSubmitted) ==> answers == old(answers)
      ensures !old(isSubmitted) ==> answers == old(answers)[questionId := option]
      ensures shuffledQuestions == old(shuffledQuestions) && isSubmitted == old(isSubmitted)
      ensures score == old(score)
      ensures old(Valid()) ==> Valid()
    {
      if isSubmitted {
        return;
      }
      answers := answers[questionId := option];
    }

    /** `handleSubmit`: counts the questions whose selection matches, stores
        the score, sets the flag and returns the one result it reports. */
    method Submit(resultId: string, date: int) returns (result: QuizResult)
      modifies this
      ensures score == Score(shuffledQuestions, answers)
      ensures isSubmitted
      ensures shuffledQuestions == old(shuffledQuestions) && answers == old(answers)
      ensures result == QuizResult(resultId, quiz.id, quiz.title, score, |shuffledQuestions|, date)
      ensures Valid()
    {
      var calculatedScore := 0;
      for k := 0 to |shuffledQuestions|
        invariant calculatedScore == Score(shuffledQuestions[..k], answers)
      {
        var q := shuffledQuestions[k];
        assert shuffledQuestions[..k + 1][..k] == shuffledQuestions[..k];
        if q.id in answers && answers[q.id] != "" && Lower(answers[q.id]) == Lower(q.correctAnswer) {
          calculatedScore := calculatedScore + 1;
        }
      }
      assert shuffledQuestions[..|shuffledQuestions|] == shuffledQuestions;
      score := calculatedScore;
      isSubmitted := true;
      result := QuizResult(resultId, quiz.id, quiz.title, calculatedScore, |shuffledQuestions|, date);
    }
  }
}
