/** The quiz text parser of components/QuizParser.tsx: `parseText`, a single
    forward pass over the trimmed non-blank lines driven by a two-state
    machine, and the edit-mode reconstruction of the text from a quiz.

    The three regular expressions are written out as character predicates
    with the match and capture that a backtracking matcher produces. */
module QuizParser {
  import opened Types
  import opened Text

  const TooShortMessage := "Text is too short to be a quiz."
  const NoQuestionsMessage := "No valid questions found. Check the format."

  // ----- The three line patterns -----

  /** `/^\d+\.\s+(.+)/`: the stem after the number, or None.
      The line matches exactly when it starts with digits, a dot, one
      whitespace character and at least one more character. */
  function QuestionStart(line: string): (r: Option<string>)
    ensures var d := PrefixRun(IsDigit, line);
            r.Some? <==> 0 < d && d + 2 < |line| && line[d] == '.' && IsSpace(line[d + 1])
    ensures r.Some? ==> 0 < |r.value| && EndsWith(line, r.value)
  {
    var d := PrefixRun(IsDigit, line);
    if d == 0 || d >= |line| || line[d] != '.' then None
    else
      var rest := line[d + 1..];
      var w := PrefixRun(IsSpace, rest);
      if w == 0 then None
      else if w < |rest| then Some(rest[w..])
      // `\s+` gives back its last character so that `(.+)` can match
      else if w >= 2 then Some(rest[w - 1..])
      else None
  }

  /** What the question pattern captures: the end of the line after the dot
      and at least one whitespace character, all of which is whitespace.
      `\s+` takes all the whitespace there is, so the capture starts with
      whitespace only when the rest of the line is whitespace, and then it
      is the single last character. */
  lemma QuestionStartCapture(line: string)
    requires QuestionStart(line).Some?
    ensures var d := PrefixRun(IsDigit, line);
            var c := QuestionStart(line).value;
            && d + 2 <= |line| - |c|
            && AllSpace(line[d + 1..|line| - |c|])
            && (IsSpace(c[0]) ==> |c| == 1)
  {
    var d := PrefixRun(IsDigit, line);
    var rest := line[d + 1..];
    var w := PrefixRun(IsSpace, rest);
    if w < |rest| {
      SpacesAfterDot(line, d, w);
    } else {
      SpacesAfterDot(line, d, w - 1);
    }
  }

  /** The first `n` characters after the dot lie in the whitespace run. */
  lemma SpacesAfterDot(line: string, d: nat, n: nat)
    requires d + 1 + n <= |line|
    requires n <= PrefixRun(IsSpace, line[d + 1..])
    ensures AllSpace(line[d + 1..d + 1 + n])
  {
    var rest := line[d + 1..];
    PrefixRunAll(IsSpace, rest);
    assert line[d + 1..d + 1 + n] == rest[..n];
  }

  /** `/^([a-zA-Z])[\)\.]\s+(.+)/`: a lettered option line. Such a line is
      neither a question line nor an answer line, so the order in which the
      loop tests the three patterns does not matter for it. */
  predicate IsOptionLine(line: string)
    ensures IsOptionLine(line) ==> QuestionStart(line).None? && !IsAnswerLine(line)
  {
    var head := line[..if |line| < 7 then |line| else 7];
    LowerAt(head);
    |line| >= 4 && IsAsciiLetter(line[0]) && (line[1] == ')' || line[1] == '.') && IsSpace(line[2])
  }

  /** `^\**Answer:` under the `i` flag: stars, then "answer:" in any case. */
  predicate HasAnswerMarker(line: string) {
    var k := PrefixRun(IsStar, line);
    k + 7 <= |line| && Lower(line[k..k + 7]) == "answer:"
  }

  function AfterAnswerMarker(line: string): string
    requires HasAnswerMarker(line)
  {
    line[PrefixRun(IsStar, line) + 7..]
  }

  /** A line the answer pattern matches: the marker and something after it. */
  predicate IsAnswerLine(line: string) {
    HasAnswerMarker(line) && |AfterAnswerMarker(line)| > 0
  }

  /** The optional group `[a-zA-Z][\)\.]` of the answer pattern. */
  predicate StartsWithLetterLabel(s: string) {
    |s| >= 2 && IsAsciiLetter(s[0]) && (s[1] == ')' || s[1] == '.')
  }

  /** The lazy `(.+?)` followed by `\**$`: the shortest non-empty prefix of
      `t` after which only stars remain. Its last character is not a star
      unless it is one character long, so no shorter prefix would do. */
  function LazyCapture(t: string): (r: string)
    requires |t| > 0
    ensures 0 < |r| <= |t| && r == t[..|r|]
    ensures |r| > 1 ==> t[|r| - 1] != '*'
  {
    var s := SuffixRun(IsStar, t);
    if s < |t| then t[..|t| - s] else t[..1]
  }

  /** What the lazy capture leaves for `\**$` is all stars. */
  lemma LazyCaptureRest(t: string)
    requires |t| > 0
    ensures forall i :: |LazyCapture(t)| <= i < |t| ==> t[i] == '*'
  {
    SuffixRunAll(IsStar, t);
  }

  /** `/^\**Answer:\s*(?:[a-zA-Z][\)\.]\s*)?(.+?)\**$/i`: the first capture,
      or None. The line matches exactly when it has the marker and at least
      one character after it. */
  function AnswerCapture(line: string): (r: Option<string>)
    ensures r.Some? <==> IsAnswerLine(line)
    ensures r.Some? ==> |r.value| > 0
  {
    if !HasAnswerMarker(line) then None else CaptureAfterMarker(AfterAnswerMarker(line))
  }

  /** The part of the answer pattern after the marker, `\s*(?:[a-zA-Z][\)\.]\s*)?(.+?)\**$`,
      on the text `rest` after it. The alternatives are tried in the
      matcher's order: as much whitespace as possible, the label group if it
      fits, and only then the fallbacks that give whitespace back. */
  function CaptureAfterMarker(rest: string): (r: Option<string>)
    ensures r.Some? <==> |rest| > 0
    ensures r.Some? ==> |r.value| > 0
  {
    var w := PrefixRun(IsSpace, rest);
    var body := rest[w..];
    if StartsWithLetterLabel(body) then
      var afterLabel := body[2..];
      var w2 := PrefixRun(IsSpace, afterLabel);
      if w2 < |afterLabel| then Some(LazyCapture(afterLabel[w2..]))
      else if w2 > 0 then Some(LazyCapture(afterLabel[w2 - 1..]))
      else Some(LazyCapture(body))
    else if |body| > 0 then Some(LazyCapture(body))
    else if w > 0 then Some(LazyCapture(rest[w - 1..]))
    else None
  }

  /** The answer capture is a stretch of the text after the marker, and only
      stars follow it to the end of the line. */
  lemma AnswerCaptureAt(line: string)
    requires IsAnswerLine(line)
    ensures exists i :: CapturedAt(AfterAnswerMarker(line), i, AnswerCapture(line).value)
  {
    var rest := AfterAnswerMarker(line);
    var m := CaptureStart(rest);
    CaptureAt(rest, m);
    assert CapturedAt(rest, m, AnswerCapture(line).value);
  }

  /** Where in the text after the marker the lazy capture starts: at the
      first non-whitespace character, or past a letter label and the
      whitespace after it; only when whitespace runs to the end of the
      line is its last character given back to the capture. */
  lemma CaptureStart(rest: string) returns (m: nat)
    requires |rest| > 0
    ensures m < |rest|
    ensures CaptureAfterMarker(rest).value == LazyCapture(rest[m..])
    ensures var w := PrefixRun(IsSpace, rest);
            w < |rest| && !StartsWithLetterLabel(rest[w..]) ==> m == w
    ensures var w := PrefixRun(IsSpace, rest);
            var body := rest[w..];
            StartsWithLetterLabel(body) && PrefixRun(IsSpace, body[2..]) < |body| - 2 ==>
              m == w + 2 + PrefixRun(IsSpace, body[2..])
    ensures var w := PrefixRun(IsSpace, rest);
            var body := rest[w..];
            w == |rest| || (StartsWithLetterLabel(body) && 0 < PrefixRun(IsSpace, body[2..]) == |body| - 2) ==>
              m == |rest| - 1
  {
    var w := PrefixRun(IsSpace, rest);
    var body := rest[w..];
    if StartsWithLetterLabel(body) {
      var afterLabel := body[2..];
      var w2 := PrefixRun(IsSpace, afterLabel);
      if w2 < |afterLabel| {
        m := w + 2 + w2;
        assert afterLabel[w2..] == rest[m..];
      } else if w2 > 0 {
        m := w + 1 + w2;
        assert afterLabel[w2 - 1..] == rest[m..];
      } else {
        m := w;
      }
    } else if |body| > 0 {
      m := w;
    } else {
      m := w - 1;
    }
  }

  /** `c` occurs in `line` at `i`, and only stars follow it. */
  predicate CapturedAt(line: string, i: nat, c: string) {
    && i + |c| <= |line|
    && line[i..i + |c|] == c
    && forall j :: i + |c| <= j < |line| ==> line[j] == '*'
  }

  /** The lazy capture of the end of a line from `m` on sits at `m`, and
      only stars follow it. */
  lemma CaptureAt(line: string, m: nat)
    requires m < |line|
    ensures CapturedAt(line, m, LazyCapture(line[m..]))
  {
    var t := line[m..];
    LazyCaptureRest(t);
    assert forall j :: m + |LazyCapture(t)| <= j < |line| ==> line[j] == t[j - m];
  }

  /** The stored answer: the capture trimmed, with one trailing `**` cut. */
  function CleanAnswer(capture: string): (r: string)
    ensures |r| <= |capture|
    ensures !EndsWith(Trim(capture), "**") ==> r == Trim(capture)
    ensures EndsWith(Trim(capture), "**") ==> r + "**" == Trim(capture)
  {
    var t := Trim(capture);
    if EndsWith(t, "**") then t[..|t| - 2] else t
  }

  // ----- The line-level state machine -----

  /** `currentQuestion`: the stem read so far (absent when idle) and the
      option lines collected for it. */
  datatype Draft = Draft(text: Option<string>, options: seq<string>)

  /** The loop state of `parseText`. */
  datatype ParserState = ParserState(questions: seq<Question>, current: Draft, isReadingQuestion: bool)

  const Initial := ParserState([], Draft(None, []), false)

  /** A draft that an answer line can close: a stem and at least one option. */
  predicate HasPendingQuestion(d: Draft) {
    d.text.Some? && d.text.value != "" && |d.options| > 0
  }

  /** What every emitted question satisfies: a non-empty stem and at least
      one option, each option a whole option line, label kept. */
  predicate IsParsedQuestion(q: Question) {
    q.text != "" && |q.options| > 0 && forall o :: o in q.options ==> IsOptionLine(o)
  }

  /** The invariant of the loop: emitted questions are well formed and carry
      the ids drawn in order; reading a question is the same as having a stem;
      an idle draft is empty. */
  predicate Consistent(st: ParserState, newId: nat -> string) {
    && (forall k :: 0 <= k < |st.questions| ==>
          IsParsedQuestion(st.questions[k]) && st.questions[k].id == newId(k))
    && (st.isReadingQuestion <==> st.current.text.Some?)
    && (st.current.text.Some? ==> st.current.text.value != "")
    && (!st.isReadingQuestion ==> st.current.options == [])
    && (forall o :: o in st.current.options ==> IsOptionLine(o))
  }

  /** One iteration of the loop over the lines after the title. `newId(k)`
      stands for the fresh id drawn for the k-th emitted question. */
  function Step(st: ParserState, line: string, newId: nat -> string): (r: ParserState)
    ensures |st.questions| <= |r.questions| <= |st.questions| + 1
    ensures r.questions[..|st.questions|] == st.questions
    ensures |r.questions| > |st.questions| <==> IsAnswerLine(line) && HasPendingQuestion(st.current)
    ensures IsAnswerLine(line) && !HasPendingQuestion(st.current) ==> r == st
  {
    var questionMatch := QuestionStart(line);
    var optionMatch := IsOptionLine(line);
    var answerMatch := AnswerCapture(line);
    if answerMatch.Some? then
      if HasPendingQuestion(st.current) then
        var q := Question(newId(|st.questions|), st.current.text.value, st.current.options,
                          CleanAnswer(answerMatch.value));
        ParserState(st.questions + [q], Draft(None, []), false)
      else st
    else if questionMatch.Some? then
      ParserState(st.questions, Draft(questionMatch, []), true)
    else if optionMatch && st.isReadingQuestion then
      st.(current := st.current.(options := st.current.options + [line]))
    else if st.isReadingQuestion then
      if |st.current.options| == 0 && st.current.text.Some? && st.current.text.value != "" then
        st.(current := st.current.(text := Some(st.current.text.value + " " + line)))
      else st
    else st
  }

  /** An answer line closes a pending question: the question is emitted with
      the next fresh id, the stem, the collected options and the cleaned
      capture, and the parser goes back to an empty draft, not reading. */
  lemma StepCloses(st: ParserState, line: string, newId: nat -> string)
    requires IsAnswerLine(line) && HasPendingQuestion(st.current)
    ensures Step(st, line, newId)
         == ParserState(st.questions + [Question(newId(|st.questions|), st.current.text.value, st.current.options,
                                                 CleanAnswer(AnswerCapture(line).value))],
                        Draft(None, []), false)
  {
  }

  /** Each line keeps the loop invariant. */
  lemma StepKeepsConsistent(st: ParserState, line: string, newId: nat -> string)
    requires Consistent(st, newId)
    ensures Consistent(Step(st, line, newId), newId)
  {
    if IsAnswerLine(line) {
      if HasPendingQuestion(st.current) {
        StepCloses(st, line, newId);
        CloseKeepsConsistent(st, CleanAnswer(AnswerCapture(line).value), newId);
      }
    } else {
      StepOtherLines(st, line, newId);
    }
  }

  /** Closing a pending question keeps the loop invariant. */
  lemma CloseKeepsConsistent(st: ParserState, answer: string, newId: nat -> string)
    requires Consistent(st, newId) && HasPendingQuestion(st.current)
    ensures var q := Question(newId(|st.questions|), st.current.text.value, st.current.options, answer);
            Consistent(ParserState(st.questions + [q], Draft(None, []), false), newId)
  {
    var q := Question(newId(|st.questions|), st.current.text.value, st.current.options, answer);
    assert IsParsedQuestion(q);
    var qs := st.questions + [q];
    assert forall k :: 0 <= k < |qs| ==> qs[k] == if k < |st.questions| then st.questions[k] else q;
  }

  /** The lines that are not answers: a question start always replaces the
      draft, discarding an unfinished question; an option line is kept only
      while reading a question; any other line extends the stem only while
      no option has been collected; otherwise the line is ignored. */
  lemma StepOtherLines(st: ParserState, line: string, newId: nat -> string)
    requires !IsAnswerLine(line)
    ensures QuestionStart(line).Some? ==>
              Step(st, line, newId) == ParserState(st.questions, Draft(QuestionStart(line), []), true)
    ensures QuestionStart(line).None? && !st.isReadingQuestion ==> Step(st, line, newId) == st
    ensures QuestionStart(line).None? && st.isReadingQuestion && IsOptionLine(line) ==>
              Step(st, line, newId) == st.(current := st.current.(options := st.current.options + [line]))
    ensures QuestionStart(line).None? && st.isReadingQuestion && !IsOptionLine(line) ==>
              Step(st, line, newId)
              == if |st.current.options| == 0 && st.current.text.Some? && st.current.text.value != ""
                 then st.(current := st.current.(text := Some(st.current.text.value + " " + line)))
                 else st
  {
  }

  /** Number of lines that the answer pattern matches. */
  function AnswerLineCount(lines: seq<string>): (n: nat)
    ensures n <= |lines|
    ensures n == 0 <==> forall k :: 0 <= k < |lines| ==> !IsAnswerLine(lines[k])
  {
    if lines == [] then 0
    else
      var init := lines[..|lines| - 1];
      assert forall k :: 0 <= k < |init| ==> init[k] == lines[k];
      AnswerLineCount(init) + (if IsAnswerLine(lines[|lines| - 1]) then 1 else 0)
  }

  /** The loop run over `lines` from state `st`. Questions are only ever
      appended, at most one per answer line, and the invariant is kept. */
  function Run(st: ParserState, lines: seq<string>, newId: nat -> string): (r: ParserState)
    ensures |st.questions| <= |r.questions| <= |st.questions| + AnswerLineCount(lines)
    ensures r.questions[..|st.questions|] == st.questions
    ensures Consistent(st, newId) ==> Consistent(r, newId)
  {
    if lines == [] then st
    else
      var mid := Run(st, lines[..|lines| - 1], newId);
      var r := Step(mid, lines[|lines| - 1], newId);
      assert r.questions[..|st.questions|] == mid.questions[..|st.questions|];
      if Consistent(st, newId) then StepKeepsConsistent(mid, lines[|lines| - 1], newId); r
      else r
  }

  lemma {:induction false} RunAppend(st: ParserState, a: seq<string>, b: seq<string>, newId: nat -> string)
    ensures Run(st, a + b, newId) == Run(Run(st, a, newId), b, newId)
    decreases |b|
  {
    if b == [] {
      assert a + b == a;
    } else {
      var n := |b|;
      assert (a + b)[..|a + b| - 1] == a + b[..n - 1];
      assert (a + b)[|a + b| - 1] == b[n - 1];
      RunAppend(st, a, b[..n - 1], newId);
    }
  }

  /** Every option held in a state is one of the lines in `pool`. */
  predicate OptionsAmong(st: ParserState, pool: seq<string>) {
    && (forall k, o :: 0 <= k < |st.questions| && o in st.questions[k].options ==> o in pool)
    && (forall o :: o in st.current.options ==> o in pool)
  }

  lemma OptionsAmongWider(st: ParserState, pool: seq<string>, wider: seq<string>)
    requires OptionsAmong(st, pool)
    requires forall o :: o in pool ==> o in wider
    ensures OptionsAmong(st, wider)
  {
  }

  /** A step only adds the line it reads as an option. */
  lemma StepOptionsAmong(st: ParserState, line: string, pool: seq<string>, newId: nat -> string)
    requires OptionsAmong(st, pool)
    requires line in pool
    ensures OptionsAmong(Step(st, line, newId), pool)
  {
  }

  /** Options are never invented: each one is a line that was read. */
  lemma {:induction false} RunOptionsAmong(st: ParserState, pool: seq<string>, lines: seq<string>, newId: nat -> string)
    requires OptionsAmong(st, pool)
    ensures OptionsAmong(Run(st, lines, newId), pool + lines)
    decreases |lines|
  {
    if lines != [] {
      var init := lines[..|lines| - 1];
      var line := lines[|lines| - 1];
      RunOptionsAmong(st, pool, init, newId);
      var mid := Run(st, init, newId);
      assert lines == init + [line];
      assert pool + lines == (pool + init) + [line];
      OptionsAmongWider(mid, pool + init, pool + lines);
      StepOptionsAmong(mid, line, pool + lines, newId);
      RunSnoc(st, init, line, newId);
    }
  }

  // ----- parseText -----

  /** `inputText.split('\n').map(l => l.trim()).filter(l => l)`. */
  function NonBlankLines(lines: seq<string>): (r: seq<string>)
    ensures |r| <= |lines|
    ensures forall k :: 0 <= k < |r| ==> r[k] != "" && IsTrimmed(r[k])
  {
    if lines == [] then []
    else
      var t := Trim(lines[|lines| - 1]);
      NonBlankLines(lines[..|lines| - 1]) + (if t == "" then [] else [t])
  }

  /** One line gives its trimmed form, or nothing when it is blank. */
  lemma NonBlankSingle(line: string)
    ensures NonBlankLines([line]) == if AllSpace(line) then [] else [Trim(line)]
  {
    TrimEmpty(line);
    assert [line][..0] == [];
  }

  /** Mapping and filtering go line by line, so the kept lines stay in the
      order of the input: a concatenation gives the concatenation. */
  lemma {:induction false} NonBlankAppend(a: seq<string>, b: seq<string>)
    ensures NonBlankLines(a + b) == NonBlankLines(a) + NonBlankLines(b)
    decreases |b|
  {
    if b == [] {
      assert a + b == a;
    } else {
      var n := |b|;
      assert (a + b)[..|a + b| - 1] == a + b[..n - 1];
      assert (a + b)[|a + b| - 1] == b[n - 1];
      NonBlankAppend(a, b[..n - 1]);
    }
  }

  /** `x` is the trimmed form of an input line that is not all whitespace. */
  predicate KeptFrom(x: string, lines: seq<string>) {
    exists k :: 0 <= k < |lines| && !AllSpace(lines[k]) && x == Trim(lines[k])
  }

  /** The kept lines are exactly the trimmed forms of the input lines that
      are not all whitespace. */
  lemma {:induction false} NonBlankMembers(lines: seq<string>)
    ensures forall x :: x in NonBlankLines(lines) <==> KeptFrom(x, lines)
    decreases |lines|
  {
    if lines != [] {
      var n := |lines|;
      var init := lines[..n - 1];
      var last := lines[n - 1];
      NonBlankMembers(init);
      TrimEmpty(last);
      forall x
        ensures x in NonBlankLines(lines) <==> KeptFrom(x, lines)
      {
        KeptFromSnoc(x, lines);
      }
    }
  }

  lemma KeptFromSnoc(x: string, lines: seq<string>)
    requires lines != []
    ensures var last := lines[|lines| - 1];
            KeptFrom(x, lines) <==> KeptFrom(x, lines[..|lines| - 1]) || (!AllSpace(last) && x == Trim(last))
  {
    var n := |lines|;
    if KeptFrom(x, lines[..n - 1]) {
      KeptFromGrows(x, lines[..n - 1], lines);
    }
    if !AllSpace(lines[n - 1]) && x == Trim(lines[n - 1]) {
      assert KeptFrom(x, lines);
    }
    if KeptFrom(x, lines) {
      KeptFromShrinks(x, lines);
    }
  }

  lemma KeptFromGrows(x: string, init: seq<string>, lines: seq<string>)
    requires init <= lines && KeptFrom(x, init)
    ensures KeptFrom(x, lines)
  {
    var k :| 0 <= k < |init| && !AllSpace(init[k]) && x == Trim(init[k]);
    assert lines[k] == init[k];
  }

  lemma KeptFromShrinks(x: string, lines: seq<string>)
    requires lines != [] && KeptFrom(x, lines)
    ensures var last := lines[|lines| - 1];
            KeptFrom(x, lines[..|lines| - 1]) || (!AllSpace(last) && x == Trim(last))
  {
    var n := |lines|;
    var k :| 0 <= k < n && !AllSpace(lines[k]) && x == Trim(lines[k]);
    if k < n - 1 {
      assert lines[..n - 1][k] == lines[k];
    }
  }

  function InputLines(inputText: string): seq<string> {
    NonBlankLines(SplitLines(inputText))
  }

  /** `parseText` as a function: the error message, or the quiz. The quiz id
      is the edited quiz's when there is one and `freshId` otherwise; `now`
      stands for `Date.now()`. No description is set. */
  function Parse(inputText: string, initialQuiz: Option<Quiz>, freshId: string,
                 newId: nat -> string, now: int): (r: Result<Quiz, string>)
    ensures r.Failure? ==> r.error == TooShortMessage || r.error == NoQuestionsMessage
    ensures r.Success? ==> && r.value.id == (if initialQuiz.Some? then initialQuiz.value.id else freshId)
                           && r.value.description == None && r.value.createdAt == now
                           && |r.value.questions| > 0
  {
    var lines := InputLines(inputText);
    if |lines| < 3 then Failure(TooShortMessage)
    else
      var st := Run(Initial, lines[1..], newId);
      if |st.questions| == 0 then Failure(NoQuestionsMessage)
      else Success(Quiz(if initialQuiz.Some? then initialQuiz.value.id else freshId,
                        lines[0], None, st.questions, now))
  }

  /** The loop run over one more line is one more step. */
  lemma RunSnoc(st: ParserState, xs: seq<string>, x: string, newId: nat -> string)
    ensures Run(st, xs + [x], newId) == Step(Run(st, xs, newId), x, newId)
  {
    assert (xs + [x])[..|xs|] == xs;
  }

  /** The body of the loop of `parseText`: the three patterns are tried on
      the line and the first that applies decides what happens. */
  method ReadLine(questions: seq<Question>, currentQuestion: Draft, isReadingQuestion: bool,
                  line: string, newId: nat -> string)
    returns (questions': seq<Question>, currentQuestion': Draft, isReadingQuestion': bool)
    ensures ParserState(questions', currentQuestion', isReadingQuestion')
         == Step(ParserState(questions, currentQuestion, isReadingQuestion), line, newId)
  {
    questions', currentQuestion', isReadingQuestion' := questions, currentQuestion, isReadingQuestion;
    var questionMatch := QuestionStart(line);
    var optionMatch := IsOptionLine(line);
    var answerMatch := AnswerCapture(line);
    if answerMatch.Some? {
      if currentQuestion.text.Some? && currentQuestion.text.value != "" && |currentQuestion.options| > 0 {
        var cleanAnswer := Trim(answerMatch.value);
        if EndsWith(cleanAnswer, "**") {
          cleanAnswer := cleanAnswer[..|cleanAnswer| - 2];
        }
        questions' := questions + [Question(newId(|questions|), currentQuestion.text.value,
                                            currentQuestion.options, cleanAnswer)];
        currentQuestion' := Draft(None, []);
        isReadingQuestion' := false;
      }
    } else if questionMatch.Some? {
      currentQuestion' := Draft(questionMatch, []);
      isReadingQuestion' := true;
    } else if optionMatch && isReadingQuestion {
      currentQuestion' := currentQuestion.(options := currentQuestion.options + [line]);
    } else if isReadingQuestion {
      if |currentQuestion.options| == 0 && currentQuestion.text.Some? && currentQuestion.text.value != "" {
        currentQuestion' := currentQuestion.(text := Some(currentQuestion.text.value + " " + line));
      }
    }
  }

  /** `parseText`, step by step as the source does it. */
  method ParseText(inputText: string, initialQuiz: Option<Quiz>, freshId: string,
                   newId: nat -> string, now: int) returns (r: Result<Quiz, string>)
    ensures r == Parse(inputText, initialQuiz, freshId, newId, now)
  {
    var lines := InputLines(inputText);
    if |lines| < 3 {
      return Failure(TooShortMessage);
    }
    var title := lines[0];
    var questions: seq<Question> := [];
    var currentQuestion := Draft(None, []);
    var isReadingQuestion := false;
    for i := 1 to |lines|
      invariant ParserState(questions, currentQuestion, isReadingQuestion) == Run(Initial, lines[1..i], newId)
    {
      SliceSnoc(lines, 1, i);
      RunSnoc(Initial, lines[1..i], lines[i], newId);
      questions, currentQuestion, isReadingQuestion :=
        ReadLine(questions, currentQuestion, isReadingQuestion, lines[i], newId);
    }
    SliceToEnd(lines, 1);
    if |questions| == 0 {
      return Failure(NoQuestionsMessage);
    }
    r := Success(Quiz(if initialQuiz.Some? then initialQuiz.value.id else freshId,
                      title, None, questions, now));
  }

  lemma TailTrimmed(lines: seq<string>)
    requires |lines| >= 1
    requires forall k :: 0 <= k < |lines| ==> IsTrimmed(lines[k])
    ensures forall o :: o in lines[1..] ==> IsTrimmed(o)
  {
    forall o | o in lines[1..] ensures IsTrimmed(o) {
      var j :| 0 <= j < |lines[1..]| && lines[1..][j] == o;
      assert lines[j + 1] == o;
    }
  }

  /** What a successful parse promises: the title is the first non-blank line,
      untouched; the id rule; no description; at least one question and at
      most one per answer line; every question has a stem and options, each
      option a whole trimmed input line that matches the option pattern; the
      k-th question carries the k-th fresh id. */
  lemma ParseSuccess(inputText: string, initialQuiz: Option<Quiz>, freshId: string,
                     newId: nat -> string, now: int)
    requires Parse(inputText, initialQuiz, freshId, newId, now).Success?
    ensures var quiz := Parse(inputText, initialQuiz, freshId, newId, now).value;
            var lines := InputLines(inputText);
            && |lines| >= 3
            && quiz.title == lines[0]
            && quiz.id == (if initialQuiz.Some? then initialQuiz.value.id else freshId)
            && quiz.description == None
            && quiz.createdAt == now
            && 1 <= |quiz.questions| <= AnswerLineCount(lines[1..])
            && forall k :: 0 <= k < |quiz.questions| ==>
                 && IsParsedQuestion(quiz.questions[k])
                 && quiz.questions[k].id == newId(k)
                 && forall o :: o in quiz.questions[k].options ==> o in lines[1..] && IsTrimmed(o)
  {
    var lines := InputLines(inputText);
    var st := Run(Initial, lines[1..], newId);
    RunOptionsAmong(Initial, [], lines[1..], newId);
    assert [] + lines[1..] == lines[1..];
    TailTrimmed(lines);
  }

  /** The two error messages and when each is given: too few non-blank lines,
      or no question closed by an answer line. No partial quiz is returned. */
  lemma ParseFailure(inputText: string, initialQuiz: Option<Quiz>, freshId: string,
                     newId: nat -> string, now: int)
    ensures var r := Parse(inputText, initialQuiz, freshId, newId, now);
            var lines := InputLines(inputText);
            && (r == Failure(TooShortMessage) <==> |lines| < 3)
            && (r == Failure(NoQuestionsMessage) <==>
                  |lines| >= 3 && |Run(Initial, lines[1..], newId).questions| == 0)
            && (r.Failure? ==> r.error == TooShortMessage || r.error == NoQuestionsMessage)
            && (|lines| >= 3 && AnswerLineCount(lines[1..]) == 0 ==> r == Failure(NoQuestionsMessage))
  {
  }

  // ----- The edit-mode reconstruction -----

  /** The lines written for the question numbered `number`: the numbered
      stem, the options as stored, the bolded answer and a blank line. */
  function QuestionBlock(q: Question, number: nat): seq<string> {
    [HeaderLine(number, q.text)] + q.options + [AnswerLine(q.correctAnswer), ""]
  }

  /** The numbered stem line, `${i + 1}. ${q.text}`. */
  function HeaderLine(number: nat, text: string): string {
    NatToString(number) + ". " + text
  }

  /** The bolded answer line, `**Answer: ${q.correctAnswer}**`. */
  function AnswerLine(answer: string): string {
    "**Answer: " + answer + "**"
  }

  /** The blocks of all questions, numbered from 1. */
  function QuestionBlocks(qs: seq<Question>): seq<string> {
    if qs == [] then []
    else QuestionBlocks(qs[..|qs| - 1]) + QuestionBlock(qs[|qs| - 1], |qs|)
  }

  /** The lines of the text the editor is filled with: title, blank, blocks. */
  function EditLines(quiz: Quiz): seq<string> {
    [quiz.title, ""] + QuestionBlocks(quiz.questions)
  }

  /** The text the editor is filled with, each line ended by a newline. */
  function EditText(quiz: Quiz): (r: string)
    ensures quiz.title + "\n\n" <= r
    ensures r[|r| - 1] == '\n'
  {
    TerminatedAppend([quiz.title, ""], QuestionBlocks(quiz.questions));
    assert Terminated([quiz.title, ""]) == quiz.title + "\n\n" by {
      assert [quiz.title, ""][..1] == [quiz.title];
      assert [quiz.title][..0] == [];
      calc {
        Terminated([quiz.title, ""]);
        Terminated([quiz.title]) + "" + "\n";
        Terminated([]) + quiz.title + "\n" + "" + "\n";
        quiz.title + "\n\n";
      }
    }
    Terminated(EditLines(quiz))
  }

  lemma TerminatedSnoc(lines: seq<string>, line: string)
    ensures Terminated(lines + [line]) == Terminated(lines) + line + "\n"
  {
    assert (lines + [line])[..|lines|] == lines;
  }

  lemma BlocksSnoc(start: seq<string>, qs: seq<Question>, i: nat)
    requires i < |qs|
    ensures start + QuestionBlocks(qs[..i + 1]) == start + QuestionBlocks(qs[..i]) + QuestionBlock(qs[i], i + 1)
  {
    assert qs[..i + 1][..i] == qs[..i];
  }

  /** Ending a block: the answer line and the blank line after the options. */
  lemma TerminatedBlockEnd(before: seq<string>, q: Question, number: nat)
    ensures var header := NatToString(number) + ". " + q.text;
            var answerLine := "**Answer: " + q.correctAnswer + "**";
            Terminated(before + QuestionBlock(q, number))
              == Terminated(before + [header] + q.options[..|q.options|]) + (answerLine + "\n\n")
  {
    assert q.options[..|q.options|] == q.options;
    var header := NatToString(number) + ". " + q.text;
    var answerLine := "**Answer: " + q.correctAnswer + "**";
    var withOptions := before + [header] + q.options;
    TerminatedSnoc(withOptions, answerLine);
    TerminatedSnoc(withOptions + [answerLine], "");
    assert withOptions + [answerLine] + [""] == before + QuestionBlock(q, number);
  }

  /** One more option line. */
  lemma TerminatedOptions(prefix: seq<string>, options: seq<string>, j: nat)
    requires j < |options|
    ensures Terminated(prefix + options[..j + 1]) == Terminated(prefix + options[..j]) + (options[j] + "\n")
  {
    TerminatedSnoc(prefix + options[..j], options[j]);
    assert prefix + options[..j + 1] == prefix + options[..j] + [options[j]];
  }

  /** The reconstruction in the edit-mode effect, built with `+=`. */
  method Reconstruct(initialQuiz: Quiz) returns (reconstructed: string)
    ensures reconstructed == EditText(initialQuiz)
  {
    var qs := initialQuiz.questions;
    var start := [initialQuiz.title, ""];
    reconstructed := initialQuiz.title + "\n\n";
    assert reconstructed == Terminated(start) by {
      TerminatedSnoc([], initialQuiz.title);
      TerminatedSnoc([initialQuiz.title], "");
      assert [] + [initialQuiz.title] == [initialQuiz.title];
      assert [initialQuiz.title] + [""] == start;
    }
    assert start + QuestionBlocks(qs[..0]) == start;
    for i := 0 to |qs|
      invariant reconstructed == Terminated(start + QuestionBlocks(qs[..i]))
    {
      var q := qs[i];
      var before := start + QuestionBlocks(qs[..i]);
      var header := NatToString(i + 1) + ". " + q.text;
      TerminatedSnoc(before, header);
      reconstructed := reconstructed + (header + "\n");
      assert before + [header] + q.options[..0] == before + [header];
      for j := 0 to |q.options|
        invariant reconstructed == Terminated(before + [header] + q.options[..j])
      {
        TerminatedOptions(before + [header], q.options, j);
        reconstructed := reconstructed + (q.options[j] + "\n");
      }
      var answerLine := "**Answer: " + q.correctAnswer + "**";
      TerminatedBlockEnd(before, q, i + 1);
      reconstructed := reconstructed + (answerLine + "\n\n");
      BlocksSnoc(start, qs, i);
    }
    assert qs[..|qs|] == qs;
  }
}
