/** The edit-mode round trip of components/QuizParser.tsx: the text that the
    editor is filled with for a quiz parses back to that quiz, with fresh
    question ids, the parse time and no description, provided the quiz is
    one that the text format can carry. */
module ParserRoundTrip {
  import opened Types
  import opened Text
  import opened QuizParser
  import QuizTaker

  // ----- Which quizzes the text format can carry -----

  /** A non-empty single line with no whitespace at either end. */
  predicate IsCleanLine(s: string) {
    s != [] && IsTrimmed(s) && HasNoNewline(s)
  }

  /** A question whose block reads back as itself: a clean stem, at least
      one option, each a clean option line, and a clean answer that neither
      starts with a letter label nor ends in a star. */
  predicate RenderableQuestion(q: Question) {
    && IsCleanLine(q.text)
    && |q.options| > 0
    && (forall k :: 0 <= k < |q.options| ==> IsCleanLine(q.options[k]) && IsOptionLine(q.options[k]))
    && IsCleanLine(q.correctAnswer)
    && !StartsWithLetterLabel(q.correctAnswer)
    && q.correctAnswer[|q.correctAnswer| - 1] != '*'
  }

  predicate Renderable(quiz: Quiz) {
    && IsCleanLine(quiz.title)
    && |quiz.questions| > 0
    && forall k :: 0 <= k < |quiz.questions| ==> RenderableQuestion(quiz.questions[k])
  }

  /** The questions as a parse gives them back: the k-th takes the k-th
      fresh id, everything else is kept. */
  function WithIds(qs: seq<Question>, newId: nat -> string): (r: seq<Question>)
    ensures |r| == |qs|
  {
    if qs == [] then []
    else WithIds(qs[..|qs| - 1], newId) + [qs[|qs| - 1].(id := newId(|qs| - 1))]
  }

  lemma {:induction false} WithIdsAt(qs: seq<Question>, newId: nat -> string)
    ensures forall k :: 0 <= k < |qs| ==> WithIds(qs, newId)[k] == qs[k].(id := newId(k))
    decreases |qs|
  {
    if qs != [] {
      WithIdsAt(qs[..|qs| - 1], newId);
    }
  }

  // ----- How each kind of line is classified -----

  /** A numbered stem line is a question start giving back the stem, and is
      not an answer line. */
  lemma HeaderClassified(number: nat, text: string)
    requires text != [] && !IsSpace(text[0])
    ensures QuestionStart(HeaderLine(number, text)) == Some(text)
    ensures !IsAnswerLine(HeaderLine(number, text))
  {
    var digits := NatToString(number);
    var line := HeaderLine(number, text);
    assert line == digits + (". " + text);
    HeaderStart(digits, text);
    DigitNotAnswer(line);
  }

  /** Digits, a dot, a space and a stem that starts with a non-space: the
      question pattern captures the stem. */
  lemma HeaderStart(digits: string, text: string)
    requires |digits| >= 1 && forall i :: 0 <= i < |digits| ==> IsDigit(digits[i])
    requires text != [] && !IsSpace(text[0])
    ensures QuestionStart(digits + (". " + text)) == Some(text)
  {
    var line := digits + (". " + text);
    PrefixRunAfter(IsDigit, digits, ". " + text);
    var rest := line[|digits| + 1..];
    assert rest == " " + text;
    assert rest[1..] == text;
    assert PrefixRun(IsSpace, rest) == 1 by {
      assert rest[1..][0] == text[0];
    }
  }

  /** A line that starts with a digit has no answer marker. */
  lemma DigitNotAnswer(line: string)
    requires |line| > 0 && IsDigit(line[0])
    ensures !IsAnswerLine(line)
  {
    assert PrefixRun(IsStar, line) == 0;
    if |line| >= 7 {
      LowerAt(line[0..7]);
      assert Lower(line[0..7])[0] == LowerChar(line[0]) == line[0];
    }
  }

  /** An option line is neither an answer line nor a question start. */
  lemma OptionClassified(line: string)
    requires IsOptionLine(line)
    ensures QuestionStart(line).None?
    ensures !IsAnswerLine(line)
  {
    assert PrefixRun(IsDigit, line) == 0;
    assert PrefixRun(IsStar, line) == 0;
    if |line| >= 7 {
      LowerAt(line[0..7]);
      assert Lower(line[0..7])[1] == LowerChar(line[1]) == line[1];
    }
  }

  /** Two trailing stars are exactly what `\**$` takes from the bolded
      answer. */
  lemma StarsAfterAnswer(answer: string)
    requires answer != [] && answer[|answer| - 1] != '*'
    ensures SuffixRun(IsStar, answer + "**") == 2
  {
    var t := answer + "**";
    assert SuffixRun(IsStar, answer) == 0;
    assert (answer + "*")[..|answer|] == answer;
    assert SuffixRun(IsStar, answer + "*") == 1;
    assert t[..|t| - 1] == answer + "*";
  }

  /** The bolded answer line has the marker, and a space, the answer and
      two stars after it. */
  lemma AnswerMarkerFound(answer: string)
    ensures HasAnswerMarker(AnswerLine(answer))
    ensures AfterAnswerMarker(AnswerLine(answer)) == " " + (answer + "**")
  {
    var line := AnswerLine(answer);
    var afterStars := "Answer:" + (" " + (answer + "**"));
    assert line == "**" + afterStars;
    StarsBeforeMarker(afterStars);
    PrefixRunAfter(IsStar, "**", afterStars);
    assert line[2..9] == "Answer:" && line[9..] == " " + (answer + "**");
    LowerMarker();
  }

  lemma StarsBeforeMarker(afterStars: string)
    requires |afterStars| > 0 && afterStars[0] == 'A'
    ensures PrefixRun(IsStar, afterStars) == 0
  {
  }

  /** The marker word folds to lower case letter by letter. */
  lemma LowerMarker()
    ensures Lower("Answer:") == "answer:"
  {
    var m := "Answer:";
    LowerAt(m);
    assert forall i :: 0 <= i < 7 ==> Lower(m)[i] == "answer:"[i];
  }

  /** After the marker: one space for `\s*`, no label, and the lazy capture
      stops before the two stars. */
  lemma AnswerBodyCaptured(answer: string)
    requires IsCleanLine(answer)
    requires !StartsWithLetterLabel(answer)
    requires answer[|answer| - 1] != '*'
    ensures var rest := " " + (answer + "**");
            && PrefixRun(IsSpace, rest) == 1
            && rest[1..] == answer + "**"
            && !StartsWithLetterLabel(answer + "**")
            && LazyCapture(answer + "**") == answer
  {
    var body := answer + "**";
    var rest := " " + body;
    assert rest[1..] == body;
    assert body[0] == answer[0];
    assert !StartsWithLetterLabel(body) by {
      if |answer| >= 2 {
        assert body[1] == answer[1];
      } else {
        assert body[1] == '*';
      }
    }
    StarsAfterAnswer(answer);
    assert body[..|body| - 2] == answer;
  }

  /** The bolded answer line gives back a clean answer. */
  lemma AnswerClassified(answer: string)
    requires IsCleanLine(answer)
    requires !StartsWithLetterLabel(answer)
    requires answer[|answer| - 1] != '*'
    ensures AnswerCapture(AnswerLine(answer)) == Some(answer)
  {
    AnswerMarkerFound(answer);
    AnswerBodyCaptured(answer);
  }

  /** One space before a non-space: `\s*` takes exactly the space. */
  lemma OneSpace(x: string)
    requires x != [] && !IsSpace(x[0])
    ensures PrefixRun(IsSpace, " " + x) == 1 && (" " + x)[1..] == x
  {
    assert (" " + x)[1..] == x;
    assert (" " + x)[1..][0] == x[0];
  }

  /** The lazy capture stops before the two closing stars. */
  lemma CaptureBeforeStars(answer: string)
    requires answer != [] && answer[|answer| - 1] != '*'
    ensures LazyCapture(answer + "**") == answer
  {
    StarsAfterAnswer(answer);
    assert (answer + "**")[..|answer|] == answer;
  }

  /** Why the round trip excludes labelled answers: the answer pattern's
      optional label group eats a leading `c) `, so a stored answer "a) b"
      is read back as "b". */
  lemma LabelledAnswerLosesLabel(c: char, body: string)
    requires IsAsciiLetter(c)
    requires IsCleanLine(body) && body[|body| - 1] != '*'
    ensures AnswerCapture(AnswerLine([c, ')', ' '] + body)) == Some(body)
  {
    var answer := [c, ')', ' '] + body;
    AnswerMarkerFound(answer);
    var tail := body + "**";
    var labelled := answer + "**";
    assert labelled == [c, ')'] + (" " + tail);
    OneSpace(labelled);
    assert StartsWithLetterLabel(labelled);
    assert labelled[2..] == " " + tail;
    OneSpace(tail);
    CaptureBeforeStars(body);
  }

  /** The answer pattern's label group needs no whitespace after the
      separator, where `stripLabel` needs at least one: a stored answer
      "a)b" is read back as "b", although the session would keep "a)b". */
  lemma UnspacedLabelLost(c: char, body: string)
    requires IsAsciiLetter(c)
    requires IsCleanLine(body) && body[|body| - 1] != '*'
    ensures AnswerCapture(AnswerLine([c, ')'] + body)) == Some(body)
    ensures QuizTaker.StripLabel([c, ')'] + body) == [c, ')'] + body
  {
    var answer := [c, ')'] + body;
    AnswerMarkerFound(answer);
    var tail := body + "**";
    var labelled := answer + "**";
    assert labelled == [c, ')'] + tail;
    OneSpace(labelled);
    assert StartsWithLetterLabel(labelled);
    assert labelled[2..] == tail;
    assert PrefixRun(IsSpace, tail) == 0 by {
      assert tail[0] == body[0];
    }
    CaptureBeforeStars(body);
    UnspacedLabelKept(c, body);
  }

  /** Without whitespace after the separator, `stripLabel` finds no label. */
  lemma UnspacedLabelKept(c: char, body: string)
    requires IsAsciiLetter(c)
    requires IsCleanLine(body)
    ensures QuizTaker.StripLabel([c, ')'] + body) == [c, ')'] + body
  {
    var s := [c, ')'] + body;
    assert s[2..] == body;
    assert QuizTaker.LabelHead(s) == 1;
    assert PrefixRun(IsSpace, body) == 0;
    assert QuizTaker.LabelLength(s) == 0;
    assert s[|s| - 1] == body[|body| - 1];
  }

  /** The answer pattern's label group takes one letter only, where
      `stripLabel` also takes a number: a stored answer "1) x" is read back
      whole, although the session strips it to "x". */
  lemma NumberLabelKept(digits: string, body: string)
    requires |digits| > 0 && forall i :: 0 <= i < |digits| ==> IsDigit(digits[i])
    requires IsCleanLine(body) && body[|body| - 1] != '*'
    ensures var answer := digits + [')'] + " " + body;
            && AnswerCapture(AnswerLine(answer)) == Some(answer)
            && QuizTaker.StripLabel(answer) == body
  {
    var answer := digits + [')'] + " " + body;
    assert answer[0] == digits[0];
    assert answer[|answer| - 1] == body[|body| - 1];
    assert HasNoNewline(answer) by {
      assert forall i :: 0 <= i < |answer| ==>
        answer[i] == if i < |digits| then digits[i] else if i == |digits| then ')' else if i == |digits| + 1 then ' '
                     else body[i - |digits| - 2];
    }
    AnswerClassified(answer);
    assert QuizTaker.IsLabel(digits);
    QuizTaker.StripLabelled(digits, ')', " ", body);
  }

  /** Cleaning leaves a clean answer that does not end in a star alone. */
  lemma CleanAnswerKeeps(answer: string)
    requires IsCleanLine(answer)
    requires answer[|answer| - 1] != '*'
    ensures CleanAnswer(answer) == answer
  {
  }

  // ----- How the loop reads one block -----

  /** The state between questions: `questions` emitted, nothing pending. */
  function Idle(questions: seq<Question>): ParserState {
    ParserState(questions, Draft(None, []), false)
  }

  /** The state while reading a question with stem `text`. */
  function Reading(questions: seq<Question>, text: string, options: seq<string>): ParserState {
    ParserState(questions, Draft(Some(text), options), true)
  }

  lemma StepHeader(st: ParserState, number: nat, text: string, newId: nat -> string)
    requires text != [] && !IsSpace(text[0])
    ensures Step(st, HeaderLine(number, text), newId) == Reading(st.questions, text, [])
  {
    HeaderClassified(number, text);
  }

  lemma StepOption(questions: seq<Question>, text: string, options: seq<string>, line: string,
                   newId: nat -> string)
    requires IsOptionLine(line)
    ensures Step(Reading(questions, text, options), line, newId) == Reading(questions, text, options + [line])
  {
    OptionClassified(line);
  }

  lemma StepAnswer(questions: seq<Question>, q: Question, newId: nat -> string)
    requires RenderableQuestion(q)
    ensures Step(Reading(questions, q.text, q.options), AnswerLine(q.correctAnswer), newId)
         == Idle(questions + [q.(id := newId(|questions|))])
  {
    AnswerClassified(q.correctAnswer);
    CleanAnswerKeeps(q.correctAnswer);
  }

  /** Option lines after a stem are collected in order. */
  lemma {:induction false} RunOptions(questions: seq<Question>, text: string, options: seq<string>,
                                      newId: nat -> string)
    requires forall k :: 0 <= k < |options| ==> IsOptionLine(options[k])
    ensures Run(Reading(questions, text, []), options, newId) == Reading(questions, text, options)
    decreases |options|
  {
    if options != [] {
      var init := options[..|options| - 1];
      var last := options[|options| - 1];
      RunOptions(questions, text, init, newId);
      StepOption(questions, text, init, last, newId);
      assert init + [last] == options;
    }
  }

  /** The non-blank lines of one question's block. */
  function BlockLines(q: Question, number: nat): seq<string> {
    [HeaderLine(number, q.text)] + q.options + [AnswerLine(q.correctAnswer)]
  }

  /** The non-blank lines of all the blocks, numbered from 1. */
  function ContentLines(qs: seq<Question>): seq<string> {
    if qs == [] then []
    else ContentLines(qs[..|qs| - 1]) + BlockLines(qs[|qs| - 1], |qs|)
  }

  /** Reading one block from the idle state emits its question. */
  lemma BlockRun(questions: seq<Question>, q: Question, number: nat, newId: nat -> string)
    requires RenderableQuestion(q)
    ensures Run(Idle(questions), BlockLines(q, number), newId)
         == Idle(questions + [q.(id := newId(|questions|))])
  {
    var header := HeaderLine(number, q.text);
    var answer := AnswerLine(q.correctAnswer);
    var s0 := Idle(questions);
    RunSnoc(s0, [], header, newId);
    assert [] + [header] == [header];
    StepHeader(s0, number, q.text, newId);
    RunAppend(s0, [header], q.options, newId);
    RunOptions(questions, q.text, q.options, newId);
    RunSnoc(s0, [header] + q.options, answer, newId);
    StepAnswer(questions, q, newId);
  }

  /** Reading all the blocks emits all the questions, with fresh ids. */
  lemma {:induction false} ContentRun(qs: seq<Question>, newId: nat -> string)
    requires forall k :: 0 <= k < |qs| ==> RenderableQuestion(qs[k])
    ensures Run(Initial, ContentLines(qs), newId) == Idle(WithIds(qs, newId))
    decreases |qs|
  {
    if qs != [] {
      var init := qs[..|qs| - 1];
      var last := qs[|qs| - 1];
      ContentRun(init, newId);
      RunAppend(Initial, ContentLines(init), BlockLines(last, |qs|), newId);
      BlockRun(WithIds(init, newId), last, |qs|, newId);
    }
  }

  // ----- From the text to the lines the loop reads -----

  predicate AllClean(lines: seq<string>) {
    forall k :: 0 <= k < |lines| ==> IsCleanLine(lines[k])
  }

  /** Clean lines pass through trimming and the blank filter unchanged. */
  lemma {:induction false} NonBlankClean(lines: seq<string>)
    requires AllClean(lines)
    ensures NonBlankLines(lines) == lines
    decreases |lines|
  {
    if lines != [] {
      var n := |lines|;
      assert AllClean(lines[..n - 1]);
      NonBlankClean(lines[..n - 1]);
      assert lines[..n - 1] + [lines[n - 1]] == lines;
    }
  }

  lemma HeaderClean(number: nat, text: string)
    requires IsCleanLine(text)
    ensures IsCleanLine(HeaderLine(number, text))
  {
    var digits := NatToString(number);
    var line := HeaderLine(number, text);
    assert line == digits + ". " + text;
    assert line[0] == digits[0];
    assert line[|line| - 1] == text[|text| - 1];
    forall i | 0 <= i < |line| ensures line[i] != '\n' {
      if i < |digits| {
        assert line[i] == digits[i];
      } else if i >= |digits| + 2 {
        assert line[i] == text[i - |digits| - 2];
      }
    }
  }

  lemma AnswerLineClean(answer: string)
    requires IsCleanLine(answer)
    ensures IsCleanLine(AnswerLine(answer))
  {
    var line := AnswerLine(answer);
    assert line == "**Answer: " + answer + "**";
    forall i | 0 <= i < |line| ensures line[i] != '\n' {
      if 10 <= i < 10 + |answer| {
        assert line[i] == answer[i - 10];
      }
    }
  }

  lemma BlockClean(q: Question, number: nat)
    requires RenderableQuestion(q)
    ensures AllClean(BlockLines(q, number))
  {
    HeaderClean(number, q.text);
    AnswerLineClean(q.correctAnswer);
  }

  /** The blank line ending each block is dropped. */
  lemma NonBlankBlock(q: Question, number: nat)
    requires RenderableQuestion(q)
    ensures NonBlankLines(QuestionBlock(q, number)) == BlockLines(q, number)
  {
    assert QuestionBlock(q, number) == BlockLines(q, number) + [""];
    NonBlankAppend(BlockLines(q, number), [""]);
    BlockClean(q, number);
    NonBlankClean(BlockLines(q, number));
    assert NonBlankLines([""]) == [] by {
      assert [""][..0] == [];
    }
  }

  lemma {:induction false} NonBlankBlocks(qs: seq<Question>)
    requires forall k :: 0 <= k < |qs| ==> RenderableQuestion(qs[k])
    ensures NonBlankLines(QuestionBlocks(qs)) == ContentLines(qs)
    decreases |qs|
  {
    if qs != [] {
      var init := qs[..|qs| - 1];
      var last := qs[|qs| - 1];
      NonBlankBlocks(init);
      NonBlankAppend(QuestionBlocks(init), QuestionBlock(last, |qs|));
      NonBlankBlock(last, |qs|);
    }
  }

  predicate NoNewlines(lines: seq<string>) {
    forall k :: 0 <= k < |lines| ==> HasNoNewline(lines[k])
  }

  lemma {:induction false} BlocksNoNewlines(qs: seq<Question>)
    requires forall k :: 0 <= k < |qs| ==> RenderableQuestion(qs[k])
    ensures NoNewlines(QuestionBlocks(qs))
    decreases |qs|
  {
    if qs != [] {
      var init := qs[..|qs| - 1];
      var last := qs[|qs| - 1];
      BlocksNoNewlines(init);
      BlockClean(last, |qs|);
      var block := QuestionBlock(last, |qs|);
      assert block == BlockLines(last, |qs|) + [""];
      assert NoNewlines(block);
    }
  }

  lemma EditLinesNoNewlines(quiz: Quiz)
    requires Renderable(quiz)
    ensures NoNewlines(EditLines(quiz))
  {
    BlocksNoNewlines(quiz.questions);
  }

  /** The title survives the blank filter; the blank after it does not. */
  lemma NonBlankTitle(title: string)
    requires IsCleanLine(title)
    ensures NonBlankLines([title, ""]) == [title]
  {
    assert [title, ""][..1] == [title];
    assert [title][..0] == [];
  }

  /** The text the editor is filled with splits into its clean lines: the
      title, then the non-blank lines of the blocks. */
  lemma EditInputLines(quiz: Quiz)
    requires Renderable(quiz)
    ensures InputLines(EditText(quiz)) == [quiz.title] + ContentLines(quiz.questions)
  {
    var lines := EditLines(quiz);
    EditLinesNoNewlines(quiz);
    SplitTerminated(lines);
    assert NonBlankLines(lines + [""]) == NonBlankLines(lines) by {
      assert (lines + [""])[..|lines|] == lines;
    }
    NonBlankAppend([quiz.title, ""], QuestionBlocks(quiz.questions));
    NonBlankTitle(quiz.title);
    NonBlankBlocks(quiz.questions);
  }

  lemma ContentLinesLength(qs: seq<Question>)
    requires |qs| > 0
    requires RenderableQuestion(qs[|qs| - 1])
    ensures |ContentLines(qs)| >= 3
  {
  }

  /** Filling the editor with a quiz and parsing the text at once gives the
      quiz back, except that each question takes a fresh id, the quiz takes
      the parse time, and the description is dropped. The quiz id is kept,
      since the parse is of an edited quiz. */
  lemma EditRoundTrip(quiz: Quiz, freshId: string, newId: nat -> string, now: int)
    requires Renderable(quiz)
    ensures Parse(EditText(quiz), Some(quiz), freshId, newId, now)
         == Success(quiz.(description := None, createdAt := now,
                          questions := WithIds(quiz.questions, newId)))
  {
    var qs := quiz.questions;
    EditInputLines(quiz);
    var lines := [quiz.title] + ContentLines(qs);
    ContentLinesLength(qs);
    assert lines[1..] == ContentLines(qs);
    ContentRun(qs, newId);
  }
}
