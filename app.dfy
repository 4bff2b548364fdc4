/** The application state of App.tsx: the quiz list with its save (update or
    insert) and delete handlers, the session results with the completion
    handler, and the lookup of the quiz named by a route path.

    Persistence (`saveQuizzes`, `getQuizzes`) is not modelled as storage: the
    list last handed to `saveQuizzes` is kept as the ghost field `saved`.
    `window.confirm` is the boolean parameter `confirmed`. */
module App {
  import opened Types
  import opened Text

  // ----- lookup -----

  /** `findIndex` by id: the index of the first quiz with id `id`, or -1. */
  function FindIndex(quizzes: seq<Quiz>, id: string): (i: int)
    ensures -1 <= i < |quizzes|
    ensures i >= 0 ==> quizzes[i].id == id && forall k :: 0 <= k < i ==> quizzes[k].id != id
    ensures i == -1 <==> forall k :: 0 <= k < |quizzes| ==> quizzes[k].id != id
  {
    if quizzes == [] then -1
    else if quizzes[0].id == id then 0
    else
      var j := FindIndex(quizzes[1..], id);
      if j < 0 then -1 else j + 1
  }

  /** `i` is the position of the first quiz with id `id`. */
  predicate FirstWithId(quizzes: seq<Quiz>, id: string, i: int) {
    0 <= i < |quizzes| && quizzes[i].id == id && forall k :: 0 <= k < i ==> quizzes[k].id != id
  }

  /** `find` by id: the first quiz with id `id`, if any. */
  function FindQuiz(quizzes: seq<Quiz>, id: string): (r: Option<Quiz>)
    ensures r.None? <==> forall k :: 0 <= k < |quizzes| ==> quizzes[k].id != id
    ensures r.Some? ==> r.value.id == id && r.value in quizzes
    ensures r.Some? ==> exists i :: FirstWithId(quizzes, id, i) && r.value == quizzes[i]
  {
    var i := FindIndex(quizzes, id);
    if i < 0 then None else Some(quizzes[i])
  }

  predicate NotSlash(c: char) { c != '/' }

  /** `path.split('/').pop()`: the text after the last `/`, or the whole path
      when it has none. */
  function LastSegment(path: string): (seg: string)
    ensures |seg| <= |path| && seg == path[|path| - |seg|..]
    ensures forall k :: 0 <= k < |seg| ==> seg[k] != '/'
    ensures |seg| < |path| ==> path[|path| - |seg| - 1] == '/'
  {
    SuffixRunAll(NotSlash, path);
    path[|path| - SuffixRun(NotSlash, path)..]
  }

  /** The segment after a final `/` is the id, whatever comes before it. */
  lemma LastSegmentOf(prefix: string, id: string)
    requires forall k :: 0 <= k < |id| ==> id[k] != '/'
    ensures LastSegment(prefix + "/" + id) == id
  {
    var path := prefix + "/" + id;
    assert path[|path| - |id|..] == id;
    assert path[|path| - |id| - 1] == '/';
  }

  /** The quiz a `/take/:id` or `/edit/:id` page shows: the first quiz whose id
      is the last path segment; `None` is the "Quiz not found" branch. */
  function RouteQuiz(quizzes: seq<Quiz>, path: string): (r: Option<Quiz>)
    ensures r.Some? ==> r.value in quizzes && r.value.id == LastSegment(path)
    ensures r.Some? ==> exists i :: FirstWithId(quizzes, LastSegment(path), i) && r.value == quizzes[i]
    ensures r.None? <==> forall k :: 0 <= k < |quizzes| ==> quizzes[k].id != LastSegment(path)
  {
    FindQuiz(quizzes, LastSegment(path))
  }

  // ----- save -----

  /** The list `handleSaveQuiz` builds: the first quiz with the same id
      replaced in place, or `newQuiz` put in front when there is none. */
  function Upserted(quizzes: seq<Quiz>, newQuiz: Quiz): (r: seq<Quiz>)
    ensures |quizzes| <= |r| <= |quizzes| + 1
    ensures newQuiz in r
    ensures forall q :: q in quizzes && q.id != newQuiz.id ==> q in r
  {
    var i := FindIndex(quizzes, newQuiz.id);
    if i >= 0 then
      var r := quizzes[i := newQuiz];
      assert r[i] == newQuiz;
      assert forall k :: 0 <= k < |quizzes| && k != i ==> r[k] == quizzes[k];
      r
    else [newQuiz] + quizzes
  }

  /** Saving an existing id replaces exactly the first quiz with that id:
      same length, same position, every other quiz unchanged. */
  lemma UpsertReplaces(quizzes: seq<Quiz>, newQuiz: Quiz)
    requires exists k :: 0 <= k < |quizzes| && quizzes[k].id == newQuiz.id
    ensures var i := FindIndex(quizzes, newQuiz.id);
            && |Upserted(quizzes, newQuiz)| == |quizzes|
            && Upserted(quizzes, newQuiz)[i] == newQuiz
            && forall k :: 0 <= k < |quizzes| && k != i ==> Upserted(quizzes, newQuiz)[k] == quizzes[k]
  {
  }

  /** Saving a new id puts the quiz in front of the old list. */
  lemma UpsertPrepends(quizzes: seq<Quiz>, newQuiz: Quiz)
    requires forall k :: 0 <= k < |quizzes| ==> quizzes[k].id != newQuiz.id
    ensures Upserted(quizzes, newQuiz) == [newQuiz] + quizzes
  {
  }

  /** After a save, looking the id up finds the saved quiz. */
  lemma UpsertFinds(quizzes: seq<Quiz>, newQuiz: Quiz)
    ensures FindQuiz(Upserted(quizzes, newQuiz), newQuiz.id) == Some(newQuiz)
  {
    var i := FindIndex(quizzes, newQuiz.id);
    var u := Upserted(quizzes, newQuiz);
    if i >= 0 {
      assert forall k :: 0 <= k < i ==> u[k] == quizzes[k];
      FirstIndex(u, newQuiz.id, i);
    } else {
      FirstIndex(u, newQuiz.id, 0);
    }
  }

  /** An index holding the id with no earlier one is what `FindIndex` returns. */
  lemma FirstIndex(quizzes: seq<Quiz>, id: string, i: nat)
    requires i < |quizzes| && quizzes[i].id == id
    requires forall k :: 0 <= k < i ==> quizzes[k].id != id
    ensures FindIndex(quizzes, id) == i
  {
  }

  /** Saving the same quiz twice gives the list saving it once gives. */
  lemma UpsertIdempotent(quizzes: seq<Quiz>, newQuiz: Quiz)
    ensures Upserted(Upserted(quizzes, newQuiz), newQuiz) == Upserted(quizzes, newQuiz)
  {
    var i := FindIndex(quizzes, newQuiz.id);
    var u := Upserted(quizzes, newQuiz);
    if i >= 0 {
      assert forall k :: 0 <= k < i ==> u[k] == quizzes[k];
      FirstIndex(u, newQuiz.id, i);
    } else {
      FirstIndex(u, newQuiz.id, 0);
    }
  }

  // ----- delete -----

  /** `quizzes.filter(q => q.id !== id)`. */
  function Without(quizzes: seq<Quiz>, id: string): (r: seq<Quiz>)
    ensures |r| <= |quizzes|
    ensures forall q :: q in r ==> q in quizzes && q.id != id
  {
    if quizzes == [] then []
    else
      var init := Without(quizzes[..|quizzes| - 1], id);
      var last := quizzes[|quizzes| - 1];
      if last.id != id then init + [last] else init
  }

  /** Filtering distributes over concatenation, so the kept quizzes stay in
      their order. */
  lemma {:induction false} WithoutAppend(a: seq<Quiz>, b: seq<Quiz>, id: string)
    ensures Without(a + b, id) == Without(a, id) + Without(b, id)
    decreases |b|
  {
    if b == [] {
      assert a + b == a;
    } else {
      var b' := b[..|b| - 1];
      assert (a + b)[..|a + b| - 1] == a + b';
      WithoutAppend(a, b', id);
    }
  }

  /** Every quiz without the id is kept: exactly the quizzes with the id go. */
  lemma {:induction false} WithoutKeeps(quizzes: seq<Quiz>, id: string)
    ensures forall q :: q in quizzes && q.id != id ==> q in Without(quizzes, id)
  {
    if quizzes != [] {
      var init := quizzes[..|quizzes| - 1];
      WithoutKeeps(init, id);
      assert quizzes == init + [quizzes[|quizzes| - 1]];
    }
  }

  /** Deleting an id that no quiz has changes nothing. */
  lemma {:induction false} WithoutAbsent(quizzes: seq<Quiz>, id: string)
    requires forall k :: 0 <= k < |quizzes| ==> quizzes[k].id != id
    ensures Without(quizzes, id) == quizzes
  {
    if quizzes != [] {
      var init := quizzes[..|quizzes| - 1];
      WithoutAbsent(init, id);
      assert quizzes == init + [quizzes[|quizzes| - 1]];
    }
  }

  /** After a delete, the id is not found. */
  lemma WithoutNotFound(quizzes: seq<Quiz>, id: string)
    ensures FindQuiz(Without(quizzes, id), id) == None
  {
    var r := Without(quizzes, id);
    assert forall k :: 0 <= k < |r| ==> r[k] in r;
  }

  // ----- the component state -----

  /** The state `AppContent` keeps: the quizzes and this session's results. */
  class AppState {
    var quizzes: seq<Quiz>
    var results: seq<QuizResult>
    /** The list last handed to `saveQuizzes`. */
    ghost var saved: seq<Quiz>

    /** The `useState` initial values. */
    constructor()
      ensures quizzes == [] && results == []
    {
      quizzes := [];
      results := [];
      saved := [];
    }

    /** The mount effect: the quizzes become the loaded list. */
    method Load(loaded: seq<Quiz>)
      modifies this
      ensures quizzes == loaded && results == old(results) && saved == old(saved)
    {
      quizzes := loaded;
    }

    /** `handleSaveQuiz`: copies the list and overwrites the slot of the
        first quiz with the same id, or puts the quiz in front; the new list
        becomes the state and is persisted. */
    method SaveQuiz(newQuiz: Quiz)
      modifies this
      ensures quizzes == Upserted(old(quizzes), newQuiz)
      ensures FindQuiz(quizzes, newQuiz.id) == Some(newQuiz)
      ensures saved == quizzes && results == old(results)
    {
      var existingIdx := FindIndex(quizzes, newQuiz.id);
      var updated: seq<Quiz>;
      if existingIdx >= 0 {
        var copy := new Quiz[|quizzes|](k requires 0 <= k < |quizzes| reads this => quizzes[k]);
        copy[existingIdx] := newQuiz;
        updated := copy[..];
      } else {
        updated := [newQuiz] + quizzes;
      }
      UpsertFinds(quizzes, newQuiz);
      quizzes := updated;
      saved := updated;
    }

    /** `handleDeleteQuiz`: when confirmed, keeps the quizzes whose id differs
        and persists the list; otherwise changes nothing. */
    method DeleteQuiz(id: string, confirmed: bool)
      modifies this
      ensures confirmed ==> quizzes == Without(old(quizzes), id) && saved == quizzes
      ensures !confirmed ==> quizzes == old(quizzes) && saved == old(saved)
      ensures results == old(results)
    {
      if confirmed {
        var updated := Without(quizzes, id);
        quizzes := updated;
        saved := updated;
      }
    }

    /** `handleQuizComplete`: appends the result. */
    method QuizComplete(result: QuizResult)
      modifies this
      ensures results == old(results) + [result]
      ensures quizzes == old(quizzes) && saved == old(saved)
    {
      results := results + [result];
    }
  }
}
