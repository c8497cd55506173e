/** The quiz session record and its transitions (src/explainer/quiz_ui.py).

    The Streamlit session keeps one record per learning goal under the key
    `quiz_<goal index>`; the buttons of the page become the functions below.
    Rendering itself is not modelled, only the state it reads and writes.
 */
module QuizUI {
  import opened Wrappers
  import opened Text
  import opened QuizSystem

  datatype QuizState = QuizState(
    currentQuestion: Option<Question>,
    answered: bool,
    feedback: Option<Feedback>,
    attempts: nat,
    correctAnswers: nat)

  /** What every reachable record satisfies. */
  predicate Consistent(s: QuizState) {
    s.correctAnswers <= s.attempts && (s.answered <==> s.feedback.Some?)
  }

  /** The record created on the first visit of a goal's quiz. */
  function InitialState(): (s: QuizState)
    ensures Consistent(s) && s.currentQuestion.None? && !s.answered && s.attempts == 0
  {
    QuizState(None, false, None, 0, 0)
  }

  /** `st.session_state[quiz_key]`, created on first access. */
  function QuizStateFor(session: map<nat, QuizState>, goalIndex: nat): (s: QuizState)
    ensures goalIndex !in session ==> s == InitialState()
    ensures goalIndex in session ==> s == session[goalIndex]
  {
    if goalIndex in session then session[goalIndex] else InitialState()
  }

  /** A question is generated only while the record has none. */
  function EnsureQuestion(s: QuizState, generated: Question): (r: QuizState)
    ensures r.currentQuestion.Some?
    ensures s.currentQuestion.Some? ==> r == s
    ensures s.currentQuestion.None? ==> r == s.(currentQuestion := Some(generated))
  {
    if s.currentQuestion.None? then s.(currentQuestion := Some(generated)) else s
  }

  /** The "New Question" button: clears the question and its feedback but
      keeps the counters. */
  function NewQuestion(s: QuizState): (r: QuizState)
    ensures r.currentQuestion.None? && !r.answered && r.feedback.None?
    ensures r.attempts == s.attempts && r.correctAnswers == s.correctAnswers
    ensures Consistent(s) ==> Consistent(r)
  {
    s.(currentQuestion := None, answered := false, feedback := None)
  }

  datatype Submission = Submission(state: QuizState, error: Option<string>)

  function NoQuestionText(language: string): string {
    if language == "English" then "No question available for evaluation." else "Keine Frage zum Bewerten verfügbar."
  }

  /** `_submit_answer`. Without a question it reports an error and changes
      nothing; an exception escaping the evaluation leaves the record as it
      was; otherwise the feedback is stored, `attempts` goes up by one and
      `correct_answers` goes up exactly when the feedback is correct. */
  function Submit(s: QuizState, answer: Value, language: string, hasClient: bool, sessionLanguage: string,
                  scorer: (string, string) -> Option<Feedback>): (r: Submission)
    ensures s.currentQuestion.None? ==> r == Submission(s, Some(NoQuestionText(language)))
    ensures s.currentQuestion.Some? ==>
              var e := EvaluateAnswer(s.currentQuestion.value, answer, hasClient, sessionLanguage, scorer);
              (e.Failure? ==> r == Submission(s, Some(e.error))) &&
              (e.Success? ==>
                 r.error.None? && r.state.answered && r.state.feedback == Some(e.value) &&
                 r.state.currentQuestion == s.currentQuestion &&
                 r.state.attempts == s.attempts + 1 &&
                 (r.state.correctAnswers == s.correctAnswers + 1 <==> e.value.isCorrect) &&
                 (r.state.correctAnswers == s.correctAnswers <==> !e.value.isCorrect))
    ensures Consistent(s) ==> Consistent(r.state)
  {
    match s.currentQuestion
    case None => Submission(s, Some(NoQuestionText(language)))
    case Some(q) =>
      match EvaluateAnswer(q, answer, hasClient, sessionLanguage, scorer)
      case Failure(e) => Submission(s, Some(e))
      case Success(feedback) =>
        Submission(QuizState(s.currentQuestion, true, Some(feedback), s.attempts + 1,
                             s.correctAnswers + (if feedback.isCorrect then 1 else 0)), None)
  }

  /** Submit does not look at `answered`: answering the same question again
      counts as a further attempt. */
  lemma ResubmitCountsTwice(s: QuizState, answer: Value, language: string, hasClient: bool, sessionLanguage: string,
                            scorer: (string, string) -> Option<Feedback>)
    requires s.currentQuestion.Some?
    requires EvaluateAnswer(s.currentQuestion.value, answer, hasClient, sessionLanguage, scorer).Success?
    ensures var e := EvaluateAnswer(s.currentQuestion.value, answer, hasClient, sessionLanguage, scorer).value;
            var once := Submit(s, answer, language, hasClient, sessionLanguage, scorer).state;
            var twice := Submit(once, answer, language, hasClient, sessionLanguage, scorer).state;
            twice.attempts == s.attempts + 2 && twice.currentQuestion == s.currentQuestion &&
            twice.correctAnswers == s.correctAnswers + (if e.isCorrect then 2 else 0)
  {
  }

  /** Accuracy shown under the feedback: only when there was an attempt,
      and then between 0 and 100 percent. */
  function Accuracy(s: QuizState): (r: Option<Ratio>)
    ensures r.Some? <==> s.attempts > 0
    ensures r.Some? && Consistent(s) ==> r.value.Valid() && r.value.Within(100)
  {
    if s.attempts > 0 then Some(Ratio(100 * s.correctAnswers, s.attempts)) else None
  }

  // ---------------------------------------------------------------------------
  // Navigation after feedback

  datatype Navigation = Navigation(currentGoalIndex: int, learningPhase: string, pageMode: string)

  /** "Read Again": back to the information phase of the same goal. */
  function ReadAgain(n: Navigation): (r: Navigation)
    ensures r.learningPhase == "information"
    ensures r.currentGoalIndex == n.currentGoalIndex && r.pageMode == n.pageMode
  {
    n.(learningPhase := "information")
  }

  /** The third button: "Next Learning Goal" while a further goal exists,
      "Complete" (switch to the checklist) on the last one. */
  function NextOrComplete(n: Navigation, goalIndex: int, goalCount: nat): (r: Navigation)
    ensures goalIndex + 1 < goalCount ==>
              r.currentGoalIndex == n.currentGoalIndex + 1 && r.learningPhase == "information" &&
              r.pageMode == n.pageMode
    ensures goalIndex + 1 >= goalCount ==>
              r.pageMode == "checklist" && r.currentGoalIndex == n.currentGoalIndex &&
              r.learningPhase == n.learningPhase
  {
    if goalIndex + 1 < goalCount then
      n.(currentGoalIndex := n.currentGoalIndex + 1, learningPhase := "information")
    else
      n.(pageMode := "checklist")
  }

  /** Walking the goals with "Next" from the current one stays below the goal count. */
  lemma NextStaysInRange(n: Navigation, goalCount: nat)
    requires 0 <= n.currentGoalIndex < goalCount
    ensures var r := NextOrComplete(n, n.currentGoalIndex, goalCount);
            0 <= r.currentGoalIndex < goalCount
            && (r.pageMode == "checklist" <==> n.currentGoalIndex == goalCount - 1 || n.pageMode == "checklist")
  {
  }

  // ---------------------------------------------------------------------------
  // Image placeholders `{{IMAGE:path}}`

  const PlaceholderOpen: string := "{{IMAGE:"

  /** The number of leading characters that are not '}' (the `[^}]+` run). */
  function RunLength(s: string): (k: nat)
    ensures k <= |s| && (k < |s| ==> s[k] == '}')
    ensures forall i :: 0 <= i < k ==> s[i] != '}'
    decreases |s|
  {
    if s == [] || s[0] == '}' then 0 else 1 + RunLength(s[1..])
  }

  /** The length of the path captured by a placeholder starting at s[0],
      if `\{\{IMAGE:([^}]+)\}\}` matches there. */
  function PlaceholderAt(s: string): (r: Option<nat>)
    ensures r.Some? ==> 1 <= r.value && |PlaceholderOpen| + r.value + 2 <= |s|
    ensures r.Some? ==> s[..8] == PlaceholderOpen && s[8 + r.value..10 + r.value] == "}}"
    ensures r.Some? ==> forall i :: 8 <= i < 8 + r.value ==> s[i] != '}'
  {
    if StartsWith(s, PlaceholderOpen) then
      var k := RunLength(s[8..]);
      if k >= 1 && 8 + k + 2 <= |s| && s[8 + k + 1] == '}' then Some(k) else None
    else None
  }

  /** `re.findall`: the captured paths, left to right; each non-empty and free of '}'. */
  function ImagePaths(s: string): (paths: seq<string>)
    ensures forall j :: 0 <= j < |paths| ==> |paths[j]| >= 1 && '}' !in paths[j]
    decreases |s|
  {
    if s == [] then []
    else match PlaceholderAt(s)
      case Some(k) =>
        [s[8..8 + k]] + ImagePaths(s[10 + k..])
      case None => ImagePaths(s[1..])
  }

  /** `re.sub(pattern, '', s)`: every match removed in one left-to-right pass. */
  function RemovePlaceholders(s: string): (r: string)
    ensures |r| <= |s|
    decreases |s|
  {
    if s == [] then []
    else match PlaceholderAt(s)
      case Some(k) => RemovePlaceholders(s[10 + k..])
      case None => [s[0]] + RemovePlaceholders(s[1..])
  }

  /** The text shown after the images: placeholders removed, then stripped. */
  function ShownQuestionText(s: string): (r: string)
    ensures |r| <= |s|
  {
    Strip(RemovePlaceholders(s))
  }

  /** Total characters the placeholders of `paths` occupy. */
  function PlaceholderLength(paths: seq<string>): nat
    decreases |paths|
  {
    if paths == [] then 0 else |paths[0]| + 10 + PlaceholderLength(paths[1..])
  }

  /** Removal deletes exactly the placeholders that `findall` reports. */
  lemma {:induction false} RemovalAccounting(s: string)
    ensures |RemovePlaceholders(s)| + PlaceholderLength(ImagePaths(s)) == |s|
    decreases |s|
  {
    if s != [] {
      match PlaceholderAt(s)
      case Some(k) =>
        RemovalAccounting(s[10 + k..]);
        var paths := ImagePaths(s);
        assert paths[1..] == ImagePaths(s[10 + k..]);
      case None =>
        RemovalAccounting(s[1..]);
    }
  }

  /** The text is left alone exactly when it holds no placeholder. */
  lemma RemovalChangesIffPlaceholder(s: string)
    ensures RemovePlaceholders(s) == s <==> ImagePaths(s) == []
  {
    RemovalAccounting(s);
    if ImagePaths(s) == [] {
      NoPathsUnchanged(s);
    }
  }

  lemma {:induction false} NoPathsUnchanged(s: string)
    requires ImagePaths(s) == []
    ensures RemovePlaceholders(s) == s
    decreases |s|
  {
    if s != [] {
      if PlaceholderAt(s).None? {
        NoPathsUnchanged(s[1..]);
      }
    }
  }

  /** A well-formed placeholder at the front is matched whole and removed. */
  lemma PlaceholderFront(path: string, rest: string)
    requires |path| >= 1 && '}' !in path
    ensures PlaceholderAt(PlaceholderOpen + path + "}}" + rest) == Some(|path|)
    ensures RemovePlaceholders(PlaceholderOpen + path + "}}" + rest) == RemovePlaceholders(rest)
    ensures ImagePaths(PlaceholderOpen + path + "}}" + rest) == [path] + ImagePaths(rest)
  {
    var s := PlaceholderOpen + path + "}}" + rest;
    assert s[..8] == PlaceholderOpen;
    assert s[8..] == path + ("}}" + rest);
    RunLengthStopsAtBrace(path, "}}" + rest);
    assert s[8 + |path| + 1] == '}';
    assert s[10 + |path|..] == rest;
    assert s[8..8 + |path|] == path;
  }

  lemma {:induction false} RunLengthStopsAtBrace(path: string, rest: string)
    requires '}' !in path && rest != [] && rest[0] == '}'
    ensures RunLength(path + rest) == |path|
    decreases |path|
  {
    if path != [] {
      assert (path + rest)[1..] == path[1..] + rest;
      RunLengthStopsAtBrace(path[1..], rest);
    } else {
      assert path + rest == rest;
    }
  }

  /** A prefix none of whose positions starts a placeholder is kept as is. */
  lemma {:induction false} KeepPrefix(pre: string, rest: string)
    requires forall i :: 0 <= i < |pre| ==> PlaceholderAt((pre + rest)[i..]).None?
    ensures RemovePlaceholders(pre + rest) == pre + RemovePlaceholders(rest)
    decreases |pre|
  {
    if pre != [] {
      var s := pre + rest;
      assert PlaceholderAt(s[0..]).None?;
      assert s[0..] == s;
      assert s[1..] == pre[1..] + rest;
      forall i | 0 <= i < |pre[1..]|
        ensures PlaceholderAt((pre[1..] + rest)[i..]).None?
      {
        assert (pre[1..] + rest)[i..] == s[i + 1..];
      }
      KeepPrefix(pre[1..], rest);
    } else {
      assert pre + rest == rest;
    }
  }

  /** The first pass over the spliced text removes only the inner placeholder. */
  lemma FirstPassSplices(a: string, b: string)
    requires |a| >= 1 && '}' !in a && '{' !in b
    ensures var s := PlaceholderOpen[..3] + (PlaceholderOpen + a + "}}" + (PlaceholderOpen[3..] + b + "}}"));
            RemovePlaceholders(s) == PlaceholderOpen[..3] + (PlaceholderOpen[3..] + b + "}}")
  {
    var pre := PlaceholderOpen[..3];
    var tail := PlaceholderOpen[3..] + b + "}}";
    assert '{' !in tail;
    NoPathsUnchangedFree(tail);
    PlaceholderFront(a, tail);
    var inner := PlaceholderOpen + a + "}}" + tail;
    var s := pre + inner;
    forall i | 0 <= i < |pre|
      ensures PlaceholderAt(s[i..]).None?
    {
      if i == 0 {
        NotOpenAt(s[i..], 3);
      } else if i == 1 {
        NotOpenAt(s[i..], 1);
      } else {
        NotOpenAt(s[i..], 0);
      }
    }
    KeepPrefix(pre, inner);
  }

  /** One pass is not enough: removing a placeholder can splice the text
      around it into a new one. With `a` = "a" and `b` = "b" the text is
      "{{I{{IMAGE:a}}MAGE:b}}"; one pass leaves "{{IMAGE:b}}", which a second
      pass removes. */
  lemma RemovalNotIdempotent(a: string, b: string)
    requires |a| >= 1 && '}' !in a && |b| >= 1 && '}' !in b && '{' !in b
    ensures var spliced := PlaceholderOpen + b + "}}";
            var s := PlaceholderOpen[..3] + (PlaceholderOpen + a + "}}" + (PlaceholderOpen[3..] + b + "}}"));
            RemovePlaceholders(s) == spliced && RemovePlaceholders(spliced) == [] && spliced != []
  {
    FirstPassSplices(a, b);
    var pre := PlaceholderOpen[..3];
    assert pre + (PlaceholderOpen[3..] + b + "}}") == (pre + PlaceholderOpen[3..]) + b + "}}";
    assert pre + PlaceholderOpen[3..] == PlaceholderOpen;
    PlaceholderFront(b, "");
    assert PlaceholderOpen + b + "}}" + "" == PlaceholderOpen + b + "}}";
  }

  lemma NotOpenAt(s: string, i: nat)
    requires i < |PlaceholderOpen| && i < |s| && s[i] != PlaceholderOpen[i]
    ensures PlaceholderAt(s).None?
  {
    assert |s| < 8 || s[..8][i] != PlaceholderOpen[i];
  }

  /** A text without '{' holds no placeholder. */
  lemma {:induction false} NoPathsUnchangedFree(s: string)
    requires '{' !in s
    ensures RemovePlaceholders(s) == s
    decreases |s|
  {
    if s != [] {
      assert !StartsWith(s, PlaceholderOpen) by {
        if |s| >= 8 {
          assert s[..8][0] == s[0];
        }
      }
      NoPathsUnchangedFree(s[1..]);
    }
  }

  // ---------------------------------------------------------------------------
  // Statistics over the whole session

  /** A session value: a dict with optional `attempts`/`correct_answers`, or anything else. */
  datatype SessionValue = Dict(attempts: Option<int>, correct: Option<int>) | NotDict

  function AsSessionValue(s: QuizState): SessionValue {
    Dict(Some(s.attempts), Some(s.correctAnswers))
  }

  /** An entry the statistics count: a "quiz_" key holding a dict with attempts > 0. */
  predicate Counted(entry: (string, SessionValue)) {
    StartsWith(entry.0, "quiz_") && entry.1.Dict? && entry.1.attempts.GetOr(0) > 0
  }

  datatype Stats = Stats(goalsAttempted: nat, totalAttempts: int, totalCorrect: int)

  /** Reference definition: the sums over the counted entries. */
  function StatsOf(entries: seq<(string, SessionValue)>): Stats
    decreases |entries|
  {
    if entries == [] then Stats(0, 0, 0)
    else
      var prior := StatsOf(entries[..|entries| - 1]);
      var e := entries[|entries| - 1];
      if Counted(e) then
        Stats(prior.goalsAttempted + 1, prior.totalAttempts + e.1.attempts.value, prior.totalCorrect + e.1.correct.GetOr(0))
      else prior
  }

  /** `render_quiz_statistics`: one pass over the session items; the accuracy
      exists only when some attempt was counted. */
  method QuizStatistics(entries: seq<(string, SessionValue)>) returns (stats: Stats, accuracy: Option<Ratio>)
    ensures stats == StatsOf(entries)
    ensures stats.goalsAttempted <= |entries| && stats.totalAttempts >= stats.goalsAttempted
    ensures accuracy.Some? <==> stats.totalAttempts > 0
    ensures accuracy.Some? ==> accuracy.value == Ratio(100 * stats.totalCorrect, stats.totalAttempts)
  {
    var goals := 0;
    var attempts := 0;
    var correct := 0;
    for i := 0 to |entries|
      invariant Stats(goals, attempts, correct) == StatsOf(entries[..i])
      invariant goals <= i && attempts >= goals
    {
      var (key, value) := entries[i];
      assert entries[..i + 1][..i] == entries[..i];
      if StartsWith(key, "quiz_") && value.Dict? && value.attempts.GetOr(0) > 0 {
        goals := goals + 1;
        attempts := attempts + value.attempts.value;
        correct := correct + value.correct.GetOr(0);
      }
    }
    assert entries[..|entries|] == entries;
    stats := Stats(goals, attempts, correct);
    accuracy := if attempts > 0 then Some(Ratio(100 * correct, attempts)) else None;
  }

  /** When every counted entry has 0 <= correct <= attempts, so do the totals. */
  lemma {:induction false} StatsBounded(entries: seq<(string, SessionValue)>)
    requires forall i :: 0 <= i < |entries| && Counted(entries[i]) ==>
               0 <= entries[i].1.correct.GetOr(0) <= entries[i].1.attempts.value
    ensures 0 <= StatsOf(entries).totalCorrect <= StatsOf(entries).totalAttempts
    decreases |entries|
  {
    if entries != [] {
      var init := entries[..|entries| - 1];
      assert forall i :: 0 <= i < |init| ==> init[i] == entries[i];
      StatsBounded(init);
    }
  }

  /** Sessions built from consistent quiz records report at most 100 percent. */
  lemma SessionAccuracyBounded(keys: seq<string>, states: seq<QuizState>)
    requires |keys| == |states|
    requires forall i :: 0 <= i < |states| ==> Consistent(states[i])
    ensures var entries := seq(|keys|, i requires 0 <= i < |keys| => (keys[i], AsSessionValue(states[i])));
            0 <= StatsOf(entries).totalCorrect <= StatsOf(entries).totalAttempts
  {
    var entries := seq(|keys|, i requires 0 <= i < |keys| => (keys[i], AsSessionValue(states[i])));
    StatsBounded(entries);
  }
}
