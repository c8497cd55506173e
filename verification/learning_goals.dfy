/** Learning goals and per-user progress (src/explainer/learning_goals_manager.py).

    The goals file is read elsewhere; parsing starts from its text. The
    Streamlit session is the `Session` record: one progress map per user
    (the session key `learning_progress_<user>`) and the shared update log
    (`learning_goal_logs`). Log timestamps are not modelled.
 */
module LearningGoals {
  import opened Wrappers
  import opened Text

  /** A goal parsed from line `number` (1-based) of the goals file. */
  datatype Goal = Goal(number: nat, description: string)

  /** The goal dict's `id`, `number` and `title` strings. */
  function Id(g: Goal): string {
    "goal_" + NatToString(g.number)
  }

  function NumberText(g: Goal): string {
    NatToString(g.number)
  }

  function Title(g: Goal): string {
    "Lernziel " + NatToString(g.number)
  }

  /** Goals from different lines have different ids. */
  lemma IdsDistinct(g: Goal, h: Goal)
    requires g.number != h.number
    ensures Id(g) != Id(h)
  {
    if Id(g) == Id(h) {
      assert Id(g)[5..] == NatToString(g.number);
      assert Id(h)[5..] == NatToString(h.number);
      NatToStringInjective(g.number, h.number);
    }
  }

  // ---------------------------------------------------------------------------
  // Parsing

  /** A line that, once stripped, starts with "- ". */
  predicate IsBullet(line: string) {
    StartsWith(Strip(line), "- ")
  }

  /** The goal text of a bullet line: what follows "- ", stripped. */
  function BulletText(line: string): string
    requires IsBullet(line)
  {
    Strip(Strip(line)[2..])
  }

  /** The goal text of a line, if it is a bullet; never empty, because the
      stripped line ends with a non-space character after the "- ". */
  function BulletOf(line: string): (r: Option<string>)
    ensures r.Some? <==> IsBullet(line)
    ensures r.Some? ==> r.value == BulletText(line) && r.value != []
  {
    if IsBullet(line) then
      var t := Strip(line);
      var rest := t[2..];
      assert |t| >= 3 by {
        assert t[..2][1] == ' ';
      }
      assert rest[|rest| - 1] == t[|t| - 1];
      Some(BulletText(line))
    else None
  }

  /** Goals for the bullet texts of consecutive lines, the first of which is
      line `base + 1` of the file: in line order, each numbered by the line
      that holds its bullet. */
  function GoalsFrom(texts: seq<Option<string>>, base: nat): (goals: seq<Goal>)
    ensures |goals| <= |texts|
    ensures forall k :: 0 <= k < |goals| ==> base < goals[k].number <= base + |texts|
    ensures forall k :: 0 <= k < |goals| ==> texts[goals[k].number - base - 1] == Some(goals[k].description)
    ensures forall j, k :: 0 <= j < k < |goals| ==> goals[j].number < goals[k].number
    decreases |texts|
  {
    if texts == [] then []
    else
      var rest := GoalsFrom(texts[1..], base + 1);
      forall k | 0 <= k < |rest|
        ensures texts[rest[k].number - base - 1] == Some(rest[k].description)
      {
        assert texts[1..][rest[k].number - (base + 1) - 1] == Some(rest[k].description);
      }
      match texts[0]
      case Some(d) => [Goal(base + 1, d)] + rest
      case None => rest
  }

  /** Every bullet yields a goal numbered by its line. */
  lemma {:induction false} GoalsFromComplete(texts: seq<Option<string>>, base: nat, g: Goal)
    requires base < g.number <= base + |texts| && texts[g.number - base - 1] == Some(g.description)
    ensures g in GoalsFrom(texts, base)
    decreases |texts|
  {
    if g.number > base + 1 {
      assert texts[1..][g.number - (base + 1) - 1] == texts[g.number - base - 1];
      GoalsFromComplete(texts[1..], base + 1, g);
    }
  }

  /** Every goal comes from the bullet on its own line. */
  lemma GoalsFromSound(texts: seq<Option<string>>, g: Goal)
    requires g in GoalsFrom(texts, 0)
    ensures 1 <= g.number <= |texts| && texts[g.number - 1] == Some(g.description)
  {
    var goals := GoalsFrom(texts, 0);
    var k :| 0 <= k < |goals| && goals[k] == g;
  }

  /** A goal is produced exactly when its line holds a bullet with its text. */
  lemma GoalsFromExact(texts: seq<Option<string>>, g: Goal)
    ensures g in GoalsFrom(texts, 0) <==> 1 <= g.number <= |texts| && texts[g.number - 1] == Some(g.description)
  {
    if g in GoalsFrom(texts, 0) {
      GoalsFromSound(texts, g);
    }
    if 1 <= g.number <= |texts| && texts[g.number - 1] == Some(g.description) {
      GoalsFromComplete(texts, 0, g);
    }
  }

  /** The lines of the goals file: `content.strip().split('\n')`. */
  function Lines(content: string): seq<string> {
    Split(Strip(content), '\n')
  }

  function BulletTexts(lines: seq<string>): (texts: seq<Option<string>>)
    ensures |texts| == |lines|
    ensures forall i :: 0 <= i < |lines| ==> texts[i] == BulletOf(lines[i])
    ensures forall i :: 0 <= i < |texts| && texts[i].Some? ==> texts[i].value != []
  {
    seq(|lines|, i requires 0 <= i < |lines| => BulletOf(lines[i]))
  }

  /** `_load_learning_goals` on the file's text: one goal per bullet line, in
      file order, numbered by line (non-bullet lines leave gaps). */
  function ParseGoals(content: string): (goals: seq<Goal>)
    ensures forall j, k :: 0 <= j < k < |goals| ==> goals[j].number < goals[k].number
    ensures forall j, k :: 0 <= j < k < |goals| ==> Id(goals[j]) != Id(goals[k])
    ensures forall k :: 0 <= k < |goals| ==> goals[k].description != []
  {
    var texts := BulletTexts(Lines(content));
    var goals := GoalsFrom(texts, 0);
    forall j, k | 0 <= j < k < |goals|
      ensures Id(goals[j]) != Id(goals[k])
    {
      IdsDistinct(goals[j], goals[k]);
    }
    goals
  }

  /** The goals are exactly the bullet lines, each numbered by its line. */
  lemma ParseGoalsExact(content: string, g: Goal)
    ensures g in ParseGoals(content) <==>
              1 <= g.number <= |Lines(content)| && BulletOf(Lines(content)[g.number - 1]) == Some(g.description)
  {
    var texts := BulletTexts(Lines(content));
    assert ParseGoals(content) == GoalsFrom(texts, 0);
    GoalsFromExact(texts, g);
  }

  // ---------------------------------------------------------------------------
  // Progress

  type Progress = map<string, bool>

  /** One `learning_goal_update` log record (timestamp left out). */
  datatype LogEntry = LogEntry(userId: string, goalId: string, completed: bool)

  datatype Session = Session(progress: map<string, Progress>, logs: seq<LogEntry>)

  function GoalIds(goals: seq<Goal>): set<string> {
    set k | 0 <= k < |goals| :: Id(goals[k])
  }

  /** `get_user_progress`: on first access every goal id is set to False and
      stored; afterwards the stored map is returned and nothing changes. */
  function GetUserProgress(goals: seq<Goal>, s: Session, user: string): (r: (Progress, Session))
    ensures user in s.progress ==> r == (s.progress[user], s)
    ensures user !in s.progress ==>
              r.0.Keys == GoalIds(goals) && (forall id :: id in r.0 ==> !r.0[id]) &&
              r.1 == s.(progress := s.progress[user := r.0])
    ensures user in r.1.progress && r.1.progress[user] == r.0 && r.1.logs == s.logs
  {
    if user in s.progress then (s.progress[user], s)
    else
      var initial := map id | id in GoalIds(goals) :: false;
      (initial, s.(progress := s.progress[user := initial]))
  }

  /** Asking twice gives the same answer and leaves the session as the first call left it. */
  lemma GetUserProgressStable(goals: seq<Goal>, s: Session, user: string)
    ensures var first := GetUserProgress(goals, s, user);
            GetUserProgress(goals, first.1, user) == first
  {
  }

  /** `update_goal_progress` with `_log_progress_update`: sets exactly this
      goal of this user (starting from an empty map when the user has none)
      and appends one log record. */
  function UpdateGoalProgress(s: Session, user: string, goalId: string, completed: bool): (r: Session)
    ensures user in r.progress && goalId in r.progress[user] && r.progress[user][goalId] == completed
    ensures forall id :: id != goalId ==>
              (id in r.progress[user] <==> user in s.progress && id in s.progress[user])
    ensures forall id :: id != goalId && id in r.progress[user] ==> r.progress[user][id] == s.progress[user][id]
    ensures forall u :: u != user ==> (u in r.progress <==> u in s.progress)
    ensures forall u :: u != user && u in s.progress ==> r.progress[u] == s.progress[u]
    ensures r.logs == s.logs + [LogEntry(user, goalId, completed)]
  {
    var current := if user in s.progress then s.progress[user] else map[];
    Session(s.progress[user := current[goalId := completed]], s.logs + [LogEntry(user, goalId, completed)])
  }

  /** Repeating an update leaves the progress as one update left it, but
      the log records both calls. */
  lemma UpdateProgressIdempotentLogGrows(s: Session, user: string, goalId: string, completed: bool)
    ensures var once := UpdateGoalProgress(s, user, goalId, completed);
            var twice := UpdateGoalProgress(once, user, goalId, completed);
            twice.progress == once.progress && |twice.logs| == |s.logs| + 2
  {
    var once := UpdateGoalProgress(s, user, goalId, completed);
    var twice := UpdateGoalProgress(once, user, goalId, completed);
    assert once.progress[user][goalId := completed] == once.progress[user];
  }

  // ---------------------------------------------------------------------------
  // Statistics and suggestion

  function CompletedIds(p: Progress): set<string> {
    set id | id in p && p[id]
  }

  datatype ProgressStats = ProgressStats(totalGoals: nat, completedGoals: nat, percentage: Ratio, remainingGoals: int)

  /** `get_progress_statistics`: counts the True entries of the user's
      progress (initialising it if needed); the percentage is 0 without goals. */
  function ProgressStatistics(goals: seq<Goal>, s: Session, user: string): (r: (ProgressStats, Session))
    ensures var p := GetUserProgress(goals, s, user).0;
            r.0.totalGoals == |goals| && r.0.completedGoals == |CompletedIds(p)| &&
            r.0.remainingGoals == r.0.totalGoals - r.0.completedGoals
    ensures |goals| == 0 ==> r.0.percentage == Ratio(0, 1)
    ensures |goals| > 0 ==> r.0.percentage == Ratio(100 * r.0.completedGoals, |goals|)
    ensures r.0.percentage.Valid()
    ensures r.1 == GetUserProgress(goals, s, user).1
  {
    var (p, s') := GetUserProgress(goals, s, user);
    var completed := |CompletedIds(p)|;
    var percentage := if |goals| > 0 then Ratio(100 * completed, |goals|) else Ratio(0, 1);
    (ProgressStats(|goals|, completed, percentage, |goals| - completed), s')
  }

  lemma {:induction false} GoalIdsBound(goals: seq<Goal>)
    ensures |GoalIds(goals)| <= |goals|
    decreases |goals|
  {
    if goals != [] {
      GoalIdsBound(goals[..|goals| - 1]);
      assert GoalIds(goals) == GoalIds(goals[..|goals| - 1]) + {Id(goals[|goals| - 1])} by {
        forall id | id in GoalIds(goals)
          ensures id in GoalIds(goals[..|goals| - 1]) + {Id(goals[|goals| - 1])}
        {
          var k :| 0 <= k < |goals| && Id(goals[k]) == id;
          if k < |goals| - 1 {
            assert goals[..|goals| - 1][k] == goals[k];
          }
        }
      }
    }
  }

  /** While the progress only mentions goal ids, the completed count stays
      within the goal count and the percentage within 100. */
  lemma StatisticsBounded(goals: seq<Goal>, s: Session, user: string)
    requires user in s.progress ==> s.progress[user].Keys <= GoalIds(goals)
    ensures var st := ProgressStatistics(goals, s, user).0;
            0 <= st.remainingGoals && st.percentage.Within(100)
  {
    var p := GetUserProgress(goals, s, user).0;
    assert CompletedIds(p) <= GoalIds(goals);
    GoalIdsBound(goals);
    SubsetCard(CompletedIds(p), GoalIds(goals));
  }

  lemma SubsetCard<T>(a: set<T>, b: set<T>)
    requires a <= b
    ensures |a| <= |b|
  {
    assert b == a + (b - a);
  }

  /** Without the key restriction the counts disagree: a stale completed id
      and no goals give -1 remaining goals. */
  lemma StaleProgressOvercounts()
    ensures ProgressStatistics([], Session(map["u" := map["goal_1" := true]], []), "u").0.remainingGoals == -1
  {
    var p: Progress := map["goal_1" := true];
    assert CompletedIds(p) == {"goal_1"};
  }

  /** `progress.get(goal_id, False)` */
  predicate Done(p: Progress, g: Goal) {
    Id(g) in p && p[Id(g)]
  }

  /** The first goal in list order that is not marked complete. */
  function FirstOpenGoal(goals: seq<Goal>, p: Progress): (r: Option<nat>)
    ensures r.Some? ==> r.value < |goals| && !Done(p, goals[r.value]) &&
                        forall j :: 0 <= j < r.value ==> Done(p, goals[j])
    ensures r.None? <==> forall j :: 0 <= j < |goals| ==> Done(p, goals[j])
    decreases |goals|
  {
    if goals == [] then None
    else if !Done(p, goals[0]) then Some(0)
    else match FirstOpenGoal(goals[1..], p)
      case None => None
      case Some(k) => Some(k + 1)
  }

  /** `get_next_goal_suggestion`: the first incomplete goal, or None when all are done. */
  function NextGoalSuggestion(goals: seq<Goal>, s: Session, user: string): (r: (Option<Goal>, Session))
    ensures var p := GetUserProgress(goals, s, user).0;
            (r.0.None? <==> forall j :: 0 <= j < |goals| ==> Done(p, goals[j])) &&
            (r.0.Some? ==> exists k :: 0 <= k < |goals| && goals[k] == r.0.value && !Done(p, goals[k]) &&
                                       forall j :: 0 <= j < k ==> Done(p, goals[j]))
    ensures r.1 == GetUserProgress(goals, s, user).1
  {
    var (p, s') := GetUserProgress(goals, s, user);
    match FirstOpenGoal(goals, p)
    case None => (None, s')
    case Some(k) => (Some(goals[k]), s')
  }

  /** A user seen for the first time is pointed at the first goal. */
  lemma NewUserStartsAtFirstGoal(goals: seq<Goal>, s: Session, user: string)
    requires user !in s.progress && goals != []
    ensures NextGoalSuggestion(goals, s, user).0 == Some(goals[0])
  {
    var p := GetUserProgress(goals, s, user).0;
    assert Id(goals[0]) in GoalIds(goals);
    assert !Done(p, goals[0]);
  }
}
