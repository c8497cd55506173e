/** The helpers of `ExplainerUtils` (src/explainer/explainer_utils.py): input
    validation, file-name cleaning, reading time, topic suggestions, the
    progress circles, API-response validation, session statistics and the
    badge and icon lookups.
 */
module ExplainerUtils {
  import opened Wrappers
  import opened Text
  import Utils

  // ---------------------------------------------------------------------------
  // validate_topic_input

  const TopicMissing := "Bitte geben Sie ein Thema ein."
  const TopicTooShort := "Das Thema sollte mindestens 3 Zeichen lang sein."
  const TopicTooLong := "Das Thema sollte nicht länger als 200 Zeichen sein."
  const TopicBadChars := "Das Thema enthält ungültige Zeichen."

  /** The characters `[<>{}[\]\\]` matches. */
  const TopicForbidden: set<char> := {'<', '>', '{', '}', '[', ']', '\\'}

  /** `re.search(r'[<>{}[\]\\]', topic)`: some character of the unstripped text is forbidden. */
  predicate HasForbidden(topic: string) {
    exists i :: 0 <= i < |topic| && topic[i] in TopicForbidden
  }

  /** A topic the validation accepts: not blank, 3 to 200 characters once
      stripped, and no forbidden character anywhere (the unstripped text is searched). */
  predicate ValidTopic(topic: string) {
    !Blank(topic) && 3 <= |Strip(topic)| <= 200 && !HasForbidden(topic)
  }

  /** `validate_topic_input`: `(True, "")` for a valid topic, otherwise
      `False` with the message of the first check that fails. */
  function ValidateTopicInput(topic: string): (r: (bool, string))
    ensures r.0 <==> ValidTopic(topic)
    ensures r.0 <==> r.1 == ""
    ensures Blank(topic) ==> r.1 == TopicMissing
    ensures !Blank(topic) && |Strip(topic)| < 3 ==> r.1 == TopicTooShort
    ensures !Blank(topic) && |Strip(topic)| > 200 ==> r.1 == TopicTooLong
    ensures !Blank(topic) && 3 <= |Strip(topic)| <= 200 && HasForbidden(topic) ==> r.1 == TopicBadChars
  {
    StripBlank(topic);
    var t := Strip(topic);
    if topic == [] || t == [] then (false, TopicMissing)
    else if |t| < 3 then (false, TopicTooShort)
    else if |t| > 200 then (false, TopicTooLong)
    else if HasForbidden(topic) then (false, TopicBadChars)
    else (true, "")
  }

  // ---------------------------------------------------------------------------
  // create_complexity_badge, get_explanation_type_icon

  const UnknownBadge := "⚪ Unbekannt"

  const Badges: map<string, string> := map[
    "beginner" := "🟢 Anfänger",
    "intermediate" := "🟡 Fortgeschritten",
    "advanced" := "🔴 Experte"
  ]

  /** `badges.get(level, "⚪ Unbekannt")`: the default is no badge of a known level. */
  function ComplexityBadge(level: string): (r: string)
    ensures r == UnknownBadge <==> level !in Badges
    ensures level in Badges ==> r == Badges[level]
  {
    if level in Badges then Badges[level] else UnknownBadge
  }

  const UnknownIcon := "❓"

  const Icons: map<string, string> := map[
    "concept" := "💡",
    "process" := "⚙️",
    "comparison" := "⚖️",
    "example" := "📝",
    "visualization" := "📊"
  ]

  /** `icons.get(explanation_type, "❓")`: the default is no icon of a known type. */
  function ExplanationTypeIcon(explanationType: string): (r: string)
    ensures r == UnknownIcon <==> explanationType !in Icons
    ensures explanationType in Icons ==> r == Icons[explanationType]
  {
    if explanationType in Icons then Icons[explanationType] else UnknownIcon
  }

  // ---------------------------------------------------------------------------
  // create_topic_suggestions

  /** The eight expansions of a topic, in the source's order. */
  function Expansions(base: string): seq<string> {
    [ base + " Grundlagen",
      base + " Anwendungen",
      base + " vs. traditionelle Methoden",
      "Praktische " + base + " Beispiele",
      base + " Tools und Frameworks",
      "Zukunft von " + base,
      base + " Herausforderungen",
      "Ethik in " + base ]
  }

  /** `create_topic_suggestions`: the first five expansions. */
  function TopicSuggestions(base: string): (r: seq<string>)
    ensures |r| == 5
    ensures forall i :: 0 <= i < 5 ==> r[i] == Expansions(base)[i]
  {
    Expansions(base)[..5]
  }

  /** Every suggestion mentions the base topic. */
  lemma SuggestionsMentionBase(base: string)
    ensures forall s :: s in TopicSuggestions(base) ==> Contains(s, base)
  {
    var r := TopicSuggestions(base);
    forall i | 0 <= i < 5 ensures Contains(r[i], base) {
      if i == 3 {
        ContainsMiddle("Praktische ", base, " Beispiele");
      } else {
        var suffix := r[i][|base|..];
        assert r[i] == [] + base + suffix;
        ContainsMiddle([], base, suffix);
      }
    }
  }

  // ---------------------------------------------------------------------------
  // validate_api_response

  const MissingSuccess := "Fehlendes Feld in API-Antwort: success"
  const SuccessWithoutExplanation := "Erfolgreiche Antwort ohne Erklärung"
  const FailureWithoutError := "Fehlerhafte Antwort ohne Fehlermeldung"

  /** A response is modelled by its keys, each mapped to the truthiness of its
      value; only the truthiness of "success" is read. */
  type Response = map<string, bool>

  /** `validate_api_response`: a "success" field is required; a truthy one
      needs an "explanation", a falsy one an "error". */
  function ValidateApiResponse(response: Response): (r: (bool, string))
    ensures r.0 <==> "success" in response &&
                     ("explanation" in response || !response["success"]) &&
                     ("error" in response || response["success"])
    ensures r.0 <==> r.1 == ""
    ensures "success" !in response ==> r.1 == MissingSuccess
    ensures "success" in response && response["success"] && "explanation" !in response ==>
              r.1 == SuccessWithoutExplanation
    ensures "success" in response && !response["success"] && "error" !in response ==>
              r.1 == FailureWithoutError
  {
    if "success" !in response then (false, MissingSuccess)
    else if response["success"] && "explanation" !in response then (false, SuccessWithoutExplanation)
    else if !response["success"] && "error" !in response then (false, FailureWithoutError)
    else (true, "")
  }
  // ---------------------------------------------------------------------------
  // sanitize_filename

  /** The characters `strip('._')` removes from both ends. */
  const DotUnderscore: set<char> := {'.', '_'}

  /** The name before the 100-character cut: unsafe characters become '_',
      whitespace runs become one '_', and dots and underscores are stripped
      from both ends. */
  function Cleaned(filename: string): string {
    StripChars(SqueezeRuns(ReplaceIn(filename, Utils.Unsafe, '_'), Whitespace, '_'), DotUnderscore)
  }

  /** `sanitize_filename`: the cleaned name cut to 100 characters. A name of
      at most 100 characters is never cut, so every character of it that is
      safe, not whitespace and neither a dot nor an underscore is kept. */
  function SanitizeFilename(filename: string): (r: string)
    ensures |r| <= 100
    ensures |filename| <= 100 ==>
              forall x :: x in filename && x !in Utils.Unsafe && !IsSpace(x) && x !in DotUnderscore ==> x in r
  {
    CleanedChars(filename);
    var c := Cleaned(filename);
    if |c| <= 100 then c else c[..100]
  }

  /** No unsafe character and no whitespace. */
  predicate PlainChars(s: string) {
    forall i :: 0 <= i < |s| ==> s[i] !in Utils.Unsafe && !IsSpace(s[i])
  }

  /** A name `sanitize_filename` leaves unchanged: at most 100 characters,
      no unsafe or whitespace character, and no dot or underscore at either end. */
  predicate SanitizedName(s: string) {
    |s| <= 100 && PlainChars(s) &&
    (s != [] ==> s[0] !in DotUnderscore && s[|s| - 1] !in DotUnderscore)
  }

  lemma CleanedChars(filename: string)
    ensures forall x :: x in Cleaned(filename) ==> x == '_' || x in filename
    ensures PlainChars(Cleaned(filename))
    ensures |Cleaned(filename)| <= |filename|
    ensures forall x :: x in filename && x !in Utils.Unsafe && !IsSpace(x) && x !in DotUnderscore ==>
              x in Cleaned(filename)
  {
    var replaced := ReplaceIn(filename, Utils.Unsafe, '_');
    var squeezed := SqueezeRuns(replaced, Whitespace, '_');
    var c := StripChars(squeezed, DotUnderscore);
    ReplaceInKeepsOthers(filename, Utils.Unsafe, '_');
    SqueezeRunsKeepsOthers(replaced, Whitespace, '_');
    StripCharsKeepsOthers(squeezed, DotUnderscore);
    ReplaceInChars(filename, Utils.Unsafe, '_');
    SqueezeRunsChars(replaced, Whitespace, '_');
    StripCharsKeeps(squeezed, DotUnderscore, {});
    Utils.UnderscoreIsSafe();
    forall i | 0 <= i < |c| ensures c[i] !in Utils.Unsafe && !IsSpace(c[i]) {
      assert c[i] in c;
    }
  }

  lemma PrefixPlain(c: string, k: nat)
    requires k <= |c| && PlainChars(c)
    ensures PlainChars(c[..k])
  {
  }

  /** The result holds no unsafe character and no whitespace, keeps within
      100 characters, and starts with neither a dot nor an underscore; every
      character is an underscore or comes from the input. */
  lemma SanitizeFilenameShape(filename: string)
    ensures var r := SanitizeFilename(filename);
            |r| <= 100 && PlainChars(r) &&
            (r != [] ==> r[0] !in DotUnderscore) &&
            (forall x :: x in r ==> x == '_' || x in filename)
  {
    var c := Cleaned(filename);
    var r := SanitizeFilename(filename);
    CleanedChars(filename);
    assert r == c[..|r|];
    PrefixPlain(c, |r|);
    forall x | x in r ensures x in c {
      var i :| 0 <= i < |r| && r[i] == x;
      assert c[i] == x;
    }
  }

  /** The names `sanitize_filename` leaves unchanged are exactly the sanitized ones. */
  lemma SanitizeFilenameFixedPoints(s: string)
    ensures SanitizeFilename(s) == s <==> SanitizedName(s)
  {
    if SanitizedName(s) {
      ReplaceInNoop(s, Utils.Unsafe, '_');
      SqueezeRunsNoop(s, Whitespace, '_');
      StripCharsNoop(s, DotUnderscore);
    }
    if SanitizeFilename(s) == s {
      var c := Cleaned(s);
      CleanedChars(s);
      assert |c| <= 100;
      assert c == s;
    }
  }

  /** A cleaned name longer than 100 characters whose 100th character is a
      dot or an underscore is cut to a name that ends with it, so cleaning
      the result again changes it. */
  lemma SanitizeFilenameNotIdempotent(filename: string)
    requires |Cleaned(filename)| > 100 && Cleaned(filename)[99] in DotUnderscore
    ensures SanitizeFilename(SanitizeFilename(filename)) != SanitizeFilename(filename)
  {
    SanitizeFilenameFixedPoints(SanitizeFilename(filename));
  }

  /** For instance 99 letters followed by "_b": the first pass keeps the
      underscore as the 100th character, the second strips it. */
  lemma SanitizeFilenameNotIdempotentExample()
    ensures var name := seq(99, _ => 'a') + "_b";
            SanitizeFilename(SanitizeFilename(name)) != SanitizeFilename(name)
  {
    var name := seq(99, _ => 'a') + "_b";
    assert forall i :: 0 <= i < |name| ==> name[i] !in Utils.Unsafe && !IsSpace(name[i]);
    ReplaceInNoop(name, Utils.Unsafe, '_');
    SqueezeRunsNoop(name, Whitespace, '_');
    StripCharsNoop(name, DotUnderscore);
    assert Cleaned(name) == name;
    SanitizeFilenameNotIdempotent(name);
  }

  // ---------------------------------------------------------------------------
  // estimate_reading_time

  function Abs(x: int): nat {
    if x < 0 then -x else x
  }

  /** Python's `round(n / d)`: the nearest integer, ties to the even one.
      The quotient of a word count by 200 is exact in binary floating point
      at every tie, so the float rounding does not show. */
  function RoundHalfEven(n: nat, d: nat): (r: nat)
    requires d > 0
    ensures 2 * Abs(n - r * d) <= d
    ensures 2 * Abs(n - r * d) == d ==> r % 2 == 0
  {
    var q := Quotient(n, d);
    QuotientBounds(n, d);
    MulSucc(q, d);
    var rem := n - q * d;
    if 2 * rem < d then q
    else if 2 * rem > d then q + 1
    else if q % 2 == 0 then q
    else q + 1
  }

  lemma QuotientBounds(n: nat, d: nat)
    requires d > 0
    ensures 0 <= n - Quotient(n, d) * d < d
  {
  }

  lemma MulSucc(a: int, d: int)
    ensures (a + 1) * d == a * d + d
  {
  }

  lemma MulMono(a: nat, b: nat, d: nat)
    ensures a <= b ==> a * d <= b * d
  {
  }

  /** Nearest with ties to even determines the result: any other candidate
      is a whole `d` further from `n`, and of two neighbours at a tie only
      one is even. */
  lemma RoundHalfEvenUnique(n: nat, d: nat, r: nat)
    requires d > 0
    requires 2 * Abs(n - r * d) <= d
    requires 2 * Abs(n - r * d) == d ==> r % 2 == 0
    ensures r == RoundHalfEven(n, d)
  {
    var s := RoundHalfEven(n, d);
    if r < s {
      Closer(n, d, r, s);
    } else if s < r {
      Closer(n, d, s, r);
    }
  }

  /** Two multiples of `d` both within half a `d` of `n` are neighbours at a
      tie, so they cannot both be even. */
  lemma Closer(n: nat, d: nat, a: nat, b: nat)
    requires d > 0 && a < b
    requires 2 * Abs(n - a * d) <= d && 2 * Abs(n - b * d) <= d
    ensures 2 * Abs(n - a * d) == d && 2 * Abs(n - b * d) == d && b == a + 1
  {
    var x := a * d;
    var y := b * d;
    MulMono(a + 1, b, d);
    MulSucc(a, d);
    assert x + d <= y;
    if b > a + 1 {
      MulMono(a + 2, b, d);
      MulSucc(a + 1, d);
      assert false;
    }
  }

  /** Average reading speed in words per minute. */
  const WordsPerMinute := 200

  /** `estimate_reading_time`: 0 for empty text, otherwise the rounded
      minutes at 200 words a minute, but at least one. */
  function EstimateReadingTime(text: string): (r: nat)
    ensures r == 0 <==> text == []
    ensures text != [] ==> (r == 1 <==> WordCount(text) < 300)
    ensures r > 1 ==> 2 * Abs(WordCount(text) - r * WordsPerMinute) <= WordsPerMinute
    ensures r > 1 && 2 * Abs(WordCount(text) - r * WordsPerMinute) == WordsPerMinute ==> r % 2 == 0
  {
    if text == [] then 0
    else
      var minutes := RoundHalfEven(WordCount(text), WordsPerMinute);
      if minutes < 1 then 1 else minutes
  }

  /** 500 words lie halfway between 2 and 3 minutes; the tie goes to 2. */
  lemma ReadingTimeTie(text: string)
    requires WordCount(text) == 500
    ensures EstimateReadingTime(text) == 2
  {
  }

  // ---------------------------------------------------------------------------
  // create_progress_indicator

  const FilledCircle := '🔵'
  const EmptyCircle := '⚪'

  /** `int(x)` of a quotient: division truncating toward zero, so the
      magnitude is the quotient of the magnitudes rounded down and the sign
      is that of the quotient. */
  function TruncDiv(a: int, b: int): (q: int)
    requires b != 0
    ensures Abs(q) == Quotient(Abs(a), Abs(b))
    ensures q < 0 ==> (a < 0) != (b < 0)
    ensures q > 0 ==> (a < 0) == (b < 0)
  {
    var m: int := Quotient(Abs(a), Abs(b));
    if (a < 0) != (b < 0) then -m else m
  }

  /** Division of naturals, rounding down. */
  function Quotient(x: nat, y: nat): nat
    requires y > 0
  {
    x / y
  }

  /** `int(min(100, current / total * 100) / 20)` in exact arithmetic: the
      filled circles, five once the ratio reaches one. */
  function FilledCircles(current: int, total: int): (f: int)
    requires total != 0
    ensures total > 0 && current >= 0 ==> 0 <= f <= 5
    ensures total > 0 && current >= total ==> f == 5
    ensures total > 0 && 0 <= current < total ==> f * total <= 5 * current < (f + 1) * total
  {
    if (total > 0 && current >= total) || (total < 0 && current <= total) then 5
    else
      var f := TruncDiv(5 * current, total);
      if total > 0 && current >= 0 then
        QuotientBounds(5 * current, total);
        MulSucc(f, total);
        MulMono(5, f, total);
        f
      else f
  }

  /** `c * n`: Python repeats a string zero times for a count below one. */
  function Repeat(c: char, n: int): (r: string)
    ensures |r| == if n > 0 then n else 0
    ensures forall i :: 0 <= i < |r| ==> r[i] == c
    decreases n
  {
    if n <= 0 then [] else [c] + Repeat(c, n - 1)
  }

  /** The circles of `create_progress_indicator`: all empty when `total` is
      0, otherwise the filled circles and then `5 - filled` empty ones. The
      percentage text after them is not modelled. */
  function ProgressCircles(current: int, total: int): (r: string)
    ensures total == 0 ==> r == [EmptyCircle, EmptyCircle, EmptyCircle, EmptyCircle, EmptyCircle]
    ensures total > 0 && current >= 0 ==>
              |r| == 5 && (forall i :: 0 <= i < 5 ==> (r[i] == FilledCircle <==> i < FilledCircles(current, total)))
    ensures total > 0 && current >= total ==> r == [FilledCircle, FilledCircle, FilledCircle, FilledCircle, FilledCircle]
  {
    if total == 0 then Repeat(EmptyCircle, 5)
    else
      var f := FilledCircles(current, total);
      Repeat(FilledCircle, f) + Repeat(EmptyCircle, 5 - f)
  }

  /** For a non-negative ratio there are always five circles, the first `f`
      filled, with `f` the ratio's share of five rounded down. */
  lemma ProgressCirclesFive(current: int, total: int)
    requires total > 0 && current >= 0
    ensures var r := ProgressCircles(current, total);
            var f := FilledCircles(current, total);
            |r| == 5 &&
            (forall i :: 0 <= i < f ==> r[i] == FilledCircle) &&
            (forall i :: f <= i < 5 ==> r[i] == EmptyCircle) &&
            (current < total ==> f * total <= 5 * current < (f + 1) * total)
  {
  }

  /** A negative `current` of at least a fifth of `total` truncates to a
      negative filled count, which draws no filled circle and more than five
      empty ones. */
  lemma NegativeProgressOverdraws(current: int, total: int)
    requires total > 0 && 5 * current <= -total
    ensures |ProgressCircles(current, total)| > 5
  {
    var f := FilledCircles(current, total);
    assert f < 0;
  }
  // ---------------------------------------------------------------------------
  // calculate_session_stats

  /** An activity record: its "action" and "topic" entries, when present.
      Values are modelled as strings. */
  datatype Activity = Activity(action: Option<string>, topic: Option<string>)

  /** `activity.get("action", "unknown")` */
  function ActionOf(a: Activity): string {
    a.action.GetOr("unknown")
  }

  datatype SessionStats = SessionStats(
    totalActivities: nat,
    sessionDuration: nat,
    mostCommonType: string,
    topicsExplored: nat)

  /** The statistics of an empty session. */
  const NoStats := SessionStats(0, 0, "N/A", 0)

  /** Minutes each activity is assumed to take. */
  const MinutesPerActivity := 2

  /** Reference definition: how many activities have action `t`. */
  function CountOf(acts: seq<Activity>, t: string): nat
    decreases |acts|
  {
    if acts == [] then 0
    else CountOf(acts[..|acts| - 1], t) + (if ActionOf(acts[|acts| - 1]) == t then 1 else 0)
  }

  /** Reference definition: the actions in order of first occurrence, which
      is the key order of the counting dict. */
  function TypesOf(acts: seq<Activity>): seq<string>
    decreases |acts|
  {
    if acts == [] then []
    else
      var prior := TypesOf(acts[..|acts| - 1]);
      var t := ActionOf(acts[|acts| - 1]);
      if t in prior then prior else prior + [t]
  }

  /** Reference definition: the distinct topics of the activities that have one. */
  function TopicsOf(acts: seq<Activity>): set<string>
    decreases |acts|
  {
    if acts == [] then {}
    else
      var prior := TopicsOf(acts[..|acts| - 1]);
      match acts[|acts| - 1].topic
      case Some(t) => prior + {t}
      case None => prior
  }

  /** Where action `t` first occurs, or `|acts|` when it never does. */
  function FirstIndex(acts: seq<Activity>, t: string): (f: nat)
    ensures f <= |acts|
    ensures f < |acts| ==> ActionOf(acts[f]) == t
    ensures forall i :: 0 <= i < f ==> ActionOf(acts[i]) != t
    decreases |acts|
  {
    if acts == [] then 0
    else if ActionOf(acts[0]) == t then 0
    else 1 + FirstIndex(acts[1..], t)
  }

  /** The action Python's `max` picks: a most frequent one, and among
      equally frequent ones the first to occur. */
  predicate MostCommon(acts: seq<Activity>, m: string) {
    FirstIndex(acts, m) < |acts| &&
    forall i :: 0 <= i < |acts| ==>
      CountOf(acts, ActionOf(acts[i])) < CountOf(acts, m) ||
      (CountOf(acts, ActionOf(acts[i])) == CountOf(acts, m) && FirstIndex(acts, m) <= i)
  }

  /** At most one action is the most common one. */
  lemma MostCommonUnique(acts: seq<Activity>, m1: string, m2: string)
    requires MostCommon(acts, m1) && MostCommon(acts, m2)
    ensures m1 == m2
  {
    var f1 := FirstIndex(acts, m1);
    var f2 := FirstIndex(acts, m2);
    assert CountOf(acts, ActionOf(acts[f2])) <= CountOf(acts, m1);
    assert CountOf(acts, ActionOf(acts[f1])) <= CountOf(acts, m2);
  }

  /** The types list every action once, in order of first occurrence. */
  lemma {:induction false} TypesOfOrder(acts: seq<Activity>)
    ensures forall t :: t in TypesOf(acts) <==> FirstIndex(acts, t) < |acts|
    ensures forall j, k :: 0 <= j < k < |TypesOf(acts)| ==>
              FirstIndex(acts, TypesOf(acts)[j]) < FirstIndex(acts, TypesOf(acts)[k])
    decreases |acts|
  {
    if acts != [] {
      var init := acts[..|acts| - 1];
      var last := ActionOf(acts[|acts| - 1]);
      TypesOfOrder(init);
      FirstIndexExtend(init, acts);
    }
  }

  /** Appending one activity keeps every earlier first occurrence, and a new
      action first occurs at the end. */
  lemma FirstIndexExtend(init: seq<Activity>, acts: seq<Activity>)
    requires acts != [] && init == acts[..|acts| - 1]
    ensures forall t :: FirstIndex(acts, t) ==
              if FirstIndex(init, t) < |init| then FirstIndex(init, t)
              else if ActionOf(acts[|acts| - 1]) == t then |init|
              else |acts|
  {
    forall t ensures FirstIndex(acts, t) ==
                       if FirstIndex(init, t) < |init| then FirstIndex(init, t)
                       else if ActionOf(acts[|acts| - 1]) == t then |init|
                       else |acts|
    {
      FirstIndexAppend(init, acts, t);
    }
  }

  lemma {:induction false} FirstIndexAppend(init: seq<Activity>, acts: seq<Activity>, t: string)
    requires acts != [] && init == acts[..|acts| - 1]
    ensures FirstIndex(acts, t) ==
              if FirstIndex(init, t) < |init| then FirstIndex(init, t)
              else if ActionOf(acts[|acts| - 1]) == t then |init|
              else |acts|
    decreases |acts|
  {
    if init != [] && ActionOf(acts[0]) != t {
      assert init[0] == acts[0];
      FirstIndexAppend(init[1..], acts[1..], t);
    }
  }
  /** The topics are exactly those some activity carries. */
  lemma {:induction false} TopicsOfMembers(acts: seq<Activity>, t: string)
    ensures t in TopicsOf(acts) <==> exists i :: 0 <= i < |acts| && acts[i].topic == Some(t)
    decreases |acts|
  {
    if acts != [] {
      var init := acts[..|acts| - 1];
      TopicsOfMembers(init, t);
      assert forall i :: 0 <= i < |init| ==> init[i] == acts[i];
    }
  }

  /** The reference definitions one activity further on. */
  lemma TallyStep(acts: seq<Activity>, i: nat)
    requires i < |acts|
    ensures forall u :: CountOf(acts[..i + 1], u) == CountOf(acts[..i], u) + (if ActionOf(acts[i]) == u then 1 else 0)
    ensures TypesOf(acts[..i + 1]) ==
              if ActionOf(acts[i]) in TypesOf(acts[..i]) then TypesOf(acts[..i]) else TypesOf(acts[..i]) + [ActionOf(acts[i])]
    ensures TopicsOf(acts[..i + 1]) ==
              if acts[i].topic.Some? then TopicsOf(acts[..i]) + {acts[i].topic.value} else TopicsOf(acts[..i])
  {
    assert acts[..i + 1][..i] == acts[..i];
  }

  /** The counting loop: the actions in first-occurrence order with their
      counts, and the set of topics. */
  method Tally(acts: seq<Activity>) returns (keys: seq<string>, counts: map<string, nat>, topics: set<string>)
    ensures keys == TypesOf(acts)
    ensures forall t :: t in counts <==> t in keys
    ensures forall t :: t in counts ==> counts[t] == CountOf(acts, t)
    ensures topics == TopicsOf(acts)
  {
    keys := [];
    counts := map[];
    topics := {};
    for i := 0 to |acts|
      invariant keys == TypesOf(acts[..i])
      invariant forall t :: t in counts <==> t in keys
      invariant forall t :: t in counts ==> counts[t] == CountOf(acts[..i], t)
      invariant forall t :: t !in counts ==> CountOf(acts[..i], t) == 0
      invariant topics == TopicsOf(acts[..i])
    {
      TallyStep(acts, i);
      var t := acts[i].action.GetOr("unknown");
      if t in counts {
        counts := counts[t := counts[t] + 1];
      } else {
        keys := keys + [t];
        counts := counts[t := 1];
      }
      if acts[i].topic.Some? {
        topics := topics + {acts[i].topic.value};
      }
    }
    assert acts[..|acts|] == acts;
  }

  /** `max(type_counts.items(), key=lambda x: x[1])`: the position of the
      first key with the largest count. */
  method FirstMaximum(keys: seq<string>, counts: map<string, nat>) returns (best: nat)
    requires keys != []
    requires forall j :: 0 <= j < |keys| ==> keys[j] in counts
    ensures best < |keys|
    ensures forall j :: 0 <= j < best ==> counts[keys[j]] < counts[keys[best]]
    ensures forall j :: best <= j < |keys| ==> counts[keys[j]] <= counts[keys[best]]
  {
    best := 0;
    for k := 1 to |keys|
      invariant best < |keys|
      invariant forall j :: 0 <= j < best ==> counts[keys[j]] < counts[keys[best]]
      invariant forall j :: best <= j < k ==> counts[keys[j]] <= counts[keys[best]]
    {
      if counts[keys[k]] > counts[keys[best]] {
        best := k;
      }
    }
  }

  /** The first key with the largest count is the most common action. */
  lemma FirstMaximumIsMostCommon(acts: seq<Activity>, keys: seq<string>, counts: map<string, nat>, best: nat)
    requires keys == TypesOf(acts) && best < |keys|
    requires forall t :: t in counts <==> t in keys
    requires forall t :: t in counts ==> counts[t] == CountOf(acts, t)
    requires forall j :: 0 <= j < best ==> counts[keys[j]] < counts[keys[best]]
    requires forall j :: best <= j < |keys| ==> counts[keys[j]] <= counts[keys[best]]
    ensures MostCommon(acts, keys[best])
  {
    var m := keys[best];
    TypesOfOrder(acts);
    forall i | 0 <= i < |acts|
      ensures CountOf(acts, ActionOf(acts[i])) < CountOf(acts, m) ||
              (CountOf(acts, ActionOf(acts[i])) == CountOf(acts, m) && FirstIndex(acts, m) <= i)
    {
      var t := ActionOf(acts[i]);
      assert FirstIndex(acts, t) <= i;
      assert t in keys;
      var j :| 0 <= j < |keys| && keys[j] == t;
      assert counts[t] == CountOf(acts, t) && counts[m] == CountOf(acts, m);
      if j < best {
        assert counts[keys[j]] < counts[m];
      } else if j > best {
        assert FirstIndex(acts, keys[best]) < FirstIndex(acts, keys[j]);
      }
    }
  }

  /** `calculate_session_stats`: the defaults for no activities; otherwise
      the number of activities, two minutes per activity, the most common
      action (the first to occur among equally common ones, as `max` keeps
      the first maximum of the insertion-ordered counts) and the number of
      distinct topics. */
  method CalculateSessionStats(acts: seq<Activity>) returns (stats: SessionStats)
    ensures acts == [] ==> stats == NoStats
    ensures acts != [] ==> stats.totalActivities == |acts| &&
                           stats.sessionDuration == MinutesPerActivity * |acts| &&
                           MostCommon(acts, stats.mostCommonType) &&
                           stats.topicsExplored == |TopicsOf(acts)|
  {
    if acts == [] {
      return NoStats;
    }
    var keys, counts, topics := Tally(acts);
    TypesOfOrder(acts);
    assert ActionOf(acts[0]) in keys;
    var best := FirstMaximum(keys, counts);
    FirstMaximumIsMostCommon(acts, keys, counts, best);
    stats := SessionStats(|acts|, MinutesPerActivity * |acts|, keys[best], |topics|);
  }
}
