/** Quiz generation and answer evaluation (src/explainer/quiz_system.py).

    A question is the JSON object the source passes around as a dict; every
    key the source reads with `.get(key, default)` is an `Option` field.
    The language model, the API key, the file system and the clock are
    parameters: `hasClient` says whether an API key was found, `llm` and
    `scorer` stand for the chat-completion call followed by `json.loads`
    (`None` when either raises), and `exists`/`read` stand for the file checks.
 */
module QuizSystem {
  import opened Wrappers
  import opened Text
  import Prompts

  /** A JSON value as compared by Python's `==`: `True == 1` and `False == 0`. */
  datatype Value = IntV(i: int) | BoolV(b: bool) | StrV(s: string) | ListV(items: seq<string>)

  function AsNumber(v: Value): Option<int> {
    match v
    case IntV(i) => Some(i)
    case BoolV(b) => Some(if b then 1 else 0)
    case _ => None
  }

  /** Python's `a == b` on the values above. */
  predicate PyEq(a: Value, b: Value) {
    if AsNumber(a).Some? && AsNumber(b).Some? then AsNumber(a).value == AsNumber(b).value else a == b
  }

  /** Python truthiness. */
  predicate Truthy(v: Value) {
    match v
    case IntV(i) => i != 0
    case BoolV(b) => b
    case StrV(s) => s != ""
    case ListV(xs) => xs != []
  }

  datatype Question = Question(
    questionType: Option<string>,
    text: Option<string>,
    options: Option<seq<string>>,
    correctAnswer: Option<Value>,
    correctAnswers: Option<seq<string>>,
    explanation: Option<string>,
    sampleAnswer: Option<string>,
    keyPoints: Option<seq<string>>,
    language: Option<string>,
    isFallback: bool,
    basedOnContent: bool,
    difficultyLevel: Option<string>,
    adaptive: bool)

  /** The evaluation dict: `is_correct`, `feedback` and the optional keys
      `correct_answer`, `correct_answers` and `score`. */
  datatype Feedback = Feedback(
    isCorrect: bool,
    message: string,
    correctAnswer: Option<Value>,
    correctAnswers: Option<seq<string>>,
    score: Option<Ratio>)

  const CorrectPrefix: string := "✅ **Richtig!** "
  const WrongPrefix: string := "❌ **Falsch.** Die richtige Antwort ist: "
  const UnknownTypeMessage: string := "Unbekannter Fragetyp."
  const MissingBlanksMessage: string := "Bitte füllen Sie alle Lücken aus."
  const EmptyAnswerMessage: string := "Bitte geben Sie eine Antwort ein."
  const NoScorerMessage: string := "Bewertung nicht verfügbar."

  function Explanation(q: Question): string {
    q.explanation.GetOr("")
  }

  // ---------------------------------------------------------------------------
  // Multiple choice

  /** The option a wrong answer is told about: `options[correct]` with Python's
      negative indexing, "Unbekannt" when `correct >= len(options)`, and an
      IndexError when a negative index runs off the front. */
  function CorrectOptionText(options: seq<string>, correct: int): (r: Result<string, string>)
    ensures correct >= |options| ==> r == Success("Unbekannt")
    ensures 0 <= correct < |options| ==> r == Success(options[correct])
    ensures r.Failure? <==> correct < -|options|
    ensures -|options| <= correct < 0 ==> r == Success(options[|options| + correct])
  {
    if correct >= |options| then Success("Unbekannt")
    else if correct >= 0 then Success(options[correct])
    else if -correct <= |options| then Success(options[|options| + correct])
    else Failure("IndexError")
  }

  /** `_evaluate_multiple_choice`: correct iff the answer equals
      `correct_answer` (default 0); the result echoes `correct_answer`. */
  function EvaluateMultipleChoice(q: Question, answer: Value): (r: Result<Feedback, string>)
    ensures r.Success? ==> (r.value.isCorrect <==> PyEq(answer, q.correctAnswer.GetOr(IntV(0))))
    ensures r.Success? ==> r.value.correctAnswer == Some(q.correctAnswer.GetOr(IntV(0)))
    ensures r.Success? ==> r.value.score.None?
    ensures r.Success? && r.value.isCorrect ==> StartsWith(r.value.message, CorrectPrefix)
    ensures r.Success? && !r.value.isCorrect ==> StartsWith(r.value.message, WrongPrefix)
    ensures r.Failure? <==>
              !PyEq(answer, q.correctAnswer.GetOr(IntV(0))) &&
              (AsNumber(q.correctAnswer.GetOr(IntV(0))).None? ||
               AsNumber(q.correctAnswer.GetOr(IntV(0))).value < -|q.options.GetOr([])|)
  {
    var correct := q.correctAnswer.GetOr(IntV(0));
    if PyEq(answer, correct) then
      Affixes(CorrectPrefix, Explanation(q), CorrectPrefix);
      Success(Feedback(true, CorrectPrefix + Explanation(q), Some(correct), None, None))
    else if AsNumber(correct).None? then
      Failure("TypeError")
    else
      var option :- CorrectOptionText(q.options.GetOr([]), AsNumber(correct).value);
      var message := WrongPrefix + option + "\n\n" + Explanation(q);
      assert message == WrongPrefix + (option + "\n\n" + Explanation(q));
      Affixes(WrongPrefix, option + "\n\n" + Explanation(q), WrongPrefix);
      Success(Feedback(false, message, Some(correct), None, None))
  }

  /** A wrong answer names the correct option when it is in range, and
      "Unbekannt" when the index is past the end. */
  lemma WrongChoiceNamesOption(q: Question, answer: Value, k: int)
    requires q.correctAnswer == Some(IntV(k)) && !PyEq(answer, IntV(k))
    ensures 0 <= k < |q.options.GetOr([])| ==>
              EvaluateMultipleChoice(q, answer).Success? &&
              Contains(EvaluateMultipleChoice(q, answer).value.message, q.options.value[k])
    ensures k >= |q.options.GetOr([])| ==>
              EvaluateMultipleChoice(q, answer).Success? &&
              Contains(EvaluateMultipleChoice(q, answer).value.message, "Unbekannt")
  {
    var option := CorrectOptionText(q.options.GetOr([]), k);
    if option.Success? {
      ContainsMiddle(WrongPrefix, option.value, "\n\n" + Explanation(q));
      assert WrongPrefix + option.value + "\n\n" + Explanation(q)
          == WrongPrefix + option.value + ("\n\n" + Explanation(q));
    }
  }

  // ---------------------------------------------------------------------------
  // True / false

  /** `_evaluate_true_false`: correct iff the answer equals `correct_answer`
      (default True); the wrong-answer text names the truth value. */
  function EvaluateTrueFalse(q: Question, answer: Value): (r: Feedback)
    ensures r.isCorrect <==> PyEq(answer, q.correctAnswer.GetOr(BoolV(true)))
    ensures r.correctAnswer == Some(q.correctAnswer.GetOr(BoolV(true)))
    ensures r.isCorrect ==> StartsWith(r.message, CorrectPrefix)
    ensures !r.isCorrect ==> StartsWith(r.message, WrongPrefix + TruthWord(q.correctAnswer.GetOr(BoolV(true))))
  {
    var correct := q.correctAnswer.GetOr(BoolV(true));
    if PyEq(answer, correct) then
      Affixes(CorrectPrefix, Explanation(q), CorrectPrefix);
      Feedback(true, CorrectPrefix + Explanation(q), Some(correct), None, None)
    else
      var head := WrongPrefix + TruthWord(correct);
      Affixes(head, "\n\n" + Explanation(q), head);
      assert head + "\n\n" + Explanation(q) == head + ("\n\n" + Explanation(q));
      Feedback(false, head + "\n\n" + Explanation(q), Some(correct), None, None)
  }

  function TruthWord(v: Value): string {
    if Truthy(v) then "Richtig" else "Falsch"
  }

  // ---------------------------------------------------------------------------
  // Fill in the blanks

  /** Blank matching: equal after `strip()` and `lower()`. */
  predicate BlankMatches(given: string, expected: string) {
    Lower(Strip(given)) == Lower(Strip(expected))
  }

  /** The number of positions whose blanks match. */
  function MatchCount(given: seq<string>, expected: seq<string>): (n: nat)
    requires |given| == |expected|
    ensures n <= |expected|
    decreases |given|
  {
    if given == [] then 0
    else (if BlankMatches(given[0], expected[0]) then 1 else 0) + MatchCount(given[1..], expected[1..])
  }

  /** All blanks match exactly when the count reaches the number of blanks. */
  lemma {:induction false} MatchCountFull(given: seq<string>, expected: seq<string>)
    requires |given| == |expected|
    ensures MatchCount(given, expected) == |expected| <==>
            forall i :: 0 <= i < |given| ==> BlankMatches(given[i], expected[i])
    decreases |given|
  {
    if given != [] {
      MatchCountFull(given[1..], expected[1..]);
      if !BlankMatches(given[0], expected[0]) {
        assert MatchCount(given, expected) == MatchCount(given[1..], expected[1..]);
      } else {
        forall i | 0 < i < |given| && BlankMatches(given[1..][i - 1], expected[1..][i - 1])
          ensures BlankMatches(given[i], expected[i])
        {
        }
      }
    }
  }

  /** `len(user_answers)` and the items `zip` walks: a string answer is
      walked character by character; a number has no length. */
  function AnswerItems(answer: Value): Result<seq<string>, string> {
    match answer
    case ListV(xs) => Success(xs)
    case StrV(s) => Success(seq(|s|, i requires 0 <= i < |s| => [s[i]]))
    case _ => Failure("TypeError")
  }

  /** `_evaluate_fill_blank`: a count mismatch is wrong with no score;
      otherwise the score is 100 * matched / total, which raises
      ZeroDivisionError when there are no blanks at all. */
  function EvaluateFillBlank(q: Question, answer: Value): (r: Result<Feedback, string>)
    ensures AnswerItems(answer).Success? && |AnswerItems(answer).value| != |q.correctAnswers.GetOr([])| ==>
              r.Success? && !r.value.isCorrect && r.value.score.None?
    ensures r.Failure? <==>
              AnswerItems(answer).Failure? ||
              (q.correctAnswers.GetOr([]) == [] && AnswerItems(answer).value == [])
    ensures r.Success? ==> r.value.correctAnswers == Some(q.correctAnswers.GetOr([]))
    ensures r.Success? && r.value.score.Some? ==>
              var given := AnswerItems(answer).value;
              var expected := q.correctAnswers.GetOr([]);
              |given| == |expected| > 0 &&
              r.value.score.value == Ratio(100 * MatchCount(given, expected), |expected|) &&
              r.value.score.value.Valid() && r.value.score.value.Within(100) &&
              (r.value.isCorrect <==> forall i :: 0 <= i < |given| ==> BlankMatches(given[i], expected[i]))
    ensures AnswerItems(answer).Success? && |AnswerItems(answer).value| == |q.correctAnswers.GetOr([])| > 0 ==>
              var given := AnswerItems(answer).value;
              var expected := q.correctAnswers.GetOr([]);
              r.Success? && r.value.score == Some(Ratio(100 * MatchCount(given, expected), |expected|)) &&
              (r.value.isCorrect <==> forall i :: 0 <= i < |given| ==> BlankMatches(given[i], expected[i]))
  {
    var given :- AnswerItems(answer);
    var expected := q.correctAnswers.GetOr([]);
    if |given| != |expected| then
      Success(Feedback(false, MissingBlanksMessage, None, Some(expected), None))
    else
      var count := MatchCount(given, expected);
      MatchCountFull(given, expected);
      if |expected| == 0 then
        Failure("ZeroDivisionError")
      else
        var isCorrect := count == |expected|;
        var message :=
          if isCorrect then CorrectPrefix + Explanation(q)
          else "❌ **Teilweise richtig (" + NatToString(count) + "/" + NatToString(|expected|)
               + ").** Korrekte Antworten: " + Join(expected, ", ") + "\n\n" + Explanation(q);
        Success(Feedback(isCorrect, message, None, Some(expected), Some(Ratio(100 * count, |expected|))))
  }

  // ---------------------------------------------------------------------------
  // Open-ended

  /** `_evaluate_open_ended`. A blank answer, or no API key, scores 0 without
      calling the scorer; a scorer failure is given the benefit of the doubt
      (correct, score 75); otherwise the scorer's verdict is returned as is.
      `.strip()` on a non-string raises AttributeError. */
  function EvaluateOpenEnded(q: Question, answer: Value, hasClient: bool, sessionLanguage: string,
                             scorer: (string, string) -> Option<Feedback>): (r: Result<Feedback, string>)
    ensures r.Failure? <==> !answer.StrV?
    ensures answer.StrV? && (Strip(answer.s) == "" || !hasClient) ==>
              r == Success(Feedback(false, if Strip(answer.s) == "" then EmptyAnswerMessage else NoScorerMessage,
                                    None, None, Some(Ratio(0, 1))))
    ensures answer.StrV? && Strip(answer.s) != "" && hasClient ==>
              var language := q.language.GetOr(sessionLanguage);
              var verdict := scorer(Prompts.SystemPrompt("answer_evaluation", language),
                                    Prompts.EvaluationPrompt(q.text.GetOr(""), q.sampleAnswer.GetOr(""),
                                                             q.keyPoints.GetOr([]), answer.s, language));
              (verdict.Some? ==> r == Success(verdict.value)) &&
              (verdict.None? ==> r.Success? && r.value.isCorrect && r.value.score == Some(Ratio(75, 1)))
  {
    if !answer.StrV? then Failure("AttributeError")
    else if !hasClient || Strip(answer.s) == "" then
      Success(Feedback(false, if Strip(answer.s) == "" then EmptyAnswerMessage else NoScorerMessage,
                       None, None, Some(Ratio(0, 1))))
    else
      var language := q.language.GetOr(sessionLanguage);
      var prompt := Prompts.EvaluationPrompt(q.text.GetOr(""), q.sampleAnswer.GetOr(""),
                                             q.keyPoints.GetOr([]), answer.s, language);
      match scorer(Prompts.SystemPrompt("answer_evaluation", language), prompt)
      case Some(verdict) => Success(verdict)
      case None => Success(Feedback(true, "Ihre Antwort wurde eingereicht. " + Explanation(q), None, None, Some(Ratio(75, 1))))
  }

  /** A blank answer never reaches the scorer: any two scorers agree. */
  lemma BlankAnswerIgnoresScorer(q: Question, s: string, hasClient: bool, sessionLanguage: string,
                                 g1: (string, string) -> Option<Feedback>, g2: (string, string) -> Option<Feedback>)
    requires Strip(s) == ""
    ensures EvaluateOpenEnded(q, StrV(s), hasClient, sessionLanguage, g1)
         == EvaluateOpenEnded(q, StrV(s), hasClient, sessionLanguage, g2)
    ensures !EvaluateOpenEnded(q, StrV(s), hasClient, sessionLanguage, g1).value.isCorrect
  {
  }

  // ---------------------------------------------------------------------------
  // Dispatch

  function QuestionType(q: Question): string {
    q.questionType.GetOr("multiple_choice")
  }

  /** `evaluate_answer`: dispatch on `question_type` (default multiple_choice);
      an unrecognised type is never correct. */
  function EvaluateAnswer(q: Question, answer: Value, hasClient: bool, sessionLanguage: string,
                          scorer: (string, string) -> Option<Feedback>): (r: Result<Feedback, string>)
    ensures QuestionType(q) !in {"multiple_choice", "open_ended", "true_false", "fill_blank"} ==>
              r == Success(Feedback(false, UnknownTypeMessage, None, None, None))
    ensures q.questionType.None? ==> r == EvaluateMultipleChoice(q, answer)
    ensures QuestionType(q) == "multiple_choice" ==> r == EvaluateMultipleChoice(q, answer)
    ensures QuestionType(q) == "open_ended" ==> r == EvaluateOpenEnded(q, answer, hasClient, sessionLanguage, scorer)
    ensures QuestionType(q) == "true_false" ==> r == Success(EvaluateTrueFalse(q, answer))
    ensures QuestionType(q) == "fill_blank" ==> r == EvaluateFillBlank(q, answer)
    ensures QuestionType(q) == "multiple_choice" && r.Success? ==>
              (r.value.isCorrect <==> PyEq(answer, q.correctAnswer.GetOr(IntV(0))))
    ensures QuestionType(q) == "true_false" ==>
              r.Success? && (r.value.isCorrect <==> PyEq(answer, q.correctAnswer.GetOr(BoolV(true))))
    ensures QuestionType(q) == "fill_blank" && AnswerItems(answer).Success? &&
            |AnswerItems(answer).value| == |q.correctAnswers.GetOr([])| > 0 ==>
              r.Success? &&
              (r.value.isCorrect <==>
                 forall i :: 0 <= i < |AnswerItems(answer).value| ==>
                   BlankMatches(AnswerItems(answer).value[i], q.correctAnswers.GetOr([])[i]))
    ensures QuestionType(q) == "true_false" ==> r.Success? && r.value.correctAnswer.Some?
    ensures QuestionType(q) == "fill_blank" && r.Success? && r.value.score.Some? ==>
              r.value.score.value.Valid() && r.value.score.value.Within(100)
  {
    match QuestionType(q)
    case "multiple_choice" => EvaluateMultipleChoice(q, answer)
    case "open_ended" => EvaluateOpenEnded(q, answer, hasClient, sessionLanguage, scorer)
    case "true_false" => Success(EvaluateTrueFalse(q, answer))
    case "fill_blank" => EvaluateFillBlank(q, answer)
    case _ => Success(Feedback(false, UnknownTypeMessage, None, None, None))
  }

  // ---------------------------------------------------------------------------
  // Fallback question

  /** Python's `if not language:` fallback to the session's language. */
  function ResolveLanguage(language: string, sessionLanguage: string): string {
    if language == "" then sessionLanguage else language
  }

  const EnglishFallbackOptions: seq<string> := [
    "Understanding seal components",
    "Practical application of seals",
    "Theoretical analysis of seals",
    "All of the above points"]

  const GermanFallbackOptions: seq<string> := [
    "Das Verständnis der Siegelkomponenten",
    "Die praktische Anwendung von Siegeln",
    "Die theoretische Analyse von Siegeln",
    "Alle oben genannten Punkte"]

  /** The fixed shape every fallback question has. */
  predicate FallbackShape(q: Question) {
    q.questionType == Some("multiple_choice") && q.options.Some? && |q.options.value| == 4 &&
    q.correctAnswer == Some(IntV(3)) && q.isFallback && q.language.Some?
  }

  /** `_get_fallback_question`: a four-option multiple-choice question whose
      last option is correct, in English exactly for "English". */
  function FallbackQuestion(description: Option<string>, language: string, sessionLanguage: string): (q: Question)
    ensures FallbackShape(q)
    ensures q.language == Some(ResolveLanguage(language, sessionLanguage))
    ensures q.options == Some(if ResolveLanguage(language, sessionLanguage) == "English"
                              then EnglishFallbackOptions else GermanFallbackOptions)
    ensures q.text.Some? && (description.Some? ==> Contains(q.text.value, description.value))
    ensures !q.basedOnContent && !q.adaptive
  {
    var lang := ResolveLanguage(language, sessionLanguage);
    if lang == "English" then
      var d := description.GetOr("this learning objective");
      ContainsMiddle("What is the main goal of '", d, "'?");
      Question(Some("multiple_choice"), Some("What is the main goal of '" + d + "'?"),
               Some(EnglishFallbackOptions), Some(IntV(3)), None,
               Some("Learning objectives typically include both theoretical understanding and practical application."),
               None, None, Some(lang), true, false, None, false)
    else
      var d := description.GetOr("diesem Lernziel");
      ContainsMiddle("Was ist das Hauptziel von '", d, "'?");
      Question(Some("multiple_choice"), Some("Was ist das Hauptziel von '" + d + "'?"),
               Some(GermanFallbackOptions), Some(IntV(3)), None,
               Some("Lernziele umfassen typischerweise sowohl theoretisches Verständnis als auch praktische Anwendung."),
               None, None, Some(lang), true, false, None, false)
  }

  /** On a question of the fallback shape exactly the answer 3 is correct,
      and a wrong answer is told the fourth option. */
  lemma FallbackAnswerKey(q: Question, k: int)
    requires FallbackShape(q)
    ensures EvaluateMultipleChoice(q, IntV(k)).Success?
    ensures EvaluateMultipleChoice(q, IntV(k)).value.isCorrect <==> k == 3
    ensures k != 3 ==> Contains(EvaluateMultipleChoice(q, IntV(k)).value.message, q.options.value[3])
  {
    if k != 3 {
      WrongChoiceNamesOption(q, IntV(k), 3);
    }
  }

  // ---------------------------------------------------------------------------
  // Learning content files

  /** File stems of the learning material for goals 1..5. */
  function ContentStem(goalNumber: int): Option<string> {
    match goalNumber
    case 1 => Some("goal_1_components")
    case 2 => Some("goal_2_functions")
    case 3 => Some("goal_3_assembly")
    case 4 => Some("goal_4_analysis")
    case 5 => Some("goal_5_evaluation")
    case _ => None
  }

  /** `goal_files[goal_number]`: the `_en.md` file in English, the `.md` file otherwise. */
  function ContentFileName(goalNumber: int, language: string): (r: Option<string>)
    ensures r.Some? <==> 1 <= goalNumber <= 5
    ensures r.Some? ==> EndsWith(r.value, ".md")
    ensures r.Some? && language == "English" ==> EndsWith(r.value, "_en.md")
    ensures r.Some? && language != "English" ==> !EndsWith(r.value, "_en.md")
  {
    match ContentStem(goalNumber)
    case None => None
    case Some(stem) =>
      var name := stem + (if language == "English" then "_en.md" else ".md");
      assert name[|name| - 3..] == ".md";
      assert language == "English" ==> name[|name| - 6..] == "_en.md";
      assert language != "English" ==> name[|name| - 6] == stem[|stem| - 3] != '_';
      Some(name)
  }

  /** Distinct goals read distinct files. */
  lemma ContentFilesDistinct(a: int, b: int, language: string)
    requires ContentFileName(a, language).Some? && a != b
    ensures ContentFileName(a, language) != ContentFileName(b, language)
  {
    var fa := ContentFileName(a, language).value;
    if ContentFileName(b, language).Some? {
      assert fa[5] != ContentFileName(b, language).value[5];
    }
  }

  /** `_load_learning_content`: read the goal's file if it exists; a missing
      English file falls back to the German one. */
  function LoadLearningContent(goalNumber: int, language: string, fileExists: string -> bool,
                               read: string -> Option<string>): (r: Option<string>)
    ensures ContentFileName(goalNumber, language).None? ==> r.None?
    ensures ContentFileName(goalNumber, language).Some? && fileExists(ContentFileName(goalNumber, language).value) ==>
              r == read(ContentFileName(goalNumber, language).value)
    ensures language == "English" && ContentFileName(goalNumber, language).Some? &&
            !fileExists(ContentFileName(goalNumber, language).value) ==>
              r == (if fileExists(ContentFileName(goalNumber, "German").value)
                    then read(ContentFileName(goalNumber, "German").value) else None)
    ensures language != "English" && ContentFileName(goalNumber, language).Some? ==>
              (!fileExists(ContentFileName(goalNumber, language).value) ==> r.None?)
  {
    match ContentFileName(goalNumber, language)
    case None => None
    case Some(name) =>
      if fileExists(name) then read(name)
      else if language == "English" then
        var fallback := ContentStem(goalNumber).value + ".md";
        if fileExists(fallback) then read(fallback) else None
      else None
  }

  // ---------------------------------------------------------------------------
  // Generators

  /** The goal dict's `description`, defaulting to "". */
  function GoalDescription(description: Option<string>): string {
    description.GetOr("")
  }

  /** What the model is asked for the content-grounded question: the system
      prompt and the user prompt of `generate_quiz_question`. */
  function QuestionRequest(description: Option<string>, questionType: string, lang: string, content: string,
                           availableImages: string): (string, string) {
    (Prompts.SystemPrompt("question_generation", lang),
     Prompts.ContentBasedPrompt(GoalDescription(description), content, QuestionTypeOrDefault(questionType), lang,
                                availableImages))
  }

  /** `random.choice(self.question_types)` when no type is given: the list
      holds only "multiple_choice", so the choice is fixed. */
  function QuestionTypeOrDefault(questionType: string): string {
    if questionType == "" then "multiple_choice" else questionType
  }

  /** `generate_quiz_question`: falls back without a client, without content,
      or when the model call or its JSON fails; otherwise the model's question
      stamped with the type, the language and `based_on_content`. */
  function GenerateQuizQuestion(description: Option<string>, questionType: string, goalIndex: int, language: string,
                                sessionLanguage: string, hasClient: bool, availableImages: string,
                                fileExists: string -> bool, read: string -> Option<string>,
                                llm: (string, string) -> Option<Question>): (q: Question)
    ensures !hasClient ==> q == FallbackQuestion(description, language, sessionLanguage)
    ensures var content := LoadLearningContent(goalIndex + 1, ResolveLanguage(language, sessionLanguage), fileExists, read);
            hasClient && (content.None? || content.value == "") ==> q == FallbackQuestion(description, language, sessionLanguage)
    ensures var lang := ResolveLanguage(language, sessionLanguage);
            var content := LoadLearningContent(goalIndex + 1, lang, fileExists, read);
            hasClient && content.Some? && content.value != "" ==>
              var answer := llm(QuestionRequest(description, questionType, lang, content.value, availableImages).0,
                                QuestionRequest(description, questionType, lang, content.value, availableImages).1);
              (answer.None? ==> q == FallbackQuestion(description, language, sessionLanguage)) &&
              (answer.Some? ==> q == answer.value.(questionType := Some(QuestionTypeOrDefault(questionType)),
                                                   basedOnContent := true, language := Some(lang)))
  {
    if !hasClient then FallbackQuestion(description, language, sessionLanguage)
    else
      var lang := ResolveLanguage(language, sessionLanguage);
      var content := LoadLearningContent(goalIndex + 1, lang, fileExists, read);
      if content.None? || content.value == "" then FallbackQuestion(description, lang, sessionLanguage)
      else
        var request := QuestionRequest(description, questionType, lang, content.value, availableImages);
        match llm(request.0, request.1)
        case None => FallbackQuestion(description, lang, sessionLanguage)
        case Some(generated) =>
          generated.(questionType := Some(QuestionTypeOrDefault(questionType)), basedOnContent := true,
                     language := Some(lang))
  }

  /** The generated question is based on content exactly when a client and
      non-empty content were there and the model answered. */
  lemma GeneratedIffModelAnswered(description: Option<string>, questionType: string, goalIndex: int, language: string,
                                  sessionLanguage: string, hasClient: bool, availableImages: string,
                                  fileExists: string -> bool, read: string -> Option<string>,
                                  llm: (string, string) -> Option<Question>)
    ensures var q := GenerateQuizQuestion(description, questionType, goalIndex, language, sessionLanguage, hasClient,
                                          availableImages, fileExists, read, llm);
            var lang := ResolveLanguage(language, sessionLanguage);
            var content := LoadLearningContent(goalIndex + 1, lang, fileExists, read);
            q.basedOnContent <==>
              hasClient && content.Some? && content.value != "" &&
              llm(QuestionRequest(description, questionType, lang, content.value, availableImages).0,
                  QuestionRequest(description, questionType, lang, content.value, availableImages).1).Some?
  {
    var lang := ResolveLanguage(language, sessionLanguage);
    var content := LoadLearningContent(goalIndex + 1, lang, fileExists, read);
    if hasClient && content.Some? && content.value != "" {
      GeneratedWhenReady(description, questionType, goalIndex, language, sessionLanguage, availableImages,
                         fileExists, read, llm);
    }
  }

  lemma GeneratedWhenReady(description: Option<string>, questionType: string, goalIndex: int, language: string,
                           sessionLanguage: string, availableImages: string,
                           fileExists: string -> bool, read: string -> Option<string>,
                           llm: (string, string) -> Option<Question>)
    requires var content := LoadLearningContent(goalIndex + 1, ResolveLanguage(language, sessionLanguage), fileExists, read);
             content.Some? && content.value != ""
    ensures var lang := ResolveLanguage(language, sessionLanguage);
            var content := LoadLearningContent(goalIndex + 1, lang, fileExists, read).value;
            var request := QuestionRequest(description, questionType, lang, content, availableImages);
            GenerateQuizQuestion(description, questionType, goalIndex, language, sessionLanguage, true,
                                 availableImages, fileExists, read, llm).basedOnContent
            <==> llm(request.0, request.1).Some?
  {
  }

  /** What the model is asked for the adaptive question: the system prompt,
      and the multiple-choice content prompt followed by the instructions. */
  function AdaptiveRequest(description: Option<string>, difficultyLevel: string, askedQuestions: seq<string>,
                           subjectsCovered: seq<string>, lang: string, content: string,
                           availableImages: string): (string, string) {
    (Prompts.SystemPrompt("question_generation", lang),
     Prompts.ContentBasedPrompt(GoalDescription(description), content, "multiple_choice", lang, availableImages)
     + "\n\n" + AdaptiveInstructions(difficultyLevel, askedQuestions, subjectsCovered, lang))
  }

  /** `generate_adaptive_quiz_question`: the same fallbacks; a generated
      question is always multiple choice, adaptive and carries the requested
      difficulty. */
  function GenerateAdaptiveQuizQuestion(description: Option<string>, goalIndex: int, difficultyLevel: string,
                                        askedQuestions: seq<string>, subjectsCovered: seq<string>,
                                        language: string, sessionLanguage: string, hasClient: bool,
                                        availableImages: string, fileExists: string -> bool,
                                        read: string -> Option<string>,
                                        llm: (string, string) -> Option<Question>): (q: Question)
    ensures !hasClient ==> q == FallbackQuestion(description, language, sessionLanguage)
    ensures var content := LoadLearningContent(goalIndex + 1, ResolveLanguage(language, sessionLanguage), fileExists, read);
            hasClient && (content.None? || content.value == "") ==> q == FallbackQuestion(description, language, sessionLanguage)
    ensures var lang := ResolveLanguage(language, sessionLanguage);
            var content := LoadLearningContent(goalIndex + 1, lang, fileExists, read);
            hasClient && content.Some? && content.value != "" ==>
              var request := AdaptiveRequest(description, difficultyLevel, askedQuestions, subjectsCovered, lang,
                                             content.value, availableImages);
              (llm(request.0, request.1).None? ==> q == FallbackQuestion(description, language, sessionLanguage)) &&
              (llm(request.0, request.1).Some? ==>
                 q == llm(request.0, request.1).value.(questionType := Some("multiple_choice"), basedOnContent := true,
                                                       language := Some(lang), difficultyLevel := Some(difficultyLevel),
                                                       adaptive := true))
    ensures FallbackShape(q) || q.adaptive
  {
    if !hasClient then FallbackQuestion(description, language, sessionLanguage)
    else
      var lang := ResolveLanguage(language, sessionLanguage);
      var content := LoadLearningContent(goalIndex + 1, lang, fileExists, read);
      if content.None? || content.value == "" then FallbackQuestion(description, lang, sessionLanguage)
      else
        var request := AdaptiveRequest(description, difficultyLevel, askedQuestions, subjectsCovered, lang,
                                       content.value, availableImages);
        match llm(request.0, request.1)
        case None => FallbackQuestion(description, lang, sessionLanguage)
        case Some(generated) =>
          generated.(questionType := Some("multiple_choice"), basedOnContent := true, language := Some(lang),
                     difficultyLevel := Some(difficultyLevel), adaptive := true)
  }

  /** The adaptive question is adaptive exactly when a client and non-empty
      content were there and the model answered. */
  lemma AdaptiveIffModelAnswered(description: Option<string>, goalIndex: int, difficultyLevel: string,
                                 askedQuestions: seq<string>, subjectsCovered: seq<string>,
                                 language: string, sessionLanguage: string, hasClient: bool,
                                 availableImages: string, fileExists: string -> bool,
                                 read: string -> Option<string>,
                                 llm: (string, string) -> Option<Question>)
    ensures var q := GenerateAdaptiveQuizQuestion(description, goalIndex, difficultyLevel, askedQuestions, subjectsCovered,
                                                  language, sessionLanguage, hasClient, availableImages, fileExists,
                                                  read, llm);
            var lang := ResolveLanguage(language, sessionLanguage);
            var content := LoadLearningContent(goalIndex + 1, lang, fileExists, read);
            q.adaptive <==>
              hasClient && content.Some? && content.value != "" &&
              llm(AdaptiveRequest(description, difficultyLevel, askedQuestions, subjectsCovered, lang, content.value,
                                  availableImages).0,
                  AdaptiveRequest(description, difficultyLevel, askedQuestions, subjectsCovered, lang, content.value,
                                  availableImages).1).Some?
  {
    var lang := ResolveLanguage(language, sessionLanguage);
    var content := LoadLearningContent(goalIndex + 1, lang, fileExists, read);
    if hasClient && content.Some? && content.value != "" {
      AdaptiveWhenReady(description, goalIndex, difficultyLevel, askedQuestions, subjectsCovered, language,
                        sessionLanguage, availableImages, fileExists, read, llm);
    }
  }

  lemma AdaptiveWhenReady(description: Option<string>, goalIndex: int, difficultyLevel: string,
                          askedQuestions: seq<string>, subjectsCovered: seq<string>,
                          language: string, sessionLanguage: string,
                          availableImages: string, fileExists: string -> bool,
                          read: string -> Option<string>,
                          llm: (string, string) -> Option<Question>)
    requires var content := LoadLearningContent(goalIndex + 1, ResolveLanguage(language, sessionLanguage), fileExists, read);
             content.Some? && content.value != ""
    ensures var lang := ResolveLanguage(language, sessionLanguage);
            var content := LoadLearningContent(goalIndex + 1, lang, fileExists, read).value;
            var request := AdaptiveRequest(description, difficultyLevel, askedQuestions, subjectsCovered, lang,
                                           content, availableImages);
            GenerateAdaptiveQuizQuestion(description, goalIndex, difficultyLevel, askedQuestions, subjectsCovered,
                                         language, sessionLanguage, true, availableImages, fileExists,
                                         read, llm).adaptive
            <==> llm(request.0, request.1).Some?
  {
  }

  // ---------------------------------------------------------------------------
  // Adaptive instructions

  // Fixed instruction lines, English (En) and German (De).
  const MediumEn: string := "- Generate a MEDIUM difficulty question"
  const MediumFocusEn: string := "- Focus on clear identification and basic understanding"
  const MediumDe: string := "- Generiere eine MITTLERE Schwierigkeitsfrage"
  const MediumFocusDe: string := "- Fokus auf klare Identifikation und Grundverständnis"
  const HardEn: string := "- Generate a HARD difficulty question"
  const HardFocusEn: string := "- Include more complex scenarios or edge cases"
  const HardDe: string := "- Generiere eine SCHWERE Schwierigkeitsfrage"
  const HardFocusDe: string := "- Verwende komplexere Szenarien oder Grenzfälle"
  const OtherComponentsEn: string := "- Focus on DIFFERENT components: population frame, capital crown, location circle, state background"
  const OtherAspectsEn: string := "- If all subjects covered, use different aspects (size, color, position, meaning)"
  const OtherComponentsDe: string := "- Fokussiere auf ANDERE Komponenten: Bevölkerungsrahmen, Hauptstadtkrone, Lagekreis, Staatshintergrund"
  const OtherAspectsDe: string := "- Falls alle Themen behandelt, verwende andere Aspekte (Größe, Farbe, Position, Bedeutung)"
  const VaryEn: string := "- Vary the component type being tested"
  const VaryDe: string := "- Variiere den Komponententyp, der getestet wird"
  const NoRepeatEn: string := "- Do NOT repeat similar question patterns or focus areas"
  const DifferentAnglesEn: string := "- Use completely different components, images, or question angles"
  const SameTypeEn: string := "- If asking about the same component type, focus on different aspects"
  const NoRepeatDe: string := "- Wiederhole NICHT ähnliche Fragemuster oder Schwerpunkte"
  const DifferentAnglesDe: string := "- Verwende völlig andere Komponenten, Bilder oder Fragewinkel"
  const SameTypeDe: string := "- Falls du über denselben Komponententyp fragst, fokussiere auf andere Aspekte"

  /** The two difficulty lines for "medium" and "hard", none otherwise. */
  function DifficultyLines(difficultyLevel: string, english: bool): (lines: seq<string>)
    ensures |lines| == if difficultyLevel in {"medium", "hard"} then 2 else 0
  {
    if difficultyLevel == "medium" then
      if english then [MediumEn,
                       MediumFocusEn]
      else [MediumDe,
            MediumFocusDe]
    else if difficultyLevel == "hard" then
      if english then [HardEn,
                       HardFocusEn]
      else [HardDe,
            HardFocusDe]
    else []
  }

  /** Three lines naming the covered subjects, or one "vary" line when none are covered. */
  function SubjectLines(subjectsCovered: seq<string>, english: bool): (lines: seq<string>)
    ensures |lines| == if subjectsCovered != [] then 3 else 1
    ensures forall j :: 0 <= j < |subjectsCovered| ==> Contains(lines[0], subjectsCovered[j])
  {
    if subjectsCovered != [] then
      var covered := Join(subjectsCovered, ", ");
      var avoidHead := if english then "- AVOID these already covered subjects: "
                       else "- VERMEIDE diese bereits behandelten Themen: ";
      assert forall j :: 0 <= j < |subjectsCovered| ==> Contains(avoidHead + covered, subjectsCovered[j]) by {
        forall j | 0 <= j < |subjectsCovered| ensures Contains(avoidHead + covered, subjectsCovered[j]) {
          var at := JoinContains(subjectsCovered, ", ", j);
          ContainsConcat(avoidHead, covered, subjectsCovered[j]);
        }
      }
      if english then
        [avoidHead + covered,
         OtherComponentsEn,
         OtherAspectsEn]
      else
        [avoidHead + covered,
         OtherComponentsDe,
         OtherAspectsDe]
    else if english then [VaryEn]
    else [VaryDe]
  }

  /** Four anti-repetition lines quoting the number of asked questions, none
      when nothing was asked yet. */
  function RepetitionLines(askedQuestions: seq<string>, english: bool): (lines: seq<string>)
    ensures |lines| == if askedQuestions != [] then 4 else 0
    ensures askedQuestions != [] ==> Contains(lines[0], NatToString(|askedQuestions|))
  {
    if askedQuestions == [] then []
    else
      var count := NatToString(|askedQuestions|);
      var countHead := if english then "- CRITICAL: You have already asked " else "- KRITISCH: Du hast bereits ";
      var countTail := if english then " questions" else " Fragen gestellt";
      ContainsMiddle(countHead, count, countTail);
      if english then
        [countHead + count + countTail,
         NoRepeatEn,
         DifferentAnglesEn,
         SameTypeEn]
      else
        [countHead + count + countTail,
         NoRepeatDe,
         DifferentAnglesDe,
         SameTypeDe]
  }

  /** The lines `_create_adaptive_instructions` appends, before joining:
      a header, then the difficulty, subject and repetition blocks. */
  function AdaptiveInstructionLines(difficultyLevel: string, askedQuestions: seq<string>,
                                    subjectsCovered: seq<string>, language: string): (lines: seq<string>)
    ensures |lines| == 1 + (if difficultyLevel in {"medium", "hard"} then 2 else 0)
                         + (if subjectsCovered != [] then 3 else 1)
                         + (if askedQuestions != [] then 4 else 0)
    ensures lines[0] == (if language == "English" then "ADAPTIVE REQUIREMENTS:" else "ADAPTIVE ANFORDERUNGEN:")
    ensures askedQuestions != [] ==> Contains(lines[|lines| - 4], NatToString(|askedQuestions|))
    ensures var k := 1 + (if difficultyLevel in {"medium", "hard"} then 2 else 0);
            forall j :: 0 <= j < |subjectsCovered| ==> Contains(lines[k], subjectsCovered[j])
  {
    var english := language == "English";
    var header := if english then "ADAPTIVE REQUIREMENTS:" else "ADAPTIVE ANFORDERUNGEN:";
    var difficulty := DifficultyLines(difficultyLevel, english);
    var subjects := SubjectLines(subjectsCovered, english);
    var repetition := RepetitionLines(askedQuestions, english);
    var lines := [header] + difficulty + subjects + repetition;
    assert lines[1 + |difficulty|] == subjects[0];
    assert askedQuestions != [] ==> lines[|lines| - 4] == repetition[0];
    lines
  }

  /** `_create_adaptive_instructions`: the lines joined by newlines. The
      text opens with the header and shows every line, so the covered
      subjects and the number of asked questions reach the model. */
  function AdaptiveInstructions(difficultyLevel: string, askedQuestions: seq<string>,
                                subjectsCovered: seq<string>, language: string): (r: string)
    ensures StartsWith(r, if language == "English" then "ADAPTIVE REQUIREMENTS:" else "ADAPTIVE ANFORDERUNGEN:")
    ensures var lines := AdaptiveInstructionLines(difficultyLevel, askedQuestions, subjectsCovered, language);
            forall i :: 0 <= i < |lines| ==> Contains(r, lines[i])
    ensures forall j :: 0 <= j < |subjectsCovered| ==> Contains(r, subjectsCovered[j])
    ensures askedQuestions != [] ==> Contains(r, NatToString(|askedQuestions|))
  {
    var lines := AdaptiveInstructionLines(difficultyLevel, askedQuestions, subjectsCovered, language);
    var text := Join(lines, "\n");
    JoinShowsEveryPart(lines, "\n");
    JoinStartsWithFirst(lines, "\n");
    var k := 1 + (if difficultyLevel in {"medium", "hard"} then 2 else 0);
    assert forall j :: 0 <= j < |subjectsCovered| ==> Contains(text, subjectsCovered[j]) by {
      forall j | 0 <= j < |subjectsCovered| ensures Contains(text, subjectsCovered[j]) {
        ContainsTransitive(text, lines[k], subjectsCovered[j]);
      }
    }
    if askedQuestions != [] then
      ContainsTransitive(text, lines[|lines| - 4], NatToString(|askedQuestions|));
      text
    else
      text
  }
}
