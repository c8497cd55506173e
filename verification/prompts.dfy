/** Prompt templates and their lookups (src/explainer/prompts_config.py).
    A template is modelled as the sequence of pieces Python's `str.format`
    sees: literal text (already brace-unescaped) and named slots.
 */
module Prompts {
  import opened Wrappers
  import opened Text

  datatype Piece = Lit(text: string) | Slot(name: string)

  type Template = seq<Piece>

  /** Every slot of `t` has a binding, so `format` raises no KeyError. */
  predicate Bound(t: Template, env: map<string, string>) {
    forall i :: 0 <= i < |t| && t[i].Slot? ==> t[i].name in env
  }

  predicate HasSlot(t: Template, name: string) {
    exists i :: 0 <= i < |t| && t[i] == Slot(name)
  }

  /** One piece as `format` writes it: a literal as is, a slot as its binding. */
  function Show(p: Piece, env: map<string, string>): string
    requires p.Slot? ==> p.name in env
  {
    match p
    case Lit(s) => s
    case Slot(n) => env[n]
  }

  /** `template.format(**env)`: every literal piece of the template is
      written out unchanged. */
  function Render(t: Template, env: map<string, string>): (r: string)
    requires Bound(t, env)
    ensures forall i :: 0 <= i < |t| && t[i].Lit? ==> Contains(r, t[i].text)
    decreases |t|
  {
    if t == [] then ""
    else
      var head := Show(t[0], env);
      var rest := Render(t[1..], env);
      assert forall i :: 0 <= i < |t| && t[i].Lit? ==> Contains(head + rest, t[i].text) by {
        forall i | 0 <= i < |t| && t[i].Lit? ensures Contains(head + rest, t[i].text) {
          if i > 0 {
            assert t[1..][i - 1] == t[i];
          }
          ContainsConcat(head, rest, t[i].text);
        }
      }
      head + rest
  }

  /** Formatting shows the binding of every slot of the template. */
  lemma {:induction false} RenderShowsSlot(t: Template, env: map<string, string>, i: nat)
    requires Bound(t, env) && i < |t| && t[i].Slot?
    ensures Contains(Render(t, env), env[t[i].name])
    decreases |t|
  {
    var head := match t[0] case Lit(s) => s case Slot(n) => env[n];
    assert Render(t, env) == head + Render(t[1..], env);
    if i == 0 {
      ContainsConcat(head, Render(t[1..], env), env[t[i].name]);
    } else {
      RenderShowsSlot(t[1..], env, i - 1);
      ContainsConcat(head, Render(t[1..], env), env[t[i].name]);
    }
  }

  /** The format string a template was written as: literal braces doubled,
      slots as `{name}`. */
  function Raw(t: Template): string
    decreases |t|
  {
    if t == [] then ""
    else (match t[0] case Lit(s) => Escape(s) case Slot(n) => "{" + n + "}") + Raw(t[1..])
  }

  function Escape(s: string): string
    decreases |s|
  {
    if s == [] then ""
    else (if s[0] == '{' then "{{" else if s[0] == '}' then "}}" else [s[0]]) + Escape(s[1..])
  }

  lemma {:induction false} EscapeConcat(a: string, b: string)
    ensures Escape(a + b) == Escape(a) + Escape(b)
    decreases |a|
  {
    if a != [] {
      assert (a + b)[1..] == a[1..] + b;
      EscapeConcat(a[1..], b);
    } else {
      assert a + b == b;
    }
  }

  /** Text without braces is written as is. */
  lemma {:induction false} EscapePlain(s: string)
    requires '{' !in s && '}' !in s
    ensures Escape(s) == s
    decreases |s|
  {
    if s != [] {
      EscapePlain(s[1..]);
    }
  }

  /** System prompt for the "question_generation" context. */
  const QuestionGenerationSystem: Template :=
    [Lit(ExpertRole), Slot("language"), Lit(" and in JSON format.")]

  /** System prompt for the "answer_evaluation" context. */
  const AnswerEvaluationSystem: Template :=
    [Lit(TeacherRole), Slot("language"), Lit(".")]

  /** Base prompt for content-grounded question generation. */
  const BaseContentTemplate: Template :=
    [Lit(BaseIntro), Slot("goal_description"), Lit(BaseContentHeader), Slot("learning_content"),
     Lit(BaseInstructions), Slot("available_images"), Lit(BaseImageRules), Slot("language"), Lit(".\n")]

  /** Base prompt of the legacy (content-free) generator. */
  const LegacyBaseTemplate: Template :=
    [Lit(LegacyIntro), Slot("goal_description"), Lit(LegacyDetailsHeader), Slot("goal_details"),
     Lit(LegacyInstructions), Slot("language"), Lit(".\n")]

  /** Prompt for scoring an open-ended answer. */
  const AnswerEvaluationTemplate: Template :=
    [Lit(EvalIntro), Slot("question"), Lit(EvalSampleHeader), Slot("sample_answer"),
     Lit(EvalKeyPointsHeader), Slot("key_points"), Lit(EvalStudentHeader), Slot("user_answer"),
     Lit(EvalInstructions), Slot("language"), Lit(EvalJsonShape)]

  // Literal pieces of the templates above, after brace un-escaping.

  const ExpertRole: string :=
    @"You are an expert on seals and create learning questions based on specific learning content. Always respond in "

  const TeacherRole: string :=
    @"You are a teacher and evaluate student answers constructively in "

  const BaseIntro: string :=
    @"
Create a learning question based on the following learning content:

Learning Goal: "

  const BaseContentHeader: string :=
    @"

LEARNING CONTENT:
"

  const BaseInstructions: string :=
    @"

CRITICAL INSTRUCTION: Your question must STRICTLY match the learning goal's intent. Analyze the learning goal carefully:

Here are a few examples:
- If the goal mentions ""name"" or ""identify"" components → Ask ONLY for identification/naming (e.g., ""What is this component called?"")
- If the goal mentions ""function"" or ""purpose"" → Ask ONLY about what components do
- If the goal mentions ""assembly"" or ""creation"" → Ask ONLY about how to put things together
- If the goal mentions ""analysis"" or ""evaluation"" → Ask ONLY about analyzing or comparing
Ensure that you strictly follow the learning goal at hand.

DO NOT mix different types of questions. If the learning goal is about naming components, do NOT ask about function, usage, or selection. Only ask for the name/identification.

Use concrete details, terms, and concepts from the provided text. The question should check whether the student has really read and understood the content.

You can include images in your questions using the placeholder format: {{IMAGE:path/filename.png}}

AVAILABLE IMAGES:
"

  const BaseImageRules: string :=
    @"

When asking about component identification/naming, ALWAYS include an image of the component using {{IMAGE:path/filename.png}} and ask ""What is this component called?"" or similar identification questions.

Respond in "

  const LegacyIntro: string :=
    @"
Create a learning question for the following learning goal:

Learning Goal: "

  const LegacyDetailsHeader: string :=
    @"
Details: "

  const LegacyInstructions: string :=
    @"

The question should test understanding of the learning goal and relate to seals, their creation, components, or analysis.

Respond in "

  const EvalIntro: string :=
    @"
Evaluate the following answer to a learning question:

Question: "

  const EvalSampleHeader: string :=
    @"
Sample Answer: "

  const EvalKeyPointsHeader: string :=
    @"
Key Points: "

  const EvalStudentHeader: string :=
    @"

Student's Answer: "

  const EvalInstructions: string :=
    @"

Rate the answer on a scale of 0-100 and provide constructive feedback.

Respond in JSON format in "

  const EvalJsonShape: string :=
    @":
{
    ""score"": 85,
    ""is_correct"": true,
    ""feedback"": ""Detailed feedback here"",
    ""missing_points"": [""What is missing""],
    ""good_points"": [""What was good""]
}
"

  /** Type block appended for "multiple_choice" (used verbatim, never formatted). */
  const MultipleChoiceBlock: string :=
    @"

Create a multiple-choice question with 4 answer options.

STRICT REQUIREMENT: Your question type must match the learning goal exactly:
- For NAMING/IDENTIFICATION goals: Ask ""What is this component called?"" with an image
- For FUNCTION goals: Ask ""What does this component do?""
- For ASSEMBLY goals: Ask ""How is this assembled?""
- For ANALYSIS goals: Ask ""How do you analyze this?""

You can include images in your question using: {{{{IMAGE:path/filename.png}}}}
For identification questions, ALWAYS include an image: ""What is this component called? {{{{IMAGE:component_type/filename.png}}}}""

Respond in the following JSON format:
{
    ""question"": ""The question here (with optional {{{{IMAGE:path}}}} placeholders)"",
    ""options"": [""Option A"", ""Option B"", ""Option C"", ""Option D""],
    ""correct_answer"": 0,
    ""explanation"": ""Explanation why this answer is correct""
}
"

  /** Type block appended for "true_false" (used verbatim, never formatted). */
  const TrueFalseBlock: string :=
    @"

Create a true/false question.

Respond in the following JSON format:
{
    ""question"": ""The statement here"",
    ""correct_answer"": true,
    ""explanation"": ""Explanation why this answer is correct/incorrect""
}
"

  /** Type block appended for "fill_blank" (used verbatim, never formatted). */
  const FillBlankBlock: string :=
    @"

Create a fill-in-the-blank question with 1-3 blanks.

Respond in the following JSON format:
{
    ""question"": ""Text with _____ blanks here"",
    ""correct_answers"": [""Answer for blank 1"", ""Answer for blank 2""],
    ""explanation"": ""Explanation of the correct answers""
}
"

  const SystemTemplates: map<string, Template> :=
    map["question_generation" := QuestionGenerationSystem,
        "answer_evaluation" := AnswerEvaluationSystem]

  const TypeBlocks: map<string, string> :=
    map["multiple_choice" := MultipleChoiceBlock,
        "true_false" := TrueFalseBlock,
        "fill_blank" := FillBlankBlock]

  /** `QUESTION_TYPE_PROMPTS.get(question_type, QUESTION_TYPE_PROMPTS["multiple_choice"])` */
  function TypeBlock(questionType: string): (r: string)
    ensures questionType == "true_false" ==> r == TrueFalseBlock
    ensures questionType == "fill_blank" ==> r == FillBlankBlock
    ensures questionType !in {"true_false", "fill_blank"} ==> r == MultipleChoiceBlock
  {
    if questionType in TypeBlocks then TypeBlocks[questionType] else TypeBlocks["multiple_choice"]
  }

  /** `get_system_prompt`: the template for `context`, or the question-generation
      one for an unknown context, with the language filled in. */
  function SystemPrompt(context: string, language: string): (r: string)
    ensures Contains(r, language)
    ensures context == "answer_evaluation" ==> StartsWith(r, TeacherRole)
    ensures context != "answer_evaluation" ==> StartsWith(r, ExpertRole)
  {
    var t := if context in SystemTemplates then SystemTemplates[context] else SystemTemplates["question_generation"];
    var env := map["language" := language];
    RenderShowsSlot(t, env, 1);
    var r := Render(t, env);
    assert r == t[0].text + Render(t[1..], env);
    assert r[..|t[0].text|] == t[0].text;
    r
  }

  lemma UnknownContextUsesQuestionGeneration(context: string, language: string)
    requires context !in {"question_generation", "answer_evaluation"}
    ensures SystemPrompt(context, language) == SystemPrompt("question_generation", language)
  {
  }

  /** The base content prompt with its four slots filled. */
  function ContentBase(goalDescription: string, learningContent: string, language: string,
                       availableImages: string): (r: string)
    ensures Contains(r, goalDescription) && Contains(r, learningContent)
    ensures Contains(r, availableImages) && Contains(r, language)
    ensures StartsWith(r, BaseIntro)
  {
    var env := map["goal_description" := goalDescription, "learning_content" := learningContent,
                   "language" := language, "available_images" := availableImages];
    RenderShowsSlot(BaseContentTemplate, env, 1);
    RenderShowsSlot(BaseContentTemplate, env, 3);
    RenderShowsSlot(BaseContentTemplate, env, 5);
    RenderShowsSlot(BaseContentTemplate, env, 7);
    var r := Render(BaseContentTemplate, env);
    assert r == BaseIntro + Render(BaseContentTemplate[1..], env);
    assert r[..|BaseIntro|] == BaseIntro;
    r
  }

  /** `get_content_based_prompt`: the formatted base prompt followed by the
      type block; an unknown type gets the multiple-choice block. */
  function ContentBasedPrompt(goalDescription: string, learningContent: string, questionType: string,
                              language: string, availableImages: string): (r: string)
    ensures Contains(r, goalDescription) && Contains(r, learningContent)
    ensures Contains(r, availableImages) && Contains(r, language)
    ensures StartsWith(r, BaseIntro)
    ensures questionType !in {"true_false", "fill_blank"} ==> EndsWith(r, MultipleChoiceBlock)
    ensures questionType == "true_false" ==> EndsWith(r, TrueFalseBlock)
    ensures questionType == "fill_blank" ==> EndsWith(r, FillBlankBlock)
  {
    var base := ContentBase(goalDescription, learningContent, language, availableImages);
    var block := TypeBlock(questionType);
    ContainsPrefix(base, block, goalDescription);
    ContainsPrefix(base, block, learningContent);
    ContainsPrefix(base, block, availableImages);
    ContainsPrefix(base, block, language);
    Affixes(base, block, BaseIntro);
    base + block
  }

  /** "open_ended" has no type block of its own. */
  lemma OpenEndedPromptIsMultipleChoicePrompt(goalDescription: string, learningContent: string,
                                              language: string, availableImages: string)
    ensures ContentBasedPrompt(goalDescription, learningContent, "open_ended", language, availableImages)
         == ContentBasedPrompt(goalDescription, learningContent, "multiple_choice", language, availableImages)
  {
  }

  /** The legacy base prompt with its three slots filled. */
  function LegacyBase(goalDescription: string, goalDetails: string, language: string): (r: string)
    ensures Contains(r, goalDescription) && Contains(r, goalDetails) && Contains(r, language)
    ensures StartsWith(r, LegacyIntro)
  {
    var env := map["goal_description" := goalDescription, "goal_details" := goalDetails, "language" := language];
    RenderShowsSlot(LegacyBaseTemplate, env, 1);
    RenderShowsSlot(LegacyBaseTemplate, env, 3);
    RenderShowsSlot(LegacyBaseTemplate, env, 5);
    var r := Render(LegacyBaseTemplate, env);
    assert r == LegacyIntro + Render(LegacyBaseTemplate[1..], env);
    assert r[..|LegacyIntro|] == LegacyIntro;
    r
  }

  /** `get_legacy_prompt`: the formatted legacy base prompt followed by the type block. */
  function LegacyPrompt(goalDescription: string, goalDetails: string, questionType: string, language: string): (r: string)
    ensures Contains(r, goalDescription) && Contains(r, goalDetails) && Contains(r, language)
    ensures StartsWith(r, LegacyIntro)
    ensures questionType !in {"true_false", "fill_blank"} ==> EndsWith(r, MultipleChoiceBlock)
    ensures questionType == "true_false" ==> EndsWith(r, TrueFalseBlock)
    ensures questionType == "fill_blank" ==> EndsWith(r, FillBlankBlock)
  {
    var base := LegacyBase(goalDescription, goalDetails, language);
    var block := TypeBlock(questionType);
    ContainsPrefix(base, block, goalDescription);
    ContainsPrefix(base, block, goalDetails);
    ContainsPrefix(base, block, language);
    Affixes(base, block, LegacyIntro);
    base + block
  }

  /** Key-points text used when the question lists none. */
  function NoKeyPointsText(language: string): string {
    if language == "English" then "No specific points provided" else "Keine spezifischen Punkte angegeben"
  }

  /** `get_evaluation_prompt`: key points are ", "-joined, or replaced by a
      language-dependent default when there are none. */
  function EvaluationPrompt(question: string, sampleAnswer: string, keyPoints: seq<string>,
                            userAnswer: string, language: string): (r: string)
    ensures Contains(r, question) && Contains(r, sampleAnswer) && Contains(r, userAnswer) && Contains(r, language)
    ensures keyPoints == [] ==> Contains(r, NoKeyPointsText(language))
    ensures forall k :: 0 <= k < |keyPoints| ==> Contains(r, keyPoints[k])
  {
    var points := if keyPoints != [] then Join(keyPoints, ", ") else NoKeyPointsText(language);
    var env := map["question" := question, "sample_answer" := sampleAnswer, "key_points" := points,
                   "user_answer" := userAnswer, "language" := language];
    var r := Render(AnswerEvaluationTemplate, env);
    RenderShowsSlot(AnswerEvaluationTemplate, env, 1);
    RenderShowsSlot(AnswerEvaluationTemplate, env, 3);
    RenderShowsSlot(AnswerEvaluationTemplate, env, 5);
    RenderShowsSlot(AnswerEvaluationTemplate, env, 7);
    RenderShowsSlot(AnswerEvaluationTemplate, env, 9);
    assert forall k :: 0 <= k < |keyPoints| ==> Contains(r, keyPoints[k]) by {
      forall k | 0 <= k < |keyPoints| ensures Contains(r, keyPoints[k]) {
        var at := JoinContains(keyPoints, ", ", k);
        ContainsTransitive(r, points, keyPoints[k]);
      }
    }
    r
  }

  /** `validate_prompt_template`'s acceptance condition: every required
      variable occurs as the text `{var}`. */
  predicate Validates(template: string, requiredVars: seq<string>) {
    forall k :: 0 <= k < |requiredVars| ==> Contains(template, "{" + requiredVars[k] + "}")
  }

  /** `validate_prompt_template` */
  method ValidatePromptTemplate(template: string, requiredVars: seq<string>) returns (ok: bool)
    ensures ok <==> Validates(template, requiredVars)
  {
    for k := 0 to |requiredVars|
      invariant forall j :: 0 <= j < k ==> Contains(template, "{" + requiredVars[j] + "}")
    {
      if !Contains(template, "{" + requiredVars[k] + "}") {
        return false;
      }
    }
    return true;
  }

  /** A template written with a slot for every required variable validates. */
  lemma {:induction false} RawTemplateValidates(t: Template, requiredVars: seq<string>)
    requires forall k :: 0 <= k < |requiredVars| ==> HasSlot(t, requiredVars[k])
    ensures Validates(Raw(t), requiredVars)
  {
    forall k | 0 <= k < |requiredVars|
      ensures Contains(Raw(t), "{" + requiredVars[k] + "}")
    {
      var i :| 0 <= i < |t| && t[i] == Slot(requiredVars[k]);
      RawShowsSlot(t, i);
    }
  }

  lemma {:induction false} RawShowsSlot(t: Template, i: nat)
    requires i < |t| && t[i].Slot?
    ensures Contains(Raw(t), "{" + t[i].name + "}")
    decreases |t|
  {
    var head := match t[0] case Lit(s) => Escape(s) case Slot(n) => "{" + n + "}";
    assert Raw(t) == head + Raw(t[1..]);
    if i > 0 {
      RawShowsSlot(t[1..], i - 1);
    }
    ContainsConcat(head, Raw(t[1..]), "{" + t[i].name + "}");
  }

  /** The validator looks for text, not slots: a literal `{name}` written
      with doubled braces passes although formatting leaves it unsubstituted. */
  lemma ValidatorAcceptsEscapedBraces(name: string)
    requires '{' !in name && '}' !in name
    ensures Raw([Lit("{" + name + "}")]) == "{{" + name + "}}"
    ensures Validates(Raw([Lit("{" + name + "}")]), [name])
    ensures !HasSlot([Lit("{" + name + "}")], name)
    ensures Render([Lit("{" + name + "}")], map[]) == "{" + name + "}"
  {
    var lit := "{" + name + "}";
    EscapeConcat("{", name + "}");
    EscapeConcat(name, "}");
    EscapePlain(name);
    assert lit == "{" + (name + "}");
    assert Escape(lit) == "{{" + name + "}}";
    assert Raw([Lit(lit)]) == Escape(lit) + Raw([]);
    var raw := "{{" + name + "}}";
    assert raw[1..1 + |lit|] == lit;
    assert PieceAt(raw, 1, lit);
    assert Render([Lit(lit)], map[]) == lit + Render([], map[]);
  }

  const ImageDescriptions: map<string, map<string, string>> := map[
    "population_frame" := map[
      "medium_city.png" := "Population frame for cities with less than 500,000 inhabitants",
      "large_city.png" := "Population frame for cities with 500,000 to 1 million inhabitants",
      "mega_city.png" := "Population frame for cities with over 1 million inhabitants"],
    "capital_crown" := map[
      "federal_capital.png" := "Crown for federal capitals",
      "state_capital.png" := "Crown for state capitals",
      "former_federal_capital.png" := "Crown for former federal capital (Bonn)"],
    "orientation_location_circle" := map[
      "north.png" := "Location circle for northern position",
      "south.png" := "Location circle for southern position",
      "east.png" := "Location circle for eastern position",
      "west.png" := "Location circle for western position",
      "northeast.png" := "Location circle for northeastern position",
      "northwest.png" := "Location circle for northwestern position",
      "southeast.png" := "Location circle for southeastern position",
      "southwest.png" := "Location circle for southwestern position",
      "central.png" := "Location circle for central position",
      "city_state.png" := "Location circle for city-states"],
    "state_background" := map[
      "Bayern.png" := "State background for Bavaria",
      "Berlin.png" := "State background for Berlin",
      "Baden-Württemberg.png" := "State background for Baden-Württemberg",
      "Brandenburg.png" := "State background for Brandenburg",
      "Bremen.png" := "State background for Bremen",
      "Hamburg.png" := "State background for Hamburg",
      "Hessen.png" := "State background for Hesse",
      "Mecklenburg-Vorpommern.png" := "State background for Mecklenburg-Vorpommern",
      "Niedersachsen.png" := "State background for Lower Saxony",
      "Nordrhein-Westfalen.png" := "State background for North Rhine-Westphalia",
      "Reinland-Pfalz.png" := "State background for Rhineland-Palatinate",
      "Saarland.png" := "State background for Saarland",
      "Sachsen.png" := "State background for Saxony",
      "Sachsen-Anhalt.png" := "State background for Saxony-Anhalt",
      "Schleswig-Holstein.png" := "State background for Schleswig-Holstein",
      "Thüringen.png" := "State background for Thuringia"]]

  predicate KnownImage(componentType: string, filename: string) {
    componentType in ImageDescriptions && filename in ImageDescriptions[componentType]
  }

  /** Every catalogued description starts with a capital letter, while every
      component type starts with a lower-case one, so no description reads
      like the "<component_type> component" default. */
  lemma CataloguedNotDefault(componentType: string, filename: string)
    requires KnownImage(componentType, filename)
    ensures ImageDescriptions[componentType][filename] != componentType + " component"
  {
    assert (componentType + " component")[0] == componentType[0];
    match componentType
    case "population_frame" =>
      match filename {
        case "medium_city.png" =>
        case "large_city.png" =>
        case _ =>
      }
    case "capital_crown" =>
      match filename {
        case "federal_capital.png" =>
        case "state_capital.png" =>
        case _ =>
      }
    case "orientation_location_circle" =>
      match filename {
        case "north.png" =>
        case "south.png" =>
        case "east.png" =>
        case "west.png" =>
        case "northeast.png" =>
        case "northwest.png" =>
        case "southeast.png" =>
        case "southwest.png" =>
        case "central.png" =>
        case _ =>
      }
    case _ =>
      match filename {
        case "Bayern.png" =>
        case "Berlin.png" =>
        case "Baden-Württemberg.png" =>
        case "Brandenburg.png" =>
        case "Bremen.png" =>
        case "Hamburg.png" =>
        case "Hessen.png" =>
        case "Mecklenburg-Vorpommern.png" =>
        case "Niedersachsen.png" =>
        case "Nordrhein-Westfalen.png" =>
        case "Reinland-Pfalz.png" =>
        case "Saarland.png" =>
        case "Sachsen.png" =>
        case "Sachsen-Anhalt.png" =>
        case "Schleswig-Holstein.png" =>
        case _ =>
      }
  }

  /** `_get_image_description`: the catalogued description, or
      "<component_type> component" for an unknown type or file. */
  function ImageDescription(componentType: string, filename: string): (r: string)
    ensures KnownImage(componentType, filename) ==> r == ImageDescriptions[componentType][filename]
    ensures !KnownImage(componentType, filename) ==> r == componentType + " component"
    ensures r == componentType + " component" <==> !KnownImage(componentType, filename)
  {
    if KnownImage(componentType, filename) then
      CataloguedNotDefault(componentType, filename);
      ImageDescriptions[componentType][filename]
    else componentType + " component"
  }

}
