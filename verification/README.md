# A Dafny model of the learning-assistant core

This project models the deterministic core of a Streamlit learning
assistant. Students log in with access codes. A retrieval chat serves one
group. The "explAIner" quiz serves another: learning goals, generated quiz
questions and scored answers.

The model covers:

- the access-code parser, the login session and the page routing
  (`Auth`, `App`);
- the quiz's answer evaluation, fallback questions, generator control flow
  and adaptive instructions (`QuizSystem`);
- the per-goal quiz record, its buttons, the image placeholders and the
  aggregate statistics (`QuizUI`);
- the learning-goals store (`LearningGoals`);
- the prompt templates (`Prompts`);
- the text utilities of the retrieval pipeline (`Utils`) and of the
  explainer (`ExplainerUtils`).

`Wrappers` holds `Option` and `Result`. `Text` holds the string functions
the source calls: `strip`, `lower`, `upper`, `split`, `join`, `isdigit`,
substring search and run squeezing.

Everything outside the program is a parameter:

- the language model is an oracle that returns a question, or `None` when
  the call or its JSON fails;
- the API key is a flag;
- file reads and existence checks are functions;
- the clock, the random user id and the configured admin password are
  values.

Floating-point percentages and scores are exact rationals (`Ratio`).

The quiz record holds only the current question, the answered flag, the
feedback and two counters. The "adaptive" generator only turns two lists
into prompt text. The model follows the code in both.

## Model

| member | source | states |
|---|---|---|
| Auth.ParseNormalized | src/auth.py:75-102 | A normalised code is accepted exactly when it starts with 'G', ends with "W221T4FH", has a digit from 1 to 3 at position 1, and has four digits after its first 'C' with at least one character after them. Anything may stand between the group digit and the 'C' and after the four digits. An accepted code is kept as is, with that group and the value of those four digits as case number. |
| Auth.ParseCode | src/auth.py:67-104 | Empty input and input shorter than 12 characters before stripping are rejected. Any other input is judged after strip and upper-case. |
| Auth.Pad4 | src/auth.py:88-99 | The four-digit case field that a code carries is four digits. |
| Auth.PadValue | src/auth.py:99 | Zero-padded digits read back as the number they encode, so `int(case_str)` inverts the padding. |
| Auth.ParseCodeText | src/auth.py:67-104 | Round trip: every well-formed code parses back to its group and case number, whatever digits stand before the 'C'. |
| Auth.NormalizeCodeText | src/auth.py:75 | A handed-out code is a fixed point of strip-and-upper-case. |
| Auth.ParseNormalizedCodeText | src/auth.py:78-102 | The checks on a normalised well-formed code all pass and recover its fields. |
| Auth.ParseExample | src/auth.py:67-71 | The documented example "G2C0001W221T4FH" is group 2, case 1. |
| Auth.UpperLower | src/auth.py:75 | Upper-casing undoes lower-casing on text without lower-case letters. |
| Auth.NormalizeLower | src/auth.py:75 | Normalising a lower-cased stripped code gives the code back. |
| Auth.LowerCaseAccepted | src/auth.py:72-102 | A well-formed code typed in lower case is accepted and stored in upper case. |
| Auth.ParseLower | src/auth.py:72-102 | Parsing a lower-cased stripped code is parsing the code itself. |
| Auth.AcceptedCodeLength | src/auth.py:72-102 | Every accepted input has at least 15 characters, so the 12-character guard never rejects what the later checks accept. |
| Auth.AcceptedNormalizedLength | src/auth.py:78-95 | An accepted normalised code has at least 15 characters. |
| Auth.Get | src/auth.py:39-65 | The `get_*` accessors return the stored value while authenticated, and None otherwise or when the key is missing. |
| Auth.AuthenticatedIffCodeShown | src/auth.py:31-65 | `is_authenticated` holds exactly when `get_code` returns a code whose `strip()` is non-empty. When it does not hold, the user id, group and login time getters all return None. |
| Auth.Store | src/auth.py:112-123 | After an accepted code the session is authenticated and not admin. It holds the code, group, user id and time, and every other key is untouched. |
| Auth.Login | src/auth.py:106-123 | Login succeeds exactly when the code parses. A failure changes nothing. A success stores the parsed code. |
| Auth.StartsNonBlank | src/auth.py:31-37 | A stored code starting with 'G' counts as authenticated, not blank. |
| Auth.AdminLogin | src/auth.py:125-140 | Admin login succeeds exactly for the configured password, "admin2024" by default. It then stores code "ADMIN", group 0 and the admin flag. A failure changes nothing, and other keys are untouched. |
| Auth.Logout | src/auth.py:142-156 | Logout removes exactly the login keys and the two chat keys. Afterwards the session is neither authenticated nor admin, and other values are kept. |
| Auth.AdminOnlyByPassword | src/auth.py:57-59 | `is_admin` reads the stored flag by truthiness. A code login never makes a session admin that was not one before, and an accepted code clears the flag. The admin login leaves the session admin exactly when the password is right or it already was admin. A logout always clears it. |
| Auth.StoreLogout | src/auth.py:112-156 | Logging out after storing a code equals logging out alone. |
| Auth.LoginLogout | src/auth.py:106-156 | Logging in and then out equals logging out alone, whether or not the code was accepted. |
| App.SelectedPage | app.py:129-138 | A non-admin is always on the chat page; an admin gets the page chosen. |
| App.Show | app.py:196-203 | Each page has its own screen, and only the chat page shows the chat. |
| App.Route | app.py:169-217 | Without authentication only the login form shows. Group 1 is blocked and group 3 gets the explAIner placeholder, whatever the page. Dashboard and System are reachable only by an admin. An admin outside groups 1 and 3 gets the chosen page. A non-admin outside groups 1-3 gets the error. |
| App.AdminReachesEveryPage | app.py:129-217 | After a successful admin login every page can be reached. |
| App.CodeLoginRoutesByGroup | app.py:169-217 | After a code login the group alone decides the screen: group 1 is blocked, group 2 gets the chat for any page, group 3 gets the placeholder. |
| App.StoredGroupRoutes | app.py:169-217 | The same, for a session in which a parsed code was stored. |
| App.LogoutShowsLoginForm | app.py:169-170 | After a logout only the login form is shown. |
| Utils.UnderscoreIsSafe | src/utils.py:37-40 | The replacement character '_' is not itself unsafe. |
| Utils.UnderscoredChars | src/utils.py:37-40 | After the substitutions every character is '_' or a safe character of the input. |
| Utils.SafeFilename | src/utils.py:33-42 | The result has none of the unsafe characters `<>:"/\?*` and no vertical bar, no two underscores in a row and no leading or trailing '_'. Every character is '_' or a safe character of the input. Conversely, every safe input character other than '_' appears in the result. |
| Utils.SafeFilenameFixedPoints | src/utils.py:33-42 | `safe_filename` leaves a name alone exactly when the name is already safe. |
| Utils.SafeFilenameIdempotent | src/utils.py:33-42 | Cleaning a name twice is cleaning it once. |
| Utils.PrefixTo | src/utils.py:62 | Python's `s[:k]` is a prefix: its length is `k` clipped to the text, with a negative `k` counting from the end. |
| Utils.TruncateText | src/utils.py:58-62 | Text that fits comes back unchanged. Longer text becomes a prefix of itself plus "...", exactly `max_length` long when the limit is at least 3. |
| Utils.TruncateTinyLimit | src/utils.py:58-62 | Below a limit of 3 the result is longer than the limit. The negative slice keeps all but the last few characters. |
| Utils.BlankDisallowed | src/utils.py:139 | Each disallowed character becomes a space, position by position. |
| Utils.BlankedChars | src/utils.py:136-139 | After squeezing whitespace and blanking, every character is a space or an allowed, non-space input character. |
| Utils.CleanChars | src/utils.py:131-144 | The cleaned text holds only spaces and allowed input characters, and no two punctuation marks in a row. |
| Utils.CleanTextForEmbedding | src/utils.py:131-144 | The cleaned text is stripped and has no two adjacent marks of ".,!?;:". Every character is a word character, a space or one of `-.,!?;:()[]{}"`. Every non-space character comes from the input. Conversely, every word character of the input appears in the result. |
| Utils.CleanedUnchanged | src/utils.py:131-144 | Text already in the cleaned form is left unchanged. |
| Utils.SentenceEndsSingle | src/utils.py:161-165 | A character matches an entry of `sentence_ends` exactly when it is '.', '!' or '?'. The "\n\n" entry never matches a single character. |
| Utils.FirstBreak | src/utils.py:162-169 | The break search returns the first sentence break in the window, or the window's end when there is none. |
| Utils.ChunkEnd | src/utils.py:155-169 | A chunk end lies within the last 100 characters of `start + chunk_size`. |
| Utils.ChunkStop | src/utils.py:171 | The slice stops inside the text, at most `chunk_size` after the start. |
| Utils.ChunkAtBounded | src/utils.py:171-173 | A kept chunk is non-blank, stripped and at most `chunk_size` long. |
| Utils.ChunkAtIsPiece | src/utils.py:171 | Each chunk is a contiguous piece of the text at or after the chunk's start. |
| Utils.AllChunksMembers | src/utils.py:171-173 | "All chunks" holds exactly when every element is a chunk. |
| Utils.AllChunksConcat | src/utils.py:173 | Appending chunks to chunks gives chunks. |
| Utils.ChunksFromAreChunks | src/utils.py:155-177 | Started from chunks only, the loop collects only chunks. |
| Utils.KeptIsChunk | src/utils.py:172-173 | `if chunk: chunks.append(chunk)` adds only chunks. |
| Utils.FindBreak | src/utils.py:158-169 | The inner loop finds the first break among the last 100 positions before the end, or keeps the end. |
| Utils.ChunkLoopStep | src/utils.py:155-177 | One iteration preserves the loop invariant, and the start strictly increases when `chunk_size > overlap + 100`. |
| Utils.NextEnd | src/utils.py:156-169 | The computed end equals the reference chunk end. |
| Utils.Cut | src/utils.py:171 | The stripped slice equals the reference chunk. |
| Utils.ChunkText | src/utils.py:147-179 | For every chunk size above 100 and every overlap below `chunk_size - 100`, the loop terminates and returns the reference chunk sequence. Text that fits is returned as the one-element list. Otherwise every chunk is non-blank, stripped and at most `chunk_size` long. Every chunk occurs in the text. |
| Utils.ChunksFromInText | src/utils.py:155-177 | Each chunk the loop appends is a piece of the text, so the whole result is. |
| QuizSystem.CorrectOptionText | src/explainer/quiz_system.py:362 | The option a wrong answer is told about is "Unbekannt" past the end, and the indexed option otherwise. A negative index counts from the end. An index below `-len(options)` raises. |
| QuizSystem.EvaluateMultipleChoice | src/explainer/quiz_system.py:354-369 | The answer is correct exactly when it equals `correct_answer` (0 by default, with `True == 1`). The result echoes the key, and the feedback starts with the correct or the wrong prefix. |
| QuizSystem.WrongChoiceNamesOption | src/explainer/quiz_system.py:361-363 | A wrong answer names the correct option when it is in range, and "Unbekannt" when it lies past the end. |
| QuizSystem.EvaluateTrueFalse | src/explainer/quiz_system.py:414-428 | The answer is correct exactly when it equals `correct_answer` (True by default). The result echoes the key, and a wrong answer names the right truth value. |
| QuizSystem.MatchCount | src/explainer/quiz_system.py:443-448 | The matched-blank count is at most the number of blanks. |
| QuizSystem.MatchCountFull | src/explainer/quiz_system.py:443-452 | The count reaches the number of blanks exactly when every blank matches after trim and lower-case. |
| QuizSystem.EvaluateFillBlank | src/explainer/quiz_system.py:430-458 | A non-list, non-string answer raises. A count mismatch is wrong with no score. Two empty lists raise (division by zero). Equal non-zero counts always give a result whose score is 100·matched/total. The answer is then correct exactly when every blank matches after strip and lower-case. |
| QuizSystem.EvaluateOpenEnded | src/explainer/quiz_system.py:371-412 | A non-string answer raises. A blank answer, or a missing API key, scores 0 and is wrong. Otherwise the scorer's verdict is returned, and a failing scorer gives correct with score 75. |
| QuizSystem.BlankAnswerIgnoresScorer | src/explainer/quiz_system.py:375-380 | A blank answer never reaches the scorer: any two scorers give the same, incorrect result. |
| QuizSystem.EvaluateAnswer | src/explainer/quiz_system.py:339-352 | A missing `question_type` is multiple choice. An unknown type is wrong. Each of the four known types goes to its own evaluator. A multiple-choice answer is correct exactly when it equals the correct answer (default 0). A true/false answer always gets a result, correct exactly when it equals the correct answer (default True). A fill-in answer with the right non-zero number of blanks is correct exactly when every blank matches. |
| QuizSystem.FallbackQuestion | src/explainer/quiz_system.py:301-337 | A fallback is multiple choice with four options, `correct_answer` 3 and `is_fallback`. Its options are English exactly when the resolved language is English. Its text mentions the goal description. |
| QuizSystem.FallbackAnswerKey | src/explainer/quiz_system.py:301-369 | On a fallback question exactly the answer 3 is correct, and a wrong answer is told option 3. |
| QuizSystem.ContentFileName | src/explainer/quiz_system.py:253-272 | There is a file name exactly for goals 1..5. It is an `_en.md` file in English and a plain `.md` file otherwise. |
| QuizSystem.ContentFilesDistinct | src/explainer/quiz_system.py:253-272 | Distinct goals read distinct files. |
| QuizSystem.LoadLearningContent | src/explainer/quiz_system.py:246-293 | An unknown goal has no content. An existing file is read. A missing English file falls back to the German one. A missing German file gives no content. |
| QuizSystem.GenerateQuizQuestion | src/explainer/quiz_system.py:53-110 | A question is always returned. It is the fallback without a client or without content. With both, the model is asked with the question-generation system prompt and the content-based prompt. When it fails the fallback is returned. Otherwise the result is the model's question stamped with the type (multiple_choice when none is given), the language and `based_on_content`. |
| QuizSystem.GeneratedIffModelAnswered | src/explainer/quiz_system.py:53-110 | The question is based on content exactly when a client and non-empty content were there and the model answered the request. |
| QuizSystem.GenerateAdaptiveQuizQuestion | src/explainer/quiz_system.py:112-176 | A question is always returned. It is the fallback without a client or without content. With both, the model is asked with the content-based prompt followed by the adaptive instructions. When it fails the fallback is returned. Otherwise the result is the model's question forced to multiple choice, adaptive, in the resolved language and carrying the requested difficulty. |
| QuizSystem.AdaptiveIffModelAnswered | src/explainer/quiz_system.py:112-176 | The question is adaptive exactly when a client and non-empty content were there and the model answered the adaptive request. |
| QuizSystem.DifficultyLines | src/explainer/quiz_system.py:186-192 | There are two difficulty lines for "medium" and "hard", and none otherwise. |
| QuizSystem.SubjectLines | src/explainer/quiz_system.py:194-201 | There are three lines naming every covered subject, or one "vary" line when none is covered. |
| QuizSystem.RepetitionLines | src/explainer/quiz_system.py:203-208 | There are four anti-repetition lines quoting the number of asked questions, or none when no question was asked. |
| QuizSystem.AdaptiveInstructionLines | src/explainer/quiz_system.py:178-237 | The instructions are the header first, then the difficulty, subject and repetition lines in that order and number. |
| QuizSystem.AdaptiveInstructions | src/explainer/quiz_system.py:178-237 | The joined instructions start with the German or English header and contain every line; in particular every covered subject and, once questions were asked, their number reach the model. |
| QuizUI.InitialState | src/explainer/quiz_ui.py:29-36 | A fresh record has no question, is not answered, has no feedback and has zero counters. |
| QuizUI.QuizStateFor | src/explainer/quiz_ui.py:28-38 | A goal's record is created fresh on first access and is the stored one afterwards. |
| QuizUI.EnsureQuestion | src/explainer/quiz_ui.py:41-47 | A question is generated only while the record has none. An existing question is kept. |
| QuizUI.NewQuestion | src/explainer/quiz_ui.py:374-380 | "New question" clears the question, the answered flag and the feedback, keeps both counters, and keeps `correct_answers <= attempts`. |
| QuizUI.Submit | src/explainer/quiz_ui.py:315-337 | Without a question, submitting reports an error and changes nothing. A raising evaluation changes nothing. Otherwise the feedback is stored, `attempts` goes up by one, and `correct_answers` goes up exactly when the feedback is correct, which preserves `correct_answers <= attempts`. |
| QuizUI.ResubmitCountsTwice | src/explainer/quiz_ui.py:315-337 | For any client flag and scorer, submitting an answer that evaluates to a result twice counts two attempts, keeps the question, and adds two correct answers when the evaluation is correct and none otherwise. |
| QuizUI.Accuracy | src/explainer/quiz_ui.py:58-59 | The accuracy exists exactly when there was an attempt, and it lies within 0..100 for a consistent record. |
| QuizUI.ReadAgain | src/explainer/quiz_ui.py:384-387 | "Read again" returns to the information phase of the same goal. |
| QuizUI.NextOrComplete | src/explainer/quiz_ui.py:395-407 | While a further goal exists, the goal index goes up by one and the phase becomes "information". On the last goal the page mode becomes "checklist". |
| QuizUI.NextStaysInRange | src/explainer/quiz_ui.py:395-407 | Walking the goals with "Next" keeps the goal index below the goal count. |
| QuizUI.RunLength | src/explainer/quiz_ui.py:223 | The `[^}]+` run stops at the first '}'. |
| QuizUI.PlaceholderAt | src/explainer/quiz_ui.py:223 | A match is "{{IMAGE:", a non-empty path without '}', then "}}". |
| QuizUI.ImagePaths | src/explainer/quiz_ui.py:223-224 | Every captured path is non-empty and free of '}'. |
| QuizUI.RemovePlaceholders | src/explainer/quiz_ui.py:241 | Removal never lengthens the text. |
| QuizUI.ShownQuestionText | src/explainer/quiz_ui.py:241-245 | The shown text is never longer than the question. |
| QuizUI.RemovalAccounting | src/explainer/quiz_ui.py:223-241 | Removal deletes exactly the placeholders that `findall` reports, character for character. |
| QuizUI.RemovalChangesIffPlaceholder | src/explainer/quiz_ui.py:223-241 | The text is left alone exactly when it holds no placeholder. |
| QuizUI.NoPathsUnchanged | src/explainer/quiz_ui.py:223-241 | Without a captured path the text is unchanged. |
| QuizUI.PlaceholderFront | src/explainer/quiz_ui.py:223-241 | A well-formed placeholder at the front is captured and removed whole. |
| QuizUI.RunLengthStopsAtBrace | src/explainer/quiz_ui.py:223 | A path without '}' followed by '}' is matched to its full length. |
| QuizUI.KeepPrefix | src/explainer/quiz_ui.py:241 | A prefix in which no placeholder starts is kept as is. |
| QuizUI.FirstPassSplices | src/explainer/quiz_ui.py:241 | In the spliced example the first pass removes only the inner placeholder. |
| QuizUI.RemovalNotIdempotent | src/explainer/quiz_ui.py:241 | One pass is not enough: removal can splice the surrounding text into a new placeholder, which a second pass removes. |
| QuizUI.NotOpenAt | src/explainer/quiz_ui.py:223 | A mismatch within "{{IMAGE:" means no placeholder starts there. |
| QuizUI.NoPathsUnchangedFree | src/explainer/quiz_ui.py:223-241 | A text without '{' is left unchanged. |
| QuizUI.QuizStatistics | src/explainer/quiz_ui.py:409-426 | The loop sums attempts and correct answers over the "quiz_" entries holding a dict with attempts > 0, as the reference sum does. The accuracy exists exactly when the total attempts are positive. |
| QuizUI.StatsBounded | src/explainer/quiz_ui.py:414-426 | When every counted entry has `0 <= correct <= attempts`, so do the totals. |
| QuizUI.SessionAccuracyBounded | src/explainer/quiz_ui.py:414-426 | Sessions built from consistent quiz records report at most 100 percent. |
| Prompts.Render | src/explainer/prompts_config.py:136-175 | `str.format` writes every literal piece of the template out unchanged. |
| Prompts.RenderShowsSlot | src/explainer/prompts_config.py:141-146 | A formatted template shows the binding of each of its slots. |
| Prompts.EscapeConcat | src/explainer/prompts_config.py:16 | Brace doubling distributes over concatenation. |
| Prompts.EscapePlain | src/explainer/prompts_config.py:16 | Text without braces is written as is. |
| Prompts.TypeBlock | src/explainer/prompts_config.py:148 | The type block of "true_false" and "fill_blank" is their own; any other type, "open_ended" included, gets the multiple-choice block. |
| Prompts.SystemPrompt | src/explainer/prompts_config.py:133-136 | The system prompt names the language. "answer_evaluation" gets the teacher role, and every other context gets the question-generation role. |
| Prompts.UnknownContextUsesQuestionGeneration | src/explainer/prompts_config.py:135 | An unknown context gets the question-generation prompt. |
| Prompts.ContentBase | src/explainer/prompts_config.py:141-146 | The formatted base prompt starts with its introduction and shows the goal, the content, the images and the language. |
| Prompts.ContentBasedPrompt | src/explainer/prompts_config.py:139-150 | The content prompt shows all four inputs and ends with the type block, using the multiple-choice block for unknown types. |
| Prompts.OpenEndedPromptIsMultipleChoicePrompt | src/explainer/prompts_config.py:148 | "open_ended" has no block of its own and gets the multiple-choice prompt. |
| Prompts.LegacyBase | src/explainer/prompts_config.py:155-159 | The formatted legacy prompt starts with its introduction and shows its three inputs. |
| Prompts.LegacyPrompt | src/explainer/prompts_config.py:153-163 | The legacy prompt shows its inputs and ends with the same type-block fallback. |
| Prompts.EvaluationPrompt | src/explainer/prompts_config.py:166-176 | The evaluation prompt shows the question, the sample answer, the user's answer, the language and every key point. With no key points it shows the language's default text. |
| Prompts.ValidatePromptTemplate | src/explainer/prompts_config.py:301-306 | The validator accepts exactly when every required variable occurs as "{name}", so an empty list is accepted. |
| Prompts.RawTemplateValidates | src/explainer/prompts_config.py:301-306 | A template written with a slot for every required variable validates. |
| Prompts.RawShowsSlot | src/explainer/prompts_config.py:301-306 | A slot appears as "{name}" in the template's text. |
| Prompts.ValidatorAcceptsEscapedBraces | src/explainer/prompts_config.py:301-306 | The validator looks for text, not slots: an escaped "{{name}}" passes although formatting shows the literal "{name}" and fills nothing. |
| Prompts.ImageDescription | src/explainer/prompts_config.py:204-249 | A catalogued image gets its description, and anything else gets "<component_type> component". The result is that default exactly when the image is not catalogued. |
| Prompts.CataloguedNotDefault | src/explainer/prompts_config.py:206-246 | No catalogued description coincides with the "<component_type> component" default of its own type. |
| LearningGoals.IdsDistinct | src/explainer/learning_goals_manager.py:44-47 | Goals from different lines have different ids. |
| LearningGoals.BulletOf | src/explainer/learning_goals_manager.py:40-43 | A line yields a goal text exactly when, stripped, it starts with "- ". The text is what follows, stripped, and is never empty. |
| LearningGoals.GoalsFrom | src/explainer/learning_goals_manager.py:37-50 | Every goal comes from the bullet on its own line, and the numbers strictly increase. |
| LearningGoals.GoalsFromComplete | src/explainer/learning_goals_manager.py:37-50 | Every bullet line yields its goal. |
| LearningGoals.GoalsFromSound | src/explainer/learning_goals_manager.py:37-50 | Every goal is numbered by the line of its bullet. |
| LearningGoals.GoalsFromExact | src/explainer/learning_goals_manager.py:37-50 | A goal is produced exactly when its line holds a bullet with its text. |
| LearningGoals.BulletTexts | src/explainer/learning_goals_manager.py:39-43 | Each line's bullet text, position by position, and never empty. |
| LearningGoals.ParseGoals | src/explainer/learning_goals_manager.py:37-50 | Goals come in file order with strictly increasing numbers, distinct ids and non-empty descriptions. |
| LearningGoals.ParseGoalsExact | src/explainer/learning_goals_manager.py:37-50 | The goals are exactly the bullet lines, each numbered by its line, not by its bullet ordinal. |
| LearningGoals.GetUserProgress | src/explainer/learning_goals_manager.py:64-74 | On first access every goal id is set to False and stored. Afterwards the stored map is returned and nothing changes. |
| LearningGoals.GetUserProgressStable | src/explainer/learning_goals_manager.py:64-74 | Asking twice gives the same answer and leaves the session as the first call left it. |
| LearningGoals.UpdateGoalProgress | src/explainer/learning_goals_manager.py:76-102 | An update sets exactly this goal of this user and leaves every other entry and user alone. A missing map starts empty. One log entry is appended. |
| LearningGoals.UpdateProgressIdempotentLogGrows | src/explainer/learning_goals_manager.py:76-102 | Repeating an update leaves the progress as one update did, but the log grows by one more entry. |
| LearningGoals.ProgressStatistics | src/explainer/learning_goals_manager.py:104-115 | The totals are: the number of goals, the True entries, the remainder, and a percentage that is 0 with no goals and otherwise 100·completed/total. |
| LearningGoals.GoalIdsBound | src/explainer/learning_goals_manager.py:107-108 | There are no more goal ids than goals. |
| LearningGoals.StatisticsBounded | src/explainer/learning_goals_manager.py:104-115 | While the progress keys are goal ids, completed ≤ total and the remainder is not negative. |
| LearningGoals.StaleProgressOvercounts | src/explainer/learning_goals_manager.py:104-115 | Without that restriction a stale completed id gives a negative remainder. |
| LearningGoals.FirstOpenGoal | src/explainer/learning_goals_manager.py:209-213 | The first goal in list order not marked complete, or None exactly when every goal is complete. |
| LearningGoals.NextGoalSuggestion | src/explainer/learning_goals_manager.py:205-213 | The suggestion is the first incomplete goal of the user's progress, or None when all are done. |
| LearningGoals.NewUserStartsAtFirstGoal | src/explainer/learning_goals_manager.py:205-213 | A user seen for the first time is pointed at the first goal. |
| ExplainerUtils.ValidateTopicInput | src/explainer/explainer_utils.py:15-38 | The topic is valid exactly when it is non-blank, 3..200 characters once stripped, and free of `<>{}[]\`. The message is empty exactly when the topic is valid. Otherwise it names the first failed check, in source order: missing, too short, too long, invalid characters. |
| ExplainerUtils.ComplexityBadge | src/explainer/explainer_utils.py:96-112 | A known level gets its badge. The default "⚪ Unbekannt" is returned exactly for unknown levels. |
| ExplainerUtils.ExplanationTypeIcon | src/explainer/explainer_utils.py:260-278 | A known type gets its icon. The default "❓" is returned exactly for unknown types. |
| ExplainerUtils.TopicSuggestions | src/explainer/explainer_utils.py:135-157 | There are exactly five suggestions, the first five expansions in order. |
| ExplainerUtils.SuggestionsMentionBase | src/explainer/explainer_utils.py:135-157 | Every suggestion contains the base topic. |
| ExplainerUtils.ValidateApiResponse | src/explainer/explainer_utils.py:281-303 | The response is valid exactly when "success" is present, a truthy success has an "explanation" and a falsy one an "error". The message is empty exactly when the response is valid. A missing "success" gives "Fehlendes Feld in API-Antwort: success", a truthy one without an explanation gives "Erfolgreiche Antwort ohne Erklärung", and a falsy one without an error gives "Fehlerhafte Antwort ohne Fehlermeldung". |
| ExplainerUtils.SanitizeFilename | src/explainer/explainer_utils.py:160-175 | The result has at most 100 characters. An input of at most 100 characters is not cut, so every input character that is safe, not whitespace and neither '.' nor '_' appears in the result. |
| ExplainerUtils.CleanedChars | src/explainer/explainer_utils.py:170-174 | Before the cut, the name has no unsafe or whitespace character, is no longer than the input, and holds only '_' and input characters. Conversely, every input character that is safe, not whitespace and neither '.' nor '_' is kept. |
| ExplainerUtils.PrefixPlain | src/explainer/explainer_utils.py:175 | The 100-character cut keeps a name free of unsafe and whitespace characters. |
| ExplainerUtils.SanitizeFilenameShape | src/explainer/explainer_utils.py:160-175 | The result has none of the unsafe characters `<>:"/\?*`, no vertical bar and no whitespace. It has at most 100 characters, does not start with '.' or '_', and holds only '_' and input characters. |
| ExplainerUtils.SanitizeFilenameFixedPoints | src/explainer/explainer_utils.py:160-175 | A name is left unchanged exactly when it is already in sanitized form. |
| ExplainerUtils.SanitizeFilenameNotIdempotent | src/explainer/explainer_utils.py:170-175 | When the cut leaves a '.' or '_' at the end, a second pass changes the name, so the function is not idempotent. |
| ExplainerUtils.SanitizeFilenameNotIdempotentExample | src/explainer/explainer_utils.py:170-175 | Example: 99 letters followed by "_b". |
| ExplainerUtils.RoundHalfEven | src/explainer/explainer_utils.py:130 | Python's `round(n/d)` is within half a `d` of `n`, and is even on a tie. |
| ExplainerUtils.RoundHalfEvenUnique | src/explainer/explainer_utils.py:130 | Nearest with ties to even determines the rounding uniquely. |
| ExplainerUtils.EstimateReadingTime | src/explainer/explainer_utils.py:115-132 | The estimate is 0 exactly for empty text. Non-empty text gives at least 1, and exactly 1 below 300 words. Above that it is the nearest whole number of 200-word minutes, and an exact tie goes to the even one, as Python's `round` does (500 words give 2). |
| ExplainerUtils.ReadingTimeTie | src/explainer/explainer_utils.py:129-132 | Text of 500 words is estimated at 2 minutes, the even neighbour of the tie between 2 and 3. |
| ExplainerUtils.TruncDiv | src/explainer/explainer_utils.py:253 | Python's `int()` of a quotient truncates toward zero: its size is the quotient of the sizes, and its sign is the sign of the operands. |
| ExplainerUtils.FilledCircles | src/explainer/explainer_utils.py:252-253 | For a non-negative ratio 0..5 circles are filled, all 5 at or above the total. Below it, `5·current/total` is rounded down. |
| ExplainerUtils.ProgressCirclesFive | src/explainer/explainer_utils.py:249-256 | For a non-negative ratio there are exactly five circles: the filled ones first, then the empty ones. |
| ExplainerUtils.ProgressCircles | src/explainer/explainer_utils.py:248-256 | With a total of 0 all five circles are empty. For a positive total and a non-negative count there are five circles, and circle i is filled exactly when i is below the filled count. Once the count reaches the total all five are filled. |
| ExplainerUtils.NegativeProgressOverdraws | src/explainer/explainer_utils.py:252-256 | A negative `current` of at least a fifth of the total gives more than five circles. |
| ExplainerUtils.FirstIndex | src/explainer/explainer_utils.py:217-219 | An action first occurs at this position, or never. |
| ExplainerUtils.MostCommonUnique | src/explainer/explainer_utils.py:225 | The most common action, with ties going to the first seen, is unique. |
| ExplainerUtils.TypesOfOrder | src/explainer/explainer_utils.py:214-219 | The counted types list every action once, in order of first occurrence. |
| ExplainerUtils.FirstIndexExtend | src/explainer/explainer_utils.py:217-219 | Appending an activity keeps every earlier first occurrence. |
| ExplainerUtils.FirstIndexAppend | src/explainer/explainer_utils.py:217-219 | The same, for one action. |
| ExplainerUtils.TopicsOfMembers | src/explainer/explainer_utils.py:215-222 | The explored topics are exactly those some activity carries. |
| ExplainerUtils.TallyStep | src/explainer/explainer_utils.py:217-222 | Counts, type order and topics one activity further on. |
| ExplainerUtils.Tally | src/explainer/explainer_utils.py:214-222 | The loop yields the types in first-seen order, each count, and the distinct topics. |
| ExplainerUtils.FirstMaximum | src/explainer/explainer_utils.py:225 | `max` returns the first key with the largest count. |
| ExplainerUtils.FirstMaximumIsMostCommon | src/explainer/explainer_utils.py:225 | That key is the most common action. |
| ExplainerUtils.CalculateSessionStats | src/explainer/explainer_utils.py:195-235 | No activities give the defaults. Otherwise the result is the count of activities, two minutes each, the most common action (the first seen among ties) and the number of distinct topics. |

## Left out

- Streamlit rendering: the `st.*` calls, widgets, images, captions and layout. Only the state the pages read and write is modelled.
- The language model, the API key lookup (`_load_api_key`), file reads and `os.path.exists`, the clock and `uuid` are parameters. Their own behaviour is not modelled.
- `get_available_images_list`, `get_data_files`, `format_file_size`, `format_timestamp` (both files), `load_css`, the base64 helpers, `create_download_link` and the environment checks of src/utils.py: file I/O, floating point or date parsing.
- `format_explanation_for_display` and `extract_key_concepts`: regex rewriting and set-iteration order.
- src/rag_system.py, src/logger.py, src/explainer/explainer_logger.py, src/dashboard.py, src/explainer/explainer_ui.py, src/explainer/explainer_core.py and the re-exports of src/explainer/__init__.py are not part of this model. They are library calls, logging I/O or UI.
- `render_user_info`, `render_login_form` and `get_session_duration` of src/auth.py: rendering and clock arithmetic.
- `render_learning_goals_overview`, `render_progress_summary`, `render_next_goal_suggestion` and `export_progress` of the goals manager: rendering and export.
- Unicode: `strip`, `lower`, `upper`, `isdigit` and the regex classes `\w` and `\s` are modelled on ASCII. `Text.IsWordChar` accepts only ASCII letters, digits and '_'. Non-ASCII letters such as umlauts and 'ß', which Python's `\w` keeps, are therefore blanked by the model of `clean_text_for_embedding`.
- Auth.IsAuthenticated: a stored code that is not text counts as not authenticated, where the source's `.strip()` would raise. No writer stores such a value: Store and AdminLogin store text.
- Floating point: scores, accuracies and percentages are exact rationals, and their formatting (`:.0f`, `round(..., 1)`) is left out.
- Utils.ChunkText: requires `chunk_size > 100` and `overlap + 100 < chunk_size`, which include every negative overlap. Under them each step moves `start` forward. Other parameters are not modelled. With `overlap + 100 >= chunk_size` a sentence break at the start of the search window leaves `start` in place or moves it back, so the source loop need not end. With `chunk_size <= 100` the search window begins before the chunk.
- Utils.ChunkText: the closing `if start >= len(text): break` is folded into the loop condition, which has the same effect.
- Utils.ChunkText: states that each chunk is a piece of the text on its own, not that the chunks appear in order or overlap by `overlap` characters.
- QuizSystem.EvaluateOpenEnded: the scorer's JSON is taken as an already parsed verdict. Parsing and field defaults inside the verdict are not modelled.
- QuizSystem.LoadLearningContent: an exception while reading a file is folded into the reader returning `None`.
- Session values of other types are not modelled. An activity's "action" and "topic" are modelled as text or absent, so a numeric topic cannot be written. A quiz statistics entry is either a dict whose "attempts" and "correct" are integers or absent, or `NotDict`, which stands for every value that is not a dict (a number, a list, `None`).
- ExplainerUtils.SanitizeFilename: states which input characters are kept only for inputs of at most 100 characters. A longer cleaned name is cut, and which characters survive the cut depends on their position.
- ExplainerUtils.FilledCircles: the progress indicator's percentage text is float formatting and is left out. Only the circles are modelled.
- Utils.TruncateText: for a limit below 3 the source's negative slice is modelled as written, and `TruncateTinyLimit` shows the limit is not kept. The length guarantee is stated only for limits of at least 3.
- Log timestamps of `_log_progress_update` are not modelled; a log entry is the user, the goal and the value.
