# Riddle game: progress, hints and grading, in Dafny

A model of the game logic of "Regalo Misterioso", a Streamlit riddle game.
It shows one question at a time, reveals hints on request, grades free-text
answers with a hosted language model, and moves through the questions to a
final completion screen. The model covers:

- the progress record and the current-question lookup of `game_manager.py`
  (module `GameManager`);
- the state machine inside `main()` of `streamlit_app.py`: reset, the
  completion check, hint reveal, correct and incorrect answers, and the
  hand-off to the hint assistant (modules `StreamlitApp` and `AppProperties`);
- the parts of `llm_agents.py` that do not depend on the service: how the
  streamed reply is assembled, the verdict rule of `answer_grader`, the numbered hint
  text and the user-query branch of the assistant's prompt (module `LlmAgents`).

Two helper modules supply the Python semantics the code relies on: `Wrappers`
(`Option`, for Python's `None`) and `Strings` (`in`, `"".join`, `sep.join`,
`str(n)`, `str.strip()` with Python's whitespace set). `Strings` also defines
a line split. The code never calls `str.split`; the split serves only to state
how many lines the hint text has and what each line reads.

Everything is a pure function over immutable values. A run of `main()` is
`StreamlitApp.Step(data, app, action)`. `data` is the loaded question file.
`app` holds the progress file, which is either missing or holds the last record
saved, together with the session state. `action` is the one button the user
pressed. Every run reloads progress from the file, as the source does. The
language-model service is not called. Its streamed reply is an input to the
model, given as a sequence of chunks. Lookup and grading are functions, so they
cannot modify the questions or the progress record.

The invariant `AppProperties.Inv` holds from the first run on. It says that
`showing_clue` is never set and that the revealed hints are `0, 1, ...` in
order. It also says they fit the current question and that `last_clue_index`
is the last of them. Because the hints are revealed in order, the
`clue_index` handed to the assistant picks exactly the revealed hints, even
though the assistant receives the question's whole hint list.

Two behaviours of the source are stated as they are, not hidden:

- `clues_revealed` in the progress record is set to the index of the hint just
  revealed, not to a count. The first reveal stores 0, which is the same value
  a reset stores.
- `answer_correct` stays set after a correct answer. On the next question the
  reveal button therefore stays hidden until another answer is graded
  (`AppProperties.HintsLockedAfterCorrectAnswer`).

## Model

| member | source | states |
|---|---|---|
| GameManager.SaveProgress | game_manager.py:30-38 | loading the file right after a save gives back exactly the saved record |
| GameManager.ResetProgress | game_manager.py:40-49 | the reset record has no completed questions, current question 1 and `clues_revealed` 0, and the file then holds it |
| GameManager.LoadMissingIsReset | game_manager.py:23-28 | when the progress file is missing, the default record equals the reset record |
| GameManager.FirstIndexWithId | game_manager.py:63-66 | the index found holds the id and no earlier question does; there is no index exactly when no question has the id |
| GameManager.GetCurrentQuestion | game_manager.py:51-66 | a returned question has the record's current id and is the first such in list order; `None` exactly when no question has that id |
| Strings.DecimalRoundTrip | llm_agents.py:92 | `str(n)` of a hint number reads back as `n` |
| Strings.SplitJoin | llm_agents.py:92 | joining at least one part with `"\n"` and splitting on it gives the parts back, when no part contains a line break |
| Strings.Strip | llm_agents.py:108 | `strip()` gives the empty string exactly when every character is Python whitespace |
| LlmAgents.Pieces | llm_agents.py:63-67 | the streaming loop keeps only non-empty contents, at most one per chunk |
| LlmAgents.ReplyIsAllContents | llm_agents.py:61-71 | `full_result` is the in-order concatenation of every chunk's first-choice content; skipping empty ones loses nothing |
| LlmAgents.ReplyAppend | llm_agents.py:61-71 | the reply to two runs of chunks is the two replies concatenated |
| LlmAgents.AnswerGrader | llm_agents.py:61-74 | the feedback is the whole reply, and the verdict is true exactly when "CORRECTO" occurs somewhere in it |
| LlmAgents.IncorrectoGradedCorrect | llm_agents.py:72 | a reply starting "INCORRECTO" is graded correct by the rule as written |
| LlmAgents.IncorrectoReplyExample | llm_agents.py:61-74 | a concrete three-chunk reply "INCORRECTO, casi!" comes back as `(True, "INCORRECTO, casi!")` |
| LlmAgents.IntendedAgreesOnSuccess | llm_agents.py:72 | every reply that opens with CORRECTO is also accepted by the rule as written |
| LlmAgents.AnswerGraderIntended | llm_agents.py:40-43 | with the same feedback, a reply opening with INCORRECTO is graded wrong, and a reply is graded right exactly when it opens (after leading whitespace) with CORRECTO |
| LlmAgents.SliceTo | llm_agents.py:92 | `clues[:stop]` is a prefix of the list with Python's clamping and negative-stop lengths |
| LlmAgents.CluesTextNone | llm_agents.py:92 | with `clue_index = None` the hint text is empty |
| LlmAgents.CluesTextJoin | llm_agents.py:92 | for any hints and `clue_index = k >= -1`, the hint text is the first `min(k+1, len(clues))` hints, hint j-1 written "Pista j: " then the hint, joined with line breaks |
| LlmAgents.CluesTextLines | llm_agents.py:92 | for hints without line breaks and `clue_index = k >= -1`, the hint text has `min(k+1, len(clues))` lines, line j reads "Pista j: " then clue j-1, and k = -1 gives "" |
| LlmAgents.QueryBranchIffNonBlank | llm_agents.py:108-122 | the user-query prompt branch is taken exactly when a query is given that has a non-whitespace character |
| LlmAgents.ClueAssistant | llm_agents.py:76-149 | the prompt carries the question, the hint text for `clue_index` and the query exactly when its branch is taken; the result is the whole reply |
| StreamlitApp.InitialSession | streamlit_app.py:69-79 | the first run starts with no hint revealed, `last_clue_index` -1, nothing submitted, no feedback and the game not completed |
| StreamlitApp.ResetSession | streamlit_app.py:85-94 | a reset request sets every session field to its initial value except `showing_clue`, which it leaves alone |
| StreamlitApp.NextClueFrom | streamlit_app.py:189-191 | the search loop stops at or below `max_clues`, at an unrevealed index unless it reached `max_clues`, and skips only revealed indices |
| StreamlitApp.NextClueIndex | streamlit_app.py:189-191 | the index chosen is the smallest index below `max_clues` not yet revealed, or `max_clues` when all are revealed |
| StreamlitApp.NextClueAvailable | streamlit_app.py:188-193 | while fewer than `max_clues` hints are revealed, the index found is below `max_clues`, so the inner test always passes |
| StreamlitApp.ValidHintsBounded | streamlit_app.py:188-197 | distinct revealed indices below `max_clues` number at most `max_clues` |
| StreamlitApp.RevealHint | streamlit_app.py:188-201 | when the button is offered, the smallest unrevealed index is appended and becomes both `last_clue_index` and the saved `clues_revealed`, and nothing else changes; otherwise nothing changes |
| StreamlitApp.RevealKeepsHintsValid | streamlit_app.py:188-197 | revealing keeps the indices distinct and below `max_clues`, so their count never exceeds `max_clues` |
| StreamlitApp.SubmitAnswerStep | streamlit_app.py:216-244 | an empty answer changes nothing; otherwise verdict and feedback are recorded. An incorrect verdict keeps the file and the hints. A correct one appends the id, makes id+1 current, zeroes `clues_revealed` and clears the hints |
| StreamlitApp.InRangeBelow | streamlit_app.py:254-256 | the positions among the first `len` iterations whose `i < len(clues)` test passes lie below `len` and name an existing hint |
| StreamlitApp.InRangeBelowExact | streamlit_app.py:254-256 | those positions are in increasing order, each once, and none whose test passes is missed |
| StreamlitApp.TextsBelow | streamlit_app.py:254-257 | after `len` iterations the list holds one text per passing position, the t-th being the hint named at the t-th passing position |
| StreamlitApp.InRangePositions | streamlit_app.py:254-256 | over the whole list, every position passes when every revealed index is in range, and none passes exactly when no index is |
| StreamlitApp.RevealedClueTexts | streamlit_app.py:254-257 | for any revealed list, in range or not, the t-th text passed on is the hint named at the t-th position whose index is below `len(clues)`, and there is one text per such position |
| StreamlitApp.RevealedClueTextsCases | streamlit_app.py:254-257 | when every revealed index is in range the texts are exactly those hints in reveal order; the list is empty exactly when no revealed index is in range |
| StreamlitApp.InRangeCount | streamlit_app.py:254-256 | the number of passing positions equals the number of revealed entries below `len(clues)` |
| StreamlitApp.AssistantClueIndexCounts | streamlit_app.py:265 | `clue_index` is the number of revealed entries below `len(clues)` minus one, whatever else the revealed list holds |
| StreamlitApp.AssistantClueIndex | streamlit_app.py:265 | `clue_index` is the number of such texts minus one, so -1 exactly when there are none |
| StreamlitApp.AskGeniusStep | streamlit_app.py:247-269 | asking the assistant leaves the file and hints untouched, stores the reply, and sends the hint text for that `clue_index`; the query is sent exactly when it is not blank, and what is sent is the text the user typed |
| AppProperties.InvGivesValidHints | streamlit_app.py:188-197 | under the invariant the revealed hints are distinct indices of the current question |
| AppProperties.InOrderNextClue | streamlit_app.py:189-199 | with hints revealed in order, the next one revealed is the next in line |
| AppProperties.StartSatisfiesInv | streamlit_app.py:69-79 | the first run starts in a state that satisfies the invariant |
| AppProperties.StepPreservesInv | streamlit_app.py:85-269 | every run keeps the invariant, whatever the user pressed |
| AppProperties.ResetRestoresInitial | streamlit_app.py:85-94 | a reset request restores the reset record and the initial session, and the run ends in a rerun |
| AppProperties.ResetIdempotent | streamlit_app.py:85-97 | resetting twice leaves the same state as resetting once |
| AppProperties.CompletionScreen | streamlit_app.py:114-139 | the completion screen is shown exactly when no reset is requested and `len(completed) >= total_questions`; then only `game_completed` is set and the game stays complete |
| AppProperties.MissingQuestionChangesNothing | streamlit_app.py:141-146 | with no question for the current id, the error is shown and the state is left as it was |
| AppProperties.CorrectAnswerAdvances | streamlit_app.py:233-241 | a correct answer appends the current id, makes id+1 current, zeroes `clues_revealed`, clears the hints and sets `last_clue_index` to -1 |
| AppProperties.IncorrectAnswerKeepsProgress | streamlit_app.py:216-244 | an incorrect answer leaves the progress file, the revealed hints and `last_clue_index` unchanged |
| AppProperties.HintsLockedAfterCorrectAnswer | streamlit_app.py:188-244 | after a correct answer, pressing reveal on the next run reveals nothing |
| AppProperties.InOrderTextCount | streamlit_app.py:254-257 | with hints revealed in order and no more of them than the question has, every revealed hint is passed to the assistant |
| AppProperties.InOrderCluesText | llm_agents.py:92 | for in-order hints, the hint text built for `clue_index = len(revealed) - 1` has one line per revealed hint, line j reading "Pista j: " then hint j-1, and is empty when none are revealed; this needs hints without line breaks |
| AppProperties.HandOffCluesText | streamlit_app.py:254-265 | when every revealed hint is passed on, the `clue_index` sent is the last revealed position |
| AppProperties.InOrderCluesJoin | llm_agents.py:92 | for hints revealed in order, whatever they contain, the hint text for `clue_index = len(revealed) - 1` joins the revealed hints with line breaks, numbered from 1 |
| AppProperties.HandOffJoinsRevealedClues | streamlit_app.py:254-265 | with hints revealed in order, whatever they contain, the hint text the assistant receives joins the revealed hints with line breaks, numbered from 1 |
| AppProperties.HandOffListsRevealedClues | streamlit_app.py:254-265 | with hints revealed in order and no line break inside a hint, the hint text the assistant receives lists exactly the revealed hints, numbered from 1, and is empty when none are revealed |

## Left out

- Streamlit mechanics are not modelled: widgets, forms, `st.rerun`, query parameters, `st.balloons`, `time.sleep`, markdown and HTML rendering, and the welcome box. A button press is an `Action`, and one run handles one of them.
- `style.py` is not part of this model. It holds only static CSS, HTML and JavaScript.
- The hosted model client is not modelled: `initialize_client`, the chat-completion call, `temperature`, `max_tokens` and the prompt wording beyond the hint text and the query branch. The streamed reply is an input.
- Reading and writing YAML is abstracted. `load_clues` becomes a `CluesData` value. The progress file is either missing or holds the last record saved. A malformed or empty file is not modelled.
- Credentials from secrets or the environment (`get_credentials`) are left out. They only configure the client.
- The progress bar's float division (streamlit_app.py:150) is left out.
- The model does not claim that `current_question` is always the smallest uncompleted id. The code never checks this, and a correct answer appends without de-duplication.
- AppProperties.Inv and AppProperties.StepPreservesInv assume one browser session. `progress.yaml` is a single file shared by every session of the app, while `st.session_state` belongs to one session. A second session that answers correctly moves the shared `current_question` on, and this session keeps its `revealed_clues`. Those indices can then reach `max_clues` of the new question or beyond it. The loops at streamlit_app.py:178-180 and 254-256 filter such indices out, and `StreamlitApp.RevealedClueTexts` is stated for any revealed list. The invariant, however, is only proved for a single session.
- Exceptions from the service calls are not modelled. In the model `answer_grader` and `clue_assistant` always return. In the source a raising call ends the run after part of the session has already changed. Before `answer_grader` runs, streamlit_app.py:217-218 has set `answer_submitted = True` and `need_genius_help = False`. Before `clue_assistant` runs, lines 248-249 have set `need_genius_help = True` and `answer_submitted = False`. Progress is saved only after a call returns, so the file is never partly updated.
- LlmAgents.CluesTextLines: the line count and line contents are stated only for hints without line breaks. A hint from `clues.yaml` may contain one, for instance a folded scalar ending in a newline, and then the hint text has more lines than hints. `LlmAgents.CluesTextJoin` states the text for any hints.
- AppProperties.HandOffListsRevealedClues: stated only for hints without line breaks, for the same reason. `AppProperties.HandOffJoinsRevealedClues` states the hand-off text for any hints.
- StreamlitApp.Step: the answer check inside a run uses the corrected verdict rule (see Findings). The rule as written is `LlmAgents.AnswerGrader`.

## Findings

| source | as written | input that shows it | evidently intended | confidence | as-written member | corrected member |
|---|---|---|---|---|---|---|
| llm_agents.py:72 | `is_correct = "CORRECTO" in full_result` | the reply "INCORRECTO, casi!", which the prompt (llm_agents.py:40) invites for a wrong answer | the answer is correct only when the reply opens with the word CORRECTO rather than INCORRECTO | not executed; high | LlmAgents.IncorrectoGradedCorrect | LlmAgents.AnswerGraderIntended |
