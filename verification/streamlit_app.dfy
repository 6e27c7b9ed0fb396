/**
 * The game's state machine, as the body of `main()` drives it: one run of
 * `main()` reloads the progress file, handles at most one user action
 * (reset, reveal a hint, submit an answer, ask the assistant) and shows one
 * screen. Rendering, reruns and Streamlit's widgets are not modelled; a
 * button press is an `Action`, and the session state is a `Session` value
 * carried from one run to the next.
 */
module StreamlitApp {
  import opened Wrappers
  import opened Strings
  import opened GameManager
  import opened LlmAgents

  /** The fields `main()` keeps in `st.session_state`. */
  datatype Session = Session(
    showingClue: bool,
    lastClueIndex: int,
    revealedClues: seq<nat>,
    answerSubmitted: bool,
    answerCorrect: bool,
    answerFeedback: string,
    needGeniusHelp: bool,
    geniusResponse: string,
    gameCompleted: bool)

  /** The session as the first run sets it up: no hint revealed, nothing submitted. */
  function InitialSession(): (s: Session)
    ensures s.revealedClues == [] && s.lastClueIndex == -1
    ensures !s.showingClue && !s.answerSubmitted && !s.answerCorrect && !s.needGeniusHelp && !s.gameCompleted
    ensures s.answerFeedback == "" && s.geniusResponse == ""
  {
    Session(false, -1, [], false, false, "", false, "", false)
  }

  /**
   * The session fields the reset request clears. `showingClue` is not among
   * them; no transition ever sets it, so it keeps its initial value.
   */
  function ResetSession(s: Session): (r: Session)
    ensures r == InitialSession().(showingClue := s.showingClue)
  {
    s.(lastClueIndex := -1, revealedClues := [], answerSubmitted := false, answerCorrect := false,
       answerFeedback := "", needGeniusHelp := false, geniusResponse := "", gameCompleted := false)
  }

  /** The persistent and the per-session state between two runs of `main()`. */
  datatype App = App(file: ProgressFile, session: Session)

  /** The state before the first run: whatever the progress file holds, and a fresh session. */
  function Start(file: ProgressFile): App
  {
    App(file, InitialSession())
  }

  /** The one user action a run of `main()` handles. */
  datatype Action =
    | NoAction
    | RequestReset
    | PressRevealHint
    | SubmitAnswer(answer: string, graderReply: seq<Chunk>)
    | AskGenius(query: string, assistantReply: seq<Chunk>)

  /** What the run shows: the reset rerun, the completion screen, the error, or a question. */
  datatype Screen =
    | Restarted
    | Finale
    | QuestionMissing
    | Playing(question: Question, assistant: Option<AssistantPrompt>)

  datatype Outcome = Outcome(app: App, screen: Screen)

  // ---------------------------------------------------------------- hints

  /** No index appears twice. */
  predicate Distinct(s: seq<nat>)
  {
    forall i, j :: 0 <= i < j < |s| ==> s[i] != s[j]
  }

  /** The revealed indices are distinct hint positions of a question with `maxClues` hints. */
  predicate ValidHints(revealed: seq<nat>, maxClues: nat)
  {
    Distinct(revealed) && forall k :: 0 <= k < |revealed| ==> revealed[k] < maxClues
  }

  /**
   * The search loop of the reveal button, from position `i`: step past
   * indices already revealed, stopping at `maxClues`.
   */
  function NextClueFrom(revealed: seq<nat>, maxClues: nat, i: nat): (r: nat)
    requires i <= maxClues
    ensures i <= r <= maxClues
    ensures r < maxClues ==> r !in revealed
    ensures forall j :: i <= j < r ==> j in revealed
    decreases maxClues - i
  {
    if i in revealed && i < maxClues then NextClueFrom(revealed, maxClues, i + 1) else i
  }

  /**
   * The index the reveal button would reveal: the smallest index below
   * `maxClues` not yet revealed, or `maxClues` when every one is.
   */
  function NextClueIndex(revealed: seq<nat>, maxClues: nat): (r: nat)
    ensures r <= maxClues
    ensures r < maxClues ==> r !in revealed
    ensures forall j :: 0 <= j < r ==> j in revealed
  {
    NextClueFrom(revealed, maxClues, 0)
  }

  /** The indices `0 .. n - 1`. */
  function Below(n: nat): (r: set<nat>)
    ensures forall j: nat :: j in r <==> j < n
  {
    if n == 0 then {} else Below(n - 1) + {n - 1}
  }

  lemma {:induction false} BelowCard(n: nat)
    ensures |Below(n)| == n
  {
    if n > 0 {
      BelowCard(n - 1);
    }
  }

  /** A subset is no larger than its superset. */
  lemma SubsetCard(a: set<nat>, b: set<nat>)
    requires a <= b
    ensures |a| <= |b|
  {
    assert b == a + (b - a);
  }

  /** The set of indices a list mentions. */
  function Elems(s: seq<nat>): set<nat>
  {
    set k | 0 <= k < |s| :: s[k]
  }

  /** A list mentions at most as many indices as it has entries, and exactly as many if distinct. */
  lemma {:induction false} ElemsCard(s: seq<nat>)
    ensures |Elems(s)| <= |s|
    ensures Distinct(s) ==> |Elems(s)| == |s|
    decreases |s|
  {
    if |s| > 0 {
      var t := s[1..];
      ElemsCard(t);
      assert Elems(s) == {s[0]} + Elems(t);
      if Distinct(s) {
        assert Distinct(t);
        assert s[0] !in Elems(t);
      }
    }
  }

  /** Pigeonhole: distinct indices below `maxClues` number at most `maxClues`. */
  lemma ValidHintsBounded(revealed: seq<nat>, maxClues: nat)
    requires ValidHints(revealed, maxClues)
    ensures |revealed| <= maxClues
  {
    ElemsCard(revealed);
    BelowCard(maxClues);
    SubsetCard(Elems(revealed), Below(maxClues));
  }

  /**
   * While fewer than `maxClues` indices are revealed, the search stops below
   * `maxClues`: the button's inner `next_clue_index < max_clues` test always passes.
   */
  lemma NextClueAvailable(revealed: seq<nat>, maxClues: nat)
    requires |revealed| < maxClues
    ensures NextClueIndex(revealed, maxClues) < maxClues
  {
    var r := NextClueIndex(revealed, maxClues);
    if r == maxClues {
      assert Below(maxClues) <= Elems(revealed) by {
        forall j: nat | j < maxClues ensures j in Elems(revealed) {
          assert j in revealed;
        }
      }
      ElemsCard(revealed);
      BelowCard(maxClues);
      SubsetCard(Below(maxClues), Elems(revealed));
      assert false;
    }
  }

  /** The reveal button is shown for a question: fewer hints revealed than it has, answer not yet right. */
  predicate HintOffered(s: Session, q: Question)
  {
    |s.revealedClues| < |q.clues| && !s.answerCorrect
  }

  /**
   * Pressing the reveal button: the smallest unrevealed index is appended,
   * becomes `last_clue_index`, and is saved as `clues_revealed`. Without the
   * button on screen nothing happens.
   */
  function RevealHint(app: App, q: Question): (r: App)
    ensures !HintOffered(app.session, q) ==> r == app
    ensures HintOffered(app.session, q) ==>
              var revealed := app.session.revealedClues;
              exists k: nat ::
                && k < |q.clues| && k !in revealed
                && (forall j :: 0 <= j < k ==> j in revealed)
                && r.session == app.session.(revealedClues := revealed + [k], lastClueIndex := k)
                && LoadProgress(r.file) == LoadProgress(app.file).(cluesRevealed := k)
  {
    if HintOffered(app.session, q) then
      var k := NextClueIndex(app.session.revealedClues, |q.clues|);
      NextClueAvailable(app.session.revealedClues, |q.clues|);
      var p := LoadProgress(app.file);
      App(SaveProgress(p.(cluesRevealed := k)), app.session.(revealedClues := app.session.revealedClues + [k], lastClueIndex := k))
    else
      app
  }

  /**
   * Revealing keeps the revealed indices distinct and below the question's
   * hint count, so their number never exceeds it.
   */
  lemma RevealKeepsHintsValid(app: App, q: Question)
    requires ValidHints(app.session.revealedClues, |q.clues|)
    ensures ValidHints(RevealHint(app, q).session.revealedClues, |q.clues|)
    ensures |RevealHint(app, q).session.revealedClues| <= |q.clues|
  {
    var r := RevealHint(app, q).session.revealedClues;
    if HintOffered(app.session, q) {
      var s := app.session.revealedClues;
      var k := NextClueIndex(s, |q.clues|);
      NextClueAvailable(s, |q.clues|);
      assert r == s + [k];
      forall i, j | 0 <= i < j < |r| ensures r[i] != r[j] {
        if j == |s| {
          assert r[i] == s[i];
        }
      }
    }
    ValidHintsBounded(r, |q.clues|);
  }

  // ------------------------------------------------------------- answers

  /** The record after a correct answer to `q`: its id completed, the next id current, no hint. */
  function Advance(p: Progress, q: Question): Progress
  {
    Progress(p.completed + [q.id], q.id + 1, 0)
  }

  /**
   * Submitting an answer with the evaluator's verdict. An empty answer is
   * ignored. Otherwise the verdict and feedback are recorded, and a correct
   * verdict advances the record and clears the revealed hints.
   */
  function SubmitAnswerStep(app: App, q: Question, answer: string, v: Verdict): (r: App)
    ensures answer == "" ==> r == app
    ensures answer != "" ==>
              && r.session.answerSubmitted && !r.session.needGeniusHelp
              && r.session.answerCorrect == v.isCorrect && r.session.answerFeedback == v.feedback
              && r.session.geniusResponse == app.session.geniusResponse
              && r.session.gameCompleted == app.session.gameCompleted
              && r.session.showingClue == app.session.showingClue
    ensures answer != "" && !v.isCorrect ==>
              && r.file == app.file
              && r.session.revealedClues == app.session.revealedClues
              && r.session.lastClueIndex == app.session.lastClueIndex
    ensures answer != "" && v.isCorrect ==>
              var p := LoadProgress(app.file);
              && LoadProgress(r.file) == Progress(p.completed + [q.id], q.id + 1, 0)
              && r.session.revealedClues == [] && r.session.lastClueIndex == -1
  {
    if answer == "" then app
    else
      var s := app.session.(answerSubmitted := true, needGeniusHelp := false,
                            answerCorrect := v.isCorrect, answerFeedback := v.feedback);
      if v.isCorrect then
        App(SaveProgress(Advance(LoadProgress(app.file), q)), s.(lastClueIndex := -1, revealedClues := []))
      else
        App(app.file, s)
  }

  // ----------------------------------------------------------- assistant

  /**
   * The positions below `len` in `revealed` whose index names an existing
   * hint of a question with `n` hints, in increasing order: the iterations
   * among the first `len` of the loop whose `i < len(clues)` test passes.
   */
  function InRangeBelow(revealed: seq<nat>, n: nat, len: nat): (f: seq<nat>)
    requires len <= |revealed|
    ensures |f| <= len
    ensures forall t :: 0 <= t < |f| ==> f[t] < len && revealed[f[t]] < n
  {
    if len == 0 then []
    else
      var f := InRangeBelow(revealed, n, len - 1);
      if revealed[len - 1] < n then f + [len - 1] else f
  }

  /**
   * The positions found include every one below `len` whose index is below
   * `n`, each once and in increasing order.
   */
  lemma {:induction false} InRangeBelowExact(revealed: seq<nat>, n: nat, len: nat)
    requires len <= |revealed|
    ensures var f := InRangeBelow(revealed, n, len);
            && (forall s, t :: 0 <= s < t < |f| ==> f[s] < f[t])
            && (forall k :: 0 <= k < len && revealed[k] < n ==> k in f)
  {
    if len > 0 {
      InRangeBelowExact(revealed, n, len - 1);
    }
  }

  /** The hint texts the loop has collected after its first `len` iterations. */
  function TextsBelow(revealed: seq<nat>, clues: seq<string>, len: nat): (r: seq<string>)
    requires len <= |revealed|
    ensures |r| == |InRangeBelow(revealed, |clues|, len)|
    ensures forall t :: 0 <= t < |r| ==> r[t] == clues[revealed[InRangeBelow(revealed, |clues|, len)[t]]]
  {
    if len == 0 then []
    else
      var rest := TextsBelow(revealed, clues, len - 1);
      if revealed[len - 1] < |clues| then rest + [clues[revealed[len - 1]]] else rest
  }

  /** With every revealed index in range, every position is in range. */
  lemma {:induction false} AllInRange(revealed: seq<nat>, n: nat, len: nat)
    requires len <= |revealed|
    requires forall k :: 0 <= k < len ==> revealed[k] < n
    ensures |InRangeBelow(revealed, n, len)| == len
    ensures forall t :: 0 <= t < len ==> InRangeBelow(revealed, n, len)[t] == t
  {
    if len > 0 {
      AllInRange(revealed, n, len - 1);
    }
  }

  /**
   * Over the whole list: every position is in range when every revealed
   * index names an existing hint, and no position is exactly when none does.
   */
  lemma InRangePositions(revealed: seq<nat>, n: nat)
    ensures var f := InRangeBelow(revealed, n, |revealed|);
            && ((forall k :: 0 <= k < |revealed| ==> revealed[k] < n) ==>
                  |f| == |revealed| && forall t :: 0 <= t < |f| ==> f[t] == t)
            && (|f| == 0 <==> forall k :: 0 <= k < |revealed| ==> revealed[k] >= n)
  {
    var f := InRangeBelow(revealed, n, |revealed|);
    InRangeBelowExact(revealed, n, |revealed|);
    if forall k :: 0 <= k < |revealed| ==> revealed[k] < n {
      AllInRange(revealed, n, |revealed|);
    }
    if |f| > 0 {
      assert revealed[f[0]] < n;
    }
  }

  /**
   * The texts of the revealed hints that exist in `clues`, in reveal order:
   * the t-th text is the hint named at the t-th in-range position.
   */
  function RevealedClueTexts(revealed: seq<nat>, clues: seq<string>): (r: seq<string>)
    ensures |r| == |InRangeBelow(revealed, |clues|, |revealed|)|
    ensures forall t :: 0 <= t < |r| ==> r[t] == clues[revealed[InRangeBelow(revealed, |clues|, |revealed|)[t]]]
  {
    TextsBelow(revealed, clues, |revealed|)
  }

  /**
   * When every revealed index exists, the texts are those hints in reveal
   * order; the texts are empty exactly when no revealed index exists.
   */
  lemma RevealedClueTextsCases(revealed: seq<nat>, clues: seq<string>)
    ensures var r := RevealedClueTexts(revealed, clues);
            (forall k :: 0 <= k < |revealed| ==> revealed[k] < |clues|) ==>
              |r| == |revealed| && forall k :: 0 <= k < |r| ==> r[k] == clues[revealed[k]]
    ensures |RevealedClueTexts(revealed, clues)| == 0 <==> forall k :: 0 <= k < |revealed| ==> revealed[k] >= |clues|
  {
    InRangePositions(revealed, |clues|);
  }

  /** The in-range positions are as many as the revealed entries naming an existing hint. */
  lemma InRangeCount(revealed: seq<nat>, n: nat)
    ensures |(set k | 0 <= k < |revealed| && revealed[k] < n)| == |InRangeBelow(revealed, n, |revealed|)|
  {
    var f := InRangeBelow(revealed, n, |revealed|);
    InRangeBelowExact(revealed, n, |revealed|);
    assert (set k | 0 <= k < |revealed| && revealed[k] < n) == Elems(f);
    assert Distinct(f);
    ElemsCard(f);
  }

  /**
   * The `clue_index` handed to the assistant: one less than the number of
   * revealed hints that exist, which is -1 when there are none.
   */
  function AssistantClueIndex(revealed: seq<nat>, clues: seq<string>): (k: int)
    ensures k >= -1
    ensures k + 1 == |RevealedClueTexts(revealed, clues)|
    ensures k == -1 <==> forall j :: 0 <= j < |revealed| ==> revealed[j] >= |clues|
  {
    var content := RevealedClueTexts(revealed, clues);
    RevealedClueTextsCases(revealed, clues);
    if |content| > 0 then |content| - 1 else -1
  }

  /**
   * `clue_index` counts the revealed entries below `len(clues)`, minus one,
   * whatever else the revealed list holds.
   */
  lemma AssistantClueIndexCounts(revealed: seq<nat>, clues: seq<string>)
    ensures AssistantClueIndex(revealed, clues) == |(set k | 0 <= k < |revealed| && revealed[k] < |clues|)| - 1
  {
    InRangeCount(revealed, |clues|);
  }

  /**
   * Asking the assistant: the question's full hint list goes out with the
   * computed `clue_index` and the typed text as the query; the reply is kept
   * as the assistant's response. The progress file and the hints are untouched.
   */
  function AskGeniusStep(app: App, q: Question, query: string, reply: seq<Chunk>): (r: (App, AssistantPrompt))
    ensures r.0.file == app.file
    ensures r.0.session == app.session.(needGeniusHelp := true, answerSubmitted := false,
                                        geniusResponse := AnswerGrader(reply).feedback)
    ensures r.1.questionText == q.text
    ensures r.1.cluesText == CluesText(q.clues, Some(|RevealedClueTexts(app.session.revealedClues, q.clues)| - 1))
    ensures r.1.query.Some? <==> exists k :: 0 <= k < |query| && !IsSpace(query[k])
    ensures r.1.query.Some? ==> r.1.query.value == query
  {
    var call := ClueAssistant(q.clues, q.text, Some(AssistantClueIndex(app.session.revealedClues, q.clues)),
                              Some(query), reply);
    QueryBranchIffNonBlank(Some(query));
    (app.(session := app.session.(needGeniusHelp := true, answerSubmitted := false, geniusResponse := call.response)),
     call.prompt)
  }

  // ---------------------------------------------------------------- runs

  /** The completion check: at least as many completed entries as the declared total. */
  predicate IsComplete(p: Progress, data: CluesData)
  {
    |p.completed| >= data.totalQuestions
  }

  /** The part of a run after the current question `q` is found. */
  function Play(app: App, q: Question, action: Action): Outcome
  {
    match action
    case NoAction => Outcome(app, Playing(q, None))
    case RequestReset => Outcome(app, Playing(q, None))
    case PressRevealHint => Outcome(RevealHint(app, q), Playing(q, None))
    case SubmitAnswer(answer, reply) =>
      Outcome(SubmitAnswerStep(app, q, answer, AnswerGraderIntended(reply)), Playing(q, None))
    case AskGenius(query, reply) =>
      var r := AskGeniusStep(app, q, query, reply);
      Outcome(r.0, Playing(q, Some(r.1)))
  }

  /**
   * One run of `main()`: a reset request is handled first; then a completed
   * game shows the completion screen and nothing else; then a missing
   * current question shows the error; otherwise the action is played on the
   * current question.
   */
  function Step(data: CluesData, app: App, action: Action): Outcome
  {
    if action.RequestReset? then
      Outcome(App(ResetProgress().file, ResetSession(app.session)), Restarted)
    else
      var p := LoadProgress(app.file);
      if IsComplete(p, data) then
        Outcome(app.(session := app.session.(gameCompleted := true)), Finale)
      else
        match GetCurrentQuestion(data, p)
        case None => Outcome(app, QuestionMissing)
        case Some(q) => Play(app, q, action)
  }
}
