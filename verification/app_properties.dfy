/**
 * Properties of whole runs of `main()`: what a reset, the completion check,
 * a correct or an incorrect answer and the assistant hand-off do to the
 * state, and the invariant every run keeps.
 */
module AppProperties {
  import opened Wrappers
  import opened Strings
  import opened GameManager
  import opened LlmAgents
  import opened StreamlitApp

  /** Hints are revealed in order: the k-th revealed index is k. */
  predicate InOrder(revealed: seq<nat>)
  {
    forall k :: 0 <= k < |revealed| ==> revealed[k] == k
  }

  /**
   * What holds between runs: `showing_clue` is never set, the revealed hints
   * are `0, 1, ...` and fit the current question, and `last_clue_index` is
   * the last of them (-1 when there is none).
   */
  predicate Inv(data: CluesData, app: App)
  {
    var s := app.session;
    && !s.showingClue
    && InOrder(s.revealedClues)
    && s.lastClueIndex == |s.revealedClues| - 1
    && match GetCurrentQuestion(data, LoadProgress(app.file))
       case Some(q) => |s.revealedClues| <= |q.clues|
       case None => true
  }

  /** In-order hints of the current question are valid hints: distinct and in range. */
  lemma InvGivesValidHints(data: CluesData, app: App, q: Question)
    requires Inv(data, app)
    requires GetCurrentQuestion(data, LoadProgress(app.file)) == Some(q)
    ensures ValidHints(app.session.revealedClues, |q.clues|)
  {
  }

  /** In-order hints are exactly the indices below their number. */
  lemma InOrderElems(revealed: seq<nat>)
    requires InOrder(revealed)
    ensures forall j: nat :: j in revealed <==> j < |revealed|
  {
    forall j: nat | j < |revealed| ensures j in revealed {
      assert revealed[j] == j;
    }
  }

  /** With hints revealed in order, the next one revealed is the next in line. */
  lemma InOrderNextClue(revealed: seq<nat>, maxClues: nat)
    requires InOrder(revealed) && |revealed| < maxClues
    ensures NextClueIndex(revealed, maxClues) == |revealed|
  {
    InOrderElems(revealed);
    var r := NextClueIndex(revealed, maxClues);
    assert r in revealed <==> r < |revealed|;
    assert |revealed| !in revealed;
  }

  /** The first run starts in a state satisfying the invariant, whatever the file holds. */
  lemma StartSatisfiesInv(data: CluesData, file: ProgressFile)
    ensures Inv(data, Start(file))
  {
  }

  /** Every run, whatever the action, keeps the invariant. */
  lemma StepPreservesInv(data: CluesData, app: App, action: Action)
    requires Inv(data, app)
    ensures Inv(data, Step(data, app, action).app)
  {
    var p := LoadProgress(app.file);
    if !action.RequestReset? && !IsComplete(p, data) {
      match GetCurrentQuestion(data, p)
      case None =>
      case Some(q) =>
        if action.PressRevealHint? && HintOffered(app.session, q) {
          var s := app.session.revealedClues;
          InOrderNextClue(s, |q.clues|);
          var r := RevealHint(app, q);
          assert r.session.revealedClues == s + [|s|];
          assert LoadProgress(r.file).current == p.current;
          assert GetCurrentQuestion(data, LoadProgress(r.file)) == Some(q);
        }
    }
  }

  /** A reset request restores the reset record and, under the invariant, the initial session. */
  lemma ResetRestoresInitial(data: CluesData, app: App)
    requires Inv(data, app)
    ensures var o := Step(data, app, RequestReset);
            && o.screen == Restarted
            && LoadProgress(o.app.file) == ResetProgress().record
            && o.app.session == InitialSession()
  {
  }

  /** Resetting twice leaves the same state as resetting once, in any state. */
  lemma ResetIdempotent(data: CluesData, app: App)
    ensures var once := Step(data, app, RequestReset);
            Step(data, once.app, RequestReset) == once
  {
  }

  /**
   * The completion screen is shown exactly when no reset is requested and the
   * completed list is at least as long as the declared total. It then only
   * marks the game completed: no action is processed and the game stays complete.
   */
  lemma CompletionScreen(data: CluesData, app: App, action: Action)
    ensures var o := Step(data, app, action);
            o.screen == Finale <==> !action.RequestReset? && |LoadProgress(app.file).completed| >= data.totalQuestions
    ensures var o := Step(data, app, action);
            o.screen == Finale ==>
              && o.app == App(app.file, app.session.(gameCompleted := true))
              && IsComplete(LoadProgress(o.app.file), data)
  {
  }

  /**
   * When no question carries the current id, the run shows the error and
   * leaves the state as it was, whatever was pressed; only a reset recovers.
   */
  lemma MissingQuestionChangesNothing(data: CluesData, app: App, action: Action)
    requires !action.RequestReset?
    requires !IsComplete(LoadProgress(app.file), data)
    requires forall j :: 0 <= j < |data.questions| ==> data.questions[j].id != LoadProgress(app.file).current
    ensures Step(data, app, action) == Outcome(app, QuestionMissing)
  {
  }

  /**
   * A correct answer to the current question appends its id to the completed
   * list, makes the next id current, zeroes `clues_revealed` and clears the
   * revealed hints; the evaluator's feedback is kept.
   */
  lemma CorrectAnswerAdvances(data: CluesData, app: App, answer: string, reply: seq<Chunk>)
    requires answer != ""
    requires !IsComplete(LoadProgress(app.file), data)
    requires GetCurrentQuestion(data, LoadProgress(app.file)).Some?
    requires AnswerGraderIntended(reply).isCorrect
    ensures var p := LoadProgress(app.file);
            var o := Step(data, app, SubmitAnswer(answer, reply));
            && LoadProgress(o.app.file) == Progress(p.completed + [p.current], p.current + 1, 0)
            && o.app.session.revealedClues == [] && o.app.session.lastClueIndex == -1
            && o.app.session.answerCorrect && o.app.session.answerFeedback == AnswerGrader(reply).feedback
  {
  }

  /** An incorrect answer changes neither the progress file nor the revealed hints. */
  lemma IncorrectAnswerKeepsProgress(data: CluesData, app: App, answer: string, reply: seq<Chunk>)
    requires !AnswerGraderIntended(reply).isCorrect
    ensures var o := Step(data, app, SubmitAnswer(answer, reply));
            && o.app.file == app.file
            && o.app.session.revealedClues == app.session.revealedClues
            && o.app.session.lastClueIndex == app.session.lastClueIndex
  {
    var p := LoadProgress(app.file);
    if !IsComplete(p, data) {
      match GetCurrentQuestion(data, p)
      case None =>
      case Some(q) =>
        var r := SubmitAnswerStep(app, q, answer, AnswerGraderIntended(reply));
        assert Step(data, app, SubmitAnswer(answer, reply)).app == r;
    }
  }

  /**
   * `answer_correct` stays set after a correct answer, so on the next
   * question the reveal button is hidden until another answer is graded:
   * pressing it reveals nothing.
   */
  lemma HintsLockedAfterCorrectAnswer(data: CluesData, app: App, answer: string, reply: seq<Chunk>)
    requires answer != ""
    requires !IsComplete(LoadProgress(app.file), data)
    requires GetCurrentQuestion(data, LoadProgress(app.file)).Some?
    requires AnswerGraderIntended(reply).isCorrect
    ensures var after := Step(data, app, SubmitAnswer(answer, reply)).app;
            var next := Step(data, after, PressRevealHint).app;
            next.file == after.file && next.session.revealedClues == []
  {
    var p := LoadProgress(app.file);
    var q := GetCurrentQuestion(data, p).value;
    var after := SubmitAnswerStep(app, q, answer, AnswerGraderIntended(reply));
    assert Step(data, app, SubmitAnswer(answer, reply)).app == after;
    assert after.session.answerCorrect && after.session.revealedClues == [];
    var p2 := LoadProgress(after.file);
    if !IsComplete(p2, data) {
      match GetCurrentQuestion(data, p2)
      case None =>
      case Some(q2) =>
        assert RevealHint(after, q2) == after;
    }
  }

  /**
   * When the assistant is asked, with hints revealed in order and no line
   * break inside a hint, the hint text it receives lists exactly the revealed
   * hints, numbered from 1, and is empty when none is revealed.
   */
  lemma HandOffListsRevealedClues(app: App, q: Question, query: string, reply: seq<Chunk>)
    requires InOrder(app.session.revealedClues)
    requires |app.session.revealedClues| <= |q.clues|
    requires forall j :: 0 <= j < |q.clues| ==> '\n' !in q.clues[j]
    ensures var revealed := app.session.revealedClues;
            var text := AskGeniusStep(app, q, query, reply).1.cluesText;
            && (|revealed| == 0 ==> text == "")
            && (|revealed| > 0 ==>
                  var lines := Split(text, '\n');
                  |lines| == |revealed| &&
                  forall j :: 0 <= j < |lines| ==> lines[j] == NumberedClue(j + 1, q.clues[revealed[j]]))
  {
    var revealed := app.session.revealedClues;
    InOrderTextCount(revealed, q.clues);
    HandOffCluesText(app, q, query, reply);
    InOrderCluesText(revealed, q.clues);
  }

  /**
   * When the assistant is asked with hints revealed in order, whatever the
   * hints contain, the hint text it receives joins with line breaks the
   * revealed hints, numbered from 1.
   */
  lemma HandOffJoinsRevealedClues(app: App, q: Question, query: string, reply: seq<Chunk>)
    requires InOrder(app.session.revealedClues)
    requires |app.session.revealedClues| <= |q.clues|
    ensures var revealed := app.session.revealedClues;
            AskGeniusStep(app, q, query, reply).1.cluesText ==
              Join("\n", seq(|revealed|, j requires 0 <= j < |revealed| => NumberedClue(j + 1, q.clues[revealed[j]])))
  {
    var revealed := app.session.revealedClues;
    InOrderTextCount(revealed, q.clues);
    HandOffCluesText(app, q, query, reply);
    InOrderCluesJoin(revealed, q.clues);
  }

  /** When every revealed hint is passed on, `clue_index` is the last revealed position. */
  lemma HandOffCluesText(app: App, q: Question, query: string, reply: seq<Chunk>)
    requires |RevealedClueTexts(app.session.revealedClues, q.clues)| == |app.session.revealedClues|
    ensures AskGeniusStep(app, q, query, reply).1.cluesText == CluesText(q.clues, Some(|app.session.revealedClues| - 1))
  {
  }

  /** The hint text for in-order hints joins them, numbered, whatever they contain. */
  lemma InOrderCluesJoin(revealed: seq<nat>, clues: seq<string>)
    requires InOrder(revealed)
    requires |revealed| <= |clues|
    ensures CluesText(clues, Some(|revealed| - 1)) ==
              Join("\n", seq(|revealed|, j requires 0 <= j < |revealed| => NumberedClue(j + 1, clues[revealed[j]])))
  {
    var k := |revealed| - 1;
    CluesTextJoin(clues, k);
    assert ListedCount(clues, k) == |revealed|;
    assert seq(ListedCount(clues, k), j requires 0 <= j < ListedCount(clues, k) => NumberedClue(j + 1, clues[j])) ==
           seq(|revealed|, j requires 0 <= j < |revealed| => NumberedClue(j + 1, clues[revealed[j]]));
  }

  /** The hint text for in-order hints lists them, one numbered line each. */
  lemma InOrderCluesText(revealed: seq<nat>, clues: seq<string>)
    requires InOrder(revealed)
    requires |revealed| <= |clues|
    requires forall j :: 0 <= j < |clues| ==> '\n' !in clues[j]
    ensures var text := CluesText(clues, Some(|revealed| - 1));
            && (|revealed| == 0 ==> text == "")
            && (|revealed| > 0 ==>
                  var lines := Split(text, '\n');
                  |lines| == |revealed| &&
                  forall j :: 0 <= j < |lines| ==> lines[j] == NumberedClue(j + 1, clues[revealed[j]]))
  {
    var k := |revealed| - 1;
    CluesTextLines(clues, k);
    assert ListedCount(clues, k) == |revealed|;
    if |revealed| > 0 {
      var lines := Split(CluesText(clues, Some(k)), '\n');
      forall j | 0 <= j < |lines| ensures lines[j] == NumberedClue(j + 1, clues[revealed[j]]) {
        assert revealed[j] == j;
      }
    }
  }

  /** With in-order hints that all exist, every revealed hint is passed on. */
  lemma InOrderTextCount(revealed: seq<nat>, clues: seq<string>)
    requires InOrder(revealed)
    requires |revealed| <= |clues|
    ensures |RevealedClueTexts(revealed, clues)| == |revealed|
  {
    assert forall j :: 0 <= j < |revealed| ==> revealed[j] < |clues|;
    RevealedClueTextsCases(revealed, clues);
  }
}
