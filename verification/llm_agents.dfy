/**
 * The two helpers that call the hosted model: the answer evaluator and the hint
 * assistant ("El Genio"). The service itself is not modelled; its streamed
 * reply is an input, a sequence of chunks. What is modelled is what the code
 * does with that reply and how it shapes the assistant's prompt.
 */
module LlmAgents {
  import opened Wrappers
  import opened Strings

  /**
   * One streamed chunk: the `delta.content` of each of its choices, in order
   * (`None` where the service sent no content).
   */
  datatype Chunk = Chunk(choices: seq<Option<string>>)

  /** What a chunk contributes to the reply text: its first choice's content, or nothing. */
  function Content(c: Chunk): string
  {
    if |c.choices| > 0 && c.choices[0].Some? then c.choices[0].value else ""
  }

  /**
   * The list `result` the streaming loop builds: the content of every chunk
   * that has a choice and non-empty content, in arrival order.
   */
  function Pieces(chunks: seq<Chunk>): (r: seq<string>)
    ensures forall k :: 0 <= k < |r| ==> r[k] != ""
    ensures |r| <= |chunks|
  {
    if |chunks| == 0 then []
    else if Content(chunks[0]) != "" then [Content(chunks[0])] + Pieces(chunks[1..])
    else Pieces(chunks[1..])
  }

  /** `"".join(result)`: the full reply text. */
  function Reply(chunks: seq<Chunk>): string
  {
    Concat(Pieces(chunks))
  }

  /** The reply is the concatenation of every chunk's content: skipping empty ones loses nothing. */
  lemma {:induction false} ReplyIsAllContents(chunks: seq<Chunk>)
    ensures Reply(chunks) == Concat(seq(|chunks|, k requires 0 <= k < |chunks| => Content(chunks[k])))
    decreases |chunks|
  {
    var all := seq(|chunks|, k requires 0 <= k < |chunks| => Content(chunks[k]));
    if |chunks| > 0 {
      ReplyIsAllContents(chunks[1..]);
      assert all[1..] == seq(|chunks| - 1, k requires 0 <= k < |chunks| - 1 => Content(chunks[1..][k]));
    }
  }

  /** Streaming is compositional: the reply to two runs of chunks is the two replies glued. */
  lemma {:induction false} ReplyAppend(a: seq<Chunk>, b: seq<Chunk>)
    ensures Reply(a + b) == Reply(a) + Reply(b)
    decreases |a|
  {
    if |a| == 0 {
      assert a + b == b;
    } else {
      assert (a + b)[1..] == a[1..] + b;
      ReplyAppend(a[1..], b);
      if Content(a[0]) != "" {
        assert Pieces(a + b) == [Content(a[0])] + Pieces(a[1..] + b);
        ConcatAppend([Content(a[0])], Pieces(a[1..] + b));
        ConcatAppend([Content(a[0])], Pieces(a[1..]));
      }
    }
  }

  /** The token whose presence `answer_grader` looks for. */
  const SuccessToken := "CORRECTO"

  /** The token the grading prompt asks the model to use for a wrong answer. */
  const FailureToken := "INCORRECTO"

  /** What `answer_grader` returns: `(is_correct, full_result)`. */
  datatype Verdict = Verdict(isCorrect: bool, feedback: string)

  /**
   * `answer_grader` as written: the feedback is the whole reply, and the
   * answer counts as correct when "CORRECTO" occurs anywhere in it.
   */
  function AnswerGrader(reply: seq<Chunk>): (v: Verdict)
    ensures v.feedback == Concat(seq(|reply|, k requires 0 <= k < |reply| => Content(reply[k])))
    ensures v.isCorrect <==> exists i :: OccursAt(v.feedback, SuccessToken, i)
  {
    ReplyIsAllContents(reply);
    var full := Reply(reply);
    Verdict(Contains(full, SuccessToken), full)
  }

  /**
   * The evaluator as written accepts a reply that opens with "INCORRECTO":
   * the word contains "CORRECTO" from its third letter on.
   */
  lemma IncorrectoGradedCorrect(reply: seq<Chunk>)
    requires FailureToken <= Reply(reply)
    ensures AnswerGrader(reply).isCorrect
  {
    var full := Reply(reply);
    assert full[2..10] == FailureToken[2..];
    ContainsAt(full, SuccessToken, 2);
  }

  /** A concrete reply the evaluator as written misclassifies. */
  lemma IncorrectoReplyExample()
    ensures var reply := [Chunk([Some("INCORRECTO"), None]), Chunk([]), Chunk([Some(", casi!")])];
            AnswerGrader(reply) == Verdict(true, "INCORRECTO, casi!")
  {
    var reply := [Chunk([Some("INCORRECTO"), None]), Chunk([]), Chunk([Some(", casi!")])];
    assert Pieces(reply) == ["INCORRECTO", ", casi!"];
    IncorrectoGradedCorrect(reply);
  }

  /**
   * The verdict the grading prompt asks for: the reply, after leading
   * whitespace, starts with the word "CORRECTO" rather than "INCORRECTO".
   */
  predicate IsCorrectIntended(full: string)
  {
    SuccessToken <= TrimStart(full)
  }

  /** A reply the intended rule accepts is accepted by the rule as written too. */
  lemma IntendedAgreesOnSuccess(full: string)
    ensures IsCorrectIntended(full) ==> Contains(full, SuccessToken)
  {
    var t := TrimStart(full);
    if SuccessToken <= t {
      var off := |full| - |t|;
      assert t == full[off..];
      assert full[off..off + |SuccessToken|] == t[..|SuccessToken|];
      assert OccursAt(full, SuccessToken, off);
    }
  }

  /** The evaluator with the intended verdict; the feedback text is the same. */
  function AnswerGraderIntended(reply: seq<Chunk>): (v: Verdict)
    ensures v.feedback == AnswerGrader(reply).feedback
    ensures v.isCorrect ==> AnswerGrader(reply).isCorrect
    ensures FailureToken <= TrimStart(v.feedback) ==> !v.isCorrect
    ensures SuccessToken <= TrimStart(v.feedback) ==> v.isCorrect
    ensures v.isCorrect ==> SuccessToken <= TrimStart(v.feedback)
  {
    var full := Reply(reply);
    IntendedAgreesOnSuccess(full);
    Verdict(IsCorrectIntended(full), full)
  }

  /**
   * `clues[:stop]` with Python's slice rules: a negative stop counts from
   * the end, and a stop past the end is clamped.
   */
  function SliceTo<T>(s: seq<T>, stop: int): (r: seq<T>)
    ensures r <= s
    ensures 0 <= stop ==> |r| == if stop <= |s| then stop else |s|
    ensures stop < 0 ==> |r| == if -stop <= |s| then |s| + stop else 0
  {
    if 0 <= stop then (if stop <= |s| then s[..stop] else s)
    else if -stop <= |s| then s[..|s| + stop]
    else []
  }

  /** One line of the hint text: `f"Pista {n}: {clue}"`. */
  function NumberedClue(n: nat, clue: string): string
  {
    "Pista " + Decimal(n) + ": " + clue
  }

  /** The clues of a list, each numbered from 1. */
  function Numbered(clues: seq<string>): (r: seq<string>)
    ensures |r| == |clues|
    ensures forall j :: 0 <= j < |r| ==> r[j] == NumberedClue(j + 1, clues[j])
  {
    seq(|clues|, j requires 0 <= j < |clues| => NumberedClue(j + 1, clues[j]))
  }

  /**
   * `clues_text` of `clue_assistant`: the numbered clues up to and including
   * `clue_index`, one per line; empty when `clue_index` is `None`.
   */
  function CluesText(clues: seq<string>, clueIndex: Option<int>): string
  {
    match clueIndex
    case None => ""
    case Some(k) => Join("\n", Numbered(SliceTo(clues, k + 1)))
  }

  /** How many clues `clues_text` lists for `clue_index = k >= -1`. */
  function ListedCount(clues: seq<string>, k: int): nat
    requires k >= -1
  {
    if k + 1 <= |clues| then k + 1 else |clues|
  }

  /** A numbered line has a newline only where its clue has one. */
  lemma NumberedClueOneLine(n: nat, clue: string)
    requires '\n' !in clue
    ensures '\n' !in NumberedClue(n, clue)
  {
  }

  /** With no `clue_index` there is no hint text. */
  lemma CluesTextNone(clues: seq<string>)
    ensures CluesText(clues, None) == ""
  {
  }

  /**
   * For any `clue_index = k >= -1`, `clues_text` joins with line breaks the
   * first `min(k + 1, len(clues))` clues, each numbered from 1.
   */
  lemma CluesTextJoin(clues: seq<string>, k: int)
    requires k >= -1
    ensures CluesText(clues, Some(k)) ==
              Join("\n", seq(ListedCount(clues, k), j requires 0 <= j < ListedCount(clues, k) => NumberedClue(j + 1, clues[j])))
  {
    var listed := SliceTo(clues, k + 1);
    assert |listed| == ListedCount(clues, k);
    assert Numbered(listed) ==
             seq(ListedCount(clues, k), j requires 0 <= j < ListedCount(clues, k) => NumberedClue(j + 1, clues[j]));
  }

  /**
   * For `clue_index = k >= -1` and clues without line breaks, `clues_text`
   * is empty when nothing is listed, and otherwise has exactly
   * `min(k + 1, len(clues))` lines, line j reading "Pista j: " and clue j - 1.
   */
  lemma CluesTextLines(clues: seq<string>, k: int)
    requires k >= -1
    requires forall j :: 0 <= j < |clues| ==> '\n' !in clues[j]
    ensures ListedCount(clues, k) == 0 ==> CluesText(clues, Some(k)) == ""
    ensures k == -1 ==> CluesText(clues, Some(k)) == ""
    ensures ListedCount(clues, k) > 0 ==>
              var lines := Split(CluesText(clues, Some(k)), '\n');
              |lines| == ListedCount(clues, k) &&
              forall j :: 0 <= j < |lines| ==> lines[j] == NumberedClue(j + 1, clues[j])
  {
    var listed := SliceTo(clues, k + 1);
    var lines := Numbered(listed);
    assert |listed| == ListedCount(clues, k);
    assert CluesText(clues, Some(k)) == Join("\n", lines);
    if |lines| > 0 {
      forall j | 0 <= j < |lines| ensures '\n' !in lines[j] {
        NumberedClueOneLine(j + 1, listed[j]);
      }
      SplitJoin(lines, '\n');
    }
  }

  /**
   * The prompt pieces `clue_assistant` varies: the question, the hint text,
   * and the user's query when the query branch is taken.
   */
  datatype AssistantPrompt = AssistantPrompt(questionText: string, cluesText: string, query: Option<string>)

  /** The condition `user_query and user_query.strip()`. */
  predicate TakesQueryBranch(userQuery: Option<string>)
  {
    userQuery.Some? && userQuery.value != "" && Strip(userQuery.value) != ""
  }

  /** The query branch is taken exactly when a query is given with some non-whitespace character. */
  lemma QueryBranchIffNonBlank(userQuery: Option<string>)
    ensures TakesQueryBranch(userQuery) <==>
              userQuery.Some? && exists k :: 0 <= k < |userQuery.value| && !IsSpace(userQuery.value[k])
  {
  }

  /** What `clue_assistant` sends and returns. */
  datatype AssistantCall = AssistantCall(prompt: AssistantPrompt, response: string)

  /**
   * `clue_assistant`: the prompt embeds the hint text for `clue_index` and the
   * query when it is not blank; the answer is the whole streamed reply.
   */
  function ClueAssistant(clues: seq<string>, questionText: string, clueIndex: Option<int>,
                         userQuery: Option<string>, reply: seq<Chunk>): (r: AssistantCall)
    ensures r.prompt.questionText == questionText
    ensures r.prompt.cluesText == CluesText(clues, clueIndex)
    ensures r.prompt.query.Some? <==> TakesQueryBranch(userQuery)
    ensures r.prompt.query.Some? ==> r.prompt.query == userQuery
    ensures r.response == AnswerGrader(reply).feedback
  {
    var query := if TakesQueryBranch(userQuery) then userQuery else None;
    AssistantCall(AssistantPrompt(questionText, CluesText(clues, clueIndex), query), Reply(reply))
  }
}
