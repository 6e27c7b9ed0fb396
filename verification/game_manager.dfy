/**
 * The progress record of the one linear game and the lookup of the current
 * question. Reading and writing the YAML files is reduced to a value that is
 * either missing or holds the last record saved.
 */
module GameManager {
  import opened Wrappers

  /** One riddle of the static configuration: its ordinal id, prompt, hints and answer. */
  datatype Question = Question(id: int, text: string, clues: seq<string>, answer: string)

  /** The loaded configuration: the questions in file order and the declared total. */
  datatype CluesData = CluesData(questions: seq<Question>, totalQuestions: int)

  /**
   * The progress record. `completed` is a list, appended to on every correct
   * answer and never de-duplicated; `cluesRevealed` holds the index of the
   * last hint revealed, not a count.
   */
  datatype Progress = Progress(completed: seq<int>, current: int, cluesRevealed: int)

  /** The progress file: absent, or holding the record written last. */
  datatype ProgressFile = Missing | Stored(record: Progress)

  /** What `reset_progress` leaves behind: the file it wrote and the record it returns. */
  datatype Saved = Saved(file: ProgressFile, record: Progress)

  /** `save_progress`: the file afterwards holds exactly the given record. */
  function SaveProgress(p: Progress): (f: ProgressFile)
    ensures LoadProgress(f) == p
  {
    Stored(p)
  }

  /** `reset_progress`: a fresh record, written to the file and returned. */
  function ResetProgress(): (r: Saved)
    ensures r.record.completed == [] && r.record.current == 1 && r.record.cluesRevealed == 0
    ensures LoadProgress(r.file) == r.record
  {
    var p := Progress([], 1, 0);
    Saved(SaveProgress(p), p)
  }

  /** `load_progress`: the stored record, or the default one when the file does not exist. */
  function LoadProgress(f: ProgressFile): (p: Progress)
  {
    match f
    case Missing => Progress([], 1, 0)
    case Stored(record) => record
  }

  /** The default of a missing file is the record a reset produces. */
  lemma LoadMissingIsReset()
    ensures LoadProgress(Missing) == ResetProgress().record
  {
  }

  /** The position of the first question with the given id, in list order. */
  function FirstIndexWithId(qs: seq<Question>, id: int): (r: Option<nat>)
    ensures r.Some? ==> r.value < |qs| && qs[r.value].id == id
    ensures r.Some? ==> forall j :: 0 <= j < r.value ==> qs[j].id != id
    ensures r.None? <==> forall j :: 0 <= j < |qs| ==> qs[j].id != id
  {
    if |qs| == 0 then None
    else if qs[0].id == id then Some(0)
    else
      match FirstIndexWithId(qs[1..], id)
      case None => None
      case Some(k) => Some(k + 1)
  }

  /**
   * `get_current_question`: the first question, in list order, whose id is the
   * record's current id; `None` when there is none.
   */
  function GetCurrentQuestion(data: CluesData, p: Progress): (r: Option<Question>)
    ensures r.Some? ==> r.value.id == p.current
    ensures r.Some? ==> exists i :: 0 <= i < |data.questions| && data.questions[i] == r.value
                                  && forall j :: 0 <= j < i ==> data.questions[j].id != p.current
    ensures r.None? <==> forall j :: 0 <= j < |data.questions| ==> data.questions[j].id != p.current
  {
    match FirstIndexWithId(data.questions, p.current)
    case None => None
    case Some(i) => Some(data.questions[i])
  }
}
