/** The listening app's question store: a JSON file holding a list of saved questions. The
    file is the `file` field of a class (None while it cannot be read back as a list of
    records); the clock is a parameter, and so is the outcome of each write. */
module QuestionStore {
  import opened Base
  import opened JsonValue

  /** One saved question: `{'id', 'timestamp', 'practice_type', 'question_data'}`. */
  datatype StoredQuestion = StoredQuestion(id: int, timestamp: string, practiceType: string, questionData: Json)

  /** How the write of `save_question` ends: the file is written; it cannot be opened (and
      is left as it was); or it is opened, truncated, and the dump raises part way (which
      leaves text that no longer reads back as a list). */
  datatype WriteOutcome = Written | OpenFailed | DumpFailed

  /** Every record's id is its position in the file. */
  predicate IdsArePositions(records: seq<StoredQuestion>)
  {
    forall i | 0 <= i < |records| :: records[i].id == i
  }

  /** The first record with the given id, if any. */
  function FirstWithId(records: seq<StoredQuestion>, id: int): (r: Option<StoredQuestion>)
    ensures r.Some? ==> r.value in records && r.value.id == id
    ensures r.None? <==> forall i | 0 <= i < |records| :: records[i].id != id
  {
    if records == [] then None
    else if records[0].id == id then Some(records[0])
    else FirstWithId(records[1..], id)
  }

  class QuestionStore {
    /** The records the file holds, or None when reading it raises. */
    var file: Option<seq<StoredQuestion>>

    /** `__init__` and `_ensure_store_exists`: a missing file is created holding `[]`; an
        existing one is kept as it is (`existing` is None when there is no file). */
    constructor (existing: Option<Option<seq<StoredQuestion>>>)
      ensures existing.None? ==> file == Some([])
      ensures existing.Some? ==> file == existing.value
    {
      if existing.None? {
        file := Some([]);
      } else {
        file := existing.value;
      }
    }

    /** `save_question`: read the list, append a record whose id is the list's length, write
        the list back. Any failure returns False. */
    method SaveQuestion(questionData: Json, practiceType: string, now: string, write: WriteOutcome) returns (ok: bool)
      modifies this
      ensures ok <==> old(file).Some? && write == Written
      ensures ok ==> file == Some(old(file).value + [StoredQuestion(|old(file).value|, now, practiceType, questionData)])
      ensures !ok && old(file).Some? && write == DumpFailed ==> file.None?
      ensures !ok && !(old(file).Some? && write == DumpFailed) ==> file == old(file)
      ensures ok && IdsArePositions(old(file).value) ==> IdsArePositions(file.value)
    {
      if file.None? {
        return false;
      }
      var questions := file.value;
      questions := questions + [StoredQuestion(|questions|, now, practiceType, questionData)];
      match write
      case Written =>
        if IdsArePositions(file.value) {
          AppendKeepsPositions(file.value, now, practiceType, questionData);
        }
        file := Some(questions);
        ok := true;
      case OpenFailed =>
        ok := false;
      case DumpFailed =>
        file := None;
        ok := false;
    }

    /** `get_all_questions`: the list, or [] when the file cannot be read. */
    method GetAllQuestions() returns (questions: seq<StoredQuestion>)
      ensures file.Some? ==> questions == file.value
      ensures file.None? ==> questions == []
    {
      if file.None? {
        return [];
      }
      questions := file.value;
    }

    /** `get_question_by_id`: a linear search for the first record with that id. */
    method GetQuestionById(id: int) returns (found: Option<StoredQuestion>)
      ensures file.Some? ==> found == FirstWithId(file.value, id)
      ensures file.None? ==> found.None?
    {
      var questions := GetAllQuestions();
      var i := 0;
      while i < |questions|
        invariant i <= |questions|
        invariant FirstWithId(questions, id) == FirstWithId(questions[i..], id)
      {
        if questions[i].id == id {
          return Some(questions[i]);
        }
        assert questions[i..][1..] == questions[i + 1..];
        i := i + 1;
      }
      found := None;
    }
  }

  /** A record appended with the list's length as its id keeps ids equal to positions. */
  lemma AppendKeepsPositions(records: seq<StoredQuestion>, now: string, practiceType: string, data: Json)
    requires IdsArePositions(records)
    ensures IdsArePositions(records + [StoredQuestion(|records|, now, practiceType, data)])
  {
  }

  /** In a file written only by `save_question`, looking an id up finds the record at that
      position, and an id outside the positions finds nothing. */
  lemma {:induction false} LookupByPosition(records: seq<StoredQuestion>, id: int)
    requires IdsArePositions(records)
    ensures 0 <= id < |records| ==> FirstWithId(records, id) == Some(records[id])
    ensures !(0 <= id < |records|) ==> FirstWithId(records, id).None?
  {
    if 0 <= id < |records| {
      FirstAt(records, id, id);
    }
  }

  /** The first record with an id is found at the first position holding it. */
  lemma {:induction false} FirstAt(records: seq<StoredQuestion>, k: nat, id: int)
    requires k < |records| && records[k].id == id
    requires forall j | 0 <= j < k :: records[j].id != id
    ensures FirstWithId(records, id) == Some(records[k])
  {
    if k > 0 {
      FirstAt(records[1..], k - 1, id);
    }
  }
}
