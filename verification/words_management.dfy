/** The alternative, unregistered word endpoints: a paginated list, create, get, partial
    update and delete. The request's `japanese` key feeds the `kanji` column. */
module WordsManagement {
  import opened Base
  import opened JsonValue
  import opened PortalSchema
  import opened PortalStore
  import opened Text

  /** A JSON request body: each known key is absent (None) or present with its value;
      `otherKeys` records whether the object holds any key not listed here. */
  datatype WordBody = WordBody(
    japanese: Option<string>, romaji: Option<string>, english: Option<string>,
    parts: Option<Json>, otherKeys: bool)

  /** `not data`: no body at all, or the empty object. */
  predicate Falsy(body: Option<WordBody>)
  {
    body.None? ||
    (body.value.japanese.None? && body.value.romaji.None? && body.value.english.None?
     && body.value.parts.None? && !body.value.otherKeys)
  }

  /** The three keys a create needs are all present. */
  predicate HasRequired(body: Option<WordBody>)
  {
    body.Some? && body.value.japanese.Some? && body.value.romaji.Some? && body.value.english.Some?
  }

  datatype WordSummary = WordSummary(id: nat, kanji: string, romaji: string, english: string)

  /** `WordListAPI.get`: the first page of 100 words in rowid order. */
  function List(db: Db): (r: Page<WordSummary>)
    ensures r.totalItems == |db.words| && |r.items| == Min(|db.words|, PER_PAGE)
    ensures forall i | 0 <= i < |r.items| ::
      r.items[i] == WordSummary(db.words[i].id, db.words[i].kanji, db.words[i].romaji, db.words[i].english)
  {
    Paginate(seq(|db.words|, i requires 0 <= i < |db.words| =>
      WordSummary(db.words[i].id, db.words[i].kanji, db.words[i].romaji, db.words[i].english)))
  }

  const FIELDS_REQUIRED := "Japanese, Romaji, and English fields are required"
  const NO_DATA := "No data provided"

  /** The `parts` column a create stores: the encoding of the given value when the key is
      present (JSON `null` included), NULL when it is absent. */
  function PartsForCreate(body: WordBody, codec: JsonCodec): (r: Option<string>)
    ensures r.Some? <==> body.parts.Some?
    ensures body.parts.Some? ==> r == Some(codec.dumps(body.parts.value))
  {
    if body.parts.Some? then Some(codec.dumps(body.parts.value)) else None
  }

  /** `WordListAPI.post`: 400 without creating anything unless japanese, romaji and english are
      all given; otherwise exactly one word is added and 201 returned with it. */
  method Post(store: Store, body: Option<WordBody>, codec: JsonCodec) returns (status: Status, created: Option<Word>)
    modifies store
    requires store.Valid()
    ensures store.Valid()
    ensures !HasRequired(body) ==>
      status == BadRequest(FIELDS_REQUIRED) && created.None? && store.Snapshot() == old(store.Snapshot())
    ensures HasRequired(body) ==>
      var b := body.value;
      var w := Word(old(store.nextWordId), b.japanese.value, b.romaji.value, b.english.value, PartsForCreate(b, codec));
      && status == Created && created == Some(w)
      && store.Snapshot() == AddWord(old(store.Snapshot()), w.kanji, w.romaji, w.english, w.parts)
  {
    if !HasRequired(body) {
      return BadRequest(FIELDS_REQUIRED), None;
    }
    var b := body.value;
    var parts := PartsForCreate(b, codec);
    var id := store.InsertWord(b.japanese.value, b.romaji.value, b.english.value, parts);
    return Created, Some(Word(id, b.japanese.value, b.romaji.value, b.english.value, parts));
  }

  /** `WordAPI.get` (`get_or_404`). */
  function Get(db: Db, id: nat): (r: Reply<Word>)
    ensures r.Found? ==> r.value in db.words && r.value.id == id
    ensures r.Refused? <==> id !in Keys(db.words, WordKey)
    ensures r.Refused? ==> r.status == NotFound(None)
  {
    match Find(db.words, WordKey, id)
    case Some(w) => Found(w)
    case None => Refused(NotFound(None))
  }

  /** The value `data.get('parts', word.parts)` leaves in the column once committed: the old
      value when the key is absent, NULL for `null`, and otherwise what the text column makes
      of the bound value: a string as it is, an integer as its decimal text, a boolean as the
      integer 1 or 0 that `sqlite3` binds for it. None when the value is a list or an object,
      which `sqlite3` cannot bind. */
  function PartsForUpdate(old_: Option<string>, given: Option<Json>): (r: Option<Option<string>>)
    ensures given.None? ==> r == Some(old_)
    ensures r.None? <==> given.Some? && (given.value.JArr? || given.value.JObj?)
    ensures given == Some(JNull) ==> r == Some(None)
    ensures given.Some? && given.value.JStr? ==> r == Some(Some(given.value.s))
    ensures given.Some? && given.value.JNum? ==> r == Some(Some(IntText(given.value.n)))
    ensures given.Some? && given.value.JBool? ==> r == Some(Some(if given.value.b then "1" else "0"))
  {
    match given
    case None => Some(old_)
    case Some(JNull) => Some(None)
    case Some(JStr(s)) => Some(Some(s))
    case Some(JNum(n)) => Some(Some(IntText(n)))
    case Some(JBool(b)) => Some(Some(if b then "1" else "0"))
    case Some(_) => None
  }

  /** The row after a partial update: every key absent from the body keeps its old value. */
  function Updated(w: Word, b: WordBody, parts: Option<string>): (r: Word)
    ensures r.id == w.id && r.parts == parts
    ensures b.japanese.None? ==> r.kanji == w.kanji
    ensures b.romaji.None? ==> r.romaji == w.romaji
    ensures b.english.None? ==> r.english == w.english
    ensures b.japanese.Some? ==> r.kanji == b.japanese.value
    ensures b.romaji.Some? ==> r.romaji == b.romaji.value
    ensures b.english.Some? ==> r.english == b.english.value
  {
    Word(w.id,
         if b.japanese.Some? then b.japanese.value else w.kanji,
         if b.romaji.Some? then b.romaji.value else w.romaji,
         if b.english.Some? then b.english.value else w.english,
         parts)
  }

  /** `WordAPI.put`: 404 for a missing id, then 400 for an empty body, then a partial update;
      a `parts` value the column cannot bind fails the commit (500) and changes nothing. */
  method Put(store: Store, id: nat, body: Option<WordBody>) returns (status: Status, updated: Option<Word>)
    modifies store
    requires store.Valid()
    ensures store.Valid()
    ensures status != Ok ==> store.Snapshot() == old(store.Snapshot()) && updated.None?
    ensures id !in Keys(old(store.words), WordKey) ==> status == NotFound(None)
    ensures id in Keys(old(store.words), WordKey) && Falsy(body) ==> status == BadRequest(NO_DATA)
    ensures status == Ok <==>
      id in Keys(old(store.words), WordKey) && !Falsy(body)
      && PartsForUpdate(Find(old(store.words), WordKey, id).value.parts, body.value.parts).Some?
    ensures status == Ok ==>
      var w := Find(old(store.words), WordKey, id).value;
      var w' := Updated(w, body.value, PartsForUpdate(w.parts, body.value.parts).value);
      updated == Some(w') && store.Snapshot() == ReplaceWord(old(store.Snapshot()), w')
  {
    var found := Find(store.words, WordKey, id);
    if found.None? {
      return NotFound(None), None;
    }
    if Falsy(body) {
      return BadRequest(NO_DATA), None;
    }
    var w := found.value;
    var parts := PartsForUpdate(w.parts, body.value.parts);
    if parts.None? {
      return ServerError, None;
    }
    var w' := Updated(w, body.value, parts.value);
    store.UpdateWord(w');
    return Ok, Some(w');
  }

  /** `WordAPI.delete`: 404 for a missing id, otherwise exactly that word is removed (204). */
  method Delete(store: Store, id: nat) returns (status: Status)
    modifies store
    requires store.Valid()
    ensures store.Valid()
    ensures id !in Keys(old(store.words), WordKey) ==>
      status == NotFound(None) && store.Snapshot() == old(store.Snapshot())
    ensures id in Keys(old(store.words), WordKey) ==>
      status == NoContent && store.Snapshot() == RemoveWord(old(store.Snapshot()), id)
  {
    if Find(store.words, WordKey, id).None? {
      return NotFound(None);
    }
    store.DeleteWord(id);
    return NoContent;
  }

  /** Deleting an existing word removes exactly one row. */
  lemma DeleteRemovesOne(db: Db, id: nat)
    requires WellFormed(db) && id in Keys(db.words, WordKey)
    ensures |RemoveWord(db, id).words| == |db.words| - 1
  {
    RemoveOne(db.words, WordKey, id);
  }
}
