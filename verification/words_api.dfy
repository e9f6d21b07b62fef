/** The registered word endpoints: `GET /api/words`, every word with its review tally, and
    `GET /api/words/:id`. Both only read the store. */
module WordsApi {
  import opened Base
  import opened PortalSchema

  /** One word with the number of its correct and wrong reviews. */
  datatype WordItem = WordItem(
    id: nat, kanji: string, romaji: string, english: string, parts: Option<string>,
    correctCount: nat, wrongCount: nat)

  /** The listing and its fixed pagination descriptor. */
  datatype WordListing = WordListing(
    items: seq<WordItem>, currentPage: nat, totalPages: nat, totalItems: nat, itemsPerPage: nat)

  /** A word's row of the `words LEFT JOIN word_review_items ... GROUP BY w.id` query. */
  function ItemOf(db: Db, w: Word): WordItem
  {
    WordItem(w.id, w.kanji, w.romaji, w.english, w.parts,
             Count(db.reviews, CorrectOfWord(w.id)), Count(db.reviews, WrongOfWord(w.id)))
  }

  /** `WordListAPI.get`: one item per word, in rowid order, never paginated. */
  function List(db: Db): (r: WordListing)
    ensures |r.items| == |db.words| == r.totalItems
    ensures forall i | 0 <= i < |db.words| ::
      && r.items[i].id == db.words[i].id && r.items[i].kanji == db.words[i].kanji
      && r.items[i].romaji == db.words[i].romaji && r.items[i].english == db.words[i].english
      && r.items[i].parts == db.words[i].parts
    ensures r.currentPage == 1 && r.totalPages == 1 && r.itemsPerPage == PER_PAGE
  {
    var items := seq(|db.words|, i requires 0 <= i < |db.words| => ItemOf(db, db.words[i]));
    WordListing(items, 1, 1, |items|, PER_PAGE)
  }

  /** Each word's correct and wrong counts split its reviews between them; a word nobody
      reviewed is listed with both counts 0. */
  lemma ListCountsCoverReviews(db: Db)
    ensures forall i | 0 <= i < |List(db).items| ::
      List(db).items[i].correctCount + List(db).items[i].wrongCount
        == Count(db.reviews, ReviewsOfWord(db.words[i].id))
    ensures forall i | 0 <= i < |List(db).items| ::
      Count(db.reviews, ReviewsOfWord(db.words[i].id)) == 0 ==>
        List(db).items[i].correctCount == 0 && List(db).items[i].wrongCount == 0
  {
    forall i | 0 <= i < |db.words| {
      CorrectPlusWrong(db.reviews, db.words[i].id);
    }
  }

  const WORD_NOT_FOUND := "Word not found"

  /** `WordAPI.get`: the row with that id, or 404. */
  function Get(db: Db, id: nat): (r: Reply<Word>)
    ensures r.Found? ==> r.value in db.words && r.value.id == id
    ensures r.Refused? <==> id !in Keys(db.words, WordKey)
    ensures r.Refused? ==> r.status == NotFound(Some(WORD_NOT_FOUND))
  {
    match Find(db.words, WordKey, id)
    case Some(w) => Found(w)
    case None => Refused(NotFound(Some(WORD_NOT_FOUND)))
  }

  /** In a well-formed store the word found is the only one with that id. */
  lemma GetExisting(db: Db, w: Word)
    requires WellFormed(db) && w in db.words
    ensures Get(db, w.id) == Found(w)
  {
    FindUnique(db.words, WordKey, w);
  }
}
