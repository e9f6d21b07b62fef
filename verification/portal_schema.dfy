/** The six tables of the lang-portal database as values, the constraints the schema puts on
    them, the row-level updates every handler and script is built from, and the response
    statuses and pagination descriptor the handlers share. */
module PortalSchema {
  import opened Base
  import opened JsonValue

  // ---------------------------------------------------------------- records

  /** A vocabulary entry; `parts` holds JSON text or is NULL. */
  datatype Word = Word(id: nat, kanji: string, romaji: string, english: string, parts: Option<string>)

  /** One row of the word/group association; the pair is the table's primary key. */
  datatype WordGroup = WordGroup(wordId: nat, groupId: nat)

  datatype Group = Group(id: nat, name: string)

  /** `createdAt` is a UTC instant in whole seconds; the activity reference may be NULL. */
  datatype StudySession = StudySession(id: nat, groupId: nat, createdAt: nat, studyActivityId: Option<nat>)

  datatype StudyActivity = StudyActivity(id: nat, name: string, thumbnailUrl: Option<string>, description: Option<string>)

  datatype WordReviewItem = WordReviewItem(id: nat, wordId: nat, studySessionId: nat, correct: bool, createdAt: nat)

  function WordKey(w: Word): nat { w.id }
  function GroupKey(g: Group): nat { g.id }
  function ActivityKey(a: StudyActivity): nat { a.id }
  function SessionKey(s: StudySession): nat { s.id }
  function ReviewKey(r: WordReviewItem): nat { r.id }
  function GroupName(g: Group): string { g.name }

  // ---------------------------------------------------------------- parts

  /** `Word.get_parts`: an unset or empty column reads as the empty object, anything else is
      decoded (None where decoding raises). */
  function GetParts(w: Word, c: JsonCodec): (r: Option<Json>)
    ensures w.parts.None? ==> r == Some(JObj([]))
    ensures w.parts == Some([]) ==> r == Some(JObj([]))
  {
    if w.parts.None? || w.parts.value == [] then Some(JObj([])) else c.loads(w.parts.value)
  }

  /** `Word.set_parts`: stores the encoding of `d`; every other column is kept. */
  function SetParts(w: Word, d: Json, c: JsonCodec): (r: Word)
    ensures r.id == w.id && r.kanji == w.kanji && r.romaji == w.romaji && r.english == w.english
    ensures r.parts.Some?
  {
    w.(parts := Some(c.dumps(d)))
  }

  /** What `set_parts` stores, `get_parts` reads back. */
  lemma PartsRoundTrip(w: Word, d: Json, c: JsonCodec)
    requires Lawful(c)
    ensures GetParts(SetParts(w, d, c), c) == Some(d)
  {
    assert c.loads(c.dumps(d)) == Some(d) && c.dumps(d) != [];
  }

  // ---------------------------------------------------------------- the store

  /** A snapshot of the database: the six tables in rowid order and, per table, the next id
      AUTOINCREMENT will hand out (ids are never reused, even after deletes). */
  datatype Db = Db(
    words: seq<Word>,
    groups: seq<Group>,
    wordGroups: seq<WordGroup>,
    activities: seq<StudyActivity>,
    sessions: seq<StudySession>,
    reviews: seq<WordReviewItem>,
    nextWordId: nat,
    nextGroupId: nat,
    nextActivityId: nat,
    nextSessionId: nat,
    nextReviewId: nat)

  /** The empty database of a fresh schema: every AUTOINCREMENT counter starts at 1. */
  function EmptyDb(): (db: Db)
    ensures WellFormed(db)
  {
    Db([], [], [], [], [], [], 1, 1, 1, 1, 1)
  }

  /** Every key is positive and below the table's counter. */
  ghost predicate IdsBelow<T>(s: seq<T>, key: T -> nat, next: nat)
  {
    forall x | x in s :: 0 < key(x) < next
  }

  /** The schema's guarantees: integer primary keys (unique, increasing in rowid order,
      positive, below the counter, which is itself positive), unique group names, unique (word, group) pairs, and
      association rows naming only word ids that have been handed out. Foreign keys are
      not enforced, so rows may refer to deleted parents. */
  ghost predicate WellFormed(db: Db)
  {
    && Increasing(db.words, WordKey) && IdsBelow(db.words, WordKey, db.nextWordId)
    && Increasing(db.groups, GroupKey) && IdsBelow(db.groups, GroupKey, db.nextGroupId)
    && Increasing(db.activities, ActivityKey) && IdsBelow(db.activities, ActivityKey, db.nextActivityId)
    && Increasing(db.sessions, SessionKey) && IdsBelow(db.sessions, SessionKey, db.nextSessionId)
    && Increasing(db.reviews, ReviewKey) && IdsBelow(db.reviews, ReviewKey, db.nextReviewId)
    && db.nextWordId > 0 && db.nextGroupId > 0 && db.nextActivityId > 0
    && db.nextSessionId > 0 && db.nextReviewId > 0
    && InjectiveOn(db.groups, GroupName)
    && LinksUnique(db.wordGroups)
    && (forall a | a in db.wordGroups :: a.wordId < db.nextWordId)
  }

  /** The association's primary key: no (word, group) pair is stored twice. */
  ghost predicate LinksUnique(links: seq<WordGroup>)
  {
    forall i, j | 0 <= i < j < |links| :: links[i] != links[j]
  }

  predicate NameTaken(db: Db, name: string)
  {
    exists g | g in db.groups :: g.name == name
  }

  /** `SELECT id FROM groups WHERE name = ?`. */
  function FindGroupByName(gs: seq<Group>, name: string): (r: Option<Group>)
    ensures r.Some? ==> r.value in gs && r.value.name == name
    ensures r.None? <==> forall g | g in gs :: g.name != name
  {
    if gs == [] then None
    else if gs[0].name == name then Some(gs[0])
    else FindGroupByName(gs[1..], name)
  }

  predicate Linked(db: Db, wordId: nat, groupId: nat)
  {
    WordGroup(wordId, groupId) in db.wordGroups
  }

  function InGroup(db: Db, groupId: nat): Word -> bool
  {
    (w: Word) => Linked(db, w.id, groupId)
  }

  function HasWord(db: Db, wordId: nat): Group -> bool
  {
    (g: Group) => Linked(db, wordId, g.id)
  }

  /** `Group.words`: the existing words associated with a group, in rowid order. */
  function WordsOf(db: Db, groupId: nat): seq<Word>
  {
    Filter(db.words, InGroup(db, groupId))
  }

  /** `Word.groups`: the existing groups associated with a word, in rowid order. */
  function GroupsOf(db: Db, wordId: nat): seq<Group>
  {
    Filter(db.groups, HasWord(db, wordId))
  }

  /** `Word.groups` and `Group.words` are two views of the one association table. */
  lemma AssociationViews(db: Db, w: Word, g: Group)
    requires w in db.words && g in db.groups
    ensures g in GroupsOf(db, w.id) <==> w in WordsOf(db, g.id)
    ensures w in WordsOf(db, g.id) <==> Linked(db, w.id, g.id)
  {
  }

  // ---------------------------------------------------------------- inserts

  /** Inserting a row whose key is the table's counter keeps keys increasing and below the
      incremented counter. */
  lemma AppendKeeps<T>(s: seq<T>, key: T -> nat, next: nat, x: T)
    requires Increasing(s, key) && IdsBelow(s, key, next)
    requires key(x) == next && next > 0
    ensures Increasing(s + [x], key) && IdsBelow(s + [x], key, next + 1)
  {
  }

  /** `INSERT INTO words`. */
  function AddWord(db: Db, kanji: string, romaji: string, english: string, parts: Option<string>): (r: Db)
    requires WellFormed(db)
    ensures WellFormed(r)
    ensures Find(r.words, WordKey, db.nextWordId) == Some(Word(db.nextWordId, kanji, romaji, english, parts))
    ensures forall w | w in db.words :: w in r.words
    ensures |r.words| == |db.words| + 1
    ensures r == db.(words := r.words, nextWordId := r.nextWordId)
  {
    var w := Word(db.nextWordId, kanji, romaji, english, parts);
    AppendKeeps(db.words, WordKey, db.nextWordId, w);
    FindUnique(db.words + [w], WordKey, w);
    db.(words := db.words + [w], nextWordId := db.nextWordId + 1)
  }

  /** `INSERT INTO groups`; the UNIQUE constraint on names is the caller's to respect. */
  function AddGroup(db: Db, name: string): (r: Db)
    requires WellFormed(db) && !NameTaken(db, name)
    ensures WellFormed(r) && NameTaken(r, name)
    ensures Find(r.groups, GroupKey, db.nextGroupId) == Some(Group(db.nextGroupId, name))
    ensures |r.groups| == |db.groups| + 1
    ensures r == db.(groups := r.groups, nextGroupId := r.nextGroupId)
  {
    var g := Group(db.nextGroupId, name);
    AppendKeeps(db.groups, GroupKey, db.nextGroupId, g);
    FindUnique(db.groups + [g], GroupKey, g);
    assert InjectiveOn(db.groups + [g], GroupName) by {
      forall i, j | 0 <= i < j < |db.groups| + 1
        ensures GroupName((db.groups + [g])[i]) != GroupName((db.groups + [g])[j])
      {
        if j == |db.groups| {
          assert (db.groups + [g])[i] in db.groups;
        }
      }
    }
    db.(groups := db.groups + [g], nextGroupId := db.nextGroupId + 1)
  }

  /** `INSERT INTO words_groups`; the primary key on the pair is the caller's to respect. */
  function AddLink(db: Db, wordId: nat, groupId: nat): (r: Db)
    requires WellFormed(db) && !Linked(db, wordId, groupId) && wordId < db.nextWordId
    ensures WellFormed(r) && Linked(r, wordId, groupId)
    ensures forall a, b :: Linked(db, a, b) ==> Linked(r, a, b)
    ensures r == db.(wordGroups := r.wordGroups)
  {
    var l := WordGroup(wordId, groupId);
    assert forall i | 0 <= i < |db.wordGroups| :: db.wordGroups[i] != l by {
      forall i | 0 <= i < |db.wordGroups| ensures db.wordGroups[i] != l {
        assert db.wordGroups[i] in db.wordGroups;
      }
    }
    db.(wordGroups := db.wordGroups + [l])
  }

  /** `INSERT INTO study_activities`. */
  function AddActivity(db: Db, name: string, thumbnailUrl: Option<string>, description: Option<string>): (r: Db)
    requires WellFormed(db)
    ensures WellFormed(r)
    ensures Find(r.activities, ActivityKey, db.nextActivityId)
      == Some(StudyActivity(db.nextActivityId, name, thumbnailUrl, description))
    ensures |r.activities| == |db.activities| + 1
    ensures r == db.(activities := r.activities, nextActivityId := r.nextActivityId)
  {
    var a := StudyActivity(db.nextActivityId, name, thumbnailUrl, description);
    AppendKeeps(db.activities, ActivityKey, db.nextActivityId, a);
    FindUnique(db.activities + [a], ActivityKey, a);
    db.(activities := db.activities + [a], nextActivityId := db.nextActivityId + 1)
  }

  /** `INSERT INTO study_sessions`. */
  function AddSession(db: Db, groupId: nat, createdAt: nat, activityId: Option<nat>): (r: Db)
    requires WellFormed(db)
    ensures WellFormed(r)
    ensures Find(r.sessions, SessionKey, db.nextSessionId)
      == Some(StudySession(db.nextSessionId, groupId, createdAt, activityId))
    ensures |r.sessions| == |db.sessions| + 1
    ensures r == db.(sessions := r.sessions, nextSessionId := r.nextSessionId)
  {
    var s := StudySession(db.nextSessionId, groupId, createdAt, activityId);
    AppendKeeps(db.sessions, SessionKey, db.nextSessionId, s);
    FindUnique(db.sessions + [s], SessionKey, s);
    db.(sessions := db.sessions + [s], nextSessionId := db.nextSessionId + 1)
  }

  /** `INSERT INTO word_review_items`; the referenced word and session are not checked. */
  function AddReview(db: Db, wordId: nat, sessionId: nat, correct: bool, createdAt: nat): (r: Db)
    requires WellFormed(db)
    ensures WellFormed(r)
    ensures Find(r.reviews, ReviewKey, db.nextReviewId)
      == Some(WordReviewItem(db.nextReviewId, wordId, sessionId, correct, createdAt))
    ensures |r.reviews| == |db.reviews| + 1
    ensures r == db.(reviews := r.reviews, nextReviewId := r.nextReviewId)
  {
    var x := WordReviewItem(db.nextReviewId, wordId, sessionId, correct, createdAt);
    AppendKeeps(db.reviews, ReviewKey, db.nextReviewId, x);
    FindUnique(db.reviews + [x], ReviewKey, x);
    db.(reviews := db.reviews + [x], nextReviewId := db.nextReviewId + 1)
  }

  /** The rows `INSERT INTO word_review_items ... SELECT` adds for the given word ids: one per
      id, in order, numbered from `firstId`, all for the same session, result and time. */
  function NewReviews(firstId: nat, wordIds: seq<nat>, sessionId: nat, correct: bool, createdAt: nat): seq<WordReviewItem>
  {
    seq(|wordIds|, k requires 0 <= k < |wordIds| => WordReviewItem(firstId + k, wordIds[k], sessionId, correct, createdAt))
  }

  lemma NewReviewsKeep(reviews: seq<WordReviewItem>, next: nat, wordIds: seq<nat>, sessionId: nat, correct: bool, createdAt: nat)
    requires Increasing(reviews, ReviewKey) && IdsBelow(reviews, ReviewKey, next) && next > 0
    ensures var all := reviews + NewReviews(next, wordIds, sessionId, correct, createdAt);
      Increasing(all, ReviewKey) && IdsBelow(all, ReviewKey, next + |wordIds|)
  {
    var all := reviews + NewReviews(next, wordIds, sessionId, correct, createdAt);
    forall i, j | 0 <= i < j < |all| ensures ReviewKey(all[i]) < ReviewKey(all[j]) {
      if i < |reviews| {
        assert all[i] in reviews;
      }
    }
    forall x | x in all ensures 0 < ReviewKey(x) < next + |wordIds| {
      var i :| 0 <= i < |all| && all[i] == x;
      if i < |reviews| {
        assert all[i] in reviews;
      }
    }
  }

  /** `INSERT INTO word_review_items ... SELECT` over the given word ids. */
  function AddReviews(db: Db, wordIds: seq<nat>, sessionId: nat, correct: bool, createdAt: nat): (r: Db)
    requires WellFormed(db)
    ensures WellFormed(r)
    ensures |r.reviews| == |db.reviews| + |wordIds|
    ensures r.reviews[..|db.reviews|] == db.reviews
    ensures r == db.(reviews := r.reviews, nextReviewId := r.nextReviewId)
  {
    NewReviewsKeep(db.reviews, db.nextReviewId, wordIds, sessionId, correct, createdAt);
    var all := db.reviews + NewReviews(db.nextReviewId, wordIds, sessionId, correct, createdAt);
    assert all[..|db.reviews|] == db.reviews;
    db.(reviews := all, nextReviewId := db.nextReviewId + |wordIds|)
  }

  lemma NewReviewsSnoc(firstId: nat, wordIds: seq<nat>, i: nat, sessionId: nat, correct: bool, createdAt: nat)
    requires i < |wordIds|
    ensures NewReviews(firstId, wordIds[..i + 1], sessionId, correct, createdAt)
         == NewReviews(firstId, wordIds[..i], sessionId, correct, createdAt)
            + [WordReviewItem(firstId + i, wordIds[i], sessionId, correct, createdAt)]
  {
  }

  /** Inserting the reviews one by one, in order, is the bulk insert. */
  lemma AddReviewsStep(db: Db, wordIds: seq<nat>, i: nat, sessionId: nat, correct: bool, createdAt: nat)
    requires WellFormed(db) && i < |wordIds|
    ensures AddReview(AddReviews(db, wordIds[..i], sessionId, correct, createdAt), wordIds[i], sessionId, correct, createdAt)
         == AddReviews(db, wordIds[..i + 1], sessionId, correct, createdAt)
  {
    NewReviewsSnoc(db.nextReviewId, wordIds, i, sessionId, correct, createdAt);
    var prev := AddReviews(db, wordIds[..i], sessionId, correct, createdAt);
    var x := WordReviewItem(db.nextReviewId + i, wordIds[i], sessionId, correct, createdAt);
    assert prev.nextReviewId == db.nextReviewId + i;
    assert AddReview(prev, wordIds[i], sessionId, correct, createdAt)
        == prev.(reviews := prev.reviews + [x], nextReviewId := prev.nextReviewId + 1);
    assert prev.reviews + [x]
        == db.reviews + NewReviews(db.nextReviewId, wordIds[..i + 1], sessionId, correct, createdAt);
  }

  // ---------------------------------------------------------------- deletes

  lemma RemoveKeeps<T>(s: seq<T>, key: T -> nat, next: nat, id: nat)
    requires Increasing(s, key) && IdsBelow(s, key, next)
    ensures Increasing(Remove(s, key, id), key) && IdsBelow(Remove(s, key, id), key, next)
  {
    FilterIncreasing(s, key, KeyIsNot(key, id));
  }

  /** `DELETE FROM words WHERE id = ?`; association and review rows are left in place. */
  function RemoveWord(db: Db, id: nat): (r: Db)
    requires WellFormed(db)
    ensures WellFormed(r)
    ensures Find(r.words, WordKey, id).None?
    ensures forall w | w in db.words && w.id != id :: w in r.words
    ensures r == db.(words := r.words)
  {
    RemoveKeeps(db.words, WordKey, db.nextWordId, id);
    db.(words := Remove(db.words, WordKey, id))
  }

  /** `DELETE FROM groups WHERE id = ?`. */
  function RemoveGroup(db: Db, id: nat): (r: Db)
    requires WellFormed(db)
    ensures WellFormed(r)
    ensures Find(r.groups, GroupKey, id).None?
    ensures forall g | g in db.groups && g.id != id :: g in r.groups
    ensures r == db.(groups := r.groups)
  {
    RemoveKeeps(db.groups, GroupKey, db.nextGroupId, id);
    FilterInjective(db.groups, GroupName, KeyIsNot(GroupKey, id));
    db.(groups := Remove(db.groups, GroupKey, id))
  }

  /** `DELETE FROM study_activities WHERE id = ?`. */
  function RemoveActivity(db: Db, id: nat): (r: Db)
    requires WellFormed(db)
    ensures WellFormed(r)
    ensures Find(r.activities, ActivityKey, id).None?
    ensures forall a | a in db.activities && a.id != id :: a in r.activities
    ensures r == db.(activities := r.activities)
  {
    RemoveKeeps(db.activities, ActivityKey, db.nextActivityId, id);
    db.(activities := Remove(db.activities, ActivityKey, id))
  }

  /** `DELETE FROM word_review_items WHERE id = ?`. */
  function RemoveReview(db: Db, id: nat): (r: Db)
    requires WellFormed(db)
    ensures WellFormed(r)
    ensures Find(r.reviews, ReviewKey, id).None?
    ensures forall x | x in db.reviews && x.id != id :: x in r.reviews
    ensures r == db.(reviews := r.reviews)
  {
    RemoveKeeps(db.reviews, ReviewKey, db.nextReviewId, id);
    db.(reviews := Remove(db.reviews, ReviewKey, id))
  }

  // ---------------------------------------------------------------- in-place updates

  /** Position of the row with key `id`. */
  function IndexOfKey<T>(s: seq<T>, key: T -> nat, id: nat): (i: nat)
    requires id in Keys(s, key)
    ensures i < |s| && key(s[i]) == id
  {
    if key(s[0]) == id then 0
    else
      assert id in Keys(s[1..], key) by {
        var x :| x in s && key(x) == id;
        assert x != s[0];
        var j :| 0 <= j < |s| && s[j] == x;
        assert s[1..][j - 1] == x;
      }
      1 + IndexOfKey(s[1..], key, id)
  }

  /** Overwriting the row at `i` with one that has the same key keeps the keys in order and
      below the counter, makes the new row the one found by that key, and leaves the rows
      with other keys where they were. */
  lemma ReplaceAtKey<T>(s: seq<T>, key: T -> nat, i: nat, x: T, next: nat)
    requires i < |s| && key(x) == key(s[i])
    requires Increasing(s, key) && IdsBelow(s, key, next)
    ensures Increasing(s[i := x], key) && IdsBelow(s[i := x], key, next)
    ensures Find(s[i := x], key, key(x)) == Some(x)
    ensures forall j | 0 <= j < |s| && key(s[j]) != key(x) :: s[i := x][j] == s[j]
  {
    var t := s[i := x];
    forall y | y in t ensures 0 < key(y) < next {
      var k :| 0 <= k < |t| && t[k] == y;
      assert s[k] in s;
    }
    assert t[i] in t;
    FindUnique(t, key, x);
  }

  /** `UPDATE words SET ... WHERE id = w.id`: the row keeps its id and its position. */
  function ReplaceWord(db: Db, w: Word): (r: Db)
    requires WellFormed(db) && w.id in Keys(db.words, WordKey)
    ensures |r.words| == |db.words|
    ensures forall j | 0 <= j < |db.words| && db.words[j].id != w.id :: r.words[j] == db.words[j]
    ensures WellFormed(r)
    ensures Find(r.words, WordKey, w.id) == Some(w)
    ensures r == db.(words := r.words)
  {
    var i := IndexOfKey(db.words, WordKey, w.id);
    ReplaceAtKey(db.words, WordKey, i, w, db.nextWordId);
    db.(words := db.words[i := w])
  }

  /** `UPDATE groups SET name = ? WHERE id = ?`, for a name no other group holds. */
  function RenameGroup(db: Db, id: nat, name: string): (r: Db)
    requires WellFormed(db) && id in Keys(db.groups, GroupKey)
    requires forall g | g in db.groups && g.id != id :: g.name != name
    ensures |r.groups| == |db.groups|
    ensures forall j | 0 <= j < |db.groups| && db.groups[j].id != id :: r.groups[j] == db.groups[j]
    ensures WellFormed(r)
    ensures Find(r.groups, GroupKey, id) == Some(Group(id, name))
    ensures r == db.(groups := r.groups)
  {
    var i := IndexOfKey(db.groups, GroupKey, id);
    var gs := db.groups[i := Group(id, name)];
    ReplaceAtKey(db.groups, GroupKey, i, Group(id, name), db.nextGroupId);
    assert InjectiveOn(gs, GroupName) by {
      forall j, k | 0 <= j < k < |gs| ensures GroupName(gs[j]) != GroupName(gs[k]) {
        if j == i {
          assert db.groups[k] in db.groups;
        } else if k == i {
          assert db.groups[j] in db.groups;
        }
      }
    }
    db.(groups := gs)
  }

  /** `UPDATE study_activities SET ... WHERE id = a.id`. */
  function ReplaceActivity(db: Db, a: StudyActivity): (r: Db)
    requires WellFormed(db) && a.id in Keys(db.activities, ActivityKey)
    ensures |r.activities| == |db.activities|
    ensures forall j | 0 <= j < |db.activities| && db.activities[j].id != a.id :: r.activities[j] == db.activities[j]
    ensures WellFormed(r)
    ensures Find(r.activities, ActivityKey, a.id) == Some(a)
    ensures r == db.(activities := r.activities)
  {
    var i := IndexOfKey(db.activities, ActivityKey, a.id);
    ReplaceAtKey(db.activities, ActivityKey, i, a, db.nextActivityId);
    db.(activities := db.activities[i := a])
  }

  // ---------------------------------------------------------------- responses

  /** The HTTP outcome of a handler: 200, 201, 204, 400 / 404 with their error text
      (None for the framework's default 404 page), or 500. */
  datatype Status =
    | Ok
    | Created
    | NoContent
    | BadRequest(error: string)
    | NotFound(message: Option<string>)
    | ServerError

  /** A read endpoint's answer: the payload, or the status that replaced it. */
  datatype Reply<T> = Found(value: T) | Refused(status: Status)

  const PER_PAGE: nat := 100

  /** The pagination descriptor and first page of `paginate(page=1, per_page=100)`. */
  datatype Page<T> = Page(items: seq<T>, currentPage: nat, totalPages: nat, totalItems: nat, itemsPerPage: nat)

  function Paginate<T>(rows: seq<T>): (p: Page<T>)
    ensures p.currentPage == 1 && p.itemsPerPage == PER_PAGE && p.totalItems == |rows|
    ensures |p.items| == Min(|rows|, PER_PAGE) && p.items == rows[..|p.items|]
    ensures p.totalPages * PER_PAGE >= |rows|
    ensures p.totalPages == 0 || (p.totalPages - 1) * PER_PAGE < |rows|
  {
    Page(rows[..Min(|rows|, PER_PAGE)], 1, (|rows| + PER_PAGE - 1) / PER_PAGE, |rows|, PER_PAGE)
  }

  /** The JSON body of a review request: each key absent (None) or given; `otherKeys` records
      any other key. */
  datatype ReviewBody = ReviewBody(wordId: Option<nat>, sessionId: Option<nat>, correct: Option<bool>, otherKeys: bool)

  // ---------------------------------------------------------------- review counts

  function ReviewsOfWord(wordId: nat): WordReviewItem -> bool
  {
    (r: WordReviewItem) => r.wordId == wordId
  }

  function CorrectOfWord(wordId: nat): WordReviewItem -> bool
  {
    (r: WordReviewItem) => r.wordId == wordId && r.correct
  }

  function WrongOfWord(wordId: nat): WordReviewItem -> bool
  {
    (r: WordReviewItem) => r.wordId == wordId && !r.correct
  }

  /** Every review of a word is either correct or wrong. */
  lemma {:induction false} CorrectPlusWrong(reviews: seq<WordReviewItem>, wordId: nat)
    ensures Count(reviews, CorrectOfWord(wordId)) + Count(reviews, WrongOfWord(wordId))
         == Count(reviews, ReviewsOfWord(wordId))
  {
    if reviews != [] {
      CorrectPlusWrong(reviews[1..], wordId);
    }
  }
}
