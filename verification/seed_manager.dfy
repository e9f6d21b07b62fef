/** The seeding scripts: load a vocabulary file into a group, add the basic study activity,
    and add one study session with two reviews. Each works in one transaction that a failure
    rolls back before the exception is re-raised. Database faults are an input: `failAt` names
    the statement (0-based, the commit last) that raises, if any. */
module SeedManager {
  import opened Base
  import opened JsonValue
  import opened PortalSchema
  import opened PortalStore

  /** One object of a seed file: each key absent (None) or present with its value. */
  datatype SeedEntry = SeedEntry(kanji: Option<string>, romaji: Option<string>, english: Option<string>, parts: Option<Json>)

  /** What the seed path holds: no file, text `json.load` rejects, or a list of objects. */
  datatype SeedFile = Missing | Malformed | Entries(entries: seq<SeedEntry>)

  /** Why a script raised: the seed file is missing or unreadable, an entry lacks a key that
      is indexed, a `fetchone()` found no row, or the database failed. */
  datatype Failure = FileNotFound | BadJson | MissingKey | NoRow | DbError

  datatype Outcome = Done | Raised(failure: Failure)

  /** Whether the fault, if any, hits one of the first `statements` statements. */
  predicate FailsWithin(failAt: Option<nat>, statements: nat)
  {
    failAt.Some? && failAt.value < statements
  }

  /** A fault within the next two statements is a fault at one of them. */
  lemma FailsWithinStep(failAt: Option<nat>, n: nat)
    ensures FailsWithin(failAt, n + 2) <==> FailsWithin(failAt, n) || failAt == Some(n) || failAt == Some(n + 1)
  {
  }

  /** The entry has the three keys `word_data[...]` reads. */
  predicate Complete(e: SeedEntry)
  {
    e.kanji.Some? && e.romaji.Some? && e.english.Some?
  }

  predicate AllComplete(es: seq<SeedEntry>)
  {
    forall k | 0 <= k < |es| :: Complete(es[k])
  }

  /** The index of the first entry that lacks a key, or |es| when there is none. */
  function FirstIncomplete(es: seq<SeedEntry>): (r: nat)
    ensures r <= |es|
    ensures forall k | 0 <= k < r :: Complete(es[k])
    ensures r < |es| ==> !Complete(es[r])
  {
    if es == [] then 0
    else if !Complete(es[0]) then 0
    else 1 + FirstIncomplete(es[1..])
  }

  /** The `parts` text of a seeded word, `json.dumps(word_data.get('parts', {}))`: with a lawful
      codec it decodes to the entry's parts, or to the empty object when the key is absent. */
  function PartsText(e: SeedEntry, codec: JsonCodec): (r: string)
    ensures Lawful(codec) && e.parts.Some? ==> codec.loads(r) == Some(e.parts.value)
    ensures Lawful(codec) && e.parts.None? ==> codec.loads(r) == Some(JObj([]))
  {
    codec.dumps(if e.parts.Some? then e.parts.value else JObj([]))
  }

  /** The word rows the loop inserts, numbered from `next`. */
  function NewWords(next: nat, es: seq<SeedEntry>, codec: JsonCodec): seq<Word>
    requires AllComplete(es)
  {
    seq(|es|, k requires 0 <= k < |es| =>
      Word(next + k, es[k].kanji.value, es[k].romaji.value, es[k].english.value, Some(PartsText(es[k], codec))))
  }

  /** The association rows the loop inserts: each new word with the group. */
  function NewLinks(next: nat, n: nat, groupId: nat): seq<WordGroup>
  {
    seq(n, k requires 0 <= k < n => WordGroup(next + k, groupId))
  }

  lemma NewWordsKeep(words: seq<Word>, next: nat, es: seq<SeedEntry>, codec: JsonCodec)
    requires AllComplete(es)
    requires Increasing(words, WordKey) && IdsBelow(words, WordKey, next) && next > 0
    ensures var all := words + NewWords(next, es, codec);
      Increasing(all, WordKey) && IdsBelow(all, WordKey, next + |es|)
  {
    var all := words + NewWords(next, es, codec);
    forall i, j | 0 <= i < j < |all| ensures WordKey(all[i]) < WordKey(all[j]) {
      if i < |words| {
        assert all[i] in words;
      }
    }
    forall x | x in all ensures 0 < WordKey(x) < next + |es| {
      var i :| 0 <= i < |all| && all[i] == x;
      if i < |words| {
        assert all[i] in words;
      }
    }
  }

  lemma NewLinksKeep(links: seq<WordGroup>, next: nat, n: nat, groupId: nat)
    requires LinksUnique(links) && forall a | a in links :: a.wordId < next
    ensures var all := links + NewLinks(next, n, groupId);
      LinksUnique(all) && forall a | a in all :: a.wordId < next + n
  {
    var all := links + NewLinks(next, n, groupId);
    forall i, j | 0 <= i < j < |all| ensures all[i] != all[j] {
      if i < |links| {
        assert all[i] in links;
      }
    }
    forall a | a in all ensures a.wordId < next + n {
      var i :| 0 <= i < |all| && all[i] == a;
      if i < |links| {
        assert all[i] in links;
      }
    }
  }

  /** The store after the loop has inserted every entry as a word linked to the group. */
  function SeedWords(db: Db, groupId: nat, es: seq<SeedEntry>, codec: JsonCodec): Db
    requires AllComplete(es)
  {
    db.(words := db.words + NewWords(db.nextWordId, es, codec),
        wordGroups := db.wordGroups + NewLinks(db.nextWordId, |es|, groupId),
        nextWordId := db.nextWordId + |es|)
  }

  /** The store after one pass of the loop: the entry's word and its link to the group. */
  function SeedStep(db: Db, e: SeedEntry, groupId: nat, codec: JsonCodec): Db
    requires Complete(e)
  {
    db.(words := db.words + [Word(db.nextWordId, e.kanji.value, e.romaji.value, e.english.value, Some(PartsText(e, codec)))],
        wordGroups := db.wordGroups + [WordGroup(db.nextWordId, groupId)],
        nextWordId := db.nextWordId + 1)
  }

  /** Seeding keeps the store well formed: ids stay increasing and below the counter, and no
      association is stored twice. */
  lemma SeedWordsKeep(db: Db, groupId: nat, es: seq<SeedEntry>, codec: JsonCodec)
    requires WellFormed(db) && AllComplete(es)
    ensures WellFormed(SeedWords(db, groupId, es, codec))
  {
    NewWordsKeep(db.words, db.nextWordId, es, codec);
    NewLinksKeep(db.wordGroups, db.nextWordId, |es|, groupId);
  }

  /** The loop's passes, one entry at a time, build the bulk result. */
  lemma SeedWordsSnoc(db: Db, groupId: nat, es: seq<SeedEntry>, i: nat, codec: JsonCodec)
    requires i < |es| && AllComplete(es[..i + 1])
    ensures AllComplete(es[..i])
    ensures SeedWords(db, groupId, es[..i + 1], codec) == SeedStep(SeedWords(db, groupId, es[..i], codec), es[i], groupId, codec)
  {
    NewWordsSnoc(db.nextWordId, es, i, codec);
    NewLinksSnoc(db.nextWordId, i, groupId);
    var w := Word(db.nextWordId + i, es[i].kanji.value, es[i].romaji.value, es[i].english.value, Some(PartsText(es[i], codec)));
    AppendAssoc(db.words, NewWords(db.nextWordId, es[..i], codec), [w]);
    AppendAssoc(db.wordGroups, NewLinks(db.nextWordId, i, groupId), [WordGroup(db.nextWordId + i, groupId)]);
  }

  lemma NewWordsSnoc(next: nat, es: seq<SeedEntry>, i: nat, codec: JsonCodec)
    requires i < |es| && AllComplete(es[..i + 1])
    ensures AllComplete(es[..i])
    ensures NewWords(next, es[..i + 1], codec)
         == NewWords(next, es[..i], codec)
            + [Word(next + i, es[i].kanji.value, es[i].romaji.value, es[i].english.value, Some(PartsText(es[i], codec)))]
  {
    assert forall k | 0 <= k < i :: es[..i][k] == es[..i + 1][k];
  }

  lemma NewLinksSnoc(next: nat, i: nat, groupId: nat)
    ensures NewLinks(next, i + 1, groupId) == NewLinks(next, i, groupId) + [WordGroup(next + i, groupId)]
  {
  }

  /** `INSERT OR IGNORE INTO groups (name)`: the group exists afterwards, new or old. */
  function WithGroup(db: Db, name: string): (r: Db)
    requires WellFormed(db)
    ensures WellFormed(r) && NameTaken(r, name)
    ensures NameTaken(db, name) ==> r == db
    ensures !NameTaken(db, name) ==> r == AddGroup(db, name)
  {
    if NameTaken(db, name) then db else AddGroup(db, name)
  }

  /** `SELECT id FROM groups WHERE name = ?` once the group exists. */
  function GroupIdOf(db: Db, name: string): (r: nat)
    requires NameTaken(db, name)
    ensures Group(r, name) in db.groups
  {
    FindGroupByName(db.groups, name).value.id
  }

  /** The store after a successful `seed_data`. */
  function Seeded(db: Db, name: string, es: seq<SeedEntry>, codec: JsonCodec): (r: Db)
    requires WellFormed(db) && AllComplete(es)
    ensures WellFormed(r)
  {
    var d := WithGroup(db, name);
    SeedWordsKeep(d, GroupIdOf(d, name), es, codec);
    SeedWords(d, GroupIdOf(d, name), es, codec)
  }

  /** The word loop appends one word per entry, in file order and with consecutive fresh ids,
      and associates each with the group; only the words and the associations change. */
  lemma SeedWordsShape(db: Db, groupId: nat, es: seq<SeedEntry>, codec: JsonCodec)
    requires AllComplete(es)
    ensures var r := SeedWords(db, groupId, es, codec);
      && |r.words| == |db.words| + |es|
      && r.words[..|db.words|] == db.words
      && r.groups == db.groups && r.activities == db.activities
      && r.sessions == db.sessions && r.reviews == db.reviews
    ensures var r := SeedWords(db, groupId, es, codec);
      forall k | 0 <= k < |es| ::
        && r.words[|db.words| + k] == Word(db.nextWordId + k, es[k].kanji.value, es[k].romaji.value,
                                             es[k].english.value, Some(PartsText(es[k], codec)))
        && Linked(r, db.nextWordId + k, groupId)
  {
    var r := SeedWords(db, groupId, es, codec);
    assert r.words[..|db.words|] == db.words;
    forall k | 0 <= k < |es|
      ensures r.words[|db.words| + k] == Word(db.nextWordId + k, es[k].kanji.value, es[k].romaji.value,
                                             es[k].english.value, Some(PartsText(es[k], codec)))
      ensures Linked(r, db.nextWordId + k, groupId)
    {
      assert r.wordGroups[|db.wordGroups| + k] == WordGroup(db.nextWordId + k, groupId);
    }
  }

  /** What a successful `seed_data` does around the word loop: the named group exists, and is
      new exactly when its name was; the words grow by one per entry, the earlier ones kept;
      activities, sessions and reviews are untouched. */
  lemma SeededShape(db: Db, name: string, es: seq<SeedEntry>, codec: JsonCodec)
    requires WellFormed(db) && AllComplete(es)
    ensures var r := Seeded(db, name, es, codec);
      && NameTaken(r, name)
      && (NameTaken(db, name) ==> r.groups == db.groups)
      && (!NameTaken(db, name) ==> r.groups == db.groups + [Group(db.nextGroupId, name)])
      && |r.words| == |db.words| + |es|
      && r.words[..|db.words|] == db.words
      && r.activities == db.activities && r.sessions == db.sessions && r.reviews == db.reviews
  {
    var d := WithGroup(db, name);
    var g := GroupIdOf(d, name);
    var r := SeedWords(d, g, es, codec);
    assert Seeded(db, name, es, codec) == r;
    SeedWordsShape(d, g, es, codec);
    assert d.words == db.words;
  }

  lemma AppendAssoc<T>(a: seq<T>, b: seq<T>, c: seq<T>)
    ensures (a + b) + c == a + (b + c)
  {
  }

  /** One pass of the word loop: the word insert, then, unless the statement between them
      fails (`linkRuns` false), the association insert. */
  method InsertSeedWord(store: Store, e: SeedEntry, groupId: nat, codec: JsonCodec, linkRuns: bool)
    returns (linked: bool)
    modifies store
    requires store.Valid() && Complete(e)
    ensures store.Valid() && linked == linkRuns
    ensures linked ==> store.Snapshot() == SeedStep(old(store.Snapshot()), e, groupId, codec)
  {
    var id := store.InsertWord(e.kanji.value, e.romaji.value, e.english.value, Some(PartsText(e, codec)));
    if !linkRuns {
      return false;
    }
    store.InsertLink(id, groupId);
    return true;
  }

  /** How the word loop and the commit end: the first fault or missing key, in statement
      order, decides. */
  function LoopOutcome(es: seq<SeedEntry>, failAt: Option<nat>): Outcome
  {
    var j := FirstIncomplete(es);
    if FailsWithin(failAt, 3 + 2 * j) then Raised(DbError)
    else if j < |es| then Raised(MissingKey)
    else if failAt == Some(3 + 2 * |es|) then Raised(DbError)
    else Done
  }

  /** The loop raises for a fault before the first incomplete entry, otherwise for that entry;
      it finishes exactly when every entry is complete and no statement up to the commit
      fails. */
  lemma LoopOutcomeMeaning(es: seq<SeedEntry>, failAt: Option<nat>)
    ensures FailsWithin(failAt, 3 + 2 * FirstIncomplete(es)) ==> LoopOutcome(es, failAt) == Raised(DbError)
    ensures FirstIncomplete(es) < |es| && !FailsWithin(failAt, 3 + 2 * FirstIncomplete(es)) ==>
      LoopOutcome(es, failAt) == Raised(MissingKey)
    ensures LoopOutcome(es, failAt) == Done <==> AllComplete(es) && !FailsWithin(failAt, 4 + 2 * |es|)
    ensures AllComplete(es) <==> FirstIncomplete(es) == |es|
  {
  }

  /** The word loop and the commit of `seed_data`, from statement 3 on: entry k inserts its
      word (3 + 2k) and its link (4 + 2k), the commit is statement 3 + 2|es|. An entry lacking
      a key raises when it is reached; any failure restores `saved`. */
  method InsertSeedWords(store: Store, es: seq<SeedEntry>, groupId: nat, codec: JsonCodec, failAt: Option<nat>, saved: Db)
    returns (outcome: Outcome)
    modifies store
    requires store.Valid() && WellFormed(saved) && !FailsWithin(failAt, 3)
    ensures store.Valid()
    ensures outcome.Raised? ==> store.Snapshot() == saved
    ensures outcome == LoopOutcome(es, failAt)
    ensures outcome == Done ==>
      AllComplete(es) && store.Snapshot() == SeedWords(old(store.Snapshot()), groupId, es, codec)
  {
    ghost var j := FirstIncomplete(es);
    LoopOutcomeMeaning(es, failAt);
    ghost var start := store.Snapshot();
    var i := 0;
    while i < |es|
      invariant 0 <= i <= |es| && i <= j
      invariant store.Valid()
      invariant !FailsWithin(failAt, 3 + 2 * i)
      invariant AllComplete(es[..i])
      invariant store.Snapshot() == SeedWords(start, groupId, es[..i], codec)
    {
      FailsWithinStep(failAt, 3 + 2 * i);
      if !Complete(es[i]) {
        assert j == i;
        store.Rollback(saved);
        return Raised(MissingKey);
      }
      assert i < j;
      if failAt == Some(3 + 2 * i) {
        store.Rollback(saved);
        return Raised(DbError);
      }
      assert AllComplete(es[..i + 1]);
      SeedWordsSnoc(start, groupId, es, i, codec);
      var linked := InsertSeedWord(store, es[i], groupId, codec, failAt != Some(4 + 2 * i));
      if !linked {
        store.Rollback(saved);
        return Raised(DbError);
      }
      i := i + 1;
    }
    assert es[..i] == es;
    assert store.Snapshot() == SeedWords(start, groupId, es, codec);
    if failAt == Some(3 + 2 * |es|) {
      store.Rollback(saved);
      return Raised(DbError);
    }
    return Done;
  }

  /** `seed_data`: a missing or unreadable file raises before the database is touched. Then
      statement 0 lists the tables, 1 inserts the group unless its name exists and 2 reads
      its id; the word loop and the commit follow. Every failure rolls back. */
  method SeedData(store: Store, file: SeedFile, groupName: string, codec: JsonCodec, failAt: Option<nat>)
    returns (outcome: Outcome)
    modifies store
    requires store.Valid()
    ensures store.Valid()
    ensures outcome.Raised? ==> store.Snapshot() == old(store.Snapshot())
    ensures file.Missing? ==> outcome == Raised(FileNotFound)
    ensures file.Malformed? ==> outcome == Raised(BadJson)
    ensures file.Entries? && FailsWithin(failAt, 3 + 2 * FirstIncomplete(file.entries)) ==> outcome == Raised(DbError)
    ensures file.Entries? && FirstIncomplete(file.entries) < |file.entries|
            && !FailsWithin(failAt, 3 + 2 * FirstIncomplete(file.entries))
            ==> outcome == Raised(MissingKey)
    ensures outcome == Done <==>
      file.Entries? && AllComplete(file.entries) && !FailsWithin(failAt, 4 + 2 * |file.entries|)
    ensures outcome == Done ==>
      AllComplete(file.entries) && store.Snapshot() == Seeded(old(store.Snapshot()), groupName, file.entries, codec)
  {
    if file.Missing? {
      return Raised(FileNotFound);
    }
    if file.Malformed? {
      return Raised(BadJson);
    }
    var es := file.entries;
    var saved := store.Snapshot();
    FailsWithinStep(failAt, 1);
    assert FailsWithin(failAt, 3) <==> failAt in {Some(0), Some(1), Some(2)};
    if failAt == Some(0) || failAt == Some(1) {
      store.Rollback(saved);
      return Raised(DbError);
    }
    if !NameTaken(store.Snapshot(), groupName) {
      var _ := store.InsertGroup(groupName);
    }
    if failAt == Some(2) {
      store.Rollback(saved);
      return Raised(DbError);
    }
    assert store.Snapshot() == WithGroup(saved, groupName);
    var groupId := GroupIdOf(store.Snapshot(), groupName);
    outcome := InsertSeedWords(store, es, groupId, codec, failAt, saved);
    LoopOutcomeMeaning(es, failAt);
  }

  const QUIZ_NAME := "Vocabulary Quiz"
  const QUIZ_THUMBNAIL := "https://example.com/thumbnail.jpg"
  const QUIZ_DESCRIPTION := "Practice your vocabulary with flashcards"

  predicate HasQuiz(db: Db)
  {
    exists a | a in db.activities :: a.name == QUIZ_NAME
  }

  /** The store after `seed_basic_activity`: the quiz activity is added unless an activity of
      that name exists. */
  function BasicActivitySeeded(db: Db): (r: Db)
    requires WellFormed(db)
    ensures WellFormed(r) && HasQuiz(r)
    ensures HasQuiz(db) ==> r == db
    ensures !HasQuiz(db) ==>
      r.activities == db.activities + [StudyActivity(db.nextActivityId, QUIZ_NAME, Some(QUIZ_THUMBNAIL), Some(QUIZ_DESCRIPTION))]
  {
    if HasQuiz(db) then db
    else
      var r := AddActivity(db, QUIZ_NAME, Some(QUIZ_THUMBNAIL), Some(QUIZ_DESCRIPTION));
      assert r.activities[|db.activities|].name == QUIZ_NAME;
      r
  }

  /** Seeding the activity a second time changes nothing. */
  lemma BasicActivityIdempotent(db: Db)
    requires WellFormed(db)
    ensures BasicActivitySeeded(BasicActivitySeeded(db)) == BasicActivitySeeded(db)
  {
  }

  /** `seed_basic_activity`: statement 0 looks the name up; when it is absent, 1 inserts the
      activity and 2 commits. */
  method SeedBasicActivity(store: Store, failAt: Option<nat>) returns (outcome: Outcome)
    modifies store
    requires store.Valid()
    ensures store.Valid()
    ensures outcome.Raised? ==> outcome.failure == DbError && store.Snapshot() == old(store.Snapshot())
    ensures outcome == Done <==>
      !FailsWithin(failAt, if HasQuiz(old(store.Snapshot())) then 1 else 3)
    ensures outcome == Done ==> store.Snapshot() == BasicActivitySeeded(old(store.Snapshot()))
  {
    var saved := store.Snapshot();
    if failAt == Some(0) {
      store.Rollback(saved);
      return Raised(DbError);
    }
    if HasQuiz(store.Snapshot()) {
      return Done;
    }
    if failAt == Some(1) {
      store.Rollback(saved);
      return Raised(DbError);
    }
    var _ := store.InsertActivity(QUIZ_NAME, Some(QUIZ_THUMBNAIL), Some(QUIZ_DESCRIPTION));
    if failAt == Some(2) {
      store.Rollback(saved);
      return Raised(DbError);
    }
    return Done;
  }

  /** `SELECT id FROM words LIMIT 2`: the ids of the first two words in rowid order. */
  function FirstWordIds(db: Db): (r: seq<nat>)
    ensures |r| == Min(2, |db.words|)
    ensures forall k | 0 <= k < |r| :: r[k] == db.words[k].id
  {
    seq(Min(2, |db.words|), k requires 0 <= k < Min(2, |db.words|) => db.words[k].id)
  }

  /** The store after a study session is inserted for the first group and the first activity
      (`LIMIT 1` in rowid order), at `now`, with a correct review of each of the first two
      words. */
  function SessionSeeded(db: Db, now: nat): (r: Db)
    requires WellFormed(db) && db.groups != [] && db.activities != []
    ensures WellFormed(r)
  {
    var d := AddSession(db, db.groups[0].id, now, Some(db.activities[0].id));
    AddReviews(d, FirstWordIds(db), db.nextSessionId, true, now)
  }

  /** A seeded session joins the first group and activity at `now`; no other table than
      sessions and reviews changes, and the old reviews are kept as a prefix. */
  lemma SessionSeededTables(db: Db, now: nat)
    requires WellFormed(db) && db.groups != [] && db.activities != []
    ensures var r := SessionSeeded(db, now);
      && r.sessions == db.sessions + [StudySession(db.nextSessionId, db.groups[0].id, now, Some(db.activities[0].id))]
      && r.words == db.words && r.groups == db.groups && r.wordGroups == db.wordGroups
      && r.activities == db.activities
      && |r.reviews| == |db.reviews| + Min(2, |db.words|)
      && r.reviews[..|db.reviews|] == db.reviews
  {
  }

  /** The seeded reviews are new rows for the new session, each correct, at `now`, and each
      about one of the first two words. */
  lemma SessionSeededReviews(db: Db, now: nat)
    requires WellFormed(db) && db.groups != [] && db.activities != []
    ensures var r := SessionSeeded(db, now);
      forall k | |db.reviews| <= k < |r.reviews| ::
        && r.reviews[k].correct && r.reviews[k].studySessionId == db.nextSessionId
        && r.reviews[k].wordId == db.words[k - |db.reviews|].id && r.reviews[k].createdAt == now
  {
    var d := AddSession(db, db.groups[0].id, now, Some(db.activities[0].id));
    var r := SessionSeeded(db, now);
    assert d.reviews == db.reviews;
    assert r.reviews == db.reviews + NewReviews(d.nextReviewId, FirstWordIds(db), db.nextSessionId, true, now);
  }

  /** Every seeded review points at an existing word, and no word is reviewed twice. */
  lemma SessionSeededWords(db: Db, now: nat)
    requires WellFormed(db) && db.groups != [] && db.activities != []
    ensures var r := SessionSeeded(db, now);
      forall k | |db.reviews| <= k < |r.reviews| :: r.reviews[k].wordId in Keys(db.words, WordKey)
    ensures var r := SessionSeeded(db, now);
      forall k, l | |db.reviews| <= k < l < |r.reviews| :: r.reviews[k].wordId != r.reviews[l].wordId
  {
    var r := SessionSeeded(db, now);
    SessionSeededTables(db, now);
    SessionSeededReviews(db, now);
    forall k | |db.reviews| <= k < |r.reviews|
      ensures r.reviews[k].wordId in Keys(db.words, WordKey)
    {
      assert db.words[k - |db.reviews|] in db.words;
    }
  }

  /** `seed_study_session`: statement 0 reads the first group's id and 1 the first activity's,
      each raising when the table is empty; 2 inserts the session, 3 the reviews, 4 commits. */
  method SeedStudySession(store: Store, now: nat, failAt: Option<nat>) returns (outcome: Outcome)
    modifies store
    requires store.Valid()
    ensures store.Valid()
    ensures outcome.Raised? ==> store.Snapshot() == old(store.Snapshot())
    ensures !FailsWithin(failAt, 1) && old(store.groups) == [] ==> outcome == Raised(NoRow)
    ensures !FailsWithin(failAt, 2) && old(store.groups) != [] && old(store.activities) == [] ==>
      outcome == Raised(NoRow)
    ensures outcome == Done <==>
      old(store.groups) != [] && old(store.activities) != [] && !FailsWithin(failAt, 5)
    ensures outcome == Done ==>
      old(store.groups) != [] && old(store.activities) != []
      && store.Snapshot() == SessionSeeded(old(store.Snapshot()), now)
  {
    var saved := store.Snapshot();
    if failAt == Some(0) {
      store.Rollback(saved);
      return Raised(DbError);
    }
    if store.groups == [] {
      store.Rollback(saved);
      return Raised(NoRow);
    }
    if failAt == Some(1) {
      store.Rollback(saved);
      return Raised(DbError);
    }
    if store.activities == [] {
      store.Rollback(saved);
      return Raised(NoRow);
    }
    outcome := InsertSeededSession(store, now, failAt, 2);
  }

  /** The two inserts and the commit shared by `seed_study_session` and `create_session`,
      numbered from `first`; a fault among them rolls everything back. */
  method InsertSeededSession(store: Store, now: nat, failAt: Option<nat>, first: nat) returns (outcome: Outcome)
    modifies store
    requires store.Valid() && store.groups != [] && store.activities != []
    requires !FailsWithin(failAt, first)
    ensures store.Valid()
    ensures outcome.Raised? ==> outcome.failure == DbError && store.Snapshot() == old(store.Snapshot())
    ensures outcome == Done <==> !FailsWithin(failAt, first + 3)
    ensures outcome == Done ==> store.Snapshot() == SessionSeeded(old(store.Snapshot()), now)
  {
    var saved := store.Snapshot();
    var ids := FirstWordIds(saved);
    assert FailsWithin(failAt, first + 3) <==> failAt in {Some(first), Some(first + 1), Some(first + 2)};
    if failAt == Some(first) {
      store.Rollback(saved);
      return Raised(DbError);
    }
    var sessionId := store.InsertSession(store.groups[0].id, now, Some(store.activities[0].id));
    ghost var d := store.Snapshot();
    assert d == AddSession(saved, saved.groups[0].id, now, Some(saved.activities[0].id));
    if failAt == Some(first + 1) {
      store.Rollback(saved);
      return Raised(DbError);
    }
    store.InsertReviews(ids, sessionId, true, now);
    assert store.Snapshot() == AddReviews(d, ids, saved.nextSessionId, true, now) == SessionSeeded(saved, now);
    if failAt == Some(first + 2) {
      store.Rollback(saved);
      return Raised(DbError);
    }
    return Done;
  }
}
