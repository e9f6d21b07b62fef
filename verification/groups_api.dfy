/** The registered group endpoints: the paginated group list with word counts, one group's
    summary, its words with their review tallies, and its study sessions newest first. */
module GroupsApi {
  import opened Base
  import opened PortalSchema
  import WordsApi

  const GROUP_NOT_FOUND := "Group not found"

  // ---------------------------------------------------------------- word counts

  /** An association row of the group whose word still exists: what `COUNT(words.id)` over
      the outer join through the association table counts. */
  function LinkOfExistingWord(db: Db, groupId: nat): WordGroup -> bool
  {
    (a: WordGroup) => a.groupId == groupId && a.wordId in Keys(db.words, WordKey)
  }

  function WordCount(db: Db, groupId: nat): nat
  {
    Count(db.wordGroups, LinkOfExistingWord(db, groupId))
  }

  function LinkSelf(a: WordGroup): WordGroup { a }
  function LinkWordId(a: WordGroup): nat { a.wordId }

  /** The counted association rows and the group's words name the same word ids. */
  lemma LinkedIdsAreMemberIds(db: Db, groupId: nat)
    ensures Image(Filter(db.wordGroups, LinkOfExistingWord(db, groupId)), LinkWordId)
         == Image(WordsOf(db, groupId), WordKey)
  {
    var links := Filter(db.wordGroups, LinkOfExistingWord(db, groupId));
    var members := WordsOf(db, groupId);
    forall a | a in links ensures LinkWordId(a) in Image(members, WordKey) {
      var w :| w in db.words && w.id == a.wordId;
      assert a == WordGroup(w.id, groupId);
      assert InGroup(db, groupId)(w);
    }
    forall w | w in members ensures WordKey(w) in Image(links, LinkWordId) {
      assert LinkOfExistingWord(db, groupId)(WordGroup(w.id, groupId));
    }
  }

  /** Distinct association rows of one group name distinct words. */
  lemma SameGroupLinksInjective(links: seq<WordGroup>, groupId: nat)
    requires InjectiveOn(links, LinkSelf)
    requires forall a | a in links :: a.groupId == groupId
    ensures InjectiveOn(links, LinkWordId)
  {
    forall i, j | 0 <= i < j < |links| ensures LinkWordId(links[i]) != LinkWordId(links[j]) {
      assert links[i] in links && links[j] in links;
      assert LinkSelf(links[i]) != LinkSelf(links[j]);
    }
  }

  /** With unique (word, group) pairs and unique word ids, the count equals the number of
      words in the group. */
  lemma WordCountIsMembers(db: Db, groupId: nat)
    requires LinksUnique(db.wordGroups) && Increasing(db.words, WordKey)
    ensures WordCount(db, groupId) == |WordsOf(db, groupId)|
  {
    var links := Filter(db.wordGroups, LinkOfExistingWord(db, groupId));
    var members := WordsOf(db, groupId);
    LinksInjective(db, groupId);
    InjectiveCard(links, LinkWordId);
    IncreasingInjective(db.words, WordKey);
    FilterInjective(db.words, WordKey, InGroup(db, groupId));
    InjectiveCard(members, WordKey);
    LinkedIdsAreMemberIds(db, groupId);
    assert |links| == WordCount(db, groupId);
  }

  /** The counted association rows of a group name pairwise distinct words. */
  lemma LinksInjective(db: Db, groupId: nat)
    requires LinksUnique(db.wordGroups)
    ensures InjectiveOn(Filter(db.wordGroups, LinkOfExistingWord(db, groupId)), LinkWordId)
  {
    assert InjectiveOn(db.wordGroups, LinkSelf);
    FilterInjective(db.wordGroups, LinkSelf, LinkOfExistingWord(db, groupId));
    SameGroupLinksInjective(Filter(db.wordGroups, LinkOfExistingWord(db, groupId)), groupId);
  }

  // ---------------------------------------------------------------- list and detail

  datatype GroupItem = GroupItem(id: nat, name: string, wordCount: nat)

  /** `GroupListAPI.get`: the first page of 100 groups, each with its word count. */
  function List(db: Db): (r: Page<GroupItem>)
    ensures r.totalItems == |db.groups| && |r.items| == Min(|db.groups|, PER_PAGE)
    ensures forall i | 0 <= i < |r.items| ::
      r.items[i] == GroupItem(db.groups[i].id, db.groups[i].name, WordCount(db, db.groups[i].id))
  {
    Paginate(seq(|db.groups|, i requires 0 <= i < |db.groups| =>
      GroupItem(db.groups[i].id, db.groups[i].name, WordCount(db, db.groups[i].id))))
  }

  datatype GroupDetail = GroupDetail(id: nat, name: string, totalWordCount: nat)

  /** `GroupAPI.get`: 404 for a missing id, otherwise the group with its word count. */
  function Detail(db: Db, groupId: nat): (r: Reply<GroupDetail>)
    ensures r.Refused? <==> groupId !in Keys(db.groups, GroupKey)
    ensures r.Refused? ==> r.status == NotFound(None)
    ensures r.Found? ==> r.value.id == groupId && Group(groupId, r.value.name) in db.groups
    ensures r.Found? ==> r.value.totalWordCount == WordCount(db, groupId)
  {
    match Find(db.groups, GroupKey, groupId)
    case None => Refused(NotFound(None))
    case Some(g) => Found(GroupDetail(g.id, g.name, WordCount(db, groupId)))
  }

  /** In a well-formed store, the detail's `total_word_count` is the number of words in the
      group. */
  lemma DetailCountsMembers(db: Db, groupId: nat)
    requires LinksUnique(db.wordGroups) && Increasing(db.words, WordKey)
    ensures Detail(db, groupId).Found? ==> Detail(db, groupId).value.totalWordCount == |WordsOf(db, groupId)|
  {
    WordCountIsMembers(db, groupId);
  }

  // ---------------------------------------------------------------- words of a group

  /** Association rows for exactly this (word, group) pair: the multiplicity of the word in
      the inner join. */
  function PairCount(db: Db, wordId: nat, groupId: nat): nat
  {
    Count(db.wordGroups, EqualTo(WordGroup(wordId, groupId)))
  }

  function HasPair(db: Db, groupId: nat): Word -> bool
  {
    (w: Word) => PairCount(db, w.id, groupId) > 0
  }

  /** A word's row of the grouped join: every review of the word is counted once per
      association row, whichever session it came from. */
  function GroupWordItem(db: Db, w: Word, groupId: nat): WordsApi.WordItem
  {
    var k := PairCount(db, w.id, groupId);
    WordsApi.WordItem(w.id, w.kanji, w.romaji, w.english, w.parts,
                      k * Count(db.reviews, CorrectOfWord(w.id)), k * Count(db.reviews, WrongOfWord(w.id)))
  }

  datatype GroupWords = GroupWords(items: seq<WordsApi.WordItem>, total: nat)

  /** `GroupWordsAPI.get`: 404 "Group not found" before any further query. */
  function Words(db: Db, groupId: nat): (r: Reply<GroupWords>)
    ensures r.Refused? <==> groupId !in Keys(db.groups, GroupKey)
    ensures r.Refused? ==> r.status == NotFound(Some(GROUP_NOT_FOUND))
    ensures r.Found? ==> r.value.total == |r.value.items|
  {
    if Find(db.groups, GroupKey, groupId).None? then Refused(NotFound(Some(GROUP_NOT_FOUND)))
    else
      var ms := Filter(db.words, HasPair(db, groupId));
      var items := seq(|ms|, i requires 0 <= i < |ms| => GroupWordItem(db, ms[i], groupId));
      Found(GroupWords(items, |items|))
  }

  /** A pair is in the association table at most once, and is counted iff it is linked. */
  lemma PairCountIsLink(db: Db, wordId: nat, groupId: nat)
    requires LinksUnique(db.wordGroups)
    ensures PairCount(db, wordId, groupId) == if Linked(db, wordId, groupId) then 1 else 0
  {
    CountDistinctAtMostOne(db.wordGroups, WordGroup(wordId, groupId));
    if Linked(db, wordId, groupId) {
      var i :| 0 <= i < |db.wordGroups| && db.wordGroups[i] == WordGroup(wordId, groupId);
      assert EqualTo(WordGroup(wordId, groupId))(db.wordGroups[i]);
    }
  }

  /** The inner join through the association table selects exactly the group's words. */
  lemma PairedAreMembers(db: Db, groupId: nat)
    requires LinksUnique(db.wordGroups)
    ensures Filter(db.words, HasPair(db, groupId)) == WordsOf(db, groupId)
  {
    forall w | w in db.words ensures HasPair(db, groupId)(w) == InGroup(db, groupId)(w) {
      PairCountIsLink(db, w.id, groupId);
    }
    FilterCongruent(db.words, HasPair(db, groupId), InGroup(db, groupId));
  }

  /** The words listed for a group are exactly its words, and each carries the same tally
      as in the word list: all of the word's reviews, not only this group's sessions. */
  lemma WordsAreMembers(db: Db, groupId: nat)
    requires LinksUnique(db.wordGroups) && groupId in Keys(db.groups, GroupKey)
    ensures Words(db, groupId).Found?
    ensures |Words(db, groupId).value.items| == |WordsOf(db, groupId)|
    ensures forall i | 0 <= i < |WordsOf(db, groupId)| ::
      Words(db, groupId).value.items[i] == WordsApi.ItemOf(db, WordsOf(db, groupId)[i])
  {
    PairedAreMembers(db, groupId);
    var ms := WordsOf(db, groupId);
    forall i | 0 <= i < |ms| ensures GroupWordItem(db, ms[i], groupId) == WordsApi.ItemOf(db, ms[i]) {
      assert ms[i] in ms;
      PairCountIsLink(db, ms[i].id, groupId);
    }
  }

  // ---------------------------------------------------------------- sessions of a group

  function OfSession(sessionId: nat): WordReviewItem -> bool
  {
    (r: WordReviewItem) => r.studySessionId == sessionId
  }

  function CorrectOfSession(sessionId: nat): WordReviewItem -> bool
  {
    (r: WordReviewItem) => r.studySessionId == sessionId && r.correct
  }

  /** The activity's name through `LEFT JOIN study_activities`: NULL when the session has no
      activity or the activity is gone. */
  function ActivityName(db: Db, s: StudySession): Option<string>
  {
    if s.studyActivityId.None? then None
    else match Find(db.activities, ActivityKey, s.studyActivityId.value)
      case Some(a) => Some(a.name)
      case None => None
  }

  datatype SessionItem = SessionItem(
    id: nat, createdAt: nat, activityName: Option<string>, totalReviews: nat, correctReviews: nat)

  function SessionItemOf(db: Db, s: StudySession): (r: SessionItem)
    ensures r.correctReviews <= r.totalReviews
  {
    CountMonotone(db.reviews, CorrectOfSession(s.id), OfSession(s.id));
    SessionItem(s.id, s.createdAt, ActivityName(db, s),
                Count(db.reviews, OfSession(s.id)), Count(db.reviews, CorrectOfSession(s.id)))
  }

  function OfGroup(groupId: nat): StudySession -> bool
  {
    (s: StudySession) => s.groupId == groupId
  }

  /** `ORDER BY created_at DESC`. */
  function NewerOrSame(a: StudySession, b: StudySession): bool
  {
    a.createdAt >= b.createdAt
  }

  /** The group's sessions in the order the query returns them. */
  function OrderedSessions(db: Db, groupId: nat): (r: seq<StudySession>)
    ensures multiset(r) == multiset(Filter(db.sessions, OfGroup(groupId)))
  {
    Sort(Filter(db.sessions, OfGroup(groupId)), NewerOrSame)
  }

  datatype GroupSessions = GroupSessions(items: seq<SessionItem>, total: nat)

  /** `GroupStudySessionsAPI.get`: 404 "Group not found", else one item per session of the group. */
  function Sessions(db: Db, groupId: nat): (r: Reply<GroupSessions>)
    ensures r.Refused? <==> groupId !in Keys(db.groups, GroupKey)
    ensures r.Refused? ==> r.status == NotFound(Some(GROUP_NOT_FOUND))
    ensures r.Found? ==> r.value.total == |r.value.items| == |OrderedSessions(db, groupId)|
    ensures r.Found? ==> forall i | 0 <= i < |r.value.items| ::
      r.value.items[i].correctReviews <= r.value.items[i].totalReviews
  {
    if Find(db.groups, GroupKey, groupId).None? then Refused(NotFound(Some(GROUP_NOT_FOUND)))
    else
      var ss := OrderedSessions(db, groupId);
      var items := seq(|ss|, i requires 0 <= i < |ss| => SessionItemOf(db, ss[i]));
      Found(GroupSessions(items, |items|))
  }

  /** The group's sessions, ordered newest first, are exactly the sessions with that group id. */
  lemma OrderedSessionsExact(db: Db, groupId: nat)
    ensures Sorted(OrderedSessions(db, groupId), NewerOrSame)
    ensures forall s :: s in OrderedSessions(db, groupId) <==> s in db.sessions && s.groupId == groupId
  {
    SortSorted(Filter(db.sessions, OfGroup(groupId)), NewerOrSame);
    var ss := OrderedSessions(db, groupId);
    forall s ensures s in ss <==> s in db.sessions && s.groupId == groupId {
      assert s in ss <==> s in multiset(ss);
      assert s in Filter(db.sessions, OfGroup(groupId)) <==> s in multiset(Filter(db.sessions, OfGroup(groupId)));
    }
  }

  /** The items of `Sessions` follow that order: newest first. */
  lemma SessionsNewestFirst(db: Db, groupId: nat)
    requires groupId in Keys(db.groups, GroupKey)
    ensures Sessions(db, groupId).Found?
    ensures var items := Sessions(db, groupId).value.items;
      forall i | 0 <= i < |items| - 1 :: items[i].createdAt >= items[i + 1].createdAt
  {
    OrderedSessionsExact(db, groupId);
    var ss := OrderedSessions(db, groupId);
    var items := Sessions(db, groupId).value.items;
    forall i | 0 <= i < |items| - 1 ensures items[i].createdAt >= items[i + 1].createdAt {
      assert NewerOrSame(ss[i], ss[i + 1]);
    }
  }
}
