/** The study-session endpoints: the paginated session list and one session (both joined to
    their group and activity), session creation, the words reviewed in a session, and the
    session-scoped review endpoint whose registration the review module's replaces. */
module StudySessionsApi {
  import opened Base
  import opened PortalSchema
  import opened PortalStore
  import GroupsApi

  /** The group name and activity name the two inner joins attach to a session; None when the
      session's group is missing, it has no activity, or its activity is missing. */
  function JoinNames(db: Db, s: StudySession): (r: Option<(string, string)>)
    ensures r.Some? <==>
      s.groupId in Keys(db.groups, GroupKey)
      && s.studyActivityId.Some? && s.studyActivityId.value in Keys(db.activities, ActivityKey)
    ensures r.Some? ==> Group(s.groupId, r.value.0) in db.groups
    ensures r.Some? ==> exists a | a in db.activities :: a.id == s.studyActivityId.value && a.name == r.value.1
  {
    match Find(db.groups, GroupKey, s.groupId)
    case None => None
    case Some(g) =>
      if s.studyActivityId.None? then None
      else match Find(db.activities, ActivityKey, s.studyActivityId.value)
        case None => None
        case Some(a) => Some((g.name, a.name))
  }

  function IsJoined(db: Db): StudySession -> bool
  {
    (s: StudySession) => JoinNames(db, s).Some?
  }

  /** The sessions the joined queries can return, in rowid order. */
  function JoinedSessions(db: Db): seq<StudySession>
  {
    Filter(db.sessions, IsJoined(db))
  }

  datatype SessionRow = SessionRow(
    id: nat, activityName: string, groupName: string, startTime: nat, reviewItemsCount: nat)

  /** A session's row: its names, its start time, and the number of its reviews (0-filled by
      the outer join). */
  function RowOf(db: Db, s: StudySession): SessionRow
    requires IsJoined(db)(s)
  {
    var names := JoinNames(db, s).value;
    SessionRow(s.id, names.1, names.0, s.createdAt, Count(db.reviews, GroupsApi.OfSession(s.id)))
  }

  /** `StudySessionListAPI.get`: the first page of 100 joined sessions. */
  function List(db: Db): (r: Page<SessionRow>)
    ensures r.totalItems == |JoinedSessions(db)| && |r.items| == Min(|JoinedSessions(db)|, PER_PAGE)
    ensures forall i | 0 <= i < |r.items| :: r.items[i] == RowOf(db, JoinedSessions(db)[i])
  {
    var ss := JoinedSessions(db);
    Paginate(seq(|ss|, i requires 0 <= i < |ss| => RowOf(db, ss[i])))
  }

  /** A session is listed exactly when its group and its activity both exist; a session
      without an activity is never listed. */
  lemma ListedIffJoined(db: Db, s: StudySession)
    ensures s in JoinedSessions(db) <==>
      s in db.sessions && s.groupId in Keys(db.groups, GroupKey)
      && s.studyActivityId.Some? && s.studyActivityId.value in Keys(db.activities, ActivityKey)
  {
    assert s in JoinedSessions(db) <==> s in db.sessions && IsJoined(db)(s);
  }

  /** The JSON body of a session create. */
  datatype SessionBody = SessionBody(groupId: Option<nat>, activityId: Option<nat>, otherKeys: bool)

  const MISSING_FIELDS := "Missing required fields: group_id, study_activity_id"

  /** `StudySessionListAPI.post`: 400 unless both ids are given, 404 for a missing group, then
      404 for a missing activity; otherwise one session stamped `now` is added (201). */
  method Post(store: Store, body: Option<SessionBody>, now: nat) returns (status: Status, created: Option<StudySession>)
    modifies store
    requires store.Valid()
    ensures store.Valid()
    ensures status != Created ==> created.None? && store.Snapshot() == old(store.Snapshot())
    ensures (body.None? || body.value.groupId.None? || body.value.activityId.None?) ==>
      status == BadRequest(MISSING_FIELDS)
    ensures body.Some? && body.value.groupId.Some? && body.value.activityId.Some? ==>
      var b := body.value;
      if b.groupId.value !in Keys(old(store.groups), GroupKey) then status == NotFound(None)
      else if b.activityId.value !in Keys(old(store.activities), ActivityKey) then status == NotFound(None)
      else
        var s := StudySession(old(store.nextSessionId), b.groupId.value, now, b.activityId);
        && status == Created && created == Some(s)
        && store.Snapshot() == AddSession(old(store.Snapshot()), s.groupId, now, s.studyActivityId)
  {
    if body.None? || body.value.groupId.None? || body.value.activityId.None? {
      return BadRequest(MISSING_FIELDS), None;
    }
    var b := body.value;
    if Find(store.groups, GroupKey, b.groupId.value).None? {
      return NotFound(None), None;
    }
    if Find(store.activities, ActivityKey, b.activityId.value).None? {
      return NotFound(None), None;
    }
    var id := store.InsertSession(b.groupId.value, now, b.activityId);
    return Created, Some(StudySession(id, b.groupId.value, now, b.activityId));
  }

  /** A session just created is listed, since its group and activity were checked. */
  lemma CreatedIsJoined(db: Db, groupId: nat, activityId: nat, now: nat)
    requires WellFormed(db)
    requires groupId in Keys(db.groups, GroupKey) && activityId in Keys(db.activities, ActivityKey)
    ensures StudySession(db.nextSessionId, groupId, now, Some(activityId))
      in JoinedSessions(AddSession(db, groupId, now, Some(activityId)))
  {
    var s := StudySession(db.nextSessionId, groupId, now, Some(activityId));
    var db' := AddSession(db, groupId, now, Some(activityId));
    assert s in db'.sessions;
    ListedIffJoined(db', s);
  }

  /** `StudySessionAPI.get` (`first_or_404` over the joined query). */
  function Get(db: Db, id: nat): (r: Reply<SessionRow>)
    ensures r.Refused? <==> id !in Keys(JoinedSessions(db), SessionKey)
    ensures r.Refused? ==> r.status == NotFound(None)
    ensures r.Found? ==> r.value.id == id
  {
    match Find(JoinedSessions(db), SessionKey, id)
    case None => Refused(NotFound(None))
    case Some(s) => Found(RowOf(db, s))
  }

  // ---------------------------------------------------------------- words of a session

  function ReviewInSession(wordId: nat, sessionId: nat): WordReviewItem -> bool
  {
    (r: WordReviewItem) => r.wordId == wordId && r.studySessionId == sessionId
  }

  function CorrectInSession(wordId: nat, sessionId: nat): WordReviewItem -> bool
  {
    (r: WordReviewItem) => r.wordId == wordId && r.studySessionId == sessionId && r.correct
  }

  function WrongInSession(wordId: nat, sessionId: nat): WordReviewItem -> bool
  {
    (r: WordReviewItem) => r.wordId == wordId && r.studySessionId == sessionId && !r.correct
  }

  /** The inner join keeps a word only when it has a review in the session. */
  function ReviewedIn(db: Db, sessionId: nat): Word -> bool
  {
    (w: Word) => Count(db.reviews, ReviewInSession(w.id, sessionId)) > 0
  }

  datatype SessionWordItem = SessionWordItem(
    kanji: string, romaji: string, english: string, correctCount: nat, wrongCount: nat)

  function SessionWordOf(db: Db, w: Word, sessionId: nat): SessionWordItem
  {
    SessionWordItem(w.kanji, w.romaji, w.english,
                    Count(db.reviews, CorrectInSession(w.id, sessionId)),
                    Count(db.reviews, WrongInSession(w.id, sessionId)))
  }

  /** The words reviewed in the session, in rowid order. */
  function ReviewedWords(db: Db, sessionId: nat): seq<Word>
  {
    Filter(db.words, ReviewedIn(db, sessionId))
  }

  /** `StudySessionWordsAPI.get`: 404 for a missing session, else the first page of 100 words
      reviewed in it, with counts of this session's reviews only. */
  function Words(db: Db, sessionId: nat): (r: Reply<Page<SessionWordItem>>)
    ensures r.Refused? <==> sessionId !in Keys(db.sessions, SessionKey)
    ensures r.Refused? ==> r.status == NotFound(None)
    ensures r.Found? ==> r.value.totalItems == |ReviewedWords(db, sessionId)|
    ensures r.Found? ==> |r.value.items| == Min(|ReviewedWords(db, sessionId)|, PER_PAGE)
    ensures r.Found? ==> forall i | 0 <= i < |r.value.items| ::
      r.value.items[i] == SessionWordOf(db, ReviewedWords(db, sessionId)[i], sessionId)
  {
    if Find(db.sessions, SessionKey, sessionId).None? then Refused(NotFound(None))
    else
      var ws := ReviewedWords(db, sessionId);
      Found(Paginate(seq(|ws|, i requires 0 <= i < |ws| => SessionWordOf(db, ws[i], sessionId))))
  }

  lemma {:induction false} CorrectPlusWrongInSession(reviews: seq<WordReviewItem>, wordId: nat, sessionId: nat)
    ensures Count(reviews, CorrectInSession(wordId, sessionId)) + Count(reviews, WrongInSession(wordId, sessionId))
         == Count(reviews, ReviewInSession(wordId, sessionId))
  {
    if reviews != [] {
      CorrectPlusWrongInSession(reviews[1..], wordId, sessionId);
    }
  }

  /** The listed words are exactly the existing words with a review in the session, and each
      one's two counts are at least one review between them: the session's reviews of it. */
  lemma SessionWordsExact(db: Db, sessionId: nat)
    ensures forall w :: w in ReviewedWords(db, sessionId) <==>
      w in db.words && exists r | r in db.reviews :: r.wordId == w.id && r.studySessionId == sessionId
    ensures forall w | w in ReviewedWords(db, sessionId) ::
      var item := SessionWordOf(db, w, sessionId);
      item.correctCount + item.wrongCount == Count(db.reviews, ReviewInSession(w.id, sessionId)) >= 1
  {
    forall w ensures w in ReviewedWords(db, sessionId) <==>
      w in db.words && exists r | r in db.reviews :: r.wordId == w.id && r.studySessionId == sessionId
    {
      if w in db.words && exists r | r in db.reviews :: r.wordId == w.id && r.studySessionId == sessionId {
        var r :| r in db.reviews && r.wordId == w.id && r.studySessionId == sessionId;
        var k :| 0 <= k < |db.reviews| && db.reviews[k] == r;
        assert ReviewInSession(w.id, sessionId)(db.reviews[k]);
      }
      if w in ReviewedWords(db, sessionId) {
        assert Count(db.reviews, ReviewInSession(w.id, sessionId)) > 0;
        var k :| 0 <= k < |db.reviews| && ReviewInSession(w.id, sessionId)(db.reviews[k]);
        assert db.reviews[k] in db.reviews;
      }
    }
    forall w | w in ReviewedWords(db, sessionId)
      ensures SessionWordOf(db, w, sessionId).correctCount + SessionWordOf(db, w, sessionId).wrongCount
           == Count(db.reviews, ReviewInSession(w.id, sessionId))
    {
      CorrectPlusWrongInSession(db.reviews, w.id, sessionId);
    }
  }

  // ---------------------------------------------------------------- shadowed review endpoint

  const MISSING_CORRECT := "Missing correct field in request body"

  /** `WordReviewAPI.post` of this module (not reachable: the route is registered with the
      review module's handler). 404 for a missing session, then for a missing word, then 400
      without `correct`; otherwise exactly one review stamped `now` is appended (200). */
  method ReviewPost(store: Store, sessionId: nat, wordId: nat, body: Option<ReviewBody>, now: nat)
    returns (status: Status, created: Option<WordReviewItem>)
    modifies store
    requires store.Valid()
    ensures store.Valid()
    ensures status != Ok ==> created.None? && store.Snapshot() == old(store.Snapshot())
    ensures sessionId !in Keys(old(store.sessions), SessionKey) ==> status == NotFound(None)
    ensures sessionId in Keys(old(store.sessions), SessionKey) && wordId !in Keys(old(store.words), WordKey) ==>
      status == NotFound(None)
    ensures (sessionId in Keys(old(store.sessions), SessionKey) && wordId in Keys(old(store.words), WordKey)
             && (body.None? || body.value.correct.None?)) ==> status == BadRequest(MISSING_CORRECT)
    ensures status == Ok <==>
      sessionId in Keys(old(store.sessions), SessionKey) && wordId in Keys(old(store.words), WordKey)
      && body.Some? && body.value.correct.Some?
    ensures status == Ok ==>
      created == Some(WordReviewItem(old(store.nextReviewId), wordId, sessionId, body.value.correct.value, now))
      && store.Snapshot() == AddReview(old(store.Snapshot()), wordId, sessionId, body.value.correct.value, now)
  {
    if Find(store.sessions, SessionKey, sessionId).None? {
      return NotFound(None), None;
    }
    if Find(store.words, WordKey, wordId).None? {
      return NotFound(None), None;
    }
    if body.None? || body.value.correct.None? {
      return BadRequest(MISSING_CORRECT), None;
    }
    var correct := body.value.correct.value;
    var id := store.InsertReview(wordId, sessionId, correct, now);
    return Ok, Some(WordReviewItem(id, wordId, sessionId, correct, now));
  }
}
