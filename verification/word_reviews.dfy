/** The registered review endpoints: the full review list, two ways to record a review (neither
    checks that the word or the session exists), lookup and delete. No endpoint changes an
    existing review. */
module WordReviewsApi {
  import opened Base
  import opened PortalSchema
  import opened PortalStore

  const FIELDS_REQUIRED := "Word ID, Study Session ID, and Correct fields are required"
  const CORRECT_REQUIRED := "Correct field is required"

  /** `WordReviewListAPI.get`: every review row, in rowid order and unpaginated. */
  function List(db: Db): (r: seq<WordReviewItem>)
    ensures |r| == |db.reviews|
    ensures forall x :: x in r <==> x in db.reviews
  {
    db.reviews
  }

  /** `WordReviewListAPI.post`: 400 unless word_id, study_session_id and correct are all given;
      otherwise exactly one review with those values, stamped `now`, is appended (201). */
  method Post(store: Store, body: Option<ReviewBody>, now: nat) returns (status: Status, created: Option<WordReviewItem>)
    modifies store
    requires store.Valid()
    ensures store.Valid()
    ensures (body.None? || body.value.wordId.None? || body.value.sessionId.None? || body.value.correct.None?)
      <==> status == BadRequest(FIELDS_REQUIRED)
    ensures status == BadRequest(FIELDS_REQUIRED) ==> created.None? && store.Snapshot() == old(store.Snapshot())
    ensures status != BadRequest(FIELDS_REQUIRED) ==>
      var b := body.value;
      && status == Created
      && created == Some(WordReviewItem(old(store.nextReviewId), b.wordId.value, b.sessionId.value, b.correct.value, now))
      && store.Snapshot() == AddReview(old(store.Snapshot()), b.wordId.value, b.sessionId.value, b.correct.value, now)
  {
    if body.None? || body.value.wordId.None? || body.value.sessionId.None? || body.value.correct.None? {
      return BadRequest(FIELDS_REQUIRED), None;
    }
    var b := body.value;
    var id := store.InsertReview(b.wordId.value, b.sessionId.value, b.correct.value, now);
    return Created, Some(WordReviewItem(id, b.wordId.value, b.sessionId.value, b.correct.value, now));
  }

  /** `WordReviewSessionAPI.post`: 400 without `correct`; otherwise one review for the path's
      session and word is appended (201), whether or not they exist. */
  method SessionPost(store: Store, sessionId: nat, wordId: nat, body: Option<ReviewBody>, now: nat)
    returns (status: Status, created: Option<WordReviewItem>)
    modifies store
    requires store.Valid()
    ensures store.Valid()
    ensures (body.None? || body.value.correct.None?) <==> status == BadRequest(CORRECT_REQUIRED)
    ensures status == BadRequest(CORRECT_REQUIRED) ==> created.None? && store.Snapshot() == old(store.Snapshot())
    ensures status != BadRequest(CORRECT_REQUIRED) ==>
      && status == Created
      && created == Some(WordReviewItem(old(store.nextReviewId), wordId, sessionId, body.value.correct.value, now))
      && store.Snapshot() == AddReview(old(store.Snapshot()), wordId, sessionId, body.value.correct.value, now)
  {
    if body.None? || body.value.correct.None? {
      return BadRequest(CORRECT_REQUIRED), None;
    }
    var correct := body.value.correct.value;
    var id := store.InsertReview(wordId, sessionId, correct, now);
    return Created, Some(WordReviewItem(id, wordId, sessionId, correct, now));
  }

  /** `WordReviewAPI.get` (`get_or_404`). */
  function Get(db: Db, id: nat): (r: Reply<WordReviewItem>)
    ensures r.Refused? <==> id !in Keys(db.reviews, ReviewKey)
    ensures r.Refused? ==> r.status == NotFound(None)
    ensures r.Found? ==> r.value in db.reviews && r.value.id == id
  {
    match Find(db.reviews, ReviewKey, id)
    case None => Refused(NotFound(None))
    case Some(x) => Found(x)
  }

  /** `WordReviewAPI.delete`: 404 for a missing id, otherwise exactly that review is removed (204). */
  method Delete(store: Store, id: nat) returns (status: Status)
    modifies store
    requires store.Valid()
    ensures store.Valid()
    ensures id !in Keys(old(store.reviews), ReviewKey) ==>
      status == NotFound(None) && store.Snapshot() == old(store.Snapshot())
    ensures id in Keys(old(store.reviews), ReviewKey) ==>
      status == NoContent && store.Snapshot() == RemoveReview(old(store.Snapshot()), id)
  {
    if Find(store.reviews, ReviewKey, id).None? {
      return NotFound(None);
    }
    store.DeleteReview(id);
    return NoContent;
  }

  /** A recorded review is found under its new id with exactly the recorded values, and every
      earlier review is still there unchanged. */
  lemma RecordedIsFound(db: Db, wordId: nat, sessionId: nat, correct: bool, now: nat)
    requires WellFormed(db)
    ensures Get(AddReview(db, wordId, sessionId, correct, now), db.nextReviewId)
      == Found(WordReviewItem(db.nextReviewId, wordId, sessionId, correct, now))
    ensures AddReview(db, wordId, sessionId, correct, now).reviews[..|db.reviews|] == db.reviews
  {
  }

  /** A deleted review is no longer found, and every other review is. */
  lemma DeletedIsGone(db: Db, id: nat, x: WordReviewItem)
    requires WellFormed(db) && x in db.reviews && x.id != id
    ensures Get(RemoveReview(db, id), id).Refused?
    ensures Get(RemoveReview(db, id), x.id) == Found(x)
  {
    var db' := RemoveReview(db, id);
    assert x in db'.reviews;
    FindUnique(db'.reviews, ReviewKey, x);
  }
}
