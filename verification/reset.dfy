/** The two reset endpoints. Each runs its DELETE statements one after another in one
    transaction and commits; any failure rolls the whole transaction back and answers 500.
    A database fault is not something the model can compute, so it is an input: `failAt`
    names the statement (0-based, the commit last) that raises, if any. */
module Reset {
  import opened Base
  import opened PortalSchema
  import opened PortalStore
  import GroupsApi
  import Dashboard

  const HISTORY_RESET := "Study history has been reset"
  const FULL_RESET := "System has been fully reset"

  /** The tables after `ResetHistory`: no review and no session; the vocabulary, the groups,
      their associations, the activities and every AUTOINCREMENT counter stay. */
  function HistoryCleared(db: Db): (r: Db)
    ensures WellFormed(db) ==> WellFormed(r)
    ensures r.reviews == [] && r.sessions == []
    ensures r.words == db.words && r.groups == db.groups && r.wordGroups == db.wordGroups
    ensures r.activities == db.activities
    ensures r.nextSessionId == db.nextSessionId && r.nextReviewId == db.nextReviewId
  {
    db.(reviews := [], sessions := [])
  }

  /** The tables after `FullReset`: also no activity and no word-group association. Words and
      groups themselves are kept. */
  function FullyCleared(db: Db): (r: Db)
    ensures WellFormed(db) ==> WellFormed(r)
    ensures r.reviews == [] && r.sessions == [] && r.activities == [] && r.wordGroups == []
    ensures r.words == db.words && r.groups == db.groups
    ensures r.nextActivityId == db.nextActivityId
  {
    db.(reviews := [], sessions := [], activities := [], wordGroups := [])
  }

  /** Resetting twice is resetting once, and a full reset subsumes a history reset. */
  lemma ResetIdempotent(db: Db)
    ensures HistoryCleared(HistoryCleared(db)) == HistoryCleared(db)
    ensures FullyCleared(FullyCleared(db)) == FullyCleared(db)
    ensures FullyCleared(HistoryCleared(db)) == FullyCleared(db)
    ensures HistoryCleared(FullyCleared(db)) == FullyCleared(db)
  {
  }

  /** After a history reset nothing counts as studied; the word list is unchanged. */
  lemma HistoryResetForgetsProgress(db: Db)
    ensures Dashboard.StudyProgress(HistoryCleared(db)).totalWordsStudied == 0
    ensures Dashboard.StudyProgress(HistoryCleared(db)).totalAvailableWords == |db.words|
    ensures forall id :: Count(HistoryCleared(db).reviews, ReviewsOfWord(id)) == 0
  {
  }

  /** After a full reset every group is empty, although its words still exist. */
  lemma FullResetEmptiesGroups(db: Db)
    ensures forall g :: WordsOf(FullyCleared(db), g) == [] && GroupsApi.WordCount(FullyCleared(db), g) == 0
    ensures FullyCleared(db).words == db.words
  {
    forall g ensures WordsOf(FullyCleared(db), g) == [] {
      assert Count(db.words, InGroup(FullyCleared(db), g)) == 0;
    }
  }

  /** Whether the fault, if any, hits one of the first `statements` statements. */
  predicate FailsWithin(failAt: Option<nat>, statements: nat)
  {
    failAt.Some? && failAt.value < statements
  }

  /** `ResetHistory.post`: two DELETEs and the commit (statements 0, 1 and 2). */
  method ResetHistory(store: Store, failAt: Option<nat>) returns (status: Status, message: Option<string>)
    modifies store
    requires store.Valid()
    ensures store.Valid()
    ensures FailsWithin(failAt, 3) ==>
      status == ServerError && message.None? && store.Snapshot() == old(store.Snapshot())
    ensures !FailsWithin(failAt, 3) ==>
      status == Ok && message == Some(HISTORY_RESET) && store.Snapshot() == HistoryCleared(old(store.Snapshot()))
  {
    var saved := store.Snapshot();
    if failAt == Some(0) {
      store.Rollback(saved);
      return ServerError, None;
    }
    store.DeleteAllReviews();
    if failAt == Some(1) {
      store.Rollback(saved);
      return ServerError, None;
    }
    store.DeleteAllSessions();
    if failAt == Some(2) {
      store.Rollback(saved);
      return ServerError, None;
    }
    return Ok, Some(HISTORY_RESET);
  }

  /** `FullReset.post`: four DELETEs and the commit (statements 0 to 4). */
  method FullReset(store: Store, failAt: Option<nat>) returns (status: Status, message: Option<string>)
    modifies store
    requires store.Valid()
    ensures store.Valid()
    ensures FailsWithin(failAt, 5) ==>
      status == ServerError && message.None? && store.Snapshot() == old(store.Snapshot())
    ensures !FailsWithin(failAt, 5) ==>
      status == Ok && message == Some(FULL_RESET) && store.Snapshot() == FullyCleared(old(store.Snapshot()))
  {
    var saved := store.Snapshot();
    if failAt == Some(0) {
      store.Rollback(saved);
      return ServerError, None;
    }
    store.DeleteAllReviews();
    if failAt == Some(1) {
      store.Rollback(saved);
      return ServerError, None;
    }
    store.DeleteAllSessions();
    if failAt == Some(2) {
      store.Rollback(saved);
      return ServerError, None;
    }
    store.DeleteAllActivities();
    if failAt == Some(3) {
      store.Rollback(saved);
      return ServerError, None;
    }
    store.DeleteAllLinks();
    if failAt == Some(4) {
      store.Rollback(saved);
      return ServerError, None;
    }
    return Ok, Some(FULL_RESET);
  }
}
