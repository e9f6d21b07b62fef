/** The `create_session` script: when a group and a study activity exist, one session for
    the first of each is inserted with a correct review of each of the first two words, all
    in one transaction; otherwise nothing is written. Database faults are an input: `failAt`
    names the statement (0-based, the commit last) that raises, if any. */
module CreateSession {
  import opened PortalSchema
  import opened PortalStore
  import opened Base
  import SeedManager

  datatype Result = SessionCreated(sessionId: nat) | NothingFound | Failed

  /** Statements 0 and 1 list the groups and the activities, 2 and 3 read the first id of
      each. `if group_id and activity_id` holds exactly when both tables are non-empty (ids
      start at 1). Then 4 inserts the session, 5 the reviews, 6 commits; any failure rolls
      back and re-raises. */
  method CreateSession(store: Store, now: nat, failAt: Option<nat>) returns (result: Result)
    modifies store
    requires store.Valid()
    ensures store.Valid()
    ensures !result.SessionCreated? ==> store.Snapshot() == old(store.Snapshot())
    ensures SeedManager.FailsWithin(failAt, 4) ==> result == Failed
    ensures !SeedManager.FailsWithin(failAt, 4) && (old(store.groups) == [] || old(store.activities) == []) ==>
      result == NothingFound
    ensures result.SessionCreated? <==>
      old(store.groups) != [] && old(store.activities) != [] && !SeedManager.FailsWithin(failAt, 7)
    ensures result.SessionCreated? ==>
      && old(store.groups) != [] && old(store.activities) != []
      && result.sessionId == old(store.nextSessionId)
      && store.Snapshot() == SeedManager.SessionSeeded(old(store.Snapshot()), now)
  {
    var saved := store.Snapshot();
    SeedManager.FailsWithinStep(failAt, 0);
    SeedManager.FailsWithinStep(failAt, 2);
    if failAt.Some? && failAt.value < 4 {
      store.Rollback(saved);
      return Failed;
    }
    if store.groups == [] || store.activities == [] {
      return NothingFound;
    }
    var sessionId := store.nextSessionId;
    var outcome := SeedManager.InsertSeededSession(store, now, failAt, 4);
    if outcome.Raised? {
      return Failed;
    }
    return SessionCreated(sessionId);
  }
}
