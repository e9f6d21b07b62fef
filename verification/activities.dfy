/** The study-activity endpoints: list with session totals, create, detail with usage
    statistics, partial update, and a delete that refuses while sessions use the activity. */
module ActivitiesApi {
  import opened Base
  import opened PortalSchema
  import opened PortalStore

  /** A JSON request body. For each field the outer Option says whether the key is present and
      the inner one whether its value is a string or `null`. */
  datatype ActivityBody = ActivityBody(
    name: Option<Option<string>>, thumbnailUrl: Option<Option<string>>, description: Option<Option<string>>,
    otherKeys: bool)

  /** A body that sets `name` to `null`, which the NOT NULL column rejects at commit. */
  predicate NullName(body: Option<ActivityBody>)
  {
    body.Some? && body.value.name == Some(None)
  }

  /** `not data`: no body, or the empty object. */
  predicate Falsy(body: Option<ActivityBody>)
  {
    body.None? ||
    (body.value.name.None? && body.value.thumbnailUrl.None? && body.value.description.None?
     && !body.value.otherKeys)
  }

  const NAME_REQUIRED := "Name is required"
  const NO_DATA := "No data provided"
  const HAS_SESSIONS := "Cannot delete activity that has study sessions"

  /** The sessions that reference the activity. */
  function UsesActivity(activityId: nat): StudySession -> bool
  {
    (s: StudySession) => s.studyActivityId == Some(activityId)
  }

  function SessionGroup(s: StudySession): nat { s.groupId }

  datatype ActivityItem = ActivityItem(
    id: nat, name: string, thumbnailUrl: Option<string>, description: Option<string>, totalSessions: nat)

  /** `StudyActivityListAPI.get`: every activity, in rowid order, with the number of sessions
      referencing it (0 for none, from the outer join). */
  function List(db: Db): (r: seq<ActivityItem>)
    ensures |r| == |db.activities|
    ensures forall i | 0 <= i < |r| ::
      && r[i].id == db.activities[i].id && r[i].name == db.activities[i].name
      && r[i].thumbnailUrl == db.activities[i].thumbnailUrl && r[i].description == db.activities[i].description
      && (r[i].totalSessions == 0 <==> forall s | s in db.sessions :: s.studyActivityId != Some(db.activities[i].id))
  {
    seq(|db.activities|, i requires 0 <= i < |db.activities| =>
      var a := db.activities[i];
      ActivityItem(a.id, a.name, a.thumbnailUrl, a.description, Count(db.sessions, UsesActivity(a.id))))
  }

  datatype ActivityStats = ActivityStats(totalSessions: nat, uniqueGroups: nat)

  /** `COUNT(id)` and `COUNT(DISTINCT group_id)` over the sessions of the activity. */
  function Stats(db: Db, activityId: nat): (r: ActivityStats)
    ensures r.uniqueGroups <= r.totalSessions
    ensures r.totalSessions == 0 <==> forall s | s in db.sessions :: s.studyActivityId != Some(activityId)
    ensures r.uniqueGroups == 0 <==> r.totalSessions == 0
  {
    var used := Filter(db.sessions, UsesActivity(activityId));
    ImageCardinality(used, SessionGroup);
    assert used != [] ==> SessionGroup(used[0]) in Image(used, SessionGroup);
    ActivityStats(|used|, |Image(used, SessionGroup)|)
  }

  datatype ActivityDetail = ActivityDetail(activity: StudyActivity, stats: ActivityStats)

  /** `StudyActivityAPI.get` (`get_or_404`). */
  function Get(db: Db, id: nat): (r: Reply<ActivityDetail>)
    ensures r.Refused? <==> id !in Keys(db.activities, ActivityKey)
    ensures r.Refused? ==> r.status == NotFound(None)
    ensures r.Found? ==> r.value.activity in db.activities && r.value.activity.id == id
    ensures r.Found? ==> r.value.stats.uniqueGroups <= r.value.stats.totalSessions
  {
    match Find(db.activities, ActivityKey, id)
    case None => Refused(NotFound(None))
    case Some(a) => Found(ActivityDetail(a, Stats(db, id)))
  }

  /** The list and the detail agree on the number of sessions. */
  lemma ListAgreesWithStats(db: Db, i: nat)
    requires i < |db.activities|
    ensures List(db)[i].totalSessions == Stats(db, db.activities[i].id).totalSessions
  {
  }

  /** A nullable key's value: `data.get(key)` gives NULL both when the key is absent and when it
      holds `null`. */
  function ValueOrNull(v: Option<Option<string>>): (r: Option<string>)
    ensures r.Some? <==> v.Some? && v.value.Some?
    ensures r.Some? ==> r.value == v.value.value
  {
    if v.Some? then v.value else None
  }

  /** `data.get(key, current)`: the current value is kept only when the key is absent. */
  function ValueOr(v: Option<Option<string>>, current: Option<string>): (r: Option<string>)
    ensures v.None? ==> r == current
    ensures v.Some? ==> r == v.value
  {
    if v.Some? then v.value else current
  }

  /** `StudyActivityListAPI.post`: 400 without a `name` key; a `null` name fails the NOT NULL
      constraint at commit (500); otherwise one activity is added (201). */
  method Post(store: Store, body: Option<ActivityBody>) returns (status: Status, created: Option<StudyActivity>)
    modifies store
    requires store.Valid()
    ensures store.Valid()
    ensures (body.None? || body.value.name.None?) <==> status == BadRequest(NAME_REQUIRED)
    ensures NullName(body) <==> status == ServerError
    ensures status != Created ==> created.None? && store.Snapshot() == old(store.Snapshot())
    ensures status == Created <==> body.Some? && body.value.name.Some? && body.value.name.value.Some?
    ensures status == Created ==>
      var b := body.value;
      var a := StudyActivity(old(store.nextActivityId), b.name.value.value, ValueOrNull(b.thumbnailUrl), ValueOrNull(b.description));
      && created == Some(a)
      && store.Snapshot() == AddActivity(old(store.Snapshot()), a.name, a.thumbnailUrl, a.description)
  {
    if body.None? || body.value.name.None? {
      return BadRequest(NAME_REQUIRED), None;
    }
    var b := body.value;
    if b.name.value.None? {
      return ServerError, None;
    }
    var thumb, desc := ValueOrNull(b.thumbnailUrl), ValueOrNull(b.description);
    var id := store.InsertActivity(b.name.value.value, thumb, desc);
    return Created, Some(StudyActivity(id, b.name.value.value, thumb, desc));
  }

  /** The row after a partial update: each column absent from the body keeps its value. A
      `null` name is outside it: that update never commits. */
  function Updated(a: StudyActivity, b: ActivityBody): (r: StudyActivity)
    requires b.name != Some(None)
    ensures r.id == a.id
    ensures r.name == if b.name.Some? then b.name.value.value else a.name
    ensures b.thumbnailUrl.None? ==> r.thumbnailUrl == a.thumbnailUrl
    ensures b.description.None? ==> r.description == a.description
    ensures b.thumbnailUrl.Some? ==> r.thumbnailUrl == b.thumbnailUrl.value
    ensures b.description.Some? ==> r.description == b.description.value
  {
    StudyActivity(a.id, if b.name.Some? then b.name.value.value else a.name,
                  ValueOr(b.thumbnailUrl, a.thumbnailUrl), ValueOr(b.description, a.description))
  }

  /** `StudyActivityAPI.put`: 404, then 400 for an empty body, then the partial update; a
      `null` name fails the NOT NULL constraint at commit (500) and nothing changes. */
  method Put(store: Store, id: nat, body: Option<ActivityBody>) returns (status: Status, updated: Option<StudyActivity>)
    modifies store
    requires store.Valid()
    ensures store.Valid()
    ensures id !in Keys(old(store.activities), ActivityKey) ==> status == NotFound(None)
    ensures id in Keys(old(store.activities), ActivityKey) && Falsy(body) ==> status == BadRequest(NO_DATA)
    ensures status != Ok ==> updated.None? && store.Snapshot() == old(store.Snapshot())
    ensures id in Keys(old(store.activities), ActivityKey) && NullName(body) ==> status == ServerError
    ensures status == Ok <==> id in Keys(old(store.activities), ActivityKey) && !Falsy(body) && !NullName(body)
    ensures status == Ok ==>
      var a := Updated(Find(old(store.activities), ActivityKey, id).value, body.value);
      updated == Some(a) && store.Snapshot() == ReplaceActivity(old(store.Snapshot()), a)
  {
    var found := Find(store.activities, ActivityKey, id);
    if found.None? {
      return NotFound(None), None;
    }
    if Falsy(body) {
      return BadRequest(NO_DATA), None;
    }
    if NullName(body) {
      return ServerError, None;
    }
    var a := Updated(found.value, body.value);
    store.UpdateActivity(a);
    return Ok, Some(a);
  }

  /** `StudyActivityAPI.delete`: 404; 400 while any session references the activity; otherwise
      exactly that activity is removed (204). */
  method Delete(store: Store, id: nat) returns (status: Status)
    modifies store
    requires store.Valid()
    ensures store.Valid()
    ensures status != NoContent ==> store.Snapshot() == old(store.Snapshot())
    ensures id !in Keys(old(store.activities), ActivityKey) ==> status == NotFound(None)
    ensures id in Keys(old(store.activities), ActivityKey) && (exists s | s in old(store.sessions) :: UsesActivity(id)(s)) ==>
      status == BadRequest(HAS_SESSIONS)
    ensures status == NoContent <==>
      id in Keys(old(store.activities), ActivityKey) && forall s | s in old(store.sessions) :: !UsesActivity(id)(s)
    ensures status == NoContent ==> store.Snapshot() == RemoveActivity(old(store.Snapshot()), id)
  {
    if Find(store.activities, ActivityKey, id).None? {
      return NotFound(None);
    }
    if exists s | s in store.sessions :: UsesActivity(id)(s) {
      return BadRequest(HAS_SESSIONS);
    }
    store.DeleteActivity(id);
    return NoContent;
  }
}
