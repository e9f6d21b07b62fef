/** The alternative, unregistered group endpoints: an unpaginated list with word counts,
    create, detail with the group's words, partial update, and a delete that refuses to
    remove a group that still has words. */
module WordGroupsApi {
  import opened Base
  import opened PortalSchema
  import opened PortalStore
  import GroupsApi

  /** A JSON request body. The outer Option of `name` says whether the key is present and the
      inner one whether it holds a string or `null`; `otherKeys` records any other key. */
  datatype GroupBody = GroupBody(name: Option<Option<string>>, otherKeys: bool)

  /** The name a body gives as a string: None when the key is absent or holds `null`. */
  function NameText(body: Option<GroupBody>): Option<string>
  {
    if body.Some? && body.value.name.Some? then body.value.name.value else None
  }

  /** `not data`: no body, or the empty object. */
  predicate Falsy(body: Option<GroupBody>)
  {
    body.None? || (body.value.name.None? && !body.value.otherKeys)
  }

  const NAME_REQUIRED := "Name is required"
  const NO_DATA := "No data provided"
  const HAS_WORDS := "Cannot delete group that has words"

  /** `GroupListAPI.get`: every group, in rowid order, with the same outer-join word count as
      the registered list; there is no pagination. */
  function List(db: Db): (r: seq<GroupsApi.GroupItem>)
    ensures |r| == |db.groups|
    ensures forall i | 0 <= i < |r| ::
      r[i] == GroupsApi.GroupItem(db.groups[i].id, db.groups[i].name, GroupsApi.WordCount(db, db.groups[i].id))
  {
    seq(|db.groups|, i requires 0 <= i < |db.groups| =>
      GroupsApi.GroupItem(db.groups[i].id, db.groups[i].name, GroupsApi.WordCount(db, db.groups[i].id)))
  }

  /** In a well-formed store, every listed count is the number of words in the group. */
  lemma ListCountsMembers(db: Db)
    requires WellFormed(db)
    ensures forall i | 0 <= i < |List(db)| :: List(db)[i].wordCount == |WordsOf(db, db.groups[i].id)|
  {
    forall i | 0 <= i < |db.groups| ensures List(db)[i].wordCount == |WordsOf(db, db.groups[i].id)| {
      GroupsApi.WordCountIsMembers(db, db.groups[i].id);
    }
  }

  /** `GroupListAPI.post`: 400 without a `name` key. Otherwise one group is inserted (201); a
      `null` name violates the NOT NULL constraint and a name already in use the UNIQUE
      constraint at commit (500), and nothing changes. */
  method Post(store: Store, body: Option<GroupBody>) returns (status: Status, created: Option<Group>)
    modifies store
    requires store.Valid()
    ensures store.Valid()
    ensures status != Created ==> created.None? && store.Snapshot() == old(store.Snapshot())
    ensures (body.None? || body.value.name.None?) <==> status == BadRequest(NAME_REQUIRED)
    ensures body.Some? && body.value.name == Some(None) ==> status == ServerError
    ensures NameText(body).Some? && NameTaken(old(store.Snapshot()), NameText(body).value) ==>
      status == ServerError
    ensures status == Created <==>
      NameText(body).Some? && !NameTaken(old(store.Snapshot()), NameText(body).value)
    ensures status == Created ==>
      created == Some(Group(old(store.nextGroupId), NameText(body).value))
      && store.Snapshot() == AddGroup(old(store.Snapshot()), NameText(body).value)
  {
    if body.None? || body.value.name.None? {
      return BadRequest(NAME_REQUIRED), None;
    }
    if body.value.name.value.None? {
      return ServerError, None;
    }
    var name := body.value.name.value.value;
    if NameTaken(store.Snapshot(), name) {
      return ServerError, None;
    }
    var id := store.InsertGroup(name);
    return Created, Some(Group(id, name));
  }

  /** A group's detail: its row and its words. */
  datatype GroupWithWords = GroupWithWords(group: Group, words: seq<Word>)

  /** `GroupAPI.get` (`get_or_404`): the group and `group.words`. */
  function Get(db: Db, id: nat): (r: Reply<GroupWithWords>)
    ensures r.Refused? <==> id !in Keys(db.groups, GroupKey)
    ensures r.Refused? ==> r.status == NotFound(None)
    ensures r.Found? ==> r.value.group in db.groups && r.value.group.id == id
    ensures r.Found? ==> forall w :: w in r.value.words <==> w in db.words && Linked(db, w.id, id)
  {
    match Find(db.groups, GroupKey, id)
    case None => Refused(NotFound(None))
    case Some(g) => Found(GroupWithWords(g, WordsOf(db, id)))
  }

  /** A group just created is found by its new id, under the given name. */
  lemma CreatedIsFound(db: Db, name: string)
    requires WellFormed(db) && !NameTaken(db, name)
    ensures Get(AddGroup(db, name), db.nextGroupId).Found?
    ensures Get(AddGroup(db, name), db.nextGroupId).value.group == Group(db.nextGroupId, name)
  {
  }

  /** `GroupAPI.put`: 404, then 400 for an empty body; the name is replaced only when given.
      A `null` name violates the NOT NULL constraint and a name another group holds the UNIQUE
      constraint at commit (500); a new name no other group holds is stored (200). */
  method Put(store: Store, id: nat, body: Option<GroupBody>) returns (status: Status, updated: Option<Group>)
    modifies store
    requires store.Valid()
    ensures store.Valid()
    ensures status != Ok ==> updated.None? && store.Snapshot() == old(store.Snapshot())
    ensures id !in Keys(old(store.groups), GroupKey) ==> status == NotFound(None)
    ensures id in Keys(old(store.groups), GroupKey) && Falsy(body) ==> status == BadRequest(NO_DATA)
    ensures id in Keys(old(store.groups), GroupKey) && body.Some? && body.value.name == Some(None) ==>
      status == ServerError
    ensures (id in Keys(old(store.groups), GroupKey) && NameText(body).Some?
             && exists g | g in old(store.groups) :: g.id != id && g.name == NameText(body).value) ==>
      status == ServerError
    ensures status == Ok <==>
      && id in Keys(old(store.groups), GroupKey) && !Falsy(body)
      && (body.value.name.None?
          || (NameText(body).Some?
              && forall g | g in old(store.groups) && g.id != id :: g.name != NameText(body).value))
    ensures status == Ok ==>
      var name := if body.value.name.Some? then NameText(body).value
                  else Find(old(store.groups), GroupKey, id).value.name;
      && updated == Some(Group(id, name))
      && (forall g | g in old(store.groups) && g.id != id :: g.name != name)
      && store.Snapshot() == RenameGroup(old(store.Snapshot()), id, name)
  {
    var found := Find(store.groups, GroupKey, id);
    if found.None? {
      return NotFound(None), None;
    }
    if Falsy(body) {
      return BadRequest(NO_DATA), None;
    }
    if body.value.name == Some(None) {
      return ServerError, None;
    }
    var name := if body.value.name.Some? then body.value.name.value.value else found.value.name;
    if exists g | g in store.groups :: g.id != id && g.name == name {
      return ServerError, None;
    }
    store.UpdateGroupName(id, name);
    return Ok, Some(Group(id, name));
  }

  /** `GroupAPI.delete`: 404; 400 while the group has any word; otherwise exactly that group is
      removed (204). */
  method Delete(store: Store, id: nat) returns (status: Status)
    modifies store
    requires store.Valid()
    ensures store.Valid()
    ensures status != NoContent ==> store.Snapshot() == old(store.Snapshot())
    ensures id !in Keys(old(store.groups), GroupKey) ==> status == NotFound(None)
    ensures id in Keys(old(store.groups), GroupKey) && WordsOf(old(store.Snapshot()), id) != [] ==>
      status == BadRequest(HAS_WORDS)
    ensures status == NoContent <==>
      id in Keys(old(store.groups), GroupKey) && WordsOf(old(store.Snapshot()), id) == []
    ensures status == NoContent ==> store.Snapshot() == RemoveGroup(old(store.Snapshot()), id)
  {
    if Find(store.groups, GroupKey, id).None? {
      return NotFound(None);
    }
    if WordsOf(store.Snapshot(), id) != [] {
      return BadRequest(HAS_WORDS);
    }
    store.DeleteGroup(id);
    return NoContent;
  }

  /** A group is deletable exactly when no existing word is associated with it, that is, when
      the list reports a word count of 0 for it. */
  lemma DeletableIffNoWords(db: Db, id: nat)
    requires WellFormed(db)
    ensures WordsOf(db, id) == [] <==> GroupsApi.WordCount(db, id) == 0
    ensures WordsOf(db, id) == [] <==> forall w | w in db.words :: !Linked(db, w.id, id)
  {
    GroupsApi.WordCountIsMembers(db, id);
  }
}
