/** The lang-portal database as a mutable object: one field per table plus the
    AUTOINCREMENT counters. Each method is one SQL statement, specified by the
    corresponding update on snapshots. */
module PortalStore {
  import opened Base
  import opened PortalSchema

  class Store {
    var words: seq<Word>
    var groups: seq<Group>
    var wordGroups: seq<WordGroup>
    var activities: seq<StudyActivity>
    var sessions: seq<StudySession>
    var reviews: seq<WordReviewItem>
    var nextWordId: nat
    var nextGroupId: nat
    var nextActivityId: nat
    var nextSessionId: nat
    var nextReviewId: nat

    /** The current contents of every table. */
    function Snapshot(): Db
      reads this
    {
      Db(words, groups, wordGroups, activities, sessions, reviews,
         nextWordId, nextGroupId, nextActivityId, nextSessionId, nextReviewId)
    }

    ghost predicate Valid()
      reads this
    {
      WellFormed(Snapshot())
    }

    /** A freshly created schema. */
    constructor ()
      ensures Valid() && Snapshot() == EmptyDb()
    {
      words, groups, wordGroups, activities, sessions, reviews := [], [], [], [], [], [];
      nextWordId, nextGroupId, nextActivityId, nextSessionId, nextReviewId := 1, 1, 1, 1, 1;
    }

    /** Rolling a transaction back: every table returns to the snapshot taken at its start. */
    method Rollback(saved: Db)
      modifies this
      requires WellFormed(saved)
      ensures Valid() && Snapshot() == saved
    {
      words, groups, wordGroups := saved.words, saved.groups, saved.wordGroups;
      activities, sessions, reviews := saved.activities, saved.sessions, saved.reviews;
      nextWordId, nextGroupId, nextActivityId := saved.nextWordId, saved.nextGroupId, saved.nextActivityId;
      nextSessionId, nextReviewId := saved.nextSessionId, saved.nextReviewId;
      assert Snapshot() == saved;
    }

    method InsertWord(kanji: string, romaji: string, english: string, parts: Option<string>) returns (id: nat)
      modifies this
      requires Valid()
      ensures Valid()
      ensures id == old(nextWordId)
      ensures Snapshot() == AddWord(old(Snapshot()), kanji, romaji, english, parts)
    {
      ghost var db := AddWord(Snapshot(), kanji, romaji, english, parts);
      id := nextWordId;
      words := words + [Word(id, kanji, romaji, english, parts)];
      nextWordId := nextWordId + 1;
      assert Snapshot() == db;
    }

    method InsertGroup(name: string) returns (id: nat)
      modifies this
      requires Valid() && !NameTaken(Snapshot(), name)
      ensures Valid()
      ensures id == old(nextGroupId)
      ensures Snapshot() == AddGroup(old(Snapshot()), name)
    {
      ghost var db := AddGroup(Snapshot(), name);
      id := nextGroupId;
      groups := groups + [Group(id, name)];
      nextGroupId := nextGroupId + 1;
      assert Snapshot() == db;
    }

    method InsertLink(wordId: nat, groupId: nat)
      modifies this
      requires Valid() && !Linked(Snapshot(), wordId, groupId) && wordId < nextWordId
      ensures Valid()
      ensures Snapshot() == AddLink(old(Snapshot()), wordId, groupId)
    {
      ghost var db := AddLink(Snapshot(), wordId, groupId);
      wordGroups := wordGroups + [WordGroup(wordId, groupId)];
      assert Snapshot() == db;
    }

    method InsertActivity(name: string, thumbnailUrl: Option<string>, description: Option<string>) returns (id: nat)
      modifies this
      requires Valid()
      ensures Valid()
      ensures id == old(nextActivityId)
      ensures Snapshot() == AddActivity(old(Snapshot()), name, thumbnailUrl, description)
    {
      ghost var db := AddActivity(Snapshot(), name, thumbnailUrl, description);
      id := nextActivityId;
      activities := activities + [StudyActivity(id, name, thumbnailUrl, description)];
      nextActivityId := nextActivityId + 1;
      assert Snapshot() == db;
    }

    method InsertSession(groupId: nat, createdAt: nat, activityId: Option<nat>) returns (id: nat)
      modifies this
      requires Valid()
      ensures Valid()
      ensures id == old(nextSessionId)
      ensures Snapshot() == AddSession(old(Snapshot()), groupId, createdAt, activityId)
    {
      ghost var db := AddSession(Snapshot(), groupId, createdAt, activityId);
      id := nextSessionId;
      sessions := sessions + [StudySession(id, groupId, createdAt, activityId)];
      nextSessionId := nextSessionId + 1;
      assert Snapshot() == db;
    }

    method InsertReview(wordId: nat, sessionId: nat, correct: bool, createdAt: nat) returns (id: nat)
      modifies this
      requires Valid()
      ensures Valid()
      ensures id == old(nextReviewId)
      ensures Snapshot() == AddReview(old(Snapshot()), wordId, sessionId, correct, createdAt)
    {
      ghost var db := AddReview(Snapshot(), wordId, sessionId, correct, createdAt);
      id := nextReviewId;
      reviews := reviews + [WordReviewItem(id, wordId, sessionId, correct, createdAt)];
      nextReviewId := nextReviewId + 1;
      assert Snapshot() == db;
    }

    /** `INSERT INTO word_review_items (...) SELECT ...`: one review per selected word id. */
    method InsertReviews(wordIds: seq<nat>, sessionId: nat, correct: bool, createdAt: nat)
      modifies this
      requires Valid()
      ensures Valid()
      ensures Snapshot() == AddReviews(old(Snapshot()), wordIds, sessionId, correct, createdAt)
    {
      ghost var start := Snapshot();
      var i := 0;
      while i < |wordIds|
        invariant 0 <= i <= |wordIds|
        invariant Valid()
        invariant Snapshot() == AddReviews(start, wordIds[..i], sessionId, correct, createdAt)
      {
        AddReviewsStep(start, wordIds, i, sessionId, correct, createdAt);
        var _ := InsertReview(wordIds[i], sessionId, correct, createdAt);
        i := i + 1;
      }
      assert wordIds[..i] == wordIds;
    }

    method DeleteWord(id: nat)
      modifies this
      requires Valid()
      ensures Valid()
      ensures Snapshot() == RemoveWord(old(Snapshot()), id)
    {
      ghost var db := RemoveWord(Snapshot(), id);
      words := Remove(words, WordKey, id);
      assert Snapshot() == db;
    }

    method DeleteGroup(id: nat)
      modifies this
      requires Valid()
      ensures Valid()
      ensures Snapshot() == RemoveGroup(old(Snapshot()), id)
    {
      ghost var db := RemoveGroup(Snapshot(), id);
      groups := Remove(groups, GroupKey, id);
      assert Snapshot() == db;
    }

    method DeleteActivity(id: nat)
      modifies this
      requires Valid()
      ensures Valid()
      ensures Snapshot() == RemoveActivity(old(Snapshot()), id)
    {
      ghost var db := RemoveActivity(Snapshot(), id);
      activities := Remove(activities, ActivityKey, id);
      assert Snapshot() == db;
    }

    method DeleteReview(id: nat)
      modifies this
      requires Valid()
      ensures Valid()
      ensures Snapshot() == RemoveReview(old(Snapshot()), id)
    {
      ghost var db := RemoveReview(Snapshot(), id);
      reviews := Remove(reviews, ReviewKey, id);
      assert Snapshot() == db;
    }

    method UpdateWord(w: Word)
      modifies this
      requires Valid() && w.id in Keys(words, WordKey)
      ensures Valid()
      ensures Snapshot() == ReplaceWord(old(Snapshot()), w)
    {
      ghost var db := ReplaceWord(Snapshot(), w);
      var i := IndexOfKey(words, WordKey, w.id);
      words := words[i := w];
      assert Snapshot() == db;
    }

    method UpdateGroupName(id: nat, name: string)
      modifies this
      requires Valid() && id in Keys(groups, GroupKey)
      requires forall g | g in groups && g.id != id :: g.name != name
      ensures Valid()
      ensures Snapshot() == RenameGroup(old(Snapshot()), id, name)
    {
      ghost var db := RenameGroup(Snapshot(), id, name);
      var i := IndexOfKey(groups, GroupKey, id);
      groups := groups[i := Group(id, name)];
      assert Snapshot() == db;
    }

    method UpdateActivity(a: StudyActivity)
      modifies this
      requires Valid() && a.id in Keys(activities, ActivityKey)
      ensures Valid()
      ensures Snapshot() == ReplaceActivity(old(Snapshot()), a)
    {
      ghost var db := ReplaceActivity(Snapshot(), a);
      var i := IndexOfKey(activities, ActivityKey, a.id);
      activities := activities[i := a];
      assert Snapshot() == db;
    }

    /** `DELETE FROM word_review_items` (no WHERE clause). */
    method DeleteAllReviews()
      modifies this
      requires Valid()
      ensures Valid()
      ensures Snapshot() == old(Snapshot()).(reviews := [])
    {
      reviews := [];
    }

    /** `DELETE FROM study_sessions`. */
    method DeleteAllSessions()
      modifies this
      requires Valid()
      ensures Valid()
      ensures Snapshot() == old(Snapshot()).(sessions := [])
    {
      sessions := [];
    }

    /** `DELETE FROM study_activities`. */
    method DeleteAllActivities()
      modifies this
      requires Valid()
      ensures Valid()
      ensures Snapshot() == old(Snapshot()).(activities := [])
    {
      activities := [];
    }

    /** `DELETE FROM words_groups`. */
    method DeleteAllLinks()
      modifies this
      requires Valid()
      ensures Valid()
      ensures Snapshot() == old(Snapshot()).(wordGroups := [])
    {
      wordGroups := [];
    }
  }
}
