/** The dashboard endpoints: the most recent joined study session, study progress, and the
    quick statistics (success rate, session and group totals, and the day streak). */
module Dashboard {
  import opened Base
  import opened PortalSchema
  import StudySessionsApi
  import ActivitiesApi

  const NO_SESSIONS := "No study sessions found"
  const SECONDS_PER_DAY: nat := 86400

  /** The UTC calendar day of an instant, counted in days since the epoch. */
  function Day(t: nat): nat { t / SECONDS_PER_DAY }

  function SessionDay(s: StudySession): int { Day(s.createdAt) }

  /** The day `k` days before `today`. */
  function DaysBack(today: nat, k: nat): int { today - k }

  // ---------------------------------------------------------------- last session

  /** The first session, in rowid order, among those with the greatest `createdAt`. */
  function Newest(ss: seq<StudySession>): (r: StudySession)
    requires ss != []
    ensures r in ss
    ensures forall s | s in ss :: s.createdAt <= r.createdAt
  {
    if |ss| == 1 then ss[0]
    else
      var rest := Newest(ss[1..]);
      assert forall s | s in ss :: s == ss[0] || s in ss[1..];
      if ss[0].createdAt >= rest.createdAt then ss[0] else rest
  }

  datatype LastSession = LastSession(id: nat, groupId: nat, groupName: string, createdAt: nat, studyActivityId: nat)

  /** `LastStudySessionAPI.get`: among the sessions whose group and activity exist, one started
      no earlier than any other; 404 "No study sessions found" when there is none. */
  function Last(db: Db): (r: Reply<LastSession>)
    ensures r.Refused? <==> StudySessionsApi.JoinedSessions(db) == []
    ensures r.Refused? ==> r.status == NotFound(Some(NO_SESSIONS))
    ensures r.Found? ==>
      exists s | s in StudySessionsApi.JoinedSessions(db) ::
        && s.id == r.value.id && s.groupId == r.value.groupId && s.createdAt == r.value.createdAt
        && s.studyActivityId == Some(r.value.studyActivityId)
    ensures r.Found? ==> Group(r.value.groupId, r.value.groupName) in db.groups
    ensures r.Found? ==> forall s | s in StudySessionsApi.JoinedSessions(db) :: s.createdAt <= r.value.createdAt
  {
    var joined := StudySessionsApi.JoinedSessions(db);
    if joined == [] then Refused(NotFound(Some(NO_SESSIONS)))
    else
      var s := Newest(joined);
      assert StudySessionsApi.IsJoined(db)(s);
      var names := StudySessionsApi.JoinNames(db, s).value;
      Found(LastSession(s.id, s.groupId, names.0, s.createdAt, s.studyActivityId.value))
  }

  // ---------------------------------------------------------------- progress

  function ReviewWord(r: WordReviewItem): nat { r.wordId }

  datatype Progress = Progress(totalWordsStudied: nat, totalAvailableWords: nat)

  /** `StudyProgressAPI.get`: distinct reviewed word ids, and the number of words. */
  function StudyProgress(db: Db): (r: Progress)
    ensures r.totalAvailableWords == |db.words|
    ensures r.totalWordsStudied <= |db.reviews|
    ensures r.totalWordsStudied == 0 <==> db.reviews == []
    ensures forall x | x in db.reviews :: x.wordId in Image(db.reviews, ReviewWord)
  {
    ImageCardinality(db.reviews, ReviewWord);
    assert db.reviews != [] ==> ReviewWord(db.reviews[0]) in Image(db.reviews, ReviewWord);
    Progress(|Image(db.reviews, ReviewWord)|, |db.words|)
  }

  // ---------------------------------------------------------------- quick stats

  function IsCorrect(r: WordReviewItem): bool { r.correct }
  function AnyReview(r: WordReviewItem): bool { true }

  lemma {:induction false} CountAll(s: seq<WordReviewItem>)
    ensures Count(s, AnyReview) == |s|
  {
    if s != [] {
      CountAll(s[1..]);
    }
  }

  /** The success rate in percent: 0 without reviews, otherwise correct / total * 100, before
      the response rounds it to one decimal. */
  function SuccessRate(correct: nat, total: nat): (rate: real)
    requires correct <= total
    ensures 0.0 <= rate <= 100.0
    ensures total == 0 ==> rate == 0.0
    ensures total > 0 ==> rate * (total as real) == (correct as real) * 100.0
    ensures total > 0 ==> (rate == 100.0 <==> correct == total)
  {
    if total > 0 then
      var q := (correct as real) / (total as real);
      assert q * (total as real) == correct as real;
      q * 100.0
    else 0.0
  }

  /** `COUNT(DISTINCT group_id)` over all sessions. */
  function ActiveGroups(db: Db): (n: nat)
    ensures n <= |db.sessions|
    ensures n == 0 <==> db.sessions == []
  {
    ImageCardinality(db.sessions, ActivitiesApi.SessionGroup);
    assert db.sessions != [] ==> ActivitiesApi.SessionGroup(db.sessions[0]) in Image(db.sessions, ActivitiesApi.SessionGroup);
    |Image(db.sessions, ActivitiesApi.SessionGroup)|
  }

  /** Some session was started on the given day. */
  predicate HasSessionOn(db: Db, day: int)
  {
    exists s | s in db.sessions :: SessionDay(s) == day
  }

  /** The consecutive-day streak: the number of days ending today on each of which a session
      was started. The loop stops at the first day, going back from today, without a session. */
  method CalculateStreak(db: Db, today: nat) returns (streak: nat)
    ensures forall k: nat | k < streak :: HasSessionOn(db, DaysBack(today, k))
    ensures !HasSessionOn(db, DaysBack(today, streak))
    ensures streak == 0 <==> !HasSessionOn(db, today)
  {
    streak := 0;
    var current: int := today;
    while HasSessionOn(db, current)
      invariant current == DaysBack(today, streak) && current >= -1
      invariant forall k: nat | k < streak :: HasSessionOn(db, DaysBack(today, k))
      decreases current + 1
    {
      streak := streak + 1;
      current := current - 1;
    }
  }

  /** The days of a streak of length k ending today. */
  ghost function StreakDays(today: nat, k: nat): set<int>
  {
    set j: nat | j < k :: DaysBack(today, j)
  }

  lemma {:induction false} StreakDaysCard(today: nat, k: nat)
    ensures |StreakDays(today, k)| == k
  {
    if k > 0 {
      StreakDaysCard(today, k - 1);
      var prev := StreakDays(today, k - 1);
      assert DaysBack(today, k - 1) !in prev;
      assert StreakDays(today, k) == prev + {DaysBack(today, k - 1)} by {
        forall d ensures d in StreakDays(today, k) <==> d in prev + {DaysBack(today, k - 1)} {
          if d in StreakDays(today, k) {
            var j: nat :| j < k && d == DaysBack(today, j);
            if j < k - 1 {
              assert d in prev;
            }
          }
        }
      }
    }
  }

  /** A streak is never longer than the number of distinct days with a session, which is what
      makes the loop stop. */
  lemma StreakBound(db: Db, today: nat, k: nat)
    requires forall j: nat | j < k :: HasSessionOn(db, DaysBack(today, j))
    ensures k <= |Image(db.sessions, SessionDay)|
  {
    assert StreakDays(today, k) <= Image(db.sessions, SessionDay) by {
      forall d | d in StreakDays(today, k) ensures d in Image(db.sessions, SessionDay) {
        var j: nat :| j < k && d == DaysBack(today, j);
        assert HasSessionOn(db, DaysBack(today, j));
        var s :| s in db.sessions && SessionDay(s) == d;
      }
    }
    StreakDaysCard(today, k);
    SubsetCardinality(StreakDays(today, k), Image(db.sessions, SessionDay));
  }

  datatype QuickStats = QuickStats(
    successRate: real, totalStudySessions: nat, totalActiveGroups: nat, studyStreakDays: nat)

  /** `QuickStatsAPI.get` on the given day: the store is only read. */
  method GetQuickStats(db: Db, today: nat) returns (r: QuickStats)
    ensures Count(db.reviews, IsCorrect) <= |db.reviews|
    ensures r.successRate == SuccessRate(Count(db.reviews, IsCorrect), |db.reviews|)
    ensures 0.0 <= r.successRate <= 100.0
    ensures r.totalStudySessions == |db.sessions|
    ensures r.totalActiveGroups == ActiveGroups(db) <= r.totalStudySessions
    ensures r.studyStreakDays <= |Image(db.sessions, SessionDay)|
    ensures forall k: nat | k < r.studyStreakDays :: HasSessionOn(db, DaysBack(today, k))
    ensures !HasSessionOn(db, DaysBack(today, r.studyStreakDays))
  {
    var correct := Count(db.reviews, IsCorrect);
    CountMonotone(db.reviews, IsCorrect, AnyReview);
    CountAll(db.reviews);
    var rate := SuccessRate(correct, |db.reviews|);
    var streak := CalculateStreak(db, today);
    StreakBound(db, today, streak);
    r := QuickStats(rate, |db.sessions|, ActiveGroups(db), streak);
  }
}
