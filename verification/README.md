# free-genai-bootcamp-2025, modelled in Dafny

This project models the core of three applications from the free-genai-bootcamp-2025 repository
and proves properties of that model.

**lang-portal** is a Japanese vocabulary study portal. The model covers its Flask backend, the
seeding and session scripts, the two migration runners, and the `Breadcrumbs` component of its
React frontend.

- **Data.** The SQLite database is a `Store` class (`PortalStore`) with one sequence field per
  table (words, groups, word–group links, study activities, study sessions, word review items)
  and one next-id counter per table. Rows are datatypes (`PortalSchema`).
- **Store invariant.** Ids increase in rowid order and stay below their counter. Group names are
  unique. A (word, group) pair is linked at most once. These are the `UNIQUE` and primary-key
  constraints of the schema.
- **Operations.** Each database change is a store method. Each method is specified by a pure
  function on the `Db` snapshot (`AddWord`, `RemoveGroup`, `HistoryCleared`, `SessionSeeded`, …).
- **Handlers.** The read-only endpoints are functions of the snapshot. The writing endpoints are
  methods that take the store and return the HTTP status.
- **Scripts.** The seed and session scripts are methods with explicit failure points (`failAt`)
  and roll back on failure.
- **Migrations.** The migration runners are methods over a small database of recorded script
  names. Each script's outcome is an input.

**listening-comp** is a JLPT listening-practice tool. The model covers:

- the Gemini-response parser, validator, formatter and question-saving pipeline of
  `structured_data.py`;
- the response parser, validator and retry loop of `interactive_learning.py`;
- from `audio_generator.py`: the voice configuration, voice rotation, speaker-label removal and
  the ffmpeg argument builder;
- the video-id extraction and transcript file format of `get_transcript.py`;
- the JSON-file question store;
- the mock search of the vector store;
- the character and line counts of the Streamlit front end.

Gemini, Polly, ffmpeg, YouTube and the file system are parameters: an oracle function, a
success flag or the content that would be read.

**japanese-vocab-importer** is modelled by its `POST /api/generate-vocab` route. The Groq reply
is a parameter, and `JSON.parse` and `JSON.stringify` are an abstract codec (`JsonValue`) whose
`Lawful` predicate states `loads(dumps(v)) == Some(v)`.

Shared helpers:

- `Base`: `Option`, counting, filtering, insertion sort and injectivity/cardinality lemmas.
- `Text`: Python's `strip`, `split`, `join`, `find` and `replace` over `seq<char>`.

## Model

| member | source | states |
|---|---|---|
| PortalSchema.GetParts | lang-portal/backend/internal/models/models.py:22-23 | an unset or empty `parts` column reads as the empty JSON object; otherwise the stored text is decoded |
| PortalSchema.SetParts | lang-portal/backend/internal/models/models.py:19-20 | id, kanji, romaji and english are kept and `parts` is set; `PartsRoundTrip` says what it decodes to |
| PortalSchema.PartsRoundTrip | lang-portal/backend/internal/models/models.py:19-23 | under a lawful codec, `get_parts` after `set_parts(d)` returns `d` |
| PortalSchema.AssociationViews | lang-portal/backend/internal/models/models.py:16-38 | `g` is among a word's groups iff the word is among `g`'s words iff a link row joins them |
| PortalSchema.EmptyDb | lang-portal/backend/tasks/create_tables.py:20-75 | the empty database satisfies the store invariant |
| PortalSchema.FindGroupByName | lang-portal/backend/tasks/seed_manager.py:46-47 | the group found has the name; none is found iff no group has it |
| PortalSchema.AddWord | lang-portal/backend/internal/handlers/words_management.py:40-48 | the store stays well formed; one word with the next id and the given fields is added; old words are kept; no other table changes |
| PortalSchema.AddGroup | lang-portal/backend/internal/handlers/word_groups.py:31-34 | for an unused name, the store stays well formed and exactly one group with the next id and that name is added; no other table changes |
| PortalSchema.AddLink | lang-portal/backend/tasks/seed_manager.py:64-67 | adding an absent (word, group) link keeps pairs unique and keeps every older link; no other table changes |
| PortalSchema.AddActivity | lang-portal/backend/internal/handlers/activities.py:33-40 | one activity with the next id and the given fields is added, and the store stays well formed; no other table changes |
| PortalSchema.AddSession | lang-portal/backend/internal/handlers/study_sessions.py:55-62 | one session with the next id, the group, the time and the activity is added; no other table changes |
| PortalSchema.AddReview | lang-portal/backend/internal/handlers/word_reviews.py:28-35 | one review with the next id and the given fields is added; no other table changes |
| PortalSchema.AddReviews | lang-portal/backend/tasks/seed_manager.py:139-144 | adding reviews for a list of word ids appends one row per id and keeps the old rows as a prefix; no other table changes |
| PortalSchema.RemoveWord | lang-portal/backend/internal/handlers/words_management.py:95-98 | afterwards no word has the id; every other word is kept; no other table changes |
| PortalSchema.RemoveGroup | lang-portal/backend/internal/handlers/word_groups.py:84-85 | afterwards no group has the id; every other group is kept; no other table changes |
| PortalSchema.RemoveActivity | lang-portal/backend/internal/handlers/activities.py:107-108 | afterwards no activity has the id; every other activity is kept; no other table changes |
| PortalSchema.RemoveReview | lang-portal/backend/internal/handlers/word_reviews.py:86-88 | afterwards no review has the id; every other review is kept; no other table changes |
| PortalSchema.ReplaceWord | lang-portal/backend/internal/handlers/words_management.py:78-83 | the row with the word's id becomes the new word, and the table size is unchanged; every other row keeps its place and value, and no other table changes |
| PortalSchema.RenameGroup | lang-portal/backend/internal/handlers/word_groups.py:65-67 | for a name no other group holds, the group with the id becomes `Group(id, name)`; the table size is unchanged and the store stays well formed; every other row keeps its place and value, and no other table changes |
| PortalSchema.ReplaceActivity | lang-portal/backend/internal/handlers/activities.py:80-84 | the row with the activity's id becomes the new activity; every other row keeps its place and value, and no other table changes |
| PortalSchema.Paginate | lang-portal/backend/internal/handlers/groups.py:9-31 | page 1 of at most 100 items in order; total_pages is the ceiling of total/100 |
| PortalSchema.CorrectPlusWrong | lang-portal/backend/internal/handlers/words.py:13-16 | a word's correct count plus its wrong count is its review count |
| PortalStore.Store.constructor | lang-portal/backend/tasks/create_tables.py:20-75 | the new store is valid and empty |
| PortalStore.Store.Rollback | lang-portal/backend/internal/handlers/reset.py:17-19 | the store returns exactly to the saved snapshot |
| PortalStore.Store.InsertWord | lang-portal/backend/tasks/seed_manager.py:50-61 | returns the next word id; the new state is `AddWord` of the old |
| PortalStore.Store.InsertGroup | lang-portal/backend/tasks/seed_manager.py:40-43 | returns the next group id; the new state is `AddGroup` of the old |
| PortalStore.Store.InsertLink | lang-portal/backend/tasks/seed_manager.py:64-67 | the new state is `AddLink` of the old |
| PortalStore.Store.InsertActivity | lang-portal/backend/tasks/seed_manager.py:94-101 | returns the next activity id; the new state is `AddActivity` of the old |
| PortalStore.Store.InsertSession | lang-portal/backend/tasks/seed_manager.py:131-136 | returns the next session id; the new state is `AddSession` of the old |
| PortalStore.Store.InsertReview | lang-portal/backend/internal/handlers/word_reviews.py:28-35 | returns the next review id; the new state is `AddReview` of the old |
| PortalStore.Store.InsertReviews | lang-portal/backend/tasks/seed_manager.py:139-144 | the `INSERT … SELECT` of reviews leaves `AddReviews` of the old state |
| PortalStore.Store.DeleteWord | lang-portal/backend/internal/handlers/words_management.py:97-98 | the new state is `RemoveWord` of the old |
| PortalStore.Store.DeleteGroup | lang-portal/backend/internal/handlers/word_groups.py:84-85 | the new state is `RemoveGroup` of the old |
| PortalStore.Store.DeleteActivity | lang-portal/backend/internal/handlers/activities.py:107-108 | the new state is `RemoveActivity` of the old |
| PortalStore.Store.DeleteReview | lang-portal/backend/internal/handlers/word_reviews.py:87-88 | the new state is `RemoveReview` of the old |
| PortalStore.Store.UpdateWord | lang-portal/backend/internal/handlers/words_management.py:78-83 | the new state is `ReplaceWord` of the old |
| PortalStore.Store.UpdateGroupName | lang-portal/backend/internal/handlers/word_groups.py:65-67 | the new state is `RenameGroup` of the old |
| PortalStore.Store.UpdateActivity | lang-portal/backend/internal/handlers/activities.py:80-84 | the new state is `ReplaceActivity` of the old |
| PortalStore.Store.DeleteAllReviews | lang-portal/backend/internal/handlers/reset.py:9 | only the reviews table is emptied |
| PortalStore.Store.DeleteAllSessions | lang-portal/backend/internal/handlers/reset.py:10 | only the sessions table is emptied |
| PortalStore.Store.DeleteAllActivities | lang-portal/backend/internal/handlers/reset.py:27 | only the activities table is emptied |
| PortalStore.Store.DeleteAllLinks | lang-portal/backend/internal/handlers/reset.py:28 | only the word–group links are emptied |
| JsonValue.Get | lang-portal/backend/internal/handlers/words_management.py:32-38 | a key's value is the value of a field with that key; absence means no field has the key |
| WordsApi.List | lang-portal/backend/internal/handlers/words.py:7-37 | one item per word, in order, with its fields; the fixed descriptor is page 1 of 1 with 100 per page |
| WordsApi.ListCountsCoverReviews | lang-portal/backend/internal/handlers/words.py:10-31 | each item's correct plus wrong count is the word's review count; a word without reviews shows 0 and 0 |
| WordsApi.Get | lang-portal/backend/internal/handlers/words.py:44-64 | returns a stored word with the id; 404 "Word not found" iff there is none |
| WordsApi.GetExisting | lang-portal/backend/internal/handlers/words.py:47-61 | getting a stored word's id returns exactly that word |
| WordsManagement.List | lang-portal/backend/internal/handlers/words_management.py:8-28 | first page of word summaries in order; total is the number of words |
| WordsManagement.PartsForCreate | lang-portal/backend/internal/handlers/words_management.py:38 | `parts` is encoded iff the key is present, otherwise stored as null |
| WordsManagement.Post | lang-portal/backend/internal/handlers/words_management.py:30-55 | a missing field gives 400 and no change; otherwise 201 and exactly `AddWord` with the body's fields |
| WordsManagement.Get | lang-portal/backend/internal/handlers/words_management.py:58-68 | the stored word with the id, or 404 iff absent |
| WordsManagement.PartsForUpdate | lang-portal/backend/internal/handlers/words_management.py:81-82 | absent `parts` keeps the column; `null` stores NULL, a string itself, a number its decimal text, a boolean "1" or "0" (as the text column stores what `sqlite3` binds); it fails iff the value is a list or an object, which cannot be bound |
| WordsManagement.Updated | lang-portal/backend/internal/handlers/words_management.py:78-82 | update is partial: each absent field keeps its old value, each present one is replaced |
| WordsManagement.Put | lang-portal/backend/internal/handlers/words_management.py:70-91 | 404 on a missing id, 400 on an empty body, both without change; 200 iff the update applies, leaving `ReplaceWord` of the partial update |
| WordsManagement.Delete | lang-portal/backend/internal/handlers/words_management.py:93-100 | 404 and no change on a missing id; otherwise 204 and `RemoveWord` |
| WordsManagement.DeleteRemovesOne | lang-portal/backend/internal/handlers/words_management.py:95-98 | deleting a stored word shrinks the table by exactly one |
| GroupsApi.List | lang-portal/backend/internal/handlers/groups.py:7-32 | one item per group, on page 1 of 100 per page, with its word count |
| GroupsApi.WordCountIsMembers | lang-portal/backend/internal/handlers/groups.py:13-25 | under unique links, a group's counted word_count equals its number of member words |
| GroupsApi.LinkedIdsAreMemberIds | lang-portal/backend/internal/handlers/groups.py:13-18 | the counted link rows name exactly the ids of the group's words |
| GroupsApi.Detail | lang-portal/backend/internal/handlers/groups.py:35-51 | 404 iff the group is missing; otherwise that group's id and name, with `total_word_count` the joined count of its words |
| GroupsApi.DetailCountsMembers | lang-portal/backend/internal/handlers/groups.py:38-42 | in a well-formed store, `total_word_count` is the number of words in the group |
| GroupsApi.Words | lang-portal/backend/internal/handlers/groups.py:54-111 | "Group not found" iff the group is missing; total is the number of items |
| GroupsApi.WordsAreMembers | lang-portal/backend/internal/handlers/groups.py:70-105 | the group's words are listed exactly, each with counts over all of that word's reviews |
| GroupsApi.PairCountIsLink | lang-portal/backend/internal/handlers/groups.py:70-90 | the join multiplicity of a (word, group) pair is 1 if linked and 0 otherwise |
| GroupsApi.SessionItemOf | lang-portal/backend/internal/handlers/groups.py:133-134 | correct_reviews never exceeds total_reviews |
| GroupsApi.OrderedSessions | lang-portal/backend/internal/handlers/groups.py:127-141 | a permutation of the group's sessions |
| GroupsApi.OrderedSessionsExact | lang-portal/backend/internal/handlers/groups.py:127-141 | sorted newest first, and contains exactly the sessions with that group id |
| GroupsApi.Sessions | lang-portal/backend/internal/handlers/groups.py:114-158 | "Group not found" iff missing; one item per session of the group, with correct ≤ total |
| GroupsApi.SessionsNewestFirst | lang-portal/backend/internal/handlers/groups.py:140 | the listed items' created_at never increases |
| WordGroupsApi.List | lang-portal/backend/internal/handlers/word_groups.py:7-22 | every group, unpaginated, with its word count |
| WordGroupsApi.ListCountsMembers | lang-portal/backend/internal/handlers/word_groups.py:9-22 | each listed word count is the number of the group's words |
| WordGroupsApi.Post | lang-portal/backend/internal/handlers/word_groups.py:24-39 | 400 iff the `name` key is absent; a `null` name (NOT NULL constraint) or a taken name (UNIQUE constraint) gives 500; 201 iff the name is a free string, leaving exactly `AddGroup`; nothing changes on failure |
| WordGroupsApi.Get | lang-portal/backend/internal/handlers/word_groups.py:42-55 | 404 iff missing; the words returned are exactly those linked to the group |
| WordGroupsApi.CreatedIsFound | lang-portal/backend/internal/handlers/word_groups.py:31-39 | a created group can be fetched by its new id |
| WordGroupsApi.Put | lang-portal/backend/internal/handlers/word_groups.py:57-72 | 404 on a missing id, 400 on an empty body, 500 for a `null` name or one another group holds; 200 iff the group exists, the body is non-empty and it keeps the name or gives one no other group holds; on 200 the state is `RenameGroup` |
| WordGroupsApi.Delete | lang-portal/backend/internal/handlers/word_groups.py:74-87 | 400 "has words" and no change when the group has words; 204 and `RemoveGroup` iff it exists and has none |
| WordGroupsApi.DeletableIffNoWords | lang-portal/backend/internal/handlers/word_groups.py:78-82 | a group has no words iff its word count is 0 iff no stored word links to it |
| ActivitiesApi.List | lang-portal/backend/internal/handlers/activities.py:7-24 | one item per activity with its fields; total_sessions is 0 iff no session references it |
| ActivitiesApi.Stats | lang-portal/backend/internal/handlers/activities.py:52-60 | unique_groups ≤ total_sessions, and each is 0 iff no session references the activity |
| ActivitiesApi.Get | lang-portal/backend/internal/handlers/activities.py:50-70 | 404 iff missing; otherwise the activity with consistent stats |
| ActivitiesApi.ListAgreesWithStats | lang-portal/backend/internal/handlers/activities.py:9-24 | the list's session count for an activity equals the detail's total_sessions |
| ActivitiesApi.ValueOrNull | lang-portal/backend/internal/handlers/activities.py:34-37 | an absent or null optional field is stored as null |
| ActivitiesApi.ValueOr | lang-portal/backend/internal/handlers/activities.py:80-82 | an absent field keeps the current value |
| ActivitiesApi.Post | lang-portal/backend/internal/handlers/activities.py:26-47 | 400 iff the `name` key is missing, 500 iff it holds `null` (NOT NULL constraint), with no change on either; 201 iff the name is a string, leaving exactly `AddActivity` |
| ActivitiesApi.Updated | lang-portal/backend/internal/handlers/activities.py:80-82 | partial update: absent fields keep their values and present ones replace them; a `null` name is left to `Put`, which never commits it |
| ActivitiesApi.Put | lang-portal/backend/internal/handlers/activities.py:72-91 | 404 on a missing id; 400 on an empty body; 500 and no change for a `null` name (NOT NULL constraint); 200 iff the id exists, the body is non-empty and the name is not `null`, leaving `ReplaceActivity` of the partial update |
| ActivitiesApi.Delete | lang-portal/backend/internal/handlers/activities.py:93-110 | 400 and no change while a session references it; 204 and `RemoveActivity` iff it exists unreferenced |
| StudySessionsApi.JoinNames | lang-portal/backend/internal/handlers/study_sessions.py:16-26 | a session joins iff its group exists and its activity is set and exists; the names attached are those of that group and that activity |
| StudySessionsApi.List | lang-portal/backend/internal/handlers/study_sessions.py:11-41 | first page of the joined sessions, each with its row |
| StudySessionsApi.ListedIffJoined | lang-portal/backend/internal/handlers/study_sessions.py:16-34 | a session is listed iff its group and activity both exist (inner joins) |
| StudySessionsApi.Post | lang-portal/backend/internal/handlers/study_sessions.py:43-69 | 400 on a missing id field, 404 on a missing group or activity, no change on either; otherwise 201 and exactly `AddSession` at `now` |
| StudySessionsApi.CreatedIsJoined | lang-portal/backend/internal/handlers/study_sessions.py:55-69 | a created session appears in the session list |
| StudySessionsApi.Get | lang-portal/backend/internal/handlers/study_sessions.py:72-92 | 404 iff no joined session has the id |
| StudySessionsApi.Words | lang-portal/backend/internal/handlers/study_sessions.py:95-127 | 404 iff the session is missing; otherwise a page of the words reviewed in the session |
| StudySessionsApi.SessionWordsExact | lang-portal/backend/internal/handlers/study_sessions.py:101-111 | exactly the words with a review in that session, whose counts cover only that session and are ≥ 1 |
| StudySessionsApi.CorrectPlusWrongInSession | lang-portal/backend/internal/handlers/study_sessions.py:104-107 | per session, correct plus wrong is the word's review count |
| StudySessionsApi.ReviewPost | lang-portal/backend/internal/handlers/study_sessions.py:130-158 | checks the session, then the word (404), then `correct` (400), all without change; on success exactly `AddReview` |
| WordReviewsApi.List | lang-portal/backend/internal/handlers/word_reviews.py:7-19 | every review row, and only those |
| WordReviewsApi.Post | lang-portal/backend/internal/handlers/word_reviews.py:21-43 | 400 iff a field is missing (no change); otherwise 201 and `AddReview` with the unchecked ids |
| WordReviewsApi.SessionPost | lang-portal/backend/internal/handlers/word_reviews.py:46-68 | 400 iff `correct` is missing; otherwise 201 and `AddReview` with the path ids |
| WordReviewsApi.Get | lang-portal/backend/internal/handlers/word_reviews.py:71-81 | 404 iff no review has the id |
| WordReviewsApi.Delete | lang-portal/backend/internal/handlers/word_reviews.py:83-90 | 404 and no change on a missing id; otherwise 204 and `RemoveReview` |
| WordReviewsApi.RecordedIsFound | lang-portal/backend/internal/handlers/word_reviews.py:28-43 | a recorded review can be fetched by its id, and older reviews are untouched |
| WordReviewsApi.DeletedIsGone | lang-portal/backend/internal/handlers/word_reviews.py:83-90 | after deletion the id is gone and every other review is still found |
| Dashboard.Newest | lang-portal/backend/internal/handlers/dashboard.py:13-21 | a session whose created_at is ≥ every other's |
| Dashboard.Last | lang-portal/backend/internal/handlers/dashboard.py:11-31 | 404 "No study sessions found" iff no joined session; otherwise a joined session that is latest, with its id, group id, start time, activity id and the name of its group |
| Dashboard.StudyProgress | lang-portal/backend/internal/handlers/dashboard.py:34-47 | available words = number of words; studied ≤ reviews, and 0 iff there are no reviews |
| Dashboard.SuccessRate | lang-portal/backend/internal/handlers/dashboard.py:53-58 | 0 with no reviews, otherwise correct·100/total; always in [0, 100], and 100 iff all correct |
| Dashboard.ActiveGroups | lang-portal/backend/internal/handlers/dashboard.py:61-66 | distinct groups ≤ sessions, and 0 iff there are no sessions |
| Dashboard.CalculateStreak | lang-portal/backend/internal/handlers/dashboard.py:78-96 | today … today−(k−1) all have sessions and today−k does not; 0 iff today has none |
| Dashboard.StreakBound | lang-portal/backend/internal/handlers/dashboard.py:84-94 | a streak is bounded by the number of distinct session days (the loop terminates) |
| Dashboard.GetQuickStats | lang-portal/backend/internal/handlers/dashboard.py:50-76 | success rate, session count, active groups and streak as above, each with its bound |
| Reset.HistoryCleared | lang-portal/backend/internal/handlers/reset.py:9-11 | reviews and sessions are emptied; every other table is unchanged |
| Reset.FullyCleared | lang-portal/backend/internal/handlers/reset.py:25-29 | reviews, sessions, activities and links are emptied; words and groups are unchanged |
| Reset.ResetIdempotent | lang-portal/backend/internal/handlers/reset.py:9-28 | each reset, applied twice or after the other, equals one application |
| Reset.HistoryResetForgetsProgress | lang-portal/backend/internal/handlers/reset.py:9-11 | after a history reset no word counts as studied or has reviews |
| Reset.FullResetEmptiesGroups | lang-portal/backend/internal/handlers/reset.py:25-29 | after a full reset every group has no words; words remain |
| Reset.ResetHistory | lang-portal/backend/internal/handlers/reset.py:6-19 | any failure returns 500 with the store unchanged; otherwise success and `HistoryCleared` |
| Reset.FullReset | lang-portal/backend/internal/handlers/reset.py:22-37 | any failure returns 500 with the store unchanged; otherwise success and `FullyCleared` |
| SeedManager.FirstIncomplete | lang-portal/backend/tasks/seed_manager.py:50-61 | the index of the first entry lacking kanji, romaji or english (where `KeyError` is raised) |
| SeedManager.PartsText | lang-portal/backend/tasks/seed_manager.py:58 | the stored text decodes to the entry's parts, or to `{}` when absent |
| SeedManager.WithGroup | lang-portal/backend/tasks/seed_manager.py:40-43 | `INSERT OR IGNORE`: the group is added iff its name is unused |
| SeedManager.GroupIdOf | lang-portal/backend/tasks/seed_manager.py:46-47 | the id of the group with that name |
| SeedManager.SeedWordsShape | lang-portal/backend/tasks/seed_manager.py:50-67 | n entries add exactly n words with the entries' fields, each linked to the group; other tables are kept |
| SeedManager.SeededShape | lang-portal/backend/tasks/seed_manager.py:40-67 | the group exists afterwards (new only if absent), and the words grow by the number of entries |
| SeedManager.Seeded | lang-portal/backend/tasks/seed_manager.py:40-67 | the seeded database keeps the store invariant |
| SeedManager.InsertSeedWord | lang-portal/backend/tasks/seed_manager.py:50-67 | one loop turn inserts the word and its link |
| SeedManager.LoopOutcomeMeaning | lang-portal/backend/tasks/seed_manager.py:50-76 | the seed loop fails with a database error or a missing key at the first faulty statement or entry, and completes iff neither occurs |
| SeedManager.InsertSeedWords | lang-portal/backend/tasks/seed_manager.py:50-76 | the loop's outcome is `LoopOutcome`; on failure the saved snapshot is restored; on success the words are seeded |
| SeedManager.SeedData | lang-portal/backend/tasks/seed_manager.py:16-79 | a missing or malformed file raises before any change; any failure rolls everything back; success iff all entries are complete and no statement fails, leaving `Seeded` |
| SeedManager.BasicActivitySeeded | lang-portal/backend/tasks/seed_manager.py:90-101 | "Vocabulary Quiz" is added iff absent |
| SeedManager.BasicActivityIdempotent | lang-portal/backend/tasks/seed_manager.py:90-106 | seeding the basic activity twice equals seeding it once |
| SeedManager.SeedBasicActivity | lang-portal/backend/tasks/seed_manager.py:81-113 | a failure rolls back; success leaves `BasicActivitySeeded` |
| SeedManager.FirstWordIds | lang-portal/backend/tasks/seed_manager.py:139-144 | the ids of the first min(2, n) words, in rowid order |
| SeedManager.SessionSeededTables | lang-portal/backend/tasks/seed_manager.py:124-144 | one session for the first group and activity is added; only sessions and reviews change; min(2, words) reviews are appended |
| SeedManager.SessionSeeded | lang-portal/backend/tasks/seed_manager.py:124-144 | the database with the seeded session keeps the store invariant |
| SeedManager.SessionSeededReviews | lang-portal/backend/tasks/seed_manager.py:139-144 | each new review is correct, at `now`, for the new session and one of the first words |
| SeedManager.SessionSeededWords | lang-portal/backend/tasks/seed_manager.py:139-144 | the new reviews point at existing, pairwise distinct words |
| SeedManager.SeedStudySession | lang-portal/backend/tasks/seed_manager.py:115-154 | no group or no activity raises; failures roll back; success iff both exist and no statement fails, leaving `SessionSeeded` |
| SeedManager.InsertSeededSession | lang-portal/backend/tasks/seed_manager.py:131-146 | the inserts either all commit, leaving `SessionSeeded`, or raise a database error with the store unchanged |
| CreateSession.CreateSession | lang-portal/backend/tasks/create_session.py:12-75 | nothing is inserted without a group or activity; otherwise one session and its reviews commit together, or everything rolls back |
| Migrations.SqlFilesSorted | lang-portal/backend/tasks/db.py:27 | the sorted `*.sql` names are ordered and are exactly the listing's `.sql` names |
| Migrations.GetMigrationFiles | lang-portal/backend/tasks/migration_manager.py:23-28 | the loop returns the sorted `.sql` files that start with "0" |
| Migrations.MigrationFilesAreCandidates | lang-portal/backend/tasks/migration_manager.py:23-28 | those files are sorted and are exactly the listing's candidates |
| Migrations.AppliedNames | lang-portal/backend/tasks/migration_manager.py:19-21 | the applied set holds exactly the recorded names |
| Migrations.UnappliedMembers | lang-portal/backend/tasks/migration_manager.py:43-44 | the pending files are exactly those not applied |
| Migrations.FirstStop | lang-portal/backend/tasks/migration_manager.py:43-61 | the first pending file whose script fails (and, in `db.py`, is not a "duplicate column" error) |
| Migrations.MigrationDb.InitTable | lang-portal/backend/tasks/migration_manager.py:10-17 | creating the tracking table keeps every recorded name (idempotent) |
| Migrations.MigrationDb.constructor | lang-portal/backend/tasks/migration_manager.py:10-17 | a fresh database has no tracking table, no recorded names and no executed scripts |
| Migrations.ApplyPending | lang-portal/backend/tasks/migration_manager.py:43-61 | records exactly the pending files before the stop point and executes only those |
| Migrations.RunMigrations | lang-portal/backend/tasks/migration_manager.py:30-64 | strict runner: candidates in order, skipping applied ones, recording each success, re-raising at the first failure |
| Migrations.Migrate | lang-portal/backend/tasks/db.py:5-45 | tolerant runner: every `*.sql` file; a "duplicate column" error still records the file; any other error re-raises unrecorded; a finished loop ends in the error SQLite raises for `.tables` |
| Migrations.StrictRunsAllClean | lang-portal/backend/tasks/migration_manager.py:50-61 | in the strict runner every recorded file ran cleanly |
| Migrations.CleanEqualsUnapplied | lang-portal/backend/tasks/migration_manager.py:50-56 | when every pending script succeeds, the scripts executed are exactly the pending files |
| Migrations.RecordedOnlyPending | lang-portal/backend/tasks/migration_manager.py:43-56 | only pending, continuing files are recorded, and a full run records every pending file |
| Migrations.RerunAppliesNothing | lang-portal/backend/tasks/migration_manager.py:40-56 | after a complete run, a second run has nothing pending |
| Migrations.AppliedOnlyGrows | lang-portal/backend/tasks/migration_manager.py:40-56 | the applied set only grows, and newly recorded names were not recorded before |
| Migrations.CleanRunsRecorded | lang-portal/backend/tasks/db.py:31-39 | among the files `db.py` records, a script ran to completion iff it succeeded |
| Breadcrumbs.SegmentsClean | lang-portal/frontend/src/components/layout/Breadcrumbs.tsx:6 | the kept segments are non-empty and hold no "/" |
| Breadcrumbs.Capitalize | lang-portal/frontend/src/components/layout/Breadcrumbs.tsx:11 | only the first character is upper-cased; the rest is unchanged |
| Breadcrumbs.CapitalizeAll | lang-portal/frontend/src/components/layout/Breadcrumbs.tsx:11 | each word of the segment is capitalised, and the word count is kept |
| Breadcrumbs.GetBreadcrumbs | lang-portal/frontend/src/components/layout/Breadcrumbs.tsx:5-16 | one crumb per non-empty segment, named from the segment, with url "/" + the first i+1 segments |
| Breadcrumbs.UrlExtends | lang-portal/frontend/src/components/layout/Breadcrumbs.tsx:8 | each url is the previous one plus "/" and the next segment, so it is a prefix of the next |
| Breadcrumbs.UrlStep | lang-portal/frontend/src/components/layout/Breadcrumbs.tsx:8 | the url of segment i+1 is the url of segment i plus "/" and that segment |
| Breadcrumbs.FirstUrl | lang-portal/frontend/src/components/layout/Breadcrumbs.tsx:8 | the first url is "/" and the first segment |
| Breadcrumbs.LastUrlNormalises | lang-portal/frontend/src/components/layout/Breadcrumbs.tsx:6-8 | the last url is the path without empty segments and yields the same crumbs |
| Breadcrumbs.RootHasNoCrumbs | lang-portal/frontend/src/components/layout/Breadcrumbs.tsx:6 | "/" and "" give no crumbs |
| Breadcrumbs.NameLength | lang-portal/frontend/src/components/layout/Breadcrumbs.tsx:10-12 | a name is as long as its segment ('-' becomes ' ') |
| Breadcrumbs.NameOfOneWord | lang-portal/frontend/src/components/layout/Breadcrumbs.tsx:10-12 | a segment without '-' is just capitalised |
| Breadcrumbs.Render | lang-portal/frontend/src/components/layout/Breadcrumbs.tsx:18-50 | nothing iff there are no segments; otherwise Home, links to every crumb but the last, and the last as text |
| Breadcrumbs.RenderCrumbs | lang-portal/frontend/src/components/layout/Breadcrumbs.tsx:28-45 | no trail for no crumbs; otherwise Home first, every crumb but the last as a link to its url, and the last crumb as plain text |
| StructuredData.Dirname | listening-comp/backend/structured_data.py:25 | `os.path.dirname` gives a prefix, empty iff the path has no '/' |
| StructuredData.LastSlash | listening-comp/backend/structured_data.py:25 | the position of the last '/'; None iff there is none |
| StructuredData.TrimSlashes | listening-comp/backend/structured_data.py:25 | a prefix without a trailing '/', followed only by slashes in the input |
| StructuredData.ProjectPaths | listening-comp/backend/structured_data.py:15-37 | the two data directories are `root/backend/data/transcripts` and `…/questions` |
| StructuredData.ParentIsRoot | listening-comp/backend/structured_data.py:23-28 | run from `…/frontend` or `…/backend`, the root is the parent directory |
| StructuredData.LookaheadMeaning | listening-comp/backend/structured_data.py:221-223 | the lookahead `(?=\s*\n\s*Next:)` holds at a position iff the next header begins where the whitespace run from there ends and that run holds a newline |
| StructuredData.FirstLookaheadMeaning | listening-comp/backend/structured_data.py:221-223 | the position found satisfies the lookahead and no earlier one from the start does; None iff no position from the start to the end does |
| StructuredData.SectionGroupAt | listening-comp/backend/structured_data.py:221-223 | the group is the one matched after the first occurrence of the header |
| StructuredData.SectionMissing | listening-comp/backend/structured_data.py:221-223 | a section is missing iff its header is absent or no later header follows it |
| StructuredData.SectionFails | listening-comp/backend/structured_data.py:221-223 | the search after the header fails iff no later position satisfies the lookahead |
| StructuredData.SectionText | listening-comp/backend/structured_data.py:221-223 | a non-empty group starts where the whitespace run after the header ends, is followed by a lookahead position and holds none (`\s*` gives whitespace back only to yield an empty group) |
| StructuredData.OptionsText | listening-comp/backend/structured_data.py:227-242 | the options text is stripped, and empty when the block has no "Options:" header |
| StructuredData.ParseBlock | listening-comp/backend/structured_data.py:219-258 | a block yields a question iff all three sections match; fields are stripped; empty options become the placeholder |
| StructuredData.ParseAll | listening-comp/backend/structured_data.py:219-258 | at most one question per block, each tidy |
| StructuredData.ParseGeminiResponse | listening-comp/backend/structured_data.py:204-260 | the loop returns the parse of every `<question>` block, no more questions than blocks |
| StructuredData.AnyKeywordMeaning | listening-comp/backend/structured_data.py:282 | `any(keyword in text)` holds iff some keyword occurs |
| StructuredData.ValidityMeaning | listening-comp/backend/structured_data.py:262-285 | invalid iff a required field is blank or the question has a visual keyword; options are not checked |
| StructuredData.FormatOptions | listening-comp/backend/structured_data.py:298-300 | unchanged without "Options:"; otherwise stripped and shorter by at least one marker |
| StructuredData.FormatShape | listening-comp/backend/structured_data.py:303-312 | for options without an "Options:" marker, the formatted text is the opening tag, the headed sections, the closing tag and a blank line |
| StructuredData.FormatThenParse | listening-comp/backend/structured_data.py:287-314 | round trip: parsing the formatting of a reparsable question (stripped fields, non-empty options, no header or closing tag where the parser would take it for the real one, with the later fields also checked for the next header when a section is empty) yields exactly that question |
| StructuredData.FormattedBlockParses | listening-comp/backend/structured_data.py:219-258 | the block written by `format_question` parses back to the question |
| StructuredData.FormattedIntroduction | listening-comp/backend/structured_data.py:221 | the introduction pattern captures exactly the written introduction |
| StructuredData.FormattedConversation | listening-comp/backend/structured_data.py:222 | the conversation pattern captures exactly the written conversation |
| StructuredData.FormattedQuestionText | listening-comp/backend/structured_data.py:223 | the question pattern captures exactly the written question |
| StructuredData.FormattedOptions | listening-comp/backend/structured_data.py:227-242 | the options text read back is exactly the written options |
| StructuredData.FormattedBlocks | listening-comp/backend/structured_data.py:215-216 | the formatted text holds exactly one block |
| StructuredData.AnyAddedMeaning | listening-comp/backend/structured_data.py:334-343 | the save reports success iff some valid question was added |
| StructuredData.SaveQuestions | listening-comp/backend/structured_data.py:316-347 | false for an empty list; true iff some valid question's add succeeded |
| StructuredData.ProcessTranscript | listening-comp/backend/structured_data.py:349-377 | (False, []) for an empty transcript; the returned questions are exactly the valid parsed ones; success iff an add succeeded |
| InteractiveLearning.HeaderMeaning | listening-comp/backend/interactive_learning.py:15 | a header line's stripped form ends with ':' |
| InteractiveLearning.ReadLine | listening-comp/backend/interactive_learning.py:15-25 | one loop turn is the parser's step on the classified line |
| InteractiveLearning.ReadLines | listening-comp/backend/interactive_learning.py:14-28 | the loop and the final flush compute `ParseLines` |
| InteractiveLearning.ParseGeneratedResponse | listening-comp/backend/interactive_learning.py:7-30 | returns exactly `ParseResponse` of the text split on '\n' |
| InteractiveLearning.ContentStripped | listening-comp/backend/interactive_learning.py:24-25 | the kept content lines are stripped and no more than the lines |
| InteractiveLearning.NoHeaderNoSections | listening-comp/backend/interactive_learning.py:16-19 | text without a header records no section |
| InteractiveLearning.LastSection | listening-comp/backend/interactive_learning.py:16-28 | the last header's section is recorded iff it has a name and content, overwriting any earlier one |
| InteractiveLearning.CorrectOptionIsLast | listening-comp/backend/interactive_learning.py:12-22 | the correct option is None iff no line is marked; otherwise it is the last marked line, cleaned |
| InteractiveLearning.ClassifyMarked | listening-comp/backend/interactive_learning.py:21-22 | a line is taken as the correct option iff it carries the marker, and its text is the cleaned content |
| InteractiveLearning.LastMarked | listening-comp/backend/interactive_learning.py:21-22 | the last marked line: marked, with no marked line after it; None iff no line is marked |
| InteractiveLearning.RunCorrect | listening-comp/backend/interactive_learning.py:14-25 | the parser's correct option is the last marked line's text, or the starting value without one |
| InteractiveLearning.NonBlankLines | listening-comp/backend/interactive_learning.py:46 | the option list holds the stripped non-blank lines |
| InteractiveLearning.CheckSections | listening-comp/backend/interactive_learning.py:37-39 | the loop finds every required section present and non-blank |
| InteractiveLearning.IsValidQuestion | listening-comp/backend/interactive_learning.py:32-50 | valid iff the sections are present, a correct option is given, and there are exactly 4 options |
| InteractiveLearning.TryReply | listening-comp/backend/interactive_learning.py:87-91 | an attempt is accepted iff its parsed reply is valid |
| InteractiveLearning.GenerateQuestion | listening-comp/backend/interactive_learning.py:52-100 | returns the first valid attempt within max_retries; re-raises only a last-attempt failure |
| InteractiveLearning.FirstValidAttempt | listening-comp/backend/interactive_learning.py:54-91 | the returned attempt is within range and valid |
| InteractiveLearning.FirstWhereMeaning | listening-comp/backend/interactive_learning.py:54-95 | the first accepted attempt in range, all earlier attempts rejected; none iff every attempt is rejected |
| InteractiveLearning.EarlierAttemptsInvalid | listening-comp/backend/interactive_learning.py:54-95 | every earlier attempt was invalid |
| InteractiveLearning.NoValidAttempt | listening-comp/backend/interactive_learning.py:54-100 | generation fails iff no attempt is valid |
| AudioVoices.Configure | listening-comp/backend/audio_generator.py:44-86 | after configuration both voice lists are non-empty |
| AudioVoices.PartitionIds | listening-comp/backend/audio_generator.py:59-67 | the male and female lists partition the described voices |
| AudioVoices.MaleListMembers | listening-comp/backend/audio_generator.py:64-67 | a voice is in the male list iff its gender is "Male", else in the female list |
| AudioVoices.NeuralLast | listening-comp/backend/audio_generator.py:69-71 | the neural flag of a voice is whether it lists the neural engine |
| AudioVoices.ConfiguredEngine | listening-comp/backend/audio_generator.py:163-166 | the engine is "neural" iff the voice lists that engine |
| AudioVoices.FailedConfigurationIsStandard | listening-comp/backend/audio_generator.py:84-86 | when Polly fails, both default voices use the standard engine and the lists stay the defaults |
| AudioVoices.Announcer | listening-comp/backend/audio_generator.py:74-80 | each list is replaced only by a non-empty one; the announcer is the first female voice, else the first male |
| AudioVoices.RotationCycles | listening-comp/backend/audio_generator.py:304-306 | line voices repeat with period twice the list length |
| AudioVoices.AudioGenerator.constructor | listening-comp/backend/audio_generator.py:29-42 | defaults then configuration; both indices 0 and no last gender |
| AudioVoices.AudioGenerator.ConfigureVoices | listening-comp/backend/audio_generator.py:44-86 | the loop leaves `Configure` of the old configuration; indices untouched |
| AudioVoices.AudioGenerator.GetNextVoice | listening-comp/backend/audio_generator.py:111-118 | returns the voice at the gender's index, advances it modulo the list length, leaves the other index, sets the last gender |
| AudioVoices.AudioGenerator.AssignVoices | listening-comp/backend/audio_generator.py:278-306 | after the reset, line i gets the male rotation when i is even and the female when odd; final indices follow |
| SpeakerLabels.Separators | listening-comp/backend/audio_generator.py:225 | `[\s:：]+` matches a maximal separator run |
| SpeakerLabels.LabelEnd | listening-comp/backend/audio_generator.py:225 | whenever the pattern matches, the match ends just after a run of separator characters |
| SpeakerLabels.Span | listening-comp/backend/audio_generator.py:225 | a maximal run of characters of one class from a position |
| SpeakerLabels.RunLabel | listening-comp/backend/audio_generator.py:225 | a match of a character-class alternative ends after separators |
| SpeakerLabels.NameLabel | listening-comp/backend/audio_generator.py:225 | a match of the `[A-Za-z][a-z]+` name alternative, with or without an honorific, ends after separators |
| SpeakerLabels.PersonLabel | listening-comp/backend/audio_generator.py:225 | a match of the `Person n` alternative ends after separators |
| SpeakerLabels.WordLabel | listening-comp/backend/audio_generator.py:225 | a match of the fixed-word alternatives ends after separators |
| SpeakerLabels.ShadowedAlternatives | listening-comp/backend/audio_generator.py:225 | every alternative after the third is shadowed by the first two |
| SpeakerLabels.WordsAreRuns | listening-comp/backend/audio_generator.py:225 | each fixed label word is matched by an earlier character-class alternative |
| SpeakerLabels.RunBeforeSeparator | listening-comp/backend/audio_generator.py:225 | a class run followed by a separator is matched by that class's alternative |
| SpeakerLabels.PersonIsRun | listening-comp/backend/audio_generator.py:225 | the "Person n" alternative is shadowed by the alphanumeric one |
| SpeakerLabels.CleanSingleText | listening-comp/backend/audio_generator.py:356-369 | the cleaned text is always stripped |
| SpeakerLabels.CleanLine | listening-comp/backend/audio_generator.py:228-241 | a kept line is non-empty and stripped |
| SpeakerLabels.CleanOneLine | listening-comp/backend/audio_generator.py:228-241 | one loop turn computes `CleanLine` |
| SpeakerLabels.CleanDialogue | listening-comp/backend/audio_generator.py:210-243 | the loop returns the cleaned lines of the text split on '\n' |
| SpeakerLabels.CleanedWellFormed | listening-comp/backend/audio_generator.py:227-243 | no more lines than the input, none empty, all stripped |
| SpeakerLabels.CleanLines | listening-comp/backend/audio_generator.py:227-241 | the loop over the lines computes `Cleaned` |
| SpeakerLabels.AlnumLabel | listening-comp/backend/audio_generator.py:225 | an alphanumeric label and separators end the match |
| SpeakerLabels.KanaLabel | listening-comp/backend/audio_generator.py:225 | a kana/kanji label and separators end the match |
| SpeakerLabels.LabelRemoved | listening-comp/backend/audio_generator.py:233-238 | an unindented labelled line contributes exactly its remainder |
| SpeakerLabels.PersonNumberKept | listening-comp/backend/audio_generator.py:362-367 | as written, "Person n: m" is cleaned to "n: m" |
| SpeakerLabels.IndentedLabelMisplaced | listening-comp/backend/audio_generator.py:365-367 | as written, "  A: hi" is cleaned to ": hi" |
| SpeakerLabels.IndentedDialogueLineMisplaced | listening-comp/backend/audio_generator.py:233-238 | as written, the dialogue line "  A: hi" contributes ": hi" |
| SpeakerLabels.IntendedCleanText | listening-comp/backend/audio_generator.py:356-369 | corrected cleaning returns stripped text |
| SpeakerLabels.IntendedLabelEnd | listening-comp/backend/audio_generator.py:225 | the corrected pattern, with `Person n` tried first, also ends after separators |
| SpeakerLabels.IntendedRemovesPersonLabel | listening-comp/backend/audio_generator.py:362-367 | corrected cleaning removes an indented "Person n:" label completely |
| SpeakerLabels.IntendedRemovesIndentedLabel | listening-comp/backend/audio_generator.py:365-367 | corrected cleaning removes an indented word label completely |
| AudioCombine.CombineArguments | listening-comp/backend/audio_generator.py:245-255 | the loop yields the `-i` argument list and the filter string for n files |
| AudioCombine.InputArgsShape | listening-comp/backend/audio_generator.py:251-252 | 2n arguments: "-i" then file k, in order |
| AudioCombine.InputPadCount | listening-comp/backend/audio_generator.py:253 | the input pads hold n '[' |
| AudioCombine.PadCount | listening-comp/backend/audio_generator.py:255 | the filter has n input pads and one output pad |
| Transcript.ExtractVideoIdMeaning | listening-comp/backend/get_transcript.py:24-38 | "v=" wins and its id has no "v=" or "&"; else a "youtu.be/" id has no "?"; None iff neither marker occurs |
| Transcript.PlainIdVerbatim | listening-comp/backend/get_transcript.py:54-57 | an input that is not a YouTube link is the id itself |
| Transcript.UnrecognisedLinkRejected | listening-comp/backend/get_transcript.py:54-61 | a YouTube link without either marker gives no id |
| Transcript.FileNameIsLocal | listening-comp/backend/get_transcript.py:96-97 | the file name has no directory part, and a plain name gets ".txt" |
| Transcript.TranscriptTextJoin | listening-comp/backend/get_transcript.py:101-103 | the content is the texts joined by '\n', with a final '\n' |
| Transcript.Texts | listening-comp/backend/get_transcript.py:102-103 | the entries' texts, one per entry, in order |
| Transcript.TranscriptRoundTrip | listening-comp/backend/get_transcript.py:101-103 | splitting the content on '\n' gives back the texts and a trailing "" |
| Transcript.SaveTranscript | listening-comp/backend/get_transcript.py:84-110 | succeeds iff the file is writable, writing the basename file with the content |
| Transcript.GetTranscript | listening-comp/backend/get_transcript.py:40-82 | a transcript iff the id is non-empty and the fetch succeeds; saved iff also writable; returned whether saved or not |
| QuestionStore.FirstWithId | listening-comp/backend/question_store.py:43-46 | the first record with the id; None iff none has it |
| QuestionStore.QuestionStore.constructor | listening-comp/backend/question_store.py:6-13 | a missing file starts as the empty list |
| QuestionStore.QuestionStore.SaveQuestion | listening-comp/backend/question_store.py:15-32 | true iff read and write succeed, appending one record whose id is the old length; ids stay positions |
| QuestionStore.QuestionStore.GetAllQuestions | listening-comp/backend/question_store.py:34-39 | the records, or [] on a read error |
| QuestionStore.QuestionStore.GetQuestionById | listening-comp/backend/question_store.py:41-46 | the loop returns `FirstWithId` |
| QuestionStore.LookupByPosition | listening-comp/backend/question_store.py:21 | when ids are positions, id k finds record k, and out-of-range ids find nothing |
| QuestionStore.AppendKeepsPositions | listening-comp/backend/question_store.py:21-25 | appending a record whose id is the old length keeps every id equal to its position |
| QuestionStore.FirstAt | listening-comp/backend/question_store.py:43-46 | the lookup returns the first record with the id, skipping earlier records with other ids |
| VectorStore.MockData | listening-comp/backend/vector_store.py:40-53 | each of the three keys has two passages |
| VectorStore.TakePrefix | listening-comp/backend/vector_store.py:159 | Python's `[:n]`, including negative n |
| VectorStore.KeysLowerCase | listening-comp/backend/vector_store.py:40-53 | exactly three keys, all lower-case |
| VectorStore.SearchKnown | listening-comp/backend/vector_store.py:158-160 | n ≥ 2 joins both passages with a blank line; n = 0 gives ""; n = ±1 gives the first |
| VectorStore.SearchUnknown | listening-comp/backend/vector_store.py:161 | any other query gives the fixed message |
| VectorStore.SearchCaseSensitive | listening-comp/backend/vector_store.py:158 | a query with an upper-case letter is not found |
| TranscriptStats.CountCharactersMeaning | listening-comp/frontend/main.py:177-190 | the total is the length; the Japanese count is ≤ it, 0 iff none are Japanese, full iff all are |
| TranscriptStats.CountCharactersAdditive | listening-comp/frontend/main.py:189-190 | both counts are additive over concatenation |
| TranscriptStats.LineCountNewlines | listening-comp/frontend/main.py:238 | the line count is the number of '\n' plus one |
| VocabRoute.ParseVocabulary | japanese-vocab-importer/app/api/generate-vocab/route.ts:62-81 | the list is accepted iff it parses to an array whose items all pass; otherwise "Failed to generate vocabulary list" |
| VocabRoute.Post | japanese-vocab-importer/app/api/generate-vocab/route.ts:3-88 | a request that reaches an OK reply with readable `choices[0].message.content` is answered by `ParseVocabulary` of that content; every other request, a non-OK upstream included, gives "Failed to process request" |
| VocabRoute.MissingContentIsEmpty | japanese-vocab-importer/app/api/generate-vocab/route.ts:59 | missing or empty content yields the empty list |
| VocabRoute.OneBadItemRejects | japanese-vocab-importer/app/api/generate-vocab/route.ts:72-76 | one invalid item rejects the whole list |
| VocabRoute.NotArrayRejects | japanese-vocab-importer/app/api/generate-vocab/route.ts:67-69 | a non-array is rejected |
| VocabRoute.TypedItemValid | japanese-vocab-importer/types/index.ts:1-12 | a typed item passes iff its three strings are non-empty |
| VocabRoute.WellFormedListAccepted | japanese-vocab-importer/app/api/generate-vocab/route.ts:83 | an encoded list of well-formed items is returned unchanged |

## Left out

- I/O of every kind is left out: file reads and writes, directory listings, temporary files,
  `print`, the Flask request and response plumbing, and Streamlit/React rendering. A file's
  content, or a flag saying whether a write succeeds, is a parameter instead.
- External services are oracles. Gemini replies, Polly `describe_voices`, the YouTube fetch and
  the Groq fetch are parameters; exceptions from them are `None`. Chroma, the embedding code and
  `chat.py` are not part of this model.
- JSON encoding and decoding (`json.dumps`, `json.loads`, `JSON.parse`) is an abstract codec.
  Only its round-trip law is assumed, and only where a lemma says so.
- Clocks: `datetime('now')`, `utcnow()` and `datetime.now().isoformat()` are a `now` parameter.
  A calendar day is `t / 86400`.
- Floating point is left out. The dashboard success rate is a real number, without the
  rounding to one decimal place.
- SQLAlchemy and SQLite internals are left out:
  - query planning;
  - `paginate` beyond its descriptor fields;
  - foreign-key enforcement (`PRAGMA foreign_keys` is set only on the table-creation connection);
  - relationship cascades, which are not configured.

  A `SELECT … LIMIT` without `ORDER BY` is taken in rowid order.
- WordsManagement.Post: the handlers in `words_management.py`, `word_groups.py` and
  `study_sessions.py` use a `japanese` attribute, which the `Word` model does not define
  (models.py:11 names the column `kanji`). As written, those paths would raise. The model reads
  and writes `kanji` in its place.
- Dashboard.SuccessRate: does not model `round(…, 1)`; the rate is exact.
- Migrations.CleanRunsRecorded: the log of executed scripts holds only scripts that ran to
  completion. `executescript` commits each statement as it runs (it is outside the driver's
  implicit transactions), so the statements a failing script ran before its error stay in the
  database, and `conn.rollback()` in `run_migrations` does not undo them. Those partial effects
  are not tracked. This applies equally to Migrations.ApplyPending, Migrations.RunMigrations
  and Migrations.Migrate.
- WordsManagement.Post: the body's `japanese`, `romaji` and `english` keys are modelled as
  absent or holding a string. The handler only tests that each key is present, so a key holding
  `null` passes the check and then fails the NOT NULL constraint at commit, and a number is
  stored as its decimal text. Neither case is modelled.
- WordsManagement.Put: as for Post, `japanese`, `romaji` and `english` are absent or a string.
  A `null` there fails the NOT NULL constraint at commit, and a number or boolean is stored as
  text; neither is modelled. `parts` is modelled for every JSON value.
- WordGroupsApi.Post: `name` is absent, `null` or a string. A number or boolean, which the
  handler stores as text, is not modelled.
- WordGroupsApi.Put: as for Post, a number or boolean `name` is not modelled.
- ActivitiesApi.Post: `name`, `thumbnail_url` and `description` are absent, `null` or a string.
  A number or boolean, which the handler stores as text, is not modelled.
- ActivitiesApi.Put: as for Post, a number or boolean field is not modelled.
- StudySessionsApi.Post: `group_id` and `study_activity_id` are absent or a natural number. A
  key holding `null` passes the presence check and reaches `get_or_404(None)`, which answers
  404 where the model answers 400. Neither that nor a value of another type is modelled.
- WordReviewsApi.Post: `word_id`, `study_session_id` and `correct` are absent or of their column's
  type. A `null` there passes the presence check and fails a NOT NULL constraint at commit; it is
  not modelled.
- WordReviewsApi.SessionPost: a `null` `correct` is not modelled, as for WordReviewsApi.Post.
- StudySessionsApi.ReviewPost: a `null` `correct` is not modelled, as for WordReviewsApi.Post.
- VocabRoute.ParseVocabulary: a `content` that is an array is taken as a parse failure. In
  JavaScript, `JSON.parse` converts it with `String()` first, joining the elements with ','; so
  `["[]"]` reads as the empty list and is accepted. That conversion is not modelled.
- Breadcrumbs.Capitalize: upper-cases ASCII letters only. JavaScript's `toUpperCase` maps every
  Unicode letter and can lengthen a string ('ß' becomes "SS").
- Breadcrumbs.NameLength: holds for the ASCII case mapping of the model. With JavaScript's full
  mapping a segment starting with a character such as 'ß' gives a longer label.
- InteractiveLearning.HeaderName: lower-cases ASCII letters only, where Python's `str.lower`
  maps every Unicode letter, so a non-ASCII section name is kept in the model where Python would
  lower-case it. Whether a line is a header does not depend on this: no case mapping creates or
  removes a trailing ':'.
- `create_tables.py`, `cli.py` and `seed_all.py` are left out beyond the constraints taken as
  the store invariant.
- From `audio_generator.py`, these are not part of this model:
  - `format_conversation`, `generate_audio_segment`, `_save_audio_to_temp`, `generate_silence`
    and `generate_audio_segment_with_engine` (Gemini, Polly and ffmpeg calls);
  - the subprocess call of `combine_audio_files`;
  - `_verify_available_voices`, which nothing calls.

  `generate_conversation_audio` is modelled only as its voice reset and voice assignment.
- SpeakerLabels.LabelEnd: `\d` and `\s` are read as ASCII digits and the whitespace of
  `str.strip`. Python's Unicode digit and space classes are wider.
- SpeakerLabels.CleanDialogue: follows the code as written. The two discrepancies under Findings
  are modelled, and their corrections proved, as separate members.
- From `structured_data.py`, these are not part of this model:
  - `load_transcript` and `get_available_transcripts` (file I/O);
  - `_create_extraction_prompt` (prompt text);
  - `main`.

  `extract_questions` is the Gemini reply parameter followed by the parser.
- The Streamlit `render_*` functions of `interactive_learning.py` are left out, and so is the
  `time.sleep` between attempts.
- QuestionStore.QuestionStore.SaveQuestion: records read back from the file are assumed to have
  integer ids.
- QuestionStore.QuestionStore.constructor: a failure to create the initial file is not modelled.
- The vector store's Chroma-backed methods (`add_question`, `search_similar`, `has_transcript`,
  `get_questions_for_transcript`) are not part of this model.

## Findings

| source | as written | input that shows it | evidently intended | confidence | as-written member | corrected member |
|---|---|---|---|---|---|---|
| listening-comp/backend/audio_generator.py:362-367 | the first alternative `[A-Za-z0-9]+` matches "Person", so the `Person\s+\d+` alternative can never match and the number stays | "Person 1: hello" becomes "1: hello" | the whole "Person 1:" label is removed | not executed | SpeakerLabels.PersonNumberKept | SpeakerLabels.IntendedRemovesPersonLabel |
| listening-comp/backend/audio_generator.py:365-367 | the match is made on `text.strip()`, but its end index is applied to the unstripped `text` | "  A: hi" becomes ": hi" | the label is removed from indented lines too, leaving "hi" | not executed | SpeakerLabels.IndentedLabelMisplaced | SpeakerLabels.IntendedRemovesIndentedLabel |
