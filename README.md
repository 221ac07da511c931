# Habitify: a verified model of the habit-tracking core

Habitify is a daily habit tracker. It scores a user's day against a fixed catalogue of
fourteen habits, awards points and badges, and keeps a short history of daily scores. The same
gamification logic exists twice:

- **Server** (`server.js`): an HTTP API over SQL tables. It has signup, check-in submission, the
  weekly and profile reads, the habit list and todo management.
  - A check-in upserts the day's row (one per user and date).
  - It then adds the score to the user's points total.
  - It then applies two badge rules: "Perfect Day" for a score of exactly 100, and
    "1-Week Consistency" when the seven most recent check-ins on or before the submitted date all
    score at least 60.
- **Browser** (`script.js`): a dashboard that keeps its own state in localStorage.
  - It computes the day's percentage score from the checked habits, and the points a finished day
    earns (`round(pct / 100 * 140)`).
  - It awards "Perfect Day" and "Daily Challenger" once each.
  - It keeps a log of daily scores (one per date, at most 28, oldest dropped) and draws a
    seven-day chart from it.
  - It picks a daily challenge from the date key's character sum.

The Dafny modules follow that structure:

| module | file | contents |
|---|---|---|
| `Wrappers` | `wrappers.dfy` | `Option`, `Result` |
| `Seqs` | `seqs.dfy` | generic list operations the tables and lists share: `Filter`, keyed `Upsert`, insertion sort, `Take`, `KeepNewest`, subsequences |
| `Catalog` | `catalog.dfy` | the fourteen-habit catalogue, defined once for both sides |
| `Tables` | `server_tables.dfy` | table rows and the pure queries and rules: upsert, streak window, badge rules, weekly/profile/habit/todo reads, todo update |
| `Server` | `server.dfy` | `class Store`, the tables as fields; each route handler is a method that updates them |
| `Browser` | `browser.dfy` | the script's formulas, the check map, the missed list, the daily challenge, the score log and the chart projection (counting loops become methods) |
| `Dashboard` | `dashboard.dfy` | `class Dashboard`, the localStorage state as fields; the event handlers are methods that update it |

Modelling conventions:

- **Dates.**
  - Server dates are day numbers, so a later date is a larger number.
  - Browser dates are ISO day keys. "Today" is always a parameter.
  - `loadWeeklyScores` receives a `keyOf` function from day numbers to keys, in place of
    `Date`/`toISOString`.
- **JavaScript truthiness.**
  - A request string field that JavaScript would treat as false (absent, `null` or `""`) is the
    empty string.
  - `priority` is an `Option<int>`, because `priority || 0` and `priority ?? null` differ on 0.
  - `done` is absent, a boolean, or some other JSON value.
- **Rounding.** `Math.round(n / d)` with `d > 0` is exact rational rounding, halves up:
  `(2n + d) div 2d`.
- **Timestamps.** Insertion order stands for `unlocked_at` and `created_at`. Row ids are handed out
  from counters in insertion order.
- **Column defaults.** A created todo is not done. That value is the todos table's column
  default, which the schema supplies and the handler does not pass.
- **Page state.** The page's checkboxes mirror the stored check map, so the finish handler reads
  today's checks from the map.

Behaviour of the code worth noting:

- The code runs the check-in steps without a transaction. When the user has no points row, the
  upsert stays applied and the handler answers "Server error".
- The server adds `Math.round(score)`, the submitted score itself, to the total. It does not use
  the `pct / 100 * 14 * 10` formula; that formula is the browser's.
- The submitted score is not clamped to [0, 100].

## Model

| member | source | states |
|---|---|---|
| Catalog.CatalogueSize | server.js:25-40 | the catalogue has fourteen entries (the `HABITS.length` both sides divide and multiply by) |
| Catalog.CatalogueKeysDistinct | script.js:14-29 | no two catalogue habits share a key |
| Tables.HabitsOf | server.js:119-130 | the habit read returns exactly the caller's rows |
| Tables.HabitsInIdOrder | server.js:121-124 | habit rows read back in ascending id order |
| Tables.CatalogueRows | server.js:70-74 | one row per catalogue entry, each owned by the new user, with ids in the block handed out from the counter |
| Tables.SignupHabitsAreCatalogue | server.js:67-78 | a user with no habit rows who receives the cloned catalogue reads back exactly the catalogue, in catalogue order |
| Tables.UpsertCheckinSpec | server.js:142-148 | after a submission the submitted row is present and is the only row for its (user, date); other users' and other dates' rows are exactly those there before; the key stays unique |
| Tables.UpsertCheckin | server.js:142-148 | the submitted row is in the table afterwards; the only row added is the submission, and every row under another (user, date) is kept |
| Tables.UpsertKeepsKeysUnique | server.js:142-148 | the upsert keeps at most one row per (user, date) |
| Tables.ResubmissionReplaces | server.js:145-146 | a second submission for the same date replaces checks and score entirely: nothing of the first survives |
| Tables.RecentSpec | server.js:169-174 | the streak window holds min(7, n) of the user's n rows dated on or before the date, newest first, and only such rows |
| Tables.Recent | server.js:169-174 | the streak window holds at most `limit` rows (`LIMIT 7`) |
| Tables.RecentIsMostRecent | server.js:169-174 | a qualifying row left out of the window is no newer than any row in it, and is left out only when the window is full |
| Seqs.SortDescSpec | server.js:172 | `ORDER BY date DESC` as insertion sort: the result is ordered by descending key and is a permutation of the input |
| Tables.OneWeekEligible | server.js:175 | the rule holds only when at least seven check-ins of the user are dated on or before the date |
| Tables.FewerThanSevenNeverEligible | server.js:175 | fewer than seven rows on or before the date never satisfy the streak rule |
| Tables.QualifyingWeekIsEligible | server.js:175 | seven or more rows on or before the date, all scoring at least 60, satisfy it |
| Tables.SubmissionLeadsWindow | server.js:142-175 | the window read after the upsert starts with the row just submitted, so the current submission counts |
| Tables.LowSubmissionBlocksStreak | server.js:169-184 | a submission scoring below 60 never unlocks "1-Week Consistency", whatever the earlier days scored |
| Tables.NewBadges | server.js:156-184 | "Perfect Day" is unlocked iff the score is exactly 100 and the badge is not held; "1-Week Consistency" iff the streak holds and it is not held; nothing held is unlocked; no duplicates; "Perfect Day" is listed first |
| Tables.AwardKeepsBadgesUnique | server.js:158-184 | inserting the unlocked badges never gives a user two rows with the same name |
| Tables.RecordedBadgesHeld | server.js:163-165 | after the inserts the user holds every unlocked badge and everything held before |
| Tables.BadgesReportedOnce | server.js:156-184 | a badge reported by one check-in is never reported by a later one |
| Tables.ResubmissionUnlocksNothing | server.js:158-184 | resubmitting the same check-in reports no badge |
| Tables.ProfileOf | server.js:212-227 | points total is 0 without a points row, the stored total otherwise; the badge list names exactly the badges the user holds, in unlock (insertion) order: read back as rows it is a subsequence of the badges table |
| Tables.ProfileBadgesDistinct | server.js:218-222 | the profile lists each badge once |
| Tables.Weekly | server.js:197-203 | one entry per check-in of the caller dated today-6 or later |
| Tables.WeeklyAscending | server.js:197-203 | one entry per check-in of the caller dated today-6 or later, in ascending date order |
| Tables.WeeklyComplete | server.js:197-203 | every check-in of the caller dated today-6 or later is listed |
| Tables.WeeklyOnlyCheckins | server.js:197-203 | every entry is a stored check-in of the caller dated today-6 or later; dates without a check-in are omitted |
| Tables.TodosOf | server.js:231-242 | the todo read returns exactly the caller's todos |
| Tables.TodosNewestFirst | server.js:233-236 | todos read back newest first (descending ids) |
| Tables.NewTodo | server.js:247-253 | a created todo is not done, has `dueDate` or null when falsy, and `priority` or 0 when falsy |
| Tables.Patched | server.js:265-273 | each field is replaced only when supplied: text and due date when non-empty, `done` only when a boolean, `priority` when not null (0 included); id and owner unchanged |
| Tables.PatchedProperties | server.js:265-273 | an update that supplies nothing leaves the todo unchanged, and repeating an update is idempotent |
| Tables.FindTodo | server.js:271 | finds a todo with that id owned by the caller, or reports that there is none |
| Server.Store.Signup | server.js:45-86 | missing name, email or password: "Missing fields" with no change; a registered email: "Email already in use" with no change; otherwise the new user is appended with a 0 points row and exactly the catalogue as habits; the store invariant is kept |
| Server.Store.Register | server.js:58-78 | inserts the user row, the zero points row and the user's copy of the catalogue, keeping the users and habits constraints; the user's habits read back as the catalogue |
| Server.Store.AddUser | server.js:58-65 | appends the user with the next id and sets their points total to 0, keeping emails unique and ids ascending |
| Server.Store.AddHabits | server.js:67-78 | appends one row per catalogue entry for the user, in catalogue order, so the user's habits read back as the catalogue |
| Server.CloneHabits | server.js:68-74 | the `forEach` builds one row per catalogue entry, with consecutive ids |
| Server.Store.SubmitCheckin | server.js:133-191 | missing date, non-number score or missing checks: "Missing fields" and no change; otherwise the row is upserted; with no points row the result is an error and points and badges are unchanged; otherwise the total grows by the score (on every resubmission too), the reply carries the new stored total, and the unlocked badges are exactly `NewBadges` over the upserted table, inserted in that order |
| Server.Store.RecordCheckin | server.js:141-184 | the handler after its field check: upsert, then the error when there is no points row (upsert kept), otherwise the points update and the badge rules, with reply and tables as for `SubmitCheckin` |
| Server.Store.StoreCheckin | server.js:142-148 | the table becomes the upsert of the row, still one row per (user, date) |
| Server.Store.AddPoints | server.js:151-153 | the caller's total grows by the score; the returned total is the stored one |
| Server.Store.AwardBadges | server.js:155-184 | runs the two badge rules in order against the streak window of the current table; inserts and reports exactly `NewBadges`; the badges table stays duplicate-free |
| Server.Store.CreateTodo | server.js:244-259 | empty text: "Text required" with no change; otherwise appends `NewTodo` with the next id |
| Server.Store.PatchTodo | server.js:261-281 | no todo with that id owned by the caller: "Not found" and no change; otherwise only that row is replaced by its patched version |
| Server.Store.DeleteTodo | server.js:283-291 | removes exactly the caller's todo with that id, if any, and always answers ok |
| Server.SignupKeepsUsersValid | server.js:52-61 | appending a user with an unused email and the next id keeps emails unique and ids ascending |
| Server.SignupKeepsHabitsValid | server.js:67-78 | appending the cloned rows keeps habit ids ascending, and the new user owned no habit before |
| Server.DeleteKeepsTodosValid | server.js:285 | deleting keeps todo ids ascending |
| Server.NewEmailKeepsEmailsUnique | server.js:52-55 | the email check before the insert keeps emails unique |
| Browser.RoundDiv | script.js:199 | `Math.round(n / d)` is the integer r with r - 1/2 <= n/d < r + 1/2 |
| Browser.RoundDivMonotone | script.js:234 | rounding is monotone |
| Browser.TodayCheck | script.js:158-162 | `getTodayCheck` is false when the day or the key is absent |
| Browser.SetCheck | script.js:151-157 | afterwards `getTodayCheck` reports the given value for that day and key; other days are present exactly as before, with the same maps |
| Browser.SetCheckChangesOnlyThatCheck | script.js:151-157 | `setTodayCheck` changes the reported check for that day and key only; other days are untouched |
| Browser.ClearChecks | script.js:242-247 | other days are present exactly as before, with the same maps |
| Browser.ClearUnchecksExactly | script.js:242-247 | clearing unchecks every catalogue habit for today and leaves every other check unchanged |
| Browser.DoneCount | script.js:198 | at most the catalogue size |
| Browser.Percent | script.js:199 | the percentage is in [0, 100], 100 when everything is done, and below 100 when something is missing (catalogues under 200 entries) |
| Browser.TodayScore | script.js:197-201 | the today score lies in [0, 100] |
| Browser.PerfectScoreIffAllChecked | script.js:197-201 | the score is 100 iff every habit is checked |
| Browser.MissedHabits | script.js:205 | the missed list holds exactly the unchecked catalogue habits, in catalogue order (a subsequence of the catalogue) |
| Browser.MissedComplementsDone | script.js:205-208 | missed and done counts add up to the catalogue size; nothing is missed iff the score is 100 |
| Browser.CataloguePerfectDay | script.js:205-221 | the two facts above for the fourteen-habit catalogue |
| Browser.SuggestionFor | script.js:210 | every catalogue habit has its own stored tip, which is the one shown; a key without a tip gets the habit's title and "Try again tomorrow." |
| Browser.Suggestions | script.js:209-213 | one suggestion per missed habit, in the missed list's order, each the tip stored for that habit (a habit without one gets its title and "Try again tomorrow.") |
| Browser.PointsEarned | script.js:233-235 | earned points lie in [0, 140] for a percentage in [0, 100] |
| Browser.PointsEarnedValues | script.js:234 | 140 points at 100%, 70 at 50%, 0 at 0% |
| Browser.PointsEarnedMonotone | script.js:234 | a higher percentage never earns fewer points |
| Browser.AddBadge | script.js:219-221 | the guarded push adds the badge iff absent, keeps the list duplicate-free and keeps existing badges in place |
| Browser.CharSum | script.js:135 | the character-code sum of a key is at most its length times the largest character code |
| Browser.GetDailyForDate | script.js:133-137 | the challenge is `DAILY[(sum of char codes of the key) mod 7]`, always a listed challenge |
| Browser.LastScore | script.js:289 | the dictionary built from the log has a score for a date iff some entry has that date, and it is one of that date's entry scores |
| Browser.LastScoreOfUniqueDates | script.js:289 | with one entry per date, that score is the entry's |
| Browser.LoadWeeklyScores | script.js:288-293 | exactly seven values, oldest first and today last, each the log's score for that day or 0 |
| Browser.ScoresByDate | script.js:289 | the dictionary has a key iff the log has an entry for that date, and maps it to `LastScore` of that date (a later entry overwrites an earlier one) |
| Browser.SavedScores | script.js:294-300 | the saved log never exceeds 28 entries |
| Browser.SaveScore | script.js:294-300 | the `findIndex`, replace-or-push and `shift` loop compute `SavedScores` |
| Browser.FindDate | script.js:297 | `findIndex`: the first position holding today's date, or the log's length when there is none |
| Browser.DropOldest | script.js:299 | the `shift` loop keeps exactly the newest `cap` entries |
| Browser.SaveLeavesOneEntryForToday | script.js:294-300 | from a log of at most 28 entries with one per date: afterwards still one per date, and today's single entry holds the new score, which the chart reads back |
| Browser.SaveKeepsDatesUnique | script.js:297-298 | saving keeps one entry per date, and today's entry is the new one |
| Browser.SaveKeepsEntry | script.js:298-299 | under the cap, the new entry survives the trimming |
| Browser.SaveReplacesInPlace | script.js:297-298 | an existing entry for today is replaced in its position, all other entries untouched |
| Browser.SaveAppends | script.js:298-299 | otherwise the entry is appended, and from a full log only the oldest entry is dropped from the front |
| Browser.SaveAppendsAtCap | script.js:298-299 | the log grows past the cap only by appending to a full log |
| Dashboard.Dashboard.SetTodayCheck | script.js:151-157 | the stored map becomes `SetCheck` of the old one |
| Dashboard.Dashboard.ClearToday | script.js:242-247 | every catalogue habit is unchecked for today; every other check is unchanged |
| Dashboard.Dashboard.FinishDay | script.js:204-239 | returns the missed list; awards "Perfect Day" once when nothing is missed; adds the earned points, so the total never decreases; saves today's score; keeps badges unique and the log capped with one entry per date |
| Dashboard.Dashboard.AwardPerfectDay | script.js:205-221 | the missed list, and "Perfect Day" added exactly when it is empty and not yet held |
| Dashboard.Dashboard.AddEarnedPoints | script.js:233-235 | the total grows by exactly the earned points and never decreases |
| Dashboard.Dashboard.SaveDailyScore | script.js:294-300 | the log becomes `SavedScores` of the old log, still one entry per date and at most 28 |
| Dashboard.Dashboard.AwardOnce | script.js:336-338 | the guarded push: the badge list becomes `AddBadge` of the old one and stays duplicate-free |
| Dashboard.Dashboard.RenderDailyChallenge | script.js:313-325 | a record stored for today with a text is kept and its completed flag goes into the check map; otherwise today's challenge is stored, not completed, and the check map records it unchecked |
| Dashboard.Dashboard.DailyChallengeChange | script.js:328-343 | the record gets today's date and the checkbox state; a stored non-empty text is kept, otherwise the date's challenge is chosen; the check map records the checkbox; "Daily Challenger" is added once, only when checked |
| Dashboard.AwardedBadgesStayUnique | script.js:219-221 | awarding keeps the list duplicate-free, awarding again changes nothing, and the list grows by one exactly when the badge was absent |

## Left out

- Authentication: JWT signing and verification, bcrypt hashing, `authMiddleware.js`, `/api/auth/login`, `/api/auth/me`, `login.js` and `signup.js`. These are foreign libraries and form plumbing. Handlers receive the caller's id as a parameter, and the password hash column is not stored.
- Express routing, CORS, JSON parsing and the database driver. The SQL statements are modelled as operations on in-memory tables.
- The server's `catch` blocks for failures other than the missing points row. Storage errors are not modelled.
- Transactions and concurrency. The model is sequential. It claims nothing about the check-then-insert race on badges or about atomicity.
- Timestamps. `unlocked_at` and `created_at` are not stored; insertion order stands for them.
- `Tables.Weekly`: the SQL has no upper date bound, so check-ins dated after today are also returned. The model keeps this.
- Server.Store.SubmitCheckin: the score is an integer. A non-integer JSON number, which `Math.round` would round before adding, is not modelled. A negative score lowers the total, as in the code.
- Floating point. Rounded quotients are exact rational arithmetic.
- `Date`, `toISOString` and timezones. Today's key and the keys of the seven chart days are inputs.
- `charCodeAt` is modelled as the character's code point. This is the same for the ASCII date keys.
- DOM rendering, toasts, timers, the rotating quotes, Chart.js drawing, dark mode, the greeting and the navigation buttons.
- The `Math.random` shuffle of the default tips (script.js:224). It is random and only displayed.
- `loadState`: it parses the stored points and badges and renders them. The model starts from empty storage; the state it writes at load, through `renderDailyChallenge`, is modelled by `Dashboard.Dashboard.RenderDailyChallenge`.
- JSON parsing of localStorage values. Malformed or hand-edited storage, for example a badge list with duplicates or a score log over 28 entries, is outside the `Valid` invariant.
