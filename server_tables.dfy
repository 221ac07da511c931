/** The rows of the server's tables and the queries its route handlers run over them, as pure
    functions: the check-in upsert, the streak window, the badge rules, the weekly, profile,
    habit and todo reads, and the todo update. */
module Tables {
  import opened Wrappers
  import opened Seqs
  import Catalog

  type UserId = int

  /** A calendar date as a day number: a later date is a larger number. */
  type Day = int

  /** The habit checks submitted for a day: habit key to completion. */
  type Checks = map<string, bool>

  datatype User = User(id: UserId, name: string, email: string)
  datatype HabitRow = HabitRow(id: int, userId: UserId, key: string, title: string, emoji: string)
  datatype Checkin = Checkin(userId: UserId, date: Day, checks: Checks, score: int)
  datatype Badge = Badge(userId: UserId, name: string)
  datatype Todo = Todo(id: int, userId: UserId, text: string, done: bool, dueDate: Option<string>, priority: int)
  datatype DayScore = DayScore(date: Day, score: int)
  datatype Profile = Profile(points: int, badges: seq<string>)

  /** The `done` field of a todo update request: absent, a JSON boolean, or any other JSON value. */
  datatype DoneField = DoneAbsent | DoneBool(value: bool) | DoneOther

  const PERFECT_DAY := "Perfect Day"
  const ONE_WEEK := "1-Week Consistency"
  /** Number of most recent check-ins the streak rule examines. */
  const STREAK_LENGTH: nat := 7
  /** Lowest score that keeps a streak day. */
  const STREAK_SCORE := 60
  const PERFECT_SCORE := 100

  // ---------- users ----------

  function EmailOf(u: User): string { u.email }
  function UserIdOf(u: User): int { u.id }

  predicate EmailTaken(users: seq<User>, email: string) {
    exists i :: 0 <= i < |users| && users[i].email == email
  }

  // ---------- habits ----------

  function HabitId(h: HabitRow): int { h.id }

  /** The habit rows cloned from catalogue `hs` for user `uid`, with consecutive ids from `firstId`. */
  function CatalogueRows(uid: UserId, firstId: int, hs: seq<Catalog.Habit>): (r: seq<HabitRow>)
    ensures |r| == |hs|
    ensures forall h :: h in r ==> h.userId == uid && firstId <= h.id < firstId + |hs|
  {
    seq(|hs|, k requires 0 <= k < |hs| => HabitRow(firstId + k, uid, hs[k].key, hs[k].title, hs[k].emoji))
  }

  function HabitOwnedBy(u: UserId): HabitRow -> bool {
    (h: HabitRow) => h.userId == u
  }

  /** `GET /api/habits`: the caller's habit rows; the table is kept in id order, so the filter is
      `ORDER BY id`. */
  function HabitsOf(rows: seq<HabitRow>, u: UserId): (r: seq<HabitRow>)
    ensures forall h :: h in r <==> h in rows && h.userId == u
  {
    Filter(rows, HabitOwnedBy(u))
  }

  /** The (key, title, emoji) view of habit rows. */
  function AsCatalogue(rows: seq<HabitRow>): seq<Catalog.Habit> {
    seq(|rows|, k requires 0 <= k < |rows| => Catalog.Habit(rows[k].key, rows[k].title, rows[k].emoji))
  }

  /** The habits read back are in ascending id order. */
  lemma HabitsInIdOrder(rows: seq<HabitRow>, u: UserId)
    requires StrictlyAscending(rows, HabitId)
    ensures StrictlyAscending(HabitsOf(rows, u), HabitId)
  {
    FilterAscending(rows, HabitOwnedBy(u), HabitId);
  }

  /** A user who had no habit rows and then receives a cloned catalogue reads back exactly that
      catalogue, in catalogue order. */
  lemma SignupHabitsAreCatalogue(rows: seq<HabitRow>, uid: UserId, firstId: int, hs: seq<Catalog.Habit>)
    requires forall h :: h in rows ==> h.userId != uid
    ensures AsCatalogue(HabitsOf(rows + CatalogueRows(uid, firstId, hs), uid)) == hs
  {
    var added := CatalogueRows(uid, firstId, hs);
    OnlyClonedRowsOwned(rows, added, uid);
    ClonedRowsShowCatalogue(uid, firstId, hs);
  }

  lemma OnlyClonedRowsOwned(rows: seq<HabitRow>, added: seq<HabitRow>, uid: UserId)
    requires forall h :: h in rows ==> h.userId != uid
    requires forall h :: h in added ==> h.userId == uid
    ensures HabitsOf(rows + added, uid) == added
  {
    var owned := HabitOwnedBy(uid);
    FilterAppend(rows, added, owned);
    assert forall h :: h in rows ==> !owned(h);
    assert Filter(rows, owned) == [];
    FilterAll(added, owned);
    assert Filter(rows + added, owned) == [] + added;
  }

  lemma ClonedRowsShowCatalogue(uid: UserId, firstId: int, hs: seq<Catalog.Habit>)
    ensures forall h :: h in CatalogueRows(uid, firstId, hs) ==> h.userId == uid
    ensures AsCatalogue(CatalogueRows(uid, firstId, hs)) == hs
  {
  }

  // ---------- check-ins ----------

  /** The unique key of the check-ins table. */
  function CheckinKey(c: Checkin): (UserId, Day) { (c.userId, c.date) }

  function DateOf(c: Checkin): int { c.date }

  /** The check-in upsert: a new row, or the row of the same user and date replaced entirely. */
  function UpsertCheckin(rows: seq<Checkin>, c: Checkin): (r: seq<Checkin>)
    ensures c in r
    ensures forall x :: x in r ==> x == c || x in rows
    ensures forall x :: x in rows && CheckinKey(x) != CheckinKey(c) ==> x in r
  {
    UpsertMembers(rows, c, CheckinKey);
    Upsert(rows, c, CheckinKey)
  }

  /** After a submission there is exactly one row for its user and date, holding the submitted
      checks and score; rows of other users or other dates are those that were there before. */
  lemma UpsertCheckinSpec(rows: seq<Checkin>, c: Checkin)
    requires KeysUnique(rows, CheckinKey)
    ensures KeysUnique(UpsertCheckin(rows, c), CheckinKey)
    ensures c in UpsertCheckin(rows, c)
    ensures forall x :: x in UpsertCheckin(rows, c) && x.userId == c.userId && x.date == c.date ==> x == c
    ensures forall x: Checkin :: (x.userId != c.userId || x.date != c.date) ==> (x in UpsertCheckin(rows, c) <==> x in rows)
  {
    UpsertSpec(rows, c, CheckinKey);
  }

  /** The upsert keeps the table's (user, date) key unique. */
  lemma UpsertKeepsKeysUnique(rows: seq<Checkin>, c: Checkin)
    requires KeysUnique(rows, CheckinKey)
    ensures KeysUnique(UpsertCheckin(rows, c), CheckinKey)
  {
    UpsertSpec(rows, c, CheckinKey);
  }

  /** Resubmitting a date replaces the earlier submission: nothing of the first one's checks or
      score survives, and submitting the same values twice leaves the table as after once. */
  lemma ResubmissionReplaces(rows: seq<Checkin>, first: Checkin, second: Checkin)
    requires first.userId == second.userId && first.date == second.date
    ensures UpsertCheckin(UpsertCheckin(rows, first), second) == UpsertCheckin(rows, second)
  {
    UpsertLastWriteWins(rows, first, second, CheckinKey);
  }

  function OnOrBefore(u: UserId, d: Day): Checkin -> bool {
    (c: Checkin) => c.userId == u && c.date <= d
  }

  /** `SELECT ... WHERE user_id = u AND date <= d ORDER BY date DESC LIMIT limit`. */
  function Recent(rows: seq<Checkin>, u: UserId, d: Day, limit: nat): (r: seq<Checkin>)
    ensures |r| <= limit
  {
    Take(SortDesc(Filter(rows, OnOrBefore(u, d)), DateOf), limit)
  }

  /** The window holds `min(limit, n)` of the user's `n` rows dated on or before `d`, newest
      first, and only such rows. */
  lemma RecentSpec(rows: seq<Checkin>, u: UserId, d: Day, limit: nat)
    ensures |Recent(rows, u, d, limit)| == Min(limit, |Filter(rows, OnOrBefore(u, d))|)
    ensures SortedDesc(Recent(rows, u, d, limit), DateOf)
    ensures forall x :: x in Recent(rows, u, d, limit) ==> x in rows && x.userId == u && x.date <= d
  {
    var all := Filter(rows, OnOrBefore(u, d));
    var sorted := SortDesc(all, DateOf);
    SortDescSpec(all, DateOf);
    var w := Recent(rows, u, d, limit);
    assert w == sorted[..|w|];
    forall x | x in w ensures x in rows && x.userId == u && x.date <= d {
      assert x in sorted;
      assert x in multiset(sorted);
    }
  }

  /** Every row of the user dated on or before `d` that the window leaves out is no newer than
      any row it keeps, and is left out only because the window is full. */
  lemma RecentIsMostRecent(rows: seq<Checkin>, u: UserId, d: Day, limit: nat, x: Checkin)
    requires x in rows && x.userId == u && x.date <= d && x !in Recent(rows, u, d, limit)
    ensures |Recent(rows, u, d, limit)| == limit
    ensures forall y :: y in Recent(rows, u, d, limit) ==> y.date >= x.date
  {
    var all := Filter(rows, OnOrBefore(u, d));
    var sorted := SortDesc(all, DateOf);
    SortDescSpec(all, DateOf);
    var w := Recent(rows, u, d, limit);
    assert w == sorted[..|w|];
    assert x in all;
    assert x in multiset(sorted);
    var k :| 0 <= k < |sorted| && sorted[k] == x;
    assert forall i :: 0 <= i < |w| ==> sorted[i] in w;
    assert k >= |w|;
    forall y | y in w ensures y.date >= x.date {
      var i :| 0 <= i < |w| && w[i] == y;
      assert sorted[i] == y;
      assert DateOf(sorted[i]) >= DateOf(sorted[k]);
    }
  }

  /** The "1-Week Consistency" condition: the seven most recent check-ins dated on or before `d`
      exist and all score at least 60. */
  predicate OneWeekEligible(rows: seq<Checkin>, u: UserId, d: Day): (b: bool)
    ensures b ==> |Filter(rows, OnOrBefore(u, d))| >= STREAK_LENGTH
  {
    RecentSpec(rows, u, d, STREAK_LENGTH);
    var w := Recent(rows, u, d, STREAK_LENGTH);
    |w| == STREAK_LENGTH && forall i :: 0 <= i < |w| ==> w[i].score >= STREAK_SCORE
  }

  /** Fewer than seven check-ins on or before the date never unlock the streak badge. */
  lemma FewerThanSevenNeverEligible(rows: seq<Checkin>, u: UserId, d: Day)
    requires |Filter(rows, OnOrBefore(u, d))| < STREAK_LENGTH
    ensures !OneWeekEligible(rows, u, d)
  {
    RecentSpec(rows, u, d, STREAK_LENGTH);
  }

  /** Seven or more check-ins on or before the date, all scoring at least 60, unlock it. */
  lemma QualifyingWeekIsEligible(rows: seq<Checkin>, u: UserId, d: Day)
    requires |Filter(rows, OnOrBefore(u, d))| >= STREAK_LENGTH
    requires forall x :: x in rows && x.userId == u && x.date <= d ==> x.score >= STREAK_SCORE
    ensures OneWeekEligible(rows, u, d)
  {
    RecentSpec(rows, u, d, STREAK_LENGTH);
    var w := Recent(rows, u, d, STREAK_LENGTH);
    forall i | 0 <= i < |w| ensures w[i].score >= STREAK_SCORE {
      assert w[i] in w;
    }
  }

  /** The streak window read after an upsert starts with the row just submitted: the current
      submission is part of the seven days examined. */
  lemma SubmissionLeadsWindow(rows: seq<Checkin>, c: Checkin)
    requires KeysUnique(rows, CheckinKey)
    ensures |Recent(UpsertCheckin(rows, c), c.userId, c.date, STREAK_LENGTH)| > 0
    ensures Recent(UpsertCheckin(rows, c), c.userId, c.date, STREAK_LENGTH)[0] == c
  {
    var after := UpsertCheckin(rows, c);
    UpsertCheckinSpec(rows, c);
    RecentSpec(after, c.userId, c.date, STREAK_LENGTH);
    var w := Recent(after, c.userId, c.date, STREAK_LENGTH);
    if c !in w {
      RecentIsMostRecent(after, c.userId, c.date, STREAK_LENGTH, c);
    }
    assert |w| > 0;
    assert w[0] in w;
    assert w[0].date >= c.date by {
      if c in w {
        var i :| 0 <= i < |w| && w[i] == c;
        assert i == 0 || DateOf(w[0]) >= DateOf(w[i]);
      }
    }
  }

  /** A submission scoring below 60 never unlocks the streak badge, whatever the six days before
      it scored (six qualifying days and a seventh at 59 do not unlock it). */
  lemma LowSubmissionBlocksStreak(rows: seq<Checkin>, c: Checkin)
    requires KeysUnique(rows, CheckinKey)
    requires c.score < STREAK_SCORE
    ensures !OneWeekEligible(UpsertCheckin(rows, c), c.userId, c.date)
  {
    SubmissionLeadsWindow(rows, c);
  }

  // ---------- badges ----------

  predicate Holds(badges: seq<Badge>, u: UserId, name: string) {
    Badge(u, name) in badges
  }

  function BadgeRows(u: UserId, names: seq<string>): (r: seq<Badge>)
    ensures |r| == |names|
    ensures forall i :: 0 <= i < |names| ==> r[i] == Badge(u, names[i])
  {
    if names == [] then [] else [Badge(u, names[0])] + BadgeRows(u, names[1..])
  }

  /** The badges a check-in unlocks, in the order the handler reports them: "Perfect Day" for a
      score of exactly 100, then "1-Week Consistency" when the streak holds; a badge the user
      already holds is never unlocked again. */
  function NewBadges(badges: seq<Badge>, u: UserId, score: int, streak: bool): (r: seq<string>)
    ensures PERFECT_DAY in r <==> score == PERFECT_SCORE && !Holds(badges, u, PERFECT_DAY)
    ensures ONE_WEEK in r <==> streak && !Holds(badges, u, ONE_WEEK)
    ensures forall n :: n in r ==> !Holds(badges, u, n)
    ensures forall n :: n in r ==> n == PERFECT_DAY || n == ONE_WEEK
    ensures NoDuplicates(r)
    ensures |r| == 2 ==> r == [PERFECT_DAY, ONE_WEEK]
  {
    (if score == PERFECT_SCORE && !Holds(badges, u, PERFECT_DAY) then [PERFECT_DAY] else [])
    + (if streak && !Holds(badges, u, ONE_WEEK) then [ONE_WEEK] else [])
  }

  /** Recording the unlocked badges keeps the badges table free of a second row for any
      (user, name). */
  lemma AwardKeepsBadgesUnique(badges: seq<Badge>, u: UserId, score: int, streak: bool)
    requires NoDuplicates(badges)
    ensures NoDuplicates(badges + BadgeRows(u, NewBadges(badges, u, score, streak)))
  {
    var names := NewBadges(badges, u, score, streak);
    var added := BadgeRows(u, names);
    var all := badges + added;
    forall i, j | 0 <= i < j < |all| ensures all[i] != all[j] {
      if j >= |badges| {
        assert all[j] == Badge(u, names[j - |badges|]);
        if i < |badges| {
          assert names[j - |badges|] in names;
          assert all[i] in badges;
        } else {
          assert all[i] == Badge(u, names[i - |badges|]);
        }
      }
    }
  }

  /** After recording `names`, the user holds each of them and everything held before. */
  lemma RecordedBadgesHeld(badges: seq<Badge>, u: UserId, names: seq<string>)
    ensures forall n :: n in names ==> Holds(badges + BadgeRows(u, names), u, n)
    ensures forall v, n :: Holds(badges, v, n) ==> Holds(badges + BadgeRows(u, names), v, n)
  {
    var after := badges + BadgeRows(u, names);
    forall n | n in names ensures Holds(after, u, n) {
      var i :| 0 <= i < |names| && names[i] == n;
      assert after[|badges| + i] == Badge(u, n);
    }
  }

  /** A badge reported by one check-in is never reported by a later one. */
  lemma BadgesReportedOnce(badges: seq<Badge>, u: UserId, score: int, streak: bool, score': int, streak': bool)
    ensures forall n :: n in NewBadges(badges + BadgeRows(u, NewBadges(badges, u, score, streak)), u, score', streak') ==>
              n !in NewBadges(badges, u, score, streak)
  {
    RecordedBadgesHeld(badges, u, NewBadges(badges, u, score, streak));
  }

  /** Resubmitting the same check-in reports no badge. */
  lemma ResubmissionUnlocksNothing(badges: seq<Badge>, u: UserId, score: int, streak: bool)
    ensures NewBadges(badges + BadgeRows(u, NewBadges(badges, u, score, streak)), u, score, streak) == []
  {
    var first := NewBadges(badges, u, score, streak);
    RecordedBadgesHeld(badges, u, first);
    var after := badges + BadgeRows(u, first);
    assert score == PERFECT_SCORE ==> Holds(after, u, PERFECT_DAY);
    assert streak ==> Holds(after, u, ONE_WEEK);
  }

  function HeldBy(u: UserId): Badge -> bool {
    (b: Badge) => b.userId == u
  }

  function Names(bs: seq<Badge>): (r: seq<string>)
    ensures |r| == |bs|
    ensures forall i :: 0 <= i < |bs| ==> r[i] == bs[i].name
  {
    if bs == [] then [] else [bs[0].name] + Names(bs[1..])
  }

  /** `GET /api/profile`: the points total (0 when the user has no points row) and the names of
      the user's badges in unlock (insertion) order. */
  function ProfileOf(points: map<UserId, int>, badges: seq<Badge>, u: UserId): (r: Profile)
    ensures u !in points ==> r.points == 0
    ensures u in points ==> r.points == points[u]
    ensures forall n :: n in r.badges <==> Holds(badges, u, n)
    ensures Subsequence(BadgeRows(u, r.badges), badges)
  {
    var mine := Filter(badges, HeldBy(u));
    var names := Names(mine);
    assert BadgeRows(u, names) == mine by {
      forall i | 0 <= i < |mine| ensures BadgeRows(u, names)[i] == mine[i] {
        assert mine[i] in mine;
      }
    }
    FilterIsSubsequence(badges, HeldBy(u));
    assert forall n :: n in names <==> Badge(u, n) in mine by {
      forall n ensures n in names <==> Badge(u, n) in mine {
        if n in names {
          var i :| 0 <= i < |names| && names[i] == n;
          assert mine[i] in mine;
        }
        if Badge(u, n) in mine {
          var i :| 0 <= i < |mine| && mine[i] == Badge(u, n);
          assert names[i] == n;
        }
      }
    }
    Profile(if u in points then points[u] else 0, names)
  }

  /** The profile lists each badge once. */
  lemma ProfileBadgesDistinct(points: map<UserId, int>, badges: seq<Badge>, u: UserId)
    requires NoDuplicates(badges)
    ensures NoDuplicates(ProfileOf(points, badges, u).badges)
  {
    var mine := Filter(badges, HeldBy(u));
    FilterNoDuplicates(badges, HeldBy(u));
    var names := Names(mine);
    forall i, j | 0 <= i < j < |names| ensures names[i] != names[j] {
      assert mine[i] in mine && mine[j] in mine;
      assert mine[i] == Badge(u, names[i]) && mine[j] == Badge(u, names[j]);
    }
  }

  // ---------- weekly scores ----------

  function OnOrAfter(u: UserId, from: Day): Checkin -> bool {
    (c: Checkin) => c.userId == u && c.date >= from
  }

  function NegDate(c: Checkin): int { -c.date }

  function DayScores(cs: seq<Checkin>): (r: seq<DayScore>)
    ensures |r| == |cs|
    ensures forall i :: 0 <= i < |cs| ==> r[i] == DayScore(cs[i].date, cs[i].score)
  {
    if cs == [] then [] else [DayScore(cs[0].date, cs[0].score)] + DayScores(cs[1..])
  }

  /** `GET /api/checkins/weekly`: the caller's check-ins dated on or after `today - 6`, ascending
      by date. */
  function Weekly(rows: seq<Checkin>, u: UserId, today: Day): (r: seq<DayScore>)
    ensures |r| == |Filter(rows, OnOrAfter(u, today - 6))|
  {
    DayScores(SortDesc(Filter(rows, OnOrAfter(u, today - 6)), NegDate))
  }

  /** The weekly list holds one entry per check-in of the caller dated `today - 6` or later, in
      ascending date order. */
  lemma WeeklyAscending(rows: seq<Checkin>, u: UserId, today: Day)
    ensures |Weekly(rows, u, today)| == |Filter(rows, OnOrAfter(u, today - 6))|
    ensures forall i, j :: 0 <= i < j < |Weekly(rows, u, today)| ==>
              Weekly(rows, u, today)[i].date <= Weekly(rows, u, today)[j].date
  {
    var sorted := SortDesc(Filter(rows, OnOrAfter(u, today - 6)), NegDate);
    SortDescSpec(Filter(rows, OnOrAfter(u, today - 6)), NegDate);
    var r := Weekly(rows, u, today);
    forall i, j | 0 <= i < j < |r| ensures r[i].date <= r[j].date {
      assert NegDate(sorted[i]) >= NegDate(sorted[j]);
    }
  }

  /** Every check-in of the caller dated `today - 6` or later is listed. */
  lemma WeeklyComplete(rows: seq<Checkin>, u: UserId, today: Day, c: Checkin)
    requires c in rows && c.userId == u && c.date >= today - 6
    ensures DayScore(c.date, c.score) in Weekly(rows, u, today)
  {
    var all := Filter(rows, OnOrAfter(u, today - 6));
    var sorted := SortDesc(all, NegDate);
    SortDescSpec(all, NegDate);
    assert c in all;
    assert c in multiset(sorted);
    var k :| 0 <= k < |sorted| && sorted[k] == c;
    assert Weekly(rows, u, today)[k] == DayScore(c.date, c.score);
  }

  /** Nothing else is listed: each entry is a check-in of the caller dated `today - 6` or later,
      so a date with no check-in is omitted rather than reported as 0. */
  lemma WeeklyOnlyCheckins(rows: seq<Checkin>, u: UserId, today: Day, k: nat)
    requires k < |Weekly(rows, u, today)|
    ensures Weekly(rows, u, today)[k].date >= today - 6
    ensures DayScore(Weekly(rows, u, today)[k].date, Weekly(rows, u, today)[k].score) == Weekly(rows, u, today)[k]
    ensures Checkin(u, Weekly(rows, u, today)[k].date, ChecksAt(rows, u, today, k), Weekly(rows, u, today)[k].score) in rows
  {
    var all := Filter(rows, OnOrAfter(u, today - 6));
    var sorted := SortDesc(all, NegDate);
    SortDescSpec(all, NegDate);
    assert sorted[k] in multiset(sorted);
    assert sorted[k] in all;
  }

  /** The stored checks of the check-in behind the `k`-th weekly entry. */
  function ChecksAt(rows: seq<Checkin>, u: UserId, today: Day, k: nat): Checks
    requires k < |Filter(rows, OnOrAfter(u, today - 6))|
  {
    SortDesc(Filter(rows, OnOrAfter(u, today - 6)), NegDate)[k].checks
  }

  // ---------- todos ----------

  function TodoId(t: Todo): int { t.id }

  function OwnedTodo(u: UserId): Todo -> bool {
    (t: Todo) => t.userId == u
  }

  /** `GET /api/todos`: the caller's todos, newest first. */
  function TodosOf(todos: seq<Todo>, u: UserId): (r: seq<Todo>)
    ensures forall t :: t in r <==> t in todos && t.userId == u
  {
    var mine := Filter(todos, OwnedTodo(u));
    assert forall t :: t in Reverse(mine) <==> t in mine by {
      forall t ensures t in Reverse(mine) <==> t in mine {
        if t in mine {
          var i :| 0 <= i < |mine| && mine[i] == t;
          assert Reverse(mine)[|mine| - 1 - i] == t;
        }
      }
    }
    Reverse(mine)
  }

  /** With ids assigned in insertion order, the todo list reads back with descending ids. */
  lemma TodosNewestFirst(todos: seq<Todo>, u: UserId)
    requires StrictlyAscending(todos, TodoId)
    ensures forall i, j :: 0 <= i < j < |TodosOf(todos, u)| ==> TodosOf(todos, u)[i].id > TodosOf(todos, u)[j].id
  {
    var mine := Filter(todos, OwnedTodo(u));
    FilterAscending(todos, OwnedTodo(u), TodoId);
    var r := TodosOf(todos, u);
    forall i, j | 0 <= i < j < |r| ensures r[i].id > r[j].id {
      assert TodoId(mine[|mine| - 1 - j]) < TodoId(mine[|mine| - 1 - i]);
    }
  }

  /** The row a todo creation inserts: `dueDate || null`, `priority || 0`, not done. */
  function NewTodo(id: int, u: UserId, text: string, dueDate: string, priority: Option<int>): (t: Todo)
    ensures t.id == id && t.userId == u && t.text == text && !t.done
    ensures dueDate == "" ==> t.dueDate == None
    ensures dueDate != "" ==> t.dueDate == Some(dueDate)
    ensures priority == None ==> t.priority == 0
    ensures priority.Some? ==> t.priority == priority.value
  {
    Todo(id, u, text, false, if dueDate == "" then None else Some(dueDate), if priority.Some? && priority.value != 0 then priority.value else 0)
  }

  /** The todo PATCH: `COALESCE` of each request field with the stored one. A field that is
      absent (or an empty text or due date, which JavaScript treats as false) keeps the stored
      value; `done` is applied only when it is a boolean; a priority of 0 is applied. */
  function Patched(t: Todo, text: string, done: DoneField, dueDate: string, priority: Option<int>): (r: Todo)
    ensures r.id == t.id && r.userId == t.userId
    ensures r.text == (if text == "" then t.text else text)
    ensures r.done == (if done.DoneBool? then done.value else t.done)
    ensures r.dueDate == (if dueDate == "" then t.dueDate else Some(dueDate))
    ensures r.priority == priority.GetOr(t.priority)
  {
    Todo(t.id, t.userId,
         if text != "" then text else t.text,
         match done { case DoneBool(b) => b case _ => t.done },
         if dueDate != "" then Some(dueDate) else t.dueDate,
         match priority { case Some(p) => p case None => t.priority })
  }

  /** A request that sets nothing leaves the todo as it was, and repeating an update changes
      nothing more. */
  lemma PatchedProperties(t: Todo, text: string, done: DoneField, dueDate: string, priority: Option<int>)
    ensures Patched(t, "", DoneAbsent, "", None) == t
    ensures Patched(t, "", DoneOther, "", None) == t
    ensures Patched(Patched(t, text, done, dueDate, priority), text, done, dueDate, priority) ==
            Patched(t, text, done, dueDate, priority)
  {
  }

  /** Position of the caller's todo with id `id` (`WHERE id = $5 AND user_id = $6`). */
  function FindTodo(todos: seq<Todo>, id: int, u: UserId): (r: Option<nat>)
    ensures r.Some? ==> r.value < |todos| && todos[r.value].id == id && todos[r.value].userId == u
    ensures r.None? ==> forall t :: t in todos ==> !(t.id == id && t.userId == u)
  {
    if todos == [] then None
    else if todos[0].id == id && todos[0].userId == u then Some(0)
    else
      match FindTodo(todos[1..], id, u)
      case Some(k) => Some(k + 1)
      case None => None
  }

  function KeptByDelete(u: UserId, id: int): Todo -> bool {
    (t: Todo) => !(t.id == id && t.userId == u)
  }
}
