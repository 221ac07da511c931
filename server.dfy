/** The server's route handlers over an in-memory store of its tables. Each authenticated
    handler receives the caller's user id from the authentication layer; request bodies arrive
    already parsed, with an empty string standing for a field that JavaScript treats as false
    (absent, null or ""). */
module Server {
  import opened Wrappers
  import opened Seqs
  import opened Tables
  import Catalog

  datatype Error =
    | MissingFields   // 400 "Missing fields"
    | EmailInUse      // 400 "Email already in use"
    | TextRequired    // 400 "Text required"
    | NotFound        // 404 "Not found"
    | ServerError     // 500 "Server error" (a thrown exception caught by the handler)

  datatype CheckinReply = CheckinReply(totalPoints: int, badgesUnlocked: seq<string>)

  class Store {
    var users: seq<User>
    var points: map<UserId, int>
    var habits: seq<HabitRow>
    var checkins: seq<Checkin>
    var badges: seq<Badge>
    var todos: seq<Todo>
    // the next values of the tables' serial id columns
    var nextUserId: int
    var nextHabitId: int
    var nextTodoId: int

    /** The tables' keys and constraints: unique emails, unique (user, date) check-ins, unique
        (user, name) badges, and ids handed out in insertion order. */
    ghost predicate Valid()
      reads this
    {
      && UsersValid(users, nextUserId)
      && HabitsValid(habits, nextUserId, nextHabitId)
      && KeysUnique(checkins, CheckinKey)
      && NoDuplicates(badges)
      && TodosValid(todos, nextTodoId)
    }

    constructor ()
      ensures Valid()
      ensures users == [] && points == map[] && habits == [] && checkins == [] && badges == [] && todos == []
    {
      users, points, habits, checkins, badges, todos := [], map[], [], [], [], [];
      nextUserId, nextHabitId, nextTodoId := 1, 1, 1;
    }

    /** `POST /api/auth/signup`. */
    method Signup(name: string, email: string, password: string) returns (res: Result<User, Error>)
      requires Valid()
      modifies this`users, this`nextUserId, this`points, this`habits, this`nextHabitId
      ensures Valid()
      ensures checkins == old(checkins) && badges == old(badges) && todos == old(todos)
      ensures name == "" || email == "" || password == "" ==>
                res == Failure(MissingFields) && unchanged(this)
      ensures name != "" && email != "" && password != "" && EmailTaken(old(users), email) ==>
                res == Failure(EmailInUse) && unchanged(this)
      ensures name != "" && email != "" && password != "" && !EmailTaken(old(users), email) ==>
                && res == Success(User(old(nextUserId), name, email))
                && users == old(users) + [res.value]
                && points == old(points)[res.value.id := 0]
                && habits == old(habits) + CatalogueRows(res.value.id, old(nextHabitId), Catalog.HABITS)
                && nextUserId == old(nextUserId) + 1
                && nextHabitId == old(nextHabitId) + |Catalog.HABITS|
                && AsCatalogue(HabitsOf(habits, res.value.id)) == Catalog.HABITS
    {
      if name == "" || email == "" || password == "" {
        return Failure(MissingFields);
      }
      if EmailTaken(users, email) {
        return Failure(EmailInUse);
      }
      var user := Register(name, email, Catalog.HABITS);
      res := Success(user);
    }

    /** The signup handler's insertions once the request is accepted: the user row, the zero
        points row and a copy of the catalogue `hs` as the user's habits. */
    method Register(name: string, email: string, hs: seq<Catalog.Habit>) returns (user: User)
      requires UsersValid(users, nextUserId) && HabitsValid(habits, nextUserId, nextHabitId)
      requires !EmailTaken(users, email)
      modifies this`users, this`nextUserId, this`points, this`habits, this`nextHabitId
      ensures UsersValid(users, nextUserId) && HabitsValid(habits, nextUserId, nextHabitId)
      ensures user == User(old(nextUserId), name, email)
      ensures users == old(users) + [user]
      ensures points == old(points)[user.id := 0]
      ensures habits == old(habits) + CatalogueRows(user.id, old(nextHabitId), hs)
      ensures nextUserId == old(nextUserId) + 1 && nextHabitId == old(nextHabitId) + |hs|
      ensures AsCatalogue(HabitsOf(habits, user.id)) == hs
    {
      user := AddUser(name, email);
      ghost var points1, users1 := points, users;
      AddHabits(user.id, hs);
      assert points == points1 && users == users1;
    }

    /** The signup handler's user row and zero points row. */
    method AddUser(name: string, email: string) returns (user: User)
      requires UsersValid(users, nextUserId)
      requires !EmailTaken(users, email)
      modifies this`users, this`nextUserId, this`points
      ensures UsersValid(users, nextUserId)
      ensures user == User(old(nextUserId), name, email)
      ensures users == old(users) + [user] && nextUserId == user.id + 1
      ensures points == old(points)[user.id := 0]
    {
      user := User(nextUserId, name, email);
      SignupKeepsUsersValid(users, user);
      users := users + [user];
      nextUserId := nextUserId + 1;
      points := points[user.id := 0];
    }

    /** The signup handler's copy of the catalogue into the new user's habit rows. */
    method AddHabits(uid: UserId, hs: seq<Catalog.Habit>)
      requires HabitsValid(habits, uid, nextHabitId)
      modifies this`habits, this`nextHabitId
      ensures HabitsValid(habits, uid + 1, nextHabitId)
      ensures habits == old(habits) + CatalogueRows(uid, old(nextHabitId), hs)
      ensures nextHabitId == old(nextHabitId) + |hs|
      ensures AsCatalogue(HabitsOf(habits, uid)) == hs
    {
      var firstId := nextHabitId;
      var rows := CloneHabits(uid, firstId, hs);
      SignupKeepsHabitsValid(habits, rows, uid, firstId);
      SignupHabitsAreCatalogue(habits, uid, firstId, hs);
      habits := habits + rows;
      nextHabitId := nextHabitId + |rows|;
    }

    /** `POST /api/checkins`: upsert the day's check-in, add the score to the points total, then
        apply the "Perfect Day" and "1-Week Consistency" rules. `score` is `None` when the request's
        score is not a JSON number; `date` and `checks` are `None` when missing. */
    method SubmitCheckin(u: UserId, date: Option<Day>, checks: Option<Checks>, score: Option<int>)
      returns (res: Result<CheckinReply, Error>)
      requires Valid()
      modifies this`checkins, this`points, this`badges
      ensures Valid()
      ensures date.None? || score.None? || checks.None? ==>
                res == Failure(MissingFields) && unchanged(this)
      ensures date.Some? && score.Some? && checks.Some? ==>
                && checkins == UpsertCheckin(old(checkins), Checkin(u, date.value, checks.value, score.value))
                && (u !in old(points) ==>
                      res == Failure(ServerError) && points == old(points) && badges == old(badges))
                && (u in old(points) ==>
                      && points == old(points)[u := old(points)[u] + score.value]
                      && res.Success? && res.value.totalPoints == points[u]
                      && res.value.badgesUnlocked == NewBadges(old(badges), u, score.value, OneWeekEligible(checkins, u, date.value))
                      && badges == old(badges) + BadgeRows(u, res.value.badgesUnlocked))
    {
      if date.None? || score.None? || checks.None? {
        return Failure(MissingFields);
      }
      res := RecordCheckin(u, date.value, checks.value, score.value);
      // the tables the handler does not touch keep their constraints
      assert UsersValid(users, nextUserId) && HabitsValid(habits, nextUserId, nextHabitId);
      assert TodosValid(todos, nextTodoId);
    }

    /** The handler after its field checks: the upsert, the points update, then the badge rules. */
    method RecordCheckin(u: UserId, date: Day, checks: Checks, score: int) returns (res: Result<CheckinReply, Error>)
      requires KeysUnique(checkins, CheckinKey) && NoDuplicates(badges)
      modifies this`checkins, this`points, this`badges
      ensures KeysUnique(checkins, CheckinKey) && NoDuplicates(badges)
      ensures checkins == UpsertCheckin(old(checkins), Checkin(u, date, checks, score))
      ensures u !in old(points) ==>
                res == Failure(ServerError) && points == old(points) && badges == old(badges)
      ensures u in old(points) ==>
                && points == old(points)[u := old(points)[u] + score]
                && res.Success? && res.value.totalPoints == points[u]
                && res.value.badgesUnlocked == NewBadges(old(badges), u, score, OneWeekEligible(checkins, u, date))
                && badges == old(badges) + BadgeRows(u, res.value.badgesUnlocked)
    {
      var c := Checkin(u, date, checks, score);
      ghost var points0 := points;
      StoreCheckin(c);
      assert points == points0;
      if u !in points {
        // `ptsRes.rows[0].total` throws on an empty result: the upsert above stays applied
        return Failure(ServerError);
      }
      // Math.round of an integer score is the score itself
      var totalPoints := AddPoints(u, score);
      ghost var points1 := points;
      assert points1 == points0[u := points0[u] + score];
      var unlocked := AwardBadges(u, score, date);
      assert points == points1;
      res := Success(CheckinReply(totalPoints, unlocked));
    }

    /** The check-in upsert: `ON CONFLICT (user_id, date) DO UPDATE`. */
    method StoreCheckin(c: Checkin)
      requires KeysUnique(checkins, CheckinKey)
      modifies this`checkins
      ensures KeysUnique(checkins, CheckinKey)
      ensures checkins == UpsertCheckin(old(checkins), c)
    {
      UpsertKeepsKeysUnique(checkins, c);
      checkins := UpsertCheckin(checkins, c);
    }

    /** `UPDATE points SET total = total + delta ... RETURNING total`. */
    method AddPoints(u: UserId, delta: int) returns (total: int)
      requires u in points
      modifies this`points
      ensures points == old(points)[u := old(points)[u] + delta]
      ensures total == points[u]
    {
      points := points[u := points[u] + delta];
      total := points[u];
    }

    /** The two badge rules of the check-in handler, run after the upsert and the points update:
        each checks its condition, checks the badge is not already held, inserts it and reports it. */
    method AwardBadges(u: UserId, score: int, date: Day) returns (unlocked: seq<string>)
      requires NoDuplicates(badges)
      modifies this`badges
      ensures NoDuplicates(badges)
      ensures unlocked == NewBadges(old(badges), u, score, OneWeekEligible(checkins, u, date))
      ensures badges == old(badges) + BadgeRows(u, unlocked)
    {
      ghost var before := badges;
      unlocked := [];
      if score == PERFECT_SCORE {
        if !Holds(badges, u, PERFECT_DAY) {
          badges := badges + [Badge(u, PERFECT_DAY)];
          unlocked := unlocked + [PERFECT_DAY];
        }
      }
      var streak := Recent(checkins, u, date, STREAK_LENGTH);
      var eligible := |streak| == STREAK_LENGTH && forall i :: 0 <= i < |streak| ==> streak[i].score >= STREAK_SCORE;
      assert eligible == OneWeekEligible(checkins, u, date);
      if eligible {
        assert Holds(badges, u, ONE_WEEK) == Holds(before, u, ONE_WEEK);
        if !Holds(badges, u, ONE_WEEK) {
          badges := badges + [Badge(u, ONE_WEEK)];
          unlocked := unlocked + [ONE_WEEK];
        }
      }
      assert unlocked == NewBadges(before, u, score, eligible);
      assert badges == before + BadgeRows(u, unlocked);
      AwardKeepsBadgesUnique(before, u, score, eligible);
    }

    /** `POST /api/todos`: a new todo for the caller, with `dueDate || null` and `priority || 0`. */
    method CreateTodo(u: UserId, text: string, dueDate: string, priority: Option<int>) returns (res: Result<Todo, Error>)
      requires Valid()
      modifies this`todos, this`nextTodoId
      ensures Valid()
      ensures users == old(users) && points == old(points) && habits == old(habits)
      ensures checkins == old(checkins) && badges == old(badges)
      ensures text == "" ==> res == Failure(TextRequired) && unchanged(this)
      ensures text != "" ==>
                && res == Success(NewTodo(old(nextTodoId), u, text, dueDate, priority))
                && todos == old(todos) + [res.value]
                && nextTodoId == old(nextTodoId) + 1
    {
      if text == "" {
        return Failure(TextRequired);
      }
      var t := NewTodo(nextTodoId, u, text, dueDate, priority);
      todos := todos + [t];
      nextTodoId := nextTodoId + 1;
      res := Success(t);
    }

    /** `PATCH /api/todos/:id`: updates the caller's todo with that id, field by field. */
    method PatchTodo(u: UserId, id: int, text: string, done: DoneField, dueDate: string, priority: Option<int>)
      returns (res: Result<Todo, Error>)
      requires Valid()
      modifies this`todos
      ensures Valid()
      ensures users == old(users) && points == old(points) && habits == old(habits)
      ensures checkins == old(checkins) && badges == old(badges)
      ensures nextTodoId == old(nextTodoId)
      ensures FindTodo(old(todos), id, u).None? ==> res == Failure(NotFound) && todos == old(todos)
      ensures FindTodo(old(todos), id, u).Some? ==>
                var k := FindTodo(old(todos), id, u).value;
                && res == Success(Patched(old(todos)[k], text, done, dueDate, priority))
                && todos == old(todos)[k := res.value]
    {
      var found := FindTodo(todos, id, u);
      if found.None? {
        return Failure(NotFound);
      }
      var k := found.value;
      var t := Patched(todos[k], text, done, dueDate, priority);
      todos := todos[k := t];
      res := Success(t);
    }

    /** `DELETE /api/todos/:id`: removes the caller's todo with that id, if any; always ok. */
    method DeleteTodo(u: UserId, id: int) returns (ok: bool)
      requires Valid()
      modifies this`todos
      ensures Valid()
      ensures users == old(users) && points == old(points) && habits == old(habits)
      ensures checkins == old(checkins) && badges == old(badges)
      ensures ok
      ensures forall t :: t in todos <==> t in old(todos) && !(t.id == id && t.userId == u)
      ensures todos == Filter(old(todos), KeptByDelete(u, id))
    {
      DeleteKeepsTodosValid(todos, nextTodoId, u, id);
      todos := Filter(todos, KeptByDelete(u, id));
      ok := true;
    }
  }

  /** The signup handler's `forEach` over the catalogue: one habit row per entry, in catalogue
      order, with consecutive ids from `firstId`. */
  method CloneHabits(uid: UserId, firstId: int, hs: seq<Catalog.Habit>) returns (rows: seq<HabitRow>)
    ensures rows == CatalogueRows(uid, firstId, hs)
    ensures |rows| == |hs|
    ensures forall k :: 0 <= k < |rows| ==> rows[k].id == firstId + k && rows[k].userId == uid
  {
    rows := [];
    var i := 0;
    while i < |hs|
      invariant 0 <= i <= |hs|
      invariant |rows| == i
      invariant forall k :: 0 <= k < i ==> rows[k] == HabitRow(firstId + k, uid, hs[k].key, hs[k].title, hs[k].emoji)
    {
      var h := hs[i];
      rows := rows + [HabitRow(firstId + i, uid, h.key, h.title, h.emoji)];
      i := i + 1;
    }
  }

  // ---------- table constraints ----------

  /** Unique emails; user ids ascending in insertion order and below the next id. */
  ghost predicate UsersValid(users: seq<User>, nextUserId: int) {
    && KeysUnique(users, EmailOf)
    && StrictlyAscending(users, UserIdOf)
    && (forall x :: x in users ==> x.id < nextUserId)
  }

  /** Habit ids ascending in insertion order and below the next id; owners are existing ids. */
  ghost predicate HabitsValid(habits: seq<HabitRow>, nextUserId: int, nextHabitId: int) {
    && StrictlyAscending(habits, HabitId)
    && (forall h :: h in habits ==> h.userId < nextUserId && h.id < nextHabitId)
  }

  /** Todo ids ascending in insertion order and below the next id. */
  ghost predicate TodosValid(todos: seq<Todo>, nextTodoId: int) {
    && StrictlyAscending(todos, TodoId)
    && (forall t :: t in todos ==> t.id < nextTodoId)
  }

  lemma SignupKeepsUsersValid(users: seq<User>, user: User)
    requires UsersValid(users, user.id)
    requires !EmailTaken(users, user.email)
    ensures UsersValid(users + [user], user.id + 1)
  {
    NewEmailKeepsEmailsUnique(users, user);
    NewIdKeepsIdsAscending(users, user);
  }

  lemma SignupKeepsHabitsValid(habits: seq<HabitRow>, rows: seq<HabitRow>, uid: UserId, firstId: int)
    requires HabitsValid(habits, uid, firstId)
    requires forall k :: 0 <= k < |rows| ==> rows[k].id == firstId + k && rows[k].userId == uid
    ensures HabitsValid(habits + rows, uid + 1, firstId + |rows|)
    ensures forall h :: h in habits ==> h.userId != uid
  {
    AppendAscending(habits, rows, firstId);
    forall h | h in habits + rows ensures h.userId < uid + 1 && h.id < firstId + |rows| {
      if h !in habits {
        var k :| 0 <= k < |rows| && rows[k] == h;
      }
    }
  }

  lemma DeleteKeepsTodosValid(todos: seq<Todo>, nextTodoId: int, u: UserId, id: int)
    requires TodosValid(todos, nextTodoId)
    ensures TodosValid(Filter(todos, KeptByDelete(u, id)), nextTodoId)
  {
    FilterAscending(todos, KeptByDelete(u, id), TodoId);
  }

  lemma NewEmailKeepsEmailsUnique(users: seq<User>, user: User)
    requires KeysUnique(users, EmailOf)
    requires !EmailTaken(users, user.email)
    ensures KeysUnique(users + [user], EmailOf)
  {
    var all := users + [user];
    forall i, j | 0 <= i < j < |all| ensures EmailOf(all[i]) != EmailOf(all[j]) {
      if j == |users| {
        assert all[i] == users[i];
      } else {
        assert all[i] == users[i] && all[j] == users[j];
      }
    }
  }

  lemma NewIdKeepsIdsAscending(users: seq<User>, user: User)
    requires StrictlyAscending(users, UserIdOf)
    requires forall x :: x in users ==> x.id < user.id
    ensures StrictlyAscending(users + [user], UserIdOf)
  {
    var all := users + [user];
    forall i, j | 0 <= i < j < |all| ensures UserIdOf(all[i]) < UserIdOf(all[j]) {
      assert all[i] == users[i];
      if j < |users| {
        assert all[j] == users[j];
      }
    }
  }

  /** Appending rows with consecutive ids from `firstId`, above every id present, keeps ids
      ascending. */
  lemma AppendAscending(rows: seq<HabitRow>, added: seq<HabitRow>, firstId: int)
    requires StrictlyAscending(rows, HabitId)
    requires forall h :: h in rows ==> h.id < firstId
    requires forall k :: 0 <= k < |added| ==> added[k].id == firstId + k
    ensures StrictlyAscending(rows + added, HabitId)
  {
    var all := rows + added;
    forall i, j | 0 <= i < j < |all| ensures HabitId(all[i]) < HabitId(all[j]) {
      if i < |rows| && j >= |rows| {
        assert all[i] in rows;
        assert all[j] == added[j - |rows|];
      } else if i >= |rows| {
        assert all[i] == added[i - |rows|] && all[j] == added[j - |rows|];
      }
    }
  }
}
