/** The dashboard's saved state, updated in place by its event handlers: the points total, the
    badge list, the weekly score log, the per-day check map and the daily-challenge record, each
    kept under its own localStorage key. The checkboxes on the page mirror the check map, so the
    handlers read today's checks from it. */
module Dashboard {
  import opened Seqs
  import opened Catalog
  import opened Browser

  const PERFECT_DAY := "Perfect Day"
  const DAILY_CHALLENGER := "Daily Challenger"
  /** The check-map key under which the daily challenge's checkbox is recorded. */
  const DAILY_CHALLENGE_KEY := "daily_challenge"

  /** localStorage "habit_daily_challenge"; `{}` reads as an empty date and text, not completed. */
  datatype DailyRecord = DailyRecord(date: string, text: string, completed: bool)

  class Dashboard {
    /** The page's `HABITS` list. */
    const habits: seq<Habit>
    var points: int
    var badges: seq<string>
    var scores: seq<ScoreEntry>
    var todayChecks: AllChecks
    var daily: DailyRecord

    /** No badge twice; the score log under its cap, with one entry per date. */
    ghost predicate Valid()
      reads this
    {
      && |habits| == HABIT_COUNT
      && NoDuplicates(badges)
      && |scores| <= SCORE_LOG_CAP
      && KeysUnique(scores, EntryDate)
    }

    /** Empty storage. */
    constructor ()
      ensures Valid()
      ensures habits == HABITS
      ensures points == 0 && badges == [] && scores == [] && todayChecks == map[]
      ensures daily == DailyRecord("", "", false)
    {
      habits := HABITS;
      CatalogueSize();
      points, badges, scores, todayChecks := 0, [], [], map[];
      daily := DailyRecord("", "", false);
    }

    /** `setTodayCheck(key, value)`. */
    method SetTodayCheck(today: string, key: string, value: bool)
      modifies this`todayChecks
      ensures todayChecks == SetCheck(old(todayChecks), today, key, value)
    {
      var day := if today in todayChecks then todayChecks[today] else map[];
      todayChecks := todayChecks[today := day[key := value]];
    }

    /** The clear handler: unchecks every catalogue habit for today. */
    method ClearToday(today: string)
      modifies this`todayChecks
      ensures todayChecks == ClearChecks(old(todayChecks), today, habits)
      ensures forall h :: h in habits ==> !TodayCheck(todayChecks, today, h.key)
      ensures forall d, k :: d != today || k !in Keys(habits) ==>
                TodayCheck(todayChecks, d, k) == TodayCheck(old(todayChecks), d, k)
    {
      var i := 0;
      while i < |habits|
        invariant 0 <= i <= |habits|
        invariant todayChecks == ClearChecks(old(todayChecks), today, habits[..i])
      {
        assert habits[..i + 1][..i] == habits[..i];
        SetTodayCheck(today, habits[i].key, false);
        i := i + 1;
      }
      assert habits[..|habits|] == habits;
      ClearUnchecksExactly(old(todayChecks), today, habits);
    }

    /** The finish handler: the missed list, "Perfect Day" when nothing is missed and it is not
        yet held, the earned points added to the total, and the day's score saved in the log. */
    method FinishDay(today: string) returns (missed: seq<Habit>, earned: int)
      requires Valid()
      modifies this`points, this`badges, this`scores
      ensures Valid()
      ensures missed == MissedHabits(habits, todayChecks, today)
      ensures earned == PointsEarned(TodayScore(habits, todayChecks, today))
      ensures points == old(points) + earned && old(points) <= points
      ensures badges == if missed == [] then AddBadge(old(badges), PERFECT_DAY) else old(badges)
      ensures scores == SavedScores(old(scores), today, TodayScore(habits, todayChecks, today))
    {
      missed := AwardPerfectDay(today);
      earned := AddEarnedPoints(today);
      SaveDailyScore(today, TodayScore(habits, todayChecks, today));
    }

    /** The finish handler's missed list and its "Perfect Day" rule. */
    method AwardPerfectDay(today: string) returns (missed: seq<Habit>)
      requires NoDuplicates(badges)
      modifies this`badges
      ensures NoDuplicates(badges)
      ensures missed == MissedHabits(habits, todayChecks, today)
      ensures badges == if missed == [] then AddBadge(old(badges), PERFECT_DAY) else old(badges)
    {
      missed := MissedHabits(habits, todayChecks, today);
      if |missed| == 0 {
        AwardOnce(PERFECT_DAY);
      }
    }

    /** The finish handler's `points += earned`, with `earned` from the displayed percentage. */
    method AddEarnedPoints(today: string) returns (earned: int)
      requires habits != []
      modifies this`points
      ensures earned == PointsEarned(TodayScore(habits, todayChecks, today))
      ensures points == old(points) + earned && old(points) <= points
    {
      var pct := TodayScore(habits, todayChecks, today);
      earned := PointsEarned(pct);
      points := points + earned;
    }

    /** `saveDailyScore(score)`: the log gets today's score, keeping one entry per date. */
    method SaveDailyScore(today: string, score: int)
      requires KeysUnique(scores, EntryDate)
      modifies this`scores
      ensures KeysUnique(scores, EntryDate) && |scores| <= SCORE_LOG_CAP
      ensures scores == SavedScores(old(scores), today, score)
    {
      SaveKeepsDatesUnique(scores, today, score);
      scores := SaveScore(scores, today, score);
    }

    /** `if (!badges.includes(name)) badges.push(name)`. */
    method AwardOnce(name: string)
      requires NoDuplicates(badges)
      modifies this`badges
      ensures NoDuplicates(badges)
      ensures badges == AddBadge(old(badges), name)
    {
      if name !in badges {
        badges := badges + [name];
      }
    }

    /** `renderDailyChallenge` at page load: a record stored for today with a text is kept and its
        completed flag is copied into the check map; otherwise today's challenge is stored, not
        completed, and the check map records it unchecked. */
    method RenderDailyChallenge(today: string)
      modifies this`daily, this`todayChecks
      ensures old(daily).date == today && old(daily).text != "" ==>
                daily == old(daily)
                && todayChecks == SetCheck(old(todayChecks), today, DAILY_CHALLENGE_KEY, old(daily).completed)
      ensures !(old(daily).date == today && old(daily).text != "") ==>
                daily == DailyRecord(today, DAILY[CharSum(today) % |DAILY|], false)
                && todayChecks == SetCheck(old(todayChecks), today, DAILY_CHALLENGE_KEY, false)
      ensures daily.date == today && daily.text in DAILY + [old(daily).text]
      ensures TodayCheck(todayChecks, today, DAILY_CHALLENGE_KEY) == daily.completed
    {
      if daily.date == today && daily.text != "" {
        SetTodayCheck(today, DAILY_CHALLENGE_KEY, daily.completed);
      } else {
        var text := GetDailyForDate(today);
        daily := DailyRecord(today, text, false);
        SetTodayCheck(today, DAILY_CHALLENGE_KEY, false);
      }
    }

    /** The daily-challenge checkbox handler: records today's date, keeps a stored challenge
        text or picks the date's challenge, records the checkbox, and awards "Daily Challenger"
        once when it is checked. */
    method DailyChallengeChange(today: string, checked: bool)
      requires Valid()
      modifies this`daily, this`todayChecks, this`badges
      ensures Valid()
      ensures daily.date == today && daily.completed == checked
      ensures old(daily).text != "" ==> daily.text == old(daily).text
      ensures old(daily).text == "" ==> daily.text == DAILY[CharSum(today) % |DAILY|]
      ensures todayChecks == SetCheck(old(todayChecks), today, DAILY_CHALLENGE_KEY, checked)
      ensures badges == if checked then AddBadge(old(badges), DAILY_CHALLENGER) else old(badges)
    {
      var text := daily.text;
      if text == "" {
        text := GetDailyForDate(today);
      }
      daily := DailyRecord(today, text, checked);
      SetTodayCheck(today, DAILY_CHALLENGE_KEY, checked);
      if checked {
        AwardOnce(DAILY_CHALLENGER);
      }
    }
  }

  /** The badge list only grows under both handlers, and neither adds a badge it already holds. */
  lemma AwardedBadgesStayUnique(badges: seq<string>, name: string)
    requires NoDuplicates(badges)
    ensures NoDuplicates(AddBadge(badges, name))
    ensures AddBadge(AddBadge(badges, name), name) == AddBadge(badges, name)
    ensures |AddBadge(badges, name)| == if name in badges then |badges| else |badges| + 1
  {
  }
}
