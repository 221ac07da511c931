/** The dashboard script's pure formulas and list operations: the day's percentage score over
    the catalogue, the points a finished day earns, the missed-habit list with its suggestions,
    the per-day check map, the date-seeded daily challenge, and the weekly score log with its
    seven-day chart projection. Dates are ISO day keys ("2024-05-01"); which key is "today" and
    the keys of the days before it come from the caller. */
module Browser {
  import opened Wrappers
  import opened Seqs
  import opened Catalog

  // ---------- rounding ----------

  /** `Math.round(n / d)` for a positive `d`: the nearest integer, a half rounded up. */
  function RoundDiv(n: int, d: int): (r: int)
    requires d > 0
    ensures 2 * d * r <= 2 * n + d < 2 * d * r + 2 * d
  {
    (2 * n + d) / (2 * d)
  }

  lemma RoundDivMonotone(n1: int, n2: int, d: int)
    requires d > 0 && n1 <= n2
    ensures RoundDiv(n1, d) <= RoundDiv(n2, d)
  {
    var r1, r2 := RoundDiv(n1, d), RoundDiv(n2, d);
    assert 2 * d * r1 < 2 * d * (r2 + 1);
    MulCancel(2 * d, r1, r2 + 1);
  }

  lemma MulCancel(k: int, a: int, b: int)
    requires k > 0 && k * a < k * b
    ensures a < b
  {
    MulMonotone(k, b, a);
  }

  lemma MulMonotone(k: int, x: int, y: int)
    requires k >= 0
    ensures x <= y ==> k * x <= k * y
  {
    assert k * y - k * x == k * (y - x);
  }

  // ---------- the per-day check map (localStorage "habit_today_checks") ----------

  /** Day key to (habit key to checked). */
  type AllChecks = map<string, map<string, bool>>

  /** `getTodayCheck`: false unless the day and the key are both present and set. */
  function TodayCheck(all: AllChecks, today: string, key: string): (b: bool)
    ensures b ==> today in all && key in all[today]
  {
    today in all && key in all[today] && all[today][key]
  }

  function DayOf(all: AllChecks, today: string): map<string, bool> {
    if today in all then all[today] else map[]
  }

  /** `setTodayCheck`: `all[today] = all[today] || {}; all[today][key] = !!value`. */
  function SetCheck(all: AllChecks, today: string, key: string, value: bool): (r: AllChecks)
    ensures TodayCheck(r, today, key) == value
    ensures forall d :: d != today ==> (d in r <==> d in all)
    ensures forall d :: d != today && d in all ==> r[d] == all[d]
  {
    all[today := DayOf(all, today)[key := value]]
  }

  /** Setting a check changes what `getTodayCheck` reports for that day and key only. */
  lemma SetCheckChangesOnlyThatCheck(all: AllChecks, today: string, key: string, value: bool, d: string, k: string)
    ensures TodayCheck(SetCheck(all, today, key, value), d, k) ==
            if d == today && k == key then value else TodayCheck(all, d, k)
    ensures d != today ==> (d in SetCheck(all, today, key, value) <==> d in all)
    ensures d != today && d in all ==> SetCheck(all, today, key, value)[d] == all[d]
  {
  }

  /** The clear handler's `forEach` over the catalogue, as successive `setTodayCheck(key, false)`. */
  function ClearChecks(all: AllChecks, today: string, hs: seq<Habit>): (r: AllChecks)
    ensures forall d :: d != today ==> (d in r <==> d in all)
    ensures forall d :: d != today && d in all ==> r[d] == all[d]
  {
    if hs == [] then all
    else SetCheck(ClearChecks(all, today, hs[..|hs| - 1]), today, hs[|hs| - 1].key, false)
  }

  /** Clearing unchecks every listed habit for today and leaves every other check as it was. */
  lemma {:induction false} ClearUnchecksExactly(all: AllChecks, today: string, hs: seq<Habit>)
    ensures forall h :: h in hs ==> !TodayCheck(ClearChecks(all, today, hs), today, h.key)
    ensures forall d, k :: d != today || k !in Keys(hs) ==>
              TodayCheck(ClearChecks(all, today, hs), d, k) == TodayCheck(all, d, k)
  {
    if hs != [] {
      var init := hs[..|hs| - 1];
      var last := hs[|hs| - 1];
      ClearUnchecksExactly(all, today, init);
      var before := ClearChecks(all, today, init);
      forall h | h in hs ensures !TodayCheck(ClearChecks(all, today, hs), today, h.key) {
        SetCheckChangesOnlyThatCheck(before, today, last.key, false, today, h.key);
        if h != last {
          assert h in init by {
            var i :| 0 <= i < |hs| && hs[i] == h;
            assert i < |hs| - 1 && init[i] == h;
          }
        }
      }
      forall d, k | d != today || k !in Keys(hs)
        ensures TodayCheck(ClearChecks(all, today, hs), d, k) == TodayCheck(all, d, k)
      {
        SetCheckChangesOnlyThatCheck(before, today, last.key, false, d, k);
        if k !in Keys(hs) {
          assert k != last.key by {
            assert hs[|hs| - 1].key == last.key;
          }
          assert Keys(init) <= Keys(hs) by {
            forall x | x in Keys(init) ensures x in Keys(hs) {
              var i :| 0 <= i < |init| && init[i].key == x;
              assert hs[i].key == x;
            }
          }
        }
      }
    }
  }

  // ---------- the day's score ----------

  function IsChecked(all: AllChecks, today: string): Habit -> bool {
    (h: Habit) => TodayCheck(all, today, h.key)
  }

  function IsMissed(all: AllChecks, today: string): Habit -> bool {
    (h: Habit) => !TodayCheck(all, today, h.key)
  }

  /** The number of habits of the catalogue `hs` checked today. */
  function DoneCount(hs: seq<Habit>, all: AllChecks, today: string): (n: nat)
    ensures n <= |hs|
  {
    |Filter(hs, IsChecked(all, today))|
  }

  /** `Math.round(done / total * 100)`: a share as a rounded percentage. */
  function Percent(done: nat, total: nat): (pct: int)
    requires 0 < total && done <= total
    ensures 0 <= pct <= 100
    ensures done == total ==> pct == 100
    ensures total < 200 && done < total ==> pct < 100
  {
    PercentBounds(done, total);
    RoundDiv(done * 100, total)
  }

  lemma PercentBounds(done: nat, total: nat)
    requires 0 < total && done <= total
    ensures 0 <= RoundDiv(done * 100, total) <= 100
    ensures done == total ==> RoundDiv(done * 100, total) == 100
    ensures total < 200 && done < total ==> RoundDiv(done * 100, total) < 100
  {
    var r := RoundDiv(done * 100, total);
    var k := 2 * total;
    assert k * r <= 200 * done + total && 200 * done + total < k * r + k;
    assert k * r < k * 101 by {
      assert k * 101 == 202 * total;
    }
    MulCancel(k, r, 101);
    assert k * (-1) < k * r by {
      assert k * (r + 1) == k * r + k;
      assert k * (-1) == -k;
    }
    MulCancel(k, -1, r);
    if done == total {
      assert k * 100 < k * (r + 1) by {
        assert k * (r + 1) == k * r + k;
        assert k * 100 == 200 * total;
      }
      MulCancel(k, 100, r + 1);
    }
    if total < 200 && done < total {
      assert k * r < k * 100 by {
        assert k * 100 == 200 * total;
      }
      MulCancel(k, r, 100);
    }
  }

  /** `updateTodayScore`: the percentage of the catalogue `hs` checked today. */
  function TodayScore(hs: seq<Habit>, all: AllChecks, today: string): (pct: int)
    requires hs != []
    ensures 0 <= pct <= 100
  {
    Percent(DoneCount(hs, all, today), |hs|)
  }

  /** A 100% day is exactly a day with every habit checked (for a catalogue of fewer than 200
      habits; from 200 on, one habit short still rounds to 100). */
  lemma PerfectScoreIffAllChecked(hs: seq<Habit>, all: AllChecks, today: string)
    requires 0 < |hs| < 200
    ensures TodayScore(hs, all, today) == 100 <==> forall h :: h in hs ==> TodayCheck(all, today, h.key)
  {
    FilterKeepsAll(hs, IsChecked(all, today));
  }

  // ---------- finishing the day ----------

  /** The finish handler's missed list: the habits left unchecked. */
  function MissedHabits(hs: seq<Habit>, all: AllChecks, today: string): (missed: seq<Habit>)
    ensures forall h :: h in missed <==> h in hs && !TodayCheck(all, today, h.key)
    ensures Subsequence(missed, hs)
  {
    FilterIsSubsequence(hs, IsMissed(all, today));
    Filter(hs, IsMissed(all, today))
  }

  /** Missed and done habits split the catalogue, and nothing is missed exactly on a 100% day. */
  lemma MissedComplementsDone(hs: seq<Habit>, all: AllChecks, today: string)
    requires 0 < |hs| < 200
    ensures |MissedHabits(hs, all, today)| + DoneCount(hs, all, today) == |hs|
    ensures MissedHabits(hs, all, today) == [] <==> TodayScore(hs, all, today) == 100
  {
    FilterPartition(hs, IsChecked(all, today), IsMissed(all, today));
    PerfectScoreIffAllChecked(hs, all, today);
  }

  /** For the fourteen-habit catalogue: a 100% day is exactly one with every habit checked. */
  lemma CataloguePerfectDay(all: AllChecks, today: string)
    ensures TodayScore(HABITS, all, today) == 100 <==> forall h :: h in HABITS ==> TodayCheck(all, today, h.key)
    ensures MissedHabits(HABITS, all, today) == [] <==> TodayScore(HABITS, all, today) == 100
  {
    CatalogueSize();
    MissedComplementsDone(HABITS, all, today);
  }

  datatype Tip = Tip(title: string, text: string)

  const FALLBACK_TEXT := "Try again tomorrow."

  const SUGGESTIONS: map<string, Tip> := map[
    "exercise" := Tip("Move a bit", "Try 5 min walk or stretching now. 💪"),
    "sleep" := Tip("Sleep tip", "Wind down 30 min before bed; avoid screens. 🌙"),
    "water" := Tip("Hydration", "Keep a bottle nearby and sip regularly. 💧"),
    "walk" := Tip("Walk more", "Take the stairs or a short walk during break. 🚶‍♀️"),
    "meal" := Tip("Healthy meal", "Add a colorful salad or fruit to your plate. 🥗"),
    "meditate" := Tip("Breathe", "Try 5 deep breaths or a quick guided session. 🧘"),
    "screen" := Tip("Screen break", "Use Pomodoro: 25/5 to limit screen fatigue. ⏳"),
    "study" := Tip("Tiny focus", "Set 25min focused session and a small reward. 📖"),
    "nojunk" := Tip("Snack swap", "Replace chips with nuts or fruit. 🍎"),
    "reusable" := Tip("Be ready", "Keep reusable bag/bottle near door. ♻️"),
    "segregate" := Tip("Sort waste", "Start two bins: wet & dry. 🗂️"),
    "savepower" := Tip("Power tip", "Unplug chargers and turn off lights when not in use. 🔌"),
    "noPlastic" := Tip("Plastic-free", "Use cloth or paper alternatives. 🌱"),
    "compost" := Tip("Compost", "Collect kitchen scraps for composting. 🧺")
  ]

  /** `SUGGESTIONS[m.key] || {title: m.title, text: 'Try again tomorrow.'}`. */
  function SuggestionFor(h: Habit): (tip: Tip)
    ensures h in HABITS ==> h.key in SUGGESTIONS && tip == SUGGESTIONS[h.key]
    ensures h.key !in SUGGESTIONS ==> tip.title == h.title && tip.text == FALLBACK_TEXT
  {
    if h.key in SUGGESTIONS then SUGGESTIONS[h.key] else Tip(h.title, FALLBACK_TEXT)
  }

  /** One suggestion per missed habit, in the missed list's order. */
  function Suggestions(missed: seq<Habit>): (tips: seq<Tip>)
    ensures |tips| == |missed|
    ensures forall i :: 0 <= i < |missed| ==> tips[i] == SuggestionFor(missed[i])
  {
    if missed == [] then [] else [SuggestionFor(missed[0])] + Suggestions(missed[1..])
  }

  const POINTS_PER_HABIT := 10

  /** The finish handler's `Math.round(pct / 100 * (14 * 10))`. */
  function PointsEarned(pct: int): (earned: int)
    ensures 0 <= pct ==> 0 <= earned
    ensures pct <= 100 ==> earned <= HABIT_COUNT * POINTS_PER_HABIT
  {
    RoundDiv(pct * (HABIT_COUNT * POINTS_PER_HABIT), 100)
  }

  lemma PointsEarnedValues()
    ensures PointsEarned(100) == 140 && PointsEarned(50) == 70 && PointsEarned(0) == 0
  {
  }

  /** A higher percentage never earns fewer points. */
  lemma PointsEarnedMonotone(pct1: int, pct2: int)
    requires pct1 <= pct2
    ensures PointsEarned(pct1) <= PointsEarned(pct2)
  {
    RoundDivMonotone(pct1 * (HABIT_COUNT * POINTS_PER_HABIT), pct2 * (HABIT_COUNT * POINTS_PER_HABIT), 100);
  }

  /** `badges.includes(name)` guarding `badges.push(name)`. */
  function AddBadge(badges: seq<string>, name: string): (r: seq<string>)
    ensures forall b :: b in r <==> b in badges || b == name
    ensures NoDuplicates(badges) ==> NoDuplicates(r)
    ensures |badges| <= |r| <= |badges| + 1 && r[..|badges|] == badges
  {
    if name in badges then badges else badges + [name]
  }

  // ---------- the daily challenge ----------

  const DAILY: seq<string> := [
    "Walk 20 minutes 🚶",
    "No sugary drinks today 🚫🥤",
    "Screen-free evening (1 hour) 📵",
    "Prepare a healthy meal 🥗",
    "10 minutes stretching 🧘",
    "Carry a reusable bottle ♻️",
    "Read 20 minutes 📚"
  ]

  /** The largest character code, that of the last Unicode code point. */
  const MAX_CHAR_CODE := 0x10FFFF

  /** The sum of the character codes of `s`. */
  function CharSum(s: string): (r: nat)
    ensures r <= |s| * MAX_CHAR_CODE
  {
    if s == [] then 0 else CharSum(s[..|s| - 1]) + s[|s| - 1] as int
  }

  /** `getDailyForDate`: the challenge indexed by the day key's character sum modulo 7. */
  method GetDailyForDate(key: string) returns (challenge: string)
    ensures challenge == DAILY[CharSum(key) % |DAILY|]
    ensures challenge in DAILY
  {
    var sum := 0;
    var i := 0;
    while i < |key|
      invariant 0 <= i <= |key|
      invariant sum == CharSum(key[..i])
    {
      assert key[..i + 1][..i] == key[..i];
      sum := sum + key[i] as int;
      i := i + 1;
    }
    assert key[..|key|] == key;
    challenge := DAILY[sum % |DAILY|];
  }

  // ---------- the weekly score log (localStorage "habit_weekly_scores") ----------

  datatype ScoreEntry = ScoreEntry(date: string, score: int)

  function EntryDate(e: ScoreEntry): string { e.date }

  const SCORE_LOG_CAP: nat := 28

  /** The score the log holds for `key`; with repeated dates the last entry wins, as when the
      entries are copied one by one into a dictionary. */
  function LastScore(log: seq<ScoreEntry>, key: string): (r: Option<int>)
    ensures r.None? <==> forall e :: e in log ==> e.date != key
    ensures r.Some? ==> ScoreEntry(key, r.value) in log
  {
    if log == [] then None
    else if log[|log| - 1].date == key then Some(log[|log| - 1].score)
    else
      assert forall e :: e in log ==> e in log[..|log| - 1] || e == log[|log| - 1];
      LastScore(log[..|log| - 1], key)
  }

  /** With one entry per date, the score for a date is the score of its entry. */
  lemma {:induction false} LastScoreOfUniqueDates(log: seq<ScoreEntry>, key: string, score: int)
    requires KeysUnique(log, EntryDate)
    requires ScoreEntry(key, score) in log
    ensures LastScore(log, key) == Some(score)
  {
    var init := log[..|log| - 1];
    if log[|log| - 1] != ScoreEntry(key, score) {
      var i :| 0 <= i < |log| && log[i] == ScoreEntry(key, score);
      assert EntryDate(log[i]) != EntryDate(log[|log| - 1]);
      assert init[i] == log[i];
      assert KeysUnique(init, EntryDate) by {
        forall a, b | 0 <= a < b < |init| ensures EntryDate(init[a]) != EntryDate(init[b]) {
          assert init[a] == log[a] && init[b] == log[b];
        }
      }
      LastScoreOfUniqueDates(init, key, score);
    }
  }

  /** `loadWeeklyScores`: the scores of the seven days ending today, oldest first, 0 for a day
      with no entry. `keyOf(n)` is the ISO key of day number `n`. */
  method LoadWeeklyScores(log: seq<ScoreEntry>, today: int, keyOf: int -> string) returns (week: seq<int>)
    ensures |week| == 7
    ensures forall j :: 0 <= j < 7 ==> week[j] == LastScore(log, keyOf(today - 6 + j)).GetOr(0)
  {
    var byDate := ScoresByDate(log);
    week := [];
    var back := 6;
    while back >= 0
      invariant -1 <= back <= 6
      invariant |week| == 6 - back
      invariant forall j :: 0 <= j < |week| ==> week[j] == LastScore(log, keyOf(today - 6 + j)).GetOr(0)
    {
      var key := keyOf(today - back);
      week := week + [if key in byDate then byDate[key] else 0];
      back := back - 1;
    }
  }

  /** `raw.forEach(r => map[r.date] = r.score)`: a later entry overwrites an earlier one. */
  method ScoresByDate(log: seq<ScoreEntry>) returns (byDate: map<string, int>)
    ensures forall k :: k in byDate <==> LastScore(log, k).Some?
    ensures forall k :: k in byDate ==> byDate[k] == LastScore(log, k).value
  {
    byDate := map[];
    var i := 0;
    while i < |log|
      invariant 0 <= i <= |log|
      invariant forall k :: k in byDate <==> LastScore(log[..i], k).Some?
      invariant forall k :: k in byDate ==> byDate[k] == LastScore(log[..i], k).value
    {
      assert log[..i + 1][..i] == log[..i];
      byDate := byDate[log[i].date := log[i].score];
      i := i + 1;
    }
    assert log[..|log|] == log;
  }

  /** `saveDailyScore` on the stored log: replace today's entry or append one, then drop entries
      from the front until at most 28 remain. */
  function SavedScores(log: seq<ScoreEntry>, key: string, score: int): (r: seq<ScoreEntry>)
    ensures |r| <= SCORE_LOG_CAP
  {
    KeepNewest(Upsert(log, ScoreEntry(key, score), EntryDate), SCORE_LOG_CAP)
  }

  method SaveScore(log: seq<ScoreEntry>, key: string, score: int) returns (saved: seq<ScoreEntry>)
    ensures saved == SavedScores(log, key, score)
  {
    var entry := ScoreEntry(key, score);
    var idx := FindDate(log, key);
    if idx < |log| {
      UpsertAt(log, entry, EntryDate, idx);
      saved := log[idx := entry];
    } else {
      UpsertAppends(log, entry, EntryDate);
      saved := log + [entry];
    }
    saved := DropOldest(saved, SCORE_LOG_CAP);
  }

  /** `while (raw.length > cap) raw.shift()`. */
  method DropOldest(s: seq<ScoreEntry>, cap: nat) returns (r: seq<ScoreEntry>)
    ensures r == KeepNewest(s, cap)
  {
    r := s;
    while |r| > cap
      invariant |r| >= Min(cap, |s|)
      invariant r == s[|s| - |r|..]
    {
      r := r[1..];
    }
  }

  /** `findIndex(r => r.date === key)`, with "not found" as `|log|`. */
  method FindDate(log: seq<ScoreEntry>, key: string) returns (idx: nat)
    ensures idx <= |log|
    ensures forall k :: 0 <= k < idx ==> log[k].date != key
    ensures idx < |log| ==> log[idx].date == key
  {
    idx := 0;
    while idx < |log| && log[idx].date != key
      invariant 0 <= idx <= |log|
      invariant forall k :: 0 <= k < idx ==> log[k].date != key
    {
      idx := idx + 1;
    }
  }

  lemma SuffixKeepsKeysUnique(s: seq<ScoreEntry>, m: nat)
    requires m <= |s| && KeysUnique(s, EntryDate)
    ensures KeysUnique(s[m..], EntryDate)
  {
    forall a, b | 0 <= a < b < |s[m..]| ensures EntryDate(s[m..][a]) != EntryDate(s[m..][b]) {
      assert s[m..][a] == s[m + a] && s[m..][b] == s[m + b];
    }
  }

  /** A log with at most 28 entries and one entry per date, as `saveDailyScore` keeps it, ends
      with exactly one entry for today, holding the new score. */
  lemma SaveLeavesOneEntryForToday(log: seq<ScoreEntry>, key: string, score: int)
    requires |log| <= SCORE_LOG_CAP && KeysUnique(log, EntryDate)
    ensures KeysUnique(SavedScores(log, key, score), EntryDate)
    ensures ScoreEntry(key, score) in SavedScores(log, key, score)
    ensures forall e :: e in SavedScores(log, key, score) && e.date == key ==> e == ScoreEntry(key, score)
    ensures LastScore(SavedScores(log, key, score), key) == Some(score)
  {
    var saved := SavedScores(log, key, score);
    SaveKeepsDatesUnique(log, key, score);
    SaveKeepsEntry(log, key, score);
    LastScoreOfUniqueDates(saved, key, score);
  }

  /** Saving keeps one entry per date, and today's entry is the new one. */
  lemma SaveKeepsDatesUnique(log: seq<ScoreEntry>, key: string, score: int)
    requires KeysUnique(log, EntryDate)
    ensures KeysUnique(SavedScores(log, key, score), EntryDate)
    ensures forall e :: e in SavedScores(log, key, score) && e.date == key ==> e == ScoreEntry(key, score)
  {
    var up := Upsert(log, ScoreEntry(key, score), EntryDate);
    var saved := SavedScores(log, key, score);
    var m := |up| - |saved|;
    assert saved == up[m..];
    UpsertSpec(log, ScoreEntry(key, score), EntryDate);
    SuffixKeepsKeysUnique(up, m);
    forall e | e in saved && e.date == key ensures e == ScoreEntry(key, score) {
      var i :| 0 <= i < |saved| && saved[i] == e;
      assert up[m + i] == e;
      assert e in up;
    }
  }

  /** Under the cap, the new entry survives the trimming. */
  lemma SaveKeepsEntry(log: seq<ScoreEntry>, key: string, score: int)
    requires |log| <= SCORE_LOG_CAP
    ensures ScoreEntry(key, score) in SavedScores(log, key, score)
  {
    var entry := ScoreEntry(key, score);
    var up := Upsert(log, entry, EntryDate);
    var saved := SavedScores(log, key, score);
    if |up| > SCORE_LOG_CAP {
      SaveAppendsAtCap(log, key, score);
      assert saved[|saved| - 1] == entry;
    } else {
      assert saved == up;
    }
  }

  /** Under the cap, a log that already holds today's entry has it replaced in its position. */
  lemma SaveReplacesInPlace(log: seq<ScoreEntry>, key: string, score: int, i: nat)
    requires |log| <= SCORE_LOG_CAP
    requires i < |log| && log[i].date == key
    requires forall k :: 0 <= k < i ==> log[k].date != key
    ensures SavedScores(log, key, score) == log[i := ScoreEntry(key, score)]
  {
    UpsertAt(log, ScoreEntry(key, score), EntryDate, i);
  }

  /** A log with no entry for today gets the entry appended, losing its oldest entry when it
      already held 28. */
  lemma SaveAppends(log: seq<ScoreEntry>, key: string, score: int)
    requires forall k :: 0 <= k < |log| ==> log[k].date != key
    ensures |log| < SCORE_LOG_CAP ==> SavedScores(log, key, score) == log + [ScoreEntry(key, score)]
    ensures |log| == SCORE_LOG_CAP ==> SavedScores(log, key, score) == log[1..] + [ScoreEntry(key, score)]
  {
    var entry := ScoreEntry(key, score);
    UpsertAppends(log, entry, EntryDate);
    if |log| == SCORE_LOG_CAP {
      assert (log + [entry])[1..] == log[1..] + [entry];
    }
  }

  /** Growing past the cap only happens by appending to a full log. */
  lemma SaveAppendsAtCap(log: seq<ScoreEntry>, key: string, score: int)
    requires |log| <= SCORE_LOG_CAP
    requires |Upsert(log, ScoreEntry(key, score), EntryDate)| > SCORE_LOG_CAP
    ensures Upsert(log, ScoreEntry(key, score), EntryDate) == log + [ScoreEntry(key, score)]
    ensures |log| == SCORE_LOG_CAP
  {
    var entry := ScoreEntry(key, score);
    UpsertGrowsOnlyByAppend(log, entry);
  }

  lemma {:induction false} UpsertGrowsOnlyByAppend(log: seq<ScoreEntry>, entry: ScoreEntry)
    requires |Upsert(log, entry, EntryDate)| == |log| + 1
    ensures Upsert(log, entry, EntryDate) == log + [entry]
  {
    if log != [] {
      UpsertGrowsOnlyByAppend(log[1..], entry);
      assert [log[0]] + (log[1..] + [entry]) == log + [entry];
    }
  }
}
