/** The fixed catalogue of fourteen trackable habits. The server clones it into every new
    account at signup and the browser dashboard renders and scores against the same list. */
module Catalog {

  datatype Habit = Habit(key: string, title: string, emoji: string)

  const HABITS: seq<Habit> := [
    Habit("exercise", "30 min Exercise", "🏃"),
    Habit("sleep", "7–8 hrs Sleep", "😴"),
    Habit("water", "Drink 2L Water", "💧"),
    Habit("walk", "Walk / Transport", "🚶"),
    Habit("meal", "Healthy Meal", "🥗"),
    Habit("meditate", "5-min Meditation", "🧘"),
    Habit("screen", "Limit Screen Time", "📵"),
    Habit("study", "Study / Learn 30m", "📚"),
    Habit("nojunk", "Avoid Junk Food", "🚫"),
    Habit("reusable", "Use Reusable Bottle/Bag", "🔁"),
    Habit("segregate", "Segregate Waste", "🗑️"),
    Habit("savepower", "Save Electricity", "💡"),
    Habit("noPlastic", "Avoid Plastic Bag", "🛍️"),
    Habit("compost", "Compost / Reduce Waste", "🌿")
  ]

  /** Number of habits in the catalogue. */
  const HABIT_COUNT: nat := 14

  function Keys(hs: seq<Habit>): (r: set<string>)
    ensures forall k :: k in r <==> exists i :: 0 <= i < |hs| && hs[i].key == k
  {
    if hs == [] then {} else {hs[0].key} + Keys(hs[1..])
  }

  /** The catalogue has fourteen habits. */
  lemma CatalogueSize()
    ensures |HABITS| == HABIT_COUNT
  {
  }

  /** No two catalogue habits share a key. */
  lemma CatalogueKeysDistinct()
    ensures forall i, j :: 0 <= i < j < |HABITS| ==> HABITS[i].key != HABITS[j].key
  {
  }
}
