/** The task list's category chips and search box. */
module TasksView {
  import opened Base
  import opened JsText
  import opened TaskTypes
  import opened TaskStore

  /** The selected chip: every category, or one. */
  datatype CategoryChoice = All | Only(category: Category)

  predicate MatchesCategory(sel: CategoryChoice, t: Task) {
    sel == All || sel == Only(t.category)
  }

  /** The lower-cased query occurs in the lower-cased title, or in the
      lower-cased location when there is one. */
  predicate MatchesSearch(q: string, t: Task) {
    Includes(ToLower(t.title), ToLower(q)) ||
    (t.location.Some? && Includes(ToLower(t.location.value), ToLower(q)))
  }

  /** `filteredTasks`: the tasks of the chosen category whose title or
      location contains the query, in list order. */
  function FilterTasks(tasks: seq<Task>, sel: CategoryChoice, q: string): (r: seq<Task>)
    ensures forall t :: t in r <==> t in tasks && MatchesCategory(sel, t) && MatchesSearch(q, t)
    ensures IsSubsequence(r, tasks)
  {
    Filter(tasks, (t: Task) => MatchesCategory(sel, t) && MatchesSearch(q, t))
  }

  /** With every category and an empty query nothing is hidden. */
  lemma EmptyQueryKeepsAll(tasks: seq<Task>)
    ensures FilterTasks(tasks, All, "") == tasks
  {
    forall t: Task ensures MatchesSearch("", t) {
      IncludesEmpty(ToLower(t.title));
    }
    FilterAll(tasks, (t: Task) => MatchesCategory(All, t) && MatchesSearch("", t));
  }

  /** With one category and an empty query the list is the store's
      `getTasksByCategory`. */
  lemma EmptyQueryIsCategory(tasks: seq<Task>, c: Category)
    ensures FilterTasks(tasks, Only(c), "") == TasksByCategory(tasks, c)
  {
    forall t: Task ensures MatchesSearch("", t) {
      IncludesEmpty(ToLower(t.title));
    }
    FilterCongruent(tasks, (t: Task) => MatchesCategory(Only(c), t) && MatchesSearch("", t),
                    (t: Task) => t.category == c);
  }

  /** The search ignores the case of the query. */
  lemma SearchIgnoresQueryCase(tasks: seq<Task>, sel: CategoryChoice, q: string)
    ensures FilterTasks(tasks, sel, ToLower(q)) == FilterTasks(tasks, sel, q)
  {
    ToLowerIdempotent(q);
    FilterCongruent(tasks, (t: Task) => MatchesCategory(sel, t) && MatchesSearch(ToLower(q), t),
                    (t: Task) => MatchesCategory(sel, t) && MatchesSearch(q, t));
  }

  /** Typing more into the search box only hides tasks. */
  lemma LongerQueryNarrows(tasks: seq<Task>, sel: CategoryChoice, q: string, x: string, t: Task)
    requires t in FilterTasks(tasks, sel, q + x)
    ensures t in FilterTasks(tasks, sel, q)
  {
    ToLowerAppend(q, x);
    if Includes(ToLower(t.title), ToLower(q + x)) {
      IncludesPrefix(ToLower(t.title), ToLower(q), ToLower(x));
    } else {
      IncludesPrefix(ToLower(t.location.value), ToLower(q), ToLower(x));
    }
  }

  /** Filtering the filtered list again changes nothing. */
  lemma FilterTasksIdempotent(tasks: seq<Task>, sel: CategoryChoice, q: string)
    ensures FilterTasks(FilterTasks(tasks, sel, q), sel, q) == FilterTasks(tasks, sel, q)
  {
    FilterIdempotent(tasks, (t: Task) => MatchesCategory(sel, t) && MatchesSearch(q, t));
  }
}
