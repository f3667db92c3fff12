/** The state one categorizer instance keeps, and `addTaskToCategory`, the
    only operation that adds to the pending categories. */
module CategoryRegistry {
  import opened Wrappers
  import opened NameParser

  /** An opaque handle for a task function; task bodies are never inspected. */
  type BodyId = nat

  /** One call made to the saved `gulp.task`. `body` is `None` for the
      category tasks, which are registered without a function. */
  datatype Call = Call(name: string, deps: seq<string>, body: Option<BodyId>)

  /** The closure state of one instance: the separator, the pending categories
      (category name to its members, in the order they were added), the names
      of the tasks registered through `task`, and every call made to the saved
      `gulp.task`, oldest first. */
  datatype State = State(
    sep: Separator,
    pending: map<string, seq<string>>,
    taskNames: seq<string>,
    log: seq<Call>)

  /** The error `addTaskToCategory` throws: `member` could not be added to
      `category` because a task named `category` already exists. */
  datatype Conflict = NamingConflict(category: string, member: string)

  /** What a successful `addTaskToCategory` returns, with the state after it. */
  datatype Added = Added(added: bool, state: State)

  predicate NoDuplicates(xs: seq<string>) {
    forall i, j :: 0 <= i < j < |xs| ==> xs[i] != xs[j]
  }

  /** The members recorded for `category`, empty if it is not pending. */
  function Members(s: State, category: string): seq<string> {
    if category in s.pending then s.pending[category] else []
  }

  /** What every reachable state satisfies: no pending category is also the
      name of a registered task, and every member list is non-empty and free
      of duplicates. */
  ghost predicate Valid(s: State) {
    && (forall c :: c in s.pending ==> c !in s.taskNames)
    && (forall c :: c in s.pending ==> s.pending[c] != [] && NoDuplicates(s.pending[c]))
  }

  /** Creating an instance: the `categorySeparator` option (absent or empty
      means ":"), nothing pending, nothing registered. */
  function Create(categorySeparator: Option<string>): (s: State)
    ensures Valid(s)
    ensures s.pending == map[] && s.taskNames == [] && s.log == []
    ensures categorySeparator.Some? && categorySeparator.value != [] ==> s.sep == categorySeparator.value
    ensures categorySeparator.None? || categorySeparator.value == [] ==> s.sep == ":"
  {
    State(SeparatorOf(categorySeparator), map[], [], [])
  }

  /** `addTaskToCategory(category, member)`. It throws when a task named
      `category` has been registered, whether or not `member` is already
      there; otherwise it appends `member` to the category's list (creating
      it) and answers true, or answers false and changes nothing when
      `member` is already listed. */
  function AddTaskToCategory(s: State, category: string, member: string): (r: Result<Added, Conflict>)
    ensures r.Failure? <==> category in s.taskNames
    ensures r.Failure? ==> r.error == NamingConflict(category, member)
    ensures r.Success? ==> (r.value.added <==> member !in Members(s, category))
    ensures r.Success? && !r.value.added ==> r.value.state == s
    ensures r.Success? && r.value.added ==>
      r.value.state == s.(pending := s.pending[category := Members(s, category) + [member]])
  {
    if category in s.taskNames then
      Failure(NamingConflict(category, member))
    else if category !in s.pending then
      assert Members(s, category) + [member] == [member];
      Success(Added(true, s.(pending := s.pending[category := [member]])))
    else if member !in s.pending[category] then
      Success(Added(true, s.(pending := s.pending[category := s.pending[category] + [member]])))
    else
      Success(Added(false, s))
  }

  /** A successful add leaves `member` listed under `category`, keeps every
      other list as it was and every list extended at most at its end, and
      preserves `Valid`. */
  lemma AddTaskToCategoryValid(s: State, category: string, member: string)
    requires Valid(s)
    requires AddTaskToCategory(s, category, member).Success?
    ensures var t := AddTaskToCategory(s, category, member).value.state;
      && Valid(t)
      && category in t.pending && member in t.pending[category]
      && t.taskNames == s.taskNames && t.log == s.log && t.sep == s.sep
      && (forall c :: c in s.pending ==> c in t.pending && s.pending[c] <= t.pending[c])
      && (forall c :: c in t.pending && c != category ==> c in s.pending && t.pending[c] == s.pending[c])
  {
    var t := AddTaskToCategory(s, category, member).value.state;
    if member !in Members(s, category) {
      var before := Members(s, category);
      var xs := before + [member];
      assert t.pending[category] == xs;
      forall i, j | 0 <= i < j < |xs|
        ensures xs[i] != xs[j]
      {
        if j == |xs| - 1 {
          assert xs[i] == before[i];
        } else {
          assert xs[i] == before[i] && xs[j] == before[j];
        }
      }
    }
  }

  /** Adding the same member twice: the second add answers false and changes
      nothing, also when the first one created the category. */
  lemma AddTaskToCategoryIdempotent(s: State, category: string, member: string)
    requires AddTaskToCategory(s, category, member).Success?
    ensures var t := AddTaskToCategory(s, category, member).value.state;
      AddTaskToCategory(t, category, member) == Success(Added(false, t))
  {
  }
}
