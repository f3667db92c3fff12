/** `makeCategoryTasks`: registers every category still pending as a task
    whose dependencies are its members. */
module Finalizer {
  import opened Wrappers
  import opened CategoryRegistry

  /** The registration a pending category receives: its members as
      dependencies and no task function. */
  function CategoryCall(s: State, category: string): Call
    requires category in s.pending
  {
    Call(category, s.pending[category], None)
  }

  /** `emitted` holds one call per pending category and nothing else. */
  ghost predicate EmitsEachCategoryOnce(s: State, emitted: seq<Call>) {
    && |emitted| == |s.pending.Keys|
    && (forall i :: 0 <= i < |emitted| ==> emitted[i].name in s.pending && emitted[i] == CategoryCall(s, emitted[i].name))
    && (forall i, j :: 0 <= i < j < |emitted| ==> emitted[i].name != emitted[j].name)
    && (forall c :: c in s.pending ==> CategoryCall(s, c) in emitted)
  }

  /** `makeCategoryTasks()`. The object's keys are visited in an order the
      model leaves open: each round picks any category not yet visited. The
      pending categories and the task names are left as they were, so a
      second call registers the same categories again. */
  method MakeCategoryTasks(s: State) returns (t: State)
    ensures t.pending == s.pending && t.taskNames == s.taskNames && t.sep == s.sep
    ensures |t.log| == |s.log| + |s.pending.Keys| && t.log[..|s.log|] == s.log
    ensures EmitsEachCategoryOnce(s, t.log[|s.log|..])
  {
    var emitted: seq<Call> := [];
    var remaining := s.pending.Keys;
    while remaining != {}
      invariant remaining <= s.pending.Keys
      invariant |emitted| + |remaining| == |s.pending.Keys|
      invariant forall i :: 0 <= i < |emitted| ==>
        emitted[i].name in s.pending && emitted[i].name !in remaining && emitted[i] == CategoryCall(s, emitted[i].name)
      invariant forall i, j :: 0 <= i < j < |emitted| ==> emitted[i].name != emitted[j].name
      invariant forall c :: c in s.pending && c !in remaining ==> CategoryCall(s, c) in emitted
      decreases |remaining|
    {
      var category :| category in remaining;
      emitted := emitted + [CategoryCall(s, category)];
      remaining := remaining - {category};
    }
    t := s.(log := s.log + emitted);
    assert t.log[|s.log|..] == emitted;
    assert t.log[..|s.log|] == s.log;
  }

  /** Nothing drains the pending categories, so two runs over the same
      pending categories, in whatever order, make the same registrations. */
  lemma RepeatedRunsEmitTheSameCalls(s: State, s': State, first: seq<Call>, second: seq<Call>)
    requires s'.pending == s.pending
    requires EmitsEachCategoryOnce(s, first) && EmitsEachCategoryOnce(s', second)
    ensures forall x :: x in first <==> x in second
  {
    EmittedCallsCovered(s, s', first, second);
    EmittedCallsCovered(s', s, second, first);
  }

  lemma EmittedCallsCovered(s: State, s': State, first: seq<Call>, second: seq<Call>)
    requires s'.pending == s.pending
    requires forall i :: 0 <= i < |first| ==> first[i].name in s.pending && first[i] == CategoryCall(s, first[i].name)
    requires forall c :: c in s'.pending ==> CategoryCall(s', c) in second
    ensures forall x :: x in first ==> x in second
  {
    forall x | x in first
      ensures x in second
    {
      var i :| 0 <= i < |first| && first[i] == x;
      assert CategoryCall(s', first[i].name) in second;
    }
  }
}
