/** The registration sequence of tests/existing-category-depends.js, stated
    as lemmas about the model: two tasks under "a:b", then an explicit task "a" that
    takes over the pending category "a", then "a:e:f", which must fail. */
module Scenarios {
  import opened Wrappers
  import opened NameParser
  import opened CategoryRegistry
  import opened TaskRegistrar
  import opened Finalizer

  /** The handle of the test's `noop` function. */
  const Noop: BodyId := 0

  lemma ThreeSegments(x: char, y: char, z: char)
    requires x != ':' && y != ':' && z != ':'
    ensures AllCategories([x, ':', y, ':', z], ":") == [[x], [x, ':', y]]
  {
    var n := [x, ':', y, ':', z];
    assert n[0..1] == [x] && n[1..2] == ":" && n[2..3] == [y] && n[3..4] == ":" && n[4..5] == [z];
    assert IndexOf(n, ":", 0) == Some(1);
    assert IndexOf(n, ":", 2) == Some(3);
    assert IndexOf(n, ":", 4) == None;
    assert CategoriesFrom(n, ":", 4) == [];
    assert CategoriesFrom(n, ":", 2) == [n[..3]];
    assert CategoriesFrom(n, ":", 0) == [n[..1], n[..3]];
    assert n[..1] == [x] && n[..3] == [x, ':', y];
  }

  lemma OneSegment(x: char)
    requires x != ':'
    ensures AllCategories([x], ":") == []
  {
    assert [x][0..1] == [x];
    assert IndexOf([x], ":", 0) == None;
  }

  lemma ChainOfTwo(c0: string, c1: string, name: string)
    ensures ChainLinks([c0, c1], name) == [Link(c0, c1), Link(c1, name)]
  {
  }

  /** Linking the chain of a three-segment task name into a state. */
  lemma LinkTwo(s: State, l0: Link, l1: Link)
    requires l0.category !in s.taskNames && l1.category !in s.taskNames
    ensures var t := AddTaskToCategory(s, l0.category, l0.member).value.state;
      var u := AddTaskToCategory(t, l1.category, l1.member).value.state;
      LinkAll(s, [l0, l1]) == Outcome(u, None)
  {
    var t := AddTaskToCategory(s, l0.category, l0.member).value.state;
    var u := AddTaskToCategory(t, l1.category, l1.member).value.state;
    assert [l0, l1][1..] == [l1];
    assert [l1][1..] == [];
    assert LinkAll(u, []) == Outcome(u, None);
    assert LinkAll(t, [l1]) == Outcome(u, None);
  }

  const S0: State := Create(None)
  const S1: State := State(":", map["a" := ["a:b"], "a:b" := ["a:b:c"]], ["a:b:c"],
    [Call("a:b:c", [], Some(Noop))])
  const S2: State := State(":", map["a" := ["a:b"], "a:b" := ["a:b:c", "a:b:d"]], ["a:b:c", "a:b:d"],
    [Call("a:b:c", [], Some(Noop)), Call("a:b:d", [], Some(Noop))])
  const S3: State := State(":", map["a:b" := ["a:b:c", "a:b:d"]], ["a:b:c", "a:b:d", "a"],
    [Call("a:b:c", [], Some(Noop)), Call("a:b:d", [], Some(Noop)), Call("a", ["a:b"], Some(Noop))])

  lemma RegisterABC()
    ensures Task(S0, "a:b:c", Some([]), Some(Noop)) == Outcome(S1, None)
  {
    ThreeSegments('a', 'b', 'c');
    ChainOfTwo("a", "a:b", "a:b:c");
    LinkABC();
    TaskAfterLinks(S0, "a:b:c", Some([]), Some(Noop), S0.(pending := S1.pending));
    assert GivenDeps(Some([])) == [];
  }

  /** The chain of "a:b:c" creates both categories. */
  lemma LinkABC()
    ensures LinkAll(S0, [Link("a", "a:b"), Link("a:b", "a:b:c")]) == Outcome(S0.(pending := S1.pending), None)
  {
    LinkTwo(S0, Link("a", "a:b"), Link("a:b", "a:b:c"));
    var t := AddTaskToCategory(S0, "a", "a:b").value.state;
    assert t.pending == map["a" := ["a:b"]];
    assert AddTaskToCategory(t, "a:b", "a:b:c").value.state.pending == S1.pending;
  }

  /** The second task of the script, named once so that its registration
      below is reasoned about step by step rather than evaluated whole. */
  const ABD: string := "a:b:d"

  lemma RegisterABD()
    ensures Task(S1, ABD, Some([]), Some(Noop)) == Outcome(S2, None)
  {
    ChainABD();
    assert ABD !in S1.pending;
    TaskAfterLinks(S1, ABD, Some([]), Some(Noop), S1.(pending := S2.pending));
    assert GivenDeps(Some([])) == [];
    assert S1.(pending := S2.pending).(taskNames := S1.taskNames + [ABD], log := S1.log + [Call(ABD, [], Some(Noop))]) == S2;
  }

  lemma ChainABD()
    ensures LinkAll(S1, ChainLinks(AllCategories("a:b:d", ":"), "a:b:d")) == Outcome(S1.(pending := S2.pending), None)
  {
    ThreeSegments('a', 'b', 'd');
    ChainOfTwo("a", "a:b", "a:b:d");
    LinkABD();
  }

  /** The chain of "a:b:d" leaves "a" as it was and appends to "a:b". */
  lemma LinkABD()
    ensures LinkAll(S1, [Link("a", "a:b"), Link("a:b", "a:b:d")]) == Outcome(S1.(pending := S2.pending), None)
  {
    LinkTwo(S1, Link("a", "a:b"), Link("a:b", "a:b:d"));
    assert AddTaskToCategory(S1, "a", "a:b") == Success(Added(false, S1));
    assert "a:b:d"[4] != "a:b:c"[4];
    assert "a:b:d" !in S1.pending["a:b"];
    assert ["a:b:c"] + ["a:b:d"] == ["a:b:c", "a:b:d"];
    assert AddTaskToCategory(S1, "a:b", "a:b:d").value.state.pending == S2.pending;
  }

  /** The explicit task "a" takes over the pending category "a". */
  lemma RegisterA()
    ensures Task(S2, "a", Some([]), Some(Noop)) == Outcome(S3, None)
  {
    OneSegment('a');
    assert ChainLinks([], "a") == [];
    var cleared := S2.(pending := S2.pending - {"a"});
    assert cleared.pending == S3.pending;
    assert LinkAll(cleared, []) == Outcome(cleared, None);
    assert Members(S2, "a") == ["a:b"];
    assert GivenDeps(Some([])) + ["a:b"] == ["a:b"];
  }

  /** "a:e:f" needs "a:e" added to "a", which is now a task: the registration
      throws, with nothing changed. */
  lemma RegisterAEF()
    ensures Task(S3, "a:e:f", Some([]), Some(Noop)) == Outcome(S3, Some(NamingConflict("a", "a:e")))
  {
    ThreeSegments('a', 'e', 'f');
    var links := ChainLinks(["a", "a:e"], "a:e:f");
    assert links == [Link("a", "a:e"), Link("a:e", "a:e:f")];
    assert S3.pending - {"a:e:f"} == S3.pending;
    assert S3.(pending := S3.pending) == S3;
    assert LinkAll(S3, links) == Outcome(S3, Some(NamingConflict("a", "a:e")));
  }

  /** The whole script: the first three registrations succeed, the fourth
      throws and changes nothing. */
  lemma ExistingCategoryDepends()
    ensures var r1 := Task(Create(None), "a:b:c", Some([]), Some(Noop));
      var r2 := Task(r1.state, "a:b:d", Some([]), Some(Noop));
      var r3 := Task(r2.state, "a", Some([]), Some(Noop));
      var r4 := Task(r3.state, "a:e:f", Some([]), Some(Noop));
      && r1.thrown.None? && r2.thrown.None? && r3.thrown.None?
      && r2.state.pending == map["a" := ["a:b"], "a:b" := ["a:b:c", "a:b:d"]]
      && r3.state.pending == map["a:b" := ["a:b:c", "a:b:d"]]
      && r3.state.log[2] == Call("a", ["a:b"], Some(Noop))
      && r4 == Outcome(r3.state, Some(NamingConflict("a", "a:e")))
  {
    RegisterABC();
    RegisterABD();
    RegisterA();
    RegisterAEF();
  }

  /** Had the script stopped before "a:e:f", materialising the categories
      would register "a:b" alone, depending on both of its tasks. */
  lemma CategoriesAfterExplicitA(emitted: seq<Call>)
    requires EmitsEachCategoryOnce(S3, emitted)
    ensures emitted == [Call("a:b", ["a:b:c", "a:b:d"], None)]
  {
    assert S3.pending.Keys == {"a:b"};
    assert |emitted| == 1;
    assert emitted[0].name in S3.pending;
  }
}
