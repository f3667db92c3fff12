/** `task`, the drop-in replacement for `gulp.task`: it folds a pending
    category of the same name into the task's dependencies, links the task's
    whole ancestor chain into the pending categories, records the name and
    forwards the registration. */
module TaskRegistrar {
  import opened Wrappers
  import opened NameParser
  import opened CategoryRegistry

  /** One `addTaskToCategory(category, member)` call. */
  datatype Link = Link(category: string, member: string)

  /** The state after a registration, or after part of one, and the error it
      threw, if any. State changes made before a throw are kept. */
  datatype Outcome = Outcome(state: State, thrown: Option<Conflict>)

  /** The adds the walk over the ancestor chain `cats` of task `name` makes, in
      order: each ancestor into the one before it, then the task itself into
      the deepest ancestor. */
  function ChainLinks(cats: seq<string>, name: string): (links: seq<Link>)
    ensures |links| == |cats|
  {
    seq(|cats|, i requires 0 <= i < |cats| => Link(cats[i], if i + 1 < |cats| then cats[i + 1] else name))
  }

  /** The categories the chain links are exactly the ancestors. */
  lemma ChainCategories(cats: seq<string>, name: string)
    ensures forall i :: 0 <= i < |cats| ==> ChainLinks(cats, name)[i].category == cats[i]
    ensures forall c :: c in LinkCategories(ChainLinks(cats, name)) <==> c in cats
  {
    var links := ChainLinks(cats, name);
    forall c | c in cats
      ensures c in LinkCategories(links)
    {
      var i :| 0 <= i < |cats| && cats[i] == c;
      assert links[i].category == c;
    }
  }

  predicate IsLinked(s: State, l: Link) {
    l.category in s.pending && l.member in s.pending[l.category]
  }

  function LinkCategories(links: seq<Link>): set<string> {
    set i | 0 <= i < |links| :: links[i].category
  }

  lemma PrefixKeepsMember(xs: seq<string>, ys: seq<string>, x: string)
    requires x in xs && xs <= ys
    ensures x in ys
  {
    var i :| 0 <= i < |xs| && xs[i] == x;
    assert ys[i] == x;
  }

  /** Performs the adds of `links` in order and stops at the first one that
      throws (characterised by `LinkAllOutcome`, `LinkAllGrows` and
      `LinkAllLinks`). */
  function LinkAll(s: State, links: seq<Link>): (r: Outcome)
    ensures r.state.taskNames == s.taskNames && r.state.log == s.log && r.state.sep == s.sep
    decreases |links|
  {
    if links == [] then Outcome(s, None)
    else
      match AddTaskToCategory(s, links[0].category, links[0].member)
      case Failure(e) => Outcome(s, Some(e))
      case Success(a) => LinkAll(a.state, links[1..])
  }

  /** The adds all succeed exactly when no link's category is a task name;
      a throw names a category that is one. */
  lemma {:induction false} LinkAllOutcome(s: State, links: seq<Link>)
    ensures var r := LinkAll(s, links);
      && (r.thrown.None? <==> forall i :: 0 <= i < |links| ==> links[i].category !in s.taskNames)
      && (r.thrown.Some? ==> r.thrown.value.category in s.taskNames && r.thrown.value.category in LinkCategories(links))
    decreases |links|
  {
    if links != [] {
      var res := AddTaskToCategory(s, links[0].category, links[0].member);
      if res.Success? {
        var tail := links[1..];
        LinkAllOutcome(res.value.state, tail);
        assert forall i :: 1 <= i < |links| ==> links[i] == tail[i - 1];
        var r := LinkAll(s, links);
        if r.thrown.Some? {
          var i :| 0 <= i < |tail| && tail[i].category == r.thrown.value.category;
          assert links[i + 1] == tail[i];
        }
      }
    }
  }

  /** Adds only extend member lists at their ends, and the only new keys are
      the links' categories. */
  lemma {:induction false} LinkAllGrows(s: State, links: seq<Link>)
    ensures var r := LinkAll(s, links);
      && (forall c :: c in s.pending ==> c in r.state.pending && s.pending[c] <= r.state.pending[c])
      && (forall c :: c in r.state.pending ==> c in s.pending || c in LinkCategories(links))
    decreases |links|
  {
    if links != [] {
      var res := AddTaskToCategory(s, links[0].category, links[0].member);
      if res.Success? {
        var t := res.value.state;
        var tail := links[1..];
        LinkAllGrows(t, tail);
        var r := LinkAll(s, links);
        assert r == LinkAll(t, tail);
        forall c | c in s.pending
          ensures c in r.state.pending && s.pending[c] <= r.state.pending[c]
        {
          assert c in t.pending && s.pending[c] <= t.pending[c];
        }
        forall c | c in r.state.pending
          ensures c in s.pending || c in LinkCategories(links)
        {
          if c !in s.pending && c != links[0].category {
            assert c in LinkCategories(tail);
            var i :| 0 <= i < |tail| && tail[i].category == c;
            assert links[i + 1] == tail[i];
          }
        }
      }
    }
  }

  /** Adds leave every category that no link names exactly as it was: same
      members, pending or not as before. */
  lemma {:induction false} LinkAllFrame(s: State, links: seq<Link>)
    ensures var r := LinkAll(s, links);
      forall c :: c !in LinkCategories(links) ==>
        Members(r.state, c) == Members(s, c) && (c in r.state.pending <==> c in s.pending)
    decreases |links|
  {
    if links != [] {
      var res := AddTaskToCategory(s, links[0].category, links[0].member);
      if res.Success? {
        var t := res.value.state;
        var tail := links[1..];
        LinkAllFrame(t, tail);
        var r := LinkAll(s, links);
        assert r == LinkAll(t, tail);
        assert links[0].category in LinkCategories(links);
        forall c | c !in LinkCategories(links)
          ensures Members(r.state, c) == Members(s, c) && (c in r.state.pending <==> c in s.pending)
        {
          forall i | 0 <= i < |tail|
            ensures tail[i].category != c
          {
            assert links[i + 1] == tail[i];
          }
          assert c !in LinkCategories(tail);
          assert Members(r.state, c) == Members(t, c) && (c in r.state.pending <==> c in t.pending);
          assert c != links[0].category;
        }
      }
    }
  }

  /** `members` after adding `member` to a list that holds `members`: the
      list is unchanged when `member` is already there. */
  function Extend(members: seq<string>, member: string): seq<string> {
    if member in members then members else members + [member]
  }

  predicate DistinctCategories(links: seq<Link>) {
    forall i, j :: 0 <= i < j < |links| ==> links[i].category != links[j].category
  }

  /** When the adds all succeed and name distinct categories, each link's
      category ends up holding its old members, extended by the link's member
      if that was absent, and nothing else. */
  lemma {:induction false} LinkAllExtends(s: State, links: seq<Link>)
    requires LinkAll(s, links).thrown.None?
    requires DistinctCategories(links)
    ensures forall i :: 0 <= i < |links| ==>
      Members(LinkAll(s, links).state, links[i].category) == Extend(Members(s, links[i].category), links[i].member)
    decreases |links|
  {
    if links != [] {
      var l0 := links[0];
      var t := AddTaskToCategory(s, l0.category, l0.member).value.state;
      var tail := links[1..];
      var r := LinkAll(s, links);
      assert r == LinkAll(t, tail);
      forall i | 0 <= i < |tail|
        ensures tail[i] == links[i + 1] && tail[i].category != l0.category
      {
      }
      assert DistinctCategories(tail) by {
        forall i, j | 0 <= i < j < |tail|
          ensures tail[i].category != tail[j].category
        {
          assert tail[i] == links[i + 1] && tail[j] == links[j + 1];
        }
      }
      LinkAllExtends(t, tail);
      LinkAllFrame(t, tail);
      assert l0.category !in LinkCategories(tail);
      assert Members(t, l0.category) == Extend(Members(s, l0.category), l0.member);
      forall i | 0 <= i < |links|
        ensures Members(r.state, links[i].category) == Extend(Members(s, links[i].category), links[i].member)
      {
        if i > 0 {
          assert links[i] == tail[i - 1];
          assert Members(t, links[i].category) == Members(s, links[i].category);
        }
      }
    }
  }

  /** After adds that all succeeded, every link holds. */
  lemma {:induction false} LinkAllLinks(s: State, links: seq<Link>)
    requires LinkAll(s, links).thrown.None?
    ensures forall i :: 0 <= i < |links| ==> IsLinked(LinkAll(s, links).state, links[i])
    decreases |links|
  {
    if links != [] {
      var t := AddTaskToCategory(s, links[0].category, links[0].member).value.state;
      var tail := links[1..];
      var r := LinkAll(s, links);
      assert r == LinkAll(t, tail);
      LinkAllLinks(t, tail);
      LinkAllGrows(t, tail);
      assert IsLinked(t, links[0]);
      PrefixKeepsMember(t.pending[links[0].category], r.state.pending[links[0].category], links[0].member);
      forall i | 1 <= i < |links|
        ensures IsLinked(r.state, links[i])
      {
        assert links[i] == tail[i - 1];
      }
    }
  }

  /** A throw from the `j`-th add, the first whose category is a task name,
      is that add's error, with the `j` adds before it done. */
  lemma {:induction false} LinkAllStopsAtFirstConflict(s: State, links: seq<Link>, j: nat)
    requires j < |links|
    requires links[j].category in s.taskNames
    requires forall i :: 0 <= i < j ==> links[i].category !in s.taskNames
    ensures LinkAll(s, links).thrown == Some(NamingConflict(links[j].category, links[j].member))
    ensures forall i :: 0 <= i < j ==> IsLinked(LinkAll(s, links).state, links[i])
    decreases j
  {
    if j > 0 {
      var t := AddTaskToCategory(s, links[0].category, links[0].member).value.state;
      var tail := links[1..];
      assert forall i :: 0 <= i < |tail| ==> tail[i] == links[i + 1];
      LinkAllStopsAtFirstConflict(t, tail, j - 1);
      LinkAllGrows(t, tail);
      var r := LinkAll(s, links);
      assert r == LinkAll(t, tail);
      assert IsLinked(t, links[0]);
      PrefixKeepsMember(t.pending[links[0].category], r.state.pending[links[0].category], links[0].member);
      forall i | 0 < i < j
        ensures IsLinked(r.state, links[i])
      {
        assert links[i] == tail[i - 1];
      }
    }
  }

  /** A throw from the `j`-th add, the first whose category is a task name,
      leaves exactly the state the first `j` adds produce: the adds after it
      never happen. */
  lemma {:induction false} LinkAllThrowState(s: State, links: seq<Link>, j: nat)
    requires j < |links|
    requires links[j].category in s.taskNames
    requires forall i :: 0 <= i < j ==> links[i].category !in s.taskNames
    ensures LinkAll(s, links[..j]).thrown.None?
    ensures LinkAll(s, links).state == LinkAll(s, links[..j]).state
    decreases j
  {
    if j == 0 {
      assert links[..0] == [];
    } else {
      var t := AddTaskToCategory(s, links[0].category, links[0].member).value.state;
      var tail := links[1..];
      assert forall i :: 0 <= i < |tail| ==> tail[i] == links[i + 1];
      LinkAllThrowState(t, tail, j - 1);
      assert links[..j][1..] == tail[..j - 1];
      assert LinkAll(s, links) == LinkAll(t, tail);
      assert LinkAll(s, links[..j]) == LinkAll(t, tail[..j - 1]);
    }
  }

  lemma {:induction false} LinkAllValid(s: State, links: seq<Link>)
    requires Valid(s)
    ensures Valid(LinkAll(s, links).state)
    decreases |links|
  {
    if links != [] {
      var res := AddTaskToCategory(s, links[0].category, links[0].member);
      if res.Success? {
        AddTaskToCategoryValid(s, links[0].category, links[0].member);
        LinkAllValid(res.value.state, links[1..]);
      }
    }
  }

  /** The dependencies `task` receives: none when the second argument was the
      task function itself (`deps` is `None`), otherwise the given list. */
  function GivenDeps(deps: Option<seq<string>>): seq<string> {
    deps.GetOr([])
  }

  /** Ancestor `i` is a pending member of ancestor `i - 1`. */
  ghost predicate LinkedToParent(s: State, cats: seq<string>, i: int)
    requires 0 < i < |cats|
  {
    IsLinked(s, Link(cats[i - 1], cats[i]))
  }

  /** Every ancestor in `cats` (after the first) is a member of the ancestor
      before it, and `name` is a member of the deepest one. */
  ghost predicate ChainLinked(s: State, cats: seq<string>, name: string) {
    && (forall i :: 0 < i < |cats| ==> LinkedToParent(s, cats, i))
    && (|cats| > 0 ==> IsLinked(s, Link(cats[|cats| - 1], name)))
  }

  /** Every category other than `name` and its ancestors has the same members
      in `t` as in `s`, and is pending in `t` exactly when it is in `s`. */
  ghost predicate KeepsUnrelated(s: State, t: State, name: string) {
    forall c :: c !in AllCategories(name, s.sep) && c != name ==>
      Members(t, c) == Members(s, c) && (c in t.pending <==> c in s.pending)
  }

  /** `task(name, deps, body)`. A pending category called `name` is removed
      and its members are appended to the forwarded dependencies. It throws
      exactly when one of the name's ancestor categories is already a task
      name; then the removal and the adds made so far stay, but the name is
      not recorded and nothing is forwarded. Otherwise the name is recorded
      and exactly one registration is forwarded. */
  function Task(s: State, name: string, deps: Option<seq<string>>, body: Option<BodyId>): (r: Outcome)
    ensures r.state.sep == s.sep
    ensures name !in r.state.pending
    ensures r.thrown.None? <==> forall c :: c in AllCategories(name, s.sep) ==> c !in s.taskNames
    ensures r.thrown.None? ==> r.state.taskNames == s.taskNames + [name]
    ensures r.thrown.None? ==> r.state.log == s.log + [Call(name, GivenDeps(deps) + Members(s, name), body)]
    ensures r.thrown.Some? ==> r.state.taskNames == s.taskNames && r.state.log == s.log
    ensures r.thrown.Some? ==> r.thrown.value.category in s.taskNames && r.thrown.value.category in AllCategories(name, s.sep)
    ensures forall c :: c in s.pending && c != name ==> c in r.state.pending && s.pending[c] <= r.state.pending[c]
    ensures KeepsUnrelated(s, r.state, name)
  {
    var merged := GivenDeps(deps) + Members(s, name);
    var cleared := s.(pending := s.pending - {name});
    var cats := AllCategories(name, s.sep);
    var links := ChainLinks(cats, name);
    var linked := LinkAll(cleared, links);
    AncestorsAreNotTheTask(name, s.sep);
    ChainCategories(cats, name);
    LinkAllOutcome(cleared, links);
    LinkAllGrows(cleared, links);
    LinkAllFrame(cleared, links);
    if linked.thrown.Some? then
      linked
    else
      Outcome(linked.state.(taskNames := s.taskNames + [name], log := s.log + [Call(name, merged, body)]), None)
  }

  /** `task` on a name that is not pending, once the outcome of its chain of
      adds is known to be a success. */
  lemma TaskAfterLinks(s: State, name: string, deps: Option<seq<string>>, body: Option<BodyId>, after: State)
    requires name !in s.pending
    requires LinkAll(s, ChainLinks(AllCategories(name, s.sep), name)) == Outcome(after, None)
    ensures Task(s, name, deps, body)
      == Outcome(after.(taskNames := s.taskNames + [name], log := s.log + [Call(name, GivenDeps(deps), body)]), None)
  {
    var cleared := s.(pending := s.pending - {name});
    assert cleared == s;
    var linked := LinkAll(cleared, ChainLinks(AllCategories(name, s.sep), name));
    assert linked == Outcome(after, None);
    assert Members(s, name) == [];
    assert GivenDeps(deps) + Members(s, name) == GivenDeps(deps);
  }

  lemma AncestorsAreNotTheTask(name: string, sep: Separator)
    ensures name !in AllCategories(name, sep)
  {
    AllCategoriesSpec(name, sep);
  }

  /** After a successful `task`, the whole ancestor chain is linked. */
  lemma TaskLinksChain(s: State, name: string, deps: Option<seq<string>>, body: Option<BodyId>)
    requires Task(s, name, deps, body).thrown.None?
    ensures ChainLinked(Task(s, name, deps, body).state, AllCategories(name, s.sep), name)
  {
    var cats := AllCategories(name, s.sep);
    var links := ChainLinks(cats, name);
    var cleared := s.(pending := s.pending - {name});
    var linked := LinkAll(cleared, links);
    assert linked.thrown.None?;
    LinkAllLinks(cleared, links);
    assert Task(s, name, deps, body).state.pending == linked.state.pending;
    LinksMakeChain(linked.state, Task(s, name, deps, body).state, cats, name);
  }

  lemma LinksMakeChain(linked: State, t: State, cats: seq<string>, name: string)
    requires t.pending == linked.pending
    requires var links := ChainLinks(cats, name);
      forall i :: 0 <= i < |links| ==> IsLinked(linked, links[i])
    ensures ChainLinked(t, cats, name)
  {
    var links := ChainLinks(cats, name);
    forall i | 0 < i < |cats|
      ensures LinkedToParent(t, cats, i)
    {
      assert IsLinked(linked, links[i - 1]);
      assert links[i - 1] == Link(cats[i - 1], cats[i]);
    }
    if |cats| > 0 {
      assert IsLinked(linked, links[|cats| - 1]);
    }
  }

  /** After a successful `task`, each ancestor's list is its old list extended
      by its successor in the chain (the next ancestor, or the task itself for
      the deepest one) if that was absent, and by nothing else. */
  lemma TaskExtendsChain(s: State, name: string, deps: Option<seq<string>>, body: Option<BodyId>)
    requires Task(s, name, deps, body).thrown.None?
    ensures var cats := AllCategories(name, s.sep);
      forall i :: 0 <= i < |cats| ==>
        Members(Task(s, name, deps, body).state, cats[i])
          == Extend(Members(s, cats[i]), if i + 1 < |cats| then cats[i + 1] else name)
  {
    var cats := AllCategories(name, s.sep);
    var links := ChainLinks(cats, name);
    var cleared := s.(pending := s.pending - {name});
    var linked := LinkAll(cleared, links);
    assert linked.thrown.None?;
    AncestorsAreDistinct(name, s.sep);
    AncestorsAreNotTheTask(name, s.sep);
    assert DistinctCategories(links);
    LinkAllExtends(cleared, links);
    assert Task(s, name, deps, body).state.pending == linked.state.pending;
    forall i | 0 <= i < |cats|
      ensures Members(linked.state, cats[i]) == Extend(Members(s, cats[i]), if i + 1 < |cats| then cats[i + 1] else name)
    {
      assert links[i] == Link(cats[i], if i + 1 < |cats| then cats[i + 1] else name);
      assert Members(cleared, cats[i]) == Members(s, cats[i]);
    }
  }

  lemma AncestorsAreDistinct(name: string, sep: Separator)
    ensures var cats := AllCategories(name, sep);
      forall i, j :: 0 <= i < j < |cats| ==> cats[i] != cats[j]
  {
    AllCategoriesSpec(name, sep);
  }

  /** When the `j`-th ancestor is the first that is a task name, `task` throws
      the conflict of adding the next chain element to it. Each ancestor
      before it has gained exactly its successor (if that was absent), and the
      ancestors from `j` on are untouched: the walk stops at the throw. */
  lemma TaskThrowsAtFirstConflict(s: State, name: string, deps: Option<seq<string>>, body: Option<BodyId>, j: nat)
    requires var cats := AllCategories(name, s.sep);
      && j < |cats| && cats[j] in s.taskNames
      && forall i :: 0 <= i < j ==> cats[i] !in s.taskNames
    ensures var cats := AllCategories(name, s.sep);
      var r := Task(s, name, deps, body);
      && r.thrown == Some(NamingConflict(cats[j], if j + 1 < |cats| then cats[j + 1] else name))
      && (forall i :: 0 < i <= j ==> LinkedToParent(r.state, cats, i))
      && (forall i :: 0 <= i < j ==> Members(r.state, cats[i]) == Extend(Members(s, cats[i]), cats[i + 1]))
      && (forall i :: j <= i < |cats| ==> Members(r.state, cats[i]) == Members(s, cats[i]))
  {
    var cats := AllCategories(name, s.sep);
    var links := ChainLinks(cats, name);
    var cleared := s.(pending := s.pending - {name});
    LinkAllStopsAtFirstConflict(cleared, links, j);
    var r := Task(s, name, deps, body);
    assert r == LinkAll(cleared, links);
    forall i | 0 < i <= j
      ensures LinkedToParent(r.state, cats, i)
    {
      assert IsLinked(r.state, links[i - 1]);
      assert links[i - 1] == Link(cats[i - 1], cats[i]);
    }
    ThrowLeavesPrefixState(s, name, j);
  }

  /** The lists of the ancestors after a throw at ancestor `j`: exactly the
      first `j` adds took effect. */
  lemma ThrowLeavesPrefixState(s: State, name: string, j: nat)
    requires var cats := AllCategories(name, s.sep);
      && j < |cats| && cats[j] in s.taskNames
      && forall i :: 0 <= i < j ==> cats[i] !in s.taskNames
    ensures var cats := AllCategories(name, s.sep);
      var t := LinkAll(s.(pending := s.pending - {name}), ChainLinks(cats, name)).state;
      && (forall i :: 0 <= i < j ==> Members(t, cats[i]) == Extend(Members(s, cats[i]), cats[i + 1]))
      && (forall i :: j <= i < |cats| ==> Members(t, cats[i]) == Members(s, cats[i]))
  {
    var cats := AllCategories(name, s.sep);
    var links := ChainLinks(cats, name);
    var cleared := s.(pending := s.pending - {name});
    var prefix := links[..j];
    LinkAllThrowState(cleared, links, j);
    var t := LinkAll(cleared, links).state;
    assert t == LinkAll(cleared, prefix).state;
    AncestorsAreDistinct(name, s.sep);
    AncestorsAreNotTheTask(name, s.sep);
    assert DistinctCategories(prefix);
    LinkAllExtends(cleared, prefix);
    LinkAllFrame(cleared, prefix);
    forall i | 0 <= i < j
      ensures Members(t, cats[i]) == Extend(Members(s, cats[i]), cats[i + 1])
    {
      assert prefix[i] == Link(cats[i], cats[i + 1]);
      assert Members(cleared, cats[i]) == Members(s, cats[i]);
    }
    forall i | j <= i < |cats|
      ensures Members(t, cats[i]) == Members(s, cats[i])
    {
      forall k | 0 <= k < |prefix|
        ensures prefix[k].category != cats[i]
      {
        assert prefix[k].category == cats[k];
      }
      assert cats[i] !in LinkCategories(prefix);
      assert Members(cleared, cats[i]) == Members(s, cats[i]);
    }
  }

  /** `task` preserves `Valid`, whether it succeeds or throws: in particular
      no pending category is ever the name of a registered task. */
  lemma TaskPreservesValid(s: State, name: string, deps: Option<seq<string>>, body: Option<BodyId>)
    requires Valid(s)
    ensures Valid(Task(s, name, deps, body).state)
  {
    var cleared := s.(pending := s.pending - {name});
    var links := ChainLinks(AllCategories(name, s.sep), name);
    LinkAllValid(cleared, links);
  }
}
