/** Name parsing: how a delimited task name such as "a:b:c" splits into its
    parent category ("a:b") and its chain of ancestor categories
    (["a", "a:b"]). Positions are counted in characters; `None` stands for the
    `-1` / `null` answers of the string searches. */
module NameParser {
  import opened Wrappers

  /** The category separator. It is never empty: an absent or empty option
      falls back to ":". */
  type Separator = s: string | |s| > 0 witness ":"

  /** The separator an instance uses, given its `categorySeparator` option. */
  function SeparatorOf(option: Option<string>): (sep: Separator)
    ensures option.Some? && option.value != [] ==> sep == option.value
    ensures option.None? || option.value == [] ==> sep == ":"
  {
    if option.Some? && option.value != [] then option.value else ":"
  }

  /** `sep` occurs in `n` starting at position `i`. */
  predicate OccursAt(n: string, sep: string, i: int) {
    0 <= i && i + |sep| <= |n| && n[i..i + |sep|] == sep
  }

  /** No occurrence of `sep` in `n` starts at a position in [lo, hi). */
  ghost predicate NoneIn(n: string, sep: string, lo: int, hi: int) {
    forall i :: lo <= i < hi ==> !OccursAt(n, sep, i)
  }

  /** No occurrence of `sep` in `n` starts at `lo` or later. */
  ghost predicate NoneFrom(n: string, sep: string, lo: int) {
    forall i :: lo <= i ==> !OccursAt(n, sep, i)
  }

  ghost predicate Contains(n: string, sep: string) {
    exists i :: OccursAt(n, sep, i)
  }

  /** `i` is where the last occurrence of `sep` in `n` starts. */
  ghost predicate IsLastOccurrence(n: string, sep: string, i: int) {
    OccursAt(n, sep, i) && NoneFrom(n, sep, i + 1)
  }

  predicate IsStrictPrefix(a: string, b: string) {
    |a| < |b| && a == b[..|a|]
  }

  /** `n.indexOf(sep, from)`: where the first occurrence at or after `from`
      starts (characterised by `IndexOfSpec`). */
  function IndexOf(n: string, sep: Separator, from: nat): (r: Option<nat>)
    ensures r.Some? ==> from <= r.value && r.value + |sep| <= |n|
    decreases |n| - from
  {
    if from + |sep| > |n| then None
    else if OccursAt(n, sep, from) then Some(from)
    else IndexOf(n, sep, from + 1)
  }

  lemma {:induction false} IndexOfSpec(n: string, sep: Separator, from: nat)
    ensures IndexOf(n, sep, from).None? <==> NoneFrom(n, sep, from)
    ensures IndexOf(n, sep, from).Some? ==>
      var i := IndexOf(n, sep, from).value;
      OccursAt(n, sep, i) && NoneIn(n, sep, from, i)
    decreases |n| - from
  {
    if from + |sep| <= |n| && !OccursAt(n, sep, from) {
      IndexOfSpec(n, sep, from + 1);
    }
  }

  lemma IndexOfFound(n: string, sep: Separator, from: nat, i: nat)
    requires IndexOf(n, sep, from) == Some(i)
    ensures OccursAt(n, sep, i) && NoneIn(n, sep, from, i)
  {
    IndexOfSpec(n, sep, from);
  }

  lemma IndexOfMissing(n: string, sep: Separator, from: nat)
    requires IndexOf(n, sep, from).None?
    ensures NoneFrom(n, sep, from)
  {
    IndexOfSpec(n, sep, from);
  }

  /** Where the last occurrence starting before `bound` starts;
      `n.lastIndexOf(sep)` is `LastIndexBefore(n, sep, |n|)`, since a
      non-empty separator cannot start at `|n|` or later (characterised by
      `LastIndexBeforeSpec`). */
  function LastIndexBefore(n: string, sep: Separator, bound: nat): (r: Option<nat>)
    ensures r.Some? ==> r.value < bound
  {
    if bound == 0 then None
    else if OccursAt(n, sep, bound - 1) then Some(bound - 1)
    else LastIndexBefore(n, sep, bound - 1)
  }

  lemma {:induction false} LastIndexBeforeSpec(n: string, sep: Separator, bound: nat)
    ensures LastIndexBefore(n, sep, bound).None? <==> NoneIn(n, sep, 0, bound)
    ensures LastIndexBefore(n, sep, bound).Some? ==>
      var i := LastIndexBefore(n, sep, bound).value;
      OccursAt(n, sep, i) && NoneIn(n, sep, i + 1, bound)
  {
    if bound > 0 && !OccursAt(n, sep, bound - 1) {
      LastIndexBeforeSpec(n, sep, bound - 1);
    }
  }

  /** `getTaskCategoryName`: the category directly containing task `n`, i.e.
      the prefix of `n` before the last separator, or `None` when `n` has no
      separator at all. */
  function ParentCategory(n: string, sep: Separator): (r: Option<string>)
    ensures r.None? <==> !Contains(n, sep)
    ensures r.Some? ==> IsLastOccurrence(n, sep, |r.value|) && r.value == n[..|r.value|]
    ensures r.Some? ==> IsStrictPrefix(r.value, n)
  {
    LastIndexBeforeSpec(n, sep, |n|);
    match LastIndexBefore(n, sep, |n|)
    case None => None
    case Some(i) => Some(n[..i])
  }

  /** Step `k` of a scan started at `from` that produced `r`: the search for
      the `k`-th separator began at `from` (first step) or just past the
      previous separator, and skipped no occurrence on the way. */
  ghost predicate ScanStep(n: string, sep: string, from: int, r: seq<string>, k: int)
    requires 0 <= k < |r|
  {
    var start := if k == 0 then from else |r[k - 1]| + |sep|;
    start <= |r[k]| && NoneIn(n, sep, start, |r[k]|)
  }

  /** `r` is what a scan of `n` resuming at `from` collects: one prefix per
      separator found, each ending where its separator starts, the separators
      found not overlapping, none skipped otherwise, and none left after the
      last. */
  ghost predicate IsScan(n: string, sep: string, from: int, r: seq<string>) {
    && (|r| == 0 <==> NoneFrom(n, sep, from))
    && (forall k :: 0 <= k < |r| ==> from <= |r[k]| && OccursAt(n, sep, |r[k]|) && r[k] == n[..|r[k]|])
    && (forall j, k :: 0 <= j < k < |r| ==> |r[j]| + |sep| <= |r[k]|)
    && (forall k :: 0 <= k < |r| ==> ScanStep(n, sep, from, r, k))
    && (|r| > 0 ==> NoneFrom(n, sep, |r[|r| - 1]| + |sep|))
  }

  /** Prepending the prefix before a separator at `i` to a scan resumed past
      that separator gives a scan resumed at `from`, provided no separator
      starts in [from, i). */
  lemma ScanCons(n: string, sep: Separator, from: int, i: nat, t: seq<string>)
    requires from <= i && OccursAt(n, sep, i) && NoneIn(n, sep, from, i)
    requires IsScan(n, sep, i + |sep|, t)
    ensures IsScan(n, sep, from, [n[..i]] + t)
  {
    var r := [n[..i]] + t;
    ScanConsSteps(n, sep, from, i, i + |sep|, t);
    ScanConsOrdered(n, sep, i, t);
    if |t| > 0 {
      assert r[|r| - 1] == t[|t| - 1];
    }
  }

  lemma ScanConsSteps(n: string, sep: Separator, from: int, i: nat, resume: int, t: seq<string>)
    requires from <= i && OccursAt(n, sep, i) && NoneIn(n, sep, from, i)
    requires resume == i + |sep|
    requires forall k :: 0 <= k < |t| ==> resume <= |t[k]| && OccursAt(n, sep, |t[k]|) && t[k] == n[..|t[k]|]
    requires forall k :: 0 <= k < |t| ==> ScanStep(n, sep, resume, t, k)
    ensures var r := [n[..i]] + t;
      forall k :: 0 <= k < |r| ==> from <= |r[k]| && OccursAt(n, sep, |r[k]|) && r[k] == n[..|r[k]|]
    ensures var r := [n[..i]] + t;
      forall k :: 0 <= k < |r| ==> ScanStep(n, sep, from, r, k)
  {
    var r := [n[..i]] + t;
    forall k | 0 <= k < |r|
      ensures from <= |r[k]| && OccursAt(n, sep, |r[k]|) && r[k] == n[..|r[k]|]
      ensures ScanStep(n, sep, from, r, k)
    {
      if k > 0 {
        assert r[k] == t[k - 1];
        assert ScanStep(n, sep, resume, t, k - 1);
        if k > 1 {
          assert r[k - 1] == t[k - 2];
        }
      }
    }
  }

  lemma ScanConsOrdered(n: string, sep: Separator, i: nat, t: seq<string>)
    requires i <= |n|
    requires forall k :: 0 <= k < |t| ==> i + |sep| <= |t[k]|
    requires forall j, k :: 0 <= j < k < |t| ==> |t[j]| + |sep| <= |t[k]|
    ensures var r := [n[..i]] + t;
      forall j, k :: 0 <= j < k < |r| ==> |r[j]| + |sep| <= |r[k]|
  {
    var r := [n[..i]] + t;
    forall j, k | 0 <= j < k < |r|
      ensures |r[j]| + |sep| <= |r[k]|
    {
      assert r[k] == t[k - 1];
      if j > 0 {
        assert r[j] == t[j - 1];
      }
    }
  }

  /** The categories the scan of `getAllTaskCategoryNames` collects once it
      resumes searching at `from`: the prefix before the next separator, then
      the rest of the scan from just past that separator. */
  function CategoriesFrom(n: string, sep: Separator, from: nat): seq<string>
    decreases |n| - from
  {
    match IndexOf(n, sep, from)
    case None => []
    case Some(i) => [n[..i]] + CategoriesFrom(n, sep, i + |sep|)
  }

  lemma {:induction false} CategoriesFromIsScan(n: string, sep: Separator, from: nat)
    ensures IsScan(n, sep, from, CategoriesFrom(n, sep, from))
    decreases |n| - from
  {
    IndexOfSpec(n, sep, from);
    match IndexOf(n, sep, from)
    case None =>
      CategoriesFromNone(n, sep, from);
    case Some(i) =>
      var t := CategoriesFrom(n, sep, i + |sep|);
      CategoriesFromIsScan(n, sep, i + |sep|);
      CategoriesFromStep(n, sep, from, i);
      ScanCons(n, sep, from, i, t);
  }

  /** `getAllTaskCategoryNames`: every ancestor category of task `n`,
      outermost first (characterised by `AllCategoriesSpec`). */
  function AllCategories(n: string, sep: Separator): seq<string> {
    CategoriesFrom(n, sep, 0)
  }

  /** The ancestor categories are what a scan from position 0 collects; each
      is a strict prefix of `n` and of every later one; and there are none
      exactly when `n` has no separator. */
  lemma AllCategoriesSpec(n: string, sep: Separator)
    ensures IsScan(n, sep, 0, AllCategories(n, sep))
    ensures |AllCategories(n, sep)| == 0 <==> !Contains(n, sep)
    ensures var r := AllCategories(n, sep);
      forall k :: 0 <= k < |r| ==> IsStrictPrefix(r[k], n)
    ensures var r := AllCategories(n, sep);
      forall j, k :: 0 <= j < k < |r| ==> IsStrictPrefix(r[j], r[k])
  {
    CategoriesFromIsScan(n, sep, 0);
    ScanPrefixes(n, sep, AllCategories(n, sep));
  }

  lemma ScanPrefixes(n: string, sep: Separator, r: seq<string>)
    requires IsScan(n, sep, 0, r)
    ensures |r| == 0 <==> !Contains(n, sep)
    ensures forall k :: 0 <= k < |r| ==> IsStrictPrefix(r[k], n)
    ensures forall j, k :: 0 <= j < k < |r| ==> IsStrictPrefix(r[j], r[k])
  {
    if |r| > 0 {
      assert OccursAt(n, sep, |r[0]|);
    }
    forall k | 0 <= k < |r|
      ensures IsStrictPrefix(r[k], n)
    {
      assert OccursAt(n, sep, |r[k]|);
    }
    forall j, k | 0 <= j < k < |r|
      ensures IsStrictPrefix(r[j], r[k])
    {
      assert OccursAt(n, sep, |r[k]|);
      PrefixOfPrefix(n, |r[j]|, |r[k]|);
    }
  }

  lemma PrefixOfPrefix(n: string, a: nat, b: nat)
    requires a < b <= |n|
    ensures IsStrictPrefix(n[..a], n[..b])
  {
    assert n[..b][..a] == n[..a];
  }

  lemma CategoriesFromStep(n: string, sep: Separator, from: nat, i: nat)
    requires IndexOf(n, sep, from) == Some(i)
    ensures CategoriesFrom(n, sep, from) == [n[..i]] + CategoriesFrom(n, sep, i + |sep|)
  {
  }

  lemma CategoriesFromNone(n: string, sep: Separator, from: nat)
    requires IndexOf(n, sep, from).None?
    ensures CategoriesFrom(n, sep, from) == []
  {
  }

  /** One iteration of the loop in `GetAllTaskCategoryNames` keeps the
      collected categories followed by the rest of the scan equal to the
      whole scan. */
  lemma ScanLoopStep(n: string, sep: Separator, next: nat, i: nat, categories: seq<string>)
    requires IndexOf(n, sep, next) == Some(i)
    requires categories + CategoriesFrom(n, sep, next) == CategoriesFrom(n, sep, 0)
    ensures (categories + [n[..i]]) + CategoriesFrom(n, sep, i + |sep|) == CategoriesFrom(n, sep, 0)
  {
    CategoriesFromStep(n, sep, next, i);
    SeqAssoc(categories, [n[..i]], CategoriesFrom(n, sep, i + |sep|));
  }

  lemma SeqAssoc<T>(a: seq<T>, b: seq<T>, c: seq<T>)
    ensures a + (b + c) == (a + b) + c
  {
  }

  /** The loop of `getAllTaskCategoryNames`, statement for statement. */
  method GetAllTaskCategoryNames(n: string, sep: Separator) returns (categories: seq<string>)
    ensures categories == AllCategories(n, sep)
  {
    var next: nat := 0;
    var index := IndexOf(n, sep, 0);
    categories := [];
    assert categories + CategoriesFrom(n, sep, 0) == CategoriesFrom(n, sep, 0);
    while index.Some?
      invariant next <= |n|
      invariant index == IndexOf(n, sep, next)
      invariant categories + CategoriesFrom(n, sep, next) == CategoriesFrom(n, sep, 0)
      decreases |n| - next
    {
      var i := index.value;
      var category := n[..i];
      ScanLoopStep(n, sep, next, i, categories);
      categories := categories + [category];
      next := i + |sep|;
      index := IndexOf(n, sep, next);
    }
    CategoriesFromNone(n, sep, next);
    assert categories + [] == categories;
  }

  /** The number of positions where `sep` occurs in `n` at or after `from`,
      overlapping occurrences included. */
  function OccurrencesFrom(n: string, sep: string, from: nat): nat
    decreases |n| - from
  {
    if from >= |n| then 0
    else (if OccursAt(n, sep, from) then 1 else 0) + OccurrencesFrom(n, sep, from + 1)
  }

  lemma {:induction false} OccurrencesSkip(n: string, sep: string, from: nat, to: nat)
    requires from <= to
    requires NoneIn(n, sep, from, to)
    ensures OccurrencesFrom(n, sep, from) == OccurrencesFrom(n, sep, to)
    decreases (to as int) - (from as int)
  {
    if from < to && from < |n| {
      assert !OccursAt(n, sep, from);
      OccurrencesSkip(n, sep, from + 1, to);
    } else if from < to {
      OccurrencesPastEnd(n, sep, from);
      OccurrencesPastEnd(n, sep, to);
    }
  }

  lemma OccurrencesHit(n: string, sep: string, i: nat)
    requires OccursAt(n, sep, i) && i < |n|
    ensures OccurrencesFrom(n, sep, i) == 1 + OccurrencesFrom(n, sep, i + 1)
  {
  }

  lemma OccurrencesPastEnd(n: string, sep: string, from: nat)
    requires from >= |n|
    ensures OccurrencesFrom(n, sep, from) == 0
  {
  }

  /** With a one-character separator occurrences cannot overlap, so the scan
      yields one category per separator character. */
  lemma {:induction false} SingleCharCountFrom(n: string, sep: Separator, from: nat)
    requires |sep| == 1
    requires from <= |n|
    ensures |CategoriesFrom(n, sep, from)| == OccurrencesFrom(n, sep, from)
    decreases |n| - from
  {
    var found := IndexOf(n, sep, from);
    if found.None? {
      CategoriesFromNone(n, sep, from);
      OccurrencesWhenMissing(n, sep, from);
    } else {
      var i := found.value;
      CategoriesFromStep(n, sep, from, i);
      OccurrencesWhenFound(n, sep, from, i);
      SingleCharCountFrom(n, sep, i + 1);
    }
  }

  /** No separator at or after `from` means no occurrences there. */
  lemma OccurrencesWhenMissing(n: string, sep: Separator, from: nat)
    requires IndexOf(n, sep, from).None?
    ensures OccurrencesFrom(n, sep, from) == 0
  {
    IndexOfMissing(n, sep, from);
    if from <= |n| {
      OccurrencesSkip(n, sep, from, |n|);
      OccurrencesPastEnd(n, sep, |n|);
    } else {
      OccurrencesPastEnd(n, sep, from);
    }
  }

  /** The occurrences from `from` are the one `indexOf` finds plus those
      after it. */
  lemma OccurrencesWhenFound(n: string, sep: Separator, from: nat, i: nat)
    requires IndexOf(n, sep, from) == Some(i)
    ensures OccurrencesFrom(n, sep, from) == 1 + OccurrencesFrom(n, sep, i + 1)
  {
    IndexOfFound(n, sep, from, i);
    OccurrencesSkip(n, sep, from, i);
    OccurrencesHit(n, sep, i);
  }

  lemma SingleCharCount(n: string, sep: Separator)
    requires |sep| == 1
    ensures |AllCategories(n, sep)| == OccurrencesFrom(n, sep, 0)
  {
    SingleCharCountFrom(n, sep, 0);
  }

  /** With a one-character separator the deepest ancestor is the parent. */
  lemma SingleCharLastIsParent(n: string, sep: Separator)
    requires |sep| == 1
    ensures var all := AllCategories(n, sep);
      |all| > 0 ==> ParentCategory(n, sep) == Some(all[|all| - 1])
  {
    var all := AllCategories(n, sep);
    AllCategoriesSpec(n, sep);
    if |all| > 0 {
      var p := ParentCategory(n, sep);
      var c := |all[|all| - 1]|;
      assert OccursAt(n, sep, c);
      assert p.Some?;
      var j := |p.value|;
      assert j + 1 <= c ==> !OccursAt(n, sep, c);
      assert c + 1 <= j ==> !OccursAt(n, sep, j);
    }
  }

  /** Agreement of the deepest ancestor with the parent is proved above for
      one-character separators; a separator that can overlap itself, such as
      "::", can make them differ: in ":::" the scan finds "::" at 0 and resumes
      past it, while the last occurrence starts at 1. */
  lemma OverlappingSeparatorsDisagree()
    ensures AllCategories(":::", "::") == [""]
    ensures ParentCategory(":::", "::") == Some(":")
    ensures OccurrencesFrom(":::", "::", 0) == 2
  {
    assert OccursAt(":::", "::", 0);
    assert OccursAt(":::", "::", 1);
    assert IndexOf(":::", "::", 0) == Some(0);
    assert IndexOf(":::", "::", 2) == None;
    assert LastIndexBefore(":::", "::", 3) == Some(1);
    assert ":::"[..1] == ":";
    assert ":::"[..0] == "";
  }

  /** A two-character separator that cannot overlap itself still gives
      agreement: for "a->b" with "->" both the deepest ancestor and the parent
      are "a". */
  lemma NonOverlappingSeparatorAgrees()
    ensures AllCategories("a->b", "->") == ["a"]
    ensures ParentCategory("a->b", "->") == Some("a")
  {
    var n := "a->b";
    assert n[0..2][0] != "->"[0] && n[2..4][0] != "->"[0];
    assert n[1..3] == "->";
    assert !OccursAt(n, "->", 0) && OccursAt(n, "->", 1) && !OccursAt(n, "->", 2);
    assert IndexOf(n, "->", 0) == Some(1);
    assert IndexOf(n, "->", 3) == None;
    assert LastIndexBefore(n, "->", 4) == Some(1);
    assert n[..1] == "a";
  }

  /** The examples from the source's comments. */
  lemma DocumentedExamples()
    ensures AllCategories("a:b:c", ":") == ["a", "a:b"]
    ensures ParentCategory("a:b:c", ":") == Some("a:b")
    ensures ParentCategory("a", ":") == None
  {
    var n := "a:b:c";
    assert n[0..1][0] == 'a' && n[2..3][0] == 'b' && n[4..5][0] == 'c';
    assert n[1..2] == ":" && n[3..4] == ":";
    assert IndexOf(n, ":", 0) == Some(1);
    assert IndexOf(n, ":", 2) == Some(3);
    assert IndexOf(n, ":", 4) == None;
    assert n[..1] == "a" && n[..3] == "a:b";
    assert LastIndexBefore(n, ":", 5) == Some(3);
    assert "a"[0..1][0] == 'a';
    assert LastIndexBefore("a", ":", 1) == None;
  }
}
