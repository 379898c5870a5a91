/** Weak aliases of a shared object: symbols with one value, at least one of them weak, are linked in one list. */
module WeakAliases {

  /** A potential alias: a defined data symbol of a shared object, weak or global. Its name breaks ties in the order. */
  datatype AliasInfo = AliasInfo(symbol: nat, name: string, value: nat, isWeak: bool)

  /** std::string's order. */
  predicate NameLess(a: string, b: string) {
    b != [] && (a == [] || a[0] < b[0] || (a[0] == b[0] && NameLess(a[1..], b[1..])))
  }

  /** By value; then weak before global; then by name. */
  predicate Less(p: AliasInfo, q: AliasInfo) {
    if p.value != q.value then p.value < q.value
    else if p.isWeak != q.isWeak then p.isWeak
    else NameLess(p.name, q.name)
  }

  /** What sorting guarantees: nothing is less than anything before it. */
  ghost predicate Sorted(s: seq<AliasInfo>) {
    forall i, j :: 0 <= i < j < |s| ==> !Less(s[j], s[i])
  }

  /** The symbols of one value. */
  ghost function Alike(s: seq<AliasInfo>, value: nat): seq<AliasInfo> {
    if s == [] then []
    else if s[0].value == value then [s[0]] + Alike(s[1..], value)
    else Alike(s[1..], value)
  }

  /** Two or more symbols, one of them weak. */
  ghost predicate AreAliases(group: seq<AliasInfo>) {
    |group| >= 2 && exists i :: 0 <= i < |group| && group[i].isWeak
  }

  /** The end of the run of equal values that starts at `i`. */
  ghost function RunEnd(s: seq<AliasInfo>, i: nat): (j: nat)
    requires i < |s|
    ensures i < j <= |s|
    ensures forall k :: i <= k < j ==> s[k].value == s[i].value
    ensures j < |s| ==> s[j].value != s[i].value
    decreases |s| - i
  {
    if i + 1 < |s| && s[i + 1].value == s[i].value then RunEnd(s, i + 1) else i + 1
  }

  /** The runs from `i` on that are lists of aliases. */
  ghost function Lists(s: seq<AliasInfo>, i: nat): seq<seq<AliasInfo>>
    requires i <= |s|
    decreases |s| - i
  {
    if i == |s| then []
    else
      var j := RunEnd(s, i);
      (if s[i].isWeak && j - i >= 2 then [s[i..j]] else []) + Lists(s, j)
  }

  class Module {
    var aliasLists: seq<seq<AliasInfo>>

    constructor ()
      ensures aliasLists == []
    {
      aliasLists := [];
    }

    method CreateAliasList(symbol: AliasInfo)
      modifies this
      ensures aliasLists == old(aliasLists) + [[symbol]]
    {
      aliasLists := aliasLists + [[symbol]];
    }

    method AddAlias(alias: AliasInfo)
      requires aliasLists != []
      modifies this
      ensures |aliasLists| == |old(aliasLists)|
      ensures aliasLists == old(aliasLists)[|aliasLists| - 1 := old(aliasLists)[|aliasLists| - 1] + [alias]]
    {
      var last := |aliasLists| - 1;
      aliasLists := aliasLists[last := aliasLists[last] + [alias]];
    }

    /** Links a weak symbol with all that follow it and have its value; goes on behind them. */
    method LinkRun(s: seq<AliasInfo>, i: nat) returns (j: nat)
      requires i < |s|
      modifies this
      ensures j == RunEnd(s, i)
      ensures aliasLists == old(aliasLists) + if j - i >= 2 then [s[i..j]] else []
    {
      j := i + 1;
      while j < |s| && s[i].value == s[j].value
        invariant i < j <= |s| && forall k :: i <= k < j ==> s[k].value == s[i].value
        invariant aliasLists == old(aliasLists) + if j - i >= 2 then [s[i..j]] else []
      {
        if j == i + 1 {
          CreateAliasList(s[i]);
          assert s[i..j] == [s[i]];
        }
        AddAlias(s[j]);
        assert s[i..j + 1] == s[i..j] + [s[j]];
        j := j + 1;
        assert aliasLists == old(aliasLists) + [s[i..j]];
      }
      RunEndIs(s, i, j);
    }

    /** Walks the sorted symbols, jumping over each run that a weak symbol starts. */
    method AnalyzeWeakAliases(s: seq<AliasInfo>)
      requires Sorted(s)
      modifies this
      ensures aliasLists == old(aliasLists) + Lists(s, 0)
    {
      hide *;
      var i := 0;
      while i < |s|
        invariant i <= |s|
        invariant aliasLists + Lists(s, i) == old(aliasLists) + Lists(s, 0)
      {
        if s[i].isWeak {
          WeakRun(s, i);
          var j := LinkRun(s, i);
          i := j - 1;
        } else {
          GlobalRun(s, i);
        }
        i := i + 1;
      }
      NothingLeft(s);
    }
  }

  lemma WeakRun(s: seq<AliasInfo>, i: nat)
    requires i < |s| && s[i].isWeak
    ensures var j := RunEnd(s, i); Lists(s, i) == (if j - i >= 2 then [s[i..j]] else []) + Lists(s, j)
  {}

  lemma NothingLeft(s: seq<AliasInfo>)
    ensures Lists(s, |s|) == []
  {}

  lemma {:induction false} RunEndIs(s: seq<AliasInfo>, i: nat, j: nat)
    requires i < j <= |s| && forall k :: i <= k < j ==> s[k].value == s[i].value
    requires j < |s| ==> s[j].value != s[i].value
    ensures RunEnd(s, i) == j
    decreases j - i
  {
    if i + 1 < j {
      RunEndIs(s, i + 1, j);
    }
  }

  /** A global symbol is followed by no weak one of its value, so nothing is lost by walking on one by one. */
  lemma GlobalRun(s: seq<AliasInfo>, i: nat)
    requires Sorted(s) && i < |s| && !s[i].isWeak
    ensures Lists(s, i) == Lists(s, i + 1)
  {
    if i + 1 < |s| {
      assert !Less(s[i + 1], s[i]);
    }
  }

  lemma {:induction false} AlikeInRun(s: seq<AliasInfo>, j: nat, v: nat)
    requires j <= |s| && forall k :: 0 <= k < j ==> s[k].value == s[0].value
    ensures Alike(s, v) == (if j > 0 && v == s[0].value then s[..j] else []) + Alike(s[j..], v)
  {
    if j == 0 {
      assert s[0..] == s;
    } else {
      assert s[1..][j - 1..] == s[j..];
      AlikeInRun(s[1..], j - 1, v);
      assert s[..j] == [s[0]] + s[1..][..j - 1];
    }
  }

  lemma {:induction false} NoneAlike(s: seq<AliasInfo>, v: nat)
    requires forall k :: 0 <= k < |s| ==> s[k].value != v
    ensures Alike(s, v) == []
  {
    if s != [] {
      NoneAlike(s[1..], v);
    }
  }

  /** A run from which all others of its value lie behind is all there is of its value. */
  lemma RunIsGroup(s: seq<AliasInfo>, i: nat, v: nat)
    requires Sorted(s) && i < |s|
    ensures var j := RunEnd(s, i);
      Alike(s[i..], v) == if v == s[i].value then s[i..j] else Alike(s[j..], v)
    ensures RunEnd(s, i) < |s| ==> s[i].value < s[RunEnd(s, i)].value
  {
    var j := RunEnd(s, i);
    var t := s[i..];
    AlikeInRun(t, j - i, v);
    assert t[..j - i] == s[i..j] && t[j - i..] == s[j..];
    if j < |s| {
      assert !Less(s[j], s[i]);
    }
    forall k | 0 <= k < |s[j..]| ensures s[j..][k].value > s[i].value {
      assert s[j..][k] == s[j + k];
      if k > 0 {
        assert !Less(s[j + k], s[j]);
      }
    }
    if v == s[i].value {
      NoneAlike(s[j..], v);
    }
  }

  /** If a run has a weak symbol, it starts with one. */
  lemma WeakFirst(s: seq<AliasInfo>, i: nat)
    requires Sorted(s) && i < |s|
    ensures AreAliases(s[i..RunEnd(s, i)]) <==> s[i].isWeak && RunEnd(s, i) - i >= 2
  {
    var g := s[i..RunEnd(s, i)];
    if s[i].isWeak {
      assert g[0].isWeak;
    } else {
      forall k | 0 <= k < |g| ensures !g[k].isWeak {
        if k > 0 {
          assert !Less(s[i + k], s[i]);
        }
      }
    }
  }

  /** A list is all symbols of one value from `i` on, and they are aliases. */
  ghost predicate IsGroup(s: seq<AliasInfo>, i: nat, list: seq<AliasInfo>)
    requires i < |s|
  {
    AreAliases(list) && s[i].value <= list[0].value && list == Alike(s[i..], list[0].value)
  }

  /** Every list is a group, and the groups come in the order of their values: none twice. */
  lemma {:induction false} ListsAreGroups(s: seq<AliasInfo>, i: nat)
    requires Sorted(s) && i < |s|
    ensures forall k :: 0 <= k < |Lists(s, i)| ==> IsGroup(s, i, Lists(s, i)[k])
    ensures forall k, l :: 0 <= k < l < |Lists(s, i)| ==>
      |Lists(s, i)[k]| > 0 && |Lists(s, i)[l]| > 0 && Lists(s, i)[k][0].value < Lists(s, i)[l][0].value
    decreases |s| - i
  {
    var j := RunEnd(s, i);
    var lists, rest := Lists(s, i), Lists(s, j);
    var first := if s[i].isWeak && j - i >= 2 then [s[i..j]] else [];
    assert lists == first + rest;
    WeakFirst(s, i);
    RunIsGroup(s, i, s[i].value);
    if j < |s| {
      ListsAreGroups(s, j);
      forall k | 0 <= k < |rest| ensures IsGroup(s, i, rest[k]) && rest[k][0].value > s[i].value {
        assert IsGroup(s, j, rest[k]);
        RunIsGroup(s, i, rest[k][0].value);
      }
    }
    hide Sorted, Lists, RunEnd;
    assert forall k :: 0 <= k < |lists| ==> IsGroup(s, i, lists[k]);
    forall k, l | 0 <= k < l < |lists| ensures lists[k][0].value < lists[l][0].value {
      assert lists[l] == rest[l - |first|];
      if k >= |first| {
        assert lists[k] == rest[k - |first|];
      }
    }
  }

  /** Every group of aliases has its list. */
  lemma {:induction false} GroupsAreListed(s: seq<AliasInfo>, i: nat, v: nat)
    requires Sorted(s) && i <= |s| && AreAliases(Alike(s[i..], v))
    ensures Alike(s[i..], v) in Lists(s, i)
    decreases |s| - i
  {
    var j := RunEnd(s, i);
    RunIsGroup(s, i, v);
    WeakFirst(s, i);
    if v != s[i].value {
      GroupsAreListed(s, j, v);
    }
  }

  lemma {:induction false} CountAlike(s: seq<AliasInfo>, v: nat, x: AliasInfo)
    ensures multiset(Alike(s, v))[x] == if x.value == v then multiset(s)[x] else 0
  {
    if s != [] {
      CountAlike(s[1..], v, x);
      assert s == [s[0]] + s[1..];
    }
  }

  lemma SameAliases(g: seq<AliasInfo>, h: seq<AliasInfo>)
    requires multiset(g) == multiset(h)
    ensures AreAliases(g) ==> AreAliases(h)
  {
    assert |multiset(g)| == |g| && |multiset(h)| == |h|;
    if AreAliases(g) {
      var i :| 0 <= i < |g| && g[i].isWeak;
      assert g[i] in multiset(h);
    }
  }

  /** Sorting changes no group but the order inside it. */
  lemma AlikePermuted(s: seq<AliasInfo>, t: seq<AliasInfo>, v: nat)
    requires multiset(s) == multiset(t)
    ensures multiset(Alike(s, v)) == multiset(Alike(t, v))
    ensures AreAliases(Alike(s, v)) <==> AreAliases(Alike(t, v))
  {
    forall x: AliasInfo ensures multiset(Alike(s, v))[x] == multiset(Alike(t, v))[x] {
      CountAlike(s, v, x);
      CountAlike(t, v, x);
    }
    SameAliases(Alike(s, v), Alike(t, v));
    SameAliases(Alike(t, v), Alike(s, v));
  }

  /** The list holds just the symbols that were read with that value. */
  ghost predicate IsListOf(list: seq<AliasInfo>, read: seq<AliasInfo>, v: nat) {
    list != [] && multiset(list) == multiset(Alike(read, v))
  }

  lemma ValueOfList(list: seq<AliasInfo>, read: seq<AliasInfo>, v: nat)
    requires IsListOf(list, read, v)
    ensures list[0].value == v
  {
    CountAlike(read, v, list[0]);
    assert list[0] in multiset(list);
  }

  /** For the symbols as they were read: those of one value have a list exactly when they are aliases, and only one. */
  lemma ListsOfAll(read: seq<AliasInfo>, sorted: seq<AliasInfo>, v: nat)
    requires Sorted(sorted) && multiset(read) == multiset(sorted)
    ensures AreAliases(Alike(read, v)) <==>
      exists k :: 0 <= k < |Lists(sorted, 0)| && IsListOf(Lists(sorted, 0)[k], read, v)
    ensures forall k, l :: 0 <= k < l < |Lists(sorted, 0)| ==>
      !IsListOf(Lists(sorted, 0)[k], read, v) || !IsListOf(Lists(sorted, 0)[l], read, v)
  {
    var lists := Lists(sorted, 0);
    AlikePermuted(read, sorted, v);
    assert sorted[0..] == sorted;
    if sorted == [] {
      assert |multiset(read)| == 0;
      return;
    }
    ListsAreGroups(sorted, 0);
    hide Lists, Sorted, Alike;
    forall k | 0 <= k < |lists| && IsListOf(lists[k], read, v)
      ensures AreAliases(Alike(read, v)) && lists[k][0].value == v
    {
      ValueOfList(lists[k], read, v);
      assert IsGroup(sorted, 0, lists[k]);
    }
    if AreAliases(Alike(sorted, v)) {
      GroupsAreListed(sorted, 0, v);
      var k :| 0 <= k < |lists| && lists[k] == Alike(sorted, v);
      assert IsListOf(lists[k], read, v);
    }
  }
}
