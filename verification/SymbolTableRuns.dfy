/** Whole runs over the output symbol table: where each symbol ends up, and that the locals come first. */
module SymbolTableRuns {
  import opened SymbolCategories

  /** One call on the table. A settling is a ChangeCommonsToGlobal, with the commons that became dynamic and regular. */
  datatype Op<!S> =
    | Add(s: S, region: nat)
    | Arrange(s: S, source: nat, target: nat)
    | Settle(toDynamic: multiset<S>, toRegular: multiset<S>)

  ghost predicate Holds<S>(b: seq<multiset<S>>, s: S)
    requires |b| == 6
  {
    exists c :: 0 <= c < 6 && s in b[c]
  }

  /** One call takes the regions from `b` to `b'`. A symbol is added at most once. */
  ghost predicate Step<S>(b: seq<multiset<S>>, op: Op<S>, b': seq<multiset<S>>)
    requires |b| == 6 && |b'| == 6
  {
    match op
    case Add(s, c) => c < 6 && !Holds(b, s) && b' == Added(b, s, c)
    case Arrange(s, source, target) =>
      source < 6 && target < 6 && Holds(b, s) && b' == Arranged(b, s, source, target)
    case Settle(d, r) => Settling(b, b', d, r) && b'[COMMON] == multiset{}
  }

  /** A run of calls from the empty table: the regions before the first call and after each. */
  ghost predicate Run<S>(states: seq<seq<multiset<S>>>, ops: seq<Op<S>>) {
    && |states| == |ops| + 1
    && (forall i :: 0 <= i < |states| ==> |states[i]| == 6)
    && (forall c :: 0 <= c < 6 ==> states[0][c] == multiset{})
    && (forall i :: 0 <= i < |ops| ==> Step(states[i], ops[i], states[i + 1]))
  }

  datatype Place = Nowhere | In(region: nat)

  /** Where a call puts a symbol. */
  ghost function Put<S>(op: Op<S>, s: S, before: Place): Place {
    match op
    case Add(x, c) => if x == s then In(c) else before
    case Arrange(x, source, target) => if x == s && source != target then In(target) else before
    case Settle(d, r) =>
      if before != In(COMMON) then before else if s in d then In(DYNAMIC) else if s in r then In(REGULAR) else before
  }

  /** Where the calls put a symbol: the last target stated for it, except that an arrangement whose stated source is
      its target changes nothing, and that settling moves it only out of the common region. */
  ghost function PlaceOf<S>(ops: seq<Op<S>>, s: S): Place {
    if ops == [] then Nowhere
    else Put(ops[|ops| - 1], s, PlaceOf(ops[..|ops| - 1], s))
  }

  /** A symbol is in the region its place names, once, and in no other. */
  ghost predicate Placed<S>(b: seq<multiset<S>>, s: S, p: Place)
    requires |b| == 6
  {
    forall c :: 0 <= c < 6 ==> b[c][s] == if p == In(c) then 1 else 0
  }

  lemma MovedPlaced<S>(b: seq<multiset<S>>, x: S, from: nat, target: nat, s: S, p: Place)
    requires |b| == 6 && from < 6 && target < 6 && x in b[from] && Placed(b, s, p)
    ensures Placed(Moved(b, x, from, target), s, if x == s then In(target) else p)
  {
    var b' := Moved(b, x, from, target);
    if x == s {
      assert p == In(from);
    }
    forall c | 0 <= c < 6 ensures b'[c][s] == if (if x == s then In(target) else p) == In(c) then 1 else 0 {
      if from != target {
        MovedAt(b, x, from, target, c);
      }
    }
  }

  lemma ArrangedPlaced<S>(b: seq<multiset<S>>, x: S, source: nat, target: nat, s: S, p: Place)
    requires |b| == 6 && source < 6 && target < 6 && Holds(b, x) && Placed(b, s, p)
    ensures Placed(Arranged(b, x, source, target), s, if x == s && source != target then In(target) else p)
  {
    hide Moved, Placed;
    if source != target {
      MovedPlaced(b, x, if x in b[source] then source else Holder(b, x, 0), target, s, p);
    }
  }

  lemma AddedPlaced<S>(b: seq<multiset<S>>, x: S, c: nat, s: S, p: Place)
    requires |b| == 6 && c < 6 && !Holds(b, x) && Placed(b, s, p) && (p.Nowhere? || p.region < 6)
    ensures Placed(Added(b, x, c), s, if x == s then In(c) else p)
  {
    if x == s {
      assert forall d :: 0 <= d < 6 ==> s !in b[d];
    }
  }

  lemma SettledPlaced<S>(b: seq<multiset<S>>, d: multiset<S>, r: multiset<S>, b': seq<multiset<S>>, s: S, p: Place)
    requires Settling(b, b', d, r) && b'[COMMON] == multiset{} && Placed(b, s, p) && (p.Nowhere? || p.region < 6)
    ensures Placed(b', s, Put(Settle(d, r), s, p))
  {
    assert b'[COMMON][s] + d[s] + r[s] == b[COMMON][s];
    assert b'[DYNAMIC][s] == b[DYNAMIC][s] + d[s] && b'[REGULAR][s] == b[REGULAR][s] + r[s];
    var q := Put(Settle(d, r), s, p);
    forall c | 0 <= c < 6 ensures b'[c][s] == if q == In(c) then 1 else 0 {
      if c <= LOCAL_DYN {
        assert b'[c] == b[c];
      }
    }
  }

  lemma StepKeepsPlaced<S>(b: seq<multiset<S>>, op: Op<S>, b': seq<multiset<S>>, s: S, p: Place)
    requires |b| == 6 && |b'| == 6 && Step(b, op, b') && Placed(b, s, p) && (p.Nowhere? || p.region < 6)
    ensures var q := Put(op, s, p); Placed(b', s, q) && (q.Nowhere? || q.region < 6)
  {
    hide Placed, Arranged, Added, Settling, Holds;
    match op
    case Add(x, c) => AddedPlaced(b, x, c, s, p);
    case Arrange(x, source, target) => ArrangedPlaced(b, x, source, target, s, p);
    case Settle(d, r) => SettledPlaced(b, d, r, b', s, p);
  }

  /** Over every run: each symbol is exactly where its calls put it. */
  lemma {:induction false} EachSymbolIsPlaced<S>(states: seq<seq<multiset<S>>>, ops: seq<Op<S>>, s: S)
    requires Run(states, ops)
    ensures var p := PlaceOf(ops, s); Placed(states[|ops|], s, p) && (p.Nowhere? || p.region < 6)
  {
    if ops != [] {
      var n := |ops| - 1;
      EachSymbolIsPlaced(states[..|ops|], ops[..n], s);
      StepKeepsPlaced(states[n], ops[n], states[n + 1], s, PlaceOf(ops[..n], s));
    }
  }

  ghost function Union<S>(b: seq<multiset<S>>, c: nat): multiset<S>
    requires c <= |b|
  {
    if c == 0 then multiset{} else Union(b, c - 1) + b[c - 1]
  }

  lemma Split<S>(s: seq<S>, i: nat, j: nat)
    requires i <= j <= |s|
    ensures multiset(s[..j]) == multiset(s[..i]) + multiset(s[i..j])
    ensures |multiset(s[..j])| == j
  {
    assert s[..j] == s[..i] + s[i..j];
  }

  /** The boundaries are the sums of the sizes, which is how the public iterators find them; what stands before a
      boundary is what the earlier regions hold. */
  lemma {:induction false} BoundariesAreSums<S>(symbols: seq<S>, begins: seq<nat>, ends: seq<nat>, c: nat)
    requires Tiles(begins, ends, |symbols|) && c < 6
    ensures ends[c] <= |symbols|
    ensures ends[c] == |Union(Bags(symbols, begins, ends), c + 1)|
    ensures multiset(symbols[..ends[c]]) == Union(Bags(symbols, begins, ends), c + 1)
  {
    var before := if c == 0 then 0 else ends[c - 1];
    assert before == begins[c];
    BagIs(symbols, begins, ends, c);
    hide Bags;
    if c > 0 {
      BoundariesAreSums(symbols, begins, ends, c - 1);
    }
    hide Tiles;
    Split(symbols, before, ends[c]);
  }

  lemma {:induction false} CountBefore<S>(b: seq<multiset<S>>, s: S, p: Place, c: nat)
    requires |b| == 6 && c <= 6 && Placed(b, s, p)
    ensures Union(b, c)[s] == if p.In? && p.region < c then 1 else 0
  {
    if c > 0 {
      CountBefore(b, s, p, c - 1);
    }
  }

  lemma SizeBefore<S>(b: seq<multiset<S>>)
    requires |b| == 6
    ensures |Union(b, 3)| == |b[FILE]| + |b[LOCAL]| + |b[LOCAL_DYN]|
  {
    assert Union(b, 1) == b[FILE] && Union(b, 2) == b[FILE] + b[LOCAL];
  }

  /** The table that a run leaves: its first entries, as many as the files, locals and dynamic locals together, are
      the symbols that their calls put there. All others follow. */
  lemma LocalsComeFirst<S>(symbols: seq<S>, begins: seq<nat>, ends: seq<nat>,
                           states: seq<seq<multiset<S>>>, ops: seq<Op<S>>, i: nat)
    requires Tiles(begins, ends, |symbols|) && Run(states, ops) && i < |symbols|
    requires Bags(symbols, begins, ends) == states[|ops|]
    ensures var b := states[|ops|];
      i < |b[FILE]| + |b[LOCAL]| + |b[LOCAL_DYN]| <==> 
        (PlaceOf(ops, symbols[i]).In? && PlaceOf(ops, symbols[i]).region <= LOCAL_DYN)
    ensures symbols[i] !in symbols[..i]
  {
    var b, p := states[|ops|], PlaceOf(ops, symbols[i]);
    EachSymbolIsPlaced(states, ops, symbols[i]);
    BoundariesAreSums(symbols, begins, ends, LOCAL_DYN);
    BoundariesAreSums(symbols, begins, ends, REGULAR);
    SizeBefore(b);
    CountBefore(b, symbols[i], p, 3);
    CountBefore(b, symbols[i], p, 6);
    assert ends[REGULAR] == |symbols| && symbols[..|symbols|] == symbols;
    hide Run, PlaceOf, Placed, Union, Bags, Tiles;
    Once(symbols, i, ends[LOCAL_DYN]);
  }

  lemma Once<S>(s: seq<S>, i: nat, n: nat)
    requires i < |s| && n <= |s| && multiset(s)[s[i]] <= 1
    ensures s[i] !in s[..i]
    ensures i < n <==> s[i] in multiset(s[..n])
  {
    assert s == s[..i] + [s[i]] + s[i + 1..];
    assert s[i] !in s[..i] && s[i] !in s[i + 1..];
    assert forall j :: i < j < |s| ==> s[j] == s[i + 1..][j - i - 1];
  }
}
