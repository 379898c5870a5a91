/** The output symbol table: one array in six contiguous regions, kept by swaps at the boundaries. */
module SymbolCategories {
  import opened ResolveInfos

  /** The regions, in the order in which they stand in the table. */
  const FILE: nat := 0
  const LOCAL: nat := 1
  const LOCAL_DYN: nat := 2
  const COMMON: nat := 3
  const DYNAMIC: nat := 4
  const REGULAR: nat := 5

  /** ResolveInfo's number for a file symbol, in place. */
  const FILE_KIND: bv32 := 0x200

  function Categorize(i: Info): (c: nat)
    ensures c < 6
  {
    if i.kind == FILE_KIND then FILE
    else if i.binding == Local then LOCAL
    else if i.desc == Common then COMMON
    else if i.visibility == Default || i.visibility == Protected then DYNAMIC
    else REGULAR
  }

  /** Six regions that tile the table. */
  ghost predicate Tiles(begins: seq<nat>, ends: seq<nat>, size: nat) {
    && |begins| == 6 && |ends| == 6
    && begins[0] == 0 && ends[5] == size
    && (forall c :: 0 <= c < 6 ==> begins[c] <= ends[c])
    && (forall c :: 0 <= c < 5 ==> ends[c] == begins[c + 1])
  }

  lemma {:induction false} RegionBounds(begins: seq<nat>, ends: seq<nat>, size: nat, c: nat, d: nat)
    requires Tiles(begins, ends, size) && c <= d < 6
    ensures begins[c] <= ends[c] <= ends[d] <= size
    ensures c < d ==> ends[c] <= begins[d]
    decreases 6 - c
  {
    if c < 5 {
      RegionBounds(begins, ends, size, c + 1, if d == c then d + 1 else d);
    }
  }

  /** The symbols of each region, in no particular order. */
  ghost function Bags<S>(symbols: seq<S>, begins: seq<nat>, ends: seq<nat>): (b: seq<multiset<S>>)
    requires Tiles(begins, ends, |symbols|)
    ensures |b| == 6
  {
    seq(6, c requires 0 <= c < 6 =>
      RegionBounds(begins, ends, |symbols|, c, c); multiset(symbols[begins[c]..ends[c]]))
  }

  /** One more symbol in region `c`. */
  ghost function Added<S>(b: seq<multiset<S>>, s: S, c: nat): (r: seq<multiset<S>>)
    requires |b| == 6 && c < 6
    ensures |r| == 6
  {
    b[c := b[c] + multiset{s}]
  }

  /** One symbol moved from region `c` to region `d`, all others where they were. */
  ghost function Moved<S>(b: seq<multiset<S>>, s: S, c: nat, d: nat): (r: seq<multiset<S>>)
    requires |b| == 6 && c < 6 && d < 6
    ensures |r| == 6
  {
    if c == d then b else b[c := b[c] - multiset{s}][d := b[d] + multiset{s}]
  }

  /** The first region from `c` on that holds the symbol. */
  ghost function Holder<S>(b: seq<multiset<S>>, s: S, c: nat): (r: nat)
    requires |b| == 6 && exists d :: c <= d < 6 && s in b[d]
    ensures c <= r < 6 && s in b[r]
    ensures forall d :: c <= d < r ==> s !in b[d]
    decreases 6 - c
  {
    if s in b[c] then c else Holder(b, s, c + 1)
  }

  /** What an arrangement does: nothing when the stated source is the target; otherwise the symbol goes to the target,
      from the stated source when it is there, else from wherever it is first found. */
  ghost function Arranged<S>(b: seq<multiset<S>>, s: S, source: nat, target: nat): (r: seq<multiset<S>>)
    requires |b| == 6 && source < 6 && target < 6
    requires source != target ==> exists d :: 0 <= d < 6 && s in b[d]
    ensures |r| == 6
  {
    if source == target then b
    else if s in b[source] then Moved(b, s, source, target)
    else Moved(b, s, Holder(b, s, 0), target)
  }

  lemma Unmoved<S>(b: seq<multiset<S>>, s: S, c: nat)
    requires |b| == 6 && c < 6
    ensures Moved(b, s, c, c) == b
  {}

  lemma MovedAt<S>(b: seq<multiset<S>>, s: S, i: nat, j: nat, k: nat)
    requires |b| == 6 && i < 6 && j < 6 && i != j && k < 6
    ensures k == i ==> Moved(b, s, i, j)[k] == b[k] - multiset{s}
    ensures k == j ==> Moved(b, s, i, j)[k] == b[k] + multiset{s}
    ensures k != i && k != j ==> Moved(b, s, i, j)[k] == b[k]
  {}

  lemma MovedOn<S>(b: seq<multiset<S>>, s: S, i: nat, j: nat, k: nat)
    requires |b| == 6 && i < 6 && j < 6 && k < 6 && i != k && j != k && s in b[i]
    ensures Moved(Moved(b, s, i, j), s, j, k) == Moved(b, s, i, k)
  {
    assert (b[j] + multiset{s}) - multiset{s} == b[j];
  }

  lemma AddedOn<S>(b: seq<multiset<S>>, s: S, j: nat, k: nat)
    requires |b| == 6 && j < 6 && k < 6 && j != k
    ensures Moved(Added(b, s, j), s, j, k) == Added(b, s, k)
  {
    assert (b[j] + multiset{s}) - multiset{s} == b[j];
    assert b[j := b[j]] == b;
  }

  /** std::swap on two places of the table. */
  function Swapped<S>(s: seq<S>, i: nat, j: nat): (r: seq<S>)
    requires i < |s| && j < |s|
    ensures |r| == |s|
  {
    s[i := s[j]][j := s[i]]
  }

  lemma SwapInside<S>(s: seq<S>, i: nat, j: nat, lo: nat, hi: nat)
    requires lo <= i < hi <= |s| && lo <= j < hi
    ensures multiset(Swapped(s, i, j)[lo..hi]) == multiset(s[lo..hi])
  {
    var t := s[lo..hi];
    assert Swapped(s, i, j)[lo..hi] == t[i - lo := t[j - lo]][j - lo := t[i - lo]];
  }

  lemma SwapOutside<S>(s: seq<S>, i: nat, j: nat, lo: nat, hi: nat)
    requires i < |s| && j < |s| && lo <= hi <= |s|
    requires !(lo <= i < hi) && !(lo <= j < hi)
    ensures Swapped(s, i, j)[lo..hi] == s[lo..hi]
  {}

  lemma WithoutLast<S>(s: seq<S>, lo: nat, hi: nat)
    requires lo < hi <= |s|
    ensures multiset(s[lo..hi - 1]) == multiset(s[lo..hi]) - multiset{s[hi - 1]}
  {
    assert s[lo..hi] == s[lo..hi - 1] + [s[hi - 1]];
  }

  lemma WithoutFirst<S>(s: seq<S>, lo: nat, hi: nat)
    requires lo < hi <= |s|
    ensures multiset(s[lo + 1..hi]) == multiset(s[lo..hi]) - multiset{s[lo]}
  {
    assert s[lo..hi] == [s[lo]] + s[lo + 1..hi];
  }

  lemma TilesDown(begins: seq<nat>, ends: seq<nat>, size: nat, c: nat)
    requires Tiles(begins, ends, size) && c < 5 && begins[c] < ends[c]
    ensures Tiles(begins[c + 1 := ends[c] - 1], ends[c := ends[c] - 1], size)
    ensures |begins| == 6 && |ends| == 6 && begins[c + 1] == ends[c] <= ends[c + 1] <= size
  {
    RegionBounds(begins, ends, size, c + 1, c + 1);
  }

  lemma TilesUp(begins: seq<nat>, ends: seq<nat>, size: nat, c: nat)
    requires Tiles(begins, ends, size) && 0 < c < 6 && begins[c] < ends[c]
    ensures Tiles(begins[c := begins[c] + 1], ends[c - 1 := begins[c] + 1], size)
    ensures |begins| == 6 && |ends| == 6 && begins[c - 1] <= begins[c] == ends[c - 1] < size
  {
    RegionBounds(begins, ends, size, c, c);
  }

  /** The range that ends at `end` gives up what stood at `pos`... */
  lemma LeavesDown<S>(s: seq<S>, pos: nat, lo: nat, end: nat)
    requires lo <= pos < end <= |s|
    ensures multiset(Swapped(s, pos, end - 1)[lo..end - 1]) == multiset(s[lo..end]) - multiset{s[pos]}
  {
    var after := Swapped(s, pos, end - 1);
    assert after[end - 1] == s[pos];
    hide Swapped;
    SwapInside(s, pos, end - 1, lo, end);
    WithoutLast(after, lo, end);
  }

  /** ...and the one that starts there takes it in. */
  lemma EntersDown<S>(s: seq<S>, pos: nat, end: nat, hi: nat)
    requires pos < end <= hi <= |s|
    ensures multiset(Swapped(s, pos, end - 1)[end - 1..hi]) == multiset(s[end..hi]) + multiset{s[pos]}
  {
    var after := Swapped(s, pos, end - 1);
    assert after[end - 1..hi] == [s[pos]] + s[end..hi];
  }

  /** The range that starts at `front` gives up what stood at `pos`... */
  lemma LeavesUp<S>(s: seq<S>, front: nat, pos: nat, hi: nat)
    requires front <= pos < hi <= |s|
    ensures multiset(Swapped(s, front, pos)[front + 1..hi]) == multiset(s[front..hi]) - multiset{s[pos]}
  {
    var after := Swapped(s, front, pos);
    assert after[front] == s[pos];
    hide Swapped;
    SwapInside(s, front, pos, front, hi);
    WithoutFirst(after, front, hi);
  }

  /** ...and the one that ends there takes it in. */
  lemma EntersUp<S>(s: seq<S>, front: nat, pos: nat, lo: nat)
    requires lo <= front <= pos < |s|
    ensures multiset(Swapped(s, front, pos)[lo..front + 1]) == multiset(s[lo..front]) + multiset{s[pos]}
  {
    var after := Swapped(s, front, pos);
    assert after[lo..front + 1] == s[lo..front] + [s[pos]];
  }

  lemma BagIs<S>(symbols: seq<S>, begins: seq<nat>, ends: seq<nat>, d: nat)
    requires Tiles(begins, ends, |symbols|) && d < 6
    ensures |begins| == 6 && |ends| == 6 && begins[d] <= ends[d] <= |symbols|
    ensures Bags(symbols, begins, ends)[d] == multiset(symbols[begins[d]..ends[d]])
  {
    RegionBounds(begins, ends, |symbols|, d, d);
  }

  lemma DownAt<S>(symbols: seq<S>, begins: seq<nat>, ends: seq<nat>, begins': seq<nat>, ends': seq<nat>,
                  pos: nat, c: nat, d: nat)
    requires Tiles(begins, ends, |symbols|) && Tiles(begins', ends', |symbols|)
    requires c < 5 && d < 6 && begins[c] <= pos < ends[c] <= |symbols|
    requires begins'[d] == (if d == c + 1 then ends[c] - 1 else begins[d])
    requires ends'[d] == (if d == c then ends[c] - 1 else ends[d])
    ensures Bags(Swapped(symbols, pos, ends[c] - 1), begins', ends')[d]
         == Moved(Bags(symbols, begins, ends), symbols[pos], c, c + 1)[d]
  {
    hide Bags, Swapped, Moved;
    assert begins[c + 1] == ends[c];
    RegionBounds(begins, ends, |symbols|, if d < c then d else c, if d < c then c else d);
    hide Tiles;
    BagIs(symbols, begins, ends, d);
    BagIs(Swapped(symbols, pos, ends[c] - 1), begins', ends', d);
    MovedAt(Bags(symbols, begins, ends), symbols[pos], c, c + 1, d);
    if d == c {
      LeavesDown(symbols, pos, begins[c], ends[c]);
    } else if d == c + 1 {
      EntersDown(symbols, pos, ends[c], ends[d]);
    } else {
      SwapOutside(symbols, pos, ends[c] - 1, begins[d], ends[d]);
    }
  }

  /** A symbol swapped to the rear of its region, and the boundary drawn before it: it is in the next one. */
  lemma StepDown<S>(symbols: seq<S>, begins: seq<nat>, ends: seq<nat>, pos: nat, c: nat)
    requires Tiles(begins, ends, |symbols|) && c < 5 && begins[c] <= pos < ends[c] <= |symbols|
    ensures Tiles(begins[c + 1 := ends[c] - 1], ends[c := ends[c] - 1], |symbols|)
    ensures Bags(Swapped(symbols, pos, ends[c] - 1), begins[c + 1 := ends[c] - 1], ends[c := ends[c] - 1])
         == Moved(Bags(symbols, begins, ends), symbols[pos], c, c + 1)
  {
    hide Bags, Swapped, Moved;
    TilesDown(begins, ends, |symbols|, c);
    hide Tiles;
    var now := Bags(Swapped(symbols, pos, ends[c] - 1), begins[c + 1 := ends[c] - 1], ends[c := ends[c] - 1]);
    var goal := Moved(Bags(symbols, begins, ends), symbols[pos], c, c + 1);
    forall d | 0 <= d < 6
      ensures now[d] == goal[d]
    {
      DownAt(symbols, begins, ends, begins[c + 1 := ends[c] - 1], ends[c := ends[c] - 1], pos, c, d);
    }
  }

  lemma UpAt<S>(symbols: seq<S>, begins: seq<nat>, ends: seq<nat>, begins': seq<nat>, ends': seq<nat>,
                pos: nat, c: nat, d: nat)
    requires Tiles(begins, ends, |symbols|) && Tiles(begins', ends', |symbols|)
    requires c < 5 && d < 6 && begins[c + 1] <= pos < ends[c + 1] <= |symbols|
    requires begins'[d] == (if d == c + 1 then begins[c + 1] + 1 else begins[d])
    requires ends'[d] == (if d == c then begins[c + 1] + 1 else ends[d])
    ensures Bags(Swapped(symbols, begins[c + 1], pos), begins', ends')[d]
         == Moved(Bags(symbols, begins, ends), symbols[pos], c + 1, c)[d]
  {
    hide Bags, Swapped, Moved;
    assert begins[c + 1] == ends[c];
    RegionBounds(begins, ends, |symbols|, if d < c + 1 then d else c + 1, if d < c + 1 then c + 1 else d);
    hide Tiles;
    BagIs(symbols, begins, ends, d);
    BagIs(Swapped(symbols, begins[c + 1], pos), begins', ends', d);
    MovedAt(Bags(symbols, begins, ends), symbols[pos], c + 1, c, d);
    if d == c + 1 {
      LeavesUp(symbols, begins[c + 1], pos, ends[d]);
    } else if d == c {
      EntersUp(symbols, begins[c + 1], pos, begins[d]);
    } else {
      SwapOutside(symbols, begins[c + 1], pos, begins[d], ends[d]);
    }
  }

  /** A symbol swapped to the front of its region, and the boundary drawn after it: it is in the previous one. */
  lemma StepUp<S>(symbols: seq<S>, begins: seq<nat>, ends: seq<nat>, pos: nat, c: nat)
    requires Tiles(begins, ends, |symbols|) && c < 5 && begins[c + 1] <= pos < ends[c + 1] <= |symbols|
    ensures Tiles(begins[c + 1 := begins[c + 1] + 1], ends[c := begins[c + 1] + 1], |symbols|)
    ensures Bags(Swapped(symbols, begins[c + 1], pos), begins[c + 1 := begins[c + 1] + 1], ends[c := begins[c + 1] + 1])
         == Moved(Bags(symbols, begins, ends), symbols[pos], c + 1, c)
  {
    hide Bags, Swapped, Moved;
    TilesUp(begins, ends, |symbols|, c + 1);
    hide Tiles;
    var begins', ends' := begins[c + 1 := begins[c + 1] + 1], ends[c := begins[c + 1] + 1];
    var now, goal := Bags(Swapped(symbols, begins[c + 1], pos), begins', ends'),
                     Moved(Bags(symbols, begins, ends), symbols[pos], c + 1, c);
    forall d | 0 <= d < 6
      ensures now[d] == goal[d]
    {
      UpAt(symbols, begins, ends, begins', ends', pos, c, d);
    }
  }

  /** A region holds a symbol exactly when a position between its boundaries does. */
  lemma Found<S>(symbols: seq<S>, begins: seq<nat>, ends: seq<nat>, c: nat, s: S)
    requires Tiles(begins, ends, |symbols|) && c < 6
    ensures |begins| == 6 && |ends| == 6 && begins[c] <= ends[c] <= |symbols|
    ensures s in Bags(symbols, begins, ends)[c] <==> exists p :: begins[c] <= p < ends[c] && symbols[p] == s
  {
    BagIs(symbols, begins, ends, c);
    hide Bags, Tiles;
    var range := symbols[begins[c]..ends[c]];
    if s in range {
      var i :| 0 <= i < |range| && range[i] == s;
      assert symbols[begins[c] + i] == s;
    }
    if p: int :| begins[c] <= p < ends[c] && symbols[p] == s {
      assert range[p - begins[c]] == s;
    }
  }

  /** A symbol of the output table: the attributes its resolution left it with. */
  class LDSymbol {
    var info: Info

    constructor (info: Info)
      ensures this.info == info
    {
      this.info := info;
    }
  }

  class SymbolCategory {
    var symbols: seq<LDSymbol>
    var begins: seq<nat>
    var ends: seq<nat>

    ghost predicate Valid()
      reads this
    {
      Tiles(begins, ends, |symbols|)
    }

    /** What the regions hold. */
    ghost function Regions(): (b: seq<multiset<LDSymbol>>)
      reads this
      requires Valid()
      ensures |b| == 6
    {
      Bags(symbols, begins, ends)
    }

    constructor ()
      ensures Valid() && Regions() == seq(6, c => multiset{})
    {
      symbols := [];
      begins := [0, 0, 0, 0, 0, 0];
      ends := [0, 0, 0, 0, 0, 0];
      new;
      forall c: nat | c < 6 ensures Regions()[c] == multiset{} {
        BagIs(symbols, begins, ends, c);
      }
    }

    /** The symbol is pushed at the rear and bubbles up to its region, one boundary at a time. */
    method AddTo(symbol: LDSymbol, target: nat)
      requires Valid() && target < 6
      modifies this
      ensures Valid() && Regions() == Added(old(Regions()), symbol, target)
    {
      hide Tiles, Bags, Added, Moved, Swapped;
      ghost var was := Regions();
      PushedRear(symbols, begins, ends, symbol);
      symbols := symbols + [symbol];
      var current := REGULAR;
      while current != target
        invariant target <= current < 6 && |begins| == 6 && |ends| == 6
        invariant Tiles(begins, ends[current := ends[current] + 1], |symbols|)
        invariant begins[current] <= ends[current] < |symbols| && symbols[ends[current]] == symbol
        invariant Bags(symbols, begins, ends[current := ends[current] + 1]) == Added(was, symbol, current)
      {
        ghost var rear := ends[current := ends[current] + 1];
        StepUp(symbols, begins, rear, ends[current], current - 1);
        Bubbled(begins, ends, |symbols|, current);
        AddedOn(was, symbol, current, current - 1);
        SwappedBack(symbols, begins[current], ends[current]);
        if begins[current] != ends[current] {
          symbols := Swapped(symbols, begins[current], ends[current]);
        }
        ends := ends[current := ends[current] + 1];
        begins := begins[current := begins[current] + 1];
        current := current - 1;
      }
      ends := ends[current := ends[current] + 1];
    }

    /** The place of a symbol in a region, or the region's end. */
    method Search(symbol: LDSymbol, c: nat) returns (pos: nat)
      requires Valid() && c < 6
      ensures |begins| == 6 && |ends| == 6 && begins[c] <= pos <= ends[c] <= |symbols|
      ensures pos < ends[c] ==> symbols[pos] == symbol
      ensures pos < ends[c] <==> symbol in Regions()[c]
    {
      Found(symbols, begins, ends, c, symbol);
      hide Tiles, Bags;
      pos := begins[c];
      while pos != ends[c] && symbols[pos] != symbol
        invariant begins[c] <= pos <= ends[c]
        invariant forall p :: begins[c] <= p < pos ==> symbols[p] != symbol
      {
        pos := pos + 1;
      }
    }

    /** The symbol changes places with the last of its region, and the boundary moves before it. */
    method CrossDown(symbol: LDSymbol, c: nat, pos: nat, ghost was: seq<multiset<LDSymbol>>, ghost source: nat)
      returns (rear: nat)
      requires OnItsWay(symbols, begins, ends, was, symbol, source, c, pos) && source <= c < 5
      modifies this
      ensures OnItsWay(symbols, begins, ends, was, symbol, source, c + 1, rear)
    {
      hide Tiles, Bags, Moved, OnItsWay, Swapped;
      SinkOnce(symbols, begins, ends, was, symbol, source, c, pos);
      rear := ends[c] - 1;
      symbols := Swapped(symbols, pos, rear);
      begins := begins[c + 1 := begins[c + 1] - 1];
      ends := ends[c := ends[c] - 1];
    }

    /** Downward: one boundary after the other is drawn before the symbol. */
    method Sink(symbol: LDSymbol, source: nat, target: nat, at: nat)
      requires Valid() && source < target < 6 && begins[source] <= at < ends[source] <= |symbols|
      requires symbols[at] == symbol
      modifies this
      ensures Valid() && Regions() == Moved(old(Regions()), symbol, source, target)
    {
      ghost var was := Regions();
      SetOut(symbols, begins, ends, source, at);
      var current: nat, pos: nat := source, at;
      hide Tiles, Bags, Moved, OnItsWay, Swapped;
      while current != target
        invariant source <= current <= target
        invariant OnItsWay(symbols, begins, ends, was, symbol, source, current, pos)
      {
        pos := CrossDown(symbol, current, pos, was, source);
        current := current + 1;
      }
      Arrives(symbols, begins, ends, was, symbol, source, target, pos);
    }

    /** The symbol changes places with the first of its region, and the boundary moves after it. */
    method CrossUp(symbol: LDSymbol, c: nat, pos: nat, ghost was: seq<multiset<LDSymbol>>, ghost source: nat)
      returns (front: nat)
      requires OnItsWay(symbols, begins, ends, was, symbol, source, c, pos) && 0 < c <= source
      modifies this
      ensures OnItsWay(symbols, begins, ends, was, symbol, source, c - 1, front)
    {
      hide Tiles, Bags, Moved, OnItsWay, Swapped;
      RiseOnce(symbols, begins, ends, was, symbol, source, c, pos);
      front := begins[c];
      symbols := Swapped(symbols, front, pos);
      begins := begins[c := begins[c] + 1];
      ends := ends[c - 1 := ends[c - 1] + 1];
    }

    /** Upward: one boundary after the other is drawn after the symbol. */
    method Rise(symbol: LDSymbol, source: nat, target: nat, at: nat)
      requires Valid() && target < source < 6 && begins[source] <= at < ends[source] <= |symbols|
      requires symbols[at] == symbol
      modifies this
      ensures Valid() && Regions() == Moved(old(Regions()), symbol, source, target)
    {
      ghost var was := Regions();
      SetOut(symbols, begins, ends, source, at);
      var current: nat, pos: nat := source, at;
      hide Tiles, Bags, Moved, OnItsWay, Swapped;
      while current != target
        invariant target <= current <= source
        invariant OnItsWay(symbols, begins, ends, was, symbol, source, current, pos)
      {
        pos := CrossUp(symbol, current, pos, was, source);
        current := current - 1;
      }
      Arrives(symbols, begins, ends, was, symbol, source, target, pos);
    }

    /** Moves a symbol to the target region. A symbol not in the stated source is looked for in all regions, in table
        order. */
    method Arrange(symbol: LDSymbol, source: nat, target: nat)
      requires Valid() && source < 6 && target < 6
      requires source != target ==> exists c :: 0 <= c < 6 && symbol in Regions()[c]
      modifies this
      ensures Valid() && Regions() == Arranged(old(Regions()), symbol, source, target)
    {
      hide Tiles, Bags, Moved;
      var distance := target - source;
      if distance == 0 {
        return;
      }
      var current := source;
      var pos := Search(symbol, current);
      if pos == ends[current] {
        current := FILE;
        pos := Search(symbol, current);
        while pos == ends[current]
          invariant Valid() && Regions() == old(Regions())
          invariant current < 6 && |ends| == 6 && |begins| == 6
          invariant begins[current] <= pos <= ends[current] <= |symbols|
          invariant pos < ends[current] ==> symbols[pos] == symbol
          invariant pos < ends[current] <==> symbol in Regions()[current]
          invariant forall d :: 0 <= d < current ==> symbol !in Regions()[d]
          decreases 6 - current
        {
          current := current + 1;
          pos := Search(symbol, current);
        }
        distance := target - current;
      }
      if distance > 0 {
        Sink(symbol, current, target, pos);
      } else if distance < 0 {
        Rise(symbol, current, target, pos);
      } else {
        Unmoved(Regions(), symbol, current);
      }
    }

    /** The symbol's attributes have changed since it was placed by `sourceInfo`. */
    method ArrangeFrom(symbol: LDSymbol, sourceInfo: Info)
      requires Valid() && exists c :: 0 <= c < 6 && symbol in Regions()[c]
      modifies this
      ensures Valid()
      ensures Regions() == Arranged(old(Regions()), symbol, Categorize(sourceInfo), Categorize(symbol.info))
    {
      Arrange(symbol, Categorize(sourceInfo), Categorize(symbol.info));
    }

    method ChangeToDynamic(symbol: LDSymbol)
      requires Valid() && exists c :: 0 <= c < 6 && symbol in Regions()[c]
      modifies this
      ensures Valid() && Regions() == Arranged(old(Regions()), symbol, Categorize(symbol.info), LOCAL_DYN)
    {
      Arrange(symbol, Categorize(symbol.info), LOCAL_DYN);
    }

    method Add(symbol: LDSymbol)
      requires Valid()
      modifies this
      ensures Valid() && Regions() == Added(old(Regions()), symbol, Categorize(symbol.info))
    {
      AddTo(symbol, Categorize(symbol.info));
    }

    method ForceLocal(symbol: LDSymbol)
      requires Valid()
      modifies this
      ensures Valid() && Regions() == Added(old(Regions()), symbol, LOCAL)
    {
      AddTo(symbol, LOCAL);
    }

    /** The last common stays where it is, and the boundary passes it. */
    method MakeDynamic(ghost was: seq<multiset<LDSymbol>>, ghost d: multiset<LDSymbol>, ghost r: multiset<LDSymbol>)
      returns (ghost s: LDSymbol)
      requires Valid() && begins[COMMON] < ends[COMMON] <= |symbols| && Settling(was, Regions(), d, r)
      modifies this
      ensures Valid() && s == old(symbols[ends[COMMON] - 1])
      ensures Settling(was, Regions(), d + multiset{s}, r)
      ensures begins[COMMON] == old(begins[COMMON]) && ends[COMMON] == old(ends[COMMON]) - 1 <= |symbols|
      ensures |ends| == 6 && |symbols| == old(|symbols|)
      ensures forall i :: 0 <= i < ends[COMMON] ==> symbols[i] == old(symbols)[i]
    {
      s := symbols[ends[COMMON] - 1];
      LastCommon(symbols, begins, ends, was, d, r);
      SettleDynamic(was, Regions(), d, r, s);
      PassDynamic(symbols, begins, ends, ends[COMMON] - 1);
      hide Tiles, Bags, Moved, Settling;
      ends := ends[COMMON := ends[COMMON] - 1];
      begins := begins[DYNAMIC := begins[DYNAMIC] - 1];
    }

    /** The last common changes places with the last dynamic, and the boundaries pass it. */
    method MakeRegular(ghost was: seq<multiset<LDSymbol>>, ghost d: multiset<LDSymbol>, ghost r: multiset<LDSymbol>)
      returns (ghost s: LDSymbol)
      requires Valid() && begins[COMMON] < ends[COMMON] <= |symbols| && Settling(was, Regions(), d, r)
      modifies this
      ensures Valid() && s == old(symbols[ends[COMMON] - 1])
      ensures Settling(was, Regions(), d, r + multiset{s})
      ensures begins[COMMON] == old(begins[COMMON]) && ends[COMMON] == old(ends[COMMON]) - 1 <= |symbols|
      ensures |ends| == 6 && |symbols| == old(|symbols|)
      ensures forall i :: 0 <= i < ends[COMMON] ==> symbols[i] == old(symbols)[i]
    {
      s := symbols[ends[COMMON] - 1];
      LastCommon(symbols, begins, ends, was, d, r);
      Span(symbols, begins, ends);
      var pos, rear := ends[COMMON] - 1, ends[DYNAMIC] - 1;
      SettleRegular(was, Regions(), d, r, s);
      PassRegular(symbols, begins, ends, pos, rear);
      assert forall i :: 0 <= i < pos ==> Swapped(symbols, pos, rear)[i] == symbols[i];
      hide Tiles, Bags, Moved, Settling, Swapped;
      symbols := Swapped(symbols, pos, rear);
      ends := ends[COMMON := pos][DYNAMIC := rear];
      begins := begins[DYNAMIC := pos][REGULAR := rear];
    }

    /** Every symbol of the common region belongs in the dynamic or the regular one by now. */
    ghost predicate CommonsAllocated()
      reads this, symbols
    {
      |begins| == 6 && |ends| == 6 && ends[COMMON] <= |symbols| &&
      forall i :: begins[COMMON] <= i < ends[COMMON] ==>
        Categorize(symbols[i].info) == DYNAMIC || Categorize(symbols[i].info) == REGULAR
    }

    /** One turn of the loop below. */
    method SettleLast(ghost was: seq<multiset<LDSymbol>>, ghost d: multiset<LDSymbol>, ghost r: multiset<LDSymbol>)
      returns (ghost d': multiset<LDSymbol>, ghost r': multiset<LDSymbol>)
      requires Valid() && CommonsAllocated() && begins[COMMON] < ends[COMMON] && Settling(was, Regions(), d, r)
      requires forall s :: s in d ==> Categorize(s.info) == DYNAMIC
      requires forall s :: s in r ==> Categorize(s.info) == REGULAR
      modifies this
      ensures Valid() && CommonsAllocated() && Settling(was, Regions(), d', r')
      ensures begins[COMMON] == old(begins[COMMON]) && ends[COMMON] == old(ends[COMMON]) - 1
      ensures forall s :: s in d' ==> Categorize(s.info) == DYNAMIC
      ensures forall s :: s in r' ==> Categorize(s.info) == REGULAR
    {
      d', r' := d, r;
      if Categorize(symbols[ends[COMMON] - 1].info) == DYNAMIC {
        ghost var s := MakeDynamic(was, d, r);
        d' := d + multiset{s};
      } else {
        ghost var s := MakeRegular(was, d, r);
        r' := r + multiset{s};
      }
      Span(symbols, begins, ends);
    }

    /** Empties the common region from its rear, as each symbol's attributes are now. */
    method ChangeCommonsToGlobal() returns (ghost toDynamic: multiset<LDSymbol>, ghost toRegular: multiset<LDSymbol>)
      requires Valid() && CommonsAllocated()
      modifies this
      ensures Valid() && Regions()[COMMON] == multiset{}
      ensures Settling(old(Regions()), Regions(), toDynamic, toRegular)
      ensures forall s :: s in toDynamic ==> Categorize(s.info) == DYNAMIC
      ensures forall s :: s in toRegular ==> Categorize(s.info) == REGULAR
    {
      ghost var was := Regions();
      toDynamic, toRegular := multiset{}, multiset{};
      StartSettling(was);
      Span(symbols, begins, ends);
      hide Tiles, Bags, Moved, Settling, Categorize;
      while begins[COMMON] != ends[COMMON]
        invariant Valid() && CommonsAllocated() && begins[COMMON] <= ends[COMMON]
        invariant Settling(was, Regions(), toDynamic, toRegular)
        invariant forall s :: s in toDynamic ==> Categorize(s.info) == DYNAMIC
        invariant forall s :: s in toRegular ==> Categorize(s.info) == REGULAR
        decreases ends[COMMON]
      {
        toDynamic, toRegular := SettleLast(was, toDynamic, toRegular);
      }
      NoneLeft(symbols, begins, ends);
    }
  }

  /** Commons on their way to the dynamic and the regular region; all other symbols where they were. */
  ghost predicate Settling<S>(was: seq<multiset<S>>, now: seq<multiset<S>>, d: multiset<S>, r: multiset<S>) {
    && |was| == 6 && |now| == 6
    && now[FILE] == was[FILE] && now[LOCAL] == was[LOCAL] && now[LOCAL_DYN] == was[LOCAL_DYN]
    && now[COMMON] + d + r == was[COMMON]
    && now[DYNAMIC] == was[DYNAMIC] + d
    && now[REGULAR] == was[REGULAR] + r
  }

  lemma StartSettling<S>(b: seq<multiset<S>>)
    requires |b| == 6
    ensures Settling(b, b, multiset{}, multiset{})
  {}

  lemma Span<S>(symbols: seq<S>, begins: seq<nat>, ends: seq<nat>)
    requires Tiles(begins, ends, |symbols|)
    ensures |begins| == 6 && |ends| == 6 && begins[COMMON] <= ends[COMMON] <= ends[DYNAMIC] <= |symbols|
  {
    RegionBounds(begins, ends, |symbols|, COMMON, DYNAMIC);
  }

  lemma NoneLeft<S>(symbols: seq<S>, begins: seq<nat>, ends: seq<nat>)
    requires Tiles(begins, ends, |symbols|) && begins[COMMON] == ends[COMMON]
    ensures Bags(symbols, begins, ends)[COMMON] == multiset{}
  {
    BagIs(symbols, begins, ends, COMMON);
  }

  lemma LastCommon<S>(symbols: seq<S>, begins: seq<nat>, ends: seq<nat>, was: seq<multiset<S>>,
                      d: multiset<S>, r: multiset<S>)
    requires Tiles(begins, ends, |symbols|) && begins[COMMON] < ends[COMMON] <= |symbols|
    requires Settling(was, Bags(symbols, begins, ends), d, r)
    ensures |begins| == 6 && |ends| == 6 && begins[DYNAMIC] == ends[COMMON] && begins[REGULAR] == ends[DYNAMIC]
    ensures |was| == 6 && symbols[ends[COMMON] - 1] in Bags(symbols, begins, ends)[COMMON]
    ensures symbols[ends[COMMON] - 1] in was[COMMON]
  {
    hide Bags;
    BagIs(symbols, begins, ends, COMMON);
    var commons := symbols[begins[COMMON]..ends[COMMON]];
    assert commons[|commons| - 1] == symbols[ends[COMMON] - 1];
  }

  /** StepDown with its boundary named. */
  lemma StepDownTo<S>(symbols: seq<S>, begins: seq<nat>, ends: seq<nat>, pos: nat, c: nat, rear: nat)
    requires Tiles(begins, ends, |symbols|) && c < 5 && begins[c] <= pos <= rear < |symbols| && ends[c] == rear + 1
    ensures Tiles(begins[c + 1 := rear], ends[c := rear], |symbols|)
    ensures Bags(Swapped(symbols, pos, rear), begins[c + 1 := rear], ends[c := rear])
         == Moved(Bags(symbols, begins, ends), symbols[pos], c, c + 1)
  {
    hide Bags, Moved, Swapped;
    StepDown(symbols, begins, ends, pos, c);
  }

  /** The boundary alone passes the last common: it is dynamic now. */
  lemma PassDynamic<S>(symbols: seq<S>, begins: seq<nat>, ends: seq<nat>, pos: nat)
    requires Tiles(begins, ends, |symbols|) && begins[COMMON] <= pos < |symbols| && ends[COMMON] == pos + 1
    ensures Tiles(begins[DYNAMIC := pos], ends[COMMON := pos], |symbols|)
    ensures Bags(symbols, begins[DYNAMIC := pos], ends[COMMON := pos])
         == Moved(Bags(symbols, begins, ends), symbols[pos], COMMON, DYNAMIC)
  {
    assert Swapped(symbols, pos, pos) == symbols;
    hide Tiles, Bags, Moved, Swapped;
    StepDownTo(symbols, begins, ends, pos, COMMON, pos);
  }

  /** The last common changes places with the last dynamic, and both boundaries pass it: it is regular now. */
  lemma PassRegular<S>(symbols: seq<S>, begins: seq<nat>, ends: seq<nat>, pos: nat, rear: nat)
    requires Tiles(begins, ends, |symbols|) && begins[COMMON] <= pos <= rear < |symbols|
    requires ends[COMMON] == pos + 1 && ends[DYNAMIC] == rear + 1
    ensures Tiles(begins[DYNAMIC := pos][REGULAR := rear], ends[COMMON := pos][DYNAMIC := rear], |symbols|)
    ensures Bags(Swapped(symbols, pos, rear), begins[DYNAMIC := pos][REGULAR := rear],
                 ends[COMMON := pos][DYNAMIC := rear])
         == Moved(Moved(Bags(symbols, begins, ends), symbols[pos], COMMON, DYNAMIC), symbols[pos], DYNAMIC, REGULAR)
  {
    PassDynamic(symbols, begins, ends, pos);
    var begins', ends' := begins[DYNAMIC := pos], ends[COMMON := pos];
    assert begins'[DYNAMIC] == pos && ends'[DYNAMIC] == rear + 1;
    hide Tiles, Bags, Moved, Swapped;
    StepDownTo(symbols, begins', ends', pos, DYNAMIC, rear);
  }

  lemma SettleDynamic<S>(was: seq<multiset<S>>, now: seq<multiset<S>>, d: multiset<S>, r: multiset<S>, s: S)
    requires Settling(was, now, d, r) && s in now[COMMON]
    ensures Settling(was, Moved(now, s, COMMON, DYNAMIC), d + multiset{s}, r)
  {}

  lemma SettleRegular<S>(was: seq<multiset<S>>, now: seq<multiset<S>>, d: multiset<S>, r: multiset<S>, s: S)
    requires Settling(was, now, d, r) && s in now[COMMON]
    ensures Settling(was, Moved(Moved(now, s, COMMON, DYNAMIC), s, DYNAMIC, REGULAR), d, r + multiset{s})
  {
    MovedOn(now, s, COMMON, DYNAMIC, REGULAR);
  }

  /** The symbol stands at `pos` in region `c`, having left `source`; nothing else changed its region. */
  ghost predicate OnItsWay<S>(symbols: seq<S>, begins: seq<nat>, ends: seq<nat>, was: seq<multiset<S>>, s: S,
                              source: nat, c: nat, pos: nat) {
    && Tiles(begins, ends, |symbols|) && |was| == 6 && source < 6 && c < 6
    && s in was[source] && begins[c] <= pos < ends[c] <= |symbols| && symbols[pos] == s
    && Bags(symbols, begins, ends) == Moved(was, s, source, c)
  }

  lemma SetOut<S>(symbols: seq<S>, begins: seq<nat>, ends: seq<nat>, c: nat, pos: nat)
    requires Tiles(begins, ends, |symbols|) && c < 6 && begins[c] <= pos < ends[c] <= |symbols|
    ensures OnItsWay(symbols, begins, ends, Bags(symbols, begins, ends), symbols[pos], c, c, pos)
  {
    BagIs(symbols, begins, ends, c);
    assert symbols[begins[c]..ends[c]][pos - begins[c]] == symbols[pos];
  }

  lemma SinkOnce<S>(symbols: seq<S>, begins: seq<nat>, ends: seq<nat>, was: seq<multiset<S>>, s: S,
                    source: nat, c: nat, pos: nat)
    requires OnItsWay(symbols, begins, ends, was, s, source, c, pos) && source <= c < 5
    ensures |begins| == 6 && |ends| == 6 && pos < ends[c] <= |symbols| && 0 < begins[c + 1]
    ensures var rear := ends[c] - 1;
      OnItsWay(Swapped(symbols, pos, rear),
               begins[c + 1 := begins[c + 1] - 1], ends[c := ends[c] - 1], was, s, source, c + 1, rear)
  {
    hide Bags, Moved;
    TilesDown(begins, ends, |symbols|, c);
    StepDown(symbols, begins, ends, pos, c);
    hide Tiles;
    MovedOn(was, s, source, c, c + 1);
  }

  lemma RiseOnce<S>(symbols: seq<S>, begins: seq<nat>, ends: seq<nat>, was: seq<multiset<S>>, s: S,
                    source: nat, c: nat, pos: nat)
    requires OnItsWay(symbols, begins, ends, was, s, source, c, pos) && 0 < c <= source
    ensures c < 6 && |begins| == 6 && |ends| == 6 && begins[c] <= pos < |symbols|
    ensures var front := begins[c];
      OnItsWay(Swapped(symbols, front, pos),
               begins[c := begins[c] + 1], ends[c - 1 := ends[c - 1] + 1], was, s, source, c - 1, front)
  {
    hide Bags, Moved;
    TilesUp(begins, ends, |symbols|, c);
    StepUp(symbols, begins, ends, pos, c - 1);
    hide Tiles;
    MovedOn(was, s, source, c, c - 1);
  }

  lemma Arrives<S>(symbols: seq<S>, begins: seq<nat>, ends: seq<nat>, was: seq<multiset<S>>, s: S,
                   source: nat, c: nat, pos: nat)
    requires OnItsWay(symbols, begins, ends, was, s, source, c, pos)
    ensures |was| == 6 && source < 6 && c < 6 && Tiles(begins, ends, |symbols|)
    ensures Bags(symbols, begins, ends) == Moved(was, s, source, c)
  {}

  /** The table with one more symbol at the rear, seen as part of the last region. */
  lemma PushedRear<S>(symbols: seq<S>, begins: seq<nat>, ends: seq<nat>, s: S)
    requires Tiles(begins, ends, |symbols|)
    ensures |begins| == 6 && |ends| == 6 && begins[5] <= ends[5] == |symbols|
    ensures Tiles(begins, ends[5 := ends[5] + 1], |symbols + [s]|)
    ensures Bags(symbols + [s], begins, ends[5 := ends[5] + 1]) == Added(Bags(symbols, begins, ends), s, 5)
  {
    hide Bags;
    var after := symbols + [s];
    var now := Bags(after, begins, ends[5 := ends[5] + 1]);
    var goal := Added(Bags(symbols, begins, ends), s, 5);
    forall d | 0 <= d < 6
      ensures now[d] == goal[d]
    {
      BagIs(symbols, begins, ends, d);
      BagIs(after, begins, ends[5 := ends[5] + 1], d);
      if d == 5 {
        assert after[begins[d]..ends[d] + 1] == symbols[begins[d]..ends[d]] + [s];
      } else {
        assert after[begins[d]..ends[d]] == symbols[begins[d]..ends[d]];
      }
    }
  }

  lemma Bubbled(begins: seq<nat>, ends: seq<nat>, size: nat, c: nat)
    requires |begins| == 6 && |ends| == 6 && 0 < c < 6 && begins[c] <= ends[c]
    requires Tiles(begins, ends[c := ends[c] + 1], size)
    ensures ends[c - 1] == begins[c] < size && begins[c - 1] <= ends[c - 1]
  {
    RegionBounds(begins, ends[c := ends[c] + 1], size, c, c);
    assert begins[c] == ends[c := ends[c] + 1][c - 1];
  }

  lemma SwappedBack<S>(s: seq<S>, i: nat, j: nat)
    requires i < |s| && j < |s|
    ensures Swapped(s, i, j)[i] == s[j]
    ensures i == j ==> Swapped(s, i, j) == s
  {}
}
