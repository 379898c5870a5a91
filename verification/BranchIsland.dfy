/** The stubs of one branch island: inserted behind its entry fragment, each behind padding of its own. */
module BranchIslandStubs {
  import opened Layout
  import opened Options
  import opened BranchIslands
  import opened BranchIslandReach

  /** A stub is recognized by what it was made from, and for which symbol and addend. */
  datatype Key = Key(prototype: nat, symbol: nat, addend: int)

  /** What a stub is asked for with: its key, and the size and alignment of the prototype. */
  datatype Request = Request(key: Key, size: nat, alignment: Alignment)

  /** A fragment inserted into the section, and where it stands. */
  datatype Piece = Piece(content: Content, offset: nat) {
    function End(): nat {
      offset + SizeAt(content, offset)
    }
  }

  ghost function Contents(ps: seq<Piece>): (cs: seq<Content>)
    ensures |cs| == |ps|
  {
    seq(|ps|, i requires 0 <= i < |ps| => ps[i].content)
  }

  /** Pieces, one behind the other from `start`. */
  ghost predicate InRow(ps: seq<Piece>, start: nat) {
    forall k {:trigger ps[k].offset} :: 0 <= k < |ps| ==> ps[k].offset == OffsetAt(Contents(ps), start, k)
  }

  lemma RowGrows(ps: seq<Piece>, start: nat, p: Piece)
    requires InRow(ps, start) && p.offset == OffsetAt(Contents(ps), start, |ps|)
    ensures InRow(ps + [p], start) && p.End() == OffsetAt(Contents(ps + [p]), start, |ps| + 1)
  {
    var cs := Contents(ps);
    assert Contents(ps + [p]) == cs + [p.content];
    forall k | 0 <= k <= |ps| ensures OffsetAt(cs + [p.content], start, k) == OffsetAt(cs, start, k) {
      PrefixStands(cs, [p.content], start, k);
    }
  }

  lemma RowEnds(ps: seq<Piece>, start: nat)
    requires InRow(ps, start)
    ensures OffsetAt(Contents(ps), start, |ps|) == if ps == [] then start else ps[|ps| - 1].End()
  {}

  /** A piece ends before a later one starts. */
  lemma RowRises(ps: seq<Piece>, start: nat, i: nat, j: nat)
    requires InRow(ps, start) && i < j <= |ps|
    ensures start <= ps[i].offset <= ps[i].End() <= (if j < |ps| then ps[j].offset else ps[|ps| - 1].End())
  {
    var cs := Contents(ps);
    hide SizeAt;
    Layout.OffsetsRise(cs, start, 0, i);
    Layout.OffsetsRise(cs, start, i + 1, j);
  }

  /** The i-th piece is a stub, behind padding that always reaches its alignment. */
  ghost predicate Padded(ps: seq<Piece>, i: nat) {
    && 0 < i < |ps| && ps[i].content.Sized? && ps[i - 1].content.Align?
    && ps[i - 1].content.maxBytes == ps[i - 1].content.alignment - 1
  }

  /** The i-th piece is the stub made for a request. */
  ghost predicate MadeFor(ps: seq<Piece>, i: nat, r: Request) {
    Padded(ps, i) && ps[i].content == Sized(r.size) && ps[i - 1].content.alignment == r.alignment
  }

  ghost predicate IsFirstRequest(rs: seq<Request>, i: nat, key: Key) {
    i < |rs| && rs[i].key == key && forall j :: 0 <= j < i ==> rs[j].key != key
  }

  /** The n-th piece is the stub made for the first request with the key. */
  ghost predicate FirstMade(rs: seq<Request>, ps: seq<Piece>, n: nat, key: Key) {
    exists i: nat :: IsFirstRequest(rs, i, key) && MadeFor(ps, n, rs[i])
  }

  /** There are stubs for all that has been asked for, each made for the first request with its key. */
  ghost predicate AllMade(rs: seq<Request>, ps: seq<Piece>, stubs: map<Key, nat>) {
    && (forall i :: 0 <= i < |rs| ==> rs[i].key in stubs)
    && (forall k :: k in stubs ==> FirstMade(rs, ps, stubs[k], k))
  }

  /** Each stub is a piece of its own behind its padding, the first one comes first, and the last one last. */
  ghost predicate AreStubs(ps: seq<Piece>, stubs: map<Key, nat>) {
    && (stubs == map[] <==> ps == [])
    && (ps != [] ==> exists k :: k in stubs && stubs[k] == 1)
    && (ps != [] ==> exists k :: k in stubs && stubs[k] == |ps| - 1)
    && (forall k :: k in stubs ==> Padded(ps, stubs[k]))
    && (forall k, l :: k in stubs && l in stubs && k != l ==> stubs[k] != stubs[l])
  }

  class BranchIsland {
    /** The end of the entry fragment. */
    const start: nat
    var pieces: seq<Piece>
    /** For each key, which piece its stub is. */
    var stubs: map<Key, nat>
    /** All requests so far, in order. */
    ghost var requests: seq<Request>

    ghost predicate Valid()
      reads this
    {
      Placed() && AllMade(requests, pieces, stubs)
    }

    ghost predicate Placed()
      reads this
    {
      InRow(pieces, start) && AreStubs(pieces, stubs)
    }

    /** The i-th piece stands inside the island, at a multiple of the alignment before it. */
    ghost predicate StandsInside(i: nat)
      requires Placed() && Padded(pieces, i)
      reads this
    {
      && pieces[i].offset % pieces[i - 1].content.alignment == 0
      && start <= pieces[i].offset && pieces[i].End() <= start + Size()
    }

    constructor (start: nat)
      ensures Valid() && this.start == start && pieces == [] && stubs == map[] && requests == []
    {
      this.start := start;
      requests := [];
      pieces := [];
      stubs := map[];
    }

    /** From the first inserted fragment to the end of the last stub. */
    function Size(): nat
      requires Placed()
      reads this
    {
      if stubs == map[] then 0
      else
        RowRises(pieces, start, 0, |pieces|);
        pieces[|pieces| - 1].End() - pieces[0].offset
    }

    /** There is a stub exactly if one has been asked for with this key: the one made for the first such request,
        which stands aligned inside the island. */
    method FindStub(key: Key) returns (stub: Option<nat>)
      requires Valid()
      ensures stub.Some? <==> exists i :: 0 <= i < |requests| && requests[i].key == key
      ensures stub.Some? ==> key in stubs && stub.value == stubs[key] && FirstMade(requests, pieces, stub.value, key)
      ensures stub.Some? ==> Padded(pieces, stub.value) && StandsInside(stub.value)
    {
      hide InRow, Padded, MadeFor, StandsInside, Size;
      stub := if key in stubs then Some(stubs[key]) else None;
      if key in stubs {
        StubStands(this, key);
      }
    }

    /** Inserts padding and a stub, unless there is a stub for the key already. */
    method AddStub(key: Key, size: nat, alignment: Alignment) returns (added: bool)
      requires Valid()
      modifies this
      ensures Valid() && added == (key !in old(stubs)) && requests == old(requests) + [Request(key, size, alignment)]
      ensures !added ==> pieces == old(pieces) && stubs == old(stubs)
      ensures added ==> |pieces| == |old(pieces)| + 2 && old(pieces) < pieces
      ensures added ==> stubs == old(stubs)[key := |pieces| - 1]
      ensures added ==> MadeFor(pieces, |pieces| - 1, Request(key, size, alignment))
    {
      hide InRow, SizeAt, AllMade, AreStubs;
      ghost var r := Request(key, size, alignment);
      added := key !in stubs;
      if added {
        RowEnds(pieces, start);
        var pad := Piece(Align(alignment, alignment - 1), if pieces == [] then start else pieces[|pieces| - 1].End());
        RowGrows(pieces, start, pad);
        var stub := Piece(Sized(size), pad.End());
        RowGrows(pieces + [pad], start, stub);
        assert pieces + [pad] + [stub] == pieces + [pad, stub];
        OneMoreStub(pieces, pad, stub, stubs, key);
        ServesMore(requests, r, pieces, [pad, stub], stubs);
        pieces := pieces + [pad, stub];
        stubs := stubs[key := |pieces| - 1];
      } else {
        ServesAgain(requests, r, pieces, stubs);
      }
      requests := requests + [r];
    }
  }

  lemma OneMoreStub(ps: seq<Piece>, pad: Piece, stub: Piece, stubs: map<Key, nat>, key: Key)
    requires AreStubs(ps, stubs) && key !in stubs && stub.content.Sized?
    requires pad.content.Align? && pad.content.maxBytes == pad.content.alignment - 1
    ensures AreStubs(ps + [pad, stub], stubs[key := |ps| + 1])
  {
    var more := stubs[key := |ps| + 1];
    assert |ps| + 1 == |ps + [pad, stub]| - 1;
    forall k | k in more ensures Padded(ps + [pad, stub], more[k]) {}
    assert more[key] == |ps + [pad, stub]| - 1;
    if ps == [] {
      assert more[key] == 1;
    } else {
      var first :| first in stubs && stubs[first] == 1;
      assert first in more && more[first] == 1;
    }
  }

  lemma FirstStays(rs: seq<Request>, r: Request, ps: seq<Piece>, more: seq<Piece>, n: nat, key: Key)
    requires FirstMade(rs, ps, n, key)
    ensures FirstMade(rs + [r], ps + more, n, key)
  {
    var i: nat :| IsFirstRequest(rs, i, key) && MadeFor(ps, n, rs[i]);
    assert IsFirstRequest(rs + [r], i, key) && MadeFor(ps + more, n, (rs + [r])[i]);
  }

  lemma ServesAgain(rs: seq<Request>, r: Request, ps: seq<Piece>, stubs: map<Key, nat>)
    requires AllMade(rs, ps, stubs) && r.key in stubs
    ensures AllMade(rs + [r], ps, stubs)
  {
    hide FirstMade;
    assert ps + [] == ps;
    forall k | k in stubs ensures FirstMade(rs + [r], ps, stubs[k], k) {
      FirstStays(rs, r, ps, [], stubs[k], k);
    }
  }

  lemma ServesMore(rs: seq<Request>, r: Request, ps: seq<Piece>, made: seq<Piece>, stubs: map<Key, nat>)
    requires AllMade(rs, ps, stubs) && r.key !in stubs && |made| == 2 && MadeFor(ps + made, |ps| + 1, r)
    ensures AllMade(rs + [r], ps + made, stubs[r.key := |ps| + 1])
  {
    hide MadeFor;
    assert IsFirstRequest(rs + [r], |rs|, r.key);
    forall k | k in stubs ensures FirstMade(rs + [r], ps + made, stubs[k], k) {
      FirstStays(rs, r, ps, made, stubs[k], k);
    }
  }

  lemma StubStands(island: BranchIsland, k: Key)
    requires island.Placed() && k in island.stubs
    ensures Padded(island.pieces, island.stubs[k]) && island.StandsInside(island.stubs[k])
  {
    hide SizeAt, InRow, OffsetAt, Contents;
    PaddedStands(island.pieces, island.start, island.stubs[k]);
  }

  /** Every stub of an island stands aligned inside the island, and apart from every other. */
  lemma StubsStandApart(island: BranchIsland, k: Key, l: Key)
    requires island.Placed() && k in island.stubs && l in island.stubs
    ensures Padded(island.pieces, island.stubs[k]) && island.StandsInside(island.stubs[k])
    ensures k != l ==> var a, b := island.pieces[island.stubs[k]], island.pieces[island.stubs[l]];
      a.End() <= b.offset || b.End() <= a.offset
  {
    hide SizeAt, InRow, OffsetAt, Contents;
    var ps, i, j := island.pieces, island.stubs[k], island.stubs[l];
    assert Padded(ps, i) && Padded(ps, j) && (k != l ==> i != j);
    StubStands(island, k);
    if i < j {
      RowRises(ps, island.start, i, j);
    } else if j < i {
      RowRises(ps, island.start, j, i);
    }
  }

  lemma PaddedStands(ps: seq<Piece>, start: nat, i: nat)
    requires InRow(ps, start) && Padded(ps, i)
    ensures ps[i].offset % ps[i - 1].content.alignment == 0
    ensures start == ps[0].offset <= ps[i].offset && ps[i].End() <= ps[|ps| - 1].End()
  {
    RowFollows(ps, start, i - 1);
    RowStarts(ps, start);
    PadEnds(ps[i - 1]);
    hide SizeAt, InRow, OffsetAt;
    RowRises(ps, start, i, |ps|);
  }

  lemma PadEnds(p: Piece)
    requires p.content.Align? && p.content.maxBytes == p.content.alignment - 1
    ensures p.End() % p.content.alignment == 0
  {}

  lemma RowStarts(ps: seq<Piece>, start: nat)
    requires InRow(ps, start) && ps != []
    ensures ps[0].offset == start
  {}

  lemma RowFollows(ps: seq<Piece>, start: nat, i: nat)
    requires InRow(ps, start) && i + 1 < |ps|
    ensures ps[i + 1].offset == ps[i].End()
  {}

  /** A branch reaches forwards as far as the target's own range. */
  predicate ReachesAhead(branch: nat, end: nat, maxFwdBranchRange: nat) {
    end - branch <= maxFwdBranchRange
  }

  /** An island ahead of a fragment: a stub that ends within the island's reserve, whatever stubs there are behind it,
      is within the target's own forward range from everywhere in the fragment. */
  lemma ForwardStubInRange(island: BranchIsland, key: Key, sections: seq<Section>, s: nat, f: Fragment, at: Island,
                           maxFwdBranchRange: nat, maxIslandSize: nat, branch: nat)
    requires island.Placed() && key in island.stubs && maxIslandSize <= maxFwdBranchRange
    requires island.pieces[island.stubs[key]].End() <= island.start + maxIslandSize
    requires at.ValidIn(sections) && at.Offset(sections) == island.start && f.offset <= branch
    requires Ahead(sections, s, f, at, maxFwdBranchRange - maxIslandSize)
    ensures ReachesAhead(branch, island.pieces[island.stubs[key]].End(), maxFwdBranchRange)
  {
    hide SizeAt, InRow;
  }

  /** Every branch of the fragment reaches every stub of the island forwards. */
  ghost predicate AllReachAhead(island: BranchIsland, f: Fragment, maxFwdBranchRange: nat)
    requires island.Placed()
    reads island
  {
    forall k, branch: nat :: k in island.stubs && f.offset <= branch < f.End() ==>
      ReachesAhead(branch, island.pieces[island.stubs[k]].End(), maxFwdBranchRange)
  }

  lemma LastStubIsHighest(island: BranchIsland)
    requires island.Placed() && island.pieces != []
    ensures forall k :: k in island.stubs ==> island.stubs[k] < |island.pieces|
    ensures exists k :: k in island.stubs && island.pieces[island.stubs[k]].End() == island.start + island.Size()
    ensures forall k :: k in island.stubs ==>
      island.pieces[island.stubs[k]].End() <= island.start + island.Size()
  {
    hide SizeAt, InRow, OffsetAt, Contents;
    RowStarts(island.pieces, island.start);
    var last :| last in island.stubs && island.stubs[last] == |island.pieces| - 1;
    forall k | k in island.stubs ensures island.pieces[island.stubs[k]].End() <= island.start + island.Size() {
      StubStands(island, k);
    }
  }

  /** All branches of a fragment reach all stubs of an island exactly if the island's end is in range from the
      fragment's start. For an island ahead that has not outgrown its reserve it is. */
  lemma ForwardStubsExactly(island: BranchIsland, sections: seq<Section>, s: nat, f: Fragment, at: Island,
                            maxFwdBranchRange: nat, maxIslandSize: nat)
    requires island.Placed() && island.pieces != [] && f.size > 0 && maxIslandSize <= maxFwdBranchRange
    requires at.ValidIn(sections) && at.Offset(sections) == island.start
    ensures AllReachAhead(island, f, maxFwdBranchRange)
       <==> island.start + island.Size() <= f.offset + maxFwdBranchRange
    ensures Ahead(sections, s, f, at, maxFwdBranchRange - maxIslandSize) && island.Size() <= maxIslandSize ==>
      AllReachAhead(island, f, maxFwdBranchRange)
  {
    hide SizeAt, InRow, BranchIsland.Placed, BranchIsland.Size;
    LastStubIsHighest(island);
    var k :| k in island.stubs && island.pieces[island.stubs[k]].End() == island.start + island.Size();
    assert AllReachAhead(island, f, maxFwdBranchRange) ==>
        ReachesAhead(f.offset, island.pieces[island.stubs[k]].End(), maxFwdBranchRange);
  }

  /** Every branch of the fragment reaches every stub of the island backwards. */
  ghost predicate AllReachBack(island: BranchIsland, f: Fragment, maxBwdBranchRange: int)
    requires island.Placed()
    reads island
  {
    forall k, branch: nat :: k in island.stubs && f.offset <= branch < f.End() ==>
      ReachesBack(branch, island.pieces[island.stubs[k]].offset, maxBwdBranchRange)
  }

  lemma FirstStubIsLowest(island: BranchIsland)
    requires island.Placed() && island.pieces != []
    ensures |island.pieces| > 1 && island.start <= island.pieces[1].offset
    ensures exists k :: k in island.stubs && island.stubs[k] == 1
    ensures forall k :: k in island.stubs ==> island.pieces[1].offset <= island.pieces[island.stubs[k]].offset
  {
    hide SizeAt, InRow, OffsetAt, Contents;
    var first :| first in island.stubs && island.stubs[first] == 1;
    StubStands(island, first);
    forall k | k in island.stubs ensures island.pieces[1].offset <= island.pieces[island.stubs[k]].offset {
      assert Padded(island.pieces, island.stubs[k]);
      if island.stubs[k] > 1 {
        RowRises(island.pieces, island.start, 1, island.stubs[k]);
      }
    }
  }

  /** All branches of a fragment reach all stubs of an island behind it exactly if its last byte reaches the first. */
  lemma LastReachesFirst(island: BranchIsland, f: Fragment, maxBwdBranchRange: int)
    requires island.Placed() && island.pieces != [] && f.size > 0
    ensures |island.pieces| > 1
    ensures AllReachBack(island, f, maxBwdBranchRange)
       <==> ReachesBack(f.End() - 1, island.pieces[1].offset, maxBwdBranchRange)
  {
    hide SizeAt, InRow, BranchIsland.Placed;
    FirstStubIsLowest(island);
    var k :| k in island.stubs && island.stubs[k] == 1;
    var last: nat := f.End() - 1;
    assert AllReachBack(island, f, maxBwdBranchRange) ==>
        ReachesBack(last, island.pieces[island.stubs[k]].offset, maxBwdBranchRange);
  }

  /** The island that the search finds behind a fragment, after grouping, gives its stubs to all branches of the
      fragment; if the ranges suit the padding of the sections, all of them reach all its stubs. */
  lemma BackwardStubsInRange(island: BranchIsland, sections: seq<Section>, s: nat, k: nat,
                             range: nat, maxBwdBranchRange: int, reserve: nat, pad: nat)
    requires ValidSections(sections) && PaddedAtMost(sections, pad)
      && RangesSuit(range, maxBwdBranchRange, reserve, pad)
    requires s < |sections| && sections[s].isText && Branches(sections[s], k)
    requires var b := Found(sections, s, k, range, maxBwdBranchRange + reserve);
      b.Some? && island.start == b.value.Offset(sections)
    requires island.Placed()
    ensures AllReachBack(island, sections[s].fragments[k], maxBwdBranchRange)
  {
    hide SizeAt, InRow, BranchIsland.Placed, Found, PaddedAtMost;
    SuitedReaches(sections, s, k, range, maxBwdBranchRange, reserve, pad);
    NoStubs(island);
    if island.pieces != [] {
      var b, f := Found(sections, s, k, range, maxBwdBranchRange + reserve).value, sections[s].fragments[k];
      FirstStubIsLowest(island);
      LastReachesFirst(island, f, maxBwdBranchRange);
      var last: nat := f.End() - 1;
      assert ReachesBack(last, b.Offset(sections), maxBwdBranchRange);
    }
  }

  lemma NoStubs(island: BranchIsland)
    requires island.Placed()
    ensures island.pieces == [] ==> island.stubs == map[]
  {}

  /** Padding longer than the reserve and one byte, here 24 bytes: ranges of 100 both ways and a reserve of 10. */
  function TooMuchPadding(): seq<Section> {
    [Section(true, [Fragment(false, 0, 40), Fragment(true, 40, 24), Fragment(false, 64, 31), Fragment(false, 95, 59)])]
  }

  lemma TooMuchGrouped()
    ensures ValidSections(TooMuchPadding()) && Grouped(TooMuchPadding(), 90, 1) == [Island(0, 0), Island(0, 3)]
  {
    var sections := TooMuchPadding();
    var fs := sections[0].fragments;
    assert LastBranchingBefore(fs, 1) == 0 && LastBranchingBefore(fs, 2) == 0 && LastBranchingBefore(fs, 3) == 2;
    assert GroupUpTo([], sections, 0, 90, 1) == GroupUpTo([], sections, 0, 90, 0) == Grouping([], 90);
    assert GroupUpTo([], sections, 0, 90, 2) == Grouping([], 90);
    assert GroupUpTo([], sections, 0, 90, 3) == Grouping([Island(0, 0)], 154);
    assert GroupUpTo([], sections, 0, 90, 4) == Grouping([Island(0, 0)], 154);
    assert Grouped(sections, 90, 1) == GroupedSection(Grouped(sections, 90, 0), sections, 0, 90);
  }

  /** Grouping puts islands at 40 and 154, and the search finds the one at 40 behind the last fragment. */
  method SearchBehind() returns (factory: BranchIslandFactory, bwd: Option<nat>)
    ensures factory.fwdRange == 100 - 10 && factory.bwdRange == -100 + 10
    ensures factory.islands == Grouped(TooMuchPadding(), factory.fwdRange, 1) == [Island(0, 0), Island(0, 3)]
    ensures AllValid(factory.islands, TooMuchPadding())
    ensures bwd == OneBehind(factory.islands, TooMuchPadding(), 0, TooMuchPadding()[0].fragments[3],
                             factory.fwdRange, factory.bwdRange) == Some(0)
  {
    hide Grouped, GroupedSection;
    var sections := TooMuchPadding();
    var f := sections[0].fragments[3];
    TooMuchGrouped();
    factory := new BranchIslandFactory(100, -100, 10);
    factory.Group(sections);
    var fwd;
    fwd, bwd := factory.GetIslands(sections, 0, f);
    assert Ahead(sections, 0, f, factory.islands[1], 90) && !Ahead(sections, 0, f, factory.islands[0], 90);
  }

  /** A branch at 153 is 113 away from a stub there. */
  method BackwardStubTooFar() returns (factory: BranchIslandFactory, bwd: Option<nat>, island: BranchIsland)
    ensures factory.fwdRange == 100 - 10 && factory.bwdRange == -100 + 10
    ensures factory.islands == Grouped(TooMuchPadding(), factory.fwdRange, 1)
    ensures AllValid(factory.islands, TooMuchPadding())
    ensures bwd == OneBehind(factory.islands, TooMuchPadding(), 0, TooMuchPadding()[0].fragments[3],
                             factory.fwdRange, factory.bwdRange)
    ensures bwd == Some(0) && factory.islands != [] && island.start == factory.islands[0].Offset(TooMuchPadding())
    ensures island.Valid() && island.pieces != [] && island.Size() <= 10
    ensures !AllReachBack(island, TooMuchPadding()[0].fragments[3], -100)
  {
    hide Grouped, OneBehind, InRow;
    factory, bwd := SearchBehind();
    island := new BranchIsland(factory.islands[0].Offset(TooMuchPadding()));
    var _ := island.AddStub(Key(0, 0, 0), 4, 1);
    RowStarts(island.pieces, island.start);
    RowFollows(island.pieces, island.start, 0);
    PadEnds(island.pieces[0]);
    LastReachesFirst(island, TooMuchPadding()[0].fragments[3], -100);
  }
}
