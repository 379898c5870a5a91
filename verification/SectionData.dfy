/** Section data: fragments that know where they stand, references to places in them, and moving a whole section. */
module SectionLayouts {
  import opened Layout

  /** A piece of a section. The layout gives it its offset; references to it see the offset change. */
  class Fragment {
    const content: Content
    var offset: nat
    var parent: SectionData?

    constructor (content: Content)
      ensures this.content == content && parent == null
    {
      this.content := content;
      parent := null;
    }

    function Size(): nat
      reads this
    {
      SizeAt(content, offset)
    }
  }

  ghost function Contents(fs: seq<Fragment>): (cs: seq<Content>)
    ensures |cs| == |fs| && forall i :: 0 <= i < |fs| ==> cs[i] == fs[i].content
  {
    seq(|fs|, i requires 0 <= i < |fs| => fs[i].content)
  }

  /** The fragments stand one behind the other, the first one at `start`. */
  ghost predicate LaidOut(fs: seq<Fragment>, start: nat)
    reads fs
  {
    forall k {:trigger fs[k].offset} :: 0 <= k < |fs| ==> fs[k].offset == OffsetAt(Contents(fs), start, k)
  }

  ghost function End(fs: seq<Fragment>, start: nat): nat
  {
    OffsetAt(Contents(fs), start, |fs|)
  }

  const TWO_63: int := 0x8000_0000_0000_0000
  const TWO_64: int := 0x1_0000_0000_0000_0000

  /** A number of any size taken as a signed 64-bit one. */
  function Signed(n: int): (r: int)
    ensures -TWO_63 <= r < TWO_63
    ensures -TWO_63 <= n < TWO_63 ==> r == n
    ensures TWO_63 <= n < TWO_63 + TWO_64 ==> r == n - TWO_64
    ensures -TWO_63 - TWO_64 <= n < -TWO_63 ==> r == n + TWO_64
  {
    var m := n % TWO_64;
    if m < TWO_63 then m else m - TWO_64
  }

  datatype FragmentRef = Null | Ref(frag: Fragment, offset: nat) {
    /** The output offset that the reference denotes. */
    function GetOutputOffset(): nat
      reads if Ref? then {frag} else {}
    {
      if Ref? then (frag.offset + offset) % TWO_64 else 0
    }
  }

  /** Where the i-th fragment stands; for i beyond the last, where the section ends. */
  ghost function Place(fs: seq<Fragment>, i: nat): nat
    requires i <= |fs|
  {
    OffsetAt(Contents(fs), 0, i)
  }

  lemma Starts(fs: seq<Fragment>)
    ensures Place(fs, 0) == 0
  {}

  lemma PlaceOf(fs: seq<Fragment>, i: nat)
    requires LaidOut(fs, 0) && i < |fs|
    ensures fs[i].offset == Place(fs, i) && fs[i].Size() == Place(fs, i + 1) - Place(fs, i)
  {}

  lemma PlacesRise(fs: seq<Fragment>, i: nat, j: nat)
    requires i <= j <= |fs|
    ensures Place(fs, i) <= Place(fs, j)
  {
    OffsetsRise(Contents(fs), 0, i, j);
  }

  class SectionData {
    var fragments: seq<Fragment>
    var size: nat
    var align: nat

    ghost predicate Valid()
      reads this, fragments
    {
      && LaidOut(fragments, 0)
      && (forall i, j :: 0 <= i < j < |fragments| ==> fragments[i] != fragments[j])
      && (forall i :: 0 <= i < |fragments| ==> fragments[i].parent == this)
    }

    /** The distance is so large that the first subtraction leaves it negative, and the walk ends at once. */
    ghost predicate IsFar(first: nat, distance: nat)
      requires first < |fragments|
      reads this, fragments
    {
      distance >= TWO_63 + fragments[first].Size()
    }

    /** Finds the first fragment that reaches the place, and how far the place is from that fragment's end. The
        distance is a signed number of 64 bits on the way. */
    method Walk(first: nat, distance: nat) returns (i: nat, offset: int)
      requires Valid() && first < |fragments| && distance < TWO_64 && End(fragments, 0) < TWO_63
      ensures first <= i <= |fragments|
      ensures !IsFar(first, distance) ==> var place := Place(fragments, first) + distance;
        if i < |fragments| then
          offset == place - Place(fragments, i + 1) <= 0 && (i == first || Place(fragments, i) < place)
        else place > Place(fragments, i)
      ensures IsFar(first, distance) ==> i == first && offset == distance - TWO_64 - fragments[first].Size()
    {
      hide LaidOut, Place, SizeAt, OffsetAt, Contents, Fragment.Size, End;
      offset := Signed(distance);
      i := first;
      PlaceOf(fragments, first);
      while i < |fragments|
        invariant first <= i <= |fragments|
        invariant i == first ==> offset == Signed(distance)
        invariant i > first ==> !IsFar(first, distance) && 0 < offset < TWO_63
        invariant i > first ==> offset + Place(fragments, i) == Place(fragments, first) + distance
      {
        PlaceOf(fragments, i);
        PlacesRise(fragments, i, i + 1);
        EndsBelow(fragments, i + 1);
        offset := Signed(offset - fragments[i].Size());
        if offset <= 0 {
          return;
        }
        i := i + 1;
      }
    }

    /** A reference to the place `distance` bytes behind the start of a fragment. Beyond the end, a reference is made
        only if the distance is far; the reference's offset and where it points are unsigned numbers again. */
    method CreateRef(first: nat, distance: nat) returns (r: FragmentRef)
      requires Valid() && first < |fragments| && distance < TWO_64 && End(fragments, 0) < TWO_63
      ensures r.Ref? <==> Within(fragments, fragments[first].offset + distance) || IsFar(first, distance)
      ensures r.Ref? ==> r.frag in fragments && r.GetOutputOffset() == (fragments[first].offset + distance) % TWO_64
      ensures r.Ref? ==> if IsFar(first, distance) then r.frag == fragments[first] && r.offset == distance
                         else r.offset < r.frag.Size() || r.offset == 0
    {
      hide Within, Place, LaidOut, End, OffsetAt, Contents, SizeAt, Fragment.Size, Signed;
      var i, offset := Walk(first, distance);
      if i == |fragments| {
        Beyond(fragments, first, distance);
        return Null;
      }
      if !IsFar(first, distance) {
        Lands(fragments, first, distance, i, offset);
      }
      if fragments[i].Size() != 0 {
        if offset == 0 {
          if i + 1 == |fragments| {
            return Null;
          }
          return Ref(fragments[i + 1], 0);
        }
        offset := offset + fragments[i].Size();
      }
      return Ref(fragments[i], if offset < 0 then offset + TWO_64 else offset);
    }

    /** A reference to a place of the section. */
    method CreateSectionRef(distance: nat) returns (r: FragmentRef)
      requires Valid() && distance < TWO_64 && End(fragments, 0) < TWO_63
      ensures r.Ref? <==> fragments != [] && (Within(fragments, distance) || IsFar(0, distance))
      ensures r.Ref? ==> r.frag in fragments && r.GetOutputOffset() == distance
      ensures r.Ref? ==> if IsFar(0, distance) then r.frag == fragments[0] && r.offset == distance
                         else r.offset < r.frag.Size() || r.offset == 0
    {
      if fragments == [] {
        return Null;
      }
      PlaceOf(fragments, 0);
      Starts(fragments);
      r := CreateRef(0, distance);
    }

    /** Adds a fragment behind the last one, at the end of the section. */
    method PushBack(frag: Fragment, offset: nat)
      requires Valid() && frag !in fragments && offset == End(fragments, 0)
      modifies this`fragments, frag
      ensures Valid() && fragments == old(fragments) + [frag] && frag.offset == offset
      ensures End(fragments, 0) == offset + frag.Size()
    {
      frag.parent := this;
      frag.offset := offset;
      Pushed(fragments, frag, offset);
      fragments := fragments + [frag];
    }

    /** Appends padding up to an alignment. */
    method Pad(offset: nat, alignment: nat) returns (grown: nat)
      requires Valid() && alignment > 1 && offset == End(fragments, 0)
      modifies this`fragments
      ensures Valid() && |fragments| == |old(fragments)| + 1 && old(fragments) < fragments
        && fresh(fragments[|fragments| - 1])
      ensures End(fragments, 0) == offset + grown
      ensures grown < alignment && (offset + grown) % alignment == 0
    {
      hide LaidOut, End, OffsetAt, Contents, SizeAt;
      var align := new Fragment(Align(alignment, alignment - 1));
      PushBack(align, offset);
      PadsFully(offset, alignment);
      grown := align.Size();
    }

    /** Appends padding, if an alignment is asked for, the fragment, and the null fragment that ends the piece. The
        header's size is left to the caller. */
    method AppendFragment(frag: Fragment, alignment: nat) returns (grown: nat)
      requires Valid() && frag !in fragments
      modifies this`fragments, frag
      ensures Valid() && grown == End(fragments, 0) - old(End(fragments, 0))
      ensures old(fragments) < fragments && |fragments| - |old(fragments)| == if alignment > 1 then 3 else 2
      ensures fragments[|fragments| - 2] == frag && (alignment > 0 ==> frag.offset % alignment == 0)
      ensures frag.offset - old(End(fragments, 0)) < if alignment > 1 then alignment else 1
      ensures forall place :: 0 <= place <= End(fragments, 0) ==> Within(fragments, place)
    {
      hide LaidOut, End, Within, SizeAt, OffsetAt, Contents;
      var offset := 0;
      if fragments != [] {
        var last := fragments[|fragments| - 1];
        LastEnds(fragments);
        offset := last.offset + last.Size();
      } else {
        NothingYet(fragments);
      }
      grown := 0;
      if alignment > 1 {
        grown := Pad(offset, alignment);
        offset := offset + grown;
      }
      PushBack(frag, offset);
      grown := grown + frag.Size();
      offset := offset + frag.Size();
      var null_ := new Fragment(Sized(0));
      PushBack(null_, offset);
      assert null_.Size() == 0 by {
        EmptyAt(offset);
      }
      EndsEmpty(fragments);
    }

    /** Takes fragments over: sets their parent, and lays them out from an offset. */
    method TakeOver(moved: seq<Fragment>, start: nat) returns (end: nat)
      requires forall i, j :: 0 <= i < j < |moved| ==> moved[i] != moved[j]
      modifies moved
      ensures LaidOut(moved, start) && end == End(moved, start)
      ensures forall j :: 0 <= j < |moved| ==> moved[j].parent == this
    {
      hide *;
      end := start;
      var i := 0;
      FirstOffset(moved, start);
      while i < |moved|
        invariant 0 <= i <= |moved| && end == OffsetAt(Contents(moved), start, i)
        invariant forall j :: 0 <= j < i ==>
          moved[j].parent == this && moved[j].offset == OffsetAt(Contents(moved), start, j)
      {
        moved[i].parent := this;
        moved[i].offset := end;
        NextOffset(moved, start, i);
        end := end + moved[i].Size();
        i := i + 1;
      }
      Laid(moved, start);
    }

    /** Puts all fragments of another section behind the last one. */
    method Splice(from: SectionData, offset: nat)
      requires from != this && Valid() && from.Valid() && offset == End(fragments, 0)
      modifies this`fragments, this`size, from`fragments, from.fragments
      ensures Valid() && size == End(fragments, 0) == End(old(from.fragments), offset) && from.fragments == []
      ensures fragments == old(fragments) + old(from.fragments)
      ensures LaidOut(old(from.fragments), offset) && OwnedBy(old(from.fragments), this)
    {
      hide LaidOut, End, SizeAt, OffsetAt, Contents;
      var end := TakeOver(from.fragments, offset);
      Spliced(fragments, from.fragments);
      fragments := fragments + from.fragments;
      from.fragments := [];
      size := end;
    }

    /** Moves all fragments of another section behind padding for that section's alignment. If that alignment is a
        multiple of all inner ones, each fragment moves by the same distance, a multiple of the alignment; and if no
        padding is ever given up, they do so exactly if every inner alignment divides the distance. */
    method MoveSectionData(from: SectionData) returns (ghost base: nat)
      requires from != this && Valid() && from.Valid() && size == End(fragments, 0) && from.align > 0
      modifies this`fragments, this`size, from`fragments, from.fragments
      ensures Valid() && size == End(fragments, 0) && from.fragments == []
      ensures old(fragments) <= fragments
        && |fragments| == |old(fragments)| + (if from.align > 1 then 1 else 0) + |old(from.fragments)|
      ensures fragments[|fragments| - |old(from.fragments)|..] == old(from.fragments)
      ensures base % from.align == 0 && old(size) <= base < old(size) + from.align
      ensures DivideAlignment(Contents(old(from.fragments)), from.align) ==>
        forall k :: 0 <= k < |old(from.fragments)| ==>
          old(from.fragments)[k].offset == base + old(from.fragments[k].offset)
      ensures DivideAlignment(Contents(old(from.fragments)), from.align) ==> StandFrom(old(from.fragments), base)
      ensures MovesWith(old(from.fragments), base, size)
      ensures OwnedBy(old(from.fragments), this)
    {
      hide LaidOut, End, Within, SizeAt, OffsetAt, Contents, DivideAlignment, StandFrom, MovesWith;
      ghost var moved := from.fragments;
      ghost var places := Places(moved);
      var offset := size;
      if from.align > 1 {
        var grown := Pad(offset, from.align);
        offset := offset + grown;
      }
      base := offset;
      Splice(from, offset);
      Settled(moved, base, from.align);
    }
  }

  /** Fragments, laid out from 0 before, that now stand `base` bytes further. */
  ghost predicate StandFrom(fs: seq<Fragment>, base: nat)
    reads fs
  {
    forall k {:trigger fs[k].offset} :: 0 <= k < |fs| ==> fs[k].offset == base + Place(fs, k)
  }

  /** The offsets of fragments laid out from 0. */
  ghost function Places(fs: seq<Fragment>): (p: seq<nat>)
    requires LaidOut(fs, 0)
    reads fs
    ensures |p| == |fs| && forall k :: 0 <= k < |fs| ==> p[k] == fs[k].offset == OffsetAt(Contents(fs), 0, k)
  {
    seq(|fs|, k requires 0 <= k < |fs| => OffsetAt(Contents(fs), 0, k))
  }

  lemma Settled(fs: seq<Fragment>, base: nat, alignment: nat)
    requires LaidOut(fs, base) && alignment > 0 && base % alignment == 0
    ensures DivideAlignment(Contents(fs), alignment) ==>
      StandFrom(fs, base) && forall k :: 0 <= k < |fs| ==> fs[k].offset == base + OffsetAt(Contents(fs), 0, k)
    ensures MovesWith(fs, base, End(fs, base))
  {
    hide *;
    if DivideAlignment(Contents(fs), alignment) {
      Shifted(fs, base, alignment);
    }
    MovedAsWhole(fs, base);
  }

  lemma Shifted(fs: seq<Fragment>, base: nat, alignment: nat)
    requires LaidOut(fs, base) && alignment > 0 && base % alignment == 0 && DivideAlignment(Contents(fs), alignment)
    ensures forall k :: 0 <= k < |fs| ==> fs[k].offset == base + OffsetAt(Contents(fs), 0, k)
    ensures StandFrom(fs, base)
  {
    forall k | 0 <= k < |fs| ensures fs[k].offset == base + OffsetAt(Contents(fs), 0, k) {
      LayoutShifts(Contents(fs), base, alignment, k);
    }
  }

  /** If no padding is ever given up, the fragments and their end have moved by `base` exactly if every alignment
      among them divides it. */
  ghost predicate MovesWith(fs: seq<Fragment>, base: nat, end: nat)
    reads fs
  {
    PadsAlways(Contents(fs)) ==>
      (StandFrom(fs, base) && end == base + End(fs, 0) <==> DivideAlignment(Contents(fs), base))
  }

  lemma MovedAsWhole(fs: seq<Fragment>, base: nat)
    requires LaidOut(fs, base)
    ensures MovesWith(fs, base, End(fs, base))
  {
    hide DivideAlignment, PadsAlways, OffsetAt;
    if PadsAlways(Contents(fs)) {
      MovesAsWhole(Contents(fs), base);
    }
    if StandFrom(fs, base) && End(fs, base) == base + End(fs, 0) {
      forall k: nat | k <= |fs| ensures OffsetAt(Contents(fs), base, k) == base + OffsetAt(Contents(fs), 0, k) {
        if k < |fs| {
          assert fs[k].offset == base + Place(fs, k);
        }
      }
    }
  }

  lemma FirstOffset(fs: seq<Fragment>, start: nat)
    ensures OffsetAt(Contents(fs), start, 0) == start
  {}

  ghost predicate OwnedBy(fs: seq<Fragment>, owner: SectionData)
    reads fs
  {
    forall k {:trigger fs[k].parent} :: 0 <= k < |fs| ==> fs[k].parent == owner
  }

  lemma Apart(fs: seq<Fragment>, a: SectionData, gs: seq<Fragment>, b: SectionData)
    requires OwnedBy(fs, a) && OwnedBy(gs, b) && a != b
    ensures forall f :: f in fs ==> f !in gs
  {
    forall f | f in fs ensures f !in gs {
      var i :| 0 <= i < |fs| && fs[i] == f;
      assert fs[i].parent == a;
      assert forall j :: 0 <= j < |gs| ==> gs[j].parent == b;
    }
  }

  /** Moves the i-th section, leaving the earlier ones where they are and the later ones untouched. */
  method MergeNext(from: SectionData, output: SectionData,
                   ghost inputs: seq<SectionData>, ghost i: nat, ghost frags: seq<seq<Fragment>>,
                   ghost all: set<Fragment>)
    returns (ghost base: nat)
    requires i < |inputs| && from == inputs[i]
    requires output !in inputs && forall j, k :: 0 <= j < k < |inputs| ==> inputs[j] != inputs[k]
    requires output.Valid() && output.size == End(output.fragments, 0)
    requires |frags| == |inputs| && forall j, k :: 0 <= j < |frags| && 0 <= k < |frags[j]| ==> frags[j][k] in all
    requires forall j {:trigger inputs[j]} :: i <= j < |inputs| ==> inputs[j].Valid() && inputs[j].fragments == frags[j]
    requires forall j {:trigger frags[j]} :: 0 <= j < i ==> OwnedBy(frags[j], output)
    requires inputs[i].align > 0 && DivideAlignment(Contents(frags[i]), inputs[i].align)
    modifies output`fragments, output`size, from`fragments, frags[i]
    ensures output.Valid() && output.size == End(output.fragments, 0)
    ensures base % inputs[i].align == 0 && StandFrom(frags[i], base) && OwnedBy(frags[i], output)
    ensures forall j {:trigger inputs[j]} :: i < j < |inputs| ==> inputs[j].Valid() && inputs[j].fragments == frags[j]
    ensures forall j, k {:trigger frags[j][k]} :: 0 <= j < |frags| && j != i && 0 <= k < |frags[j]| ==>
      unchanged(frags[j][k])
  {
    hide LaidOut, End, StandFrom, DivideAlignment, Contents;
    assert OwnedBy(from.fragments, from);
    forall j | i < j < |inputs| ensures forall k :: 0 <= k < |frags[j]| ==> frags[j][k] !in from.fragments {
      assert inputs[j].fragments == frags[j];
      Apart(frags[j], inputs[j], from.fragments, from);
    }
    forall j | 0 <= j < i ensures forall k :: 0 <= k < |frags[j]| ==> frags[j][k] !in from.fragments {
      Apart(frags[j], output, from.fragments, from);
    }
    base := output.MoveSectionData(from);
  }

  /** Moves sections, one after the other, to an output section. Whatever comes later, each fragment stays where it
      was moved to, so a reference into an input denotes its old offset plus that input's base. */
  method MergeSections(inputs: seq<SectionData>, output: SectionData, ghost frags: seq<seq<Fragment>>,
                       ghost all: set<Fragment>)
    returns (ghost bases: seq<nat>)
    requires output !in inputs && forall i, j :: 0 <= i < j < |inputs| ==> inputs[i] != inputs[j]
    requires output.Valid() && output.size == End(output.fragments, 0)
    requires |frags| == |inputs| && forall j, k :: 0 <= j < |frags| && 0 <= k < |frags[j]| ==> frags[j][k] in all
    requires forall j {:trigger inputs[j]} :: 0 <= j < |inputs| ==> inputs[j].Valid() && inputs[j].fragments == frags[j]
    requires forall j {:trigger inputs[j]} :: 0 <= j < |inputs| ==>
      inputs[j].align > 0 && DivideAlignment(Contents(frags[j]), inputs[j].align)
    modifies output`fragments, output`size, inputs`fragments, all
    ensures output.Valid() && output.size == End(output.fragments, 0)
    ensures |bases| == |inputs|
    ensures forall j {:trigger frags[j]} :: 0 <= j < |inputs| ==>
      bases[j] % inputs[j].align == 0 && StandFrom(frags[j], bases[j]) && OwnedBy(frags[j], output)
  {
    bases := [];
    var i := 0;
    while i < |inputs|
      invariant i <= |inputs| && |bases| == i
      invariant output.Valid() && output.size == End(output.fragments, 0)
      invariant forall j {:trigger inputs[j]} :: i <= j < |inputs| ==>
        inputs[j].Valid() && inputs[j].fragments == frags[j]
      invariant forall j {:trigger frags[j]} :: 0 <= j < i ==>
        bases[j] % inputs[j].align == 0 && StandFrom(frags[j], bases[j])
      invariant forall j {:trigger frags[j]} :: 0 <= j < i ==> OwnedBy(frags[j], output)
    {
      hide LaidOut, End, StandFrom, OwnedBy, SectionData.Valid, DivideAlignment, Contents;
      assert forall k :: 0 <= k < |frags[i]| ==> frags[i][k] in all;
      ghost var base := MergeNext(inputs[i], output, inputs, i, frags, all);
      bases := bases + [base];
      i := i + 1;
    }
  }

  lemma NextOffset(fs: seq<Fragment>, start: nat, i: nat)
    requires i < |fs| && fs[i].offset == OffsetAt(Contents(fs), start, i)
    ensures OffsetAt(Contents(fs), start, i + 1) == fs[i].offset + fs[i].Size()
  {}

  lemma Laid(fs: seq<Fragment>, start: nat)
    requires forall j :: 0 <= j < |fs| ==> fs[j].offset == OffsetAt(Contents(fs), start, j)
    ensures LaidOut(fs, start) && End(fs, start) == OffsetAt(Contents(fs), start, |fs|)
  {}

  /** Fragments laid out from where others end make one layout with them. */
  lemma Spliced(fs: seq<Fragment>, gs: seq<Fragment>)
    requires LaidOut(fs, 0) && LaidOut(gs, End(fs, 0))
    ensures LaidOut(fs + gs, 0) && End(fs + gs, 0) == End(gs, End(fs, 0))
  {
    var cs, ds := Contents(fs), Contents(gs);
    assert Contents(fs + gs) == cs + ds;
    forall k | 0 <= k < |fs| ensures OffsetAt(cs + ds, 0, k) == OffsetAt(cs, 0, k) {
      PrefixStands(cs, ds, 0, k);
    }
    forall k | 0 <= k <= |gs| ensures OffsetAt(cs + ds, 0, |cs| + k) == OffsetAt(ds, End(fs, 0), k) {
      RestFollows(cs, ds, 0, k);
    }
  }

  lemma EmptyAt(offset: nat)
    ensures SizeAt(Sized(0), offset) == 0
  {}

  lemma EndsEmpty(fs: seq<Fragment>)
    requires fs != [] && fs[|fs| - 1].Size() == 0
    ensures forall place :: 0 <= place <= End(fs, 0) ==> Within(fs, place)
  {}

  lemma PadsFully(offset: nat, alignment: nat)
    requires alignment > 1
    ensures SizeAt(Align(alignment, alignment - 1), offset) < alignment
    ensures (offset + SizeAt(Align(alignment, alignment - 1), offset)) % alignment == 0
  {}

  lemma LastEnds(fs: seq<Fragment>)
    requires LaidOut(fs, 0) && fs != []
    ensures fs[|fs| - 1].offset + fs[|fs| - 1].Size() == End(fs, 0)
  {
    PlaceOf(fs, |fs| - 1);
  }

  lemma NothingYet(fs: seq<Fragment>)
    requires fs == []
    ensures End(fs, 0) == 0
  {}

  lemma Pushed(fs: seq<Fragment>, f: Fragment, offset: nat)
    requires LaidOut(fs, 0) && offset == End(fs, 0) == f.offset
    ensures LaidOut(fs + [f], 0) && End(fs + [f], 0) == offset + f.Size()
  {
    var cs := Contents(fs);
    assert Contents(fs + [f]) == cs + [f.content];
    forall k | 0 <= k <= |fs| ensures OffsetAt(cs + [f.content], 0, k) == OffsetAt(cs, 0, k) {
      PrefixStands(cs, [f.content], 0, k);
    }
  }

  /** The place is inside the section, or at the end of one whose last fragment is empty. */
  ghost predicate Within(fs: seq<Fragment>, place: nat)
    requires fs != []
    reads fs
  {
    place < End(fs, 0) || (place == End(fs, 0) && fs[|fs| - 1].Size() == 0)
  }

  lemma WithinIs(fs: seq<Fragment>, place: nat)
    requires fs != []
    ensures Within(fs, place) <==> place < Place(fs, |fs|) || (place == Place(fs, |fs|) && fs[|fs| - 1].Size() == 0)
  {}

  lemma EndsBelow(fs: seq<Fragment>, i: nat)
    requires i <= |fs|
    ensures Place(fs, i) <= End(fs, 0) == Place(fs, |fs|)
  {
    PlacesRise(fs, i, |fs|);
  }

  lemma Beyond(fs: seq<Fragment>, first: nat, distance: nat)
    requires LaidOut(fs, 0) && first < |fs| && Place(fs, first) + distance > Place(fs, |fs|)
    ensures !Within(fs, fs[first].offset + distance)
  {}

  /** What the three ways out of the walk mean. */
  lemma Lands(fs: seq<Fragment>, first: nat, distance: nat, i: nat, offset: int)
    requires LaidOut(fs, 0) && first <= i < |fs| && End(fs, 0) < TWO_63
    requires offset == Place(fs, first) + distance - Place(fs, i + 1) <= 0
    requires i == first || Place(fs, i) < Place(fs, first) + distance
    ensures fs[first].offset + distance < TWO_63
    ensures fs[i].Size() != 0 && offset == 0 && i + 1 == |fs| ==> !Within(fs, fs[first].offset + distance)
    ensures fs[i].Size() != 0 && offset == 0 && i + 1 < |fs| ==>
      Within(fs, fs[first].offset + distance) && fs[i + 1].offset == fs[first].offset + distance
    ensures fs[i].Size() != 0 && offset < 0 ==>
      && Within(fs, fs[first].offset + distance) && 0 <= offset + fs[i].Size() < fs[i].Size()
      && fs[i].offset + (offset + fs[i].Size()) == fs[first].offset + distance
    ensures fs[i].Size() == 0 ==>
      Within(fs, fs[first].offset + distance) && offset == 0 && fs[i].offset == fs[first].offset + distance
  {
    hide *;
    var n := |fs|;
    WithinIs(fs, fs[first].offset + distance);
    PlaceOf(fs, first);
    PlaceOf(fs, n - 1);
    PlaceOf(fs, i);
    PlacesRise(fs, i, i + 1);
    PlacesRise(fs, i + 1, n);
    EndsBelow(fs, i + 1);
    if i + 1 < n {
      PlaceOf(fs, i + 1);
      PlacesRise(fs, i + 1, n - 1);
    }
  }
}
