/** Writing a merged exception frame section, and what its CIE pointers decode to. */
module EhFrameEmit {
  import opened EhFrames
  import opened EhFrameMerge

  // ----- words -----

  const TWO_32: int := 0x1_0000_0000
  const TWO_31: int := 0x8000_0000

  function ToInt32(x: int): int {
    (x + TWO_31) % TWO_32 - TWO_31
  }

  /** The four bytes of a word, least significant first. */
  function Encode(x: int): (r: seq<Byte>)
    ensures |r| == 4
  {
    var w := x % TWO_32;
    var w1 := w / 0x100;
    var w2 := w1 / 0x100;
    [w % 0x100, w1 % 0x100, w2 % 0x100, w2 / 0x100]
  }

  function Word(b: seq<Byte>, at: nat): nat
    requires at + 4 <= |b|
  {
    var b0: int, b1: int, b2: int, b3: int := b[at], b[at + 1], b[at + 2], b[at + 3];
    b0 + 0x100 * (b1 + 0x100 * (b2 + 0x100 * b3))
  }

  lemma WordOfEncode(x: int)
    ensures Word(Encode(x), 0) == x % TWO_32
  {
    var w := x % TWO_32;
    var w1 := w / 0x100;
    var w2 := w1 / 0x100;
    assert w2 < 0x1_0000 && w2 / 0x100 < 0x100;
    assert w == w % 0x100 + 0x100 * w1 && w1 == w1 % 0x100 + 0x100 * w2 && w2 == w2 % 0x100 + 0x100 * (w2 / 0x100);
  }

  // ----- layout -----

  /** The offset of the fragment at `p`: the sizes of the fragments before it, summed up. */
  function OffsetOf(fragments: seq<Fragment>, p: nat): nat
    requires p <= |fragments|
  {
    if p == 0 then 0 else OffsetOf(fragments, p - 1) + |fragments[p - 1].bytes|
  }

  lemma {:induction false} OffsetsIncrease(fragments: seq<Fragment>, p: nat, q: nat)
    requires p < q <= |fragments|
    ensures OffsetOf(fragments, p) + |fragments[p].bytes| <= OffsetOf(fragments, q)
  {
    if p + 1 < q {
      OffsetsIncrease(fragments, p, q - 1);
    }
  }

  /** The section's bytes, one record after another. */
  function Flatten(fragments: seq<Fragment>): (r: seq<Byte>)
    ensures |r| == OffsetOf(fragments, |fragments|)
  {
    if |fragments| == 0 then []
    else
      OffsetOfPrefix(fragments, |fragments| - 1);
      Flatten(fragments[..|fragments| - 1]) + fragments[|fragments| - 1].bytes
  }

  lemma {:induction false} OffsetOfPrefix(fragments: seq<Fragment>, n: nat)
    requires n <= |fragments|
    ensures OffsetOf(fragments[..n], n) == OffsetOf(fragments, n)
    decreases n
  {
    OffsetOfPrefixAt(fragments, n, n);
  }

  lemma {:induction false} OffsetOfPrefixAt(fragments: seq<Fragment>, n: nat, p: nat)
    requires p <= n <= |fragments|
    ensures OffsetOf(fragments[..n], p) == OffsetOf(fragments, p)
    decreases p
  {
    if p > 0 {
      OffsetOfPrefixAt(fragments, n, p - 1);
    }
  }

  /** Each record stands in the section at its offset. */
  lemma {:induction false} RecordAt(fragments: seq<Fragment>, p: nat)
    requires p < |fragments|
    ensures OffsetOf(fragments, p) + |fragments[p].bytes| <= |Flatten(fragments)|
    ensures var at := OffsetOf(fragments, p);
      Flatten(fragments)[at..at + |fragments[p].bytes|] == fragments[p].bytes
  {
    var n := |fragments| - 1;
    OffsetOfPrefix(fragments, n);
    if p < n {
      RecordAt(fragments[..n], p);
      OffsetOfPrefixAt(fragments, n, p);
      var o := OffsetOf(fragments, p);
      assert Flatten(fragments)[o..o + |fragments[p].bytes|] == Flatten(fragments[..n])[o..o + |fragments[p].bytes|];
    }
  }

  /** A record with its second word replaced. */
  function WithPointer(f: Fragment, x: int): (r: Fragment)
    requires |f.bytes| >= 8
    ensures r.id == f.id && |r.bytes| == |f.bytes|
  {
    f.(bytes := f.bytes[..4] + Encode(x) + f.bytes[8..])
  }

  lemma {:induction false} SameSizesSameOffsets(a: seq<Fragment>, b: seq<Fragment>, p: nat)
    requires |a| == |b| && p <= |a| && forall q :: 0 <= q < |a| ==> |a[q].bytes| == |b[q].bytes|
    ensures OffsetOf(a, p) == OffsetOf(b, p)
  {
    if p > 0 {
      SameSizesSameOffsets(a, b, p - 1);
    }
  }

  /** Writing four bytes at the second word of a record changes that record and nothing else. */
  lemma {:induction false} PatchedFlatten(fragments: seq<Fragment>, p: nat, x: int)
    requires p < |fragments| && |fragments[p].bytes| >= 8
    ensures var at := OffsetOf(fragments, p) + 4;
      && at + 4 <= |Flatten(fragments)|
      && Flatten(fragments[p := WithPointer(fragments[p], x)])
         == Flatten(fragments)[..at] + Encode(x) + Flatten(fragments)[at + 4..]
  {
    hide Encode, OffsetOf;
    var n := |fragments| - 1;
    var patched := fragments[p := WithPointer(fragments[p], x)];
    var at := OffsetOf(fragments, p) + 4;
    RecordAt(fragments, p);
    OffsetOfPrefix(fragments, n);
    var front, last := Flatten(fragments[..n]), fragments[n].bytes;
    if p < n {
      PatchedFlatten(fragments[..n], p, x);
      OffsetOfPrefixAt(fragments, n, p);
      assert patched[..n] == fragments[..n][p := WithPointer(fragments[p], x)] && patched[n] == fragments[n];
      SpliceFront(front, last, at, Encode(x));
    } else {
      assert patched[..n] == fragments[..n];
      SpliceBack(front, last, Encode(x));
    }
  }

  lemma SpliceFront(front: seq<Byte>, last: seq<Byte>, at: nat, e: seq<Byte>)
    requires at + 4 <= |front|
    ensures front[..at] + e + front[at + 4..] + last == (front + last)[..at] + e + (front + last)[at + 4..]
  {
    assert (front + last)[..at] == front[..at] && (front + last)[at + 4..] == front[at + 4..] + last;
  }

  lemma SpliceBack(front: seq<Byte>, last: seq<Byte>, e: seq<Byte>)
    requires |last| >= 8
    ensures front + (last[..4] + e + last[8..]) == (front + last)[..|front| + 4] + e + (front + last)[|front| + 8..]
  {
    assert (front + last)[..|front| + 4] == front + last[..4] && (front + last)[|front| + 8..] == last[8..];
  }

  // ----- CIE pointers -----

  /** What the writer stores in an entry's second word: the distance back to its CIE, made positive. */
  function CiePointer(fdePointer: nat, cieStart: nat): int {
    var offset := ToInt32(fdePointer - cieStart);
    if fdePointer < cieStart then ToInt32(-offset) else offset
  }

  /** What the reader makes of that word: `fdePointer` is where the word stands. */
  function CieOffset(fdePointer: int, word: int): int {
    fdePointer - ToInt32(word)
  }

  /** In a section below 2^31 bytes the pointer leads back to the CIE exactly when the CIE comes first. */
  lemma PointerRoundTrip(fdePointer: nat, cieStart: nat)
    requires fdePointer < TWO_31 && cieStart < TWO_31
    ensures CieOffset(fdePointer, Word(Encode(CiePointer(fdePointer, cieStart)), 0)) == cieStart <==>
      cieStart <= fdePointer
  {
    hide Encode, Word;
    WordOfEncode(CiePointer(fdePointer, cieStart));
  }

  /** What is stored is the distance from the pointer back to the CIE, least significant byte first. */
  lemma PointerIsDistance(fdePointer: nat, cieStart: nat)
    requires cieStart <= fdePointer < TWO_31
    ensures var r := Encode(CiePointer(fdePointer, cieStart));
      var b0: int, b1: int, b2: int, b3: int := r[0], r[1], r[2], r[3];
      b0 + 0x100 * b1 + 0x1_0000 * b2 + 0x100_0000 * b3 == fdePointer - cieStart
  {
    hide Encode;
    WordOfEncode(CiePointer(fdePointer, cieStart));
  }

  /** Fragment `p` is entry `j` of CIE `k`. */
  ghost predicate FdeAt(f: Frame, p: nat, k: nat, j: nat) {
    p < |f.fragments| && k < |f.cies| && j < |f.cies[k].fdes| && f.cies[k].fdes[j].fragment == f.fragments[p]
  }

  predicate Before(k: nat, j: nat, k': nat, j': nat) {
    k < k' || (k == k' && j < j')
  }

  /** Every entry has room for its pointer. */
  ghost predicate RoomForPointers(f: Frame) {
    forall k, j :: 0 <= k < |f.cies| && 0 <= j < |f.cies[k].fdes| ==> |f.cies[k].fdes[j].fragment.bytes| >= 8
  }

  function CieStart(f: Frame, k: nat): nat
    requires k < |f.cies|
  {
    OffsetOf(f.fragments, Position(f.fragments, f.cies[k].fragment.id))
  }

  /** The entry at `p` with the pointer to CIE `k` in place. */
  function Repaired(f: Frame, p: nat, k: nat): Fragment
    requires p < |f.fragments| && k < |f.cies| && |f.fragments[p].bytes| >= 8
  {
    WithPointer(f.fragments[p], CiePointer(OffsetOf(f.fragments, p) + 4, CieStart(f, k)))
  }

  /** The fragments as they stand in the output when the entries before (`k`, `j`) have been patched. */
  ghost predicate PatchedUpTo(f: Frame, cur: seq<Fragment>, k: nat, j: nat)
    requires RoomForPointers(f)
  {
    && |cur| == |f.fragments|
    && (forall p: nat, k': nat, j': nat :: FdeAt(f, p, k', j') && Before(k', j', k, j) ==> cur[p] == Repaired(f, p, k'))
    && (forall p: nat :: p < |cur| && (forall k': nat, j': nat :: FdeAt(f, p, k', j') ==> !Before(k', j', k, j)) ==>
      cur[p] == f.fragments[p])
  }

  lemma SamePlace(f: Frame, p: nat, p': nat, k: nat, j: nat, k': nat, j': nat)
    requires WellBuilt(f) && FdeAt(f, p, k, j) && FdeAt(f, p', k', j')
    ensures p == p' <==> (k == k' && j == j')
  {
    if p == p' {
      FdeInOneCie(f, k, j, k', j');
    } else if f.fragments[p].id == f.fragments[p'].id {
      DistinctPlaces(f.fragments);
    }
  }

  lemma PatchOne(f: Frame, cur: seq<Fragment>, k: nat, j: nat, p: nat)
    requires WellBuilt(f) && RoomForPointers(f) && PatchedUpTo(f, cur, k, j) && FdeAt(f, p, k, j)
    ensures cur[p] == f.fragments[p]
    ensures PatchedUpTo(f, cur[p := Repaired(f, p, k)], k, j + 1)
  {
    hide Repaired, WellBuilt;
    forall k': nat, j': nat | FdeAt(f, p, k', j') ensures k' == k && j' == j {
      SamePlace(f, p, p, k, j, k', j');
    }
    forall p': nat, k': nat, j': nat | FdeAt(f, p', k', j') && Before(k', j', k, j + 1)
      ensures cur[p := Repaired(f, p, k)][p'] == Repaired(f, p', k')
    {
      SamePlace(f, p, p', k, j, k', j');
      assert p' != p ==> Before(k', j', k, j);
    }
  }

  lemma SizesKept(f: Frame, cur: seq<Fragment>, k: nat, j: nat, p: nat)
    requires RoomForPointers(f) && PatchedUpTo(f, cur, k, j) && p < |cur|
    ensures |cur[p].bytes| == |f.fragments[p].bytes| && cur[p].id == f.fragments[p].id
  {
    if k': nat, j': nat :| FdeAt(f, p, k', j') && Before(k', j', k, j) {
      assert cur[p] == Repaired(f, p, k');
    }
  }

  lemma NextCie(f: Frame, cur: seq<Fragment>, k: nat)
    requires RoomForPointers(f) && k < |f.cies| && PatchedUpTo(f, cur, k, |f.cies[k].fdes|)
    ensures PatchedUpTo(f, cur, k + 1, 0)
  {
    forall p: nat, k': nat, j': nat | FdeAt(f, p, k', j')
      ensures Before(k', j', k + 1, 0) <==> Before(k', j', k, |f.cies[k].fdes|)
    {}
  }

  lemma WhereIs(f: Frame, k: nat, j: nat) returns (p: nat, q: nat)
    requires WellBuilt(f) && k < |f.cies| && j < |f.cies[k].fdes|
    ensures q < p && FdeAt(f, p, k, j) && f.fragments[q] == f.cies[k].fragment
    ensures Position(f.fragments, f.cies[k].fdes[j].fragment.id) == p
      && Position(f.fragments, f.cies[k].fragment.id) == q
  {
    hide Position;
    assert Grouped(f.fragments, f.cies[k]);
    q :| GroupAt(f.fragments, f.cies[k], q);
    InGroup(f.fragments, f.cies[k], q, j);
    p :| q < p <= q + |f.cies[k].fdes| && f.fragments[p] == f.cies[k].fdes[j].fragment;
    PositionOf(f.fragments, p);
    PositionOf(f.fragments, q);
  }

  /** In the emitted bytes every entry's pointer leads, by the reader's arithmetic, to its own CIE. */
  lemma EmittedPointersDecode(f: Frame, cur: seq<Fragment>, k: nat, j: nat, p: nat)
    requires WellBuilt(f) && RoomForPointers(f) && PatchedUpTo(f, cur, |f.cies|, 0) && FdeAt(f, p, k, j)
    requires |Flatten(cur)| < TWO_31
    ensures OffsetOf(cur, p) == OffsetOf(f.fragments, p) && OffsetOf(cur, p) + 8 <= |Flatten(cur)|
    ensures CieOffset(OffsetOf(cur, p) + 4, Word(Flatten(cur), OffsetOf(cur, p) + 4)) == CieStart(f, k)
  {
    hide Encode, WellBuilt, CiePointer, CieOffset, Position, Word, Flatten, WithPointer, OffsetOf, PatchedUpTo;
    SameLayout(f, cur, p);
    PatchedThere(f, cur, k, j, p);
    RecordWord(cur, p, 4);
    var o := OffsetOf(cur, p);
    PointerWord(f.fragments[p], CiePointer(o + 4, CieStart(f, k)));
    var p', q := WhereIs(f, k, j);
    SamePlace(f, p, p', k, j, k, j);
    OffsetsIncrease(f.fragments, q, p);
    PointerRoundTrip(o + 4, CieStart(f, k));
  }

  lemma SameLayout(f: Frame, cur: seq<Fragment>, p: nat)
    requires RoomForPointers(f) && PatchedUpTo(f, cur, |f.cies|, 0) && p <= |f.fragments|
    ensures |cur| == |f.fragments| && OffsetOf(cur, p) == OffsetOf(f.fragments, p)
  {
    SamePatchedOffset(f, cur, |f.cies|, 0, p);
  }

  lemma PatchedThere(f: Frame, cur: seq<Fragment>, k: nat, j: nat, p: nat)
    requires RoomForPointers(f) && PatchedUpTo(f, cur, |f.cies|, 0) && FdeAt(f, p, k, j)
    ensures |cur| == |f.fragments| && cur[p] == Repaired(f, p, k)
  {
    assert Before(k, j, |f.cies|, 0);
  }

  /** A word of a record, read in the section. */
  lemma RecordWord(fragments: seq<Fragment>, p: nat, i: nat)
    requires p < |fragments| && i + 4 <= |fragments[p].bytes|
    ensures OffsetOf(fragments, p) + |fragments[p].bytes| <= |Flatten(fragments)|
    ensures Word(Flatten(fragments), OffsetOf(fragments, p) + i) == Word(fragments[p].bytes, i)
  {
    hide Word, Flatten, OffsetOf;
    RecordAt(fragments, p);
    SliceWord(Flatten(fragments), OffsetOf(fragments, p), |fragments[p].bytes|, i);
  }

  lemma SliceWord(b: seq<Byte>, o: nat, n: nat, i: nat)
    requires o + n <= |b| && i + 4 <= n
    ensures Word(b, o + i) == Word(b[o..o + n], i)
  {}

  lemma PointerWord(f: Fragment, x: int)
    requires |f.bytes| >= 8
    ensures Word(WithPointer(f, x).bytes, 4) == Word(Encode(x), 0)
    ensures Word(WithPointer(f, x).bytes, 0) == Word(f.bytes, 0)
  {
    hide Encode;
  }

  // ----- the writer -----

  /** The first `n` fragments have got their offsets. */
  ghost predicate LaidOut(fragments: seq<Fragment>, n: nat, offsets: map<nat, nat>)
    requires n <= |fragments|
  {
    forall p :: 0 <= p < n ==> fragments[p].id in offsets && offsets[fragments[p].id] == OffsetOf(fragments, p)
  }

  lemma LaidOutNext(fragments: seq<Fragment>, n: nat, offsets: map<nat, nat>)
    requires n < |fragments| && Distinct(fragments) && LaidOut(fragments, n, offsets)
    ensures LaidOut(fragments, n + 1, offsets[fragments[n].id := OffsetOf(fragments, n)])
  {
    hide OffsetOf;
    forall p | 0 <= p < n ensures fragments[p].id != fragments[n].id {}
  }

  /** Lay the fragments out from 0. */
  method ComputeOffsetSize(fragments: seq<Fragment>) returns (offsets: map<nat, nat>, size: nat)
    requires Distinct(fragments)
    ensures size == OffsetOf(fragments, |fragments|) && LaidOut(fragments, |fragments|, offsets)
  {
    offsets, size := map[], 0;
    for i := 0 to |fragments|
      invariant size == OffsetOf(fragments, i) && LaidOut(fragments, i, offsets)
    {
      LaidOutNext(fragments, i, offsets);
      offsets := offsets[fragments[i].id := size];
      size := size + |fragments[i].bytes|;
    }
  }

  method CopyBytes(region: array<Byte>, at: nat, bytes: seq<Byte>)
    requires at + |bytes| <= region.Length
    modifies region
    ensures region[..] == old(region[..at]) + bytes + old(region[at + |bytes|..])
  {
    for i := 0 to |bytes|
      invariant region[..at] == old(region[..at]) && region[at + i..] == old(region[at + i..])
      invariant region[at..at + i] == bytes[..i]
    {
      region[at + i] := bytes[i];
    }
    assert region[..] == region[..at] + region[at..at + |bytes|] + region[at + |bytes|..];
  }

  /** Write every record at its offset. */
  method EmitSectionData(fragments: seq<Fragment>, region: array<Byte>)
    requires region.Length == OffsetOf(fragments, |fragments|)
    modifies region
    ensures region[..] == Flatten(fragments)
  {
    var at := 0;
    for i := 0 to |fragments|
      invariant at == OffsetOf(fragments, i) <= region.Length
      invariant region[..at] == Flatten(fragments[..i])
    {
      if i + 1 < |fragments| {
        OffsetsIncrease(fragments, i, |fragments|);
      }
      assert fragments[..i + 1][..i] == fragments[..i];
      CopyBytes(region, at, fragments[i].bytes);
      at := at + |fragments[i].bytes|;
    }
    assert fragments[..|fragments|] == fragments;
  }

  /** Patch the pointer of one entry. */
  method PatchEntry(f: Frame, offsets: map<nat, nat>, region: array<Byte>, ghost cur: seq<Fragment>, k: nat, j: nat)
    returns (ghost patched: seq<Fragment>)
    requires WellBuilt(f) && RoomForPointers(f) && LaidOut(f.fragments, |f.fragments|, offsets)
    requires k < |f.cies| && j < |f.cies[k].fdes|
    requires PatchedUpTo(f, cur, k, j) && region[..] == Flatten(cur)
    modifies region
    ensures PatchedUpTo(f, patched, k, j + 1) && region[..] == Flatten(patched)
  {
    hide WellBuilt, Encode, CiePointer, Flatten, WithPointer, Position, PatchedUpTo, OffsetOf;
    ghost var p, q := WhereIs(f, k, j);
    assert f.fragments[p].id in offsets && f.fragments[q].id in offsets;
    var fdePointer := offsets[f.cies[k].fdes[j].fragment.id] + 8 - 4;
    var cieStart := offsets[f.cies[k].fragment.id];
    SamePatchedOffset(f, cur, k, j, p);
    PatchOne(f, cur, k, j, p);
    PatchedFlatten(cur, p, CiePointer(fdePointer, cieStart));
    CopyBytes(region, fdePointer, Encode(CiePointer(fdePointer, cieStart)));
    patched := cur[p := Repaired(f, p, k)];
  }

  /** Write the section, then patch the pointer of every entry. `cur` is what has been written. */
  method EmitEhFrame(f: Frame, offsets: map<nat, nat>, region: array<Byte>) returns (ghost cur: seq<Fragment>)
    requires WellBuilt(f) && RoomForPointers(f) && region.Length == OffsetOf(f.fragments, |f.fragments|)
    requires LaidOut(f.fragments, |f.fragments|, offsets)
    modifies region
    ensures PatchedUpTo(f, cur, |f.cies|, 0) && region[..] == Flatten(cur)
  {
    EmitSectionData(f.fragments, region);
    cur := f.fragments;
    assert PatchedUpTo(f, cur, 0, 0);
    hide WellBuilt, Flatten, PatchedUpTo, OffsetOf, LaidOut;
    for k := 0 to |f.cies|
      invariant PatchedUpTo(f, cur, k, 0) && region[..] == Flatten(cur)
    {
      for j := 0 to |f.cies[k].fdes|
        invariant PatchedUpTo(f, cur, k, j) && region[..] == Flatten(cur)
      {
        cur := PatchEntry(f, offsets, region, cur, k, j);
      }
      NextCie(f, cur, k);
    }
  }

  lemma SamePatchedOffset(f: Frame, cur: seq<Fragment>, k: nat, j: nat, p: nat)
    requires RoomForPointers(f) && PatchedUpTo(f, cur, k, j) && p <= |f.fragments|
    ensures |cur| == |f.fragments| && OffsetOf(cur, p) == OffsetOf(f.fragments, p)
  {
    forall q | 0 <= q < |cur| ensures |cur[q].bytes| == |f.fragments[q].bytes| {
      SizesKept(f, cur, k, j, q);
    }
    SameSizesSameOffsets(cur, f.fragments, p);
  }
}
