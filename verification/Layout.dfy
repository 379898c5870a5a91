/** The layout of a section: where each fragment stands, when alignment padding depends on where that is. */
module Layout {
  import opened Arithmetic

  /** A fragment either pads up to an alignment, unless that takes more than `maxBytes`, or has a size of its own. The
      null fragment that ends an appended piece is one of size 0. */
  datatype Content = Align(alignment: Alignment, maxBytes: nat) | Sized(bytes: nat)

  type Alignment = n: nat | n > 0 witness 1

  /** The distance from an offset to the next multiple of `a`. */
  function OffsetToAlignment(offset: nat, a: nat): (pad: nat)
    requires a > 0
    ensures pad < a && (offset + pad) % a == 0
  {
    PadReaches(offset, a);
    if offset % a == 0 then 0 else a - offset % a
  }

  lemma PadReaches(offset: nat, a: nat)
    requires a > 0
    ensures offset % a != 0 ==> (offset + (a - offset % a)) % a == 0
  {
    var q, r := offset / a, offset % a;
    if r != 0 {
      assert offset + (a - r) == (q + 1) * a + 0;
      RemainderIs(offset + (a - r), q + 1, 0, a);
    }
  }

  /** The size of a fragment that stands at `offset`. Padding reaches its alignment unless that is too far. */
  function SizeAt(c: Content, offset: nat): (n: nat)
    ensures c.Align? ==> n < c.alignment && n <= c.maxBytes
    ensures c.Align? ==> ((offset + n) % c.alignment == 0 <==> OffsetToAlignment(offset, c.alignment) <= c.maxBytes)
  {
    match c
    case Align(a, max) => var pad := OffsetToAlignment(offset, a); if pad > max then 0 else pad
    case Sized(n) => n
  }

  /** Where the k-th fragment stands when the first one stands at `start`. */
  ghost function OffsetAt(cs: seq<Content>, start: nat, k: nat): nat
    requires k <= |cs|
  {
    if k == 0 then start
    else
      var before := OffsetAt(cs, start, k - 1);
      before + SizeAt(cs[k - 1], before)
  }

  lemma {:induction false} OffsetsRise(cs: seq<Content>, start: nat, j: nat, k: nat)
    requires j <= k <= |cs|
    ensures start <= OffsetAt(cs, start, j) <= OffsetAt(cs, start, k)
    decreases k
  {
    if j < k {
      OffsetsRise(cs, start, j, k - 1);
    } else if k > 0 {
      OffsetsRise(cs, start, j - 1, k - 1);
    }
  }

  /** The layout of a prefix does not depend on what follows. */
  lemma {:induction false} PrefixStands(cs: seq<Content>, more: seq<Content>, start: nat, k: nat)
    requires k <= |cs|
    ensures OffsetAt(cs + more, start, k) == OffsetAt(cs, start, k)
  {
    if k > 0 {
      PrefixStands(cs, more, start, k - 1);
    }
  }

  /** What follows is laid out from where the prefix ends. */
  lemma {:induction false} RestFollows(cs: seq<Content>, more: seq<Content>, start: nat, k: nat)
    requires k <= |more|
    ensures OffsetAt(cs + more, start, |cs| + k) == OffsetAt(more, OffsetAt(cs, start, |cs|), k)
  {
    if k == 0 {
      PrefixStands(cs, more, start, |cs|);
    } else {
      RestFollows(cs, more, start, k - 1);
      assert (cs + more)[|cs| + k - 1] == more[k - 1];
    }
  }

  /** Every alignment among the fragments divides `a`. */
  ghost predicate DivideAlignment(cs: seq<Content>, a: nat) {
    forall i :: 0 <= i < |cs| && cs[i].Align? ==> a % cs[i].alignment == 0
  }

  /** Moved as a whole by a multiple of an alignment that all inner ones divide, every fragment moves by just that. */
  lemma {:induction false} LayoutShifts(cs: seq<Content>, base: nat, a: nat, k: nat)
    requires a > 0 && base % a == 0 && DivideAlignment(cs, a) && k <= |cs|
    ensures OffsetAt(cs, base, k) == base + OffsetAt(cs, 0, k)
  {
    if k > 0 {
      LayoutShifts(cs, base, a, k - 1);
      var c := cs[k - 1];
      if c.Align? {
        DividesOn(base, a, c.alignment);
        ModAdd(base, OffsetAt(cs, 0, k - 1), c.alignment);
      }
    }
  }

  /** The fragments keep their distances when the first one stands at `base` instead of 0. */
  ghost predicate Shifts(cs: seq<Content>, base: nat) {
    forall k: nat :: k <= |cs| ==> OffsetAt(cs, base, k) == base + OffsetAt(cs, 0, k)
  }

  /** Padding that pads in neither place, or whose alignment divides the distance. */
  ghost predicate PadsAlike(cs: seq<Content>, base: nat, i: nat)
    requires i < |cs| && cs[i].Align?
  {
    var o := OffsetAt(cs, 0, i);
    base % cs[i].alignment == 0 || (SizeAt(cs[i], o) == 0 && SizeAt(cs[i], base + o) == 0)
  }

  lemma ModDifference(base: nat, x: nat, d: nat)
    requires d > 0 && x % d == 0 && (base + x) % d == 0
    ensures base % d == 0
  {
    ModAdd(x, base, d);
    assert x + base == base + x;
  }

  lemma PadsAlikeExactly(cs: seq<Content>, base: nat, i: nat)
    requires i < |cs| && cs[i].Align?
    ensures var o := OffsetAt(cs, 0, i);
      PadsAlike(cs, base, i) <==> SizeAt(cs[i], base + o) == SizeAt(cs[i], o)
  {
    var o, d := OffsetAt(cs, 0, i), cs[i].alignment;
    if base % d == 0 {
      ModAdd(base, o, d);
    } else if SizeAt(cs[i], base + o) == SizeAt(cs[i], o) != 0 {
      ModDifference(base, o + SizeAt(cs[i], o), d);
    }
  }

  /** Laid out from `base`, all fragments stand `base` further than laid out from 0, exactly if all padding is alike. */
  lemma {:induction false} ShiftsExactly(cs: seq<Content>, base: nat)
    ensures Shifts(cs, base) <==> forall i: nat :: i < |cs| && cs[i].Align? ==> PadsAlike(cs, base, i)
  {
    hide SizeAt, PadsAlike;
    if Shifts(cs, base) {
      forall i: nat | i < |cs| && cs[i].Align? ensures PadsAlike(cs, base, i) {
        PadsAlikeExactly(cs, base, i);
        assert OffsetAt(cs, base, i + 1) == base + OffsetAt(cs, 0, i + 1);
      }
    } else {
      if forall i: nat :: i < |cs| && cs[i].Align? ==> PadsAlike(cs, base, i) {
        forall k: nat | k <= |cs| ensures OffsetAt(cs, base, k) == base + OffsetAt(cs, 0, k) {
          AlikeShifts(cs, base, k);
        }
      }
    }
  }

  lemma {:induction false} AlikeShifts(cs: seq<Content>, base: nat, k: nat)
    requires k <= |cs| && forall i: nat :: i < |cs| && cs[i].Align? ==> PadsAlike(cs, base, i)
    ensures OffsetAt(cs, base, k) == base + OffsetAt(cs, 0, k)
  {
    hide PadsAlike;
    if k > 0 {
      AlikeShifts(cs, base, k - 1);
      if cs[k - 1].Align? {
        PadsAlikeExactly(cs, base, k - 1);
      }
    }
  }

  /** No padding is given up for being too long, as all padding that the object builder makes. */
  ghost predicate PadsAlways(cs: seq<Content>) {
    forall i :: 0 <= i < |cs| && cs[i].Align? ==> cs[i].maxBytes >= cs[i].alignment - 1
  }

  /** Then a section moves as a whole exactly if every inner alignment divides the distance. */
  lemma MovesAsWhole(cs: seq<Content>, base: nat)
    requires PadsAlways(cs)
    ensures Shifts(cs, base) <==> DivideAlignment(cs, base)
  {
    hide Shifts, OffsetAt;
    ShiftsExactly(cs, base);
    forall i: nat | i < |cs| && cs[i].Align? ensures PadsAlike(cs, base, i) <==> base % cs[i].alignment == 0 {
      var o, d := OffsetAt(cs, 0, i), cs[i].alignment;
      if SizeAt(cs[i], o) == 0 && SizeAt(cs[i], base + o) == 0 {
        ModDifference(base, o, d);
      }
    }
  }

  /** And it does so wherever its own alignment lets it stand exactly if every inner alignment divides its own. */
  lemma MovesAsWholeAnywhere(cs: seq<Content>, a: nat)
    requires PadsAlways(cs) && a > 0
    ensures (forall base: nat :: base % a == 0 ==> Shifts(cs, base)) <==> DivideAlignment(cs, a)
  {
    hide Shifts;
    MovesAsWhole(cs, a);
    assert a % a == 0;
    if DivideAlignment(cs, a) {
      forall base: nat | base % a == 0 ensures Shifts(cs, base) {
        forall i | 0 <= i < |cs| && cs[i].Align? ensures base % cs[i].alignment == 0 {
          DividesOn(base, a, cs[i].alignment);
        }
        MovesAsWhole(cs, base);
      }
    }
  }

  /** A section aligned to 4 that asks for 8 inside: moved to 4, what stood at 8 moves by 0, not by 4. */
  lemma UnevenMove()
    ensures var cs := [Sized(1), Align(8, 7), Sized(1)];
      OffsetAt(cs, 0, 2) == 8 && OffsetAt(cs, 4, 2) == 8 && !DivideAlignment(cs, 4)
  {
    var cs := [Sized(1), Align(8, 7), Sized(1)];
    assert OffsetAt(cs, 0, 1) == 1 && OffsetAt(cs, 4, 1) == 5;
    assert cs[1].Align? && 4 % cs[1].alignment == 4;
  }
}
