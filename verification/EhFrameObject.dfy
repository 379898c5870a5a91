/** The exception frame section as the linker holds it: preparing an input and merging it in place. */
module EhFrameObjects {
  import opened Options
  import opened EhFrames
  import opened EhFrameMerge
  import opened EhFrameSections

  /** `s` without any occurrence of the members of `gone`. */
  function Minus<T(==)>(s: seq<T>, gone: seq<T>): seq<T> {
    if |s| == 0 then []
    else Minus(s[..|s| - 1], gone) + if s[|s| - 1] in gone then [] else [s[|s| - 1]]
  }

  lemma {:induction false} MinusNothing<T>(s: seq<T>)
    ensures Minus(s, []) == s
  {
    if |s| > 0 {
      MinusNothing(s[..|s| - 1]);
    }
  }

  lemma {:induction false} MinusAppend<T>(s: seq<T>, t: seq<T>, gone: seq<T>)
    ensures Minus(s + t, gone) == Minus(s, gone) + Minus(t, gone)
  {
    var n := |t| - 1;
    if n >= 0 {
      MinusAppend(s, t[..n], gone);
      assert (s + t)[..|s + t| - 1] == s + t[..n];
    } else {
      assert s + t == s;
    }
  }

  lemma {:induction false} MinusTwice<T>(s: seq<T>, a: seq<T>, b: seq<T>)
    ensures Minus(Minus(s, a), b) == Minus(s, a + b)
  {
    var n := |s| - 1;
    if n >= 0 {
      MinusTwice(s[..n], a, b);
      var last := if s[n] in a then [] else [s[n]];
      MinusAppend(Minus(s[..n], a), last, b);
      assert Minus([s[n]][..0], b) == [];
    }
  }

  lemma {:induction false} LiveIsMinusDiscarded(relocs: seq<Reloc>, fdes: seq<Fde>, all: seq<Fde>)
    requires forall f :: f in fdes ==> f in all
    ensures LiveFdes(relocs, fdes) == Minus(fdes, DiscardedFdes(relocs, all))
  {
    var n := |fdes| - 1;
    if n >= 0 {
      LiveIsMinusDiscarded(relocs, fdes[..n], all);
      assert fdes[n] in fdes;
    }
  }

  class RelocData {
    var relocs: seq<Reloc>

    method RemoveRange(from: nat, to: nat)
      modifies this
      ensures relocs == WithoutRange(old(relocs), from, to)
    {
      var kept := [];
      for k := 0 to |relocs|
        invariant relocs == old(relocs) && kept == WithoutRange(relocs[..k], from, to)
      {
        assert relocs[..k + 1][..k] == relocs[..k];
        if !(from <= relocs[k].place < to) {
          kept := kept + [relocs[k]];
        }
      }
      assert relocs[..|relocs|] == relocs;
      relocs := kept;
    }
  }

  /** A CIE that an output CIE equals is merged into it. */
  predicate IsMerged(out: Frame, c: Cie) {
    c.mergeable && FindCie(out.cies, c) < |out.cies|
  }

  /** The fragments that move: a merged CIE's own record stays behind. */
  function MovedFragments(out: Frame, c: Cie): seq<Fragment> {
    if IsMerged(out, c) then FragmentsOf(c.fdes) else GroupOf(c)
  }

  /** A merged CIE does not need its relocation any more. */
  function RelocsAfter(out: Frame, c: Cie, relocs: seq<Reloc>): seq<Reloc> {
    if IsMerged(out, c) && c.reloc.Some? then Minus(relocs, [c.reloc.value]) else relocs
  }

  /** What is left of the input's fragment list. */
  function LeftBehind(out: Frame, cies: seq<Cie>, fragments: seq<Fragment>): seq<Fragment> {
    if |cies| == 0 then fragments
    else
      var n := |cies| - 1;
      Minus(LeftBehind(out, cies[..n], fragments), MovedFragments(MovedAll(out, cies[..n]), cies[n]))
  }

  /** The relocations left after the merge. */
  function RelocsMerged(out: Frame, cies: seq<Cie>, relocs: seq<Reloc>): seq<Reloc> {
    if |cies| == 0 then relocs
    else
      var n := |cies| - 1;
      RelocsAfter(MovedAll(out, cies[..n]), cies[n], RelocsMerged(out, cies[..n], relocs))
  }

  class EhFrame {
    var fragments: seq<Fragment>
    var cies: seq<Cie>

    function View(): Frame
      reads this
    {
      Frame(fragments, cies)
    }

    method CollectDiscarded(k: nat, rel: RelocData) returns (toBeRemoved: seq<Fde>)
      requires k < |cies|
      ensures toBeRemoved == DiscardedFdes(rel.relocs, cies[k].fdes)
    {
      hide RelocAt;
      var c := cies[k];
      toBeRemoved := [];
      for j := 0 to |c.fdes|
        invariant toBeRemoved == DiscardedFdes(rel.relocs, c.fdes[..j])
      {
        assert c.fdes[..j + 1][..j] == c.fdes[..j];
        var r := RelocAt(rel.relocs, c.fdes[j].offset + DATA_START_OFFSET);
        if r.Some? && !r.value.hasFragRef {
          toBeRemoved := toBeRemoved + [c.fdes[j]];
        }
      }
      assert c.fdes[..|c.fdes|] == c.fdes;
    }

    /** Drop the entries of CIE `k` whose functions were discarded, with their relocations. */
    method RemoveDiscardedFde(k: nat, rel: RelocData)
      requires k < |cies|
      modifies this`cies, rel
      ensures cies == old(cies)[k := old(cies)[k].(fdes := LiveFdes(old(rel.relocs), old(cies)[k].fdes))]
      ensures rel.relocs == WithoutEntries(old(rel.relocs), DiscardedFdes(old(rel.relocs), old(cies)[k].fdes))
    {
      hide RelocAt, WithoutRange, DiscardedFdes, LiveFdes, IsDiscarded, Minus;
      var c := cies[k];
      var toBeRemoved := CollectDiscarded(k, rel);
      MinusNothing(c.fdes);
      LiveIsMinusDiscarded(rel.relocs, c.fdes, c.fdes);
      var fdes := c.fdes;
      for j := 0 to |toBeRemoved|
        invariant cies == old(cies)
        invariant fdes == Minus(c.fdes, toBeRemoved[..j])
        invariant rel.relocs == WithoutEntries(old(rel.relocs), toBeRemoved[..j])
      {
        var fde := toBeRemoved[j];
        MinusTwice(c.fdes, toBeRemoved[..j], [fde]);
        assert toBeRemoved[..j + 1] == toBeRemoved[..j] + [fde] && toBeRemoved[..j + 1][..j] == toBeRemoved[..j];
        fdes := Minus(fdes, [fde]);
        rel.RemoveRange(fde.offset, fde.offset + |fde.fragment.bytes|);
      }
      assert toBeRemoved[..|toBeRemoved|] == toBeRemoved;
      cies := cies[k := c.(fdes := fdes)];
    }

    method PrepareOne(k: nat, rel: RelocData?)
      requires k < |cies|
      modifies this`cies, rel
      ensures var (c, rest) := Prepared(old(cies)[k], if rel == null then None else Some(old(rel.relocs)));
        cies == old(cies)[k := c] && rest == if rel == null then None else Some(rel.relocs)
    {
      hide RelocAt, WithoutEntries, DiscardedFdes, LiveFdes;
      if rel != null {
        RemoveDiscardedFde(k, rel);
      }
      var c := cies[k];
      if c.personality == "" {
        cies := cies[k := c.(mergeable := true)];
      } else if rel != null {
        var r := RelocAt(rel.relocs, c.offset + c.personalityOffset);
        if r.Some? {
          cies := cies[k := c.(mergeable := true, personality := r.value.symbol, reloc := r)];
        }
      }
    }

    /** Prepare every CIE for merging, once all the relocations are known. */
    method SetupAttributes(rel: RelocData?)
      modifies this`cies, rel
      ensures PreparedAll(old(cies), if rel == null then None else Some(old(rel.relocs)))
           == (cies, if rel == null then None else Some(rel.relocs))
    {
      hide Prepared;
      ghost var start := if rel == null then None else Some(rel.relocs);
      ghost var cies0 := cies;
      for k := 0 to |cies|
        invariant |cies| == |cies0| && forall j :: k <= j < |cies| ==> cies[j] == cies0[j]
        invariant PreparedAll(cies0[..k], start) == (cies[..k], if rel == null then None else Some(rel.relocs))
      {
        assert cies0[..k + 1][..k] == cies0[..k];
        ghost var before := cies;
        PrepareOne(k, rel);
        assert cies[..k + 1] == before[..k] + [cies[k]];
      }
      assert cies0[..|cies0|] == cies0 && cies[..|cies|] == cies;
    }

    /** Append the fragments of an input in which no CIE was parsed. */
    method MoveAllFragments(input: EhFrame)
      requires input != this
      modifies this`fragments, input`fragments
      ensures fragments == old(fragments) + old(input.fragments) && input.fragments == []
    {
      while |input.fragments| > 0
        invariant fragments + input.fragments == old(fragments) + old(input.fragments)
        decreases |input.fragments|
      {
        var frag := input.fragments[0];
        input.fragments := input.fragments[1..];
        fragments := fragments + [frag];
      }
    }

    /** Move `moved` out of the input's list and insert it, in order, before position `at`. */
    method MoveFragments(input: EhFrame, moved: seq<Fragment>, at: nat)
      requires input != this && at <= |fragments|
      modifies this`fragments, input`fragments
      ensures fragments == old(fragments)[..at] + moved + old(fragments)[at..]
      ensures input.fragments == Minus(old(input.fragments), moved)
    {
      MinusNothing(input.fragments);
      for k := 0 to |moved|
        invariant fragments == old(fragments)[..at] + moved[..k] + old(fragments)[at..]
        invariant input.fragments == Minus(old(input.fragments), moved[..k])
      {
        MinusTwice(old(input.fragments), moved[..k], [moved[k]]);
        assert moved[..k + 1] == moved[..k] + [moved[k]];
        input.fragments := Minus(input.fragments, [moved[k]]);
        fragments := fragments[..at + k] + [moved[k]] + fragments[at + k..];
      }
      assert moved[..|moved|] == moved;
    }

    /** Merge one CIE of the input, already prepared. */
    method MergeCie(input: EhFrame, c: Cie, rel: RelocData?)
      requires input != this && WellBuilt(View())
      modifies this, input`fragments, rel
      ensures View() == Moved(old(View()), c)
      ensures input.fragments == Minus(old(input.fragments), MovedFragments(old(View()), c))
      ensures rel != null ==> rel.relocs == RelocsAfter(old(View()), c, old(rel.relocs))
    {
      hide Minus, FindCie, Position;
      if !c.mergeable {
        MoveFragments(input, GroupOf(c), |fragments|);
        assert fragments == old(fragments) + [c.fragment] + FragmentsOf(c.fdes);
        cies := cies + [c];
        return;
      }
      var outI := 0;
      while outI < |cies| && !SameCie(cies[outI], c)
        invariant outI <= |cies| && forall i :: 0 <= i < outI ==> !SameCie(cies[i], c)
      {
        outI := outI + 1;
      }
      assert outI == FindCie(cies, c);
      if outI == |cies| {
        MoveFragments(input, GroupOf(c), |fragments|);
        assert fragments == old(fragments) + [c.fragment] + FragmentsOf(c.fdes);
        cies := cies + [c];
        return;
      }
      var at := Position(fragments, cies[outI].fragment.id);
      assert at < |fragments| by {
        assert Grouped(fragments, cies[outI]);
      }
      MoveFragments(input, FragmentsOf(c.fdes), at + 1);
      if rel != null && c.reloc.Some? {
        rel.relocs := Minus(rel.relocs, [c.reloc.value]);
      }
      cies := Adopted(cies, outI, c);
    }

    /** Merge an input section into this one. */
    method Merge(input: EhFrame, rel: RelocData?)
      requires input != this && WellBuilt(View()) && ValidInput(input.View()) && Apart(fragments, Taken(input.View()))
      modifies this, input, rel
      ensures var relocs := RelocsOf(rel == null, if rel == null then [] else old(rel.relocs));
        View() == Merged(old(View()), Attributed(old(input.View()), relocs))
      ensures WellBuilt(View())
      ensures input.fragments
           == if old(input.cies) == [] then [] else LeftBehind(old(View()), input.cies, old(input.fragments))
      ensures rel != null && old(input.cies) != [] ==>
        rel.relocs == RelocsMerged(old(View()), input.cies, PreparedAll(old(input.cies), Some(old(rel.relocs))).1.value)
    {
      hide PreparedAll, MovedAll, WellBuilt, ValidInput, Apart, Taken;
      ghost var out0, in0 := View(), input.View();
      ghost var relocs := RelocsOf(rel == null, if rel == null then [] else rel.relocs);
      MergeIsWellBuilt(out0, in0, relocs);
      if |input.cies| == 0 {
        MoveAllFragments(input);
        return;
      }
      input.SetupAttributes(rel);
      MergeCies(input, rel, in0, relocs);
    }

    /** Merge the CIEs of a prepared input, one after another. */
    method MergeCies(input: EhFrame, rel: RelocData?, ghost in0: Frame, ghost relocs: Option<seq<Reloc>>)
      requires input != this && WellBuilt(View()) && ValidInput(in0) && Apart(fragments, Taken(in0)) && |in0.cies| > 0
      requires input.View() == Attributed(in0, relocs)
      modifies this, input`fragments, rel
      ensures View() == MovedAll(old(View()), input.cies)
      ensures input.fragments == LeftBehind(old(View()), input.cies, old(input.fragments))
      ensures rel != null ==> rel.relocs == RelocsMerged(old(View()), input.cies, old(rel.relocs))
    {
      hide PreparedAll, Moved, WellBuilt, ValidInput, Apart, Taken, Minus, MovedFragments, RelocsAfter;
      ghost var out0, cs := View(), input.cies;
      for i := 0 to |input.cies|
        invariant input.cies == cs && View() == MovedAll(out0, cs[..i])
        invariant input.fragments == LeftBehind(out0, cs[..i], old(input.fragments))
        invariant rel != null ==> rel.relocs == RelocsMerged(out0, cs[..i], old(rel.relocs))
      {
        assert cs[..i + 1][..i] == cs[..i];
        AttributedPrefix(out0, in0, relocs, i);
        MergeCie(input, input.cies[i], rel);
      }
      assert cs[..|cs|] == cs;
    }
  }

  function RelocsOf(none: bool, relocs: seq<Reloc>): Option<seq<Reloc>> {
    if none then None else Some(relocs)
  }

  lemma MergeIsWellBuilt(out: Frame, input: Frame, relocs: Option<seq<Reloc>>)
    requires WellBuilt(out) && ValidInput(input) && Apart(out.fragments, Taken(input))
    ensures WellBuilt(Merged(out, Attributed(input, relocs)))
    ensures Distinct(Taken(Attributed(input, relocs))) && Apart(out.fragments, Taken(Attributed(input, relocs)))
  {
    AttributedIsValid(input, relocs);
    ApartMembers(out.fragments, Taken(input));
    ApartMembers(out.fragments, Taken(Attributed(input, relocs)));
    MergedWellBuilt(out, Attributed(input, relocs));
  }

  lemma AttributedPrefix(out: Frame, input: Frame, relocs: Option<seq<Reloc>>, n: nat)
    requires WellBuilt(out) && ValidInput(input) && Apart(out.fragments, Taken(input)) && |input.cies| > 0
    requires n <= |Attributed(input, relocs).cies|
    ensures WellBuilt(MovedAll(out, Attributed(input, relocs).cies[..n]))
  {
    MergeIsWellBuilt(out, input, relocs);
    AttributedIsValid(input, relocs);
    PrefixWellBuilt(out, Attributed(input, relocs).cies, n);
  }

  lemma {:induction false} PrefixWellBuilt(out: Frame, cies: seq<Cie>, n: nat)
    requires n <= |cies| && WellBuilt(out) && Distinct(Groups(cies)) && Apart(out.fragments, Groups(cies))
    requires forall k :: 0 <= k < |cies| ==> Owned(cies[k])
    ensures WellBuilt(MovedAll(out, cies[..n]))
    decreases |cies|
  {
    if n == |cies| {
      assert cies[..n] == cies;
      MovedAllWellBuilt(out, cies);
    } else {
      var m := |cies| - 1;
      SplitDistinct(Groups(cies[..m]), GroupOf(cies[m]));
      SplitApart(out.fragments, Groups(cies[..m]), GroupOf(cies[m]));
      PrefixWellBuilt(out, cies[..m], n);
      assert cies[..m][..n] == cies[..n];
    }
  }
}
