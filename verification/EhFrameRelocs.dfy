/** Which relocations of an input are left after merging: those that the records in the output still need. */
module EhFrameRelocs {
  import opened Options
  import opened EhFrames
  import opened EhFrameMerge
  import opened EhFrameSections
  import opened EhFrameObjects

  lemma {:induction false} MinusIn<T>(s: seq<T>, gone: seq<T>, x: T)
    ensures x in Minus(s, gone) <==> x in s && x !in gone
  {
    if |s| > 0 {
      MinusIn(s[..|s| - 1], gone, x);
    }
  }

  /** The record of a CIE comes to the output unless the CIE is merged into another. */
  lemma RecordComes(out: Frame, c: Cie)
    requires Distinct(GroupOf(c)) && Apart(out.fragments, GroupOf(c))
    ensures c.fragment in Moved(out, c).fragments <==> !IsMerged(out, c)
  {
    ApartMembers(out.fragments, GroupOf(c));
    assert GroupOf(c)[0] == c.fragment;
    assert forall j :: 0 <= j < |c.fdes| ==> GroupOf(c)[j + 1] == FragmentsOf(c.fdes)[j];
    if IsMerged(out, c) {
      var p := Position(out.fragments, out.cies[FindCie(out.cies, c)].fragment.id);
      var at := if p < |out.fragments| then p + 1 else p;
      assert forall f :: f in out.fragments[..at] || f in out.fragments[at..] ==> f in out.fragments;
    }
  }

  /** Nothing that was in the output, or was not, changes when fragments with other identities come. */
  lemma OthersStay(out: Frame, c: Cie, f: Fragment)
    requires forall g :: g in GroupOf(c) ==> g.id != f.id
    ensures f in Moved(out, c).fragments <==> f in out.fragments
  {
    MovedAmong(out, c);
    var k := FindCie(out.cies, c);
    if c.mergeable && k < |out.cies| {
      var p := Position(out.fragments, out.cies[k].fragment.id);
      var at := if p < |out.fragments| then p + 1 else p;
      assert out.fragments == out.fragments[..at] + out.fragments[at..];
    }
  }

  /** A relocation is used up if it names the routine of a CIE whose record does not come to the output. */
  ghost predicate StillNeeded(cies: seq<Cie>, out: Frame, r: Reloc) {
    forall k :: 0 <= k < |cies| && cies[k].reloc == Some(r) ==> cies[k].fragment in out.fragments
  }

  /** After the merge exactly the relocations are left that name no routine, or that of a CIE whose record is in the
      output. */
  lemma {:induction false} RelocationsLeft(out: Frame, cies: seq<Cie>, relocs: seq<Reloc>, r: Reloc)
    requires WellBuilt(out) && Distinct(Groups(cies)) && Apart(out.fragments, Groups(cies))
    requires forall k :: 0 <= k < |cies| ==> Owned(cies[k])
    ensures r in RelocsMerged(out, cies, relocs) <==> r in relocs && StillNeeded(cies, MovedAll(out, cies), r)
  {
    var n := |cies| - 1;
    if n >= 0 {
      hide WellBuilt, Distinct, Apart, Moved, RelocsAfter, StillNeeded, GroupOf, Owned;
      var before, x := MovedAll(out, cies[..n]), GroupOf(cies[n]);
      SplitDistinct(Groups(cies[..n]), x);
      SplitApart(out.fragments, Groups(cies[..n]), x);
      RelocationsLeft(out, cies[..n], relocs, r);
      MovedAllAmong(out, cies[..n]);
      AmongApart(before.fragments, out.fragments, Groups(cies[..n]), x);
      LastNeeded(before, cies, r);
      LastUsed(before, cies[n], RelocsMerged(out, cies[..n], relocs), r);
    }
  }

  lemma LastUsed(before: Frame, c: Cie, relocs: seq<Reloc>, r: Reloc)
    ensures r in RelocsAfter(before, c, relocs) <==> r in relocs && !(IsMerged(before, c) && c.reloc == Some(r))
  {
    hide Minus, IsMerged;
    if c.reloc.Some? {
      MinusIn(relocs, [c.reloc.value], r);
    }
  }

  /** The last CIE decides about its own relocation, and changes nothing for the others. */
  lemma LastNeeded(before: Frame, cies: seq<Cie>, r: Reloc)
    requires |cies| > 0 && Distinct(GroupOf(cies[|cies| - 1])) && Apart(before.fragments, GroupOf(cies[|cies| - 1]))
    requires Apart(Groups(cies[..|cies| - 1]), GroupOf(cies[|cies| - 1]))
    ensures var n := |cies| - 1;
      StillNeeded(cies, Moved(before, cies[n]), r)
      <==> StillNeeded(cies[..n], before, r) && !(IsMerged(before, cies[n]) && cies[n].reloc == Some(r))
  {
    hide Distinct, Apart, Moved, IsMerged, GroupOf;
    var n := |cies| - 1;
    RecordComes(before, cies[n]);
    forall k | 0 <= k < n
      ensures cies[k].fragment in Moved(before, cies[n]).fragments <==> cies[k].fragment in before.fragments
    {
      ApartMembers(Groups(cies[..n]), GroupOf(cies[n]));
      RecordInGroups(cies[..n], k);
      OthersStay(before, cies[n], cies[k].fragment);
    }
    assert forall k :: 0 <= k < n ==> cies[..n][k] == cies[k];
  }

  lemma RecordInGroups(cies: seq<Cie>, k: nat)
    requires k < |cies|
    ensures cies[k].fragment in Groups(cies)
  {
    assert GroupOf(cies[k])[0] == cies[k].fragment;
    InGroups(cies, cies[k].fragment);
  }
}
