/** How far a branch can be from the island behind it, for the islands that grouping makes and the search finds. */
module BranchIslandReach {
  import opened Options
  import opened BranchIslands

  /** The size of the padding from the a-th fragment on. */
  function PadsFrom(fs: seq<Fragment>, a: nat): nat
    requires a <= |fs|
    decreases |fs| - a
  {
    if a == |fs| || !fs[a].isAlignment then 0 else fs[a].size + PadsFrom(fs, a + 1)
  }

  lemma {:induction false} PadsWithin(section: Section, a: nat, i: nat)
    requires section.Contiguous() && a <= i < |section.fragments|
    requires forall k :: a <= k < i ==> section.fragments[k].isAlignment
    ensures section.fragments[i].offset <= section.fragments[a].offset + PadsFrom(section.fragments, a)
    decreases i - a
  {
    if a < i {
      PadsWithin(section, a + 1, i);
      assert section.fragments[a + 1].offset == section.fragments[a].End();
    }
  }

  lemma {:induction false} PadsStop(section: Section, a: nat, j: nat)
    requires section.Contiguous() && a <= j < |section.fragments| && !section.fragments[j].isAlignment
    ensures section.fragments[a].offset + PadsFrom(section.fragments, a) <= section.fragments[j].offset
    decreases j - a
  {
    if section.fragments[a].isAlignment {
      PadsStop(section, a + 1, j);
      assert section.fragments[a + 1].offset == section.fragments[a].End();
    } else if a < j {
      OffsetsRise(section, a, j);
    }
  }

  /** The farthest place that a group can reach which starts behind the padding behind an island. */
  ghost function FarEnd(sections: seq<Section>, b: Island, range: nat): nat
    requires b.ValidIn(sections)
  {
    b.Offset(sections) + PadsFrom(sections[b.section].fragments, b.entry + 1) + range
  }

  /** Two islands of a section, next to each other in the list: what fits between them is near the first one. */
  ghost predicate SpacedPair(sections: seq<Section>, b: Island, a: Island, range: nat)
    requires b.ValidIn(sections) && a.ValidIn(sections) && a.section == b.section
  {
    var fs := sections[b.section].fragments;
    && !fs[b.entry].isAlignment
    && forall j :: b.entry < j <= a.entry && Fits(sections[b.section], j, range) ==>
         fs[j].End() <= FarEnd(sections, b, range)
  }

  ghost predicate Spaced(islands: seq<Island>, sections: seq<Section>, range: nat, from: nat)
    requires AllValid(islands, sections)
  {
    forall k :: from <= k < |islands| - 1 && islands[k].section == islands[k + 1].section ==>
      SpacedPair(sections, islands[k], islands[k + 1], range)
  }

  /** The group in the making starts right behind the last island and the padding behind it. */
  ghost predicate GroupOpen(sections: seq<Section>, s: nat, b: Island, groupEnd: nat, range: nat, n: nat)
    requires s < |sections| && n <= |sections[s].fragments|
  {
    var fs := sections[s].fragments;
    && b.section == s && b.entry < n && !fs[b.entry].isAlignment
    && groupEnd <= FarEnd(sections, b, range)
    && forall j :: b.entry < j < n && Fits(sections[s], j, range) ==> fs[j].End() <= groupEnd
  }

  /** What holds of the islands made so far, those before `from` aside. */
  ghost predicate Keeps(g: Grouping, sections: seq<Section>, s: nat, range: nat, from: nat, n: nat)
    requires s < |sections| && n <= |sections[s].fragments| && AllValid(g.islands, sections)
  {
    && from <= |g.islands| && Spaced(g.islands, sections, range, from)
    && (forall k :: from <= k < |g.islands| ==> g.islands[k].section == s)
    && (|g.islands| > from ==> GroupOpen(sections, s, g.islands[|g.islands| - 1], g.groupEnd, range, n))
  }

  lemma OneMoreIsland(islands: seq<Island>, sections: seq<Section>, range: nat, from: nat, a: Island)
    requires AllValid(islands, sections) && Spaced(islands, sections, range, from) && a.ValidIn(sections)
    requires |islands| > from && islands[|islands| - 1].section == a.section ==>
      SpacedPair(sections, islands[|islands| - 1], a, range)
    ensures AllValid(islands + [a], sections) && Spaced(islands + [a], sections, range, from)
  {
    hide SpacedPair;
  }

  lemma TurnKeeps(g: Grouping, sections: seq<Section>, s: nat, range: nat, from: nat, i: nat)
    requires s < |sections| && i < |sections[s].fragments| && sections[s].Contiguous() && AllValid(g.islands, sections)
    requires Keeps(g, sections, s, range, from, i)
    ensures var r := Turn(g, sections[s].fragments, s, range, i);
      AllValid(r.islands, sections) && Keeps(r, sections, s, range, from, i + 1)
  {
    hide Spaced, GroupOpen, FarEnd, SpacedPair;
    var p := LastBranchingBefore(sections[s].fragments, i);
    if sections[s].fragments[i].End() > g.groupEnd && p >= 0 {
      if |g.islands| > from {
        GroupCloses(sections, s, g.islands[|g.islands| - 1], g.groupEnd, range, i, p);
      }
      OneMoreIsland(g.islands, sections, range, from, Island(s, p));
      GroupOpens(sections, s, range, i, p);
    } else if |g.islands| > from {
      GroupGrows(sections, s, g.islands[|g.islands| - 1], g.groupEnd, range, i);
    }
  }

  lemma GroupCloses(sections: seq<Section>, s: nat, b: Island, groupEnd: nat, range: nat, i: nat, p: nat)
    requires s < |sections| && i < |sections[s].fragments| && p < i && GroupOpen(sections, s, b, groupEnd, range, i)
    ensures b.ValidIn(sections) && Island(s, p).ValidIn(sections) && b.section == s
    ensures SpacedPair(sections, b, Island(s, p), range)
  {
    hide FarEnd;
  }

  lemma GroupOpens(sections: seq<Section>, s: nat, range: nat, i: nat, p: nat)
    requires s < |sections| && i < |sections[s].fragments| && sections[s].Contiguous()
    requires p == LastBranchingBefore(sections[s].fragments, i)
    ensures GroupOpen(sections, s, Island(s, p), sections[s].fragments[i].offset + range, range, i + 1)
  {
    StartsWithinPads(sections, s, range, i, p);
    hide FarEnd, Section.Contiguous, LastBranchingBefore;
    var fs, groupEnd := sections[s].fragments, sections[s].fragments[i].offset + range;
    forall j | p < j < i + 1 && Fits(sections[s], j, range) ensures fs[j].End() <= groupEnd {
      assert j == i;
    }
  }

  lemma StartsWithinPads(sections: seq<Section>, s: nat, range: nat, i: nat, p: nat)
    requires s < |sections| && i < |sections[s].fragments| && sections[s].Contiguous() && p < i
    requires forall k :: p < k < i ==> sections[s].fragments[k].isAlignment
    ensures sections[s].fragments[i].offset + range <= FarEnd(sections, Island(s, p), range)
  {
    PadsWithin(sections[s], p + 1, i);
    assert sections[s].fragments[p + 1].offset == sections[s].fragments[p].End();
    hide PadsFrom, Section.Contiguous;
  }

  /** A fragment that fits the group joins it, and so does one with nothing but padding before it. */
  lemma GroupGrows(sections: seq<Section>, s: nat, b: Island, groupEnd: nat, range: nat, i: nat)
    requires s < |sections| && i < |sections[s].fragments| && GroupOpen(sections, s, b, groupEnd, range, i)
    requires sections[s].fragments[i].End() <= groupEnd || LastBranchingBefore(sections[s].fragments, i) < 0
    ensures GroupOpen(sections, s, b, groupEnd, range, i + 1)
  {
    hide FarEnd;
  }

  lemma {:induction false} GroupKeeps(islands: seq<Island>, sections: seq<Section>, s: nat, range: nat, n: nat)
    requires s < |sections| && n <= |sections[s].fragments| && sections[s].Contiguous() && AllValid(islands, sections)
    ensures Keeps(GroupUpTo(islands, sections, s, range, n), sections, s, range, |islands|, n)
  {
    hide Keeps, Turn;
    if n == 0 {
      NothingMade(islands, sections, s, range);
    } else {
      GroupKeeps(islands, sections, s, range, n - 1);
      TurnKeeps(GroupUpTo(islands, sections, s, range, n - 1), sections, s, range, |islands|, n - 1);
    }
  }

  lemma NothingMade(islands: seq<Island>, sections: seq<Section>, s: nat, range: nat)
    requires s < |sections| && AllValid(islands, sections)
    ensures Keeps(Grouping(islands, range), sections, s, range, |islands|, 0)
  {}

  lemma SectionKeeps(islands: seq<Island>, sections: seq<Section>, s: nat, range: nat)
    requires s < |sections| && sections[s].fragments != [] && sections[s].Contiguous() && AllValid(islands, sections)
    ensures var r := GroupedSection(islands, sections, s, range);
      Spaced(r, sections, range, |islands|) && forall k :: |islands| <= k < |r| ==> r[k].section == s
  {
    hide Spaced;
    var n := |sections[s].fragments|;
    GroupKeeps(islands, sections, s, range, n);
    OneMoreIsland(GroupUpTo(islands, sections, s, range, n).islands, sections, range, |islands|, Island(s, n - 1));
  }

  lemma {:induction false} GroupedIsSpaced(sections: seq<Section>, range: nat, n: nat)
    requires ValidSections(sections) && n <= |sections|
    ensures Spaced(Grouped(sections, range, n), sections, range, 0)
    ensures forall k :: 0 <= k < |Grouped(sections, range, n)| ==> Grouped(sections, range, n)[k].section < n
  {
    hide SpacedPair, GroupedSection;
    if n > 0 {
      var before := Grouped(sections, range, n - 1);
      GroupedIsSpaced(sections, range, n - 1);
      if sections[n - 1].isText {
        SectionKeeps(before, sections, n - 1, range);
      }
    }
  }

  // ----- the fragments that get an island behind them -----

  /** The island behind the k-th fragment that the search finds after grouping. */
  ghost function Found(sections: seq<Section>, s: nat, k: nat, range: nat, bwdRange: int): (b: Option<Island>)
    requires ValidSections(sections) && s < |sections| && k < |sections[s].fragments|
    ensures b.Some? ==> b.value.ValidIn(sections)
  {
    var islands := Grouped(sections, range, |sections|);
    var i := OneBehind(islands, sections, s, sections[s].fragments[k], range, bwdRange);
    if i.Some? then Some(islands[i.value]) else None
  }

  /** A fragment with an island behind it ends within the range and the padding behind that island, and the padding is
      no farther than the search looks. */
  lemma FoundIsNear(sections: seq<Section>, s: nat, k: nat, range: nat, bwdRange: int)
    requires ValidSections(sections) && s < |sections| && sections[s].isText && Branches(sections[s], k)
    requires Found(sections, s, k, range, bwdRange).Some?
    ensures var b, fs := Found(sections, s, k, range, bwdRange).value, sections[s].fragments;
      && b.section == s && !fs[b.entry].isAlignment && Behind(sections, s, fs[k], b, bwdRange)
      && fs[k].End() <= FarEnd(sections, b, range)
      && b.Offset(sections) + PadsFrom(fs, b.entry + 1) <= fs[k].offset
  {
    hide Grouped, FarEnd;
    var islands, f := Grouped(sections, range, |sections|), sections[s].fragments[k];
    var fwd := FirstAhead(islands, sections, s, f, range).value;
    var b, a := islands[fwd - 1], islands[fwd];
    GroupedIsSpaced(sections, range, |sections|);
    NothingInside(islands, sections, s, k, range);
    assert Fits(sections[s], k, range);
    assert SpacedPair(sections, b, a, range);
    if a.entry < k {
      OffsetsRise(sections[s], a.entry, k);
    }
    if k < b.entry {
      OffsetsRise(sections[s], k, b.entry);
    }
    assert sections[s].fragments[b.entry + 1].offset == sections[s].fragments[b.entry].End();
    PadsStop(sections[s], b.entry + 1, k);
  }

  /** No run of padding behind a fragment is longer than `pad`. */
  ghost predicate PaddedAtMost(sections: seq<Section>, pad: nat) {
    forall s, p :: 0 <= s < |sections| && 0 <= p < |sections[s].fragments| && !sections[s].fragments[p].isAlignment ==>
      PadsFrom(sections[s].fragments, p + 1) <= pad
  }

  /** A branch reaches backwards as far as the target's own range, which is negative. */
  predicate ReachesBack(branch: nat, target: nat, maxBwdBranchRange: int) {
    target - branch >= maxBwdBranchRange
  }

  /** Every branch of the k-th fragment reaches the island behind it, if the search finds one. */
  ghost predicate ReachesFound(sections: seq<Section>, s: nat, k: nat, range: nat, maxBwdBranchRange: int, reserve: nat)
    requires ValidSections(sections) && s < |sections| && k < |sections[s].fragments|
  {
    var b, f := Found(sections, s, k, range, maxBwdBranchRange + reserve), sections[s].fragments[k];
    b.Some? ==> forall branch: nat :: f.offset <= branch < f.End() ==>
      ReachesBack(branch, b.value.Offset(sections), maxBwdBranchRange)
  }

  /** In all sections with padding up to `pad`, every branch reaches the island behind it. */
  ghost predicate AlwaysReaches(range: nat, maxBwdBranchRange: int, reserve: nat, pad: nat) {
    forall sections: seq<Section>, s: nat, k: nat ::
      ValidSections(sections) && PaddedAtMost(sections, pad)
      && s < |sections| && sections[s].isText && Branches(sections[s], k) ==>
      ReachesFound(sections, s, k, range, maxBwdBranchRange, reserve)
  }

  /** The search finds nothing behind, or there is nothing ahead, or the range and the padding together are not too
      long. Padding that is longer than the search looks back does not count. */
  predicate RangesSuit(range: nat, maxBwdBranchRange: int, reserve: nat, pad: nat) {
    var back := -(maxBwdBranchRange + reserve);
    back <= 0 || range == 0 || (if pad <= back then pad else back) + range - 1 <= -maxBwdBranchRange
  }

  lemma SuitedReaches(sections: seq<Section>, s: nat, k: nat, range: nat, maxBwdBranchRange: int, reserve: nat,
                      pad: nat)
    requires ValidSections(sections) && PaddedAtMost(sections, pad)
      && RangesSuit(range, maxBwdBranchRange, reserve, pad)
    requires s < |sections| && sections[s].isText && Branches(sections[s], k)
    ensures ReachesFound(sections, s, k, range, maxBwdBranchRange, reserve)
  {
    hide Found;
    if Found(sections, s, k, range, maxBwdBranchRange + reserve).Some? {
      FoundIsNear(sections, s, k, range, maxBwdBranchRange + reserve);
    }
  }

  /** A fragment, padding, and a fragment as long as the range. */
  function PaddedApart(range: nat, pad: nat): seq<Section> {
    [Section(true, [Fragment(false, 0, 1), Fragment(true, 1, pad), Fragment(false, 1 + pad, range)])]
  }

  lemma PaddedApartUpTo(range: nat, pad: nat)
    requires range > 0 && pad > 0
    ensures GroupUpTo([], PaddedApart(range, pad), 0, range, 3)
         == Grouping(if 1 + pad <= range then [Island(0, 0)] else [Island(0, 0), Island(0, 0)], 1 + pad + range)
  {
    var sections := PaddedApart(range, pad);
    var fs := sections[0].fragments;
    assert LastBranchingBefore(fs, 0) == -1 && LastBranchingBefore(fs, 1) == 0 && LastBranchingBefore(fs, 2) == 0;
    hide LastBranchingBefore;
    assert GroupUpTo([], sections, 0, range, 1) == Grouping([], range);
    if 1 + pad <= range {
      assert GroupUpTo([], sections, 0, range, 2) == Grouping([], range);
    } else {
      assert GroupUpTo([], sections, 0, range, 2) == Grouping([Island(0, 0)], 1 + range);
    }
  }

  lemma PaddedApartGrouped(range: nat, pad: nat)
    requires range > 0 && pad > 0
    ensures ValidSections(PaddedApart(range, pad)) && PaddedAtMost(PaddedApart(range, pad), pad)
    ensures Grouped(PaddedApart(range, pad), range, 1)
         == if 1 + pad <= range then [Island(0, 0), Island(0, 2)] else [Island(0, 0), Island(0, 0), Island(0, 2)]
  {
    var sections := PaddedApart(range, pad);
    var fs := sections[0].fragments;
    assert PadsFrom(fs, 3) == PadsFrom(fs, 2) == 0 && PadsFrom(fs, 1) == pad;
    PaddedApartUpTo(range, pad);
    hide GroupUpTo, PadsFrom, FirstAhead;
    var g := GroupUpTo([], sections, 0, range, 3);
    assert FirstAhead(g.islands, sections, 0, fs[2], range).None?;
    assert Grouped(sections, range, 1) == GroupedSection(Grouped(sections, range, 0), sections, 0, range);
  }

  /** Two fragments that do not fit into one group, the second so short that another one fits behind it. */
  function SideBySide(range: nat): seq<Section>
    requires range > 1
  {
    [Section(true, [Fragment(false, 0, range), Fragment(false, range, 1), Fragment(false, range + 1, range - 1)])]
  }

  lemma SideBySideGrouped(range: nat)
    requires range > 1
    ensures ValidSections(SideBySide(range)) && PaddedAtMost(SideBySide(range), 0)
    ensures Grouped(SideBySide(range), range, 1) == [Island(0, 0), Island(0, 2)]
  {
    var sections := SideBySide(range);
    var fs := sections[0].fragments;
    assert PadsFrom(fs, 3) == PadsFrom(fs, 2) == PadsFrom(fs, 1) == 0;
    assert LastBranchingBefore(fs, 0) == -1 && LastBranchingBefore(fs, 1) == 0 && LastBranchingBefore(fs, 2) == 1;
    assert GroupUpTo([], sections, 0, range, 0) == Grouping([], range);
    assert GroupUpTo([], sections, 0, range, 1) == Grouping([], range);
    assert GroupUpTo([], sections, 0, range, 2) == Grouping([Island(0, 0)], range + range);
    assert GroupUpTo([], sections, 0, range, 3) == Grouping([Island(0, 0)], range + range);
    assert Grouped(sections, range, 1) == GroupedSection(Grouped(sections, range, 0), sections, 0, range);
  }

  /** The last fragment ends at an island, and the one before that is behind it. */
  lemma FoundBehindLast(sections: seq<Section>, islands: seq<Island>, range: nat, bwdRange: int)
    requires ValidSections(sections) && |sections| == 1 && |sections[0].fragments| == 3
    requires islands == Grouped(sections, range, 1) && |islands| >= 2
    requires forall i :: 0 <= i < |islands| - 1 ==> islands[i] == Island(0, 0)
    requires islands[|islands| - 1] == Island(0, 2)
    requires var f := sections[0].fragments[2]; 0 < f.size <= range && Behind(sections, 0, f, Island(0, 0), bwdRange)
    ensures Found(sections, 0, 2, range, bwdRange) == Some(Island(0, 0))
  {
    hide Grouped;
    var f := sections[0].fragments[2];
    assert Ahead(sections, 0, f, islands[|islands| - 1], range);
    assert forall i :: 0 <= i < |islands| - 1 ==> !Ahead(sections, 0, f, islands[i], range);
  }

  /** Ranges that do not suit fail for some sections. */
  lemma UnsuitedFails(range: nat, maxBwdBranchRange: int, reserve: nat, pad: nat) returns (sections: seq<Section>)
    requires !RangesSuit(range, maxBwdBranchRange, reserve, pad)
    ensures ValidSections(sections) && PaddedAtMost(sections, pad) && |sections| == 1 && sections[0].isText
    ensures Branches(sections[0], 2) && !ReachesFound(sections, 0, 2, range, maxBwdBranchRange, reserve)
  {
    hide Grouped, Found;
    var back := -(maxBwdBranchRange + reserve);
    var q := if pad <= back then pad else back;
    if q > 0 {
      sections := PaddedApart(range, q);
      PaddedApartGrouped(range, q);
    } else {
      sections := SideBySide(range);
      SideBySideGrouped(range);
    }
    FoundBehindLast(sections, Grouped(sections, range, 1), range, -back);
    var f := sections[0].fragments[2];
    var last: nat := f.End() - 1;
    assert f.offset <= last && !ReachesBack(last, Island(0, 0).Offset(sections), maxBwdBranchRange);
  }

  /** Whatever the sections, with padding up to `pad`: every branch reaches the island behind it that the search
      finds, exactly if the ranges suit. How long the fragments are does not matter. */
  lemma BackwardReachExactly(range: nat, maxBwdBranchRange: int, reserve: nat, pad: nat)
    ensures AlwaysReaches(range, maxBwdBranchRange, reserve, pad)
       <==> RangesSuit(range, maxBwdBranchRange, reserve, pad)
  {
    hide ReachesFound, RangesSuit;
    if RangesSuit(range, maxBwdBranchRange, reserve, pad) {
      forall sections: seq<Section>, s: nat, k: nat |
        ValidSections(sections) && PaddedAtMost(sections, pad)
        && s < |sections| && sections[s].isText && Branches(sections[s], k)
        ensures ReachesFound(sections, s, k, range, maxBwdBranchRange, reserve)
      {
        SuitedReaches(sections, s, k, range, maxBwdBranchRange, reserve, pad);
      }
    } else {
      var sections := UnsuitedFails(range, maxBwdBranchRange, reserve, pad);
    }
  }

  /** For a target whose ranges are the same both ways, and long enough: padding up to the reserve and one byte. */
  lemma SymmetricRangesSuit(maxRange: int, reserve: nat, pad: nat)
    requires 2 * reserve + 1 < maxRange
    ensures RangesSuit(maxRange - reserve, -maxRange, reserve, pad) <==> pad <= reserve + 1
  {}

  /** Where the island stands, by the place and the length of the fragment that it is put behind. */
  function StandsAt(sections: seq<Section>, island: Island): nat
    requires island.ValidIn(sections)
  {
    var entry := sections[island.section].fragments[island.entry];
    entry.offset + entry.size
  }

  predicate StandsAhead(islands: seq<Island>, sections: seq<Section>, s: nat, f: Fragment, range: nat, i: nat)
    requires AllValid(islands, sections) && i < |islands|
  {
    islands[i].section == s && f.offset < StandsAt(sections, islands[i]) <= f.offset + range
  }

  predicate StandsBehind(islands: seq<Island>, sections: seq<Section>, s: nat, f: Fragment, bwdRange: int, i: nat)
    requires AllValid(islands, sections) && i < |islands|
  {
    islands[i].section == s && f.offset + bwdRange <= StandsAt(sections, islands[i]) < f.offset
  }

  /** The search finds an island exactly if one of the section stands behind the fragment's start, no farther than the
      range: the first such one in the list. The one before it in the list is taken too exactly if it is of the
      section and stands before the fragment's start, no farther than the backward range. */
  lemma SearchExactly(islands: seq<Island>, sections: seq<Section>, s: nat, f: Fragment, range: nat, bwdRange: int)
    requires AllValid(islands, sections)
    ensures var fwd := FirstAhead(islands, sections, s, f, range);
      && (fwd.Some? <==> exists i :: 0 <= i < |islands| && StandsAhead(islands, sections, s, f, range, i))
      && (fwd.Some? ==> fwd.value < |islands| && StandsAhead(islands, sections, s, f, range, fwd.value))
      && (fwd.Some? ==> forall i :: 0 <= i < fwd.value ==> !StandsAhead(islands, sections, s, f, range, i))
    ensures var fwd := FirstAhead(islands, sections, s, f, range);
      var bwd := OneBehind(islands, sections, s, f, range, bwdRange);
      && (bwd.Some? ==> fwd.Some? && bwd.value + 1 == fwd.value && bwd.value < |islands|)
      && (bwd.Some? <==> fwd.Some? && fwd.value > 0 && StandsBehind(islands, sections, s, f, bwdRange, fwd.value - 1))
  {
    hide FirstAhead;
    forall i | 0 <= i < |islands|
      ensures Ahead(sections, s, f, islands[i], range) <==> StandsAhead(islands, sections, s, f, range, i)
    {}
    if i :| 0 <= i < |islands| && StandsAhead(islands, sections, s, f, range, i) {
      assert Ahead(sections, s, f, islands[i], range);
    }
  }
}
