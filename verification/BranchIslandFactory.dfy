/** Branch islands: room for stubs, put behind fragments so that every branch can reach one in front of it. */
module BranchIslands {
  import opened Options

  /** A fragment of a section that has been laid out. */
  datatype Fragment = Fragment(isAlignment: bool, offset: nat, size: nat) {
    function End(): nat {
      offset + size
    }
  }

  datatype Section = Section(isText: bool, fragments: seq<Fragment>) {
    ghost predicate Contiguous() {
      forall i :: 0 <= i < |fragments| - 1 ==> fragments[i + 1].offset == fragments[i].End()
    }
  }

  /** An island stands behind its entry fragment. */
  datatype Island = Island(section: nat, entry: nat) {
    predicate ValidIn(sections: seq<Section>) {
      section < |sections| && entry < |sections[section].fragments|
    }

    function Offset(sections: seq<Section>): nat
      requires ValidIn(sections)
    {
      sections[section].fragments[entry].End()
    }
  }

  lemma {:induction false} OffsetsRise(s: Section, i: nat, j: nat)
    requires s.Contiguous() && i < j < |s.fragments|
    ensures s.fragments[i].End() <= s.fragments[j].offset
  {
    if i + 1 < j {
      OffsetsRise(s, i, j - 1);
      assert s.fragments[j - 1 + 1].offset == s.fragments[j - 1].End();
    } else {
      assert s.fragments[i + 1].offset == s.fragments[i].End();
    }
  }

  ghost predicate AllValid(islands: seq<Island>, sections: seq<Section>) {
    forall i :: 0 <= i < |islands| ==> islands[i].ValidIn(sections)
  }

  /** The island is in front of the fragment's start, within the range. */
  predicate Ahead(sections: seq<Section>, s: nat, f: Fragment, island: Island, range: nat)
    requires island.ValidIn(sections)
  {
    island.section == s && f.offset < island.Offset(sections) <= f.offset + range
  }

  /** The island is behind the fragment's start, within the range, which is negative. */
  predicate Behind(sections: seq<Section>, s: nat, f: Fragment, island: Island, range: int)
    requires island.ValidIn(sections)
  {
    island.section == s && f.offset + range <= island.Offset(sections) < f.offset
  }

  /** Some island of the list is ahead of the fragment. */
  ghost predicate Served(islands: seq<Island>, sections: seq<Section>, s: nat, f: Fragment, range: nat)
    requires AllValid(islands, sections)
  {
    exists i :: 0 <= i < |islands| && Ahead(sections, s, f, islands[i], range)
  }

  /** The k-th fragment may hold branches, and reaches its own end. */
  ghost predicate Fits(section: Section, k: nat, range: nat)
    requires k < |section.fragments|
  {
    !section.fragments[k].isAlignment && 1 <= section.fragments[k].size <= range
  }

  /** The k-th fragment is no padding, and not empty. */
  ghost predicate Branches(section: Section, k: int) {
    0 <= k < |section.fragments| && !section.fragments[k].isAlignment && section.fragments[k].size > 0
  }

  /** The k-th of the first `n` fragments is served already, or it started no earlier than the group did and the group
      has not outgrown the range, or it is the last one. */
  ghost predicate Waits(islands: seq<Island>, sections: seq<Section>, s: nat, n: nat, groupEnd: nat, range: nat, k: nat)
    requires AllValid(islands, sections) && s < |sections| && k < n <= |sections[s].fragments|
  {
    var fs := sections[s].fragments;
    Fits(sections[s], k, range) && !Served(islands, sections, s, fs[k], range) ==>
      groupEnd <= fs[k].offset + range && (fs[n - 1].End() <= groupEnd || k == n - 1)
  }

  ghost predicate AllWait(islands: seq<Island>, sections: seq<Section>, s: nat, n: nat, groupEnd: nat, range: nat)
    requires AllValid(islands, sections) && s < |sections| && n <= |sections[s].fragments|
  {
    forall k :: 0 <= k < n ==> Waits(islands, sections, s, n, groupEnd, range, k)
  }

  ghost predicate AllServed(islands: seq<Island>, sections: seq<Section>, s: nat, n: nat, range: nat)
    requires AllValid(islands, sections) && s < |sections| && n <= |sections[s].fragments|
  {
    forall k :: 0 <= k < n && Fits(sections[s], k, range) ==>
      Served(islands, sections, s, sections[s].fragments[k], range)
  }

  /** An island behind the last branching fragment serves all that wait. */
  lemma ProducedServes(islands: seq<Island>, sections: seq<Section>, s: nat, n: nat, groupEnd: nat, range: nat, p: nat)
    requires AllValid(islands, sections) && s < |sections| && sections[s].Contiguous()
      && p < n <= |sections[s].fragments|
    requires AllWait(islands, sections, s, n, groupEnd, range)
    requires forall k :: p < k < n ==> !Fits(sections[s], k, range)
    ensures AllValid(islands + [Island(s, p)], sections)
    ensures AllServed(islands + [Island(s, p)], sections, s, n, range)
  {
    var fs, more := sections[s].fragments, islands + [Island(s, p)];
    forall k | 0 <= k < n && Fits(sections[s], k, range) ensures Served(more, sections, s, fs[k], range) {
      if i :| 0 <= i < |islands| && Ahead(sections, s, fs[k], islands[i], range) {
        assert more[i] == islands[i];
      } else {
        assert Waits(islands, sections, s, n, groupEnd, range, k);
        if p < n - 1 {
          OffsetsRise(sections[s], p, n - 1);
        }
        if k < p {
          OffsetsRise(sections[s], k, p);
        }
        assert Ahead(sections, s, fs[k], more[|islands|], range);
      }
    }
  }

  /** The next fragment joins the group when it still fits, or when it is the first to branch. */
  lemma Joins(islands: seq<Island>, sections: seq<Section>, s: nat, n: nat, groupEnd: nat, range: nat)
    requires AllValid(islands, sections) && s < |sections| && n < |sections[s].fragments|
    requires AllWait(islands, sections, s, n, groupEnd, range) && groupEnd <= sections[s].fragments[n].offset + range
    requires sections[s].fragments[n].End() <= groupEnd || AllServed(islands, sections, s, n, range)
    ensures AllWait(islands, sections, s, n + 1, groupEnd, range)
  {
    var m := n + 1;
    forall k | 0 <= k < m ensures Waits(islands, sections, s, m, groupEnd, range, k) {
      if k < n {
        assert Waits(islands, sections, s, n, groupEnd, range, k);
      }
    }
  }

  // ----- the islands that grouping makes -----

  /** The last of the first `i` fragments that is no padding, or -1. */
  function LastBranchingBefore(fs: seq<Fragment>, i: nat): (p: int)
    requires i <= |fs|
    ensures -1 <= p < i && (p >= 0 ==> !fs[p].isAlignment)
    ensures forall k :: p < k < i ==> fs[k].isAlignment
  {
    if i == 0 then -1 else if !fs[i - 1].isAlignment then i - 1 else LastBranchingBefore(fs, i - 1)
  }

  /** The islands so far, and where the group that is being made must end. */
  datatype Grouping = Grouping(islands: seq<Island>, groupEnd: nat)

  /** The i-th fragment's turn: if it does not fit, the group ends behind the last fragment that is no padding. */
  function Turn(g: Grouping, fs: seq<Fragment>, s: nat, range: nat, i: nat): Grouping
    requires i < |fs|
  {
    var p := LastBranchingBefore(fs, i);
    if fs[i].End() > g.groupEnd && p >= 0 then Grouping(g.islands + [Island(s, p)], fs[i].offset + range) else g
  }

  /** The first `n` fragments of a section grouped. */
  function GroupUpTo(islands: seq<Island>, sections: seq<Section>, s: nat, range: nat, n: nat): (g: Grouping)
    requires s < |sections| && n <= |sections[s].fragments| && AllValid(islands, sections)
    ensures AllValid(g.islands, sections) && islands <= g.islands
  {
    if n == 0 then Grouping(islands, range)
    else Turn(GroupUpTo(islands, sections, s, range, n - 1), sections[s].fragments, s, range, n - 1)
  }

  /** The first island of the list that is ahead of the fragment. */
  function FirstAhead(islands: seq<Island>, sections: seq<Section>, s: nat, f: Fragment, range: nat): (i: Option<nat>)
    requires AllValid(islands, sections)
    ensures i.Some? <==> Served(islands, sections, s, f, range)
    ensures i.Some? ==> i.value < |islands| && Ahead(sections, s, f, islands[i.value], range)
    ensures i.Some? ==> forall k :: 0 <= k < i.value ==> !Ahead(sections, s, f, islands[k], range)
  {
    if |islands| == 0 then None
    else
      var n := |islands| - 1;
      var before := FirstAhead(islands[..n], sections, s, f, range);
      if before.Some? then before
      else if Ahead(sections, s, f, islands[n], range) then Some(n)
      else None
  }

  /** Its predecessor in the list, if that is behind the fragment. */
  function OneBehind(islands: seq<Island>, sections: seq<Section>, s: nat, f: Fragment, range: nat, bwdRange: int)
    : (i: Option<nat>)
    requires AllValid(islands, sections)
    ensures i.Some? ==> i.value < |islands|
  {
    var fwd := FirstAhead(islands, sections, s, f, range);
    if fwd.Some? && fwd.value > 0 && Behind(sections, s, f, islands[fwd.value - 1], bwdRange) then Some(fwd.value - 1)
    else None
  }

  /** A whole section grouped: if no island is ahead of the last fragment, there is one more behind it. */
  function GroupedSection(islands: seq<Island>, sections: seq<Section>, s: nat, range: nat): (r: seq<Island>)
    requires s < |sections| && sections[s].fragments != [] && AllValid(islands, sections)
    ensures AllValid(r, sections) && islands <= r
  {
    var fs := sections[s].fragments;
    var g := GroupUpTo(islands, sections, s, range, |fs|);
    if FirstAhead(g.islands, sections, s, fs[|fs| - 1], range).None? then g.islands + [Island(s, |fs| - 1)]
    else g.islands
  }

  /** Sections as grouping finds them: laid out, and none of the text sections without a fragment. */
  ghost predicate ValidSections(sections: seq<Section>) {
    forall s :: 0 <= s < |sections| && sections[s].isText ==>
      sections[s].fragments != [] && sections[s].Contiguous()
  }

  /** The first `n` sections grouped. */
  ghost function Grouped(sections: seq<Section>, range: nat, n: nat): (r: seq<Island>)
    requires ValidSections(sections) && n <= |sections|
    ensures AllValid(r, sections)
  {
    if n == 0 then []
    else if sections[n - 1].isText then GroupedSection(Grouped(sections, range, n - 1), sections, n - 1, range)
    else Grouped(sections, range, n - 1)
  }

  class BranchIslandFactory {
    const fwdRange: nat
    const bwdRange: int
    const maxIslandSize: nat
    var islands: seq<Island>

    /** The ranges keep an island's size in reserve. The forward range has room for one. */
    constructor (maxFwdBranchRange: nat, maxBwdBranchRange: int, maxIslandSize: nat)
      requires maxIslandSize <= maxFwdBranchRange
      ensures fwdRange == maxFwdBranchRange - maxIslandSize && bwdRange == maxBwdBranchRange + maxIslandSize
      ensures this.maxIslandSize == maxIslandSize && islands == []
    {
      fwdRange := maxFwdBranchRange - maxIslandSize;
      bwdRange := maxBwdBranchRange + maxIslandSize;
      this.maxIslandSize := maxIslandSize;
      islands := [];
    }

    /** Puts an island behind a fragment. */
    method Produce(section: nat, entry: nat)
      modifies this
      ensures islands == old(islands) + [Island(section, entry)]
    {
      islands := islands + [Island(section, entry)];
    }

    /** The first island ahead, and the one before it in the list if that one is behind. */
    method GetIslands(sections: seq<Section>, s: nat, f: Fragment) returns (fwd: Option<nat>, bwd: Option<nat>)
      requires AllValid(islands, sections)
      ensures fwd == FirstAhead(islands, sections, s, f, fwdRange)
      ensures bwd == OneBehind(islands, sections, s, f, fwdRange, bwdRange)
      ensures fwd.Some? <==> Served(islands, sections, s, f, fwdRange)
      ensures fwd.Some? ==> fwd.value < |islands| && Ahead(sections, s, f, islands[fwd.value], fwdRange)
      ensures fwd.Some? ==> forall i :: 0 <= i < fwd.value ==> !Ahead(sections, s, f, islands[i], fwdRange)
      ensures bwd.Some? <==> fwd.Some? && fwd.value > 0 && Behind(sections, s, f, islands[fwd.value - 1], bwdRange)
      ensures bwd.Some? ==> bwd.value == fwd.value - 1
    {
      fwd, bwd := None, None;
      var i := 0;
      while i < |islands|
        invariant i <= |islands|
        invariant forall k :: 0 <= k < i ==> !Ahead(sections, s, f, islands[k], fwdRange)
      {
        if islands[i].section == s {
          var offset := islands[i].Offset(sections);
          if f.offset < offset && f.offset + fwdRange >= offset {
            fwd := Some(i);
            if i > 0 && islands[i - 1].section == s {
              var prev := islands[i - 1].Offset(sections);
              if f.offset > prev && f.offset + bwdRange <= prev {
                bwd := Some(i - 1);
              }
            }
            return;
          }
        }
        i := i + 1;
      }
    }

    /** The last fragment before the i-th that is no padding, if there is one. */
    method LastBranching(fs: seq<Fragment>, i: nat) returns (p: int)
      requires i <= |fs|
      ensures p == LastBranchingBefore(fs, i)
    {
      p := i - 1;
      while p >= 0 && fs[p].isAlignment
        invariant -1 <= p < i
        invariant forall k :: p < k < i ==> fs[k].isAlignment
      {
        p := p - 1;
      }
    }

    /** Groups the fragments of one section, with an island behind each group. */
    method GroupSection(sections: seq<Section>, s: nat)
      requires AllValid(islands, sections)
      requires s < |sections| && sections[s].fragments != [] && sections[s].Contiguous()
      modifies this
      ensures AllValid(islands, sections) && old(islands) <= islands
      ensures islands == GroupedSection(old(islands), sections, s, fwdRange)
      ensures AllServed(islands, sections, s, |sections[s].fragments|, fwdRange)
    {
      hide AllWait, AllServed, AllValid;
      var fs := sections[s].fragments;
      var groupEnd: nat := fwdRange;
      var i: nat := 0;
      NobodyWaits(islands, sections, s, groupEnd, fwdRange);
      while i < |fs|
        invariant 0 <= i <= |fs| && AllValid(islands, sections) && old(islands) <= islands
        invariant Grouping(islands, groupEnd) == GroupUpTo(old(islands), sections, s, fwdRange, i)
        invariant AllWait(islands, sections, s, i, groupEnd, fwdRange)
        invariant i < |fs| ==> groupEnd <= fs[i].offset + fwdRange
      {
        if fs[i].End() > groupEnd {
          var p := LastBranching(fs, i);
          if p >= 0 {
            ProducedServes(islands, sections, s, i, groupEnd, fwdRange, p);
            Produce(s, p);
            groupEnd := fs[i].offset + fwdRange;
            NewGroup(islands, sections, s, i, groupEnd, fwdRange);
          } else {
            NobodyBranches(islands, sections, s, i, fwdRange);
          }
        }
        Joins(islands, sections, s, i, groupEnd, fwdRange);
        i := i + 1;
      }
      var fwd, _ := GetIslands(sections, s, fs[|fs| - 1]);
      if fwd.None? {
        ProducedServes(islands, sections, s, i, groupEnd, fwdRange, i - 1);
        Produce(s, |fs| - 1);
      } else {
        AtTheEnd(islands, sections, s, fwd.value, groupEnd, fwdRange);
      }
    }

    /** Groups all text sections. Afterwards a fragment that holds branches has an island ahead of it exactly when it
        reaches its own end. */
    method Group(sections: seq<Section>)
      requires islands == []
      requires ValidSections(sections)
      modifies this
      ensures AllValid(islands, sections) && islands == Grouped(sections, fwdRange, |sections|)
      ensures forall s, k :: 0 <= s < |sections| && sections[s].isText && Branches(sections[s], k) ==>
        (Served(islands, sections, s, sections[s].fragments[k], fwdRange) <==>
          sections[s].fragments[k].size <= fwdRange)
    {
      var s: nat := 0;
      while s < |sections|
        invariant s <= |sections| && AllValid(islands, sections) && islands == Grouped(sections, fwdRange, s)
        invariant forall r :: 0 <= r < s && sections[r].isText ==>
          AllServed(islands, sections, r, |sections[r].fragments|, fwdRange)
      {
        hide AllServed, AllValid;
        if sections[s].isText {
          ghost var before := islands;
          GroupSection(sections, s);
          forall r | 0 <= r < s && sections[r].isText
            ensures AllServed(islands, sections, r, |sections[r].fragments|, fwdRange)
          {
            StillServed(before, islands, sections, r, fwdRange);
          }
        }
        s := s + 1;
      }
      forall s, k | 0 <= s < |sections| && sections[s].isText && Branches(sections[s], k)
        ensures Served(islands, sections, s, sections[s].fragments[k], fwdRange) <==>
          sections[s].fragments[k].size <= fwdRange
      {
        NothingInside(islands, sections, s, k, fwdRange);
        assert Fits(sections[s], k, fwdRange) || sections[s].fragments[k].size > fwdRange;
      }
    }
  }

  lemma NobodyWaits(islands: seq<Island>, sections: seq<Section>, s: nat, groupEnd: nat, range: nat)
    requires AllValid(islands, sections) && s < |sections|
    ensures AllWait(islands, sections, s, 0, groupEnd, range)
  {}

  lemma NobodyBranches(islands: seq<Island>, sections: seq<Section>, s: nat, n: nat, range: nat)
    requires AllValid(islands, sections) && s < |sections| && n <= |sections[s].fragments|
    requires forall k :: 0 <= k < n ==> sections[s].fragments[k].isAlignment
    ensures AllServed(islands, sections, s, n, range)
  {}

  lemma NewGroup(islands: seq<Island>, sections: seq<Section>, s: nat, n: nat, groupEnd: nat, range: nat)
    requires AllValid(islands, sections) && s < |sections| && n <= |sections[s].fragments|
    requires AllServed(islands, sections, s, n, range)
    ensures AllWait(islands, sections, s, n, groupEnd, range)
  {}

  /** An island ahead of the last fragment stands at the section's end. */
  lemma AtTheEnd(islands: seq<Island>, sections: seq<Section>, s: nat, at: nat, groupEnd: nat, range: nat)
    requires AllValid(islands, sections) && s < |sections| && sections[s].Contiguous() && sections[s].fragments != []
    requires AllWait(islands, sections, s, |sections[s].fragments|, groupEnd, range)
    requires at < |islands|
    requires Ahead(sections, s, sections[s].fragments[|sections[s].fragments| - 1], islands[at], range)
    ensures AllServed(islands, sections, s, |sections[s].fragments|, range)
  {
    var fs := sections[s].fragments;
    var last := |fs| - 1;
    if islands[at].entry < last {
      OffsetsRise(sections[s], islands[at].entry, last);
    }
    forall k | 0 <= k < |fs| && Fits(sections[s], k, range) ensures Served(islands, sections, s, fs[k], range) {
      assert Waits(islands, sections, s, |fs|, groupEnd, range, k);
      if k < last {
        OffsetsRise(sections[s], k, last);
      }
      if !Served(islands, sections, s, fs[k], range) {
        assert Ahead(sections, s, fs[k], islands[at], range);
      }
    }
  }

  lemma StillServed(few: seq<Island>, more: seq<Island>, sections: seq<Section>, s: nat, range: nat)
    requires AllValid(few, sections) && AllValid(more, sections) && few <= more && s < |sections|
    requires AllServed(few, sections, s, |sections[s].fragments|, range)
    ensures AllServed(more, sections, s, |sections[s].fragments|, range)
  {
    var fs := sections[s].fragments;
    forall k | 0 <= k < |fs| && Fits(sections[s], k, range) ensures Served(more, sections, s, fs[k], range) {
      var i :| 0 <= i < |few| && Ahead(sections, s, fs[k], few[i], range);
      assert more[i] == few[i];
    }
  }

  /** Islands stand only between fragments, so none is ahead of a fragment and nearer than that fragment's end. */
  lemma NothingInside(islands: seq<Island>, sections: seq<Section>, s: nat, k: nat, range: nat)
    requires AllValid(islands, sections) && s < |sections| && sections[s].Contiguous() && k < |sections[s].fragments|
    ensures sections[s].fragments[k].size > range ==> !Served(islands, sections, s, sections[s].fragments[k], range)
  {
    forall i | 0 <= i < |islands| && sections[s].fragments[k].size > range
      ensures !Ahead(sections, s, sections[s].fragments[k], islands[i], range)
    {
      if islands[i].section == s {
        if islands[i].entry < k {
          OffsetsRise(sections[s], islands[i].entry, k);
        } else if k < islands[i].entry {
          OffsetsRise(sections[s], k, islands[i].entry);
        }
      }
    }
  }
}
