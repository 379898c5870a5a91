/** Preparing an input exception frame section: reading the relocations that decide what can be merged, and dropping
    the entries of discarded functions together with their relocations. */
module EhFrameSections {
  import opened Options
  import opened EhFrames
  import opened EhFrameMerge

  /** The first relocation at `place`. */
  function RelocAt(relocs: seq<Reloc>, place: nat): (r: Option<Reloc>)
    ensures r.Some? ==> r.value in relocs && r.value.place == place
    ensures r.None? ==> forall k :: 0 <= k < |relocs| ==> relocs[k].place != place
  {
    if |relocs| == 0 then None
    else if relocs[0].place == place then Some(relocs[0])
    else RelocAt(relocs[1..], place)
  }

  /** The offset of an entry's data, after the length and the id or CIE pointer. */
  const DATA_START_OFFSET: nat := 8

  /** The entry's function was discarded: the first relocation of its address has no section. */
  predicate IsDiscarded(relocs: seq<Reloc>, fde: Fde) {
    var r := RelocAt(relocs, fde.offset + DATA_START_OFFSET);
    r.Some? && !r.value.hasFragRef
  }

  function LiveFdes(relocs: seq<Reloc>, fdes: seq<Fde>): (r: seq<Fde>)
    ensures forall f :: f in r <==> f in fdes && !IsDiscarded(relocs, f)
    ensures |r| <= |fdes|
  {
    if |fdes| == 0 then []
    else
      LiveFdes(relocs, fdes[..|fdes| - 1])
      + if IsDiscarded(relocs, fdes[|fdes| - 1]) then [] else [fdes[|fdes| - 1]]
  }

  /** The relocations outside the discarded entries. */
  function WithoutRange(relocs: seq<Reloc>, from: nat, to: nat): seq<Reloc> {
    if |relocs| == 0 then []
    else
      var r := relocs[|relocs| - 1];
      WithoutRange(relocs[..|relocs| - 1], from, to) + if from <= r.place < to then [] else [r]
  }

  /** The relocations left when those of every entry in `gone` are removed. */
  function WithoutEntries(relocs: seq<Reloc>, gone: seq<Fde>): seq<Reloc> {
    if |gone| == 0 then relocs
    else
      var fde := gone[|gone| - 1];
      WithoutRange(WithoutEntries(relocs, gone[..|gone| - 1]), fde.offset, fde.offset + |fde.fragment.bytes|)
  }

  function DiscardedFdes(relocs: seq<Reloc>, fdes: seq<Fde>): (r: seq<Fde>)
    ensures forall f :: f in r <==> f in fdes && IsDiscarded(relocs, f)
  {
    if |fdes| == 0 then []
    else
      DiscardedFdes(relocs, fdes[..|fdes| - 1])
      + if IsDiscarded(relocs, fdes[|fdes| - 1]) then [fdes[|fdes| - 1]] else []
  }

  /** One CIE prepared for merging: its discarded entries dropped, its personality routine looked up. */
  function Prepared(c: Cie, relocs: Option<seq<Reloc>>): (r: (Cie, Option<seq<Reloc>>))
    ensures r.1.Some? <==> relocs.Some?
  {
    var live := if relocs.Some? then c.(fdes := LiveFdes(relocs.value, c.fdes)) else c;
    var rest := if relocs.Some? then Some(WithoutEntries(relocs.value, DiscardedFdes(relocs.value, c.fdes))) else None;
    if c.personality == "" then (live.(mergeable := true), rest)
    else if rest.None? then (live, rest)
    else
      var r := RelocAt(rest.value, c.offset + c.personalityOffset);
      if r.None? then (live, rest)
      else (live.(mergeable := true, personality := r.value.symbol, reloc := r), rest)
  }

  function PreparedAll(cies: seq<Cie>, relocs: Option<seq<Reloc>>): (r: (seq<Cie>, Option<seq<Reloc>>))
    ensures |r.0| == |cies| && (r.1.Some? <==> relocs.Some?)
  {
    if |cies| == 0 then ([], relocs)
    else
      var (before, rest) := PreparedAll(cies[..|cies| - 1], relocs);
      var (c, rest') := Prepared(cies[|cies| - 1], rest);
      (before + [c], rest')
  }

  /** The input as a merge sees it. */
  function Attributed(input: Frame, relocs: Option<seq<Reloc>>): Frame {
    if |input.cies| == 0 then input else Frame(input.fragments, PreparedAll(input.cies, relocs).0)
  }

  lemma {:induction false} LiveSubsequence(relocs: seq<Reloc>, fdes: seq<Fde>)
    requires Distinct(FragmentsOf(fdes))
    ensures Distinct(FragmentsOf(LiveFdes(relocs, fdes)))
  {
    var n := |fdes| - 1;
    if n >= 0 {
      assert FragmentsOf(fdes[..n]) == FragmentsOf(fdes)[..n];
      LiveSubsequence(relocs, fdes[..n]);
      var rest := LiveFdes(relocs, fdes[..n]);
      if !IsDiscarded(relocs, fdes[n]) {
        var r := FragmentsOf(LiveFdes(relocs, fdes));
        assert r == FragmentsOf(rest) + [fdes[n].fragment];
        forall p | 0 <= p < |rest| ensures rest[p].fragment.id != fdes[n].fragment.id {
          assert rest[p] in fdes[..n];
          var q :| 0 <= q < n && fdes[q] == rest[p];
          assert FragmentsOf(fdes)[q].id != FragmentsOf(fdes)[n].id;
        }
      }
    }
  }

  /** The groups of an input have no fragment in common, and none twice. */
  ghost predicate SeparateGroups(cies: seq<Cie>) {
    && (forall k :: 0 <= k < |cies| ==> Distinct(GroupOf(cies[k])))
    && (forall i, k :: 0 <= i < k < |cies| ==> Apart(GroupOf(cies[i]), GroupOf(cies[k])))
  }

  lemma {:induction false} InGroups(cies: seq<Cie>, f: Fragment)
    ensures f in Groups(cies) <==> exists k :: 0 <= k < |cies| && f in GroupOf(cies[k])
  {
    var n := |cies| - 1;
    if n >= 0 {
      InGroups(cies[..n], f);
      if f in Groups(cies[..n]) {
        var k :| 0 <= k < n && f in GroupOf(cies[..n][k]);
        assert f in GroupOf(cies[k]);
      }
      if k :| 0 <= k < |cies| && f in GroupOf(cies[k]) {
        assert k < n ==> f in GroupOf(cies[..n][k]);
      }
    }
  }

  lemma {:induction false} GroupsSeparate(cies: seq<Cie>)
    ensures Distinct(Groups(cies)) <==> SeparateGroups(cies)
  {
    var n := |cies| - 1;
    if n >= 0 {
      var g, x := Groups(cies[..n]), GroupOf(cies[n]);
      GroupsSeparate(cies[..n]);
      if Distinct(Groups(cies)) {
        SplitDistinct(g, x);
        forall i | 0 <= i < n ensures Apart(GroupOf(cies[i]), x) {
          ApartMembers(g, x);
          forall f | f in GroupOf(cies[i]) ensures f in g {
            InGroups(cies[..n], f);
            assert f in GroupOf(cies[..n][i]);
          }
          ApartMembers(GroupOf(cies[i]), x);
        }
        assert forall i, k :: 0 <= i < k < n ==> Apart(GroupOf(cies[..n][i]), GroupOf(cies[..n][k]));
        assert forall k :: 0 <= k < n ==> Distinct(GroupOf(cies[..n][k]));
      }
      if SeparateGroups(cies) {
        forall f, h | f in g && h in x ensures f.id != h.id {
          InGroups(cies[..n], f);
          var k :| 0 <= k < n && f in GroupOf(cies[..n][k]);
          ApartMembers(GroupOf(cies[k]), x);
        }
        ApartMembers(g, x);
        assert forall k :: 0 <= k < n ==> cies[..n][k] == cies[k];
      }
    }
  }

  lemma PreparedGroup(c: Cie, relocs: Option<seq<Reloc>>)
    requires Distinct(GroupOf(c)) && Owned(c)
    ensures var r := Prepared(c, relocs).0;
      && r.fragment == c.fragment && Distinct(GroupOf(r)) && Owned(r)
      && forall f :: f in GroupOf(r) ==> f in GroupOf(c)
  {
    hide RelocAt, WithoutEntries, DiscardedFdes, LiveFdes, IsDiscarded, Distinct;
    var r := Prepared(c, relocs).0;
    if relocs.Some? {
      LiveGroup(c, relocs.value);
      assert GroupOf(r) == GroupOf(c.(fdes := LiveFdes(relocs.value, c.fdes)));
    }
  }

  lemma LiveGroup(c: Cie, relocs: seq<Reloc>)
    requires Distinct(GroupOf(c)) && Owned(c)
    ensures var r := c.(fdes := LiveFdes(relocs, c.fdes));
      && Distinct(GroupOf(r)) && Owned(r)
      && forall f :: f in GroupOf(r) ==> f in GroupOf(c)
  {
    var live := LiveFdes(relocs, c.fdes);
    SplitDistinct([c.fragment], FragmentsOf(c.fdes));
    LiveSubsequence(relocs, c.fdes);
    forall j | 0 <= j < |live| ensures live[j] in c.fdes && live[j].fragment in FragmentsOf(c.fdes) {
      assert live[j] in live;
      var q :| 0 <= q < |c.fdes| && c.fdes[q] == live[j];
      assert FragmentsOf(c.fdes)[q] == live[j].fragment;
    }
    ApartMembers([c.fragment], FragmentsOf(c.fdes));
    ApartMembers([c.fragment], FragmentsOf(live));
  }

  lemma {:induction false} PreparedSeparate(cies: seq<Cie>, relocs: Option<seq<Reloc>>)
    requires SeparateGroups(cies) && forall k :: 0 <= k < |cies| ==> Owned(cies[k])
    ensures var r := PreparedAll(cies, relocs).0;
      && (forall k :: 0 <= k < |r| ==> Distinct(GroupOf(r[k])) && Owned(r[k]) && r[k].fragment == cies[k].fragment)
      && forall k, f :: 0 <= k < |r| && f in GroupOf(r[k]) ==> f in GroupOf(cies[k])
  {
    hide Prepared, Distinct, GroupOf;
    var n := |cies| - 1;
    if n >= 0 {
      var (before, rest) := PreparedAll(cies[..n], relocs);
      PreparedSeparate(cies[..n], relocs);
      PreparedGroup(cies[n], rest);
      var r := PreparedAll(cies, relocs).0;
      forall k | 0 <= k < n ensures r[k] == before[k] && cies[k] == cies[..n][k] {}
    }
  }

  /** Dropping discarded entries leaves a valid input. */
  lemma AttributedIsValid(input: Frame, relocs: Option<seq<Reloc>>)
    requires ValidInput(input)
    ensures ValidInput(Attributed(input, relocs))
    ensures forall f :: f in Taken(Attributed(input, relocs)) ==> f in Taken(input)
  {
    if |input.cies| > 0 {
      var r := PreparedAll(input.cies, relocs).0;
      GroupsSeparate(input.cies);
      PreparedSeparate(input.cies, relocs);
      forall i, k | 0 <= i < k < |r| ensures Apart(GroupOf(r[i]), GroupOf(r[k])) {
        ApartMembers(GroupOf(input.cies[i]), GroupOf(input.cies[k]));
        ApartMembers(GroupOf(r[i]), GroupOf(r[k]));
      }
      GroupsSeparate(r);
      forall f | f in Groups(r) ensures f in Groups(input.cies) {
        InGroups(r, f);
        var k :| 0 <= k < |r| && f in GroupOf(r[k]);
        InGroups(input.cies, f);
      }
    }
  }

  /** Removing the relocations of one entry does not hide those of another. */
  lemma {:induction false} OutsideRange(relocs: seq<Reloc>, from: nat, to: nat, place: nat)
    requires !(from <= place < to)
    ensures RelocAt(WithoutRange(relocs, from, to), place) == RelocAt(relocs, place)
  {
    var n := |relocs| - 1;
    if n >= 0 {
      hide RelocAt;
      var rest := WithoutRange(relocs[..n], from, to);
      OutsideRange(relocs[..n], from, to, place);
      RelocAtAppend(relocs[..n], relocs[n], place);
      RelocAtAppend(rest, relocs[n], place);
      assert relocs == relocs[..n] + [relocs[n]];
      assert WithoutRange(relocs, from, to) == if from <= relocs[n].place < to then rest else rest + [relocs[n]];
    }
  }

  lemma {:induction false} RelocAtAppend(relocs: seq<Reloc>, r: Reloc, place: nat)
    ensures RelocAt(relocs + [r], place)
         == if RelocAt(relocs, place).Some? then RelocAt(relocs, place) else if r.place == place then Some(r) else None
  {
    if |relocs| > 0 {
      RelocAtAppend(relocs[1..], r, place);
      assert (relocs + [r])[1..] == relocs[1..] + [r];
    } else {
      assert ([r])[1..] == [] && relocs + [r] == [r];
      assert RelocAt([r][1..], place) == None;
    }
  }

  /** Two entries take up different bytes. */
  predicate DisjointEntries(a: Fde, b: Fde) {
    a.offset + |a.fragment.bytes| <= b.offset || b.offset + |b.fragment.bytes| <= a.offset
  }

  lemma {:induction false} OutsideEntries(relocs: seq<Reloc>, gone: seq<Fde>, fde: Fde)
    requires |fde.fragment.bytes| > DATA_START_OFFSET
    requires forall k :: 0 <= k < |gone| ==> DisjointEntries(gone[k], fde)
    ensures IsDiscarded(WithoutEntries(relocs, gone), fde) == IsDiscarded(relocs, fde)
  {
    hide RelocAt, WithoutRange;
    var n := |gone| - 1;
    if n >= 0 {
      OutsideEntries(relocs, gone[..n], fde);
      OutsideRange(WithoutEntries(relocs, gone[..n]), gone[n].offset, gone[n].offset + |gone[n].fragment.bytes|,
                   fde.offset + DATA_START_OFFSET);
    }
  }

  /** Entries of different CIEs of the input do not share bytes, and each has an address field. */
  ghost predicate SeparateEntries(cies: seq<Cie>) {
    && (forall k, j :: 0 <= k < |cies| && 0 <= j < |cies[k].fdes| ==>
      |cies[k].fdes[j].fragment.bytes| > DATA_START_OFFSET)
    && (forall i, j, k, l :: 0 <= i < k < |cies| && 0 <= j < |cies[i].fdes| && 0 <= l < |cies[k].fdes| ==>
          DisjointEntries(cies[i].fdes[j], cies[k].fdes[l]))
  }

  lemma DiscardedAre(relocs: seq<Reloc>, fdes: seq<Fde>)
    ensures forall j :: 0 <= j < |DiscardedFdes(relocs, fdes)| ==>
      exists l :: 0 <= l < |fdes| && fdes[l] == DiscardedFdes(relocs, fdes)[j]
  {
    var r := DiscardedFdes(relocs, fdes);
    forall j | 0 <= j < |r| ensures exists l :: 0 <= l < |fdes| && fdes[l] == r[j] {
      assert r[j] in r;
    }
  }

  lemma {:induction false} RelocsLeft(cies: seq<Cie>, relocs: seq<Reloc>, fde: Fde)
    requires |fde.fragment.bytes| > DATA_START_OFFSET
    requires forall i, j :: 0 <= i < |cies| && 0 <= j < |cies[i].fdes| ==> DisjointEntries(cies[i].fdes[j], fde)
    ensures PreparedAll(cies, Some(relocs)).1.Some?
    ensures IsDiscarded(PreparedAll(cies, Some(relocs)).1.value, fde) == IsDiscarded(relocs, fde)
  {
    hide RelocAt, WithoutEntries, DiscardedFdes, LiveFdes, IsDiscarded;
    var n := |cies| - 1;
    if n >= 0 {
      assert forall i :: 0 <= i < n ==> cies[..n][i] == cies[i];
      RelocsLeft(cies[..n], relocs, fde);
      var rest := PreparedAll(cies[..n], Some(relocs)).1.value;
      DiscardedAre(rest, cies[n].fdes);
      OutsideEntries(rest, DiscardedFdes(rest, cies[n].fdes), fde);
    }
  }

  /** The entries that survive are exactly those whose function was not discarded, although the relocations are being
      removed while the later CIEs are looked at. */
  lemma {:induction false} ExactlyTheLiveSurvive(cies: seq<Cie>, relocs: seq<Reloc>, k: nat, fde: Fde)
    requires SeparateEntries(cies) && k < |cies|
    ensures fde in PreparedAll(cies, Some(relocs)).0[k].fdes <==> fde in cies[k].fdes && !IsDiscarded(relocs, fde)
  {
    var n := |cies| - 1;
    if k < n {
      assert forall i :: 0 <= i < n ==> cies[..n][i] == cies[i];
      ExactlyTheLiveSurvive(cies[..n], relocs, k, fde);
    } else if fde in cies[n].fdes {
      var l :| 0 <= l < |cies[n].fdes| && cies[n].fdes[l] == fde;
      RelocsLeft(cies[..n], relocs, fde);
    }
  }
}
