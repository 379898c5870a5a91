/** The personality routines of CIEs, and which relocations are used and kept, in terms of the inputs as they are
    read. */
module EhFrameRoutines {
  import opened Options
  import opened EhFrames
  import opened EhFrameMerge
  import opened EhFrameSections
  import opened EhFrameRuns
  import opened EhFrameBytes

  // ----- relocations -----

  /** The first relocation at a place. */
  predicate IsFirstAt(relocs: seq<Reloc>, q: nat, place: nat) {
    q < |relocs| && relocs[q].place == place && forall j :: 0 <= j < q ==> relocs[j].place != place
  }

  lemma {:induction false} RelocAtIs(relocs: seq<Reloc>, place: nat)
    ensures RelocAt(relocs, place).Some? <==> exists q: nat :: IsFirstAt(relocs, q, place)
    ensures forall q: nat :: IsFirstAt(relocs, q, place) ==> RelocAt(relocs, place) == Some(relocs[q])
  {
    if |relocs| > 0 {
      RelocAtIs(relocs[1..], place);
      if relocs[0].place == place {
        assert IsFirstAt(relocs, 0, place);
      } else {
        forall q: nat | IsFirstAt(relocs, q, place) ensures q > 0 && IsFirstAt(relocs[1..], q - 1, place) {}
        if q: nat :| IsFirstAt(relocs[1..], q, place) {
          assert IsFirstAt(relocs, q + 1, place);
        }
      }
    }
  }

  /** The function of the entry was discarded: its address, behind the length and the CIE pointer, is relocated by a
      symbol without a fragment. */
  ghost predicate IsGone(relocs: seq<Reloc>, fde: Fde) {
    exists q: nat :: IsFirstAt(relocs, q, fde.offset + 8) && !relocs[q].hasFragRef
  }

  lemma DiscardedExactly(relocs: seq<Reloc>, fde: Fde)
    ensures IsDiscarded(relocs, fde) <==> IsGone(relocs, fde)
  {
    hide RelocAt, IsFirstAt;
    RelocAtIs(relocs, fde.offset + 8);
    if IsDiscarded(relocs, fde) {
      var q: nat :| IsFirstAt(relocs, q, fde.offset + 8);
    }
  }

  /** The relocations outside a range are kept, and no others. */
  lemma {:induction false} RangeExactly(relocs: seq<Reloc>, from: nat, to: nat, r: Reloc)
    ensures multiset(WithoutRange(relocs, from, to))[r] == if from <= r.place < to then 0 else multiset(relocs)[r]
  {
    if |relocs| > 0 {
      var n := |relocs| - 1;
      RangeExactly(relocs[..n], from, to, r);
      assert relocs == relocs[..n] + [relocs[n]];
    }
  }

  predicate Covers(fde: Fde, place: nat) {
    fde.offset <= place < fde.offset + |fde.fragment.bytes|
  }

  lemma {:induction false} InsideRange(relocs: seq<Reloc>, from: nat, to: nat, place: nat)
    requires from <= place < to
    ensures RelocAt(WithoutRange(relocs, from, to), place) == None
  {
    hide RelocAt;
    NothingAt(place);
    var n := |relocs| - 1;
    if n >= 0 {
      InsideRange(relocs[..n], from, to, place);
      RelocAtAppend(WithoutRange(relocs[..n], from, to), relocs[n], place);
    }
  }

  lemma NothingAt(place: nat)
    ensures RelocAt([], place) == None
  {}

  lemma {:induction false} EntriesRemoved(relocs: seq<Reloc>, gone: seq<Fde>, place: nat)
    ensures RelocAt(WithoutEntries(relocs, gone), place)
         == if exists j :: 0 <= j < |gone| && Covers(gone[j], place) then None else RelocAt(relocs, place)
  {
    hide RelocAt, WithoutRange;
    var n := |gone| - 1;
    if n >= 0 {
      EntriesRemoved(relocs, gone[..n], place);
      assert forall j :: 0 <= j < n ==> gone[..n][j] == gone[j];
      var rest, from, to := WithoutEntries(relocs, gone[..n]), gone[n].offset,
        gone[n].offset + |gone[n].fragment.bytes|;
      if Covers(gone[n], place) {
        InsideRange(rest, from, to, place);
      } else {
        OutsideRange(rest, from, to, place);
      }
    }
  }

  /** A discarded entry of one of the first `n` CIEs covers the place. */
  ghost predicate InGone(cies: seq<Cie>, relocs: seq<Reloc>, n: nat, place: nat)
    requires n <= |cies|
  {
    exists c: nat, j: nat :: c < n && j < |cies[c].fdes| && IsGone(relocs, cies[c].fdes[j])
      && Covers(cies[c].fdes[j], place)
  }

  /** The entry is discarded by what is left of the relocations exactly if it is by all of them. */
  lemma LeftDiscards(cies: seq<Cie>, relocs: seq<Reloc>, k: nat, j: nat)
    requires SeparateEntries(cies) && k < |cies| && j < |cies[k].fdes|
    ensures PreparedAll(cies[..k], Some(relocs)).1.Some?
    ensures IsDiscarded(PreparedAll(cies[..k], Some(relocs)).1.value, cies[k].fdes[j]) <==>
      IsGone(relocs, cies[k].fdes[j])
  {
    hide IsDiscarded, IsGone, Prepared;
    RelocsLeft(cies[..k], relocs, cies[k].fdes[j]);
    DiscardedExactly(relocs, cies[k].fdes[j]);
  }

  /** What is left of the relocations at a place when the first `k` CIEs have been prepared. */
  lemma {:induction false} PreparedRelocs(cies: seq<Cie>, relocs: seq<Reloc>, k: nat, place: nat)
    requires SeparateEntries(cies) && k <= |cies|
    ensures PreparedAll(cies[..k], Some(relocs)).1.Some?
    ensures RelocAt(PreparedAll(cies[..k], Some(relocs)).1.value, place)
         == if InGone(cies, relocs, k, place) then None else RelocAt(relocs, place)
  {
    hide RelocAt, IsDiscarded, IsGone, WithoutEntries, DiscardedFdes, LiveFdes, Covers, InGone, PreparedAll;
    if k == 0 {
      NothingPrepared(cies, relocs, place);
    } else {
      PreparedRelocs(cies, relocs, k - 1, place);
      var rest := PreparedAll(cies[..k - 1], Some(relocs)).1.value;
      var gone := DiscardedFdes(rest, cies[k - 1].fdes);
      NextRelocs(cies, relocs, k - 1);
      EntriesRemoved(rest, gone, place);
      GoneAre(cies, relocs, k - 1, gone);
      GoneIn(cies, relocs, k - 1, place, gone);
    }
  }

  lemma NothingPrepared(cies: seq<Cie>, relocs: seq<Reloc>, place: nat)
    ensures PreparedAll(cies[..0], Some(relocs)).1 == Some(relocs) && !InGone(cies, relocs, 0, place)
  {}

  lemma NextRelocs(cies: seq<Cie>, relocs: seq<Reloc>, k: nat)
    requires k < |cies| && PreparedAll(cies[..k], Some(relocs)).1.Some?
    ensures var rest := PreparedAll(cies[..k], Some(relocs)).1.value;
      PreparedAll(cies[..k + 1], Some(relocs)).1 == Some(WithoutEntries(rest, DiscardedFdes(rest, cies[k].fdes)))
  {
    hide RelocAt, WithoutEntries, DiscardedFdes, LiveFdes;
    assert cies[..k + 1][..k] == cies[..k] && cies[..k + 1][k] == cies[k];
  }

  lemma GoneAre(cies: seq<Cie>, relocs: seq<Reloc>, k: nat, gone: seq<Fde>)
    requires SeparateEntries(cies) && k < |cies| && PreparedAll(cies[..k], Some(relocs)).1.Some?
    requires gone == DiscardedFdes(PreparedAll(cies[..k], Some(relocs)).1.value, cies[k].fdes)
    ensures forall f :: f in gone <==> f in cies[k].fdes && IsGone(relocs, f)
  {
    hide IsDiscarded, IsGone, PreparedAll, SeparateEntries;
    forall f | f in cies[k].fdes
      ensures IsDiscarded(PreparedAll(cies[..k], Some(relocs)).1.value, f) <==> IsGone(relocs, f)
    {
      var j: nat :| j < |cies[k].fdes| && cies[k].fdes[j] == f;
      LeftDiscards(cies, relocs, k, j);
    }
  }

  lemma GoneIn(cies: seq<Cie>, relocs: seq<Reloc>, k: nat, place: nat, gone: seq<Fde>)
    requires k < |cies| && forall f :: f in gone <==> f in cies[k].fdes && IsGone(relocs, f)
    ensures InGone(cies, relocs, k + 1, place)
       <==> InGone(cies, relocs, k, place) || exists j :: 0 <= j < |gone| && Covers(gone[j], place)
  {
    hide IsGone, Covers;
    if j :| 0 <= j < |gone| && Covers(gone[j], place) {
      assert gone[j] in gone;
      var l: nat :| l < |cies[k].fdes| && cies[k].fdes[l] == gone[j];
      assert IsGone(relocs, cies[k].fdes[l]) && Covers(cies[k].fdes[l], place);
    }
    if InGone(cies, relocs, k + 1, place) && !InGone(cies, relocs, k, place) {
      var d: nat, j: nat :| d < k + 1 && j < |cies[d].fdes| && IsGone(relocs, cies[d].fdes[j])
        && Covers(cies[d].fdes[j], place);
      assert d == k;
      assert cies[k].fdes[j] in gone;
    }
  }

  // ----- personality routines -----

  /** The q-th relocation names the personality routine of the k-th CIE: it is the first at the place of the pointer,
      and no discarded entry up to then covers that place. */
  ghost predicate NamesRoutine(input: Input, k: nat, q: nat) {
    && k < |input.frame.cies| && input.relocs.Some?
    && var place := input.frame.cies[k].offset + input.frame.cies[k].personalityOffset;
      IsFirstAt(input.relocs.value, q, place) && !InGone(input.frame.cies, input.relocs.value, k + 1, place)
  }

  ghost predicate HasRoutine(input: Input, k: nat) {
    exists q: nat :: NamesRoutine(input, k, q)
  }

  /** The routine of a CIE as it is read: none; the symbol of its relocation; or, without one, what the section has. */
  ghost predicate IsRoutine(input: Input, k: nat, routine: string) {
    && k < |input.frame.cies|
    && var c := input.frame.cies[k];
      if c.personality == "" then routine == ""
      else if HasRoutine(input, k) then
        forall q: nat :: NamesRoutine(input, k, q) ==> routine == input.relocs.value[q].symbol
      else routine == c.personality
  }

  ghost predicate MayMerge(input: Input, k: nat)
    requires k < |input.frame.cies|
  {
    input.frame.cies[k].mergeable || input.frame.cies[k].personality == "" || HasRoutine(input, k)
  }

  lemma {:induction false} PreparedOne(cies: seq<Cie>, relocs: Option<seq<Reloc>>, k: nat)
    requires k < |cies|
    ensures PreparedAll(cies, relocs).0[k] == Prepared(cies[k], PreparedAll(cies[..k], relocs).1).0
  {
    hide Prepared;
    var n := |cies| - 1;
    if k < n {
      PreparedOne(cies[..n], relocs, k);
      assert cies[..n][..k] == cies[..k];
    }
  }

  lemma {:induction false} NoRelocsLeft(cies: seq<Cie>)
    ensures PreparedAll(cies, None).1 == None
  {
    if |cies| > 0 {
      NoRelocsLeft(cies[..|cies| - 1]);
    }
  }

  /** A prepared CIE has its routine for its personality, and may be merged exactly if it was so before, has none, or
      has a relocation that names it. Its record and its augmentation stay. */
  lemma PreparedExactly(input: Input, k: nat)
    requires SeparateEntries(input.frame.cies) && k < |input.frame.cies|
    ensures var c, r := input.frame.cies[k], PreparedAll(input.frame.cies, input.relocs).0[k];
      && IsRoutine(input, k, r.personality) && (r.mergeable <==> MayMerge(input, k))
      && r.fragment == c.fragment && r.augmentation == c.augmentation && r.offset == c.offset
  {
    hide RelocAt, DiscardedFdes, WithoutEntries, InGone, PreparedAll, Prepared, SeparateEntries;
    var cies := input.frame.cies;
    PreparedOne(cies, input.relocs, k);
    if input.relocs.None? {
      NoRelocsLeft(cies[..k]);
      PreparedWithout(cies[k]);
    } else {
      var relocs, place := input.relocs.value, cies[k].offset + cies[k].personalityOffset;
      PreparedRelocs(cies, relocs, k, place);
      PreparedRelocs(cies, relocs, k + 1, place);
      NextRelocs(cies, relocs, k);
      RelocAtIs(relocs, place);
      if RelocAt(relocs, place).Some? && !InGone(cies, relocs, k + 1, place) {
        var q: nat :| IsFirstAt(relocs, q, place);
        assert NamesRoutine(input, k, q);
      }
      PreparedWith(cies[k], PreparedAll(cies[..k], input.relocs).1.value);
    }
  }

  lemma PreparedWithout(c: Cie)
    ensures Prepared(c, None).0 == c.(mergeable := c.mergeable || c.personality == "")
  {}

  lemma PreparedWith(c: Cie, relocs: seq<Reloc>)
    ensures var rest := WithoutEntries(relocs, DiscardedFdes(relocs, c.fdes));
      var r, q := Prepared(c, Some(relocs)).0, RelocAt(rest, c.offset + c.personalityOffset);
      && r.fragment == c.fragment && r.augmentation == c.augmentation && r.offset == c.offset
      && r.mergeable == (c.mergeable || c.personality == "" || q.Some?)
      && r.personality == if c.personality != "" && q.Some? then q.value.symbol else c.personality
  {
    hide RelocAt, DiscardedFdes, WithoutEntries, LiveFdes;
  }

  // ----- sharing an output CIE -----

  /** Two entries of any inputs that end under one output CIE have the same routine and the same augmentation data. */
  lemma SharedCieSharesRoutine(inputs: seq<Input>, n: nat, k: nat, fde: Fde, n': nat, k': nat, fde': Fde,
                               m: nat, l: nat, l': nat) returns (routine: string)
    requires AsRead(inputs)
    requires n < |inputs| && k < |inputs[n].frame.cies| && fde in inputs[n].frame.cies[k].fdes
    requires n' < |inputs| && k' < |inputs[n'].frame.cies| && fde' in inputs[n'].frame.cies[k'].fdes
    requires FoundAt(MergedAll(PreparedFrames(inputs)), fde.fragment.id, m, l)
    requires FoundAt(MergedAll(PreparedFrames(inputs)), fde'.fragment.id, m, l')
    ensures IsRoutine(inputs[n], k, routine) && IsRoutine(inputs[n'], k', routine)
    ensures inputs[n].frame.cies[k].augmentation == inputs[n'].frame.cies[k'].augmentation
    ensures forall q: nat, q': nat ::
      NamesRoutine(inputs[n], k, q) && NamesRoutine(inputs[n'], k', q')
      && inputs[n].frame.cies[k].personality != "" && inputs[n'].frame.cies[k'].personality != ""
      ==> inputs[n].relocs.value[q].symbol == inputs[n'].relocs.value[q'].symbol
  {
    hide AsRead, MergedAll, PreparedFrames, PreparedAll, NamesRoutine;
    FoundUnderEqual(inputs, n, k, fde, m, l);
    FoundUnderEqual(inputs, n', k', fde', m, l');
    SeparateAt(inputs, n);
    SeparateAt(inputs, n');
    PreparedExactly(inputs[n], k);
    PreparedExactly(inputs[n'], k');
    routine := PreparedAll(inputs[n].frame.cies, inputs[n].relocs).0[k].personality;
  }

  lemma FoundUnderEqual(inputs: seq<Input>, n: nat, k: nat, fde: Fde, m: nat, l: nat)
    requires AsRead(inputs) && n < |inputs| && k < |inputs[n].frame.cies| && fde in inputs[n].frame.cies[k].fdes
    requires FoundAt(MergedAll(PreparedFrames(inputs)), fde.fragment.id, m, l)
    ensures SameCie(MergedAll(PreparedFrames(inputs)).cies[m], PreparedAll(inputs[n].frame.cies, inputs[n].relocs).0[k])
  {
    hide AsRead, MergedAll, PreparedFrames, PreparedAll, SameCie;
    LiveEntriesFindTheirCie(inputs, n, k, fde);
    if inputs[n].Discards(fde) {
      assert false;
    }
  }

  /** The flat position of an input CIE. */
  lemma {:induction false} CieIndex(frames: seq<Frame>, n: nat, k: nat) returns (i: nat)
    requires n < |frames| && k < |frames[n].cies|
    ensures i < |AllCies(frames)| && AllCies(frames)[i] == frames[n].cies[k]
  {
    var last := |frames| - 1;
    if n < last {
      i := CieIndex(frames[..last], n, k);
    } else {
      i := |AllCies(frames[..last])| + k;
    }
  }

  lemma SameFind(cies: seq<Cie>, a: Cie, b: Cie)
    requires SameCie(a, b)
    ensures FindCie(cies, a) == FindCie(cies, b)
  {
    var k := FindCie(cies, a);
    if k < |cies| {
      FindIs(cies, b, k);
    } else {
      FindNone(cies, b);
    }
  }

  /** Two entries that are not discarded, of CIEs that may be merged and have the same routine and the same
      augmentation data, end under one output CIE. */
  lemma SameRoutineSharesCie(inputs: seq<Input>, n: nat, k: nat, fde: Fde, n': nat, k': nat, fde': Fde, routine: string)
    returns (m: nat, l: nat, l': nat)
    requires AsRead(inputs)
    requires n < |inputs| && k < |inputs[n].frame.cies| && fde in inputs[n].frame.cies[k].fdes
    requires n' < |inputs| && k' < |inputs[n'].frame.cies| && fde' in inputs[n'].frame.cies[k'].fdes
    requires !inputs[n].Discards(fde) && !inputs[n'].Discards(fde')
    requires MayMerge(inputs[n], k) && MayMerge(inputs[n'], k')
    requires IsRoutine(inputs[n], k, routine) && IsRoutine(inputs[n'], k', routine)
    requires inputs[n].frame.cies[k].augmentation == inputs[n'].frame.cies[k'].augmentation
    ensures FoundAt(MergedAll(PreparedFrames(inputs)), fde.fragment.id, m, l)
    ensures FoundAt(MergedAll(PreparedFrames(inputs)), fde'.fragment.id, m, l')
  {
    hide AsRead, MergedAll, PreparedFrames, PreparedAll, NamesRoutine, MayMerge, AllCies, Attributed, FindCie,
    ValidInputs,
         WellBuilt;
    var frames := PreparedFrames(inputs);
    FramesAt(inputs);
    PreparedIsValid(inputs);
    MergesAreExact(frames);
    var i, j := FlatEntry(inputs, n, k, fde);
    var i', j' := FlatEntry(inputs, n', k', fde');
    var a, b := AllCies(frames)[i], AllCies(frames)[i'];
    OneRoutine(inputs[n], k, routine, a.personality);
    OneRoutine(inputs[n'], k', routine, b.personality);
    SameFind(AllCies(frames), a, b);
    var m0, l0 := IsFound(frames, i, j);
    var m1, l1 := IsFound(frames, i', j');
    FoundUnderKeeper(frames, i, j, m0, l0);
    FoundUnderKeeper(frames, i', j', m1, l1);
    CiesApart(MergedAll(frames), m0, m1);
    m, l, l' := m0, l0, l1;
  }

  lemma OneRoutine(input: Input, k: nat, a: string, b: string)
    requires IsRoutine(input, k, a) && IsRoutine(input, k, b)
    ensures a == b
  {}

  lemma CiesApart(f: Frame, i: nat, k: nat)
    requires WellBuilt(f) && i < |f.cies| && k < |f.cies| && f.cies[i].fragment == f.cies[k].fragment
    ensures i == k
  {}

  /** Where a live entry is among the prepared CIEs of all inputs. */
  lemma FlatEntry(inputs: seq<Input>, n: nat, k: nat, fde: Fde) returns (i: nat, j: nat)
    requires AsRead(inputs) && n < |inputs| && k < |inputs[n].frame.cies| && fde in inputs[n].frame.cies[k].fdes
    requires !inputs[n].Discards(fde)
    ensures var cies := AllCies(PreparedFrames(inputs));
      && i < |cies| && j < |cies[i].fdes| && cies[i].fdes[j].fragment.id == fde.fragment.id
      && cies[i].augmentation == inputs[n].frame.cies[k].augmentation
      && IsRoutine(inputs[n], k, cies[i].personality) && (cies[i].mergeable <==> MayMerge(inputs[n], k))
  {
    hide AsRead, PreparedFrames, PreparedAll, NamesRoutine, MayMerge, AllCies, Attributed;
    FramesAt(inputs);
    SeparateAt(inputs, n);
    PreparedEntries(inputs[n], k, fde);
    PreparedExactly(inputs[n], k);
    PreparedAt(inputs[n]);
    i := CieIndex(PreparedFrames(inputs), n, k);
    j :| 0 <= j < |AllCies(PreparedFrames(inputs))[i].fdes| && AllCies(PreparedFrames(inputs))[i].fdes[j] == fde;
  }
}
