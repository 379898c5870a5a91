/** From input sections as they are read to what the output's bytes read back as. */
module EhFrameWhole {
  import opened Options
  import opened EhFrames
  import opened EhFrameMerge
  import opened EhFrameSections
  import opened EhFrameRuns
  import opened EhFrameEmit
  import opened EhFrameRead

  ghost predicate IsCieRecord(b: seq<Byte>, parse: seq<Byte> -> bool) {
    |b| >= 8 && Word(b, 0) == |b| - 4 && Word(b, 4) == 0 && parse(b)
  }

  ghost predicate IsFdeRecord(b: seq<Byte>) {
    |b| > 8 && Word(b, 0) == |b| - 4
  }

  /** The fragments of a CIE and its FDEs are records, as the reader accepts them. */
  ghost predicate HasRecords(c: Cie, parse: seq<Byte> -> bool) {
    && IsCieRecord(c.fragment.bytes, parse)
    && forall j :: 0 <= j < |c.fdes| ==> IsFdeRecord(c.fdes[j].fragment.bytes)
  }

  ghost predicate AllRecords(cies: seq<Cie>, parse: seq<Byte> -> bool) {
    forall k :: 0 <= k < |cies| ==> HasRecords(cies[k], parse)
  }

  /** Every fragment is the record of a CIE or of an FDE. */
  ghost predicate Covered(f: Frame) {
    forall x :: x in f.fragments ==> exists k: nat :: k < |f.cies| && x in GroupOf(f.cies[k])
  }

  /** Inputs of which every CIE was parsed, with nothing else in them. */
  ghost predicate FullyParsed(inputs: seq<Input>, parse: seq<Byte> -> bool) {
    forall n :: 0 <= n < |inputs| ==>
      && AllRecords(inputs[n].frame.cies, parse)
      && (inputs[n].frame.cies == [] ==> inputs[n].frame.fragments == [])
  }

  lemma MovedCovered(out: Frame, c: Cie, parse: seq<Byte> -> bool)
    requires Covered(out) && AllRecords(out.cies, parse) && HasRecords(c, parse)
    ensures Covered(Moved(out, c)) && AllRecords(Moved(out, c).cies, parse)
  {
    var r, k := Moved(out, c), FindCie(out.cies, c);
    MovedAmong(out, c);
    if !c.mergeable || k == |out.cies| {
      forall x | x in r.fragments ensures exists m: nat :: m < |r.cies| && x in GroupOf(r.cies[m]) {
        if x in out.fragments {
          var m: nat :| m < |out.cies| && x in GroupOf(out.cies[m]);
          assert r.cies[m] == out.cies[m];
        } else {
          assert x in GroupOf(r.cies[|out.cies|]);
        }
      }
    } else {
      AdoptedGroup(out.cies[k], c);
      AdoptedRecords(out.cies[k], c, parse);
      forall x | x in r.fragments ensures exists m: nat :: m < |r.cies| && x in GroupOf(r.cies[m]) {
        if x in out.fragments {
          var m: nat :| m < |out.cies| && x in GroupOf(out.cies[m]);
          assert x in GroupOf(r.cies[m]);
        } else {
          NotTheCie(out, c, x);
          assert x in GroupOf(r.cies[k]);
        }
      }
    }
  }

  lemma AdoptedGroup(a: Cie, c: Cie)
    ensures var r := a.(fdes := a.fdes + Reparented(c.fdes, a.fragment.id));
      forall x :: x in GroupOf(a) || x in FragmentsOf(c.fdes) ==> x in GroupOf(r)
  {
    var r := a.(fdes := a.fdes + Reparented(c.fdes, a.fragment.id));
    assert FragmentsOf(r.fdes) == FragmentsOf(a.fdes) + FragmentsOf(c.fdes);
  }

  lemma AdoptedRecords(a: Cie, c: Cie, parse: seq<Byte> -> bool)
    requires HasRecords(a, parse) && HasRecords(c, parse)
    ensures HasRecords(a.(fdes := a.fdes + Reparented(c.fdes, a.fragment.id)), parse)
  {
    hide IsFdeRecord, IsCieRecord;
  }

  /** Only the FDEs of a CIE that is merged come to the output. */
  lemma NotTheCie(out: Frame, c: Cie, x: Fragment)
    requires c.mergeable && FindCie(out.cies, c) < |out.cies| && x in Moved(out, c).fragments && x !in out.fragments
    ensures x in FragmentsOf(c.fdes)
  {
    hide FindCie;
    var p := Position(out.fragments, out.cies[FindCie(out.cies, c)].fragment.id);
    var at := if p < |out.fragments| then p + 1 else p;
    assert forall f :: f in out.fragments[..at] || f in out.fragments[at..] ==> f in out.fragments;
  }

  lemma {:induction false} MovedAllCovered(out: Frame, cies: seq<Cie>, parse: seq<Byte> -> bool)
    requires Covered(out) && AllRecords(out.cies, parse) && AllRecords(cies, parse)
    ensures Covered(MovedAll(out, cies)) && AllRecords(MovedAll(out, cies).cies, parse)
  {
    hide Covered, HasRecords;
    if |cies| > 0 {
      MovedAllCovered(out, cies[..|cies| - 1], parse);
      MovedCovered(MovedAll(out, cies[..|cies| - 1]), cies[|cies| - 1], parse);
    }
  }

  lemma {:induction false} MergedAllCovered(frames: seq<Frame>, parse: seq<Byte> -> bool)
    requires forall n :: 0 <= n < |frames| ==> AllRecords(frames[n].cies, parse)
    requires forall n :: 0 <= n < |frames| ==> (frames[n].cies == [] ==> frames[n].fragments == [])
    ensures Covered(MergedAll(frames)) && AllRecords(MergedAll(frames).cies, parse)
  {
    hide HasRecords;
    var n := |frames| - 1;
    if n >= 0 {
      MergedAllCovered(frames[..n], parse);
      if frames[n].cies != [] {
        MovedAllCovered(MergedAll(frames[..n]), frames[n].cies, parse);
      } else {
        assert MergedAll(frames) == MergedAll(frames[..n]);
      }
    }
  }

  lemma PreparedRecords(c: Cie, relocs: Option<seq<Reloc>>, parse: seq<Byte> -> bool)
    requires HasRecords(c, parse)
    ensures HasRecords(Prepared(c, relocs).0, parse)
  {
    hide IsFdeRecord, IsCieRecord, RelocAt, WithoutEntries, DiscardedFdes, IsDiscarded;
    var r := Prepared(c, relocs).0;
    forall j | 0 <= j < |r.fdes| ensures IsFdeRecord(r.fdes[j].fragment.bytes) {
      assert r.fdes[j] in r.fdes;
      assert r.fdes[j] in c.fdes;
    }
  }

  lemma {:induction false} PreparedAllRecords(cies: seq<Cie>, relocs: Option<seq<Reloc>>, parse: seq<Byte> -> bool)
    requires AllRecords(cies, parse)
    ensures AllRecords(PreparedAll(cies, relocs).0, parse)
  {
    hide HasRecords, Prepared;
    var n := |cies| - 1;
    if n >= 0 {
      var (before, rest) := PreparedAll(cies[..n], relocs);
      PreparedAllRecords(cies[..n], relocs, parse);
      PreparedRecords(cies[n], rest, parse);
    }
  }

  lemma AttributedRecords(input: Input, parse: seq<Byte> -> bool)
    requires AllRecords(input.frame.cies, parse) && (input.frame.cies == [] ==> input.frame.fragments == [])
    ensures var r := Attributed(input.frame, input.relocs);
      AllRecords(r.cies, parse) && (r.cies == [] ==> r.fragments == [])
  {
    hide HasRecords;
    PreparedAllRecords(input.frame.cies, input.relocs, parse);
  }

  lemma CoveredIsValid(f: Frame, parse: seq<Byte> -> bool)
    requires Covered(f) && AllRecords(f.cies, parse)
    ensures RoomForPointers(f) && ValidRecords(f, parse)
  {
    hide Word;
    forall p: nat | p < |f.fragments|
      ensures |f.fragments[p].bytes| >= 8 && Word(f.fragments[p].bytes, 0) == |f.fragments[p].bytes| - 4
      ensures (exists k: nat :: IsCie(f, p, k)) || exists k: nat, j: nat :: FdeAt(f, p, k, j)
    {
      var x := f.fragments[p];
      assert x in f.fragments;
      var k: nat :| k < |f.cies| && x in GroupOf(f.cies[k]);
      var i :| 0 <= i < |GroupOf(f.cies[k])| && GroupOf(f.cies[k])[i] == x;
      assert HasRecords(f.cies[k], parse);
      if i == 0 {
        assert IsCie(f, p, k);
      } else {
        assert FdeAt(f, p, k, i - 1);
      }
    }
    forall p: nat, k: nat | IsCie(f, p, k) ensures Word(f.fragments[p].bytes, 4) == 0 && parse(f.fragments[p].bytes) {
      assert HasRecords(f.cies[k], parse);
    }
    forall p: nat, k: nat, j: nat | FdeAt(f, p, k, j) ensures |f.fragments[p].bytes| > 8 {
      assert HasRecords(f.cies[k], parse);
    }
    forall k, j | 0 <= k < |f.cies| && 0 <= j < |f.cies[k].fdes| ensures |f.cies[k].fdes[j].fragment.bytes| >= 8 {
      assert HasRecords(f.cies[k], parse);
    }
  }

  /** The output of all inputs, prepared and merged, is what the writer and the reader ask for. */
  lemma OutputIsValid(inputs: seq<Input>, parse: seq<Byte> -> bool)
    requires AsRead(inputs) && FullyParsed(inputs, parse)
    ensures var out := MergedAll(PreparedFrames(inputs));
      WellBuilt(out) && RoomForPointers(out) && ValidRecords(out, parse)
  {
    hide AsRead, MergedAll, PreparedFrames, ValidRecords, RoomForPointers, Covered, AllRecords, WellBuilt, ValidInputs;
    var frames := PreparedFrames(inputs);
    PreparedIsValid(inputs);
    MergesAreExact(frames);
    FramesAt(inputs);
    forall n | 0 <= n < |frames|
      ensures AllRecords(frames[n].cies, parse) && (frames[n].cies == [] ==> frames[n].fragments == [])
    {
      AttributedRecords(inputs[n], parse);
    }
    MergedAllCovered(frames, parse);
    CoveredIsValid(MergedAll(frames), parse);
  }

  /** What the writer leaves of the output reads back, all of it. */
  lemma OutputReadsBack(inputs: seq<Input>, cur: seq<Fragment>, base: int, parse: seq<Byte> -> bool)
    returns (entries: seq<Entry>)
    requires AsRead(inputs) && FullyParsed(inputs, parse)
    requires var out := MergedAll(PreparedFrames(inputs));
      out.fragments != [] && RoomForPointers(out) && PatchedUpTo(out, cur, |out.cies|, 0)
    requires |Flatten(cur)| < TWO_31
    ensures ReadFrom(Flatten(cur), base, 0, Q0, {}, parse) == Some(entries)
    ensures var out := MergedAll(PreparedFrames(inputs));
      |entries| == |out.fragments| && forall p :: 0 <= p < |entries| ==> ReadsAs(out, base, p, entries[p])
  {
    hide AsRead, FullyParsed, MergedAll, PreparedFrames, ValidRecords, RoomForPointers, WellBuilt, PatchedUpTo, ReadsAs,
         Flatten, ReadFrom;
    var out := MergedAll(PreparedFrames(inputs));
    OutputIsValid(inputs, parse);
    assert OffsetOf(out.fragments, 0) == 0;
    EmittedFrameReadsBack(out, cur, base, parse, 0, {});
    entries := ReadFrom(Flatten(cur), base, 0, Q0, {}, parse).value;
  }

  /** An entry is read back, under a CIE that equals its own as prepared. */
  ghost predicate ReadBack(out: Frame, base: int, entries: seq<Entry>, c: Cie, fde: nat) {
    exists p: nat, m: nat, l: nat ::
      && p < |entries| && FdeAt(out, p, m, l) && out.fragments[p].id == fde && SameCie(out.cies[m], c)
      && entries[p] == FdeEntry(base + OffsetOf(out.fragments, p), base + CieStart(out, m))
  }

  /** From inputs as they are read to the bytes of the output: these read back record by record; an FDE whose function
      is not discarded is among the records, under a CIE that equals its own, and one that is discarded is not. */
  lemma InputsReadBack(inputs: seq<Input>, cur: seq<Fragment>, base: int, parse: seq<Byte> -> bool,
                       n: nat, k: nat, fde: Fde) returns (entries: seq<Entry>)
    requires AsRead(inputs) && FullyParsed(inputs, parse)
    requires var out := MergedAll(PreparedFrames(inputs));
      out.fragments != [] && RoomForPointers(out) && PatchedUpTo(out, cur, |out.cies|, 0)
    requires |Flatten(cur)| < TWO_31
    requires n < |inputs| && k < |inputs[n].frame.cies| && fde in inputs[n].frame.cies[k].fdes
    ensures ReadFrom(Flatten(cur), base, 0, Q0, {}, parse) == Some(entries)
    ensures var out := MergedAll(PreparedFrames(inputs));
      var c := PreparedAll(inputs[n].frame.cies, inputs[n].relocs).0[k];
      && |entries| == |out.fragments|
      && (if inputs[n].Discards(fde) then forall p: nat :: p < |entries| ==> !IsEntryOf(out, p, fde.fragment.id)
          else ReadBack(out, base, entries, c, fde.fragment.id))
  {
    hide *;
    var out := MergedAll(PreparedFrames(inputs));
    var c := PreparedAll(inputs[n].frame.cies, inputs[n].relocs).0[k];
    OutputIsValid(inputs, parse);
    entries := OutputReadsBack(inputs, cur, base, parse);
    LiveEntriesFindTheirCie(inputs, n, k, fde);
    if inputs[n].Discards(fde) {
      forall p: nat | p < |entries| ensures !IsEntryOf(out, p, fde.fragment.id) {
        NoEntry(out, p, fde.fragment.id);
      }
    } else {
      EntryReadBack(out, base, entries, c, fde.fragment.id);
    }
  }

  /** The fragment is an FDE with the identity. */
  ghost predicate IsEntryOf(out: Frame, p: nat, fde: nat) {
    exists m: nat, l: nat :: FdeAt(out, p, m, l) && out.fragments[p].id == fde
  }

  lemma NoEntry(out: Frame, p: nat, fde: nat)
    requires forall m, l :: !FoundAt(out, fde, m, l)
    ensures !IsEntryOf(out, p, fde)
  {
    if IsEntryOf(out, p, fde) {
      var m: nat, l: nat :| FdeAt(out, p, m, l) && out.fragments[p].id == fde;
      assert FoundAt(out, fde, m, l);
    }
  }

  lemma EntryReadBack(out: Frame, base: int, entries: seq<Entry>, c: Cie, fde: nat)
    requires WellBuilt(out) && InOutput(out, c, fde) && |entries| == |out.fragments|
    requires forall p :: 0 <= p < |entries| ==> ReadsAs(out, base, p, entries[p])
    ensures ReadBack(out, base, entries, c, fde)
  {
    hide WellBuilt, OffsetOf, Position;
    var m: nat, l: nat :| FoundAt(out, fde, m, l) && SameCie(out.cies[m], c);
    var p, q := WhereIs(out, m, l);
    assert FdeAt(out, p, m, l) && ReadsAs(out, base, p, entries[p]);
  }
}
