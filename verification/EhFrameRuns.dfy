/** From input sections as they are read to the output section: preparing every input, and merging them all. */
module EhFrameRuns {
  import opened Options
  import opened EhFrames
  import opened EhFrameMerge
  import opened EhFrameSections

  /** An input section with its relocations, if it has any. */
  datatype Input = Input(frame: Frame, relocs: Option<seq<Reloc>>) {
    /** The entry's function was discarded, and a relocation says so. */
    predicate Discards(fde: Fde) {
      relocs.Some? && IsDiscarded(relocs.value, fde)
    }
  }

  function FramesOf(inputs: seq<Input>): seq<Frame> {
    if |inputs| == 0 then [] else FramesOf(inputs[..|inputs| - 1]) + [inputs[|inputs| - 1].frame]
  }

  function PreparedFrames(inputs: seq<Input>): seq<Frame> {
    if |inputs| == 0 then []
    else
      var last := inputs[|inputs| - 1];
      PreparedFrames(inputs[..|inputs| - 1]) + [Attributed(last.frame, last.relocs)]
  }

  /** What the parsers hand over: no fragment twice in all the inputs, and entries that do not share bytes. */
  ghost predicate AsRead(inputs: seq<Input>) {
    ValidInputs(FramesOf(inputs)) && forall n :: 0 <= n < |inputs| ==> SeparateEntries(inputs[n].frame.cies)
  }

  lemma {:induction false} FramesAt(inputs: seq<Input>)
    ensures |FramesOf(inputs)| == |PreparedFrames(inputs)| == |inputs|
    ensures forall n :: 0 <= n < |inputs| ==> FramesOf(inputs)[n] == inputs[n].frame
    ensures forall n :: 0 <= n < |inputs| ==> PreparedFrames(inputs)[n] == Attributed(inputs[n].frame, inputs[n].relocs)
  {
    hide Attributed;
    if |inputs| > 0 {
      FramesAt(inputs[..|inputs| - 1]);
    }
  }

  /** All that `a` takes is in what `b` takes, input by input. */
  ghost predicate TakesLess(a: seq<Frame>, b: seq<Frame>) {
    |a| == |b| && forall n, f :: 0 <= n < |a| && f in Taken(a[n]) ==> f in Taken(b[n])
  }

  lemma {:induction false} AllTakenFrom(frames: seq<Frame>, f: Fragment)
    requires f in AllTaken(frames)
    ensures exists n :: 0 <= n < |frames| && f in Taken(frames[n])
  {
    hide Taken;
    var n := |frames| - 1;
    if f in Taken(frames[n]) {
    } else {
      AllTakenFrom(frames[..n], f);
      var m :| 0 <= m < n && f in Taken(frames[..n][m]);
      assert f in Taken(frames[m]);
    }
  }

  lemma {:induction false} TakenIn(frames: seq<Frame>, n: nat, f: Fragment)
    requires n < |frames| && f in Taken(frames[n])
    ensures f in AllTaken(frames)
  {
    hide Taken;
    if n < |frames| - 1 {
      TakenIn(frames[..|frames| - 1], n, f);
    }
  }

  /** A fragment is taken from one input only. */
  lemma {:induction false} TakenOnce(frames: seq<Frame>, n: nat, m: nat, f: Fragment, g: Fragment)
    requires Distinct(AllTaken(frames)) && n < |frames| && m < |frames|
    requires f in Taken(frames[n]) && g in Taken(frames[m]) && f.id == g.id
    ensures n == m && f == g
  {
    hide Taken, Distinct, Apart;
    var last := |frames| - 1;
    SplitDistinct(AllTaken(frames[..last]), Taken(frames[last]));
    ApartMembers(AllTaken(frames[..last]), Taken(frames[last]));
    if n < last && m < last {
      TakenOnce(frames[..last], n, m, f, g);
    } else if n < last {
      TakenIn(frames[..last], n, f);
    } else if m < last {
      TakenIn(frames[..last], m, g);
    } else {
      SameId(Taken(frames[last]), f, g);
    }
  }

  lemma SameId(s: seq<Fragment>, f: Fragment, g: Fragment)
    requires Distinct(s) && f in s && g in s && f.id == g.id
    ensures f == g
  {
    var p :| 0 <= p < |s| && s[p] == f;
    var q :| 0 <= q < |s| && s[q] == g;
  }

  lemma {:induction false} LessIsDistinct(a: seq<Frame>, b: seq<Frame>)
    requires TakesLess(a, b) && Distinct(AllTaken(b)) && forall n :: 0 <= n < |a| ==> Distinct(Taken(a[n]))
    ensures Distinct(AllTaken(a)) && forall f :: f in AllTaken(a) ==> f in AllTaken(b)
  {
    hide Taken, Distinct, Apart;
    var n := |a| - 1;
    if n >= 0 {
      SplitDistinct(AllTaken(b[..n]), Taken(b[n]));
      assert TakesLess(a[..n], b[..n]) by {
        assert forall m :: 0 <= m < n ==> a[..n][m] == a[m] && b[..n][m] == b[m];
      }
      LessIsDistinct(a[..n], b[..n]);
      ApartMembers(AllTaken(b[..n]), Taken(b[n]));
      ApartMembers(AllTaken(a[..n]), Taken(a[n]));
      JoinedDistinct(AllTaken(a[..n]), Taken(a[n]));
    } else {
      assert AllTaken(a) == [];
      NoneDistinct();
    }
  }

  lemma JoinedDistinct(a: seq<Fragment>, b: seq<Fragment>)
    requires Distinct(a) && Distinct(b) && Apart(a, b)
    ensures Distinct(a + b)
  {}

  lemma NoneDistinct()
    ensures Distinct([])
  {}

  /** Preparing inputs leaves valid ones, which take nothing new. */
  lemma PreparedIsValid(inputs: seq<Input>)
    requires AsRead(inputs)
    ensures ValidInputs(PreparedFrames(inputs)) && TakesLess(PreparedFrames(inputs), FramesOf(inputs))
  {
    hide Attributed, Taken, Distinct, ValidInput, AllTaken, FramesOf, PreparedFrames, SeparateEntries;
    FramesAt(inputs);
    var before, after := FramesOf(inputs), PreparedFrames(inputs);
    forall n | 0 <= n < |inputs|
      ensures ValidInput(after[n]) && Distinct(Taken(after[n]))
      ensures forall f :: f in Taken(after[n]) ==> f in Taken(before[n])
    {
      assert ValidInput(before[n]);
      AttributedIsValid(inputs[n].frame, inputs[n].relocs);
      ValidTaken(after[n]);
    }
    LessIsDistinct(after, before);
  }

  lemma ValidTaken(frame: Frame)
    requires ValidInput(frame)
    ensures Distinct(Taken(frame))
  {}

  /** The prepared CIE keeps exactly the entries that are not discarded. */
  lemma PreparedEntries(input: Input, k: nat, fde: Fde)
    requires SeparateEntries(input.frame.cies) && k < |input.frame.cies|
    ensures |Attributed(input.frame, input.relocs).cies| == |input.frame.cies|
    ensures fde in Attributed(input.frame, input.relocs).cies[k].fdes
       <==> fde in input.frame.cies[k].fdes && !input.Discards(fde)
  {
    if input.relocs.Some? {
      ExactlyTheLiveSurvive(input.frame.cies, input.relocs.value, k, fde);
    } else {
      NothingDropped(input.frame.cies, k);
    }
  }

  lemma {:induction false} NothingDropped(cies: seq<Cie>, k: nat)
    requires k < |cies|
    ensures PreparedAll(cies, None).0[k].fdes == cies[k].fdes
  {
    if k < |cies| - 1 {
      NothingDropped(cies[..|cies| - 1], k);
    }
  }

  /** In a valid frame the record of an entry belongs to one CIE, and to one entry of it. */
  lemma EntryOnce(frame: Frame, k: nat, fde: Fde, m: nat, other: Fde)
    requires ValidInput(frame) && k < |frame.cies| && m < |frame.cies|
    requires fde in frame.cies[k].fdes && other in frame.cies[m].fdes && fde.fragment.id == other.fragment.id
    ensures k == m && fde == other
  {
    hide Distinct, Apart;
    GroupsSeparate(frame.cies);
    EntryInGroup(frame.cies[k], fde);
    EntryInGroup(frame.cies[m], other);
    ApartMembers(GroupOf(frame.cies[k]), GroupOf(frame.cies[m]));
    ApartMembers(GroupOf(frame.cies[m]), GroupOf(frame.cies[k]));
    if k == m {
      SameEntry(frame.cies[k], fde, other);
    }
  }

  lemma EntryInGroup(c: Cie, fde: Fde)
    requires fde in c.fdes
    ensures fde.fragment in GroupOf(c)
  {
    var j :| 0 <= j < |c.fdes| && c.fdes[j] == fde;
    assert GroupOf(c)[j + 1] == fde.fragment;
  }

  lemma SameEntry(c: Cie, fde: Fde, other: Fde)
    requires Distinct(GroupOf(c)) && fde in c.fdes && other in c.fdes && fde.fragment.id == other.fragment.id
    ensures fde == other
  {
    var j :| 0 <= j < |c.fdes| && c.fdes[j] == fde;
    var l :| 0 <= l < |c.fdes| && c.fdes[l] == other;
    assert GroupOf(c)[j + 1].id == GroupOf(c)[l + 1].id;
  }

  lemma EntryTaken(frame: Frame, k: nat, fde: Fde)
    requires k < |frame.cies| && fde in frame.cies[k].fdes
    ensures fde.fragment in Taken(frame)
  {
    EntryInGroup(frame.cies[k], fde);
    InGroups(frame.cies, fde.fragment);
  }

  lemma {:induction false} AllBindingsFrom(frames: seq<Frame>, b: Binding)
    requires b in AllBindings(frames)
    ensures exists n :: 0 <= n < |frames| && b in Bindings(frames[n].cies)
  {
    var n := |frames| - 1;
    if b !in Bindings(frames[n].cies) {
      AllBindingsFrom(frames[..n], b);
      var m :| 0 <= m < n && b in Bindings(frames[..n][m].cies);
      assert b in Bindings(frames[m].cies);
    }
  }

  /** Whatever entry the output holds is an entry of some input. */
  lemma FoundIsEntry(frames: seq<Frame>, fde: nat, m: nat, l: nat) returns (n: nat, k: nat, entry: Fde)
    requires ValidInputs(frames) && FoundAt(MergedAll(frames), fde, m, l)
    ensures n < |frames| && k < |frames[n].cies| && entry in frames[n].cies[k].fdes && entry.fragment.id == fde
  {
    hide MergedAll, WellBuilt, ValidInputs;
    var out := MergedAll(frames);
    var b := BindingsOf(out.cies[m])[l];
    MergesAreExact(frames);
    BindingIn(out.cies, b);
    AllBindingsFrom(frames, b);
    n :| 0 <= n < |frames| && b in Bindings(frames[n].cies);
    BindingIn(frames[n].cies, b);
    var i, j :| 0 <= i < |frames[n].cies| && 0 <= j < |frames[n].cies[i].fdes| && BindingsOf(frames[n].cies[i])[j] == b;
    k, entry := i, frames[n].cies[i].fdes[j];
  }

  lemma DiscardedIsGone(inputs: seq<Input>, n: nat, k: nat, fde: Fde, m: nat, l: nat)
    requires AsRead(inputs) && n < |inputs| && k < |inputs[n].frame.cies| && fde in inputs[n].frame.cies[k].fdes
    requires FoundAt(MergedAll(PreparedFrames(inputs)), fde.fragment.id, m, l)
    ensures !inputs[n].Discards(fde)
  {
    hide *;
    FramesAt(inputs);
    PreparedIsValid(inputs);
    var before, after := FramesOf(inputs), PreparedFrames(inputs);
    var n', k', entry := FoundIsEntry(after, fde.fragment.id, m, l);
    SeparateAt(inputs, n');
    SeparateAt(inputs, n);
    PreparedCount(inputs[n']);
    PreparedEntries(inputs[n'], k', entry);
    EntryTaken(before[n'], k', entry);
    EntryTaken(before[n], k, fde);
    ValidAt(before, n);
    TakenOnce(before, n, n', fde.fragment, entry.fragment);
    EntryOnce(before[n], k, fde, k', entry);
  }

  lemma SeparateAt(inputs: seq<Input>, n: nat)
    requires AsRead(inputs) && n < |inputs|
    ensures SeparateEntries(inputs[n].frame.cies) && ValidInputs(FramesOf(inputs))
  {}

  lemma ValidAt(frames: seq<Frame>, n: nat)
    requires ValidInputs(frames) && n < |frames|
    ensures ValidInput(frames[n]) && Distinct(AllTaken(frames))
  {}

  /** The entry is in the output once, under a CIE that equals its own as prepared, and points to that CIE. */
  ghost predicate InOutput(out: Frame, c: Cie, fde: nat) {
    exists m: nat, l: nat :: FoundAt(out, fde, m, l)
      && SameCie(out.cies[m], c) && out.cies[m].fdes[l].cie == out.cies[m].fragment.id
      && forall m', l' :: FoundAt(out, fde, m', l') ==> m' == m && l' == l
  }

  /** From inputs as they are read: an entry whose function is discarded is nowhere in the output, and every other one
      is there once, under the CIE that stands for its own. */
  lemma LiveEntriesFindTheirCie(inputs: seq<Input>, n: nat, k: nat, fde: Fde)
    requires AsRead(inputs) && n < |inputs| && k < |inputs[n].frame.cies| && fde in inputs[n].frame.cies[k].fdes
    ensures var out := MergedAll(PreparedFrames(inputs));
      var prepared := PreparedAll(inputs[n].frame.cies, inputs[n].relocs).0;
      && (!inputs[n].Discards(fde) ==> InOutput(out, prepared[k], fde.fragment.id))
      && (inputs[n].Discards(fde) ==> forall m, l :: !FoundAt(out, fde.fragment.id, m, l))
  {
    hide *;
    FramesAt(inputs);
    PreparedIsValid(inputs);
    SeparateAt(inputs, n);
    PreparedEntries(inputs[n], k, fde);
    var out, after := MergedAll(PreparedFrames(inputs)), PreparedFrames(inputs);
    PreparedAt(inputs[n]);
    if inputs[n].Discards(fde) {
      forall m, l ensures !FoundAt(out, fde.fragment.id, m, l) {
        if FoundAt(out, fde.fragment.id, m, l) {
          DiscardedIsGone(inputs, n, k, fde, m, l);
        }
      }
    } else {
      var j :| 0 <= j < |after[n].cies[k].fdes| && after[n].cies[k].fdes[j] == fde;
      var m, l := EveryFdeFindsItsCie(after, n, k, j);
      IsInOutput(out, after[n].cies[k], fde.fragment.id, m, l);
    }
  }

  lemma PreparedCount(input: Input)
    ensures |Attributed(input.frame, input.relocs).cies| == |input.frame.cies|
  {}

  lemma PreparedAt(input: Input)
    requires input.frame.cies != []
    ensures Attributed(input.frame, input.relocs).cies == PreparedAll(input.frame.cies, input.relocs).0
  {}

  lemma IsInOutput(out: Frame, c: Cie, fde: nat, m: nat, l: nat)
    requires FoundAt(out, fde, m, l) && m < |out.cies| && l < |out.cies[m].fdes|
    requires SameCie(out.cies[m], c) && out.cies[m].fdes[l].cie == out.cies[m].fragment.id
    requires forall m', l' :: FoundAt(out, fde, m', l') ==> m' == m && l' == l
    ensures InOutput(out, c, fde)
  {}
}
