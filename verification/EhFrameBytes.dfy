/** Whether an FDE still points to the bytes of its own CIE after merging, although the bytes are not compared. */
module EhFrameBytes {
  import opened EhFrames
  import opened EhFrameMerge
  import opened EhFrameSections

  /** The CIEs of all inputs, in order. */
  function AllCies(inputs: seq<Frame>): seq<Cie> {
    if |inputs| == 0 then [] else AllCies(inputs[..|inputs| - 1]) + inputs[|inputs| - 1].cies
  }

  /** The output's CIEs do not depend on where the fragments stand. */
  function MovedCies(cies: seq<Cie>, c: Cie): seq<Cie> {
    var k := FindCie(cies, c);
    if !c.mergeable || k == |cies| then cies + [c] else Adopted(cies, k, c)
  }

  function CiesAfter(cies: seq<Cie>): seq<Cie> {
    if |cies| == 0 then [] else MovedCies(CiesAfter(cies[..|cies| - 1]), cies[|cies| - 1])
  }

  lemma MovedCiesAre(out: Frame, c: Cie)
    ensures Moved(out, c).cies == MovedCies(out.cies, c)
  {
    hide Position, FindCie;
  }

  lemma {:induction false} MovedAllCies(out: Frame, before: seq<Cie>, cies: seq<Cie>)
    requires out.cies == CiesAfter(before)
    ensures MovedAll(out, cies).cies == CiesAfter(before + cies)
  {
    hide Moved, MovedCies;
    var n := |cies| - 1;
    if n >= 0 {
      MovedAllCies(out, before, cies[..n]);
      MovedCiesAre(MovedAll(out, cies[..n]), cies[n]);
      assert (before + cies)[..|before| + n] == before + cies[..n];
    } else {
      assert before + cies == before;
    }
  }

  lemma {:induction false} MergedAllCies(inputs: seq<Frame>)
    ensures MergedAll(inputs).cies == CiesAfter(AllCies(inputs))
  {
    var n := |inputs| - 1;
    if n >= 0 {
      MergedAllCies(inputs[..n]);
      if inputs[n].cies == [] {
        assert AllCies(inputs) == AllCies(inputs[..n]);
      } else {
        MovedAllCies(MergedAll(inputs[..n]), AllCies(inputs[..n]), inputs[n].cies);
      }
    }
  }

  lemma FindIs(cies: seq<Cie>, c: Cie, k: nat)
    requires k < |cies| && SameCie(cies[k], c) && forall i :: 0 <= i < k ==> !SameCie(cies[i], c)
    ensures FindCie(cies, c) == k
  {}

  lemma FindNone(cies: seq<Cie>, c: Cie)
    requires forall i :: 0 <= i < |cies| ==> !SameCie(cies[i], c)
    ensures FindCie(cies, c) == |cies|
  {}

  /** The input CIE that stands for the i-th one in the output. */
  function Keeper(cies: seq<Cie>, i: nat): (k: nat)
    requires i < |cies|
    ensures k <= i
  {
    if cies[i].mergeable then FindCie(cies, cies[i]) else i
  }

  /** What does not change when a CIE adopts FDEs. */
  predicate SameRecord(a: Cie, b: Cie) {
    a.fragment == b.fragment && a.personality == b.personality && a.augmentation == b.augmentation && a.fdes <= b.fdes
  }

  lemma MovedKeepsRecords(cies: seq<Cie>, c: Cie)
    ensures |cies| <= |MovedCies(cies, c)|
    ensures forall m :: 0 <= m < |cies| ==> SameRecord(cies[m], MovedCies(cies, c)[m])
    ensures |MovedCies(cies, c)| > |cies| ==> MovedCies(cies, c) == cies + [c]
  {}

  /** The first output CIE that equals `c` has the record of the first input CIE that does. */
  lemma {:induction false} FirstsAgree(cies: seq<Cie>, c: Cie)
    ensures var out, k, f := CiesAfter(cies), FindCie(CiesAfter(cies), c), FindCie(cies, c);
      (k < |out| <==> f < |cies|) && (k < |out| ==> out[k].fragment == cies[f].fragment)
  {
    hide FindCie, MovedCies;
    var n := |cies| - 1;
    if n >= 0 {
      var before, out, last := CiesAfter(cies[..n]), CiesAfter(cies), cies[n];
      FirstsAgree(cies[..n], c);
      MovedKeepsRecords(before, last);
      var k, f := FindCie(before, c), FindCie(cies[..n], c);
      if f < n {
        FindIs(cies, c, f);
        FindIs(out, c, k);
      } else if SameCie(last, c) {
        assert forall i :: 0 <= i < |before| ==> !SameCie(before[i], last);
        FindNone(before, last);
        FirstOfItsKind(before, last);
        FindIs(cies, c, n);
        FindIs(out, c, |before|);
      } else {
        FindNone(cies, c);
        FindNone(out, c);
      }
    }
  }

  lemma FirstOfItsKind(cies: seq<Cie>, c: Cie)
    requires FindCie(cies, c) == |cies|
    ensures MovedCies(cies, c) == cies + [c]
  {}

  /** An output CIE with the record `r` has the FDE. */
  ghost predicate HasFde(out: seq<Cie>, fde: Fragment, r: Fragment) {
    exists m: nat, l: nat :: m < |out| && l < |out[m].fdes| && out[m].fdes[l].fragment == fde && out[m].fragment == r
  }

  lemma MovedHasFde(cies: seq<Cie>, c: Cie, fde: Fragment, r: Fragment)
    requires HasFde(cies, fde, r)
    ensures HasFde(MovedCies(cies, c), fde, r)
  {
    hide MovedCies;
    MovedKeepsRecords(cies, c);
    var m: nat, l: nat :| m < |cies| && l < |cies[m].fdes| && cies[m].fdes[l].fragment == fde && cies[m].fragment == r;
    assert SameRecord(cies[m], MovedCies(cies, c)[m]);
    assert MovedCies(cies, c)[m].fdes[l].fragment == fde;
  }

  lemma NewHasFde(cies: seq<Cie>, c: Cie, j: nat)
    requires j < |c.fdes|
    ensures var k := FindCie(cies, c);
      HasFde(MovedCies(cies, c), c.fdes[j].fragment, if c.mergeable && k < |cies| then cies[k].fragment else c.fragment)
  {
    var k, out := FindCie(cies, c), MovedCies(cies, c);
    if c.mergeable && k < |cies| {
      assert out[k].fdes[|cies[k].fdes| + j].fragment == c.fdes[j].fragment;
    } else {
      assert out[|cies|].fdes[j].fragment == c.fdes[j].fragment;
    }
  }

  /** Every FDE ends up under the record of its CIE's keeper. */
  lemma {:induction false} KeeperHasFde(cies: seq<Cie>, i: nat, j: nat)
    requires i < |cies| && j < |cies[i].fdes|
    ensures HasFde(CiesAfter(cies), cies[i].fdes[j].fragment, cies[Keeper(cies, i)].fragment)
  {
    hide FindCie, HasFde, MovedCies;
    var n := |cies| - 1;
    var before := CiesAfter(cies[..n]);
    if i < n {
      KeeperHasFde(cies[..n], i, j);
      SameKeeper(cies, i);
      MovedHasFde(before, cies[n], cies[i].fdes[j].fragment, cies[Keeper(cies, i)].fragment);
    } else {
      NewHasFde(before, cies[n], j);
      FirstsAgree(cies[..n], cies[n]);
      var f := FindCie(cies[..n], cies[n]);
      FindIs(cies, cies[n], f);
    }
  }

  lemma SameKeeper(cies: seq<Cie>, i: nat)
    requires i < |cies| - 1
    ensures Keeper(cies[..|cies| - 1], i) == Keeper(cies, i)
  {
    if cies[i].mergeable {
      FindIs(cies, cies[i], FindCie(cies[..|cies| - 1], cies[i]));
    }
  }

  /** Wherever an FDE is found, it is under the record of its CIE's keeper. */
  lemma FoundUnderKeeper(inputs: seq<Frame>, i: nat, j: nat, m: nat, l: nat)
    requires ValidInputs(inputs)
    requires i < |AllCies(inputs)| && j < |AllCies(inputs)[i].fdes|
    requires FoundAt(MergedAll(inputs), AllCies(inputs)[i].fdes[j].fragment.id, m, l)
    ensures MergedAll(inputs).cies[m].fragment == AllCies(inputs)[Keeper(AllCies(inputs), i)].fragment
  {
    hide Keeper, AllCies, MergedAll, CiesAfter, ValidInputs, WellBuilt;
    var out, cies := MergedAll(inputs), AllCies(inputs);
    MergesAreExact(inputs);
    MergedAllCies(inputs);
    KeeperHasFde(cies, i, j);
    var m': nat, l': nat :| m' < |out.cies| && l' < |out.cies[m'].fdes|
      && out.cies[m'].fdes[l'].fragment == cies[i].fdes[j].fragment
      && out.cies[m'].fragment == cies[Keeper(cies, i)].fragment;
    FdeInOneCie(out, m, l, m', l');
  }

  /** Every FDE of every input is found under a CIE with the bytes of its own. */
  ghost predicate BytesKept(inputs: seq<Frame>) {
    var out, cies := MergedAll(inputs), AllCies(inputs);
    forall i, j, m: nat, l: nat ::
      0 <= i < |cies| && 0 <= j < |cies[i].fdes| && FoundAt(out, cies[i].fdes[j].fragment.id, m, l)
      ==> out.cies[m].fragment.bytes == cies[i].fragment.bytes
  }

  /** A mergeable CIE in use has the bytes of the first CIE, in the order of the inputs, that equals it. */
  ghost predicate FirstHasBytes(cies: seq<Cie>) {
    forall i :: 0 <= i < |cies| && cies[i].mergeable && cies[i].fdes != [] ==>
      cies[FindCie(cies, cies[i])].fragment.bytes == cies[i].fragment.bytes
  }

  /** Merging keeps the bytes of every FDE's CIE exactly if each mergeable CIE that has an FDE has those of the first
      CIE that equals it, be that mergeable or not. */
  lemma CieBytesKept(inputs: seq<Frame>)
    requires ValidInputs(inputs)
    ensures BytesKept(inputs) <==> FirstHasBytes(AllCies(inputs))
  {
    hide MergedAll, AllCies, ValidInputs, FindCie;
    var out, cies := MergedAll(inputs), AllCies(inputs);
    if BytesKept(inputs) {
      forall i | 0 <= i < |cies| && cies[i].mergeable && cies[i].fdes != []
        ensures cies[FindCie(cies, cies[i])].fragment.bytes == cies[i].fragment.bytes
      {
        assert 0 < |cies[i].fdes|;
        var m, l := IsFound(inputs, i, 0);
        FoundUnderKeeper(inputs, i, 0, m, l);
      }
    }
    if FirstHasBytes(cies) {
      forall i, j, m: nat, l: nat |
        0 <= i < |cies| && 0 <= j < |cies[i].fdes| && FoundAt(out, cies[i].fdes[j].fragment.id, m, l)
        ensures m < |out.cies| && out.cies[m].fragment.bytes == cies[i].fragment.bytes
      {
        FoundUnderKeeper(inputs, i, j, m, l);
      }
    }
  }

  lemma IsFound(inputs: seq<Frame>, i: nat, j: nat) returns (m: nat, l: nat)
    requires i < |AllCies(inputs)| && j < |AllCies(inputs)[i].fdes|
    ensures FoundAt(MergedAll(inputs), AllCies(inputs)[i].fdes[j].fragment.id, m, l)
  {
    hide MergedAll, AllCies, CiesAfter, Keeper;
    MergedAllCies(inputs);
    KeeperHasFde(AllCies(inputs), i, j);
    var out := MergedAll(inputs).cies;
    var fde := AllCies(inputs)[i].fdes[j].fragment;
    m, l :| m < |out| && l < |out[m].fdes| && out[m].fdes[l].fragment == fde;
  }
}
