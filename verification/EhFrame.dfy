/** Exception frame sections: a list of record fragments, and a list of common information entries (CIE), each with
    the frame description entries (FDE) that point to it. */
module EhFrames {
  import opened Options

  type Byte = b: nat | b < 256

  /** A record of the section. The length and the id or CIE pointer take the first eight bytes. */
  datatype Fragment = Fragment(id: nat, bytes: seq<Byte>)

  /** `offset` is the offset in the input section, `cie` the CIE the entry points to. */
  datatype Fde = Fde(fragment: Fragment, offset: nat, cie: nat)

  datatype Cie = Cie(
    fragment: Fragment,
    offset: nat,
    personality: string,
    personalityOffset: nat,
    augmentation: string,
    mergeable: bool,
    reloc: Option<Reloc>,
    fdes: seq<Fde>)

  /** A relocation of an exception frame section: its place, and its symbol. */
  datatype Reloc = Reloc(id: nat, place: nat, symbol: string, hasFragRef: bool)

  datatype Frame = Frame(fragments: seq<Fragment>, cies: seq<Cie>)

  /** When two CIEs are taken to be equal: the bytes of the records are not compared. */
  predicate SameCie(a: Cie, b: Cie) {
    a.personality == b.personality && a.augmentation == b.augmentation
  }

  function FragmentsOf(fdes: seq<Fde>): (r: seq<Fragment>)
    ensures |r| == |fdes| && forall k :: 0 <= k < |r| ==> r[k] == fdes[k].fragment
  {
    seq(|fdes|, k requires 0 <= k < |fdes| => fdes[k].fragment)
  }

  function Reparented(fdes: seq<Fde>, cie: nat): (r: seq<Fde>)
    ensures |r| == |fdes| && forall k :: 0 <= k < |r| ==> r[k] == fdes[k].(cie := cie)
  {
    seq(|fdes|, k requires 0 <= k < |fdes| => fdes[k].(cie := cie))
  }

  /** The first CIE of the output that equals `c`, or the number of CIEs if none does. */
  function FindCie(cies: seq<Cie>, c: Cie): (k: nat)
    ensures k <= |cies|
    ensures k < |cies| ==> SameCie(cies[k], c)
    ensures forall i :: 0 <= i < k ==> !SameCie(cies[i], c)
  {
    if |cies| == 0 then 0
    else
      var k := FindCie(cies[..|cies| - 1], c);
      if k < |cies| - 1 then k
      else if SameCie(cies[|cies| - 1], c) then |cies| - 1
      else |cies|
  }

  /** Where the fragment `id` is, or the number of fragments if there is none. */
  function Position(fragments: seq<Fragment>, id: nat): (p: nat)
    ensures p <= |fragments|
    ensures p < |fragments| ==> fragments[p].id == id
    ensures forall q :: 0 <= q < p ==> fragments[q].id != id
  {
    if |fragments| == 0 then 0
    else if fragments[0].id == id then 0
    else 1 + Position(fragments[1..], id)
  }

  /** The output CIE `k` with the FDEs of `c` added to it. */
  function Adopted(cies: seq<Cie>, k: nat, c: Cie): seq<Cie>
    requires k < |cies|
  {
    cies[k := cies[k].(fdes := cies[k].fdes + Reparented(c.fdes, cies[k].fragment.id))]
  }

  /** The output after one input CIE and its FDEs have been moved to it. */
  function Moved(out: Frame, c: Cie): Frame {
    var k := FindCie(out.cies, c);
    if !c.mergeable || k == |out.cies| then
      Frame(out.fragments + [c.fragment] + FragmentsOf(c.fdes), out.cies + [c])
    else
      var p := Position(out.fragments, out.cies[k].fragment.id);
      var at := if p < |out.fragments| then p + 1 else p;
      Frame(out.fragments[..at] + FragmentsOf(c.fdes) + out.fragments[at..], Adopted(out.cies, k, c))
  }

  function MovedAll(out: Frame, cies: seq<Cie>): Frame {
    if |cies| == 0 then out else Moved(MovedAll(out, cies[..|cies| - 1]), cies[|cies| - 1])
  }

  /** One input section merged into the output. A section in which no CIE was parsed is appended whole. */
  function Merged(out: Frame, input: Frame): Frame {
    if |input.cies| == 0 then Frame(out.fragments + input.fragments, out.cies)
    else MovedAll(out, input.cies)
  }

  // ----- what every merge keeps -----

  ghost predicate Distinct(fragments: seq<Fragment>) {
    forall p, q :: 0 <= p < q < |fragments| ==> fragments[p].id != fragments[q].id
  }

  /** The CIE's fragment at `p` is followed at once by the fragments of its FDEs, in some order. */
  ghost predicate GroupAt(fragments: seq<Fragment>, c: Cie, p: nat) {
    && p + |c.fdes| < |fragments|
    && fragments[p] == c.fragment
    && multiset(fragments[p + 1..p + 1 + |c.fdes|]) == multiset(FragmentsOf(c.fdes))
  }

  ghost predicate Grouped(fragments: seq<Fragment>, c: Cie) {
    exists p: nat :: GroupAt(fragments, c, p)
  }

  ghost predicate Owned(c: Cie) {
    forall j :: 0 <= j < |c.fdes| ==> c.fdes[j].cie == c.fragment.id
  }

  /** A frame that hangs together: no fragment occurs twice, every CIE is followed by its FDEs, every FDE points to
      its CIE, no record is both, and no two mergeable CIEs are equal. */
  ghost predicate WellBuilt(f: Frame) {
    Distinct(f.fragments) && AllGrouped(f.fragments, f.cies) && AllApart(f.cies) && NoTwoMergeable(f.cies)
  }

  ghost predicate AllGrouped(fragments: seq<Fragment>, cies: seq<Cie>) {
    forall k :: 0 <= k < |cies| ==> Grouped(fragments, cies[k]) && Owned(cies[k])
  }

  ghost predicate AllApart(cies: seq<Cie>) {
    && (forall i, k :: 0 <= i < |cies| && 0 <= k < |cies| ==> CieApart(cies[i], cies[k]))
    && (forall i, k :: 0 <= i < k < |cies| ==> cies[i].fragment.id != cies[k].fragment.id)
  }

  ghost predicate NoTwoMergeable(cies: seq<Cie>) {
    forall i, k :: 0 <= i < k < |cies| && cies[i].mergeable && cies[k].mergeable ==> !SameCie(cies[i], cies[k])
  }

  /** The record of CIE `a` is not that of an FDE of `b`. */
  ghost predicate CieApart(a: Cie, b: Cie) {
    forall j :: 0 <= j < |b.fdes| ==> a.fragment.id != b.fdes[j].fragment.id
  }

  ghost predicate Apart(a: seq<Fragment>, b: seq<Fragment>) {
    forall p, q :: 0 <= p < |a| && 0 <= q < |b| ==> a[p].id != b[q].id
  }

  function GroupOf(c: Cie): seq<Fragment> {
    [c.fragment] + FragmentsOf(c.fdes)
  }

  lemma PositionOf(fragments: seq<Fragment>, p: nat)
    requires Distinct(fragments) && p < |fragments|
    ensures Position(fragments, fragments[p].id) == p
  {}

  /** Every fragment of a group is where the group is. */
  lemma InGroup(fragments: seq<Fragment>, c: Cie, p: nat, j: nat)
    requires GroupAt(fragments, c, p) && j < |c.fdes|
    ensures exists q :: p < q <= p + |c.fdes| && fragments[q] == c.fdes[j].fragment
  {
    var slice := fragments[p + 1..p + 1 + |c.fdes|];
    assert FragmentsOf(c.fdes)[j] in multiset(slice);
    var q :| 0 <= q < |slice| && slice[q] == c.fdes[j].fragment;
    assert fragments[p + 1 + q] == c.fdes[j].fragment;
  }

  lemma GroupMember(fragments: seq<Fragment>, c: Cie, p: nat, q: nat)
    requires GroupAt(fragments, c, p) && p < q <= p + |c.fdes|
    ensures exists j :: 0 <= j < |c.fdes| && c.fdes[j].fragment == fragments[q]
  {
    var slice := fragments[p + 1..p + 1 + |c.fdes|];
    assert slice[q - p - 1] in multiset(slice);
    assert fragments[q] in multiset(FragmentsOf(c.fdes));
    var j :| 0 <= j < |c.fdes| && FragmentsOf(c.fdes)[j] == fragments[q];
  }

  /** Inserting fragments right after another CIE leaves a group in one piece. */
  lemma GroupSurvivesInsert(fragments: seq<Fragment>, x: seq<Fragment>, c: Cie, at: nat, p: nat)
    requires GroupAt(fragments, c, p) && 0 < at <= |fragments|
    requires at <= p + 1 ==> at <= p
    requires p + 1 < at ==> p + |c.fdes| < at - 1
    requires p + 1 != at
    ensures Grouped(fragments[..at] + x + fragments[at..], c)
  {
    var longer := fragments[..at] + x + fragments[at..];
    var q := if at <= p then p + |x| else p;
    assert longer[q + 1..q + 1 + |c.fdes|] == fragments[p + 1..p + 1 + |c.fdes|];
    assert GroupAt(longer, c, q);
  }

  lemma GroupSurvivesAppend(fragments: seq<Fragment>, x: seq<Fragment>, c: Cie)
    requires Grouped(fragments, c)
    ensures Grouped(fragments + x, c)
  {
    var p: nat :| GroupAt(fragments, c, p);
    assert (fragments + x)[p + 1..p + 1 + |c.fdes|] == fragments[p + 1..p + 1 + |c.fdes|];
    assert GroupAt(fragments + x, c, p);
  }

  /** A group that does not start at `p` does not reach over `p` either, when `p` holds a CIE. */
  lemma GroupsDoNotOverlap(f: Frame, i: nat, k: nat, pi: nat, pk: nat)
    requires WellBuilt(f) && i < |f.cies| && k < |f.cies| && i != k
    requires GroupAt(f.fragments, f.cies[i], pi) && GroupAt(f.fragments, f.cies[k], pk)
    ensures pi != pk && (pi < pk ==> pi + |f.cies[i].fdes| < pk)
  {
    assert CieApart(f.cies[k], f.cies[i]);
    if pi < pk <= pi + |f.cies[i].fdes| {
      GroupMember(f.fragments, f.cies[i], pi, pk);
    }
  }

  lemma MovedNew(out: Frame, c: Cie)
    requires WellBuilt(out) && Owned(c) && Distinct(GroupOf(c)) && Apart(out.fragments, GroupOf(c))
    requires !c.mergeable || FindCie(out.cies, c) == |out.cies|
    ensures WellBuilt(Moved(out, c))
  {
    hide Distinct, AllGrouped, AllApart, NoTwoMergeable, Owned, Apart, FindCie;
    var r := Moved(out, c);
    assert r == Frame(out.fragments + GroupOf(c), out.cies + [c]);
    AppendedDistinct(out.fragments, GroupOf(c));
    AppendedGrouped(out.fragments, out.cies, c);
    AppendedApart(out.fragments, out.cies, c);
    AppendedMergeable(out.cies, c);
  }

  lemma AppendedDistinct(a: seq<Fragment>, x: seq<Fragment>)
    requires Distinct(a) && Distinct(x) && Apart(a, x)
    ensures Distinct(a + x)
  {}

  lemma AppendedMergeable(cies: seq<Cie>, c: Cie)
    requires NoTwoMergeable(cies) && (!c.mergeable || FindCie(cies, c) == |cies|)
    ensures NoTwoMergeable(cies + [c])
  {}

  lemma AppendedGrouped(fragments: seq<Fragment>, cies: seq<Cie>, c: Cie)
    requires AllGrouped(fragments, cies) && Owned(c)
    ensures AllGrouped(fragments + GroupOf(c), cies + [c])
  {
    var longer := fragments + GroupOf(c);
    assert longer[|fragments| + 1..|fragments| + 1 + |c.fdes|] == FragmentsOf(c.fdes);
    assert GroupAt(longer, c, |fragments|);
    forall k | 0 <= k < |cies| ensures Grouped(longer, cies[k]) {
      GroupSurvivesAppend(fragments, GroupOf(c), cies[k]);
    }
  }

  lemma AppendedApart(fragments: seq<Fragment>, cies: seq<Cie>, c: Cie)
    requires AllGrouped(fragments, cies) && AllApart(cies) && Distinct(GroupOf(c)) && Apart(fragments, GroupOf(c))
    ensures AllApart(cies + [c])
  {
    hide CieApart, Grouped;
    forall k | 0 <= k < |cies|
      ensures CieApart(c, cies[k]) && CieApart(cies[k], c) && c.fragment.id != cies[k].fragment.id
    {
      NewcomerApart(fragments, cies[k], c);
    }
    NewcomerItself(c);
  }

  lemma NewcomerApart(fragments: seq<Fragment>, old_: Cie, c: Cie)
    requires Grouped(fragments, old_) && Apart(fragments, GroupOf(c))
    ensures CieApart(c, old_) && CieApart(old_, c) && c.fragment.id != old_.fragment.id
  {
    var p: nat :| GroupAt(fragments, old_, p);
    assert GroupOf(c)[0] == c.fragment;
    forall j | 0 <= j < |old_.fdes| ensures c.fragment.id != old_.fdes[j].fragment.id {
      InGroup(fragments, old_, p, j);
    }
    forall j | 0 <= j < |c.fdes| ensures old_.fragment.id != c.fdes[j].fragment.id {
      assert GroupOf(c)[j + 1] == c.fdes[j].fragment;
    }
  }

  lemma NewcomerItself(c: Cie)
    requires Distinct(GroupOf(c))
    ensures CieApart(c, c)
  {
    assert GroupOf(c)[0] == c.fragment;
    assert forall j :: 0 <= j < |c.fdes| ==> GroupOf(c)[j + 1] == c.fdes[j].fragment;
  }

  lemma InsertedDistinct(a: seq<Fragment>, x: seq<Fragment>, at: nat)
    requires Distinct(a) && Distinct(x) && Apart(a, x) && at <= |a|
    ensures Distinct(a[..at] + x + a[at..])
  {}

  lemma MovedOnto(out: Frame, c: Cie, pk: nat)
    requires WellBuilt(out) && Distinct(GroupOf(c)) && Apart(out.fragments, GroupOf(c))
    requires c.mergeable && FindCie(out.cies, c) < |out.cies|
    requires GroupAt(out.fragments, out.cies[FindCie(out.cies, c)], pk)
    ensures WellBuilt(Moved(out, c))
  {
    hide Distinct, AllGrouped, AllApart, NoTwoMergeable, Apart, FindCie, Adopted, GroupAt;
    var k := FindCie(out.cies, c);
    MovedOntoIs(out, c, pk);
    FdesApart(out.fragments, c);
    InsertedDistinct(out.fragments, FragmentsOf(c.fdes), pk + 1);
    InsertedGrouped(out, c, k, pk);
    InsertedApart(out, c, k);
  }

  lemma MovedOntoIs(out: Frame, c: Cie, pk: nat)
    requires Distinct(out.fragments) && c.mergeable && FindCie(out.cies, c) < |out.cies|
    requires GroupAt(out.fragments, out.cies[FindCie(out.cies, c)], pk)
    ensures pk + 1 <= |out.fragments|
    ensures Moved(out, c) == Frame(out.fragments[..pk + 1] + FragmentsOf(c.fdes) + out.fragments[pk + 1..],
                                   Adopted(out.cies, FindCie(out.cies, c), c))
  {
    hide Position, FindCie, Adopted;
    PositionOf(out.fragments, pk);
  }

  lemma FdesApart(a: seq<Fragment>, c: Cie)
    requires Distinct(GroupOf(c)) && Apart(a, GroupOf(c))
    ensures Distinct(FragmentsOf(c.fdes)) && Apart(a, FragmentsOf(c.fdes))
  {
    assert forall j :: 0 <= j < |c.fdes| ==> GroupOf(c)[j + 1] == FragmentsOf(c.fdes)[j];
  }

  lemma InsertedGrouped(out: Frame, c: Cie, k: nat, pk: nat)
    requires WellBuilt(out) && k < |out.cies| && GroupAt(out.fragments, out.cies[k], pk)
    ensures AllGrouped(out.fragments[..pk + 1] + FragmentsOf(c.fdes) + out.fragments[pk + 1..], Adopted(out.cies, k, c))
  {
    hide Grouped, Owned, GroupAt, Distinct, AllApart, NoTwoMergeable, Reparented;
    assert pk + 1 <= |out.fragments| by { GroupStarts(out.fragments, out.cies[k], pk); }
    var x := FragmentsOf(c.fdes);
    var cies := Adopted(out.cies, k, c);
    LongerGroup(out.fragments, out.cies[k], c, pk);
    forall i | 0 <= i < |cies| && i != k
      ensures Grouped(out.fragments[..pk + 1] + x + out.fragments[pk + 1..], cies[i]) && Owned(cies[i])
    {
      OtherGroup(out, x, i, k, pk);
    }
  }

  lemma GroupStarts(fragments: seq<Fragment>, c: Cie, p: nat)
    requires GroupAt(fragments, c, p)
    ensures p < |fragments|
  {}

  /** The group that adopts FDEs has them right behind its CIE. */
  lemma LongerGroup(fragments: seq<Fragment>, a: Cie, c: Cie, p: nat)
    requires GroupAt(fragments, a, p) && Owned(a)
    ensures var r := a.(fdes := a.fdes + Reparented(c.fdes, a.fragment.id));
      && Grouped(fragments[..p + 1] + FragmentsOf(c.fdes) + fragments[p + 1..], r) && Owned(r)
  {
    var x, n := FragmentsOf(c.fdes), |a.fdes|;
    var r := a.(fdes := a.fdes + Reparented(c.fdes, a.fragment.id));
    var longer := fragments[..p + 1] + x + fragments[p + 1..];
    assert longer[p + 1..p + 1 + |r.fdes|] == x + fragments[p + 1..p + 1 + n];
    assert FragmentsOf(r.fdes) == FragmentsOf(a.fdes) + x;
    assert GroupAt(longer, r, p);
  }

  lemma OtherGroup(out: Frame, x: seq<Fragment>, i: nat, k: nat, pk: nat)
    requires WellBuilt(out) && i < |out.cies| && k < |out.cies| && i != k && GroupAt(out.fragments, out.cies[k], pk)
    ensures pk + 1 <= |out.fragments|
    ensures Grouped(out.fragments[..pk + 1] + x + out.fragments[pk + 1..], out.cies[i])
  {
    hide Distinct, AllApart, NoTwoMergeable;
    assert Grouped(out.fragments, out.cies[i]);
    var pi: nat :| GroupAt(out.fragments, out.cies[i], pi);
    GroupsDoNotOverlap(out, i, k, pi, pk);
    GroupsDoNotOverlap(out, k, i, pk, pi);
    GroupSurvivesInsert(out.fragments, x, out.cies[i], pk + 1, pi);
  }

  lemma InsertedApart(out: Frame, c: Cie, k: nat)
    requires WellBuilt(out) && k < |out.cies| && Apart(out.fragments, GroupOf(c))
    ensures AllApart(Adopted(out.cies, k, c))
    ensures NoTwoMergeable(Adopted(out.cies, k, c))
  {
    var cies := Adopted(out.cies, k, c);
    forall i, j | 0 <= i < |cies| && 0 <= j < |cies| ensures CieApart(cies[i], cies[j]) {
      assert CieApart(out.cies[i], out.cies[j]);
      NewcomerApart(out.fragments, out.cies[i], c);
    }
  }

  /** Moving one CIE and its FDEs keeps the output well built. */
  lemma MovedKeepsWellBuilt(out: Frame, c: Cie)
    requires WellBuilt(out) && Owned(c) && Distinct(GroupOf(c)) && Apart(out.fragments, GroupOf(c))
    ensures WellBuilt(Moved(out, c))
  {
    if !c.mergeable || FindCie(out.cies, c) == |out.cies| {
      MovedNew(out, c);
    } else {
      var p: nat :| GroupAt(out.fragments, out.cies[FindCie(out.cies, c)], p);
      MovedOnto(out, c, p);
    }
  }
}
