/** What a whole sequence of merges amounts to. */
module EhFrameMerge {
  import opened EhFrames

  /** An FDE together with what decides the equality of its CIE. */
  datatype Binding = Binding(fde: nat, personality: string, augmentation: string)

  function BindingsOf(c: Cie): (r: seq<Binding>)
    ensures |r| == |c.fdes|
    ensures forall j :: 0 <= j < |r| ==> r[j] == Binding(c.fdes[j].fragment.id, c.personality, c.augmentation)
  {
    seq(|c.fdes|, j requires 0 <= j < |c.fdes| => Binding(c.fdes[j].fragment.id, c.personality, c.augmentation))
  }

  function Bindings(cies: seq<Cie>): multiset<Binding> {
    if |cies| == 0 then multiset{} else Bindings(cies[..|cies| - 1]) + multiset(BindingsOf(cies[|cies| - 1]))
  }

  /** The number of FDEs of a frame. */
  function NumOfFdes(cies: seq<Cie>): nat {
    if |cies| == 0 then 0 else NumOfFdes(cies[..|cies| - 1]) + |cies[|cies| - 1].fdes|
  }

  lemma {:induction false} CountBindings(cies: seq<Cie>)
    ensures |Bindings(cies)| == NumOfFdes(cies)
  {
    if |cies| > 0 {
      CountBindings(cies[..|cies| - 1]);
    }
  }

  lemma {:induction false} AdoptedBindings(cies: seq<Cie>, k: nat, c: Cie)
    requires k < |cies| && SameCie(cies[k], c)
    ensures Bindings(Adopted(cies, k, c)) == Bindings(cies) + multiset(BindingsOf(c))
  {
    hide BindingsOf, Reparented;
    var n := |cies| - 1;
    var r := Adopted(cies, k, c);
    if k < n {
      AdoptedBindings(cies[..n], k, c);
      assert r[..n] == Adopted(cies[..n], k, c);
    } else {
      assert r[..n] == cies[..n];
      LongerBindings(cies[n], c);
    }
  }

  lemma LongerBindings(a: Cie, c: Cie)
    requires SameCie(a, c)
    ensures multiset(BindingsOf(a.(fdes := a.fdes + Reparented(c.fdes, a.fragment.id))))
         == multiset(BindingsOf(a)) + multiset(BindingsOf(c))
  {
    assert BindingsOf(a.(fdes := a.fdes + Reparented(c.fdes, a.fragment.id))) == BindingsOf(a) + BindingsOf(c);
  }

  lemma MovedBindings(out: Frame, c: Cie)
    ensures Bindings(Moved(out, c).cies) == Bindings(out.cies) + multiset(BindingsOf(c))
  {
    var k := FindCie(out.cies, c);
    if !c.mergeable || k == |out.cies| {
      assert (out.cies + [c])[..|out.cies|] == out.cies;
    } else {
      AdoptedBindings(out.cies, k, c);
    }
  }

  lemma {:induction false} MovedAllBindings(out: Frame, cies: seq<Cie>)
    ensures Bindings(MovedAll(out, cies).cies) == Bindings(out.cies) + Bindings(cies)
  {
    if |cies| > 0 {
      MovedAllBindings(out, cies[..|cies| - 1]);
      MovedBindings(MovedAll(out, cies[..|cies| - 1]), cies[|cies| - 1]);
    }
  }

  /** The fragments of all the groups of an input. */
  function Groups(cies: seq<Cie>): seq<Fragment> {
    if |cies| == 0 then [] else Groups(cies[..|cies| - 1]) + GroupOf(cies[|cies| - 1])
  }

  /** The fragments a merge takes from an input. */
  function Taken(input: Frame): seq<Fragment> {
    if |input.cies| == 0 then input.fragments else Groups(input.cies)
  }

  ghost predicate ValidInput(input: Frame) {
    Distinct(Taken(input)) && forall k :: 0 <= k < |input.cies| ==> Owned(input.cies[k])
  }

  /** No fragment of `a` is anywhere but in `b` or `c`. */
  ghost predicate Among(a: seq<Fragment>, b: seq<Fragment>, c: seq<Fragment>) {
    forall f :: f in a ==> f in b || f in c
  }

  lemma MovedAmong(out: Frame, c: Cie)
    ensures Among(Moved(out, c).fragments, out.fragments, GroupOf(c))
  {
    var x := FragmentsOf(c.fdes);
    assert forall f :: f in x ==> f in GroupOf(c);
    var k := FindCie(out.cies, c);
    if c.mergeable && k < |out.cies| {
      var p := Position(out.fragments, out.cies[k].fragment.id);
      var at := if p < |out.fragments| then p + 1 else p;
      assert forall f :: f in out.fragments[..at] || f in out.fragments[at..] ==> f in out.fragments;
    }
  }

  lemma {:induction false} MovedAllAmong(out: Frame, cies: seq<Cie>)
    ensures Among(MovedAll(out, cies).fragments, out.fragments, Groups(cies))
  {
    if |cies| > 0 {
      MovedAllAmong(out, cies[..|cies| - 1]);
      MovedAmong(MovedAll(out, cies[..|cies| - 1]), cies[|cies| - 1]);
    }
  }

  lemma ApartMembers(a: seq<Fragment>, b: seq<Fragment>)
    ensures Apart(a, b) <==> forall f, g :: f in a && g in b ==> f.id != g.id
  {
    if Apart(a, b) {
      forall f, g | f in a && g in b ensures f.id != g.id {
        var p :| 0 <= p < |a| && a[p] == f;
        var q :| 0 <= q < |b| && b[q] == g;
      }
    }
  }

  lemma AmongApart(a: seq<Fragment>, b: seq<Fragment>, c: seq<Fragment>, d: seq<Fragment>)
    requires Among(a, b, c) && Apart(b, d) && Apart(c, d)
    ensures Apart(a, d)
  {
    ApartMembers(b, d);
    ApartMembers(c, d);
    ApartMembers(a, d);
  }

  lemma {:induction false} MovedAllWellBuilt(out: Frame, cies: seq<Cie>)
    requires WellBuilt(out) && Distinct(Groups(cies)) && Apart(out.fragments, Groups(cies))
    requires forall k :: 0 <= k < |cies| ==> Owned(cies[k])
    ensures WellBuilt(MovedAll(out, cies))
  {
    var n := |cies| - 1;
    if n >= 0 {
      var g, x := Groups(cies[..n]), GroupOf(cies[n]);
      assert Groups(cies) == g + x;
      SplitDistinct(g, x);
      SplitApart(out.fragments, g, x);
      MovedAllWellBuilt(out, cies[..n]);
      MovedAllAmong(out, cies[..n]);
      AmongApart(MovedAll(out, cies[..n]).fragments, out.fragments, g, x);
      MovedKeepsWellBuilt(MovedAll(out, cies[..n]), cies[n]);
    }
  }

  lemma SplitDistinct(a: seq<Fragment>, b: seq<Fragment>)
    requires Distinct(a + b)
    ensures Distinct(a) && Distinct(b) && Apart(a, b)
  {
    var c := a + b;
    assert forall p :: 0 <= p < |a| ==> c[p] == a[p];
    assert forall p :: 0 <= p < |b| ==> c[|a| + p] == b[p];
  }

  lemma SplitApart(a: seq<Fragment>, b: seq<Fragment>, c: seq<Fragment>)
    requires Apart(a, b + c)
    ensures Apart(a, b) && Apart(a, c)
  {
    var d := b + c;
    assert forall p :: 0 <= p < |b| ==> d[p] == b[p];
    assert forall p :: 0 <= p < |c| ==> d[|b| + p] == c[p];
  }

  /** Merging one input, CIEs or not, keeps the output well built. */
  lemma MergedWellBuilt(out: Frame, input: Frame)
    requires WellBuilt(out) && ValidInput(input) && Apart(out.fragments, Taken(input))
    ensures WellBuilt(Merged(out, input))
    ensures Bindings(Merged(out, input).cies) == Bindings(out.cies) + Bindings(input.cies)
    ensures Among(Merged(out, input).fragments, out.fragments, Taken(input))
  {
    if |input.cies| == 0 {
      forall k | 0 <= k < |out.cies| ensures Grouped(out.fragments + input.fragments, out.cies[k]) {
        GroupSurvivesAppend(out.fragments, input.fragments, out.cies[k]);
      }
    } else {
      MovedAllWellBuilt(out, input.cies);
      MovedAllBindings(out, input.cies);
      MovedAllAmong(out, input.cies);
    }
  }

  /** The output section after all the inputs, in order. */
  function MergedAll(inputs: seq<Frame>): Frame {
    if |inputs| == 0 then Frame([], []) else Merged(MergedAll(inputs[..|inputs| - 1]), inputs[|inputs| - 1])
  }

  function AllTaken(inputs: seq<Frame>): seq<Fragment> {
    if |inputs| == 0 then [] else AllTaken(inputs[..|inputs| - 1]) + Taken(inputs[|inputs| - 1])
  }

  function AllBindings(inputs: seq<Frame>): multiset<Binding> {
    if |inputs| == 0 then multiset{} else AllBindings(inputs[..|inputs| - 1]) + Bindings(inputs[|inputs| - 1].cies)
  }

  function AllFdes(inputs: seq<Frame>): nat {
    if |inputs| == 0 then 0 else AllFdes(inputs[..|inputs| - 1]) + NumOfFdes(inputs[|inputs| - 1].cies)
  }

  ghost predicate ValidInputs(inputs: seq<Frame>) {
    Distinct(AllTaken(inputs)) && forall i :: 0 <= i < |inputs| ==> ValidInput(inputs[i])
  }

  /** Any sequence of merges builds a well built frame with exactly the bindings of its inputs. */
  lemma {:induction false} MergesAreExact(inputs: seq<Frame>)
    requires ValidInputs(inputs)
    ensures WellBuilt(MergedAll(inputs))
    ensures Bindings(MergedAll(inputs).cies) == AllBindings(inputs)
    ensures NumOfFdes(MergedAll(inputs).cies) == AllFdes(inputs)
    ensures Among(MergedAll(inputs).fragments, AllTaken(inputs), [])
  {
    var n := |inputs| - 1;
    if n >= 0 {
      SplitDistinct(AllTaken(inputs[..n]), Taken(inputs[n]));
      MergesAreExact(inputs[..n]);
      AmongApart(MergedAll(inputs[..n]).fragments, AllTaken(inputs[..n]), [], Taken(inputs[n]));
      MergedWellBuilt(MergedAll(inputs[..n]), inputs[n]);
      CountBindings(inputs[n].cies);
      CountBindings(MergedAll(inputs[..n]).cies);
      CountBindings(MergedAll(inputs).cies);
    }
  }

  /** In a well built frame an FDE belongs to one CIE, once. */
  lemma FdeInOneCie(f: Frame, i: nat, j: nat, k: nat, l: nat)
    requires WellBuilt(f) && i < |f.cies| && j < |f.cies[i].fdes| && k < |f.cies| && l < |f.cies[k].fdes|
    requires f.cies[i].fdes[j].fragment.id == f.cies[k].fdes[l].fragment.id
    ensures i == k && j == l
  {
    hide Distinct, AllApart, NoTwoMergeable;
    assert Grouped(f.fragments, f.cies[i]) && Grouped(f.fragments, f.cies[k]);
    var pi: nat :| GroupAt(f.fragments, f.cies[i], pi);
    var pk: nat :| GroupAt(f.fragments, f.cies[k], pk);
    if i != k {
      InGroup(f.fragments, f.cies[i], pi, j);
      InGroup(f.fragments, f.cies[k], pk, l);
      GroupsDoNotOverlap(f, i, k, pi, pk);
      GroupsDoNotOverlap(f, k, i, pk, pi);
      DistinctPlaces(f.fragments);
    } else if j != l {
      FdesOfGroupDiffer(f.fragments, f.cies[i], pi, j, l);
    }
  }

  lemma DistinctPlaces(fragments: seq<Fragment>)
    requires Distinct(fragments)
    ensures forall p, q :: 0 <= p < |fragments| && 0 <= q < |fragments| && fragments[p].id == fragments[q].id ==> p == q
  {}

  lemma FdesOfGroupDiffer(fragments: seq<Fragment>, c: Cie, p: nat, j: nat, l: nat)
    requires Distinct(fragments) && GroupAt(fragments, c, p) && j < |c.fdes| && l < |c.fdes| && j != l
    ensures c.fdes[j].fragment.id != c.fdes[l].fragment.id
  {
    InGroup(fragments, c, p, j);
    InGroup(fragments, c, p, l);
    var fs := FragmentsOf(c.fdes);
    var slice := fragments[p + 1..p + 1 + |fs|];
    if c.fdes[j].fragment == c.fdes[l].fragment {
      TwiceInMultiset(fs, j, l);
      OnceInMultiset(slice, fs[j]);
      assert false;
    }
  }

  lemma TwiceInMultiset(s: seq<Fragment>, j: nat, l: nat)
    requires j < |s| && l < |s| && j != l && s[j].id == s[l].id
    requires s[j] == s[l]
    ensures multiset(s)[s[j]] >= 2
  {
    var a, b := if j < l then j else l, if j < l then l else j;
    assert s == s[..a] + [s[a]] + s[a + 1..b] + [s[b]] + s[b + 1..];
  }

  lemma {:induction false} OnceInMultiset(s: seq<Fragment>, f: Fragment)
    requires Distinct(s)
    ensures multiset(s)[f] <= 1
  {
    if |s| > 0 {
      var n := |s| - 1;
      OnceInMultiset(s[..n], f);
      assert s == s[..n] + [s[n]];
    }
  }

  lemma {:induction false} BindingIn(cies: seq<Cie>, b: Binding)
    ensures b in Bindings(cies) <==>
      exists m, l :: 0 <= m < |cies| && 0 <= l < |cies[m].fdes| && BindingsOf(cies[m])[l] == b
  {
    var n := |cies| - 1;
    if n >= 0 {
      BindingIn(cies[..n], b);
      if b in Bindings(cies) {
        if b in Bindings(cies[..n]) {
          var m, l :| 0 <= m < n && 0 <= l < |cies[..n][m].fdes| && BindingsOf(cies[..n][m])[l] == b;
          assert BindingsOf(cies[m])[l] == b;
        } else {
          var l :| 0 <= l < |cies[n].fdes| && BindingsOf(cies[n])[l] == b;
        }
      }
      if m, l :| 0 <= m < |cies| && 0 <= l < |cies[m].fdes| && BindingsOf(cies[m])[l] == b {
        assert m < n ==> BindingsOf(cies[..n][m])[l] == b;
        assert m == n ==> b in multiset(BindingsOf(cies[n]));
      }
    }
  }

  lemma {:induction false} AllBindingsIn(inputs: seq<Frame>, n: nat, b: Binding)
    requires n < |inputs| && b in Bindings(inputs[n].cies)
    ensures b in AllBindings(inputs)
  {
    if n < |inputs| - 1 {
      AllBindingsIn(inputs[..|inputs| - 1], n, b);
    }
  }

  /** The FDE is in entry `l` of output CIE `m`. */
  predicate FoundAt(out: Frame, fde: nat, m: nat, l: nat) {
    m < |out.cies| && l < |out.cies[m].fdes| && out.cies[m].fdes[l].fragment.id == fde
  }

  /** Every FDE of every input ends up in exactly one place: under an output CIE that equals its own, to which it
      points. */
  lemma EveryFdeFindsItsCie(inputs: seq<Frame>, n: nat, k: nat, j: nat) returns (m: nat, l: nat)
    requires ValidInputs(inputs) && n < |inputs| && k < |inputs[n].cies| && j < |inputs[n].cies[k].fdes|
    ensures var out, c, fde := MergedAll(inputs), inputs[n].cies[k], inputs[n].cies[k].fdes[j].fragment.id;
      && FoundAt(out, fde, m, l)
      && SameCie(out.cies[m], c) && out.cies[m].fdes[l].cie == out.cies[m].fragment.id
      && forall m', l' :: FoundAt(out, fde, m', l') ==> m' == m && l' == l
  {
    MergesAreExact(inputs);
    var out, c := MergedAll(inputs), inputs[n].cies[k];
    var fde := c.fdes[j].fragment.id;
    var b := BindingsOf(c)[j];
    BindingIn(inputs[n].cies, b);
    AllBindingsIn(inputs, n, b);
    BindingIn(out.cies, b);
    m, l :| 0 <= m < |out.cies| && 0 <= l < |out.cies[m].fdes| && BindingsOf(out.cies[m])[l] == b;
    assert Owned(out.cies[m]);
    forall m', l' | FoundAt(out, fde, m', l') ensures m' == m && l' == l {
      FdeInOneCie(out, m, l, m', l');
    }
  }

  /** The bytes are not compared: two CIEs without an augmentation string are equal, whatever their alignment factors,
      so the second one's FDEs move to the first. */
  lemma DifferentCiesMerged(a: Cie, b: Cie)
    requires Distinct(GroupOf(a) + GroupOf(b)) && Owned(a) && Owned(b) && |b.fdes| > 0
    requires SameCie(a, b) && b.mergeable && a.fragment.bytes != b.fragment.bytes
    ensures var inputs := [Frame(GroupOf(a), [a]), Frame(GroupOf(b), [b])];
      MergedAll(inputs).cies == [a.(fdes := a.fdes + Reparented(b.fdes, a.fragment.id))]
  {
    var inputs := [Frame(GroupOf(a), [a]), Frame(GroupOf(b), [b])];
    assert inputs[..1] == [inputs[0]] && inputs[..1][..0] == [];
    assert MovedAll(Frame([], []), [a]) == Moved(Frame([], []), a) by {
      assert [a][..0] == [];
    }
    var first := MergedAll(inputs[..1]);
    assert first == Merged(MergedAll(inputs[..1][..0]), inputs[0]) == Moved(Frame([], []), a);
    assert first.cies == [a];
    assert FindCie([a], b) == 0 by {
      assert FindCie([a][..0], b) == 0;
    }
    assert MovedAll(first, [b]) == Moved(first, b) by {
      assert [b][..0] == [];
    }
  }
}
