/** What folding means for the code itself. The contents that are compared leave out which relocations refer to the
    section they are in, so equal contents may hide a difference. */
module SelfReferences {
  import opened Options
  import opened CodeFolding
  import opened FoldingCongruence

  /** A section as it behaves, to a certain depth: every relocation with what it refers to. */
  datatype Behaviour = Unseen | Seen(text: string, references: seq<Reference>)

  datatype Reference =
    | ToSection(info: RelocInfo, callee: Behaviour)
    | ToName(info: RelocInfo, name: string, owner: string)

  ghost function BehaviourOf(prog: Program, i: nat, depth: nat): Behaviour
    requires i < |prog|
    decreases depth
  {
    if depth == 0 then Unseen
    else
      var relocs := prog[i].relocs;
      Seen(prog[i].text,
           seq(|relocs|, p requires 0 <= p < |relocs| =>
             match RoleOf(i, relocs[p].symbol)
             case SelfReference => ToSection(relocs[p].info, BehaviourOf(prog, i, depth - 1))
             case Variable(target) => ToSection(relocs[p].info, BehaviourOf(prog, target, depth - 1))
             case Fixed(name, owner) => ToName(relocs[p].info, name, owner)))
  }

  ghost predicate BehaveAlike(prog: Program, i: nat, k: nat) {
    i < |prog| && k < |prog| && forall d: nat :: BehaviourOf(prog, i, d) == BehaviourOf(prog, k, d)
  }

  /** Position `p` plays the same part in both lists. */
  ghost predicate SameRole(i: nat, a: Reloc, k: nat, b: Reloc) {
    && a.info == b.info
    && match RoleOf(i, a.symbol)
       case SelfReference => RoleOf(k, b.symbol).SelfReference?
       case Variable(_) => RoleOf(k, b.symbol).Variable?
       case Fixed(name, owner) => RoleOf(k, b.symbol) == Fixed(name, owner)
  }

  predicate SameSelfReferences(prog: Program, i: nat, k: nat)
    requires i < |prog| && k < |prog|
  {
    && |prog[i].relocs| == |prog[k].relocs|
    && forall p :: 0 <= p < |prog[i].relocs| ==>
         (RoleOf(i, prog[i].relocs[p].symbol).SelfReference? <==> RoleOf(k, prog[k].relocs[p].symbol).SelfReference?)
  }

  /** Candidates with the same constant content and equally many variable relocations refer to themselves in the same
      places. */
  predicate SelfReferencesShow(prog: Program) {
    forall i, k ::
      0 <= i < |prog| && 0 <= k < |prog|
      && Constant(i, prog[i]) == Constant(k, prog[k]) && |VarsOf(prog, i)| == |VarsOf(prog, k)|
      ==> SameSelfReferences(prog, i, k)
  }

  /** The tokens determine the relocations' information and the fixed names. */
  lemma {:induction false} TokensDecode(i: nat, a: seq<Reloc>, k: nat, b: seq<Reloc>)
    requires Tokens(i, a) == Tokens(k, b)
    ensures |a| == |b|
    ensures forall p :: 0 <= p < |a| ==> a[p].info == b[p].info
    ensures forall p :: 0 <= p < |a| ==>
      var ra, rb := RoleOf(i, a[p].symbol), RoleOf(k, b[p].symbol);
      (ra.Fixed? <==> rb.Fixed?) && (ra.Fixed? ==> ra == rb)
  {
    if |a| > 0 && |b| > 0 {
      var m, n := |a| - 1, |b| - 1;
      var ta, tb := Tokens(i, a), Tokens(k, b);
      var ra, rb := RoleOf(i, a[m].symbol), RoleOf(k, b[n].symbol);
      assert ra.Fixed? <==> ta[|ta| - 1].Name?;
      assert rb.Fixed? <==> tb[|tb| - 1].Name?;
      var cut := if ra.Fixed? then 2 else 1;
      assert ta[..|ta| - cut] == Tokens(i, a[..m]) && tb[..|tb| - cut] == Tokens(k, b[..n]);
      assert ta[|ta| - cut] == Info(a[m].info) && tb[|tb| - cut] == Info(b[n].info);
      TokensDecode(i, a[..m], k, b[..n]);
      forall p | 0 <= p < |a|
        ensures a[p].info == b[p].info
        ensures var ra, rb := RoleOf(i, a[p].symbol), RoleOf(k, b[p].symbol);
          (ra.Fixed? <==> rb.Fixed?) && (ra.Fixed? ==> ra == rb)
      {
        assert p < m ==> a[p] == a[..m][p] && b[p] == b[..n][p];
      }
    }
  }

  /** The variable at position `p` is as far down the list of variables as there are variables before it. */
  lemma {:induction false} VariableAt(i: nat, relocs: seq<Reloc>, p: nat)
    requires p < |relocs| && RoleOf(i, relocs[p].symbol).Variable?
    ensures |Variables(i, relocs[..p])| < |Variables(i, relocs)|
    ensures Variables(i, relocs)[|Variables(i, relocs[..p])|] == RoleOf(i, relocs[p].symbol).target
  {
    var n := |relocs| - 1;
    if p < n {
      VariableAt(i, relocs[..n], p);
      assert relocs[..n][..p] == relocs[..p];
    }
  }

  lemma {:induction false} EquallyManyVariables(i: nat, a: seq<Reloc>, k: nat, b: seq<Reloc>)
    requires |a| == |b| && forall p :: 0 <= p < |a| ==> SameRole(i, a[p], k, b[p])
    ensures |Variables(i, a)| == |Variables(k, b)|
  {
    if |a| > 0 {
      var n := |a| - 1;
      EquallyManyVariables(i, a[..n], k, b[..n]);
      assert SameRole(i, a[n], k, b[n]);
    }
  }

  /** Congruent candidates refer to themselves in the same places. */
  ghost predicate SelfReferencesAgree(prog: Program) {
    forall i, k :: Congruent(prog, i, k) ==> SameSelfReferences(prog, i, k)
  }

  /** This asks for less than that the contents show the self-references. */
  lemma ShownAgree(prog: Program)
    requires SelfReferencesShow(prog)
    ensures SelfReferencesAgree(prog)
  {
    hide Congruent, Constant;
    forall i: nat, k: nat | Congruent(prog, i, k) ensures i < |prog| && k < |prog| && SameSelfReferences(prog, i, k) {
      CongruentInRange(prog, i, k);
      CongruentExactly(prog, i, k);
    }
  }

  lemma CongruentInRange(prog: Program, i: nat, k: nat)
    requires Congruent(prog, i, k)
    ensures i < |prog| && k < |prog|
  {}

  lemma SameRoles(prog: Program, i: nat, k: nat)
    requires i < |prog| && k < |prog| && Constant(i, prog[i]) == Constant(k, prog[k]) && SameSelfReferences(prog, i, k)
    ensures prog[i].text == prog[k].text && |prog[i].relocs| == |prog[k].relocs|
    ensures forall p :: 0 <= p < |prog[i].relocs| ==> SameRole(i, prog[i].relocs[p], k, prog[k].relocs[p])
  {
    var a, b := Constant(i, prog[i]), Constant(k, prog[k]);
    assert a[0] == b[0] && a[1..] == b[1..];
    TokensDecode(i, prog[i].relocs, k, prog[k].relocs);
  }

  lemma TwinsSameRoles(prog: Program, i: nat, k: nat)
    requires SelfReferencesShow(prog) && Twins(prog, i, k)
    ensures prog[i].text == prog[k].text && |prog[i].relocs| == |prog[k].relocs|
    ensures forall p :: 0 <= p < |prog[i].relocs| ==> SameRole(i, prog[i].relocs[p], k, prog[k].relocs[p])
  {
    var a, b := Unfold(prog, i, 1), Unfold(prog, k, 1);
    assert |a.children| == |b.children|;
    SameRoles(prog, i, k);
  }

  lemma TwinVariables(prog: Program, i: nat, k: nat, j: nat)
    requires Twins(prog, i, k) && j < |VarsOf(prog, i)|
    ensures j < |VarsOf(prog, k)| && Twins(prog, VarsOf(prog, i)[j], VarsOf(prog, k)[j])
  {
    assert |Unfold(prog, i, 1).children| == |Unfold(prog, k, 1).children|;
    forall d: nat ensures Unfold(prog, VarsOf(prog, i)[j], d) == Unfold(prog, VarsOf(prog, k)[j], d) {
      assert Unfold(prog, i, d + 1).children[j] == Unfold(prog, k, d + 1).children[j];
    }
  }

  /** Where the contents show the self-references, sections that cannot be told apart behave alike. */
  lemma {:induction false} TwinsBehaveAlike(prog: Program, i: nat, k: nat, d: nat)
    requires SelfReferencesShow(prog) && Twins(prog, i, k)
    ensures BehaviourOf(prog, i, d) == BehaviourOf(prog, k, d)
    decreases d
  {
    if d > 0 {
      hide Twins, SelfReferencesShow;
      var a, b := prog[i].relocs, prog[k].relocs;
      TwinsSameRoles(prog, i, k);
      forall p | 0 <= p < |a|
        ensures BehaviourOf(prog, i, d).references[p] == BehaviourOf(prog, k, d).references[p]
      {
        assert SameRole(i, a[p], k, b[p]);
        match RoleOf(i, a[p].symbol)
        case SelfReference => TwinsBehaveAlike(prog, i, k, d - 1);
        case Variable(_) =>
          VariableAt(i, a, p);
          VariableAt(k, b, p);
          EquallyManyVariables(i, a[..p], k, b[..p]);
          var j := |Variables(i, a[..p])|;
          TwinVariables(prog, i, k, j);
          TwinsBehaveAlike(prog, VarsOf(prog, i)[j], VarsOf(prog, k)[j], d - 1);
        case Fixed(_, _) =>
      }
      assert BehaviourOf(prog, i, d).references == BehaviourOf(prog, k, d).references;
    }
  }

  /** Congruent sections, which are all that folding joins, behave alike if they agree on their self-references. */
  lemma {:induction false} CongruentBehaveAlike(prog: Program, i: nat, k: nat, d: nat)
    requires SelfReferencesAgree(prog) && Congruent(prog, i, k)
    ensures BehaviourOf(prog, i, d) == BehaviourOf(prog, k, d)
    decreases d
  {
    if d > 0 {
      CongruentExactly(prog, i, k);
      assert SameSelfReferences(prog, i, k);
      hide Congruent, SelfReferencesAgree;
      var a, b := prog[i].relocs, prog[k].relocs;
      SameRoles(prog, i, k);
      forall p | 0 <= p < |a|
        ensures BehaviourOf(prog, i, d).references[p] == BehaviourOf(prog, k, d).references[p]
      {
        assert SameRole(i, a[p], k, b[p]);
        match RoleOf(i, a[p].symbol)
        case SelfReference => CongruentBehaveAlike(prog, i, k, d - 1);
        case Variable(_) =>
          VariableAt(i, a, p);
          VariableAt(k, b, p);
          EquallyManyVariables(i, a[..p], k, b[..p]);
          var j := |Variables(i, a[..p])|;
          CongruentBehaveAlike(prog, VarsOf(prog, i)[j], VarsOf(prog, k)[j], d - 1);
        case Fixed(_, _) =>
      }
      assert BehaviourOf(prog, i, d).references == BehaviourOf(prog, k, d).references;
    }
  }

  /** Every section is then folded onto one that behaves like it, in any number of passes. */
  lemma FoldingKeepsBehaviour(prog: Program, crc: Content -> int, iterations: nat, i: nat)
    requires SelfReferencesAgree(prog) && i < |prog|
    ensures BehaveAlike(prog, i, Folded(prog, crc, Unfolded(|prog|), iterations)[i])
  {
    hide SelfReferencesAgree;
    FoldsOnlyCongruent(prog, crc, iterations, i);
    var k := Folded(prog, crc, Unfolded(|prog|), iterations)[i];
    forall d: nat ensures BehaviourOf(prog, i, d) == BehaviourOf(prog, k, d) {
      CongruentBehaveAlike(prog, i, k, d);
    }
  }

  // ----- when folding keeps behaviour, exactly -----

  /** What the relocation refers to: the section itself, a candidate, or nothing that is folded. */
  function Callee(prog: Program, i: nat, p: nat): (c: Option<nat>)
    requires i < |prog| && p < |prog[i].relocs|
    ensures c.Some? ==> c.value < |prog|
  {
    match RoleOf(i, prog[i].relocs[p].symbol)
    case SelfReference => Some(i)
    case Variable(target) => Some(target)
    case Fixed(_, _) => None
  }

  /** The two sections look the same from outside: texts, relocations and fixed names, whichever sections they call. */
  ghost predicate LookAlike(prog: Program, i: nat, k: nat) {
    && i < |prog| && k < |prog| && prog[i].text == prog[k].text && |prog[i].relocs| == |prog[k].relocs|
    && forall p: nat :: p < |prog[i].relocs| ==> SameOutside(prog, i, k, p)
  }

  ghost predicate SameOutside(prog: Program, i: nat, k: nat, p: nat)
    requires i < |prog| && k < |prog| && p < |prog[i].relocs| && p < |prog[k].relocs|
  {
    var a, b := prog[i].relocs[p], prog[k].relocs[p];
    var ra, rb := RoleOf(i, a.symbol), RoleOf(k, b.symbol);
    a.info == b.info && (ra.Fixed? <==> rb.Fixed?) && (ra.Fixed? ==> ra == rb)
  }

  /** A matching of sections: matched ones look alike, and what they call at the same place is matched again. */
  ghost predicate Matching(prog: Program, pairs: set<(nat, nat)>) {
    forall pair :: pair in pairs ==> LookAlike(prog, pair.0, pair.1) && CalleesIn(prog, pairs, pair.0, pair.1)
  }

  ghost predicate CalleesIn(prog: Program, pairs: set<(nat, nat)>, i: nat, k: nat)
    requires LookAlike(prog, i, k)
  {
    forall p: nat :: p < |prog[i].relocs| && Callee(prog, i, p).Some? ==>
      Callee(prog, k, p).Some? && (Callee(prog, i, p).value, Callee(prog, k, p).value) in pairs
  }

  lemma ReferenceOf(prog: Program, i: nat, p: nat, d: nat)
    requires i < |prog| && p < |prog[i].relocs|
    ensures |BehaviourOf(prog, i, d + 1).references| == |prog[i].relocs|
    ensures var r := prog[i].relocs[p];
      BehaviourOf(prog, i, d + 1).references[p]
      == if Callee(prog, i, p).Some? then ToSection(r.info, BehaviourOf(prog, Callee(prog, i, p).value, d))
         else ToName(r.info, RoleOf(i, r.symbol).name, RoleOf(i, r.symbol).owner)
  {}

  lemma {:induction false} MatchedBehaveAlike(prog: Program, pairs: set<(nat, nat)>, i: nat, k: nat, d: nat)
    requires Matching(prog, pairs) && (i, k) in pairs
    ensures i < |prog| && k < |prog| && BehaviourOf(prog, i, d) == BehaviourOf(prog, k, d)
    decreases d
  {
    assert LookAlike(prog, i, k) && CalleesIn(prog, pairs, i, k);
    if d > 0 {
      var a, b := BehaviourOf(prog, i, d), BehaviourOf(prog, k, d);
      forall p: nat | p < |prog[i].relocs| ensures a.references[p] == b.references[p] {
        ReferenceOf(prog, i, p, d - 1);
        ReferenceOf(prog, k, p, d - 1);
        assert SameOutside(prog, i, k, p);
        if Callee(prog, i, p).Some? {
          MatchedBehaveAlike(prog, pairs, Callee(prog, i, p).value, Callee(prog, k, p).value, d - 1);
        }
      }
      assert a.references == b.references;
    }
  }

  /** Sections that behave alike look alike, and so do the sections they call. */
  lemma AlikeMatches(prog: Program, i: nat, k: nat)
    requires BehaveAlike(prog, i, k)
    ensures LookAlike(prog, i, k)
    ensures forall p: nat :: p < |prog[i].relocs| && Callee(prog, i, p).Some? ==>
      Callee(prog, k, p).Some? && BehaveAlike(prog, Callee(prog, i, p).value, Callee(prog, k, p).value)
  {
    var a, b := BehaviourOf(prog, i, 1), BehaviourOf(prog, k, 1);
    assert a.text == b.text && |a.references| == |b.references|;
    forall p: nat | p < |prog[i].relocs| ensures SameOutside(prog, i, k, p) {
      ReferenceOf(prog, i, p, 0);
      ReferenceOf(prog, k, p, 0);
      assert a.references[p] == b.references[p];
    }
    forall p: nat | p < |prog[i].relocs| && Callee(prog, i, p).Some?
      ensures Callee(prog, k, p).Some? && BehaveAlike(prog, Callee(prog, i, p).value, Callee(prog, k, p).value)
    {
      assert SameOutside(prog, i, k, p);
      var x, y := Callee(prog, i, p).value, Callee(prog, k, p).value;
      forall d: nat ensures BehaviourOf(prog, x, d) == BehaviourOf(prog, y, d) {
        ReferenceOf(prog, i, p, d);
        ReferenceOf(prog, k, p, d);
        assert BehaviourOf(prog, i, d + 1).references[p] == BehaviourOf(prog, k, d + 1).references[p];
      }
    }
  }

  /** A map of kept sections keeps behaviour exactly if there is a matching that has every section with its kept one. */
  lemma KeepsBehaviourExactly(prog: Program, kept: seq<nat>)
    requires KeptMap(prog, kept)
    ensures (forall i: nat :: i < |prog| ==> BehaveAlike(prog, i, kept[i]))
       <==> exists pairs :: Matching(prog, pairs) && forall i: nat :: i < |prog| ==> (i, kept[i]) in pairs
  {
    if forall i: nat :: i < |prog| ==> BehaveAlike(prog, i, kept[i]) {
      var pairs := set i: nat, k: nat | i < |prog| && k < |prog| && BehaveAlike(prog, i, k) :: (i, k);
      forall pair | pair in pairs
        ensures LookAlike(prog, pair.0, pair.1) && CalleesIn(prog, pairs, pair.0, pair.1)
      {
        AlikeMatches(prog, pair.0, pair.1);
      }
      assert Matching(prog, pairs);
    }
    if pairs :| Matching(prog, pairs) && forall i: nat :: i < |prog| ==> (i, kept[i]) in pairs {
      forall i: nat | i < |prog| ensures BehaveAlike(prog, i, kept[i]) {
        assert (i, kept[i]) in pairs;
        forall d: nat ensures BehaviourOf(prog, i, d) == BehaviourOf(prog, kept[i], d) {
          MatchedBehaveAlike(prog, pairs, i, kept[i], d);
        }
      }
    }
  }

  /** Two sections with the same text, one calling itself and then a third, the other the third and then itself. */
  function Swapped(): (prog: Program)
    ensures |prog| == 3 && AllPlacesFit(prog)
  {
    [Candidate("callcall", [Call(0, 0), Call(4, 2)]), Candidate("callcall", [Call(0, 2), Call(4, 1)]),
      Candidate("leaf", [])]
  }

  /** They are folded whatever the checksum, although they behave differently. */
  lemma SwappedIsFolded(crc: Content -> int)
    ensures Folded(Swapped(), crc, Unfolded(3), 1)[1] == 0
    ensures !BehaveAlike(Swapped(), 1, 0)
  {
    var prog := Swapped();
    SwappedContents(Unfolded(3));
    var c := ContentOf(prog, Unfolded(3), 0);
    var p1 := PassUpTo(prog, crc, Unfolded(3), 1);
    assert p1.kept == Unfolded(3) && p1.contents == [c] && p1.firsts == map[crc(c) := 0];
    var p2 := PassUpTo(prog, crc, Unfolded(3), 2);
    assert p2.kept[1] == 0;
    var p3 := PassUpTo(prog, crc, Unfolded(3), 3);
    assert p3.kept[1] == 0;
    var a, b := BehaviourOf(prog, 1, 2), BehaviourOf(prog, 0, 2);
    assert RoleOf(0, Call(0, 0).symbol).SelfReference?;
    assert a.references[0].callee.text == "leaf" && b.references[0].callee.text == "callcall";
    assert |"leaf"| != |"callcall"|;
    assert Folded(prog, crc, Unfolded(3), 1) == p3.kept by {
      assert p3.matched ==> Folded(prog, crc, p3.kept, 0) == p3.kept;
    }
  }

  lemma SwappedContents(kept: seq<nat>)
    requires |kept| == 3
    ensures ContentOf(Swapped(), kept, 0) == ContentOf(Swapped(), kept, 1)
  {
    var r, s := [Call(0, 0), Call(4, 2)], [Call(0, 2), Call(4, 1)];
    assert r[..1] == [Call(0, 0)] && r[..1][..0] == [] && s[..1] == [Call(0, 2)] && s[..1][..0] == [];
    assert Variables(0, r[..1]) == [] && Variables(0, r) == [2];
    assert Variables(1, s[..1]) == [2] && Variables(1, s) == [2];
    assert Tokens(0, r[..1]) == [Info(RelocInfo(0, 0, 0, 0))] == Tokens(1, s[..1]);
  }
}
