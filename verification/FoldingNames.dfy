/** What the relocations of folded sections say, in terms of the relocations and their symbols alone. */
module FoldingNames {
  import opened CodeFolding
  import opened FoldingCongruence
  import opened FoldingPasses
  import opened SelfReferences

  /** A call of the function itself. */
  predicate IsRecursive(own: nat, s: RelocSymbol) {
    s.isFunction && s.def == InCandidate(own)
  }

  /** The symbol stays what it is, whatever is folded: it lies in no candidate, or another definition may take its
      place. */
  predicate IsNamed(own: nat, s: RelocSymbol) {
    !IsRecursive(own, s) && (s.preemptible || !s.def.InCandidate?)
  }

  /** Two symbols are one by name. The name of a local symbol counts in its own object only. */
  predicate SameName(a: RelocSymbol, b: RelocSymbol) {
    && a.name == b.name
    && (a.isLocal && b.isLocal ==> a.owner == b.owner)
    && (a.isLocal != b.isLocal ==> (if a.isLocal then a.owner else b.owner) == "")
  }

  /** The candidates that the other relocations refer to, in order. */
  function Callees(own: nat, relocs: seq<Reloc>): seq<nat> {
    if |relocs| == 0 then []
    else
      var s := relocs[|relocs| - 1].symbol;
      Callees(own, relocs[..|relocs| - 1])
      + if !IsRecursive(own, s) && !IsNamed(own, s) && s.def.InCandidate? then [s.def.index] else []
  }

  lemma {:induction false} VariablesAreCallees(own: nat, relocs: seq<Reloc>)
    ensures Variables(own, relocs) == Callees(own, relocs)
  {
    if |relocs| > 0 {
      VariablesAreCallees(own, relocs[..|relocs| - 1]);
    }
  }

  /** The relocations at place `p` of two sections agree: in what they do, in being recursive or naming a symbol, and
      in the symbol named. */
  predicate Agree(i: nat, a: Reloc, k: nat, b: Reloc) {
    && a.info == b.info
    && (IsNamed(i, a.symbol) <==> IsNamed(k, b.symbol))
    && (IsNamed(i, a.symbol) ==> SameName(a.symbol, b.symbol))
  }

  /** Congruent sections have the same text, relocations that agree place by place, and congruent callees, one by one.
      */
  lemma CongruentAgree(prog: Program, i: nat, k: nat)
    requires Congruent(prog, i, k)
    ensures i < |prog| && k < |prog| && prog[i].text == prog[k].text && |prog[i].relocs| == |prog[k].relocs|
    ensures forall p :: 0 <= p < |prog[i].relocs| ==> Agree(i, prog[i].relocs[p], k, prog[k].relocs[p])
    ensures var c, d := Callees(i, prog[i].relocs), Callees(k, prog[k].relocs);
      |c| == |d| && forall j :: 0 <= j < |c| ==> Congruent(prog, c[j], d[j])
  {
    hide Congruent;
    CongruentInRange(prog, i, k);
    CongruentExactly(prog, i, k);
    var a, b := Constant(i, prog[i]), Constant(k, prog[k]);
    assert a[0] == b[0] && a[1..] == b[1..];
    TokensDecode(i, prog[i].relocs, k, prog[k].relocs);
    VariablesAreCallees(i, prog[i].relocs);
    VariablesAreCallees(k, prog[k].relocs);
  }

  /** A section is folded onto one with the same text, and with relocations of the same kinds at the same places; what
      is named there has the same name, in the same object if it is local. */
  lemma FoldedNamesAgree(prog: Program, crc: Content -> int, iterations: nat, i: nat, p: nat)
    requires i < |prog| && p < |prog[i].relocs|
    ensures var k := Folded(prog, crc, Unfolded(|prog|), iterations)[i];
      && k < |prog| && prog[k].text == prog[i].text && |prog[k].relocs| == |prog[i].relocs|
      && Congruent(prog, i, k)
      && var a, b := prog[i].relocs[p], prog[k].relocs[p];
        && a.info == b.info
        && (IsNamed(i, a.symbol) <==> IsNamed(k, b.symbol))
        && (IsNamed(i, a.symbol) ==> SameName(a.symbol, b.symbol))
  {
    hide Folded, Unfolded, Congruent;
    FoldsOnlyCongruent(prog, crc, iterations, i);
    CongruentAgree(prog, i, Folded(prog, crc, Unfolded(|prog|), iterations)[i]);
  }

  /** Two relocations of the candidates `i` and `k` say the same: both are recursive, or refer to one candidate, or
      name one symbol. */
  predicate SayTheSame(i: nat, a: Reloc, k: nat, b: Reloc) {
    && a.info == b.info
    && (IsRecursive(i, a.symbol) <==> IsRecursive(k, b.symbol))
    && (IsNamed(i, a.symbol) <==> IsNamed(k, b.symbol))
    && (IsNamed(i, a.symbol) ==> SameName(a.symbol, b.symbol))
    && (!IsRecursive(i, a.symbol) && !IsNamed(i, a.symbol) ==> a.symbol.def == b.symbol.def)
  }

  /** Two candidates with the same text, whose relocations say the same. */
  predicate SayTheSameAll(prog: Program, i: nat, k: nat) {
    && i < k < |prog| && prog[i].text == prog[k].text && |prog[i].relocs| == |prog[k].relocs|
    && forall p :: 0 <= p < |prog[i].relocs| ==> SayTheSame(i, prog[i].relocs[p], k, prog[k].relocs[p])
  }

  lemma {:induction false} SameTokens(i: nat, a: seq<Reloc>, k: nat, b: seq<Reloc>)
    requires |a| == |b| && forall p :: 0 <= p < |a| ==> SayTheSame(i, a[p], k, b[p])
    ensures Tokens(i, a) == Tokens(k, b) && Variables(i, a) == Variables(k, b)
  {
    if |a| > 0 {
      var n := |a| - 1;
      SameTokens(i, a[..n], k, b[..n]);
      assert SayTheSame(i, a[n], k, b[n]);
    }
  }

  /** Folding does not miss what it is for: with a checksum that tells contents apart, something is folded as soon as
      there are two such candidates. */
  lemma AlikeAreFolded(prog: Program, crc: Content -> int, iterations: nat, i: nat, k: nat)
    requires TellsApart(crc, prog) && iterations > 0 && SayTheSameAll(prog, i, k)
    ensures exists j :: 0 <= j < |prog| && Folded(prog, crc, Unfolded(|prog|), iterations)[j] < j
  {
    hide Folded, TellsApart, Unfolded;
    SameTokens(i, prog[i].relocs, k, prog[k].relocs);
    assert AreCopies(prog, i, k);
    StopsEarlyExactly(prog, crc, iterations);
  }
}
