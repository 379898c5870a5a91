/** Which sections folding can ever join: those that the least congruence of the program relates. */
module FoldingCongruence {
  import opened CodeFolding

  /** Classes of candidates such that those with the same content, up to the classes of what they refer to, are in one
      class. Candidates of one class have the same number. */
  ghost predicate IsCongruence(prog: Program, classes: seq<nat>) {
    && |classes| == |prog|
    && forall i: nat, k: nat ::
         i < |prog| && k < |prog| && ContentOf(prog, classes, i) == ContentOf(prog, classes, k) ==>
         classes[i] == classes[k]
  }

  /** Every congruence relates the two: they are related by the least one. */
  ghost predicate Congruent(prog: Program, i: nat, k: nat) {
    i < |prog| && k < |prog| && forall classes :: IsCongruence(prog, classes) ==> classes[i] == classes[k]
  }

  // ----- folding joins nothing else -----

  /** Every candidate is kept by one of its own class. */
  ghost predicate Respects(prog: Program, classes: seq<nat>, kept: seq<nat>) {
    && |classes| == |prog| && KeptMap(prog, kept)
    && forall i :: 0 <= i < |prog| ==> classes[kept[i]] == classes[i]
  }

  /** A content computed for `i` from some state of the kept map refers to the right classes. */
  ghost predicate RightClasses(prog: Program, classes: seq<nat>, i: nat, c: Content) {
    && i < |prog| == |classes| && c.constant == Constant(i, prog[i]) && |c.targets| == |VarsOf(prog, i)|
    && forall j :: 0 <= j < |c.targets| ==>
         c.targets[j] < |classes| && classes[c.targets[j]] == classes[VarsOf(prog, i)[j]]
  }

  lemma SameContentSameClass(prog: Program, classes: seq<nat>, i: nat, k: nat, c: Content)
    requires IsCongruence(prog, classes) && RightClasses(prog, classes, i, c) && RightClasses(prog, classes, k, c)
    ensures classes[i] == classes[k]
  {
    assert ContentOf(prog, classes, i).targets == ContentOf(prog, classes, k).targets;
  }

  ghost predicate RespectfulPass(prog: Program, classes: seq<nat>, p: Pass) {
    && ValidPass(prog, p) && Respects(prog, classes, p.kept)
    && forall x :: 0 <= x < |p.contents| ==> RightClasses(prog, classes, x, p.contents[x])
  }

  lemma AdvanceRespects(prog: Program, crc: Content -> int, classes: seq<nat>, p: Pass)
    requires IsCongruence(prog, classes) && RespectfulPass(prog, classes, p) && |p.contents| < |prog|
    ensures RespectfulPass(prog, classes, Advance(prog, crc, p))
  {
    hide IsCongruence;
    var i := |p.contents|;
    var c := ContentOf(prog, p.kept, i);
    assert RightClasses(prog, classes, i, c);
    var k := crc(c);
    if k in p.firsts && p.contents[p.firsts[k]] == c {
      SameContentSameClass(prog, classes, i, p.firsts[k], c);
    }
  }

  lemma {:induction false} PassRespects(prog: Program, crc: Content -> int, classes: seq<nat>, kept: seq<nat>, n: nat)
    requires IsCongruence(prog, classes) && Respects(prog, classes, kept) && n <= |prog|
    ensures RespectfulPass(prog, classes, PassUpTo(prog, crc, kept, n))
  {
    if n > 0 {
      PassRespects(prog, crc, classes, kept, n - 1);
      AdvanceRespects(prog, crc, classes, PassUpTo(prog, crc, kept, n - 1));
    }
  }

  lemma {:induction false} FoldedRespects(prog: Program, crc: Content -> int, classes: seq<nat>, kept: seq<nat>,
                                          iterations: nat)
    requires IsCongruence(prog, classes) && Respects(prog, classes, kept)
    ensures Respects(prog, classes, Folded(prog, crc, kept, iterations))
    decreases iterations
  {
    if iterations > 0 {
      PassRespects(prog, crc, classes, kept, |prog|);
      if WholePass(prog, crc, kept).matched {
        FoldedRespects(prog, crc, classes, WholePass(prog, crc, kept).kept, iterations - 1);
      }
    }
  }

  /** Whatever the checksum and however many passes, only congruent sections are folded. */
  lemma FoldsOnlyCongruent(prog: Program, crc: Content -> int, iterations: nat, i: nat)
    requires i < |prog|
    ensures Congruent(prog, i, Folded(prog, crc, Unfolded(|prog|), iterations)[i])
  {
    var k := Folded(prog, crc, Unfolded(|prog|), iterations)[i];
    assert Sound(prog, Unfolded(|prog|));
    FoldingIsSound(prog, crc, Unfolded(|prog|), iterations);
    forall classes | IsCongruence(prog, classes) ensures classes[i] == classes[k] {
      FoldedRespects(prog, crc, classes, Unfolded(|prog|), iterations);
    }
  }

  // ----- what congruent sections have in common -----

  /** An equivalence of the numbers below `n`. */
  ghost predicate Equivalence(r: (nat, nat) -> bool, n: nat) {
    && (forall i: nat {:trigger r(i, i)} :: i < n ==> r(i, i))
    && (forall i: nat, k: nat {:trigger r(i, k)} :: i < n && k < n && r(i, k) ==> r(k, i))
    && (forall i: nat, k: nat, m: nat {:trigger r(i, k), r(k, m)} ::
          i < n && k < n && m < n && r(i, k) && r(k, m) ==> r(i, m))
  }

  /** The first number that is equivalent to `i`, if `k` or one below is. */
  ghost function FirstOf(r: (nat, nat) -> bool, i: nat, k: nat): nat {
    if k > 0 && FirstOf(r, i, k - 1) < k then FirstOf(r, i, k - 1) else if r(k, i) then k else k + 1
  }

  lemma {:induction false} FirstOfIs(r: (nat, nat) -> bool, i: nat, k: nat)
    ensures FirstOf(r, i, k) <= k ==> r(FirstOf(r, i, k), i)
    ensures forall m: nat {:trigger r(m, i)} :: m < FirstOf(r, i, k) && m <= k ==> !r(m, i)
  {
    if k > 0 {
      FirstOfIs(r, i, k - 1);
    }
  }

  /** The classes of an equivalence. */
  lemma ClassesOf(r: (nat, nat) -> bool, n: nat) returns (classes: seq<nat>)
    requires Equivalence(r, n)
    ensures |classes| == n && forall i: nat, k: nat :: i < n && k < n ==> (classes[i] == classes[k] <==> r(i, k))
  {
    classes := seq(n, i requires 0 <= i < n => FirstOf(r, i, i));
    forall i: nat, k: nat | i < n && k < n ensures classes[i] == classes[k] <==> r(i, k) {
      FirstOfIs(r, i, i);
      FirstOfIs(r, k, k);
      assert r(i, i) && r(k, k);
      var a, b := classes[i], classes[k];
      assert a <= i && b <= k && r(a, i) && r(b, k);
      if a == b {
        assert r(i, a);
      }
      if r(i, k) {
        assert r(a, k) && r(k, i) && r(b, i);
      }
    }
  }

  /** Congruent sections cannot be told apart, so joining only those is the stronger promise. */
  lemma CongruentAreTwins(prog: Program, i: nat, k: nat)
    requires Congruent(prog, i, k)
    ensures Twins(prog, i, k)
  {
    hide Unfold;
    var twins := (a: nat, b: nat) => Twins(prog, a, b);
    var classes := ClassesOf(twins, |prog|);
    forall a: nat, b: nat | a < |prog| && b < |prog| && ContentOf(prog, classes, a) == ContentOf(prog, classes, b)
      ensures classes[a] == classes[b]
    {
      SameClassesMakeTwins(prog, classes, a, b);
      assert twins(a, b);
    }
    assert IsCongruence(prog, classes);
    assert twins(i, k);
  }

  lemma SameClassesMakeTwins(prog: Program, classes: seq<nat>, i: nat, k: nat)
    requires |classes| == |prog| && i < |prog| && k < |prog|
    requires forall a: nat, b: nat :: a < |prog| && b < |prog| && classes[a] == classes[b] ==> Twins(prog, a, b)
    requires ContentOf(prog, classes, i) == ContentOf(prog, classes, k)
    ensures Twins(prog, i, k)
  {
    hide Twins;
    var vi, vk := VarsOf(prog, i), VarsOf(prog, k);
    assert |vi| == |ContentOf(prog, classes, i).targets| == |vk|;
    forall j | 0 <= j < |vi| ensures Twins(prog, vi[j], vk[j]) {
      assert ContentOf(prog, classes, i).targets[j] == ContentOf(prog, classes, k).targets[j];
    }
    TwinsAbove(prog, i, k);
  }

  lemma TwinsAbove(prog: Program, i: nat, k: nat)
    requires i < |prog| && k < |prog| && Constant(i, prog[i]) == Constant(k, prog[k])
    requires |VarsOf(prog, i)| == |VarsOf(prog, k)|
    requires forall j :: 0 <= j < |VarsOf(prog, i)| ==> Twins(prog, VarsOf(prog, i)[j], VarsOf(prog, k)[j])
    ensures Twins(prog, i, k)
  {
    forall d: nat ensures Unfold(prog, i, d) == Unfold(prog, k, d) {
      if d > 0 {
        assert Unfold(prog, i, d).children == Unfold(prog, k, d).children;
      }
    }
  }

  /** The same constant content, and congruent sections referred to. */
  ghost predicate CongruentBelow(prog: Program, i: nat, k: nat) {
    && i < |prog| && k < |prog| && Constant(i, prog[i]) == Constant(k, prog[k])
    && |VarsOf(prog, i)| == |VarsOf(prog, k)|
    && forall j :: 0 <= j < |VarsOf(prog, i)| ==> Congruent(prog, VarsOf(prog, i)[j], VarsOf(prog, k)[j])
  }

  lemma BelowMakesCongruent(prog: Program, i: nat, k: nat)
    requires CongruentBelow(prog, i, k)
    ensures Congruent(prog, i, k)
  {
    forall classes | IsCongruence(prog, classes) ensures classes[i] == classes[k] {
      assert ContentOf(prog, classes, i).targets == ContentOf(prog, classes, k).targets;
    }
  }

  /** Two sections are congruent exactly if they have the same constant content and refer to congruent sections. */
  lemma CongruentExactly(prog: Program, i: nat, k: nat)
    requires i < |prog| && k < |prog|
    ensures Congruent(prog, i, k) <==> CongruentBelow(prog, i, k)
  {
    if CongruentBelow(prog, i, k) {
      BelowMakesCongruent(prog, i, k);
    }
    if Congruent(prog, i, k) {
      hide Congruent;
      var below := (a: nat, b: nat) => CongruentBelow(prog, a, b);
      BelowIsEquivalence(prog, below);
      var classes := ClassesOf(below, |prog|);
      forall a: nat, b: nat | a < |prog| && b < |prog| && ContentOf(prog, classes, a) == ContentOf(prog, classes, b)
        ensures classes[a] == classes[b]
      {
        BelowAbove(prog, classes, a, b);
        assert below(a, b);
      }
      assert IsCongruence(prog, classes);
      assert classes[i] == classes[k] by { Relates(prog, classes, i, k); }
      assert below(i, k);
    }
  }

  lemma Relates(prog: Program, classes: seq<nat>, i: nat, k: nat)
    requires Congruent(prog, i, k) && IsCongruence(prog, classes)
    ensures classes[i] == classes[k]
  {}

  lemma BelowAbove(prog: Program, classes: seq<nat>, i: nat, k: nat)
    requires |classes| == |prog| && i < |prog| && k < |prog|
    requires forall a: nat, b: nat :: a < |prog| && b < |prog| && classes[a] == classes[b] ==>
      CongruentBelow(prog, a, b)
    requires ContentOf(prog, classes, i) == ContentOf(prog, classes, k)
    ensures CongruentBelow(prog, i, k)
  {
    hide Congruent;
    var vi, vk := VarsOf(prog, i), VarsOf(prog, k);
    assert |vi| == |ContentOf(prog, classes, i).targets| == |vk|;
    forall j | 0 <= j < |vi| ensures Congruent(prog, vi[j], vk[j]) {
      assert ContentOf(prog, classes, i).targets[j] == ContentOf(prog, classes, k).targets[j];
      BelowMakesCongruent(prog, vi[j], vk[j]);
    }
  }

  lemma BelowIsEquivalence(prog: Program, below: (nat, nat) -> bool)
    requires forall a: nat, b: nat :: below(a, b) <==> CongruentBelow(prog, a, b)
    ensures Equivalence(below, |prog|)
  {
    hide Constant;
    forall a: nat, b: nat | a < |prog| && b < |prog| && below(a, b) ensures below(b, a) {
      assert CongruentBelow(prog, a, b);
    }
    forall a: nat, b: nat, c: nat | a < |prog| && b < |prog| && c < |prog| && below(a, b) && below(b, c)
      ensures below(a, c)
    {
      assert CongruentBelow(prog, a, b) && CongruentBelow(prog, b, c);
    }
    forall a: nat | a < |prog| ensures below(a, a) {
      assert CongruentBelow(prog, a, a);
    }
  }

  /** Two sections of the same text that call each other. */
  function Mutual(): (prog: Program)
    ensures |prog| == 2
  {
    [Candidate("call", [Call(0, 1)]), Candidate("call", [Call(0, 0)])]
  }

  /** They cannot be told apart, but they are not congruent: no folding joins them. */
  lemma MutualAreNotCongruent()
    ensures Twins(Mutual(), 0, 1) && !Congruent(Mutual(), 0, 1)
  {
    var prog := Mutual();
    MutualContents();
    forall d: nat ensures Unfold(prog, 0, d) == Unfold(prog, 1, d) {
      MutualUnfold(d);
    }
    assert ContentOf(prog, [0, 1], 0).targets == [1] && ContentOf(prog, [0, 1], 1).targets == [0];
    assert ContentOf(prog, [0, 1], 0).targets[0] != ContentOf(prog, [0, 1], 1).targets[0];
    assert IsCongruence(prog, [0, 1]);
  }

  lemma MutualContents()
    ensures VarsOf(Mutual(), 0) == [1] && VarsOf(Mutual(), 1) == [0]
    ensures Constant(0, Mutual()[0]) == Constant(1, Mutual()[1])
  {
    assert [Call(0, 1)][..0] == [] && [Call(0, 0)][..0] == [];
  }

  lemma {:induction false} MutualUnfold(d: nat)
    ensures Unfold(Mutual(), 0, d) == Unfold(Mutual(), 1, d)
  {
    if d > 0 {
      MutualContents();
      MutualUnfold(d - 1);
      assert Unfold(Mutual(), 0, d).children == Unfold(Mutual(), 1, d).children;
    }
  }
}
