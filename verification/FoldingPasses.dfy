/** Passes with a checksum that tells the contents of a program apart, and when passes stop matching. */
module FoldingPasses {
  import opened CodeFolding

  /** A content that some state of the kept map gives a candidate. */
  ghost predicate Computed(prog: Program, i: nat, c: Content) {
    i < |prog| && exists kept :: KeptMap(prog, kept) && c == ContentOf(prog, kept, i)
  }

  /** The checksum of different contents of the program's candidates differs. */
  ghost predicate TellsApart(crc: Content -> int, prog: Program) {
    forall i, k, c, d :: Computed(prog, i, c) && Computed(prog, k, d) && crc(c) == crc(d) ==> c == d
  }

  /** The checksums of the candidates so far, each with the first candidate that has it. */
  ghost predicate Tidy(prog: Program, crc: Content -> int, p: Pass) {
    && ValidPass(prog, p) && KeptMap(prog, p.kept)
    && (forall j :: 0 <= j < |p.contents| ==> Computed(prog, j, p.contents[j]) && crc(p.contents[j]) in p.firsts)
    && (forall k :: k in p.firsts ==> IsFirst(p.contents, p.firsts[k]) && crc(p.contents[p.firsts[k]]) == k)
  }

  ghost predicate IsFirst(contents: seq<Content>, f: nat) {
    f < |contents| && forall j :: 0 <= j < f ==> contents[j] != contents[f]
  }

  lemma TidySize(prog: Program, crc: Content -> int, p: Pass)
    requires Tidy(prog, crc, p)
    ensures |p.kept| == |prog| && ValidPass(prog, p)
  {}

  /** With such a checksum, a candidate is folded onto the first one with an equal content. */
  lemma AdvanceToFirst(prog: Program, crc: Content -> int, p: Pass)
    requires TellsApart(crc, prog) && Tidy(prog, crc, p) && |p.contents| < |prog|
    ensures var n, r, c := |p.contents|, Advance(prog, crc, p), ContentOf(prog, p.kept, |p.contents|);
      && Tidy(prog, crc, r) && r.contents == p.contents + [c]
      && (c !in p.contents ==> r.kept == p.kept && r.matched == p.matched)
      && (c in p.contents ==> r.matched && exists f: nat ::
        IsFirst(p.contents, f) && p.contents[f] == c && r.kept == p.kept[n := f])
  {
    hide ContentOf, KeptMap;
    var n, c := |p.contents|, ContentOf(prog, p.kept, |p.contents|);
    var r := Advance(prog, crc, p);
    KeptStaysMap(prog, crc, p);
    assert Computed(prog, n, c);
    if crc(c) in p.firsts {
      var f := p.firsts[crc(c)];
      assert IsFirst(p.contents, f) && Computed(prog, f, p.contents[f]) && p.contents[f] == c;
    } else {
      assert forall j :: 0 <= j < n ==> p.contents[j] != c;
      assert IsFirst(r.contents, n);
    }
    forall k | k in p.firsts ensures IsFirst(r.contents, p.firsts[k]) {
      assert IsFirst(p.contents, p.firsts[k]);
    }
  }

  lemma KeptStaysMap(prog: Program, crc: Content -> int, p: Pass)
    requires ValidPass(prog, p) && KeptMap(prog, p.kept) && |p.contents| < |prog|
    ensures KeptMap(prog, Advance(prog, crc, p).kept)
  {
    hide ContentOf;
  }

  /** The same for one candidate, when it is known which earlier ones have its content: the `f`-th, or none. */
  lemma AdvanceOnto(prog: Program, crc: Content -> int, p: Pass, f: nat)
    requires TellsApart(crc, prog) && Tidy(prog, crc, p) && |p.contents| < |prog| && f <= |p.contents|
    requires f < |p.contents| ==> p.contents[f] == ContentOf(prog, p.kept, |p.contents|)
    requires forall j :: 0 <= j < f ==> p.contents[j] != ContentOf(prog, p.kept, |p.contents|)
    ensures var n, r := |p.contents|, Advance(prog, crc, p);
      && Tidy(prog, crc, r) && r.contents == p.contents + [ContentOf(prog, p.kept, n)]
      && r.kept == (if f < n then p.kept[n := f] else p.kept) && r.matched == (p.matched || f < n)
  {
    hide ContentOf, KeptMap, Advance, Tidy;
    TidySize(prog, crc, p);
    var n, c := |p.contents|, ContentOf(prog, p.kept, |p.contents|);
    AdvanceToFirst(prog, crc, p);
    if f < n {
      assert p.contents[f] in p.contents;
      var g: nat :| IsFirst(p.contents, g) && p.contents[g] == c && Advance(prog, crc, p).kept == p.kept[n := g];
    }
  }

  /** Two of the first `n` candidates have the same content under the kept map. */
  ghost predicate Repeats(prog: Program, kept: seq<nat>, n: nat)
    requires |kept| == |prog| && n <= |prog|
  {
    exists i: nat, k: nat :: i < k < n && ContentOf(prog, kept, i) == ContentOf(prog, kept, k)
  }

  lemma RepeatsNext(prog: Program, kept: seq<nat>, n: nat)
    requires |kept| == |prog| && n < |prog|
    ensures Repeats(prog, kept, n + 1)
       <==> Repeats(prog, kept, n) || exists i: nat :: i < n && ContentOf(prog, kept, i) == ContentOf(prog, kept, n)
  {
    hide ContentOf;
  }

  /** The contents so far are those of a map that has not changed yet. */
  ghost predicate Unchanged(prog: Program, kept: seq<nat>, p: Pass)
    requires |kept| == |prog| && |p.contents| <= |prog|
  {
    p.kept == kept && forall j :: 0 <= j < |p.contents| ==> p.contents[j] == ContentOf(prog, kept, j)
  }

  /** A pass matches something exactly if two contents are equal under the map that it starts with, although the map
      changes as soon as something matches. */
  lemma {:induction false} MatchesExactly(prog: Program, crc: Content -> int, kept: seq<nat>, n: nat)
    requires TellsApart(crc, prog) && KeptMap(prog, kept) && n <= |prog|
    ensures Tidy(prog, crc, PassUpTo(prog, crc, kept, n))
    ensures var p := PassUpTo(prog, crc, kept, n);
      (p.matched <==> Repeats(prog, kept, n)) && (!p.matched ==> Unchanged(prog, kept, p))
  {
    hide ContentOf, Advance, TellsApart, Tidy, Repeats;
    if n == 0 {
      StartTidy(prog, crc, kept);
    } else {
      var p := PassUpTo(prog, crc, kept, n - 1);
      MatchesExactly(prog, crc, kept, n - 1);
      AdvanceToFirst(prog, crc, p);
      RepeatsNext(prog, kept, n - 1);
      if !p.matched {
        var c := ContentOf(prog, kept, n - 1);
        if i: nat :| i < n - 1 && ContentOf(prog, kept, i) == c {
          assert p.contents[i] == c;
        }
      }
    }
  }

  lemma StartTidy(prog: Program, crc: Content -> int, kept: seq<nat>)
    requires KeptMap(prog, kept)
    ensures Tidy(prog, crc, PassUpTo(prog, crc, kept, 0)) && !Repeats(prog, kept, 0)
  {}

  /** Two candidates that nothing tells apart from the start: equal constants, and references to the same sections. */
  ghost predicate HasCopies(prog: Program) {
    exists i: nat, k: nat :: AreCopies(prog, i, k)
  }

  ghost predicate AreCopies(prog: Program, i: nat, k: nat) {
    i < k < |prog| && Constant(i, prog[i]) == Constant(k, prog[k]) && VarsOf(prog, i) == VarsOf(prog, k)
  }

  lemma CopiesRepeat(prog: Program, kept: seq<nat>)
    requires |kept| == |prog|
    ensures HasCopies(prog) ==> Repeats(prog, kept, |prog|)
    ensures kept == Unfolded(|prog|) && Repeats(prog, kept, |prog|) ==> HasCopies(prog)
  {
    if i: nat, k: nat :| AreCopies(prog, i, k) {
      assert ContentOf(prog, kept, i) == ContentOf(prog, kept, k);
    }
    if kept == Unfolded(|prog|) && Repeats(prog, kept, |prog|) {
      var i: nat, k: nat :| i < k < |prog| && ContentOf(prog, kept, i) == ContentOf(prog, kept, k);
      UnfoldedTargets(prog, i);
      UnfoldedTargets(prog, k);
      assert AreCopies(prog, i, k);
    }
  }

  lemma UnfoldedTargets(prog: Program, i: nat)
    requires i < |prog|
    ensures ContentOf(prog, Unfolded(|prog|), i) == Content(Constant(i, prog[i]), VarsOf(prog, i))
  {}

  lemma {:induction false} CopiesKeepMatching(prog: Program, crc: Content -> int, kept: seq<nat>, iterations: nat)
    requires TellsApart(crc, prog) && KeptMap(prog, kept) && HasCopies(prog)
    ensures PassesRun(prog, crc, kept, iterations) == iterations
    decreases iterations
  {
    hide PassUpTo, TellsApart, HasCopies, Repeats;
    if iterations > 0 {
      MatchesExactly(prog, crc, kept, |prog|);
      CopiesRepeat(prog, kept);
      TidyMap(prog, crc, WholePass(prog, crc, kept));
      CopiesKeepMatching(prog, crc, WholePass(prog, crc, kept).kept, iterations - 1);
    }
  }

  lemma TidyMap(prog: Program, crc: Content -> int, p: Pass)
    requires Tidy(prog, crc, p)
    ensures KeptMap(prog, p.kept)
  {}

  /** Some candidate is folded. */
  ghost predicate FoldsSome(kept: seq<nat>) {
    exists i :: 0 <= i < |kept| && kept[i] < i
  }

  /** What is folded stays folded, onto one section or another, and a match folds something. */
  lemma {:induction false} PassFolds(prog: Program, crc: Content -> int, kept: seq<nat>, n: nat)
    requires |kept| == |prog| && n <= |prog|
    ensures var p := PassUpTo(prog, crc, kept, n);
      && (FoldsSome(kept) || p.matched ==> FoldsSome(p.kept))
      && (!p.matched ==> p.kept == kept)
  {
    hide ContentOf;
    if n > 0 {
      var p := PassUpTo(prog, crc, kept, n - 1);
      PassFolds(prog, crc, kept, n - 1);
      var r := Advance(prog, crc, p);
      if i :| 0 <= i < |p.kept| && p.kept[i] < i {
        assert r.kept[i] < i;
      } else if r.matched {
        assert r.kept[n - 1] < n - 1;
      }
    }
  }

  lemma {:induction false} FoldedFolds(prog: Program, crc: Content -> int, kept: seq<nat>, iterations: nat)
    requires |kept| == |prog| && FoldsSome(kept)
    ensures FoldsSome(Folded(prog, crc, kept, iterations))
    decreases iterations
  {
    hide FoldsSome, PassUpTo;
    if iterations > 0 {
      PassFolds(prog, crc, kept, |prog|);
      if WholePass(prog, crc, kept).matched {
        FoldedFolds(prog, crc, WholePass(prog, crc, kept).kept, iterations - 1);
      }
    }
  }

  /** Folding stops early exactly if there are no copies, and then after the first pass, which folds nothing.
      Otherwise something is folded, and every pass that is allowed is made: no pass ever finds nothing. */
  lemma StopsEarlyExactly(prog: Program, crc: Content -> int, iterations: nat)
    requires TellsApart(crc, prog)
    ensures PassesRun(prog, crc, Unfolded(|prog|), iterations)
         == if iterations == 0 || HasCopies(prog) then iterations else 1
    ensures FoldsSome(Folded(prog, crc, Unfolded(|prog|), iterations)) <==> iterations > 0 && HasCopies(prog)
  {
    hide PassUpTo, TellsApart, HasCopies, Repeats, FoldsSome;
    var start := Unfolded(|prog|);
    NothingFolded(|prog|);
    if iterations > 0 {
      var p := WholePass(prog, crc, start);
      MatchesExactly(prog, crc, start, |prog|);
      CopiesRepeat(prog, start);
      PassFolds(prog, crc, start, |prog|);
      if HasCopies(prog) {
        CopiesKeepMatching(prog, crc, start, iterations);
        FoldedFolds(prog, crc, p.kept, iterations - 1);
      }
    }
  }

  lemma NothingFolded(n: nat)
    ensures !FoldsSome(Unfolded(n))
  {}
}
