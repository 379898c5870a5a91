/** How many passes leave the kept map flat: one always does, and for any larger number there are sections that end up
    folded onto a section that is itself folded away. */
module FoldingChains {
  import opened CodeFolding
  import opened FoldingPasses

  /** A text, long enough for two calls. */
  function Label(n: nat): string { seq(n + 8, _ => 'x') }

  function Caller(size: nat, targets: seq<nat>): Candidate {
    Candidate(Label(size), seq(|targets|, j requires 0 <= j < |targets| => Call(4 * j, targets[j])))
  }

  function Infos(n: nat): seq<Token> { seq(n, j requires 0 <= j < n => Info(RelocInfo(0, 0, 0, 4 * j))) }

  lemma {:induction false} CallerTokens(own: nat, size: nat, targets: seq<nat>)
    requires own !in targets
    ensures Variables(own, Caller(size, targets).relocs) == targets
    ensures Tokens(own, Caller(size, targets).relocs) == Infos(|targets|)
  {
    var n := |targets| - 1;
    if n >= 0 {
      CallerTokens(own, size, targets[..n]);
      assert Caller(size, targets).relocs[..n] == Caller(size, targets[..n]).relocs;
    }
  }

  /** Sections 0, 1 and 4 share their text, as do 2 and 3; the rest are `depth` pairs, each of which refers to the
      next pair and can be folded only one pass after it. */
  function Targets(depth: nat, i: nat): seq<nat> {
    if i == 0 then [5, 3]
    else if i == 1 || i == 4 then [6, 3]
    else if i == 2 then [5]
    else if i == 3 then [6]
    else if i + 2 < 5 + 2 * depth then [i + 2]
    else []
  }

  function TextOf(i: nat): nat {
    if i == 0 || i == 1 || i == 4 then 0
    else if i == 2 || i == 3 then 1
    else (i - 5) / 2 + 2
  }

  function ChainCandidate(depth: nat, i: nat): Candidate { Caller(TextOf(i), Targets(depth, i)) }

  function Chain(depth: nat): (prog: Program)
    requires depth >= 1
    ensures |prog| == 5 + 2 * depth
    ensures forall i :: 0 <= i < |prog| ==> prog[i] == ChainCandidate(depth, i)
    ensures AllPlacesFit(prog)
  {
    seq(5 + 2 * depth, i requires 0 <= i < 5 + 2 * depth => ChainCandidate(depth, i))
  }

  function ChainContent(depth: nat, kept: seq<nat>, i: nat): Content
    requires depth >= 1 && |kept| == 5 + 2 * depth && i < |kept|
  {
    var ts := Targets(depth, i);
    Content([Text(Label(TextOf(i)))] + Infos(|ts|), seq(|ts|, j requires 0 <= j < |ts| => kept[ts[j]]))
  }

  lemma ContentInChain(depth: nat, kept: seq<nat>, i: nat)
    requires depth >= 1 && |kept| == 5 + 2 * depth && i < |kept|
    ensures ContentOf(Chain(depth), kept, i) == ChainContent(depth, kept, i)
  {
    CallerTokens(i, TextOf(i), Targets(depth, i));
    assert Chain(depth)[i] == ChainCandidate(depth, i);
  }

  /** The kept map after `q` passes, while the topmost pair is not yet folded. */
  function KeptAfter(depth: nat, q: nat): (kept: seq<nat>)
    ensures |kept| == 5 + 2 * depth
    ensures forall i :: 0 <= i < |kept| ==> kept[i] == KeptEntry(depth, q, i)
  {
    seq(5 + 2 * depth, i requires 0 <= i < 5 + 2 * depth => KeptEntry(depth, q, i))
  }

  function KeptEntry(depth: nat, q: nat, i: nat): (k: nat)
    ensures k <= i
  {
    if i == 4 && q >= 1 then 1
    else if i % 2 == 0 && i >= 6 && i + 2 * q >= 6 + 2 * depth then i - 1
    else i
  }

  /** Equal contents have equal texts. */
  lemma SameText(depth: nat, kept: seq<nat>, i: nat, j: nat)
    requires depth >= 1 && |kept| == 5 + 2 * depth && j < i < |kept|
    requires ChainContent(depth, kept, i) == ChainContent(depth, kept, j)
    ensures TextOf(i) == TextOf(j)
    ensures (j < 2 && i in {1, 4}) || (j == 2 && i == 3) || (i % 2 == 0 && i >= 6 && j == i - 1)
  {
    var a, b := ChainContent(depth, kept, i).constant[0], ChainContent(depth, kept, j).constant[0];
    assert |a.text| == TextOf(i) + 8 && |b.text| == TextOf(j) + 8;
  }

  /** During a pass, an earlier section has the content of section `n` exactly if `n` is folded onto it in that pass. */
  lemma EqualsKept(depth: nat, q: nat, n: nat, j: nat)
    requires depth >= 1 && q < depth && j < n < 5 + 2 * depth
    ensures ChainContent(depth, KeptAfter(depth, q), n) == ChainContent(depth, KeptAfter(depth, q), j)
       <==> j == KeptEntry(depth, q + 1, n)
  {
    var kept := KeptAfter(depth, q);
    var a, b := ChainContent(depth, kept, n), ChainContent(depth, kept, j);
    assert kept[5] == 5 && kept[6] == 6 && kept[3] == 3;
    if a == b {
      SameText(depth, kept, n, j);
    }
    if n == 4 && j == 1 {
      assert a == b;
    } else if (n in {1, 4} && j == 0) || (n == 3 && j == 2) {
      assert a.targets[0] == 6 && b.targets[0] == 5;
    } else if n % 2 == 0 && n >= 6 && j == n - 1 {
      if n + 2 < 5 + 2 * depth {
        assert a.targets == [KeptEntry(depth, q, n + 2)] && b.targets == [n + 1];
        assert a.targets[0] == KeptEntry(depth, q, n + 2) && b.targets[0] == n + 1;
      } else {
        assert a.targets == b.targets;
      }
    }
  }

  /** The state of pass `q + 1` when the sections before `n` have had their turn. */
  ghost predicate MidPass(depth: nat, crc: Content -> int, q: nat, n: nat, p: Pass)
    requires depth >= 1 && n <= 5 + 2 * depth
  {
    && Tidy(Chain(depth), crc, p) && |p.contents| == n
    && (forall j :: 0 <= j < |p.kept| ==> p.kept[j] == KeptEntry(depth, if j < n then q + 1 else q, j))
    && (forall j :: 0 <= j < n ==> p.contents[j] == ChainContent(depth, KeptAfter(depth, q), j))
    && (n > 4 ==> p.matched)
  }

  lemma ContentMidPass(depth: nat, crc: Content -> int, q: nat, n: nat, p: Pass)
    requires depth >= 1 && q < depth && n < 5 + 2 * depth && MidPass(depth, crc, q, n, p)
    ensures ContentOf(Chain(depth), p.kept, n) == ChainContent(depth, KeptAfter(depth, q), n)
  {
    hide Tidy;
    assert |p.kept| == 5 + 2 * depth by { TidySize(Chain(depth), crc, p); }
    ContentInChain(depth, p.kept, n);
    var ts := Targets(depth, n);
    forall j | 0 <= j < |ts| ensures p.kept[ts[j]] == KeptAfter(depth, q)[ts[j]] {
      assert ts[j] == 3 || ts[j] > n;
    }
    assert ChainContent(depth, p.kept, n).targets == ChainContent(depth, KeptAfter(depth, q), n).targets;
  }

  lemma MidPassStep(depth: nat, crc: Content -> int, q: nat, n: nat, p: Pass)
    requires depth >= 1 && q < depth && n < 5 + 2 * depth && TellsApart(crc, Chain(depth))
      && MidPass(depth, crc, q, n, p)
    ensures ValidPass(Chain(depth), p) && |p.contents| < |Chain(depth)|
    ensures MidPass(depth, crc, q, n + 1, Advance(Chain(depth), crc, p))
  {
    hide ChainContent, ContentOf, ChainCandidate, Advance, TellsApart, Tidy, KeptEntry;
    KeptEntryLasts(depth, q, n);
    TidySize(Chain(depth), crc, p);
    ContentMidPass(depth, crc, q, n, p);
    forall j | 0 <= j < n ensures p.contents[j] == ContentOf(Chain(depth), p.kept, n) <==>
      j == KeptEntry(depth, q + 1, n) {
      EqualsKept(depth, q, n, j);
    }
    AdvanceOnto(Chain(depth), crc, p, KeptEntry(depth, q + 1, n));
    assert p.kept[n] == KeptEntry(depth, q, n);
  }

  lemma KeptEntryLasts(depth: nat, q: nat, n: nat)
    ensures KeptEntry(depth, q + 1, n) == n ==> KeptEntry(depth, q, n) == n
    ensures n == 4 ==> KeptEntry(depth, q + 1, n) < n
  {}

  lemma {:induction false} MidPassReached(depth: nat, crc: Content -> int, q: nat, n: nat)
    requires depth >= 1 && q < depth && n <= 5 + 2 * depth && TellsApart(crc, Chain(depth))
    ensures MidPass(depth, crc, q, n, PassUpTo(Chain(depth), crc, KeptAfter(depth, q), n))
  {
    hide Advance, TellsApart, ContentOf, ChainContent;
    if n > 0 {
      MidPassReached(depth, crc, q, n - 1);
      MidPassStep(depth, crc, q, n - 1, PassUpTo(Chain(depth), crc, KeptAfter(depth, q), n - 1));
    }
  }

  lemma PassOfChain(depth: nat, crc: Content -> int, q: nat)
    requires depth >= 1 && q < depth && TellsApart(crc, Chain(depth))
    ensures WholePass(Chain(depth), crc, KeptAfter(depth, q)).kept == KeptAfter(depth, q + 1)
    ensures WholePass(Chain(depth), crc, KeptAfter(depth, q)).matched
  {
    hide TellsApart, PassUpTo, ContentOf, ChainContent;
    MidPassReached(depth, crc, q, 5 + 2 * depth);
    TidySize(Chain(depth), crc, WholePass(Chain(depth), crc, KeptAfter(depth, q)));
  }

  function Shared(text: nat, targets: seq<nat>): Content {
    Content([Text(Label(text))] + Infos(|targets|), targets)
  }

  lemma SharedDiffer(text: nat, targets: seq<nat>, text': nat, targets': seq<nat>)
    requires text != text' || targets != targets'
    ensures Shared(text, targets) != Shared(text', targets')
  {
    assert |Shared(text, targets).constant[0].text| == text + 8
      && |Shared(text', targets').constant[0].text| == text' + 8;
  }

  /** What a candidate's turn does in the last pass. */
  lemma Turn(depth: nat, crc: Content -> int, p: Pass, c: Content, f: nat)
    requires depth >= 1 && TellsApart(crc, Chain(depth)) && Tidy(Chain(depth), crc, p)
    requires |p.contents| < 5 + 2 * depth == |p.kept| && ChainContent(depth, p.kept, |p.contents|) == c
    requires f <= |p.contents| && (f < |p.contents| ==> p.contents[f] == c)
    requires forall j :: 0 <= j < f ==> p.contents[j] != c
    ensures ValidPass(Chain(depth), p)
    ensures var r, n := Advance(Chain(depth), crc, p), |p.contents|;
      && Tidy(Chain(depth), crc, r) && r.contents == p.contents + [c]
      && r.kept == if f < n then p.kept[n := f] else p.kept
  {
    hide TellsApart, Advance, ContentOf, ChainContent, Tidy;
    TidySize(Chain(depth), crc, p);
    ContentInChain(depth, p.kept, |p.contents|);
    AdvanceOnto(Chain(depth), crc, p, f);
  }

  lemma NextTurn(depth: nat, crc: Content -> int, kept: seq<nat>, n: nat)
    requires depth >= 1 && |kept| == 5 + 2 * depth && n < 5 + 2 * depth
    ensures PassUpTo(Chain(depth), crc, kept, n + 1) == Advance(Chain(depth), crc, PassUpTo(Chain(depth), crc, kept, n))
  {}

  lemma StartsTidy(depth: nat, crc: Content -> int, q: nat)
    requires depth >= 1
    ensures Tidy(Chain(depth), crc, PassUpTo(Chain(depth), crc, KeptAfter(depth, q), 0))
    ensures PassUpTo(Chain(depth), crc, KeptAfter(depth, q), 0) == Pass(KeptAfter(depth, q), [], map[], false)
  {}

  /** The contents of the first five sections, where sections 1 and 3 may have been folded already. */
  lemma TopContents(depth: nat, kept: seq<nat>)
    requires depth >= 1 && |kept| == 5 + 2 * depth && kept[5] == 5 && kept[6] == 5
    ensures forall i :: i in {0, 1, 4} ==> ChainContent(depth, kept, i) == Shared(0, [5, kept[3]])
    ensures forall i :: i in {2, 3} ==> ChainContent(depth, kept, i) == Shared(1, [5])
  {
    forall i | i in {0, 1, 4} ensures ChainContent(depth, kept, i) == Shared(0, [5, kept[3]]) {
      assert ChainContent(depth, kept, i).targets == [5, kept[3]];
    }
  }

  /** In the next pass section 1 is folded onto section 0, and section 4 no longer matches either. */
  lemma LastPassBends(depth: nat, crc: Content -> int)
    requires depth >= 1 && TellsApart(crc, Chain(depth))
    ensures var p := PassUpTo(Chain(depth), crc, KeptAfter(depth, depth), 5);
      |p.kept| == 5 + 2 * depth && p.kept[1] == 0 && p.kept[4] == 1
  {
    hide Advance, Chain, ContentOf, PassUpTo, TellsApart, Tidy, Shared, ChainContent;
    var kept := KeptAfter(depth, depth);
    assert kept[3] == 3 && kept[4] == 1 && kept[5] == 5 && kept[6] == 5 && kept[1] == 1;
    var a, b, c := Shared(0, [5, 3]), Shared(1, [5]), Shared(0, [5, 2]);
    assert [5, 3][1] != [5, 2][1];
    SharedDiffer(0, [5, 3], 1, [5]);
    SharedDiffer(0, [5, 3], 0, [5, 2]);
    SharedDiffer(1, [5], 0, [5, 2]);
    StartsTidy(depth, crc, depth);
    var p0 := PassUpTo(Chain(depth), crc, kept, 0);
    TopContents(depth, kept);
    Turn(depth, crc, p0, a, 0);
    NextTurn(depth, crc, kept, 0);
    var p1 := PassUpTo(Chain(depth), crc, kept, 1);
    Turn(depth, crc, p1, a, 0);
    NextTurn(depth, crc, kept, 1);
    var p2 := PassUpTo(Chain(depth), crc, kept, 2);
    assert p2.contents == [a, a] && p2.kept == kept[1 := 0];
    TopContents(depth, p2.kept);
    Turn(depth, crc, p2, b, 2);
    NextTurn(depth, crc, kept, 2);
    var p3 := PassUpTo(Chain(depth), crc, kept, 3);
    assert p3.contents == [a, a, b];
    Turn(depth, crc, p3, b, 2);
    NextTurn(depth, crc, kept, 3);
    var p4 := PassUpTo(Chain(depth), crc, kept, 4);
    assert p4.contents == [a, a, b, b] && p4.kept == kept[1 := 0][3 := 2];
    TopContents(depth, p4.kept);
    Turn(depth, crc, p4, c, 4);
    NextTurn(depth, crc, kept, 4);
  }

  lemma {:induction false} EarlierStay(prog: Program, crc: Content -> int, kept: seq<nat>, m: nat, n: nat)
    requires |kept| == |prog| && m <= n <= |prog|
    ensures PassUpTo(prog, crc, kept, n).kept[..m] == PassUpTo(prog, crc, kept, m).kept[..m]
  {
    if m < n {
      EarlierStay(prog, crc, kept, m, n - 1);
    }
  }

  lemma {:induction false} ChainRun(depth: nat, crc: Content -> int, q: nat)
    requires depth >= 1 && q <= depth && TellsApart(crc, Chain(depth))
    ensures !Flat(Folded(Chain(depth), crc, KeptAfter(depth, q), depth + 1 - q))
    decreases depth - q
  {
    hide Chain, KeptAfter, PassUpTo, TellsApart;
    if q < depth {
      PassOfChain(depth, crc, q);
      ChainRun(depth, crc, q + 1);
    } else {
      var p := WholePass(Chain(depth), crc, KeptAfter(depth, depth));
      LastPassBends(depth, crc);
      EarlierStay(Chain(depth), crc, KeptAfter(depth, depth), 5, 5 + 2 * depth);
      FoldedOnce(Chain(depth), crc, KeptAfter(depth, depth));
      assert p.kept[1] == p.kept[..5][1] == 0 && p.kept[4] == p.kept[..5][4] == 1;
    }
  }

  lemma FoldedOnce(prog: Program, crc: Content -> int, kept: seq<nat>)
    requires |kept| == |prog|
    ensures Folded(prog, crc, kept, 1) == WholePass(prog, crc, kept).kept
  {
    var p := WholePass(prog, crc, kept);
    assert p.matched ==> Folded(prog, crc, p.kept, 0) == p.kept;
  }

  lemma MorePassesBend(crc: Content -> int, iterations: nat)
    requires iterations >= 2 && TellsApart(crc, Chain(iterations - 1))
    ensures var prog := Chain(iterations - 1); !Flat(Folded(prog, crc, Unfolded(|prog|), iterations))
  {
    hide Folded, TellsApart, Flat;
    var depth := iterations - 1;
    ChainRun(depth, crc, 0);
    assert KeptAfter(depth, 0) == Unfolded(|Chain(depth)|);
  }

  /** For any checksum that does not confuse the contents of the chain of that length: the kept map is flat for every
      program whose relocations lie inside their sections exactly when at most one pass is allowed. The default is
      two. */
  lemma FlatExactlyForOnePass(crc: Content -> int, iterations: nat)
    requires iterations >= 2 ==> TellsApart(crc, Chain(iterations - 1))
    ensures (forall prog: Program :: AllPlacesFit(prog) ==> Flat(Folded(prog, crc, Unfolded(|prog|), iterations)))
       <==> iterations <= 1
  {
    hide Folded, TellsApart, Flat, Unfolded, Chain, AllPlacesFit;
    if iterations <= 1 {
      forall prog: Program ensures Flat(Folded(prog, crc, Unfolded(|prog|), iterations)) {
        OnePassIsFlat(prog, crc, iterations);
      }
    } else {
      MorePassesBend(crc, iterations);
      assert AllPlacesFit(Chain(iterations - 1));
    }
  }
}
