/** Identical code folding: sections whose contents match, up to the sections they refer to having been found
    identical themselves, are folded onto the first of them. */
module CodeFolding {

  /** Where the definition of a relocation's symbol lies. */
  datatype Definition = NoFragment | Elsewhere | InCandidate(index: nat)

  /** The symbol a relocation refers to. `owner` tells apart local symbols of different objects. */
  datatype RelocSymbol = RelocSymbol(
    name: string,
    owner: string,
    isFunction: bool,
    isLocal: bool,
    preemptible: bool,
    def: Definition)

  datatype RelocInfo = RelocInfo(kind: nat, symValue: nat, addend: int, place: nat)

  datatype Reloc = Reloc(info: RelocInfo, symbol: RelocSymbol)

  /** A section that may be folded. */
  datatype Candidate = Candidate(text: string, relocs: seq<Reloc>)

  /** The relocation at place `place` of a section, a call of section `target`. */
  function Call(place: nat, target: nat): Reloc {
    Reloc(RelocInfo(0, 0, 0, place), RelocSymbol("", "", true, false, false, InCandidate(target)))
  }

  /** Every relocation applies to four bytes of its own in the section's text. */
  ghost predicate PlacesFit(c: Candidate) {
    && (forall r :: 0 <= r < |c.relocs| ==> c.relocs[r].info.place + 4 <= |c.text|)
    && (forall r, t :: 0 <= r < t < |c.relocs| ==> c.relocs[r].info.place + 4 <= c.relocs[t].info.place)
  }

  ghost predicate AllPlacesFit(prog: seq<Candidate>) {
    forall i :: 0 <= i < |prog| ==> PlacesFit(prog[i])
  }

  datatype Token = Text(text: string) | Info(info: RelocInfo) | Name(name: string, owner: string)

  /** A candidate's content for one comparison: what never changes, and the kept index of the section each variable
      relocation refers to. */
  datatype Content = Content(constant: seq<Token>, targets: seq<nat>)

  /** What a relocation of candidate `own` contributes. */
  datatype Role = SelfReference | Variable(target: nat) | Fixed(name: string, owner: string)

  function RoleOf(own: nat, s: RelocSymbol): Role {
    if s.isFunction && s.def == InCandidate(own) then SelfReference
    else if !s.preemptible && s.def.InCandidate? then Variable(s.def.index)
    else if s.isLocal then Fixed(s.name, s.owner)
    else Fixed(s.name, "")
  }

  function Tokens(own: nat, relocs: seq<Reloc>): seq<Token> {
    if |relocs| == 0 then []
    else
      var r := relocs[|relocs| - 1];
      var role := RoleOf(own, r.symbol);
      Tokens(own, relocs[..|relocs| - 1]) + [Info(r.info)] + if role.Fixed? then [Name(role.name, role.owner)] else []
  }

  function Constant(own: nat, c: Candidate): seq<Token> {
    [Text(c.text)] + Tokens(own, c.relocs)
  }

  /** The sections the variable relocations refer to, in order. */
  function Variables(own: nat, relocs: seq<Reloc>): seq<nat> {
    if |relocs| == 0 then []
    else
      var role := RoleOf(own, relocs[|relocs| - 1].symbol);
      Variables(own, relocs[..|relocs| - 1]) + if role.Variable? then [role.target] else []
  }

  /** Candidates that refer to candidates only. */
  ghost predicate ValidProgram(prog: seq<Candidate>) {
    forall i, r :: 0 <= i < |prog| && 0 <= r < |prog[i].relocs| && prog[i].relocs[r].symbol.def.InCandidate? ==>
      prog[i].relocs[r].symbol.def.index < |prog|
  }

  type Program = p: seq<Candidate> | ValidProgram(p) witness []

  lemma {:induction false} VariablesInRange(prog: Program, own: nat, relocs: seq<Reloc>)
    requires own < |prog| && relocs <= prog[own].relocs
    ensures forall v :: v in Variables(own, relocs) ==> v < |prog|
  {
    var n := |relocs| - 1;
    if n >= 0 {
      VariablesInRange(prog, own, relocs[..n]);
      assert prog[own].relocs[n] == relocs[n];
    }
  }

  function VarsOf(prog: Program, i: nat): (vs: seq<nat>)
    requires i < |prog|
    ensures forall j :: 0 <= j < |vs| ==> vs[j] < |prog|
  {
    VariablesInRange(prog, i, prog[i].relocs);
    var vs := Variables(i, prog[i].relocs);
    assert forall j :: 0 <= j < |vs| ==> vs[j] in vs;
    vs
  }

  /** A section seen to a certain depth: its constant content and the sections it refers to, unfolded. */
  datatype Tree = Cut | Node(constant: seq<Token>, children: seq<Tree>)

  ghost function Unfold(prog: Program, i: nat, depth: nat): Tree
    requires i < |prog|
    decreases depth
  {
    if depth == 0 then Cut
    else
      var vs := VarsOf(prog, i);
      Node(Constant(i, prog[i]), seq(|vs|, j requires 0 <= j < |vs| => Unfold(prog, vs[j], depth - 1)))
  }

  /** The two sections cannot be told apart at any depth. */
  ghost predicate Twins(prog: Program, i: nat, k: nat) {
    i < |prog| && k < |prog| && forall d: nat :: Unfold(prog, i, d) == Unfold(prog, k, d)
  }

  ghost predicate KeptMap(prog: Program, kept: seq<nat>) {
    |kept| == |prog| && forall i :: 0 <= i < |kept| ==> kept[i] <= i
  }

  /** Every candidate is folded onto one that it cannot be told from. */
  ghost predicate Sound(prog: Program, kept: seq<nat>) {
    KeptMap(prog, kept) && forall i :: 0 <= i < |kept| ==> Twins(prog, i, kept[i])
  }

  function ContentOf(prog: Program, kept: seq<nat>, i: nat): Content
    requires |kept| == |prog| && i < |prog|
  {
    var vs := VarsOf(prog, i);
    Content(Constant(i, prog[i]), seq(|vs|, j requires 0 <= j < |vs| => kept[vs[j]]))
  }

  /** A content computed for `i` from some state of the kept map, however old. */
  ghost predicate FaithfulContent(prog: Program, i: nat, c: Content) {
    && i < |prog|
    && c.constant == Constant(i, prog[i])
    && |c.targets| == |VarsOf(prog, i)|
    && forall j :: 0 <= j < |c.targets| ==> Twins(prog, VarsOf(prog, i)[j], c.targets[j])
  }

  lemma ContentIsFaithful(prog: Program, kept: seq<nat>, i: nat)
    requires Sound(prog, kept) && i < |prog|
    ensures FaithfulContent(prog, i, ContentOf(prog, kept, i))
  {
    hide Twins;
    var vs := VarsOf(prog, i);
    assert forall j :: 0 <= j < |vs| ==> Twins(prog, vs[j], kept[vs[j]]);
  }

  /** Equal contents make twins, whatever the states of the kept map they were computed from. */
  lemma SameContentMakesTwins(prog: Program, i: nat, k: nat, c: Content)
    requires FaithfulContent(prog, i, c) && FaithfulContent(prog, k, c)
    ensures Twins(prog, i, k)
  {
    forall d: nat ensures Unfold(prog, i, d) == Unfold(prog, k, d) {
      if d > 0 {
        var vi, vk := VarsOf(prog, i), VarsOf(prog, k);
        forall j | 0 <= j < |vi| ensures Unfold(prog, vi[j], d - 1) == Unfold(prog, vk[j], d - 1) {
          assert Twins(prog, vi[j], c.targets[j]) && Twins(prog, vk[j], c.targets[j]);
        }
        assert Unfold(prog, i, d).children == Unfold(prog, k, d).children;
      }
    }
  }

  /** One pass in progress: the kept map as updated so far, the contents of the candidates dealt with, the first
      candidate found for each checksum, and whether anything has matched. */
  datatype Pass = Pass(kept: seq<nat>, contents: seq<Content>, firsts: map<int, nat>, matched: bool)

  ghost predicate ValidPass(prog: Program, p: Pass) {
    && |p.kept| == |prog| && |p.contents| <= |prog|
    && forall k :: k in p.firsts ==> p.firsts[k] < |p.contents|
  }

  /** The next candidate's turn. */
  function Advance(prog: Program, crc: Content -> int, p: Pass): (r: Pass)
    requires ValidPass(prog, p) && |p.contents| < |prog|
    ensures ValidPass(prog, r) && |r.contents| == |p.contents| + 1
  {
    var i := |p.contents|;
    var c := ContentOf(prog, p.kept, i);
    var contents := p.contents + [c];
    var k := crc(c);
    if k !in p.firsts then Pass(p.kept, contents, p.firsts[k := i], p.matched)
    else if p.contents[p.firsts[k]] == c then Pass(p.kept[i := p.firsts[k]], contents, p.firsts, true)
    else Pass(p.kept, contents, p.firsts, p.matched)
  }

  function PassUpTo(prog: Program, crc: Content -> int, kept: seq<nat>, n: nat): (p: Pass)
    requires |kept| == |prog| && n <= |prog|
    ensures ValidPass(prog, p) && |p.contents| == n
  {
    if n == 0 then Pass(kept, [], map[], false) else Advance(prog, crc, PassUpTo(prog, crc, kept, n - 1))
  }

  function WholePass(prog: Program, crc: Content -> int, kept: seq<nat>): Pass
    requires |kept| == |prog|
  {
    PassUpTo(prog, crc, kept, |prog|)
  }

  /** At most `iterations` passes, stopping early when a pass matches nothing. */
  function Folded(prog: Program, crc: Content -> int, kept: seq<nat>, iterations: nat): (r: seq<nat>)
    requires |kept| == |prog|
    ensures |r| == |prog|
    decreases iterations
  {
    if iterations == 0 then kept
    else
      var p := WholePass(prog, crc, kept);
      if p.matched then Folded(prog, crc, p.kept, iterations - 1) else p.kept
  }

  /** How many of those passes are made. */
  function PassesRun(prog: Program, crc: Content -> int, kept: seq<nat>, iterations: nat): nat
    requires |kept| == |prog|
    decreases iterations
  {
    if iterations == 0 then 0
    else
      var p := WholePass(prog, crc, kept);
      if p.matched then 1 + PassesRun(prog, crc, p.kept, iterations - 1) else 1
  }

  function Unfolded(n: nat): (kept: seq<nat>)
    ensures |kept| == n && forall i :: 0 <= i < n ==> kept[i] == i
  {
    seq(n, i => i)
  }

  ghost predicate SoundPass(prog: Program, p: Pass) {
    && ValidPass(prog, p) && Sound(prog, p.kept)
    && forall x :: 0 <= x < |p.contents| ==> FaithfulContent(prog, x, p.contents[x])
  }

  /** Every step of a pass keeps the map sound, although it compares contents of different ages. */
  lemma AdvanceKeepsSound(prog: Program, crc: Content -> int, p: Pass)
    requires SoundPass(prog, p) && |p.contents| < |prog|
    ensures SoundPass(prog, Advance(prog, crc, p))
  {
    hide Twins, FaithfulContent;
    var i := |p.contents|;
    var c := ContentOf(prog, p.kept, i);
    ContentIsFaithful(prog, p.kept, i);
    var k := crc(c);
    if k in p.firsts && p.contents[p.firsts[k]] == c {
      SameContentMakesTwins(prog, i, p.firsts[k], c);
    }
  }

  lemma {:induction false} PassKeepsSound(prog: Program, crc: Content -> int, kept: seq<nat>, n: nat)
    requires Sound(prog, kept) && n <= |prog|
    ensures SoundPass(prog, PassUpTo(prog, crc, kept, n))
  {
    if n > 0 {
      PassKeepsSound(prog, crc, kept, n - 1);
      AdvanceKeepsSound(prog, crc, PassUpTo(prog, crc, kept, n - 1));
    }
  }

  /** Whatever the checksum and however many passes, only sections that cannot be told apart are folded. */
  lemma {:induction false} FoldingIsSound(prog: Program, crc: Content -> int, kept: seq<nat>, iterations: nat)
    requires Sound(prog, kept)
    ensures Sound(prog, Folded(prog, crc, kept, iterations))
    decreases iterations
  {
    if iterations > 0 {
      PassKeepsSound(prog, crc, kept, |prog|);
      if WholePass(prog, crc, kept).matched {
        FoldingIsSound(prog, crc, WholePass(prog, crc, kept).kept, iterations - 1);
      }
    }
  }

  /** Nothing is folded onto a section that is itself folded away. */
  ghost predicate Flat(kept: seq<nat>) {
    forall i :: 0 <= i < |kept| ==> kept[i] < |kept| && kept[kept[i]] == kept[i]
  }

  /** During a pass that started with nothing folded, the first candidate of each checksum stays unfolded. */
  ghost predicate FreshPass(p: Pass) {
    && |p.contents| <= |p.kept|
    && (forall k :: k in p.firsts ==> p.firsts[k] < |p.contents| && p.kept[p.firsts[k]] == p.firsts[k])
    && (forall i :: |p.contents| <= i < |p.kept| ==> p.kept[i] == i)
    && (forall i :: 0 <= i < |p.kept| ==> p.kept[i] <= i)
    && Flat(p.kept)
  }

  lemma AdvanceStaysFresh(prog: Program, crc: Content -> int, p: Pass)
    requires ValidPass(prog, p) && FreshPass(p) && |p.contents| < |prog|
    ensures FreshPass(Advance(prog, crc, p))
  {
    hide ContentOf;
    var i := |p.contents|;
    var r := Advance(prog, crc, p);
    forall j | 0 <= j < |r.kept| ensures r.kept[r.kept[j]] == r.kept[j] {
      assert j != i ==> r.kept[j] == p.kept[j] && p.kept[p.kept[j]] == p.kept[j] && p.kept[j] != i;
    }
  }

  lemma {:induction false} FirstPassStaysFlat(prog: Program, crc: Content -> int, n: nat)
    requires n <= |prog|
    ensures FreshPass(PassUpTo(prog, crc, Unfolded(|prog|), n))
  {
    if n > 0 {
      FirstPassStaysFlat(prog, crc, n - 1);
      AdvanceStaysFresh(prog, crc, PassUpTo(prog, crc, Unfolded(|prog|), n - 1));
    }
  }

  lemma OnePassIsFlat(prog: Program, crc: Content -> int, iterations: nat)
    requires iterations <= 1
    ensures Flat(Folded(prog, crc, Unfolded(|prog|), iterations))
  {
    FirstPassStaysFlat(prog, crc, |prog|);
    if iterations == 1 {
      var p := WholePass(prog, crc, Unfolded(|prog|));
      assert p.matched ==> Folded(prog, crc, p.kept, 0) == p.kept;
    }
  }

  /** Folding a candidate with its name and its relocations prepared for comparison. */
  class FoldingCandidate {
    const own: nat
    const candidate: Candidate
    var content: seq<Token>
    var variableRelocs: seq<nat>

    constructor (own: nat, candidate: Candidate)
      ensures this.own == own && this.candidate == candidate
    {
      this.own, this.candidate := own, candidate;
      content, variableRelocs := [], [];
    }

    /** Go over the relocations once, and set aside those whose target may itself be folded. */
    method InitConstantContent()
      modifies this
      ensures content == Constant(own, candidate) && variableRelocs == Variables(own, candidate.relocs)
    {
      content, variableRelocs := [Text(candidate.text)], [];
      for r := 0 to |candidate.relocs|
        invariant content == [Text(candidate.text)] + Tokens(own, candidate.relocs[..r])
        invariant variableRelocs == Variables(own, candidate.relocs[..r])
      {
        assert candidate.relocs[..r + 1][..r] == candidate.relocs[..r];
        var rel := candidate.relocs[r];
        content := content + [Info(rel.info)];
        if rel.symbol.isFunction && rel.symbol.def == InCandidate(own) {
          // a recursive call
          continue;
        }
        if !rel.symbol.preemptible && rel.symbol.def.InCandidate? {
          variableRelocs := variableRelocs + [rel.symbol.def.index];
        } else {
          content := content + [Name(rel.symbol.name, if rel.symbol.isLocal then rel.symbol.owner else "")];
        }
      }
      assert candidate.relocs[..|candidate.relocs|] == candidate.relocs;
    }
  }

  /** A function symbol: the section it is defined in and its offset there. */
  datatype FunctionSymbol = FunctionSymbol(section: nat, offset: nat)

  /** The section a symbol ends up in. */
  function Redirected(kept: seq<nat>, s: FunctionSymbol): FunctionSymbol
    requires s.section < |kept|
  {
    s.(section := kept[s.section])
  }

  /** The section a symbol ends up in when it is visited `n` times. */
  function RedirectedTimes(kept: seq<nat>, s: FunctionSymbol, n: nat): (r: FunctionSymbol)
    requires s.section < |kept| && forall i :: 0 <= i < |kept| ==> kept[i] <= i
    ensures r.section < |kept| && r.offset == s.offset
  {
    if n == 0 then s else Redirected(kept, RedirectedTimes(kept, s, n - 1))
  }

  /** How often a section has to be replaced by the one it is folded onto until one is reached that is not folded. */
  function ChainLength(kept: seq<nat>, section: nat): nat
    requires section < |kept| && forall i :: 0 <= i < |kept| ==> kept[i] <= i
  {
    if kept[section] == section then 0 else 1 + ChainLength(kept, kept[section])
  }

  lemma {:induction false} RedirectedFirst(kept: seq<nat>, s: FunctionSymbol, n: nat)
    requires s.section < |kept| && (forall i :: 0 <= i < |kept| ==> kept[i] <= i) && n > 0
    ensures RedirectedTimes(kept, s, n) == RedirectedTimes(kept, Redirected(kept, s), n - 1)
  {
    if n > 1 {
      RedirectedFirst(kept, s, n - 1);
    }
  }

  lemma {:induction false} StaysThere(kept: seq<nat>, s: FunctionSymbol, n: nat)
    requires s.section < |kept| && (forall i :: 0 <= i < |kept| ==> kept[i] <= i) && kept[s.section] == s.section
    ensures RedirectedTimes(kept, s, n) == s
  {
    if n > 0 {
      StaysThere(kept, s, n - 1);
    }
  }

  /** A symbol leaves the folded sections behind exactly if it is visited as often as its chain is long. */
  lemma {:induction false} SymbolLeavesFolded(kept: seq<nat>, s: FunctionSymbol, n: nat)
    requires s.section < |kept| && forall i :: 0 <= i < |kept| ==> kept[i] <= i
    ensures var r := RedirectedTimes(kept, s, n).section;
      kept[r] == r <==> n >= ChainLength(kept, s.section)
    decreases n
  {
    if kept[s.section] == s.section {
      StaysThere(kept, s, n);
    } else if n > 0 {
      RedirectedFirst(kept, s, n);
      SymbolLeavesFolded(kept, Redirected(kept, s), n - 1);
    }
  }

  /** Where the map is flat, one visit is enough. */
  lemma FlatChains(kept: seq<nat>)
    requires forall i :: 0 <= i < |kept| ==> kept[i] <= i
    ensures Flat(kept) <==> forall section :: 0 <= section < |kept| ==> ChainLength(kept, section) <= 1
  {
    forall section: nat | section < |kept|
      ensures kept[section] <= section && (ChainLength(kept, section) <= 1 <==> kept[kept[section]] == kept[section])
    {
      assert kept[section] != section ==> ChainLength(kept, section) == 1 + ChainLength(kept, kept[section]);
    }
    if Flat(kept) {
      forall section | 0 <= section < |kept| ensures ChainLength(kept, section) <= 1 {
        assert kept[kept[section]] == kept[section];
      }
    } else {
      var i :| 0 <= i < |kept| && !(kept[i] < |kept| && kept[kept[i]] == kept[i]);
      assert ChainLength(kept, i) > 1;
    }
  }

  /** Every symbol has been redirected as often as it has been visited. */
  ghost predicate Visited(kept: seq<nat>, start: seq<FunctionSymbol>, symbols: seq<FunctionSymbol>, visits: nat -> nat)
    requires forall i :: 0 <= i < |kept| ==> kept[i] <= i
  {
    && |symbols| == |start|
    && forall s: nat :: s < |start| ==>
         start[s].section < |kept| && symbols[s] == RedirectedTimes(kept, start[s], visits(s))
  }

  lemma VisitedOnce(kept: seq<nat>, start: seq<FunctionSymbol>, symbols: seq<FunctionSymbol>, table: seq<nat>, t: nat,
                    visits: nat -> nat)
    requires forall i :: 0 <= i < |kept| ==> kept[i] <= i
    requires t < |table| && table[t] < |symbols|
    requires Visited(kept, start, symbols, s => visits(s) + VisitsIn(table[..t], s))
    ensures symbols[table[t]].section < |kept|
    ensures Visited(kept, start, symbols[table[t] := Redirected(kept, symbols[table[t]])],
                    s => visits(s) + VisitsIn(table[..t + 1], s))
  {
    assert table[..t + 1][..t] == table[..t];
    var r := table[t];
    assert symbols[r] == RedirectedTimes(kept, start[r], visits(r) + VisitsIn(table[..t], r));
    forall s: nat | s < |start|
      ensures VisitsIn(table[..t + 1], s) == VisitsIn(table[..t], s) + if s == r then 1 else 0
    {
      assert table[..t + 1][t] == r;
    }
  }

  /** How often a symbol table lists a symbol. */
  function VisitsIn(table: seq<nat>, s: nat): nat {
    if |table| == 0 then 0
    else VisitsIn(table[..|table| - 1], s) + if table[|table| - 1] == s then 1 else 0
  }

  /** How often the symbol tables of the first `n` objects list a symbol, when those of some objects only are looked
      at. */
  function Visits(tables: seq<seq<nat>>, objects: set<nat>, n: nat, s: nat): nat
    requires n <= |tables|
  {
    if n == 0 then 0
    else Visits(tables, objects, n - 1, s) + if n - 1 in objects then VisitsIn(tables[n - 1], s) else 0
  }

  /** The objects of the first `n` candidates that are folded. */
  function FoldedObjects(kept: seq<nat>, objects: seq<nat>, n: nat): set<nat>
    requires n <= |kept| && |objects| == |kept|
  {
    set i | 0 <= i < n && kept[i] != i :: objects[i]
  }

  lemma NoVisits(kept: seq<nat>, start: seq<FunctionSymbol>, symbols: seq<FunctionSymbol>, visits: nat -> nat,
                 table: seq<nat>)
    requires (forall i :: 0 <= i < |kept| ==> kept[i] <= i) && Visited(kept, start, symbols, visits)
    ensures Visited(kept, start, symbols, s => visits(s) + VisitsIn(table[..0], s))
  {}

  lemma RedirectedIs(kept: seq<nat>, s: FunctionSymbol)
    requires s.section < |kept|
    ensures Redirected(kept, s) == s.(section := kept[s.section])
    ensures kept[s.section] == s.section ==> Redirected(kept, s) == s
  {}

  lemma MoreVisits(kept: seq<nat>, start: seq<FunctionSymbol>, symbols: seq<FunctionSymbol>, tables: seq<seq<nat>>,
                   objects: set<nat>, o: nat)
    requires (forall i :: 0 <= i < |kept| ==> kept[i] <= i) && o < |tables|
    requires if o in objects then
               Visited(kept, start, symbols, s => Visits(tables, objects, o, s) + VisitsIn(tables[o], s))
             else Visited(kept, start, symbols, s => Visits(tables, objects, o, s))
    ensures Visited(kept, start, symbols, s => Visits(tables, objects, o + 1, s))
  {
    hide RedirectedTimes;
  }

  class IdenticalCodeFolding {
    const prog: Program
    const crc: Content -> int
    const kept: array<nat>

    constructor (prog: Program, crc: Content -> int)
      ensures this.prog == prog && this.crc == crc && fresh(kept) && kept[..] == Unfolded(|prog|)
    {
      this.prog, this.crc := prog, crc;
      kept := new nat[|prog|](i => i);
      new;
      assert kept[..] == Unfolded(|prog|);
    }

    method ContentWithVariables(i: nat) returns (c: Content)
      requires kept.Length == |prog| && i < |prog|
      ensures c == ContentOf(prog, kept[..], i)
    {
      var vs := VarsOf(prog, i);
      var targets := [];
      for j := 0 to |vs|
        invariant |targets| == j && forall l :: 0 <= l < j ==> targets[l] == kept[vs[l]]
      {
        targets := targets + [kept[vs[j]]];
      }
      c := Content(Constant(i, prog[i]), targets);
    }

    /** One pass over the candidates. Each candidate is compared with the first of its checksum, and the kept map is
        read while it is being updated. */
    method MatchCandidates() returns (converged: bool)
      requires kept.Length == |prog|
      modifies kept
      ensures var p := WholePass(prog, crc, old(kept[..])); kept[..] == p.kept && converged == !p.matched
    {
      ghost var before := kept[..];
      var checksums: map<int, nat> := map[];
      var contents: seq<Content> := [];
      converged := true;
      for index := 0 to |prog|
        invariant |contents| == index
        invariant forall k :: k in checksums ==> checksums[k] < index
        invariant Pass(kept[..], contents, checksums, !converged) == PassUpTo(prog, crc, before, index)
      {
        var c := ContentWithVariables(index);
        var checksum := crc(c);
        if checksum !in checksums {
          checksums := checksums[checksum := index];
        } else {
          var first := checksums[checksum];
          if c == contents[first] {
            kept[index] := first;
            converged := false;
          }
        }
        contents := contents + [c];
      }
    }

    /** Pass after pass, until one matches nothing or there have been enough. */
    method FindIdenticalCode(iterations: nat) returns (n: nat)
      requires kept.Length == |prog| && kept[..] == Unfolded(|prog|)
      modifies kept
      ensures kept[..] == Folded(prog, crc, Unfolded(|prog|), iterations) && Sound(prog, kept[..])
      ensures n == PassesRun(prog, crc, Unfolded(|prog|), iterations)
    {
      var converged := false;
      n := 0;
      while !converged && n < iterations
        invariant n <= iterations
        invariant PassesRun(prog, crc, Unfolded(|prog|), iterations)
               == n + if converged then 0 else PassesRun(prog, crc, kept[..], iterations - n)
        invariant Folded(prog, crc, Unfolded(|prog|), iterations)
               == if converged then kept[..] else Folded(prog, crc, kept[..], iterations - n)
      {
        converged := MatchCandidates();
        n := n + 1;
      }
      assert Sound(prog, Unfolded(|prog|));
      FoldingIsSound(prog, crc, Unfolded(|prog|), iterations);
    }

    /** Visits the symbols of one table: each that lies in a folded section moves to the one that is kept instead. */
    method VisitSymbols(folded: seq<bool>, table: seq<nat>, symbols: array<FunctionSymbol>,
                        ghost start: seq<FunctionSymbol>,
                        ghost visits: nat -> nat)
      requires KeptMap(prog, kept[..]) && kept as object != symbols as object && |folded| == |prog|
      requires forall i :: 0 <= i < |prog| ==> (folded[i] <==> kept[i] != i)
      requires forall i :: 0 <= i < |table| ==> table[i] < symbols.Length
      requires Visited(kept[..], start, symbols[..], visits)
      modifies symbols
      ensures Visited(kept[..], start, symbols[..], s => visits(s) + VisitsIn(table, s))
    {
      ghost var k := kept[..];
      NoVisits(k, start, symbols[..], visits, table);
      hide Visited, Redirected;
      for t := 0 to |table|
        invariant kept[..] == k && Visited(k, start, symbols[..], s => visits(s) + VisitsIn(table[..t], s))
      {
        VisitedOnce(k, start, symbols[..], table, t, visits);
        RedirectedIs(k, symbols[table[t]]);
        ghost var redirected := symbols[..][table[t] := Redirected(k, symbols[table[t]])];
        var s := table[t];
        if folded[symbols[s].section] {
          symbols[s] := symbols[s].(section := kept[symbols[s].section]);
        }
        assert symbols[..] == redirected;
      }
      assert table[..|table|] == table;
    }

    /** Marks what is folded, and collects the objects that have a folded section. */
    method MarkFolded(objects: seq<nat>) returns (folded: seq<bool>, foldedObjects: set<nat>)
      requires kept.Length == |prog| == |objects|
      ensures |folded| == |prog| && forall i :: 0 <= i < |prog| ==> (folded[i] <==> kept[i] != i)
      ensures foldedObjects == FoldedObjects(kept[..], objects, |prog|)
    {
      folded, foldedObjects := [], {};
      for index := 0 to |prog|
        invariant |folded| == index && forall i :: 0 <= i < index ==> (folded[i] <==> kept[i] != i)
        invariant foldedObjects == FoldedObjects(kept[..], objects, index)
      {
        folded := folded + [index != kept[index]];
        if index != kept[index] {
          foldedObjects := foldedObjects + {objects[index]};
        }
      }
    }

    /** Goes over the symbol tables of some objects, in the order of the objects; any order gives the same. */
    method RedirectSymbols(folded: seq<bool>, objects: set<nat>, tables: seq<seq<nat>>, symbols: array<FunctionSymbol>)
      requires KeptMap(prog, kept[..]) && kept as object != symbols as object && |folded| == |prog|
      requires forall i :: 0 <= i < |prog| ==> (folded[i] <==> kept[i] != i)
      requires forall s :: 0 <= s < symbols.Length ==> symbols[s].section < |prog|
      requires forall o, t :: 0 <= o < |tables| && 0 <= t < |tables[o]| ==> tables[o][t] < symbols.Length
      modifies symbols
      ensures Visited(kept[..], old(symbols[..]), symbols[..], s => Visits(tables, objects, |tables|, s))
    {
      ghost var k, start := kept[..], symbols[..];
      assert Visited(k, start, start, s => Visits(tables, objects, 0, s));
      hide Visited;
      for o := 0 to |tables|
        invariant kept[..] == k && Visited(k, start, symbols[..], s => Visits(tables, objects, o, s))
      {
        if o in objects {
          VisitSymbols(folded, tables[o], symbols, start, s => Visits(tables, objects, o, s));
        }
        MoreVisits(k, start, symbols[..], tables, objects, o);
      }
    }

    /** Fold: pass after pass, then mark what is folded, and go over the symbol tables of the objects that have a
        folded section. A symbol that several of them list is visited several times. */
    method FoldIdenticalCode(iterations: nat, objects: seq<nat>, tables: seq<seq<nat>>, symbols: array<FunctionSymbol>)
      returns (folded: seq<bool>)
      requires kept.Length == |prog| && kept[..] == Unfolded(|prog|) && kept as object != symbols as object
      requires |objects| == |prog|
      requires forall s :: 0 <= s < symbols.Length ==> symbols[s].section < |prog|
      requires forall o, t :: 0 <= o < |tables| && 0 <= t < |tables[o]| ==> tables[o][t] < symbols.Length
      modifies kept, symbols
      ensures kept[..] == Folded(prog, crc, Unfolded(|prog|), iterations) && Sound(prog, kept[..])
      ensures |folded| == |prog| && forall i :: 0 <= i < |prog| ==> (folded[i] <==> kept[i] != i)
      ensures forall s :: 0 <= s < symbols.Length ==> symbols[s] == RedirectedTimes(kept[..], old(symbols[s]),
                Visits(tables, FoldedObjects(kept[..], objects, |prog|), |tables|, s))
    {
      hide Folded, Twins, RedirectedTimes, FoldedObjects, Visits;
      var _ := FindIdenticalCode(iterations);
      var foldedObjects: set<nat>;
      folded, foldedObjects := MarkFolded(objects);
      RedirectSymbols(folded, foldedObjects, tables, symbols);
    }
  }
}
