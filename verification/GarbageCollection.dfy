/** Section garbage collection: what the entries reach is kept, everything else that may go is stripped. */
module GarbageCollections {

  /** The edges of a reference map; a section without an entry reaches nothing. */
  ghost predicate Edge<T>(edges: map<T, set<T>>, x: T, y: T) {
    x in edges && y in edges[x]
  }

  /** No edge leaves the world. */
  ghost predicate Inside<T>(edges: map<T, set<T>>, world: set<T>) {
    forall x :: x in edges ==> x in world && edges[x] <= world
  }

  /** The sections reached in at most `n` steps. */
  ghost function Within<T>(edges: map<T, set<T>>, start: set<T>, n: nat): set<T> {
    if n == 0 then start
    else
      var near := Within(edges, start, n - 1);
      near + set x, y | x in near && x in edges && y in edges[x] :: y
  }

  ghost predicate Reachable<T>(edges: map<T, set<T>>, start: set<T>, x: T) {
    exists n: nat :: x in Within(edges, start, n)
  }

  lemma StartReachable<T>(edges: map<T, set<T>>, start: set<T>, x: T)
    requires x in start
    ensures Reachable(edges, start, x)
  {
    assert x in Within(edges, start, 0);
  }

  lemma NextReachable<T>(edges: map<T, set<T>>, start: set<T>, x: T, y: T)
    requires Reachable(edges, start, x) && x in edges && y in edges[x]
    ensures Reachable(edges, start, y)
  {
    var n: nat :| x in Within(edges, start, n);
    assert y in Within(edges, start, n + 1);
  }

  /** A set that no edge leaves holds all that is reachable from it. */
  lemma {:induction false} ClosedHoldsAll<T>(edges: map<T, set<T>>, start: set<T>, closed: set<T>, n: nat)
    requires start <= closed && forall x :: x in closed && x in edges ==> edges[x] <= closed
    ensures Within(edges, start, n) <= closed
  {
    if n > 0 {
      ClosedHoldsAll(edges, start, closed, n - 1);
    }
  }

  /** The part of LDFileFormat's section kinds that matters here. */
  datatype Kind = Text | Data | Bss | GccExceptTable | Relocation | Ignore | Other

  /** The kinds that garbage collection handles. */
  predicate MayProcess(k: Kind) {
    k == Text || k == Data || k == Bss || k == GccExceptTable
  }

  /** What a relocation refers to: whether it has symbol information, whether that symbol is defined, and the section
      of the fragment that its output symbol refers to, if any. */
  datatype Reloc = Reloc(hasInfo: bool, defined: bool, section: LDSection?) {
    /** The section the relocation can make a reference to. */
    predicate Names(t: LDSection) {
      hasInfo && defined && section == t
    }
  }

  /** An input section. A relocation section links to the section it applies to. */
  class LDSection {
    var kind: Kind
    const link: LDSection?
    const hasRelocData: bool
    const relocs: seq<Reloc>

    constructor (kind: Kind, link: LDSection?, hasRelocData: bool, relocs: seq<Reloc>)
      ensures this.kind == kind && this.link == link && this.hasRelocData == hasRelocData && this.relocs == relocs
    {
      this.kind, this.link, this.hasRelocData, this.relocs := kind, link, hasRelocData, relocs;
    }
  }

  /** The sections of an input file, and those of them that hold relocations. */
  datatype Input = Input(sections: seq<LDSection>, relocSections: seq<LDSection>)

  /** The kinds of all sections at some moment. */
  type Kinds = map<LDSection, Kind>

  ghost predicate Handled(kinds: Kinds, s: LDSection) {
    s in kinds && MayProcess(kinds[s])
  }

  /** A live relocation section makes `a`, which it applies to, refer to `t`; both must be of the handled kinds. */
  ghost predicate Refers(kinds: Kinds, rs: LDSection, a: LDSection, t: LDSection) {
    && Live(kinds, rs) && rs.link == a && Handled(kinds, a)
    && RefersBy(kinds, rs, t, |rs.relocs|)
  }

  ghost predicate Live(kinds: Kinds, rs: LDSection) {
    rs in kinds && kinds[rs] != Ignore && rs.hasRelocData
  }

  /** One of the first `n` relocations names `t`. */
  ghost predicate RefersBy(kinds: Kinds, rs: LDSection, t: LDSection, n: nat)
    requires n <= |rs.relocs|
  {
    Handled(kinds, t) && exists i :: 0 <= i < n && rs.relocs[i].Names(t)
  }

  lemma RefersByNext(kinds: Kinds, rs: LDSection, t: LDSection, n: nat)
    requires n < |rs.relocs|
    ensures RefersBy(kinds, rs, t, n + 1) <==> RefersBy(kinds, rs, t, n) || (Handled(kinds, t) && rs.relocs[n].Names(t))
  {}

  lemma NothingReferred(edges: map<LDSection, set<LDSection>>, kinds: Kinds)
    requires edges == map[]
    ensures forall a, t :: !Edge(edges, a, t) && !Referred(kinds, {}, a, t)
  {}

  lemma OneMoreSection(kinds: Kinds, done: set<LDSection>, rs: LDSection, a: LDSection, t: LDSection)
    ensures Referred(kinds, done + {rs}, a, t) <==> Referred(kinds, done, a, t) || Refers(kinds, rs, a, t)
  {}

  ghost predicate Referred(kinds: Kinds, sections: set<LDSection>, a: LDSection, t: LDSection) {
    exists rs :: rs in sections && Refers(kinds, rs, a, t)
  }

  /** The relocation sections of the first `n` inputs. */
  ghost function RelocSections(inputs: seq<Input>, n: nat): set<LDSection>
    requires n <= |inputs|
  {
    if n == 0 then {} else RelocSections(inputs, n - 1) + SetOf(inputs[n - 1].relocSections)
  }

  /** The sections of the first `n` inputs. */
  ghost function Sections(inputs: seq<Input>, n: nat): set<LDSection>
    requires n <= |inputs|
  {
    if n == 0 then {} else Sections(inputs, n - 1) + SetOf(inputs[n - 1].sections)
  }

  lemma {:induction false} RelocSectionsIn(inputs: seq<Input>, i: nat)
    requires i < |inputs|
    ensures SetOf(inputs[i].relocSections) <= RelocSections(inputs, |inputs|)
  {
    RelocSectionsGrow(inputs, i + 1, |inputs|);
  }

  lemma {:induction false} RelocSectionsGrow(inputs: seq<Input>, m: nat, n: nat)
    requires m <= n <= |inputs|
    ensures RelocSections(inputs, m) <= RelocSections(inputs, n)
  {
    if m < n {
      RelocSectionsGrow(inputs, m, n - 1);
    }
  }

  lemma {:induction false} SectionsIn(inputs: seq<Input>, i: nat)
    requires i < |inputs|
    ensures SetOf(inputs[i].sections) <= Sections(inputs, |inputs|)
  {
    SectionsGrow(inputs, i + 1, |inputs|);
  }

  lemma {:induction false} SectionsGrow(inputs: seq<Input>, m: nat, n: nat)
    requires m <= n <= |inputs|
    ensures Sections(inputs, m) <= Sections(inputs, n)
  {
    if m < n {
      SectionsGrow(inputs, m, n - 1);
    }
  }

  /** The kind of a section once the unreferenced ones among `sections` are stripped... */
  ghost function KindStripped(kinds: Kinds, sections: set<LDSection>, referenced: set<LDSection>, s: LDSection): Kind
    requires s in kinds
  {
    if s in sections && MayProcess(kinds[s]) && s !in referenced then Ignore else kinds[s]
  }

  /** ...and the relocations that apply to a stripped or discarded section are ignored. */
  ghost function KindAfter(kinds: Kinds, sections: set<LDSection>, relocSections: set<LDSection>,
                           referenced: set<LDSection>, s: LDSection): Kind
    requires s in kinds
  {
    if s in relocSections && s.link in kinds && KindStripped(kinds, sections, referenced, s.link) == Ignore then Ignore
    else KindStripped(kinds, sections, referenced, s)
  }

  lemma NoneStripped(kinds: Kinds, referenced: set<LDSection>)
    ensures forall s :: s in kinds ==> KindStripped(kinds, {}, referenced, s) == kinds[s]
  {}

  lemma NoneIgnored(kinds: Kinds, sections: set<LDSection>, referenced: set<LDSection>)
    ensures forall s :: s in kinds ==>
      KindAfter(kinds, sections, {}, referenced, s) == KindStripped(kinds, sections, referenced, s)
  {}

  ghost function SetOf<T>(s: seq<T>): set<T> {
    set x | x in s
  }

  /** All sections that an edge or an entry mentions. */
  ghost function Nodes<T>(edges: map<T, set<T>>, entry: seq<T>): set<T> {
    SetOf(entry) + set x, y | x in edges && y in edges[x] :: y
  }

  /** Every section found so far is reachable, and its edges lead to sections found or waiting. */
  ghost predicate Exploring<T>(edges: map<T, set<T>>, entry: seq<T>, found: set<T>, queue: seq<T>) {
    && found <= Nodes(edges, entry)
    && (forall x :: x in found ==> Reachable(edges, SetOf(entry), x))
    && (forall x :: x in queue ==> x in Nodes(edges, entry) && Reachable(edges, SetOf(entry), x))
    && (forall x, y :: x in found && x in edges && y in edges[x] ==> y in found || y in queue)
  }

  /** Taking a section from the queue and putting the ones it reaches behind the others goes on exploring. */
  lemma Explored<T>(edges: map<T, set<T>>, entry: seq<T>, found: set<T>, queue: seq<T>, new_: seq<T>)
    requires queue != [] && Exploring(edges, entry, found, queue)
    requires queue[0] in edges ==> forall y :: y in edges[queue[0]] && y !in found && y != queue[0] ==> y in new_
    requires forall y :: y in new_ ==> queue[0] in edges && y in edges[queue[0]]
    ensures Exploring(edges, entry, found + {queue[0]}, queue[1..] + new_)
  {
    var x := queue[0];
    forall y | y in queue[1..] + new_ ensures y in Nodes(edges, entry) && Reachable(edges, SetOf(entry), y) {
      if y in new_ {
        NextReachable(edges, SetOf(entry), x, y);
      } else {
        assert y in queue;
      }
    }
    forall a, y | a in found + {x} && a in edges && y in edges[a] ensures y in found + {x} || y in queue[1..] + new_ {
      if a != x && y in queue && y != x {
        assert y in queue[1..];
      }
    }
  }

  /** A section found before is simply dropped from the queue. */
  lemma Dropped<T>(edges: map<T, set<T>>, entry: seq<T>, found: set<T>, queue: seq<T>)
    requires queue != [] && queue[0] in found && Exploring(edges, entry, found, queue)
    ensures Exploring(edges, entry, found, queue[1..])
  {
    assert forall y :: y in queue && y != queue[0] ==> y in queue[1..];
  }

  lemma NothingExplored<T>(edges: map<T, set<T>>, entry: seq<T>)
    ensures Exploring(edges, entry, {}, [])
  {}

  lemma Pushed<T>(edges: map<T, set<T>>, entry: seq<T>, found: set<T>, x: T)
    requires Exploring(edges, entry, found, []) && x in entry
    ensures Exploring(edges, entry, found, [x])
  {
    StartReachable(edges, SetOf(entry), x);
  }

  /** With nothing waiting and all entries found, exactly the reachable sections have been found. */
  lemma AllExplored<T>(edges: map<T, set<T>>, entry: seq<T>, found: set<T>, x: T)
    requires Exploring(edges, entry, found, []) && forall e :: e in entry ==> e in found
    ensures x in found <==> Reachable(edges, SetOf(entry), x)
  {
    if n: nat :| x in Within(edges, SetOf(entry), n) {
      ClosedHoldsAll(edges, SetOf(entry), found, n);
    }
  }

  class GarbageCollection {
    const inputs: seq<Input>
    ghost const world: set<LDSection>
    var reached: map<LDSection, set<LDSection>>
    var referenced: set<LDSection>

    /** The world is all sections that the inputs and the relocations mention. A relocation section links to an
        ordinary section of an input. */
    ghost predicate WellFormed() {
      && Sections(inputs, |inputs|) <= world && RelocSections(inputs, |inputs|) <= world
      && (forall rs :: rs in RelocSections(inputs, |inputs|) ==>
            rs.link != null && rs.link in Sections(inputs, |inputs|) && rs.link !in RelocSections(inputs, |inputs|))
      && (forall rs, i ::
            rs in RelocSections(inputs, |inputs|) && 0 <= i < |rs.relocs| && rs.relocs[i].section != null ==>
            rs.relocs[i].section in world)
    }

    ghost function KindsNow(): Kinds
      reads world
    {
      map s | s in world :: s.kind
    }

    constructor (inputs: seq<Input>, ghost world: set<LDSection>)
      ensures this.inputs == inputs && this.world == world && reached == map[] && referenced == {}
    {
      this.inputs, this.world, reached, referenced := inputs, world, map[], {};
    }

    method AddReference(from: LDSection, to: LDSection)
      requires from in world && to in world && Inside(reached, world)
      modifies this`reached
      ensures Inside(reached, world)
      ensures forall a, t :: a in world && t in world ==>
        (Edge(reached, a, t) <==> Edge(old(reached), a, t) || (a == from && t == to))
    {
      var list: set<LDSection> := if from in reached then reached[from] else {};
      reached := reached[from := list + {to}];
    }

    /** Adds the references that one relocation section makes. */
    method AddReferences(rs: LDSection)
      requires WellFormed() && rs in RelocSections(inputs, |inputs|) && Inside(reached, world)
      modifies this`reached
      ensures Inside(reached, world)
      ensures forall a, t :: a in world && t in world ==>
        (Edge(reached, a, t) <==> Edge(old(reached), a, t) || Refers(KindsNow(), rs, a, t))
    {
      hide Edge, Inside;
      ghost var kinds := KindsNow();
      var apply: LDSection := rs.link;
      if rs.kind == Ignore || !rs.hasRelocData || !MayProcess(apply.kind) {
        return;
      }
      var i := 0;
      while i < |rs.relocs|
        invariant i <= |rs.relocs| && KindsNow() == kinds && Inside(reached, world)
        invariant forall a, t :: a in world && t in world ==>
          (Edge(reached, a, t) <==> Edge(old(reached), a, t) || (a == apply && RefersBy(kinds, rs, t, i)))
      {
        var reloc := rs.relocs[i];
        if reloc.hasInfo && reloc.defined && reloc.section != null && MayProcess(reloc.section.kind) {
          AddReference(apply, reloc.section);
        }
        forall t | t in world
          ensures RefersBy(kinds, rs, t, i + 1) <==> RefersBy(kinds, rs, t, i) || (Handled(kinds, t) && reloc.Names(t))
        {
          RefersByNext(kinds, rs, t, i);
        }
        i := i + 1;
      }
    }

    /** Traverses all relocations of all inputs. */
    method SetUpReachedSections()
      requires WellFormed() && reached == map[]
      modifies this`reached
      ensures Inside(reached, world)
      ensures forall a, t :: a in world && t in world ==>
        (Edge(reached, a, t) <==> Referred(KindsNow(), RelocSections(inputs, |inputs|), a, t))
    {
      ghost var kinds := KindsNow();
      NothingReferred(reached, kinds);
      hide Refers, Referred, Edge, WellFormed, Inside;
      var i := 0;
      ghost var done: set<LDSection> := {};
      while i < |inputs|
        invariant i <= |inputs| && done == RelocSections(inputs, i) && KindsNow() == kinds && Inside(reached, world)
        invariant forall a, t :: a in world && t in world ==> (Edge(reached, a, t) <==> Referred(kinds, done, a, t))
      {
        RelocSectionsIn(inputs, i);
        ghost var before := done;
        var j := 0;
        while j < |inputs[i].relocSections|
          invariant j <= |inputs[i].relocSections| && done == before + SetOf(inputs[i].relocSections[..j])
          invariant KindsNow() == kinds && Inside(reached, world)
          invariant forall a, t :: a in world && t in world ==> (Edge(reached, a, t) <==> Referred(kinds, done, a, t))
        {
          AddReferences(inputs[i].relocSections[j]);
          forall a, t | a in world && t in world
            ensures Referred(kinds, done + {inputs[i].relocSections[j]}, a, t)
               <==> Referred(kinds, done, a, t) || Refers(kinds, inputs[i].relocSections[j], a, t)
          {
            OneMoreSection(kinds, done, inputs[i].relocSections[j], a, t);
          }
          assert inputs[i].relocSections[..j + 1] == inputs[i].relocSections[..j] + [inputs[i].relocSections[j]];
          done := done + {inputs[i].relocSections[j]};
          j := j + 1;
        }
        assert inputs[i].relocSections[..j] == inputs[i].relocSections;
        i := i + 1;
      }
    }

    method FindReferencedSections(entry: seq<LDSection>)
      requires referenced == {}
      modifies this`referenced
      ensures forall s :: s in referenced <==> Reachable(reached, SetOf(entry), s)
    {
      hide Exploring;
      ghost var nodes := Nodes(reached, entry);
      NothingExplored(reached, entry);
      var i := 0;
      while i < |entry|
        invariant i <= |entry|
        invariant Exploring(reached, entry, referenced, [])
        invariant forall k :: 0 <= k < i ==> entry[k] in referenced
      {
        Pushed(reached, entry, referenced, entry[i]);
        var workList := [entry[i]];
        while workList != []
          invariant Exploring(reached, entry, referenced, workList)
          invariant forall k :: 0 <= k < i ==> entry[k] in referenced
          invariant entry[i] in referenced || entry[i] in workList
          decreases nodes - referenced, |workList|
        {
          var section := workList[0];
          if section in referenced {
            Dropped(reached, entry, referenced, workList);
            workList := workList[1..];
          } else {
            var unseen := Unseen(section);
            Explored(reached, entry, referenced, workList, unseen);
            workList := workList[1..] + unseen;
            referenced := referenced + {section};
          }
        }
        i := i + 1;
      }
      forall s: LDSection ensures s in referenced <==> Reachable(reached, SetOf(entry), s) {
        AllExplored(reached, entry, referenced, s);
      }
    }

    /** The sections to wait for: those that the section reaches and that are not referenced yet. */
    method Unseen(section: LDSection) returns (unseen: seq<LDSection>)
      ensures forall y :: y in unseen <==> section in reached && y in reached[section] && y !in referenced + {section}
    {
      unseen := [];
      if section in reached {
        var rest := reached[section];
        while rest != {}
          invariant rest <= reached[section]
          invariant forall y :: y in unseen <==> y in reached[section] - rest && y !in referenced + {section}
        {
          var y :| y in rest;
          if y !in referenced && y != section {
            unseen := unseen + [y];
          }
          rest := rest - {y};
        }
      }
    }

    /** One section, stripped unless it is referenced or not of a handled kind. */
    method StripOne(section: LDSection, ghost kinds: Kinds, ghost done: set<LDSection>)
      requires section in world && kinds.Keys == world
      requires forall s :: s in world ==> s.kind == KindStripped(kinds, done, referenced, s)
      modifies section`kind
      ensures forall s :: s in world ==> s.kind == KindStripped(kinds, done + {section}, referenced, s)
    {
      if MayProcess(section.kind) && section !in referenced {
        section.kind := Ignore;
      }
    }

    /** One relocation section, ignored when what it applies to is. */
    method IgnoreOne(rs: LDSection, ghost kinds: Kinds, ghost done: set<LDSection>)
      requires WellFormed() && rs in RelocSections(inputs, |inputs|) && kinds.Keys == world
      requires done <= RelocSections(inputs, |inputs|)
      requires forall s :: s in world ==> s.kind == KindAfter(kinds, Sections(inputs, |inputs|), done, referenced, s)
      modifies rs`kind
      ensures forall s :: s in world ==>
        s.kind == KindAfter(kinds, Sections(inputs, |inputs|), done + {rs}, referenced, s)
    {
      assert rs.link != null && rs.link in world && rs.link !in done && rs in world;
      hide WellFormed, Sections, RelocSections, KindStripped;
      if rs.link.kind == Ignore {
        rs.kind := Ignore;
      }
    }

    method StripSections()
      requires WellFormed()
      modifies world`kind
      ensures forall s :: s in world ==>
        s.kind == KindAfter(old(KindsNow()), Sections(inputs, |inputs|), RelocSections(inputs, |inputs|), referenced, s)
    {
      ghost var kinds := KindsNow();
      hide KindStripped, KindAfter;
      NoneStripped(kinds, referenced);
      var i := 0;
      ghost var done: set<LDSection> := {};
      while i < |inputs|
        invariant i <= |inputs| && done == Sections(inputs, i)
        invariant forall s :: s in world ==> s.kind == KindStripped(kinds, done, referenced, s)
      {
        SectionsIn(inputs, i);
        ghost var before := done;
        var j := 0;
        while j < |inputs[i].sections|
          invariant j <= |inputs[i].sections| && done == before + SetOf(inputs[i].sections[..j])
          invariant forall s :: s in world ==> s.kind == KindStripped(kinds, done, referenced, s)
        {
          StripOne(inputs[i].sections[j], kinds, done);
          assert inputs[i].sections[..j + 1] == inputs[i].sections[..j] + [inputs[i].sections[j]];
          done := done + {inputs[i].sections[j]};
          j := j + 1;
        }
        assert inputs[i].sections[..j] == inputs[i].sections;
        i := i + 1;
      }
      IgnoreRelocations(kinds);
    }

    /** A relocation section whose target is ignored is ignored as well. */
    method IgnoreRelocations(ghost kinds: Kinds)
      requires WellFormed() && kinds.Keys == world
      requires forall s :: s in world ==> s.kind == KindStripped(kinds, Sections(inputs, |inputs|), referenced, s)
      modifies world`kind
      ensures forall s :: s in world ==>
        s.kind == KindAfter(kinds, Sections(inputs, |inputs|), RelocSections(inputs, |inputs|), referenced, s)
    {
      hide KindStripped, KindAfter;
      NoneIgnored(kinds, Sections(inputs, |inputs|), referenced);
      var i := 0;
      ghost var done: set<LDSection> := {};
      while i < |inputs|
        invariant i <= |inputs| && done == RelocSections(inputs, i) && done <= RelocSections(inputs, |inputs|)
        invariant forall s :: s in world ==> s.kind == KindAfter(kinds, Sections(inputs, |inputs|), done, referenced, s)
      {
        RelocSectionsIn(inputs, i);
        ghost var before := done;
        var j := 0;
        while j < |inputs[i].relocSections|
          invariant j <= |inputs[i].relocSections| && done == before + SetOf(inputs[i].relocSections[..j])
          invariant done <= RelocSections(inputs, |inputs|)
          invariant forall s :: s in world ==>
            s.kind == KindAfter(kinds, Sections(inputs, |inputs|), done, referenced, s)
        {
          IgnoreOne(inputs[i].relocSections[j], kinds, done);
          assert inputs[i].relocSections[..j + 1] == inputs[i].relocSections[..j] + [inputs[i].relocSections[j]];
          done := done + {inputs[i].relocSections[j]};
          j := j + 1;
        }
        assert inputs[i].relocSections[..j] == inputs[i].relocSections;
        i := i + 1;
      }
    }

    /** The edges that the target adds to those of the relocations. */
    method AddTargetReferences(extra: seq<(LDSection, LDSection)>)
      requires Inside(reached, world) && forall i :: 0 <= i < |extra| ==> extra[i].0 in world && extra[i].1 in world
      modifies this`reached
      ensures Inside(reached, world)
      ensures forall a, t :: a in world && t in world ==>
        (Edge(reached, a, t) <==> Edge(old(reached), a, t) || (a, t) in extra)
    {
      var i := 0;
      hide Edge, Inside;
      while i < |extra|
        invariant i <= |extra| && Inside(reached, world)
        invariant forall a, t :: a in world && t in world ==>
          (Edge(reached, a, t) <==> Edge(old(reached), a, t) || (a, t) in extra[..i])
      {
        AddReference(extra[i].0, extra[i].1);
        assert extra[..i + 1] == extra[..i] + [extra[i]];
        i := i + 1;
      }
      assert extra[..i] == extra;
    }

    /** After collection: a handled section of an input is kept exactly when the entries reach it, a relocation
        section of a stripped section is ignored, and no live relocation of a kept section names a stripped section.
        */
    method Run(extra: seq<(LDSection, LDSection)>, entry: seq<LDSection>)
      requires WellFormed() && reached == map[] && referenced == {}
      requires forall rs :: rs in RelocSections(inputs, |inputs|) ==> !MayProcess(rs.kind)
      requires forall i :: 0 <= i < |extra| ==> extra[i].0 in world && extra[i].1 in world
      modifies this, world`kind
      ensures forall a, t :: a in world && t in world ==>
        (Edge(reached, a, t) <==> Referred(old(KindsNow()), RelocSections(inputs, |inputs|), a, t) || (a, t) in extra)
      ensures KeepsTheReachable(old(KindsNow()), KindsNow(), Sections(inputs, |inputs|), reached, SetOf(entry))
      ensures IgnoresTheirRelocations(KindsNow(), RelocSections(inputs, |inputs|))
      ensures NothingDangles(old(KindsNow()), KindsNow(), Sections(inputs, |inputs|), RelocSections(inputs, |inputs|))
      ensures CollectsExactly(old(KindsNow()), KindsNow(), Sections(inputs, |inputs|), RelocSections(inputs, |inputs|),
                              reached, SetOf(entry))
    {
      ghost var kinds := KindsNow();
      hide Edge, Inside, Referred, Reachable, KindAfter, KeepsTheReachable, IgnoresTheirRelocations, NothingDangles;
      hide CollectsExactly;
      SetUpReachedSections();
      AddTargetReferences(extra);
      FindReferencedSections(entry);
      StripSections();
      Kept(kinds, KindsNow(), Sections(inputs, |inputs|), referenced, reached, SetOf(entry),
           RelocSections(inputs, |inputs|));
      Collected(kinds, KindsNow(), Sections(inputs, |inputs|), referenced, reached, SetOf(entry),
                RelocSections(inputs, |inputs|));
    }
  }

  /** The references of a section, by the kinds and the relocations alone: from code, data, zeroed data or exception
      tables to another of these, by a relocation with a defined symbol in it, unless the relocation section is
      discarded. */
  lemma ReferredExactly(kinds: Kinds, relocSections: set<LDSection>, a: LDSection, t: LDSection)
    ensures Referred(kinds, relocSections, a, t)
       <==> a in kinds && kinds[a] in {Text, Data, Bss, GccExceptTable}
            && t in kinds && kinds[t] in {Text, Data, Bss, GccExceptTable}
            && exists rs, i ::
                 rs in relocSections && rs in kinds && kinds[rs] != Ignore && rs.hasRelocData && rs.link == a
                 && 0 <= i < |rs.relocs| && rs.relocs[i].hasInfo && rs.relocs[i].defined && rs.relocs[i].section == t
  {
    if Referred(kinds, relocSections, a, t) {
      var rs :| rs in relocSections && Refers(kinds, rs, a, t);
      var i :| 0 <= i < |rs.relocs| && rs.relocs[i].Names(t);
    }
    if rs, i :| rs in relocSections && 0 <= i < |rs.relocs| && rs in kinds && kinds[rs] != Ignore && rs.hasRelocData
                && rs.link == a && rs.relocs[i].hasInfo && rs.relocs[i].defined && rs.relocs[i].section == t {
      assert rs.relocs[i].Names(t);
    }
  }

  /** The section is input code, data, zeroed data or an exception table, and no entry reaches it. */
  ghost predicate IsGarbage(before: Kinds, sections: set<LDSection>, edges: map<LDSection, set<LDSection>>,
                            start: set<LDSection>, s: LDSection) {
    s in sections && s in before && before[s] in {Text, Data, Bss, GccExceptTable} && !Reachable(edges, start, s)
  }

  /** Ignored in the end are the garbage and the relocation sections of what is garbage or was ignored already; every
      other section keeps its kind. */
  ghost predicate CollectsExactly(before: Kinds, after: Kinds, sections: set<LDSection>, relocSections: set<LDSection>,
                                  edges: map<LDSection, set<LDSection>>, start: set<LDSection>) {
    forall s :: s in before ==>
      s in after && after[s] ==
        if IsGarbage(before, sections, edges, start, s) then Ignore
        else if s in relocSections && s.link in before
             && (before[s.link] == Ignore || IsGarbage(before, sections, edges, start, s.link)) then Ignore
        else before[s]
  }

  lemma Collected(before: Kinds, after: Kinds, sections: set<LDSection>, referenced: set<LDSection>,
                  edges: map<LDSection, set<LDSection>>, start: set<LDSection>, relocSections: set<LDSection>)
    requires before.Keys == after.Keys
    requires forall s :: s in before ==> after[s] == KindAfter(before, sections, relocSections, referenced, s)
    requires forall s :: s in before ==> (s in referenced <==> Reachable(edges, start, s))
    ensures CollectsExactly(before, after, sections, relocSections, edges, start)
  {
    hide Reachable;
  }

  /** A handled section is as it was when it is reachable, and ignored when not. */
  ghost predicate KeepsTheReachable(before: Kinds, after: Kinds, sections: set<LDSection>,
                                    edges: map<LDSection, set<LDSection>>, start: set<LDSection>) {
    forall s :: s in sections && Handled(before, s) ==>
      s in after && after[s] == if Reachable(edges, start, s) then before[s] else Ignore
  }

  /** A relocation section is ignored when the section it applies to is. */
  ghost predicate IgnoresTheirRelocations(after: Kinds, relocSections: set<LDSection>) {
    forall rs :: rs in relocSections && rs.link in after && after[rs.link] == Ignore ==>
      rs in after && after[rs] == Ignore
  }

  /** No relocation in a live relocation section, applying to a handled section, names a section that has been
      stripped. */
  ghost predicate NothingDangles(before: Kinds, after: Kinds, sections: set<LDSection>, relocSections: set<LDSection>) {
    forall rs, t ::
      rs in relocSections && t in sections && Live(after, rs) && rs.link in before && Handled(before, rs.link)
      && RefersBy(before, rs, t, |rs.relocs|) ==>
      t in after && after[t] == before[t]
  }

  lemma Kept(before: Kinds, after: Kinds, sections: set<LDSection>, referenced: set<LDSection>,
             edges: map<LDSection, set<LDSection>>, start: set<LDSection>, relocSections: set<LDSection>)
    requires before.Keys == after.Keys && sections <= before.Keys && relocSections <= before.Keys
    requires forall rs :: rs in relocSections ==> rs.link != null && rs.link in sections && rs.link !in relocSections
    requires forall rs :: rs in relocSections ==> !MayProcess(before[rs])
    requires forall s :: s in before ==> after[s] == KindAfter(before, sections, relocSections, referenced, s)
    requires forall a, t :: a in before && t in before && Referred(before, relocSections, a, t) ==> Edge(edges, a, t)
    requires forall s :: s in before ==> (s in referenced <==> Reachable(edges, start, s))
    ensures KeepsTheReachable(before, after, sections, edges, start)
    ensures IgnoresTheirRelocations(after, relocSections)
    ensures NothingDangles(before, after, sections, relocSections)
  {
    hide Referred, Reachable;
    forall rs, t | rs in relocSections && t in sections && Live(after, rs) && rs.link in before
                   && Handled(before, rs.link) && RefersBy(before, rs, t, |rs.relocs|)
      ensures after[t] == before[t]
    {
      assert after[rs] == KindAfter(before, sections, relocSections, referenced, rs);
      var a: LDSection := rs.link;
      assert a in referenced;
      OneMoreSection(before, relocSections, rs, a, t);
      assert relocSections + {rs} == relocSections;
      assert Edge(edges, a, t);
      NextReachable(edges, start, a, t);
    }
  }
}
