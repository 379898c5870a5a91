/** Which sections are candidates for folding, and the index each of them gets. */
module FoldingCandidates {
  import opened Options

  /** A section of an input object. */
  datatype SectionId = SectionId(input: nat, index: nat)

  /** A relocation: the section its function symbol is defined in, if any, and whether the target takes it for an
      access that lets the function's address be seen. */
  datatype Rel = Rel(def: Option<SectionId>, takesAddress: bool)

  datatype Section = Text | Relocation(target: SectionId, rels: seq<Rel>) | Other

  /** A relocation section applies to a section of its own object. */
  ghost predicate ValidObjects(objects: seq<seq<Section>>) {
    forall o, i :: 0 <= o < |objects| && 0 <= i < |objects[o]| && objects[o][i].Relocation? ==>
      objects[o][i].target.input == o && objects[o][i].target.index < |objects[o]|
  }
  type Objects = o: seq<seq<Section>> | ValidObjects(o) witness []

  predicate IsText(objects: Objects, s: SectionId) {
    s.input < |objects| && s.index < |objects[s.input]| && objects[s.input][s.index].Text?
  }

  /** One of the first `n` relocations takes the section's address. */
  ghost predicate TakenBy(rels: seq<Rel>, s: SectionId, n: nat)
    requires n <= |rels|
  {
    exists r :: 0 <= r < n && rels[r].takesAddress && rels[r].def == Some(s)
  }

  /** One of the first `n` sections of object `o` holds such a relocation. */
  ghost predicate TakenIn(objects: Objects, o: nat, s: SectionId, n: nat)
    requires o < |objects| && n <= |objects[o]|
  {
    exists i :: 0 <= i < n && objects[o][i].Relocation? && TakenBy(objects[o][i].rels, s, |objects[o][i].rels|)
  }

  /** The last of the first `n` sections of object `o` that holds the relocations of `s`. */
  ghost function RelocsOf(objects: Objects, o: nat, s: SectionId, n: nat): Option<SectionId>
    requires o < |objects| && n <= |objects[o]|
  {
    if n == 0 then None
    else if objects[o][n - 1].Relocation? && objects[o][n - 1].target == s then Some(SectionId(o, n - 1))
    else RelocsOf(objects, o, s, n - 1)
  }

  /** What the map of an object holds when its first `n` sections have been looked at: its text sections so far, and
      those that a relocation section so far applies to. */
  ghost predicate Mapped(objects: Objects, o: nat, n: nat, candidates: map<SectionId, Option<SectionId>>)
    requires o < |objects| && n <= |objects[o]|
  {
    && (forall s :: s in candidates <==>
          s.input == o && IsText(objects, s) && (s.index < n || RelocsOf(objects, o, s, n).Some?))
    && (forall s :: s in candidates ==> candidates[s] == RelocsOf(objects, o, s, n))
  }

  lemma MappedNext(objects: Objects, o: nat, n: nat, candidates: map<SectionId, Option<SectionId>>)
    requires o < |objects| && n < |objects[o]| && Mapped(objects, o, n, candidates)
    ensures match objects[o][n]
      case Text =>
        var s := SectionId(o, n);
        Mapped(objects, o, n + 1, if s in candidates then candidates else candidates[s := None])
      case Relocation(target, _) =>
        Mapped(objects, o, n + 1,
               if IsText(objects, target) then candidates[target := Some(SectionId(o, n))] else candidates)
      case Other => Mapped(objects, o, n + 1, candidates)
  {}

  lemma TakenNext(objects: Objects, o: nat, n: nat, s: SectionId)
    requires o < |objects| && n < |objects[o]|
    ensures TakenIn(objects, o, s, n + 1) <==>
      TakenIn(objects, o, s, n) || (objects[o][n].Relocation? && TakenBy(objects[o][n].rels, s, |objects[o][n].rels|))
  {}

  /** A candidate: the section and the section of its relocations. */
  datatype Candidate = Candidate(section: SectionId, relocs: Option<SectionId>)

  /** A section of object `o` that may be folded. */
  ghost predicate MayFold(objects: Objects, safe: bool, s: SectionId) {
    IsText(objects, s) && !(safe && TakenIn(objects, s.input, s, |objects[s.input]|))
  }

  /** The indices in the kept map are the places in the list. */
  ghost predicate Indexed(list: seq<Candidate>, kept: map<SectionId, nat>) {
    && (forall i :: 0 <= i < |list| ==> list[i].section in kept && kept[list[i].section] == i)
    && (forall s :: s in kept ==> kept[s] < |list| && list[kept[s]].section == s)
  }

  /** The functions whose address a relocation section lets be seen, added to those known. */
  method AddTaken(rels: seq<Rel>, taken: set<SectionId>) returns (r: set<SectionId>)
    ensures forall s :: s in r <==> s in taken || TakenBy(rels, s, |rels|)
  {
    r := taken;
    for i := 0 to |rels|
      invariant forall s :: s in r <==> s in taken || TakenBy(rels, s, i)
    {
      if rels[i].def.Some? && rels[i].takesAddress {
        r := r + {rels[i].def.value};
      }
    }
  }

  /** One object: its possible candidates, and the functions whose address it takes. */
  method ScanObject(objects: Objects, o: nat, safe: bool)
    returns (candidates: map<SectionId, Option<SectionId>>, taken: set<SectionId>)
    requires o < |objects|
    ensures Mapped(objects, o, |objects[o]|, candidates)
    ensures forall s :: s in taken <==> safe && TakenIn(objects, o, s, |objects[o]|)
  {
    candidates, taken := map[], {};
    for n := 0 to |objects[o]|
      invariant Mapped(objects, o, n, candidates)
      invariant forall s :: s in taken <==> safe && TakenIn(objects, o, s, n)
    {
      MappedNext(objects, o, n, candidates);
      forall s {
        TakenNext(objects, o, n, s);
      }
      match objects[o][n] {
        case Text =>
          var s := SectionId(o, n);
          if s !in candidates {
            candidates := candidates[s := None];
          }
        case Relocation(target, rels) =>
          if IsText(objects, target) {
            candidates := candidates[target := Some(SectionId(o, n))];
          }
          if safe {
            taken := AddTaken(rels, taken);
          }
        case Other =>
      }
    }
  }

  /** The candidates of the objects before `o`, with `done` of object `o`. */
  ghost predicate Listed(objects: Objects, safe: bool, o: nat, done: set<SectionId>, list: seq<Candidate>,
                         kept: map<SectionId, nat>) {
    && Indexed(list, kept)
    && (forall s :: s in kept <==> MayFold(objects, safe, s) && (s.input < o || s in done))
    && (forall i :: 0 <= i < |list| ==> HasItsRelocs(objects, list[i]))
  }

  ghost predicate HasItsRelocs(objects: Objects, c: Candidate) {
    IsText(objects, c.section) && c.relocs == RelocsOf(objects, c.section.input, c.section, |objects[c.section.input]|)
  }

  lemma Pushed(list: seq<Candidate>, kept: map<SectionId, nat>, c: Candidate)
    requires Indexed(list, kept) && c.section !in kept
    ensures Indexed(list + [c], kept[c.section := |list|])
  {}

  /** Every candidate found gets the next index, in the list as in the kept map. The possible candidates of an object
      come in any order. */
  method FindCandidates(objects: Objects, safe: bool) returns (list: seq<Candidate>, kept: map<SectionId, nat>)
    ensures Indexed(list, kept)
    ensures forall s :: s in kept <==> MayFold(objects, safe, s)
    ensures forall i :: 0 <= i < |list| ==> HasItsRelocs(objects, list[i])
  {
    list, kept := [], map[];
    for o := 0 to |objects|
      invariant Listed(objects, safe, o, {}, list, kept)
    {
      var candidates, taken := ScanObject(objects, o, safe);
      var rest := candidates.Keys;
      while rest != {}
        invariant rest <= candidates.Keys
        invariant Listed(objects, safe, o, candidates.Keys - rest, list, kept)
      {
        var s :| s in rest;
        if !safe || s !in taken {
          Pushed(list, kept, Candidate(s, candidates[s]));
          kept := kept[s := |list|];
          list := list + [Candidate(s, candidates[s])];
        }
        rest := rest - {s};
      }
    }
  }

  /** Relocation `r` of section `i` of object `o` lets the address of `s` be seen. */
  predicate Takes(objects: Objects, o: nat, i: nat, r: nat, s: SectionId) {
    && o < |objects| && i < |objects[o]| && objects[o][i].Relocation? && r < |objects[o][i].rels|
    && objects[o][i].rels[r].takesAddress && objects[o][i].rels[r].def == Some(s)
  }

  ghost predicate TakenAnywhere(objects: Objects, s: SectionId) {
    exists o: nat, i: nat, r: nat :: Takes(objects, o, i, r, s)
  }

  /** A relocation of the object that has the section takes its address. */
  ghost predicate TakenAtHome(objects: Objects, s: SectionId) {
    exists i: nat, r: nat :: Takes(objects, s.input, i, r, s)
  }

  lemma TakenInIs(objects: Objects, s: SectionId)
    requires s.input < |objects|
    ensures TakenIn(objects, s.input, s, |objects[s.input]|) <==> TakenAtHome(objects, s)
  {
    var o := s.input;
    if TakenIn(objects, o, s, |objects[o]|) {
      var i :| 0 <= i < |objects[o]| && objects[o][i].Relocation?
        && TakenBy(objects[o][i].rels, s, |objects[o][i].rels|);
      var r :| 0 <= r < |objects[o][i].rels| && objects[o][i].rels[r].takesAddress
        && objects[o][i].rels[r].def == Some(s);
      assert Takes(objects, o, i, r, s);
    }
    if TakenAtHome(objects, s) {
      var i: nat, r: nat :| Takes(objects, o, i, r, s);
      assert TakenBy(objects[o][i].rels, s, |objects[o][i].rels|);
    }
  }

  /** What is found in safe mode is exactly the text sections whose address no relocation lets be seen, if and only if
      each address that a relocation of another object lets be seen is also let be seen by one of the own object. */
  lemma SafeExactlyWithinObjects(objects: Objects, kept: map<SectionId, nat>)
    requires forall s :: s in kept <==> MayFold(objects, true, s)
    ensures (forall s :: s in kept <==> IsText(objects, s) && !TakenAnywhere(objects, s))
       <==> forall s, o: nat, i: nat, r: nat :: Takes(objects, o, i, r, s) && IsText(objects, s) && o != s.input ==>
              TakenAtHome(objects, s)
  {
    hide TakenIn, Takes;
    forall s | IsText(objects, s) ensures s in kept <==> !TakenAtHome(objects, s) {
      TakenInIs(objects, s);
    }
    if forall s :: s in kept <==> IsText(objects, s) && !TakenAnywhere(objects, s) {
      forall s, o: nat, i: nat, r: nat | Takes(objects, o, i, r, s) && IsText(objects, s) && o != s.input
        ensures TakenAtHome(objects, s)
      {
        assert TakenAnywhere(objects, s);
      }
    }
  }

  /** The address of the one section of the first object is taken in the second: it is a candidate in safe mode all
      the same. */
  lemma TakenElsewhereIsCandidate() returns (objects: Objects)
    ensures MayFold(objects, true, SectionId(0, 0)) && TakenAnywhere(objects, SectionId(0, 0))
  {
    var s := SectionId(0, 0);
    var rels := [Rel(Some(s), true)];
    objects := [[Text], [Text, Relocation(SectionId(1, 0), rels)]];
    assert Takes(objects, 1, 1, 0, s);
    assert !TakenIn(objects, 0, s, 1);
  }

  /** Outside safe mode the candidates are all text sections. */
  lemma AllTextIsFound(objects: Objects, kept: map<SectionId, nat>, s: SectionId)
    requires forall s :: s in kept <==> MayFold(objects, false, s)
    ensures s in kept <==> s.input < |objects| && s.index < |objects[s.input]| && objects[s.input][s.index] == Text
  {}
}
