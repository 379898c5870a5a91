/** For which references members of archives are read, in terms of the attributes in the pool alone. */
module ArchiveReferences {
  import opened ResolveInfos
  import StaticResolvers
  import opened NamePools
  import opened GroupReaders
  import opened SurvivorOrigins

  /** The pool has a reference to the name that is not weak, and no definition. */
  predicate StronglyReferred(t: Table, name: string) {
    name in t && t[name].info.desc == Undefined && t[name].info.binding != Weak
  }

  /** Each member is read because its archive lists it under a name which the pool, as it was just before, refers to
      strongly and has no definition of. */
  lemma PulledForReference(start: Table, inputs: seq<Input>, loads: seq<Load>, i: nat) returns (k: nat)
    requires Justified(start, inputs, loads) && i < |loads| && loads[i].Pulled?
    ensures loads[i].input < |inputs| && inputs[loads[i].input].ArchiveInput?
    ensures var armap := inputs[loads[i].input].file.armap;
      k < |armap| && armap[k].offset == loads[i].offset
        && StronglyReferred(After(start, inputs, loads[..i]), armap[k].name)
  {
    hide After;
    assert ValidLoad(inputs, loads[i]) && JustifiedAt(start, inputs, loads, i);
    k :| 0 <= k < |inputs[loads[i].input].file.armap| && inputs[loads[i].input].file.armap[k].offset == loads[i].offset
         && IsWanted(After(start, inputs, loads[..i]), inputs[loads[i].input].file.armap[k].name);
  }

  /** Once all archives are closed, every member listed under such a name has been read. */
  lemma ClosedExactlyFor(archives: seq<Archive>, t: Table)
    ensures AllClosed(archives, t)
       <==> forall a, k :: 0 <= a < |archives| && 0 <= k < |archives[a].file.armap|
                           && StronglyReferred(t, archives[a].file.armap[k].name)
                           ==> archives[a].file.armap[k].offset in archives[a].included
  {
    if AllClosed(archives, t) {
      forall a, k | 0 <= a < |archives| && 0 <= k < |archives[a].file.armap|
                    && StronglyReferred(t, archives[a].file.armap[k].name)
        ensures archives[a].file.armap[k].offset in archives[a].included
      {
        assert Closed(archives[a], t);
      }
    } else {
      var a :| 0 <= a < |archives| && !Closed(archives[a], t);
      var k :| 0 <= k < |archives[a].file.armap| && IsWanted(t, archives[a].file.armap[k].name)
               && archives[a].file.armap[k].offset !in archives[a].included;
      assert StronglyReferred(t, archives[a].file.armap[k].name);
    }
  }

  // ----- weak references -----

  /** No symbol of that name is a reference that is not weak. */
  predicate OnlyWeakly(s: Symbols, name: string) {
    forall k :: 0 <= k < |s| && s[k].name == name && s[k].desc == Undefined ==> s[k].binding == Weak
  }

  /** A name that is referred to weakly, if at all, by the pool and the newcomers, stays so. */
  lemma {:induction false} StaysWeak(t: Table, s: Symbols, name: string)
    requires !StronglyReferred(t, name) && OnlyWeakly(s, name)
    ensures !StronglyReferred(InsertAll(t, s), name)
  {
    hide StaticResolvers.WellFormed, Insert;
    var n := |s| - 1;
    if n >= 0 {
      StaysWeak(t, s[..n], name);
      InsertStaysWeak(InsertAll(t, s[..n]), s[n], name);
    }
  }

  lemma InsertStaysWeak(t: Table, g: GlobalSymbol, name: string)
    requires StaticResolvers.WellFormed(g.Attributes()) && !StronglyReferred(t, name)
    requires g.name == name && g.desc == Undefined ==> g.binding == Weak
    ensures !StronglyReferred(Insert(t, g), name)
  {
    hide StaticResolvers.Step, StaticResolvers.WellFormed;
    if g.name in t {
      AnswerExactly(t[g.name], g.AsSymbol());
    }
  }

  /** The names that an archive lists are referred to weakly, if at all, by what was read before the group and by the
      inputs of the group. */
  ghost predicate ListedOnlyWeakly(start: Table, inputs: seq<Input>) {
    forall i, k :: 0 <= i < |inputs| && inputs[i].ArchiveInput? && 0 <= k < |inputs[i].file.armap| ==>
      OnlyWeaklyReferred(start, inputs, inputs[i].file.armap[k].name)
  }

  ghost predicate OnlyWeaklyReferred(start: Table, inputs: seq<Input>, name: string) {
    && !StronglyReferred(start, name)
    && forall j :: 0 <= j < |inputs| && IsReadable(inputs[j]) ==> OnlyWeakly(inputs[j].symbols, name)
  }

  lemma {:induction false} AfterStaysWeak(start: Table, inputs: seq<Input>, loads: seq<Load>, name: string)
    requires ValidLoads(inputs, loads) && !HasMember(loads) && OnlyWeaklyReferred(start, inputs, name)
    ensures !StronglyReferred(After(start, inputs, loads), name)
  {
    hide StronglyReferred, OnlyWeakly, InsertAll;
    var n := |loads| - 1;
    if n >= 0 {
      assert forall p :: 0 <= p < n ==> loads[..n][p] == loads[p];
      AfterStaysWeak(start, inputs, loads[..n], name);
      assert ValidLoad(inputs, loads[n]) && !loads[n].Pulled?;
      StaysWeak(After(start, inputs, loads[..n]), SymbolsOf(inputs, loads[n]), name);
    }
  }

  /** Then no member is ever read, however often the archives are. */
  lemma {:induction false} WeakReferencesPullNothing(start: Table, inputs: seq<Input>, loads: seq<Load>)
    requires Justified(start, inputs, loads) && ListedOnlyWeakly(start, inputs)
    ensures !HasMember(loads)
  {
    hide After, OnlyWeaklyReferred, StronglyReferred;
    var n := |loads| - 1;
    if n >= 0 {
      PrefixJustified(start, inputs, loads);
      WeakReferencesPullNothing(start, inputs, loads[..n]);
      if loads[n].Pulled? {
        var k := PulledForReference(start, inputs, loads, n);
        AfterStaysWeak(start, inputs, loads[..n], inputs[loads[n].input].file.armap[k].name);
        assert false;
      }
      assert loads[..n] + [loads[n]] == loads;
      HasMemberAppend(loads[..n], loads[n]);
    }
  }

  lemma PrefixJustified(start: Table, inputs: seq<Input>, loads: seq<Load>)
    requires |loads| > 0 && Justified(start, inputs, loads)
    ensures Justified(start, inputs, loads[..|loads| - 1])
  {
    hide After;
    var t := loads[..|loads| - 1];
    forall i | 0 <= i < |t| ensures ValidLoad(inputs, t[i]) {
      assert t[i] == loads[i];
    }
    forall i | 0 <= i < |t| ensures JustifiedAt(start, inputs, t, i) {
      assert t[..i] == loads[..i] && JustifiedAt(start, inputs, loads, i);
    }
  }

  /** So a group whose archives list only names that are referred to weakly reads no member at all. */
  lemma WeakGroupReadsNoMember(start: Table, inputs: seq<Input>, first: seq<Load>, archives: seq<Archive>,
                               loads: seq<Load>, t: Table)
    requires GroupRead(start, inputs, first, archives, loads, t) && ListedOnlyWeakly(start, inputs)
    ensures !HasMember(loads) && forall a :: 0 <= a < |archives| ==> archives[a].included == {}
  {
    hide After, ListedOnlyWeakly, Justified, Consistent;
    WeakReferencesPullNothing(start, inputs, loads);
    forall a | 0 <= a < |archives| ensures archives[a].included == {} {
      TrackedMembers(archives[a], loads, t);
      NothingIncluded(archives[a], loads);
    }
  }
}
