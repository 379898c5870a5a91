/** Which of the symbols seen the survivor's attributes and value come from, in terms of the attributes alone. */
module SurvivorOrigins {
  import opened ResolveInfos
  import opened StaticResolvers
  import opened ResolutionOrder

  // ----- the classes -----

  predicate IsReference(i: Info) { i.desc == Undefined }

  predicate IsSharedDefinition(i: Info) { i.desc == Define && i.dyn }

  predicate IsWeakDefinition(i: Info) { i.desc == Define && !i.dyn && i.binding == Weak }

  predicate IsDefinition(i: Info) { i.desc == Define && !i.dyn && i.binding != Weak }

  /** What the classes of the table say about the attributes of a symbol. */
  lemma ClassExactly(i: Info)
    requires WellFormed(i)
    ensures OrdinateOf(i) in {U, WeakU, DynU, WeakDynU} <==> IsReference(i)
    ensures OrdinateOf(i) in {WeakU, WeakDynU} <==> IsReference(i) && i.binding == Weak
    ensures OrdinateOf(i) in {DynU, WeakDynU} <==> IsReference(i) && i.dyn
    ensures OrdinateOf(i) in {DynD, WeakDynD} <==> IsSharedDefinition(i)
    ensures OrdinateOf(i) == WeakDynD <==> IsSharedDefinition(i) && i.binding == Weak
    ensures OrdinateOf(i) == WeakD <==> IsWeakDefinition(i)
    ensures OrdinateOf(i) == D <==> IsDefinition(i)
    ensures OrdinateOf(i) == DynC <==> i.desc == Common && i.dyn
    ensures OrdinateOf(i) == WeakC <==> i.desc == Common && !i.dyn && i.binding == Weak
    ensures OrdinateOf(i) == C <==> i.desc == Common && !i.dyn && i.binding != Weak
  {}

  // ----- one resolution -----

  /** Type, description, source and flags. */
  predicate SameSort(a: Info, b: Info) {
    a.kind == b.kind && a.desc == b.desc && a.dyn == b.dyn && a.tag == b.tag
  }

  /** If the resolver answers that the newcomer overrides, the entry is of the newcomer's sort, and has its size and
      its binding, except that a shared definition leaves a regular reference its own. The value is the newcomer's if
      that is regular. Otherwise the entry stays as it is. Visibility aside, and the size of common symbols. */
  lemma AnswerExactly(old_: Symbol, new_: Symbol)
    requires WellFormed(old_.info) && WellFormed(new_.info)
    ensures var out := Step(old_, new_);
      var r := out.symbol;
      if out.overriden then
        && SameSort(r.info, new_.info)
        && (r.info.desc != Common ==> r.info.size == new_.info.size)
        && r.info.binding == (if IsReference(old_.info) && !old_.info.dyn && IsSharedDefinition(new_.info)
                              then old_.info.binding else new_.info.binding)
        && r.value == (if new_.info.dyn then old_.value else new_.value)
      else
        && SameSort(r.info, old_.info) && r.info.binding == old_.info.binding && r.value == old_.value
        && (r.info.desc != Common ==> r.info.size == old_.info.size)
  {
    hide OrdinateOf, Action, Effect, WellFormed;
    var n, o := OrdinateOf(new_.info), OrdinateOf(old_.info);
    NotIndirect(old_.info);
    NotIndirect(new_.info);
    ActionExactly(n, o);
    MeetExactly(old_.info, new_.info);
    EffectExactly(Action(n, o), old_.info, new_.info, SameAbsolute(old_, new_));
  }

  lemma MeetExactly(o: Info, n: Info)
    requires WellFormed(o) && WellFormed(n)
    ensures Action(OrdinateOf(n), OrdinateOf(o)) in {MDefD, MDefWD}
       <==> IsReference(o) && !o.dyn && IsSharedDefinition(n)
    ensures Action(OrdinateOf(n), OrdinateOf(o)) in {DUnd, DUndW} ==> o.dyn
    ensures Action(OrdinateOf(n), OrdinateOf(o)) in {Big, MBig} ==> o.desc == Common && n.desc == Common
  {
    hide OrdinateOf, Action;
    ClassExactly(o);
    ClassExactly(n);
    NotIndirect(o);
    NotIndirect(n);
    ActionExactly(OrdinateOf(n), OrdinateOf(o));
  }

  lemma EffectExactly(action: LinkAction, o: Info, n: Info, same: bool)
    requires !IsIndirectAction(action) && (action in {DUnd, DUndW} ==> o.dyn)
    requires action in {Big, MBig} ==> o.desc == Common && n.desc == Common
    ensures var (r, overriden, _) := Effect(action, o, n, same);
      if overriden then
        SameSort(r, n) && (r.desc != Common ==> r.size == n.size)
        && r.binding == if action in {MDefD, MDefWD} then o.binding else n.binding
      else SameSort(r, o) && r.binding == o.binding && (r.desc != Common ==> r.size == o.size)
  {
    hide MostConstrained;
  }

  lemma ActionExactly(n: Ordinate, o: Ordinate)
    requires n != Ind && o != Ind
    ensures Action(n, o) in {MDefD, MDefWD} <==> n in {DynD, WeakDynD} && o in {U, WeakU}
    ensures Action(n, o) in {DUnd, DUndW} ==> o in {DynD, WeakDynD}
    ensures Action(n, o) in {Big, MBig} ==> o in {C, WeakC, DynC} && n in {C, WeakC, DynC}
    ensures Action(n, o) == MDef ==> n == D && o == D
    ensures !IsIndirectAction(Action(n, o))
  {}

  // ----- whole sequences -----

  predicate Earlier(s: seq<Symbol>, k: nat, p: Info -> bool)
    requires k <= |s|
  {
    exists j :: 0 <= j < k && p(s[j].info)
  }

  /** The k-th symbol is the one that the survivor comes from: of its sort, and of its size and value if it is no
      common symbol. It is the first that is not undefined, for a shared definition; the first weak regular
      definition, for one of those; and for a strong one the first, or one that is the same absolute symbol. */
  predicate IsOrigin(s: seq<Symbol>, r: Symbol, k: nat) {
    && k < |s| && SameSort(r.info, s[k].info)
    && (r.info.desc != Common ==> r.info.size == s[k].info.size && (r.info.dyn || r.value == s[k].value))
    && (IsSharedDefinition(r.info) ==> !Earlier(s, k, i => !IsReference(i)))
    && (IsWeakDefinition(r.info) ==> IsWeakDefinition(s[k].info) && !Earlier(s, k, IsWeakDefinition))
    && (IsDefinition(r.info) ==>
          exists d: nat :: d <= k && IsDefinition(s[d].info) && !Earlier(s, d, IsDefinition)
                           && (d == k || SameAbsolute(s[d], s[k])))
  }

  lemma OneMoreSymbol(s: seq<Symbol>, r: Symbol, k: nat)
    requires |s| > 0 && IsOrigin(s[..|s| - 1], r, k)
    ensures IsOrigin(s, r, k)
  {
    var t := s[..|s| - 1];
    assert forall j: nat :: j < |t| ==> t[j] == s[j];
    if IsDefinition(r.info) {
      var d: nat :| d <= k && IsDefinition(t[d].info) && !Earlier(t, d, IsDefinition)
                    && (d == k || SameAbsolute(t[d], t[k]));
      assert !Earlier(s, d, IsDefinition);
    }
  }

  /** What a survivor's description and the others' have to do with each other. */
  lemma {:induction false} NoneBefore(s: seq<Symbol>)
    requires |s| > 0 && AllWellFormed(s)
    ensures var i := ResolveAll(s).info;
      && (IsReference(i) ==> !Earlier(s, |s|, x => !IsReference(x)))
      && (IsReference(i) || IsSharedDefinition(i) ==> !Earlier(s, |s|, IsWeakDefinition))
      && (!IsDefinition(i) ==> !Earlier(s, |s|, IsDefinition))
  {
    hide Step, OrdinateOf, ResolveAll, IsReference, IsSharedDefinition, IsDefinition, IsWeakDefinition;
    var n := |s| - 1;
    if n == 0 {
      OnlySymbolIs(s);
    } else {
      NoneBefore(s[..n]);
      assert forall j: nat :: j < n ==> s[..n][j] == s[j];
      LastStep(s);
      StepLeaves(ResolveAll(s[..n]), s[n]);
    }
  }

  lemma OnlySymbolIs(s: seq<Symbol>)
    requires |s| == 1 && AllWellFormed(s)
    ensures ResolveAll(s) == s[0]
    ensures IsReference(s[0].info) || IsSharedDefinition(s[0].info) ==> !IsWeakDefinition(s[0].info)
  {}

  /** What must not have met for an entry to be undefined, a shared definition, or anything but a strong definition. */
  lemma StepLeaves(old_: Symbol, new_: Symbol)
    requires WellFormed(old_.info) && WellFormed(new_.info)
    ensures var r := Step(old_, new_).symbol.info;
      && (IsReference(r) ==> IsReference(old_.info) && IsReference(new_.info))
      && (IsReference(r) || IsSharedDefinition(r) ==>
            !IsWeakDefinition(new_.info) && (IsReference(old_.info) || IsSharedDefinition(old_.info)))
      && (!IsDefinition(r) ==> !IsDefinition(old_.info) && !IsDefinition(new_.info))
  {
    hide OrdinateOf, Step, NextClass, IsReference, IsSharedDefinition, IsDefinition, IsWeakDefinition;
    var r := Step(old_, new_).symbol.info;
    StepClass(old_, new_);
    ClassExactly(old_.info);
    ClassExactly(new_.info);
    ClassExactly(r);
    NotIndirect(old_.info);
    NotIndirect(new_.info);
    NextExactly(OrdinateOf(new_.info), OrdinateOf(old_.info));
  }

  lemma NextExactly(n: Ordinate, o: Ordinate)
    requires n != Ind && o != Ind
    ensures NextClass(n, o) in {U, WeakU, DynU, WeakDynU}
       <==> n in {U, WeakU, DynU, WeakDynU} && o in {U, WeakU, DynU, WeakDynU}
    ensures NextClass(n, o) in {U, WeakU, DynU, WeakDynU, DynD, WeakDynD} ==>
      n != WeakD && o in {U, WeakU, DynU, WeakDynU, DynD, WeakDynD}
    ensures NextClass(n, o) == D <==> n == D || o == D
  {}

  /** When a newcomer overrides, it is the origin. */
  lemma NewOrigin(s: seq<Symbol>)
    requires |s| > 1 && AllWellFormed(s) && Step(ResolveAll(s[..|s| - 1]), s[|s| - 1]).overriden
    ensures IsOrigin(s, ResolveAll(s), |s| - 1)
  {
    hide OrdinateOf, Step, ResolveAll;
    var n := |s| - 1;
    var old_, new_ := ResolveAll(s[..n]), s[n];
    LastStep(s);
    AnswerExactly(old_, new_);
    NoneBefore(s[..n]);
    assert forall j: nat :: j < n ==> s[..n][j] == s[j];
    OverridesExactly(old_, new_);
    if IsDefinition(new_.info) && IsDefinition(old_.info) {
      var f := FirstOf(s, n);
      DefinitionStands(s[..n], f);
      ClassExactly(s[f].info);
      assert SameAbsolute(s[f], s[n]);
    }
  }

  lemma LastStep(s: seq<Symbol>)
    requires AllWellFormed(s) && |s| > 1
    ensures AllWellFormed(s[..|s| - 1]) && WellFormed(s[|s| - 1].info)
    ensures ResolveAll(s) == Step(ResolveAll(s[..|s| - 1]), s[|s| - 1]).symbol
  {
    hide Step, OrdinateOf;
  }

  /** Which newcomer overrides which entry. */
  predicate Overrides(o: Info, n: Info, sameAbsolute: bool) {
    if IsReference(n) then
      IsReference(o) && !n.dyn && (if n.binding == Weak then o.dyn && o.binding == Weak else o.dyn || o.binding == Weak)
    else if IsSharedDefinition(n) then IsReference(o)
    else if IsWeakDefinition(n) then IsReference(o) || IsSharedDefinition(o)
    else if IsDefinition(n) then !IsDefinition(o) || sameAbsolute
    else
      IsReference(o)
      || (IsStrongCommonInfo(n) && !IsDefinition(o) && !IsStrongCommonInfo(o))
  }

  predicate IsStrongCommonInfo(i: Info) { i.desc == Common && !i.dyn && i.binding != Weak }

  /** A reference overrides only references: a regular one those of shared objects, a strong one also weak ones. A
      shared definition overrides references; a weak one also shared definitions; a strong one everything but another,
      unless they are the same absolute symbol. A common symbol overrides references, and a strong one also weaker
      definitions and common symbols. */
  lemma OverridesExactly(old_: Symbol, new_: Symbol)
    requires WellFormed(old_.info) && WellFormed(new_.info)
    ensures Step(old_, new_).overriden
       <==> Overrides(old_.info, new_.info,
                      old_.info.binding == Absolute && new_.info.binding == Absolute && old_.value == new_.value)
  {
    hide OrdinateOf;
    ClassExactly(old_.info);
    ClassExactly(new_.info);
    NotIndirect(old_.info);
    NotIndirect(new_.info);
  }

  /** Which newcomer is reported. */
  lemma ErrorExactly(old_: Symbol, new_: Symbol)
    requires WellFormed(old_.info) && WellFormed(new_.info)
    ensures Step(old_, new_).error
       <==> IsDefinition(old_.info) && IsDefinition(new_.info)
            && !(old_.info.binding == Absolute && new_.info.binding == Absolute && old_.value == new_.value)
  {
    hide OrdinateOf, Step;
    ClassExactly(old_.info);
    ClassExactly(new_.info);
    StepReports(old_, new_);
  }

  /** The first definition, when the survivor is one. */
  lemma FirstOf(s: seq<Symbol>, n: nat) returns (f: nat)
    requires 0 < n <= |s| && AllWellFormed(s) && IsDefinition(ResolveAll(s[..n]).info)
    ensures f < n && IsFirstDefinition(s[..n], f) && IsDefinition(s[f].info) && !Earlier(s, f, IsDefinition)
  {
    hide OrdinateOf, ResolveAll;
    var t := s[..n];
    ClassExactly(ResolveAll(t).info);
    if forall k :: 0 <= k < |t| ==> !IsStrongDefinition(t[k]) {
      NoDefinitionSoFar(t);
      assert false;
    } else {
      var d: nat :| d < |t| && IsStrongDefinition(t[d]);
      f := FirstDefinition(t, d);
      ClassExactly(s[f].info);
      forall j | 0 <= j < f ensures !IsDefinition(s[j].info) {
        assert t[j] == s[j];
        ClassExactly(s[j].info);
      }
    }
  }

  /** Every survivor has an origin among the symbols seen. */
  lemma {:induction false} SurvivorOrigin(s: seq<Symbol>) returns (k: nat)
    requires |s| > 0 && AllWellFormed(s)
    ensures IsOrigin(s, ResolveAll(s), k)
  {
    hide OrdinateOf, Step, ResolveAll, IsOrigin;
    var n := |s| - 1;
    if n == 0 {
      k := 0;
      OnlySymbol(s);
    } else {
      k := SurvivorOrigin(s[..n]);
      LastStep(s);
      if Step(ResolveAll(s[..n]), s[n]).overriden {
        k := n;
        NewOrigin(s);
      } else {
        AnswerExactly(ResolveAll(s[..n]), s[n]);
        KeptOrigin(s, ResolveAll(s[..n]), ResolveAll(s), k);
      }
    }
  }

  lemma KeptOrigin(s: seq<Symbol>, old_: Symbol, r: Symbol, k: nat)
    requires |s| > 0 && IsOrigin(s[..|s| - 1], old_, k)
    requires SameSort(r.info, old_.info) && r.info.binding == old_.info.binding && r.value == old_.value
    requires r.info.desc != Common ==> r.info.size == old_.info.size
    ensures IsOrigin(s, r, k)
  {
    assert IsOrigin(s[..|s| - 1], r, k);
    OneMoreSymbol(s, r, k);
  }

  lemma OnlySymbol(s: seq<Symbol>)
    requires |s| == 1 && AllWellFormed(s)
    ensures IsOrigin(s, ResolveAll(s), 0)
  {
    assert ResolveAll(s) == s[0];
    assert IsDefinition(s[0].info) ==> !Earlier(s, 0, IsDefinition);
  }
}
