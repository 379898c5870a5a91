/** What resolving a whole sequence of symbols of one name amounts to, in whatever order they come. */
module ResolutionOrder {
  import opened ResolveInfos
  import opened StaticResolvers

  function Class(s: Symbol): Ordinate { OrdinateOf(s.info) }

  predicate AllWellFormed(s: seq<Symbol>) {
    forall k :: 0 <= k < |s| ==> WellFormed(s[k].info)
  }

  predicate AllRegular(s: seq<Symbol>) {
    forall k :: 0 <= k < |s| ==> !s[k].info.dyn
  }

  /** The class of the survivor, given the classes of the two symbols that meet. A shared definition that answers a
      regular reference keeps the binding of the reference. */
  function NextClass(new_: Ordinate, old_: Ordinate): Ordinate {
    match Action(new_, old_)
    case Und | Weaken | Def | DefW | DefD | DefWD | Com | CDef | Big => new_
    case MDefD | MDefWD => if old_ == WeakU then WeakDynD else DynD
    case _ => old_
  }

  lemma OverriddenClass(o: Info, n: Info, size: nat)
    ensures OrdinateOf(Overridden(o, n).(size := size)) == OrdinateOf(n)
    ensures WellFormed(n) ==> WellFormed(Overridden(o, n).(size := size))
  {}

  lemma UnchangedClass(o: Info, v: Visibility, size: nat)
    ensures OrdinateOf(o.(visibility := v, size := size)) == OrdinateOf(o)
    ensures WellFormed(o) ==> WellFormed(o.(visibility := v, size := size))
  {}

  lemma MarkedClass(o: Info, n: Info)
    requires WellFormed(o) && WellFormed(n)
    requires OrdinateOf(o) in {U, WeakU} && OrdinateOf(n) in {DynD, WeakDynD}
    ensures var r := Overridden(o, n).(binding := o.binding);
      WellFormed(r) && OrdinateOf(r) == if OrdinateOf(o) == WeakU then WeakDynD else DynD
  {}

  lemma NotIndirect(i: Info)
    requires WellFormed(i)
    ensures OrdinateOf(i) != Ind && i.desc != Indirect
  {}

  lemma StepClass(old_: Symbol, new_: Symbol)
    requires WellFormed(old_.info) && WellFormed(new_.info)
    ensures var r := Step(old_, new_).symbol.info;
      WellFormed(r) && OrdinateOf(r) == NextClass(OrdinateOf(new_.info), OrdinateOf(old_.info))
  {
    hide OrdinateOf, WellFormed, NextClass;
    var o, n := OrdinateOf(old_.info), OrdinateOf(new_.info);
    NotIndirect(old_.info);
    NotIndirect(new_.info);
    var r := Step(old_, new_).symbol.info;
    OverriddenClass(old_.info, new_.info, r.size);
    UnchangedClass(old_.info, r.visibility, r.size);
    NextClassOf(n, o);
    match Action(n, o) {
      case MDefD | MDefWD => RegularReference(n, o); MarkedClass(old_.info, new_.info);
      case MDef => BothStrong(n, o);
      case DUnd | DUndW => SharedDefinition(n, o); SharedIsDynamic(old_.info);
      case _ =>
    }
  }

  lemma NextClassOf(n: Ordinate, o: Ordinate)
    ensures match Action(n, o)
      case Und | Weaken | Def | DefW | DefD | DefWD | Com | CDef | Big => NextClass(n, o) == n
      case MDefD | MDefWD => NextClass(n, o) == if o == WeakU then WeakDynD else DynD
      case MDef => (n == D && o == D && NextClass(n, o) == D) || n == Ind || o == Ind
      case NoAct | DUnd | DUndW | CRef | MBig => NextClass(n, o) == o
      case _ => n == Ind || o == Ind
  {}

  lemma SharedIsDynamic(i: Info)
    requires OrdinateOf(i) in {DynD, WeakDynD}
    ensures i.dyn
  {}

  lemma RegularReference(n: Ordinate, o: Ordinate)
    requires Action(n, o) in {MDefD, MDefWD}
    ensures o in {U, WeakU} && n in {DynD, WeakDynD}
  {}

  lemma BothStrong(n: Ordinate, o: Ordinate)
    requires Action(n, o) == MDef && n != Ind && o != Ind
    ensures o == D && n == D
  {}

  lemma SharedDefinition(n: Ordinate, o: Ordinate)
    requires Action(n, o) in {DUnd, DUndW}
    ensures o in {DynD, WeakDynD}
  {}

  /** The pool entry after the symbols of `s` have been inserted one after another. */
  function ResolveAll(s: seq<Symbol>): (r: Symbol)
    requires |s| > 0 && AllWellFormed(s)
    ensures WellFormed(r.info)
  {
    if |s| == 1 then s[0]
    else
      StepClass(ResolveAll(s[..|s| - 1]), s[|s| - 1]);
      Step(ResolveAll(s[..|s| - 1]), s[|s| - 1]).symbol
  }

  /** How many multiple-definition errors inserting `s` reports. */
  function Errors(s: seq<Symbol>): nat
    requires AllWellFormed(s)
  {
    if |s| <= 1 then 0
    else Errors(s[..|s| - 1]) + if Step(ResolveAll(s[..|s| - 1]), s[|s| - 1]).error then 1 else 0
  }

  /** Undefined symbols rank below weak and shared definitions, those below a strong common symbol of a regular
      object, and that below a strong definition of a regular object. */
  function TierOf(o: Ordinate): nat {
    match o
    case U | WeakU | DynU | WeakDynU => 0
    case D => 3
    case C => 2
    case _ => 1
  }

  function Tier(s: Symbol): nat { TierOf(OrdinateOf(s.info)) }

  /** The finer order among symbols of regular objects. */
  function RankOf(o: Ordinate): nat {
    match o
    case U | DynU => 1
    case WeakU | WeakDynU => 0
    case C => 3
    case D => 4
    case _ => 2
  }

  function Rank(s: Symbol): nat { RankOf(OrdinateOf(s.info)) }

  lemma ClassTier(n: Ordinate, o: Ordinate)
    requires n != Ind && o != Ind
    ensures TierOf(NextClass(n, o)) == Larger(TierOf(o), TierOf(n))
  {}

  lemma ClassRank(n: Ordinate, o: Ordinate)
    requires n in {U, WeakU, D, WeakD, C, WeakC} && o in {U, WeakU, D, WeakD, C, WeakC}
    ensures RankOf(NextClass(n, o)) == Larger(RankOf(o), RankOf(n))
    ensures NextClass(n, o) in {U, WeakU, D, WeakD, C, WeakC}
  {}

  lemma StepTier(old_: Symbol, new_: Symbol)
    requires WellFormed(old_.info) && WellFormed(new_.info)
    ensures Tier(Step(old_, new_).symbol) == Larger(Tier(old_), Tier(new_))
  {
    StepClass(old_, new_);
    ClassTier(OrdinateOf(new_.info), OrdinateOf(old_.info));
  }

  lemma RegularClass(i: Info)
    requires WellFormed(i)
    ensures !i.dyn <==> OrdinateOf(i) in {U, WeakU, D, WeakD, C, WeakC}
  {}

  lemma StepRank(old_: Symbol, new_: Symbol)
    requires WellFormed(old_.info) && WellFormed(new_.info) && !old_.info.dyn && !new_.info.dyn
    ensures Rank(Step(old_, new_).symbol) == Larger(Rank(old_), Rank(new_))
    ensures !Step(old_, new_).symbol.info.dyn
  {
    StepClass(old_, new_);
    RegularClass(old_.info);
    RegularClass(new_.info);
    ClassRank(OrdinateOf(new_.info), OrdinateOf(old_.info));
    RegularClass(Step(old_, new_).symbol.info);
  }

  function MaxOf(f: Symbol -> nat, s: seq<Symbol>): (m: nat)
    ensures forall k :: 0 <= k < |s| ==> f(s[k]) <= m
    ensures |s| > 0 ==> exists k :: 0 <= k < |s| && f(s[k]) == m
  {
    if |s| == 0 then 0
    else
      var m := MaxOf(f, s[..|s| - 1]);
      var r := Larger(m, f(s[|s| - 1]));
      assert f(s[|s| - 1]) <= r && (|s| == 1 ==> r == f(s[0]));
      assert |s| > 1 && m == r ==> exists k :: 0 <= k < |s| - 1 && f(s[k]) == r by {
        if |s| > 1 && m == r {
          var k :| 0 <= k < |s| - 1 && f(s[..|s| - 1][k]) == r;
          assert f(s[k]) == r;
        }
      }
      assert r == m || r == f(s[|s| - 1]);
      r
  }

  /** Definedness of the survivor is the maximum over everything seen, shared objects included. */
  lemma {:induction false} SurvivorTier(s: seq<Symbol>)
    requires |s| > 0 && AllWellFormed(s)
    ensures Tier(ResolveAll(s)) == MaxOf(Tier, s)
  {
    if |s| > 1 {
      SurvivorTier(s[..|s| - 1]);
      StepTier(ResolveAll(s[..|s| - 1]), s[|s| - 1]);
    } else {
      assert MaxOf(Tier, s[..0]) == 0;
    }
  }

  lemma {:induction false} SurvivorRank(s: seq<Symbol>)
    requires |s| > 0 && AllWellFormed(s) && AllRegular(s)
    ensures Rank(ResolveAll(s)) == MaxOf(Rank, s) && !ResolveAll(s).info.dyn
  {
    if |s| > 1 {
      SurvivorRank(s[..|s| - 1]);
      StepRank(ResolveAll(s[..|s| - 1]), s[|s| - 1]);
    } else {
      assert MaxOf(Rank, s[..0]) == 0;
    }
  }

  /** Hence the order in which the symbols come decides neither. */
  lemma SurvivorOrderFree(s: seq<Symbol>, t: seq<Symbol>)
    requires |s| > 0 && AllWellFormed(s) && AllWellFormed(t) && multiset(s) == multiset(t)
    ensures |t| > 0 && Tier(ResolveAll(s)) == Tier(ResolveAll(t))
    ensures AllRegular(s) ==> Rank(ResolveAll(s)) == Rank(ResolveAll(t))
  {
    assert |t| == |multiset(t)| == |multiset(s)| == |s|;
    SurvivorTier(s);
    SurvivorTier(t);
    MaxOfMultiset(Tier, s, t);
    if AllRegular(s) {
      forall k | 0 <= k < |t| ensures !t[k].info.dyn {
        assert t[k] in multiset(s);
      }
      SurvivorRank(s);
      SurvivorRank(t);
      MaxOfMultiset(Rank, s, t);
    }
  }

  lemma MaxOfMultiset(f: Symbol -> nat, s: seq<Symbol>, t: seq<Symbol>)
    requires multiset(s) == multiset(t)
    ensures MaxOf(f, s) == MaxOf(f, t)
  {
    if |s| > 0 {
      MaxOfIncluded(f, s, t);
      MaxOfIncluded(f, t, s);
    } else {
      assert |t| == |multiset(t)| == 0;
    }
  }

  lemma MaxOfIncluded(f: Symbol -> nat, s: seq<Symbol>, t: seq<Symbol>)
    requires |s| > 0 && forall x :: x in multiset(s) ==> x in multiset(t)
    ensures MaxOf(f, s) <= MaxOf(f, t)
  {
    var k :| 0 <= k < |s| && f(s[k]) == MaxOf(f, s);
    assert s[k] in multiset(t);
    var l :| 0 <= l < |t| && t[l] == s[k];
  }

  predicate IsStrongDefinition(s: Symbol) { OrdinateOf(s.info) == D }

  predicate IsStrongCommon(s: Symbol) { OrdinateOf(s.info) == C }

  function CommonSize(s: Symbol): nat {
    if IsStrongCommon(s) then s.info.size else 0
  }

  lemma StepToCommon(old_: Symbol, new_: Symbol)
    requires WellFormed(old_.info) && WellFormed(new_.info) && !old_.info.dyn && !new_.info.dyn
    requires IsStrongCommon(Step(old_, new_).symbol)
    ensures IsStrongCommon(old_) || IsStrongCommon(new_)
    ensures Rank(old_) <= 3 && (!IsStrongCommon(old_) ==> Rank(old_) < 3)
    ensures Step(old_, new_).symbol.info.size
         == if IsStrongCommon(old_) then Larger(old_.info.size, CommonSize(new_)) else new_.info.size
  {
    RegularClass(old_.info);
    RegularClass(new_.info);
    StepClass(old_, new_);
    CommonMeets(OrdinateOf(new_.info), OrdinateOf(old_.info));
  }

  lemma CommonMeets(n: Ordinate, o: Ordinate)
    requires n in {U, WeakU, D, WeakD, C, WeakC} && o in {U, WeakU, D, WeakD, C, WeakC} && NextClass(n, o) == C
    ensures o == C && n == C ==> Action(n, o) == MBig
    ensures o == C && n != C ==> Action(n, o) == NoAct
    ensures o != C ==> n == C && Action(n, o) == Com && o != D
  {}

  /** A strong common symbol that survives among regular objects has the largest strong common size seen. */
  lemma {:induction false} LargestCommonSize(s: seq<Symbol>)
    requires |s| > 0 && AllWellFormed(s) && AllRegular(s)
    requires IsStrongCommon(ResolveAll(s))
    ensures ResolveAll(s).info.size == MaxOf(CommonSize, s)
  {
    hide Step, OrdinateOf;
    var n := |s| - 1;
    if n > 0 {
      var old_, new_ := ResolveAll(s[..n]), s[n];
      SurvivorRank(s[..n]);
      StepToCommon(old_, new_);
      if IsStrongCommon(old_) {
        LargestCommonSize(s[..n]);
      } else {
        NoStrongCommon(s[..n]);
      }
    } else {
      assert MaxOf(CommonSize, s[..0]) == 0;
    }
  }

  lemma NoStrongCommon(s: seq<Symbol>)
    requires |s| > 0 && AllWellFormed(s) && AllRegular(s) && Rank(ResolveAll(s)) < 3
    ensures MaxOf(CommonSize, s) == 0
  {
    hide OrdinateOf, ResolveAll;
    SurvivorRank(s);
    var k :| 0 <= k < |s| && CommonSize(s[k]) == MaxOf(CommonSize, s);
    assert Rank(s[k]) < 3;
  }

  /** Everything the definition says about the symbol, its visibility aside. */
  predicate SameDefinition(a: Symbol, b: Symbol) {
    a.info == b.info.(visibility := a.info.visibility, identity := a.info.identity) && a.value == b.value
  }

  lemma StepReports(old_: Symbol, new_: Symbol)
    requires WellFormed(old_.info) && WellFormed(new_.info)
    ensures Step(old_, new_).error
       <==> IsStrongDefinition(old_) && IsStrongDefinition(new_) && !SameAbsolute(old_, new_)
  {
    if Action(OrdinateOf(new_.info), OrdinateOf(old_.info)) == MDef {
      BothStrong(OrdinateOf(new_.info), OrdinateOf(old_.info));
    }
  }

  lemma StepKeepsRelative(old_: Symbol, new_: Symbol)
    requires WellFormed(old_.info) && WellFormed(new_.info)
    requires old_.info.binding != Absolute && new_.info.binding != Absolute
    ensures Step(old_, new_).symbol.info.binding != Absolute
  {
    hide OrdinateOf, Action;
  }

  lemma StepDefines(old_: Symbol, new_: Symbol)
    requires WellFormed(old_.info) && WellFormed(new_.info)
    ensures IsStrongDefinition(Step(old_, new_).symbol) <==> IsStrongDefinition(old_) || IsStrongDefinition(new_)
  {
    StepTier(old_, new_);
  }

  lemma StepFromDefinition(old_: Symbol, new_: Symbol)
    requires WellFormed(old_.info) && WellFormed(new_.info) && IsStrongDefinition(old_) && !IsStrongDefinition(new_)
    ensures SameDefinition(Step(old_, new_).symbol, old_) && !Step(old_, new_).overriden && !Step(old_, new_).error
  {
    assert Action(OrdinateOf(new_.info), D) in {NoAct, CRef};
  }

  lemma StepToDefinition(old_: Symbol, new_: Symbol)
    requires WellFormed(old_.info) && WellFormed(new_.info) && !IsStrongDefinition(old_) && IsStrongDefinition(new_)
    ensures SameDefinition(Step(old_, new_).symbol, new_) && !Step(old_, new_).error
  {
    assert Action(D, OrdinateOf(old_.info)) in {Def, CDef};
    RegularClass(new_.info);
  }

  /** Among any mixture of regular and shared objects a sole strong regular definition survives with its type,
      binding, source, size and value, wherever it comes. */
  lemma {:induction false} SoleDefinitionSurvives(s: seq<Symbol>, d: nat)
    requires AllWellFormed(s) && d < |s| && IsStrongDefinition(s[d])
    requires forall k :: 0 <= k < |s| && k != d ==> !IsStrongDefinition(s[k])
    ensures SameDefinition(ResolveAll(s), s[d]) && Errors(s) == 0
    ensures IsStrongDefinition(ResolveAll(s))
  {
    hide Step, OrdinateOf;
    var n := |s| - 1;
    if n > 0 {
      StepDefines(ResolveAll(s[..n]), s[n]);
      if d < n {
        SoleDefinitionSurvives(s[..n], d);
        StepFromDefinition(ResolveAll(s[..n]), s[n]);
      } else {
        NoDefinitionSoFar(s[..n]);
        StepToDefinition(ResolveAll(s[..n]), s[n]);
      }
    }
  }

  lemma {:induction false} NoDefinitionSoFar(s: seq<Symbol>)
    requires |s| > 0 && AllWellFormed(s) && forall k :: 0 <= k < |s| ==> !IsStrongDefinition(s[k])
    ensures !IsStrongDefinition(ResolveAll(s)) && Errors(s) == 0
  {
    hide Step, OrdinateOf;
    var n := |s| - 1;
    if n > 0 {
      NoDefinitionSoFar(s[..n]);
      StepDefines(ResolveAll(s[..n]), s[n]);
      StepReports(ResolveAll(s[..n]), s[n]);
    }
  }

  function Definitions(s: seq<Symbol>): nat {
    if |s| == 0 then 0 else Definitions(s[..|s| - 1]) + if IsStrongDefinition(s[|s| - 1]) then 1 else 0
  }

  /** Every strong regular definition after the first is reported, and nothing else is, as long as no symbol is
      absolute. */
  lemma {:induction false} EveryExtraDefinitionReported(s: seq<Symbol>)
    requires |s| > 0 && AllWellFormed(s)
    requires forall k :: 0 <= k < |s| ==> s[k].info.binding != Absolute
    ensures Errors(s) == if Definitions(s) == 0 then 0 else Definitions(s) - 1
    ensures IsStrongDefinition(ResolveAll(s)) <==> Definitions(s) > 0
    ensures ResolveAll(s).info.binding != Absolute
  {
    hide Step, OrdinateOf;
    var n := |s| - 1;
    if n > 0 {
      EveryExtraDefinitionReported(s[..n]);
      StepDefines(ResolveAll(s[..n]), s[n]);
      StepReports(ResolveAll(s[..n]), s[n]);
      StepKeepsRelative(ResolveAll(s[..n]), s[n]);
    } else {
      assert Definitions(s[..0]) == 0;
    }
  }

  /** The incoming symbol is dropped: a strong common symbol or a second strong definition that meets a definition. */
  predicate IsDroppedBy(definition: Symbol, new_: Symbol) {
    IsStrongCommon(new_) || (IsStrongDefinition(new_) && !SameAbsolute(definition, new_))
  }

  lemma StepVisibility(old_: Symbol, new_: Symbol)
    requires WellFormed(old_.info) && WellFormed(new_.info)
    ensures Step(old_, new_).symbol.info.visibility
         == if IsStrongDefinition(old_) && IsDroppedBy(old_, new_) then old_.info.visibility
            else MostConstrained(old_.info.visibility, new_.info.visibility)
  {
    hide OrdinateOf, Effect, Action;
    NotIndirect(old_.info);
    NotIndirect(new_.info);
    var n, o := OrdinateOf(new_.info), OrdinateOf(old_.info);
    DroppedOnly(n, o);
    ActionDirect(n, o);
    EffectVisibility(Action(n, o), old_.info, new_.info, SameAbsolute(old_, new_));
  }

  /** Resolution keeps the most constrained visibility seen, unless it drops a symbol with a visibility stricter than
      the one the definition has. */
  lemma VisibilityKept(old_: Symbol, new_: Symbol)
    requires WellFormed(old_.info) && WellFormed(new_.info)
    ensures Step(old_, new_).symbol.info.visibility == MostConstrained(old_.info.visibility, new_.info.visibility)
       <==> !(IsStrongDefinition(old_) && IsDroppedBy(old_, new_)
              && Strictness(new_.info.visibility) > Strictness(old_.info.visibility))
  {
    hide OrdinateOf, Effect, Action;
    StepVisibility(old_, new_);
  }

  /** The strictness of the most constrained visibility seen. */
  function Strictest(s: seq<Symbol>): nat {
    MaxOf(VisibilityStrictness, s)
  }

  function VisibilityStrictness(s: Symbol): nat { Strictness(s.info.visibility) }

  predicate IsFirstDefinition(s: seq<Symbol>, d: nat) {
    d < |s| && IsStrongDefinition(s[d]) && forall k :: 0 <= k < d ==> !IsStrongDefinition(s[k])
  }

  /** The first definition of the sequence drops the symbol at `k`. */
  predicate Dropped(s: seq<Symbol>, k: nat)
    requires k < |s|
  {
    exists d :: 0 <= d < k && IsFirstDefinition(s, d) && IsDroppedBy(s[d], s[k])
  }

  /** The first strong definition stays in the pool, or one like it does: no later one changes its binding and value. */
  lemma {:induction false} DefinitionStands(s: seq<Symbol>, d: nat)
    requires AllWellFormed(s) && IsFirstDefinition(s, d)
    ensures var r := ResolveAll(s);
      IsStrongDefinition(r) && r.info.binding == s[d].info.binding && r.value == s[d].value
  {
    hide Step, OrdinateOf;
    var n := |s| - 1;
    if d < n {
      DefinitionStands(s[..n], d);
      StepDefines(ResolveAll(s[..n]), s[n]);
      StepOnDefinition(ResolveAll(s[..n]), s[n]);
    } else if n > 0 {
      NoDefinitionSoFar(s[..n]);
      StepDefines(ResolveAll(s[..n]), s[n]);
      StepToDefinition(ResolveAll(s[..n]), s[n]);
    }
  }

  lemma StepOnDefinition(old_: Symbol, new_: Symbol)
    requires WellFormed(old_.info) && WellFormed(new_.info) && IsStrongDefinition(old_)
    ensures Step(old_, new_).symbol.info.binding == old_.info.binding && Step(old_, new_).symbol.value == old_.value
  {
    hide OrdinateOf;
    NotIndirect(new_.info);
    if !IsStrongDefinition(new_) {
      StepFromDefinition(old_, new_);
    }
  }

  /** Which dropping the pool does when `s[k]` comes. */
  lemma DropsExactly(s: seq<Symbol>, k: nat)
    requires AllWellFormed(s) && 0 < k < |s|
    ensures var old_ := ResolveAll(s[..k]); Dropped(s, k) <==> IsStrongDefinition(old_) && IsDroppedBy(old_, s[k])
  {
    hide OrdinateOf, ResolveAll;
    if d :| 0 <= d < k && IsStrongDefinition(s[d]) {
      var f := FirstDefinition(s, d);
      DefinitionStands(s[..k], f);
      DefinitionDesc(ResolveAll(s[..k]));
      DefinitionDesc(s[f]);
      assert IsFirstDefinition(s, f);
      assert forall e :: 0 <= e < k && IsFirstDefinition(s, e) ==> e == f;
    } else {
      NoDefinitionSoFar(s[..k]);
    }
  }

  lemma {:induction false} FirstDefinition(s: seq<Symbol>, d: nat) returns (f: nat)
    requires d < |s| && IsStrongDefinition(s[d])
    ensures f <= d && IsFirstDefinition(s, f)
  {
    hide OrdinateOf;
    if k: nat :| k < d && IsStrongDefinition(s[k]) {
      f := FirstDefinition(s, k);
    } else {
      f := d;
    }
  }

  /** The strong definitions among the first `n` symbols that the first one drops. */
  function DroppedDefinitions(s: seq<Symbol>, n: nat): nat
    requires n <= |s|
  {
    if n == 0 then 0
    else DroppedDefinitions(s, n - 1) + if IsStrongDefinition(s[n - 1]) && Dropped(s, n - 1) then 1 else 0
  }

  /** With absolute symbols too: an error is reported for each strong definition after the first that is not the same
      absolute symbol as the first, and for nothing else. */
  lemma {:induction false} EveryDroppedDefinitionReported(s: seq<Symbol>, n: nat)
    requires AllWellFormed(s) && n <= |s|
    ensures Errors(s[..n]) == DroppedDefinitions(s, n)
  {
    hide Step, OrdinateOf, ResolveAll, Dropped;
    if n > 0 {
      EveryDroppedDefinitionReported(s, n - 1);
      assert s[..n][..n - 1] == s[..n - 1];
      if n > 1 {
        DropsExactly(s, n - 1);
        StepReports(ResolveAll(s[..n - 1]), s[n - 1]);
      } else {
        NothingBefore(s);
      }
    }
  }

  lemma NothingBefore(s: seq<Symbol>)
    requires |s| > 0
    ensures !Dropped(s, 0)
  {}

  lemma DefinitionDesc(x: Symbol)
    requires IsStrongDefinition(x) && WellFormed(x.info)
    ensures x.info.desc == Define
  {}

  /** `v` is the strictest visibility of the symbols that were not dropped. */
  predicate IsStrictestLeft(s: seq<Symbol>, v: nat) {
    && (forall k :: 0 <= k < |s| && !Dropped(s, k) ==> VisibilityStrictness(s[k]) <= v)
    && (exists k :: 0 <= k < |s| && !Dropped(s, k) && VisibilityStrictness(s[k]) == v)
  }

  lemma DroppedBefore(s: seq<Symbol>, n: nat)
    requires n < |s|
    ensures forall k :: 0 <= k < n ==> Dropped(s, k) == Dropped(s[..n], k)
  {
    hide OrdinateOf, IsDroppedBy;
    forall d | 0 <= d < n ensures IsFirstDefinition(s, d) == IsFirstDefinition(s[..n], d) {}
  }

  lemma OneMoreLeft(s: seq<Symbol>, v: nat)
    requires |s| > 1 && IsStrictestLeft(s[..|s| - 1], v)
    ensures IsStrictestLeft(s, if Dropped(s, |s| - 1) then v else Larger(v, VisibilityStrictness(s[|s| - 1])))
  {
    hide Dropped, VisibilityStrictness;
    DroppedBefore(s, |s| - 1);
    var k :| 0 <= k < |s| - 1 && !Dropped(s[..|s| - 1], k) && VisibilityStrictness(s[..|s| - 1][k]) == v;
    assert !Dropped(s, k) && VisibilityStrictness(s[k]) == v;
  }

  /** The survivor has the strictest visibility of the symbols that were not dropped. */
  lemma {:induction false} UndroppedVisibility(s: seq<Symbol>)
    requires |s| > 0 && AllWellFormed(s)
    ensures IsStrictestLeft(s, Strictness(ResolveAll(s).info.visibility))
  {
    hide Step, OrdinateOf, IsDroppedBy, IsStrictestLeft;
    var n := |s| - 1;
    if n == 0 {
      OnlyOne(s);
    } else {
      UndroppedVisibility(s[..n]);
      DropsExactly(s, n);
      StepVisibility(ResolveAll(s[..n]), s[n]);
      OneMoreLeft(s, Strictness(ResolveAll(s[..n]).info.visibility));
    }
  }

  lemma OnlyOne(s: seq<Symbol>)
    requires |s| == 1
    ensures IsStrictestLeft(s, VisibilityStrictness(s[0]))
  {
    assert !Dropped(s, 0);
  }

  /** Hence it is the strictest one seen exactly if a symbol that has it was not dropped. */
  lemma StrictestVisibilitySurvives(s: seq<Symbol>)
    requires |s| > 0 && AllWellFormed(s)
    ensures Strictness(ResolveAll(s).info.visibility) == Strictest(s)
       <==> exists k :: 0 <= k < |s| && VisibilityStrictness(s[k]) == Strictest(s) && !Dropped(s, k)
  {
    hide ResolveAll, Dropped, VisibilityStrictness;
    UndroppedVisibility(s);
    var k :| 0 <= k < |s| && !Dropped(s, k) && VisibilityStrictness(s[k]) == Strictness(ResolveAll(s).info.visibility);
    assert VisibilityStrictness(s[k]) <= Strictest(s);
  }

  lemma ActionDirect(n: Ordinate, o: Ordinate)
    requires n != Ind && o != Ind
    ensures !IsIndirectAction(Action(n, o))
  {}

  lemma EffectVisibility(action: LinkAction, o: Info, n: Info, same: bool)
    requires !IsIndirectAction(action)
    ensures Effect(action, o, n, same).0.visibility
         == if action == CRef || (action == MDef && !same) then o.visibility
            else MostConstrained(o.visibility, n.visibility)
  {}

  lemma DroppedOnly(n: Ordinate, o: Ordinate)
    requires n != Ind && o != Ind
    ensures Action(n, o) == CRef <==> o == D && n == C
    ensures Action(n, o) == MDef <==> o == D && n == D
  {}

  /** Once a definition or a common symbol is in the pool, the name never becomes undefined again. */
  lemma DefinedStaysDefined(old_: Symbol, new_: Symbol)
    requires WellFormed(old_.info) && WellFormed(new_.info) && old_.info.desc != Undefined
    ensures Step(old_, new_).symbol.info.desc != Undefined
  {
    hide Step, OrdinateOf;
    NotIndirect(old_.info);
    NotIndirect(new_.info);
    StepClass(old_, new_);
    StepTier(old_, new_);
    TierDefined(old_.info);
    TierDefined(Step(old_, new_).symbol.info);
  }

  lemma TierDefined(i: Info)
    requires WellFormed(i)
    ensures i.desc == Undefined <==> TierOf(OrdinateOf(i)) == 0
  {}

  /** With shared objects the order does decide the binding: a weak reference followed by a shared definition leaves a
      weak symbol, the other order a global one. */
  lemma BindingDependsOnOrder(size: nat, v: int)
    ensures var weakReference := Symbol(Info(0, 0, Undefined, Weak, false, Default, 0, 0), 0);
      var sharedDefinition := Symbol(Info(size, 0, Define, Global, true, Default, 0, 0), v);
      && ResolveAll([weakReference, sharedDefinition]).info.binding == Weak
      && ResolveAll([sharedDefinition, weakReference]).info.binding == Global
  {
    var weakReference := Symbol(Info(0, 0, Undefined, Weak, false, Default, 0, 0), 0);
    var sharedDefinition := Symbol(Info(size, 0, Define, Global, true, Default, 0, 0), v);
    assert [weakReference, sharedDefinition][..1] == [weakReference];
    assert [sharedDefinition, weakReference][..1] == [sharedDefinition];
  }
}
