/** The size of a common symbol that survives: which of the sizes seen it is the largest of. */
module CommonSizes {
  import opened ResolveInfos
  import opened StaticResolvers
  import opened ResolutionOrder

  predicate IsCommon(s: Symbol) { Class(s) in {C, WeakC, DynC} }

  /** Two common symbols leave the larger size, unless the incoming weak one is larger than what is there, or an
      incoming strong one is smaller than the weak one that it takes the place of. */
  lemma CommonAdjusts(old_: Symbol, new_: Symbol)
    requires WellFormed(old_.info) && WellFormed(new_.info) && IsCommon(old_) && IsCommon(new_)
    ensures Step(old_, new_).symbol.info.size == Larger(old_.info.size, new_.info.size)
       <==> !(Class(new_) == WeakC && new_.info.size > old_.info.size)
            && !(Class(new_) == C && Class(old_) == WeakC && new_.info.size < old_.info.size)
  {
    hide OrdinateOf;
    NotIndirect(old_.info);
    NotIndirect(new_.info);
  }

  /** With a weak one among the two: only a shared common symbol adjusts the size of a weak one. */
  lemma WeakCommonMeets(old_: Symbol, new_: Symbol)
    requires WellFormed(old_.info) && WellFormed(new_.info) && IsCommon(old_) && IsCommon(new_)
    requires Class(old_) == WeakC || Class(new_) == WeakC
    ensures var size := Step(old_, new_).symbol.info.size;
      if Class(new_) == WeakC then size == old_.info.size
      else if Class(new_) == C then size == new_.info.size
      else size == Larger(old_.info.size, new_.info.size)
  {
    hide OrdinateOf;
    NotIndirect(old_.info);
    NotIndirect(new_.info);
  }

  function SharedSize(s: Symbol): nat {
    if Class(s) == DynC then s.info.size else 0
  }

  /** The first symbol that is not undefined. */
  predicate IsFirstDefined(s: seq<Symbol>, f: nat) {
    f < |s| && Tier(s[f]) > 0 && forall k :: 0 <= k < f ==> Tier(s[k]) == 0
  }

  /** How a weak or shared common symbol comes to be, or stays, in the pool. */
  lemma StepToWeakCommon(old_: Symbol, new_: Symbol)
    requires WellFormed(old_.info) && WellFormed(new_.info)
    requires var r := Step(old_, new_).symbol; Class(r) in {WeakC, DynC}
    ensures var r := Step(old_, new_).symbol;
      if Tier(old_) == 0 then Class(new_) == Class(r) && r.info.size == new_.info.size && Tier(new_) == 1
      else Class(old_) == Class(r) && r.info.size == Larger(old_.info.size, SharedSize(new_))
  {
    hide OrdinateOf, NextClass;
    NotIndirect(old_.info);
    NotIndirect(new_.info);
    StepClass(old_, new_);
    NextClassOf(Class(new_), Class(old_));
  }

  lemma NothingShared(s: seq<Symbol>)
    requires |s| > 0 && AllWellFormed(s) && Tier(ResolveAll(s)) == 0
    ensures MaxOf(SharedSize, s) == 0 && forall k :: 0 <= k < |s| ==> Tier(s[k]) == 0
  {
    hide OrdinateOf, ResolveAll, TierOf;
    SurvivorTier(s);
    forall k | 0 <= k < |s| ensures Tier(s[k]) == 0 {
      assert Tier(s[k]) <= MaxOf(Tier, s);
    }
    var k :| 0 <= k < |s| && SharedSize(s[k]) == MaxOf(SharedSize, s);
    if Class(s[k]) == DynC {
      WeakTier(s[k]);
    }
  }

  lemma MaxOfLast(f: Symbol -> nat, s: seq<Symbol>)
    requires |s| > 0
    ensures MaxOf(f, s) == Larger(MaxOf(f, s[..|s| - 1]), f(s[|s| - 1]))
    ensures |s| == 1 ==> MaxOf(f, s) == f(s[0])
  {
    assert |s| == 1 ==> MaxOf(f, s[..0]) == 0;
  }

  /** A weak or shared common symbol that survives is the first symbol that was not undefined, grown to the largest
      size of the shared ones. */
  lemma {:induction false} WeakCommonSize(s: seq<Symbol>) returns (f: nat)
    requires |s| > 0 && AllWellFormed(s) && Class(ResolveAll(s)) in {WeakC, DynC}
    ensures IsFirstDefined(s, f) && Class(s[f]) == Class(ResolveAll(s))
    ensures ResolveAll(s).info.size == Larger(s[f].info.size, MaxOf(SharedSize, s))
    ensures Class(ResolveAll(s)) == DynC ==> ResolveAll(s).info.size == MaxOf(SharedSize, s)
  {
    hide Step, OrdinateOf, MaxOf, TierOf, ResolveAll;
    var n := |s| - 1;
    MaxOfLast(SharedSize, s);
    if n == 0 {
      f := 0;
      ResolveOne(s);
      WeakTier(s[0]);
    } else {
      LastStep(s);
      var old_ := ResolveAll(s[..n]);
      StepToWeakCommon(old_, s[n]);
      if Tier(old_) == 0 {
        NothingShared(s[..n]);
        f := n;
      } else {
        f := WeakCommonSize(s[..n]);
      }
    }
  }

  lemma WeakTier(s: Symbol)
    requires Class(s) in {WeakC, DynC}
    ensures Tier(s) == 1
  {}

  /** How a strong common symbol comes to be, or stays, in the pool. */
  lemma StepToStrongCommon(old_: Symbol, new_: Symbol)
    requires WellFormed(old_.info) && WellFormed(new_.info) && Class(old_) != D && Class(new_) != D
    requires Class(old_) == C || Class(new_) == C
    ensures var r := Step(old_, new_).symbol;
      Class(r) == C && r.info.size == if Class(old_) in {C, DynC} then
          Larger(old_.info.size, Larger(CommonSize(new_), SharedSize(new_)))
        else new_.info.size
  {
    hide OrdinateOf;
    NotIndirect(old_.info);
    NotIndirect(new_.info);
    StepClass(old_, new_);
  }

  /** The first symbol that is not undefined comes before the i-th, and is a shared common one. */
  ghost predicate SharedLeads(s: seq<Symbol>, i: nat)
    requires i <= |s|
  {
    exists f: nat :: f < i && IsFirstDefined(s, f) && Class(s[f]) == DynC
  }

  /** What the shared common symbols before the i-th symbol count. */
  ghost function SharedBefore(s: seq<Symbol>, i: nat): nat
    requires i <= |s|
  {
    if SharedLeads(s, i) then MaxOf(SharedSize, s[..i]) else 0
  }

  lemma StepSharedCommon(old_: Symbol, new_: Symbol)
    requires WellFormed(old_.info) && WellFormed(new_.info)
    requires (Class(old_) == DynC && Class(new_) != C && Class(new_) != D) || (Tier(old_) == 0 && Class(new_) == DynC)
    ensures Class(Step(old_, new_).symbol) == DynC
  {
    hide OrdinateOf, Step;
    NotIndirect(old_.info);
    NotIndirect(new_.info);
    StepClass(old_, new_);
  }

  /** Without a strong symbol, a shared common one that comes first stays. */
  lemma {:induction false} LeaderStays(s: seq<Symbol>, f: nat)
    requires AllWellFormed(s) && IsFirstDefined(s, f) && Class(s[f]) == DynC
    requires forall k :: 0 <= k < |s| ==> Class(s[k]) != D && Class(s[k]) != C
    ensures Class(ResolveAll(s)) == DynC
  {
    hide Step, OrdinateOf, TierOf, ResolveAll;
    var n := |s| - 1;
    if n == 0 {
      ResolveOne(s);
    } else {
      LastStep(s);
      if f < n {
        LeaderStays(s[..n], f);
      } else {
        NothingDefined(s[..n]);
      }
      StepSharedCommon(ResolveAll(s[..n]), s[n]);
    }
  }

  lemma NothingDefined(s: seq<Symbol>)
    requires |s| > 0 && AllWellFormed(s) && forall k :: 0 <= k < |s| ==> Tier(s[k]) == 0
    ensures Tier(ResolveAll(s)) == 0
  {
    hide OrdinateOf, TierOf, ResolveAll;
    SurvivorTier(s);
    var k :| 0 <= k < |s| && Tier(s[k]) == MaxOf(Tier, s);
  }

  /** A strong common symbol that survives has the largest size of all strong ones, of the shared ones that came after
      the first strong one, and of those before if the first symbol that was not undefined is a shared one. */
  lemma {:induction false} StrongCommonSize(s: seq<Symbol>, i: nat)
    requires AllWellFormed(s) && i < |s| && Class(s[i]) == C
    requires forall k :: 0 <= k < i ==> Class(s[k]) != C
    requires forall k :: 0 <= k < |s| ==> Class(s[k]) != D
    ensures Class(ResolveAll(s)) == C
    ensures ResolveAll(s).info.size
         == Larger(MaxOf(CommonSize, s), Larger(MaxOf(SharedSize, s[i..]), SharedBefore(s, i)))
  {
    hide Step, OrdinateOf, MaxOf, SharedBefore, ResolveAll, Larger, CommonSize, SharedSize;
    var n := |s| - 1;
    if n > i {
      StrongCommonSize(s[..n], i);
      SharedBeforeLonger(s, i);
      LastStrongCommon(s, i, SharedBefore(s, i));
    } else {
      FirstStrongCommon(s);
    }
  }

  lemma LastStrongCommon(s: seq<Symbol>, i: nat, before: nat)
    requires AllWellFormed(s) && i < |s| - 1 && Class(s[|s| - 1]) != D && Class(ResolveAll(s[..|s| - 1])) == C
    requires ResolveAll(s[..|s| - 1]).info.size
          == Larger(MaxOf(CommonSize, s[..|s| - 1]), Larger(MaxOf(SharedSize, s[..|s| - 1][i..]), before))
    ensures Class(ResolveAll(s)) == C
    ensures ResolveAll(s).info.size == Larger(MaxOf(CommonSize, s), Larger(MaxOf(SharedSize, s[i..]), before))
  {
    hide Step, OrdinateOf, MaxOf, CommonSize, SharedSize, AllWellFormed, ResolveAll;
    var n := |s| - 1;
    MaxOfTail(s, i);
    MaxOfLast(CommonSize, s);
    LastStep(s);
    StepToStrongCommon(ResolveAll(s[..n]), s[n]);
  }

  lemma MaxOfTail(s: seq<Symbol>, i: nat)
    requires i < |s| - 1
    ensures MaxOf(SharedSize, s[i..]) == Larger(MaxOf(SharedSize, s[..|s| - 1][i..]), SharedSize(s[|s| - 1]))
  {
    hide MaxOf, SharedSize;
    MaxOfLast(SharedSize, s[i..]);
    assert s[i..][..|s| - 1 - i] == s[..|s| - 1][i..];
  }

  lemma LastStep(s: seq<Symbol>)
    requires AllWellFormed(s) && |s| > 1
    ensures AllWellFormed(s[..|s| - 1]) && WellFormed(s[|s| - 1].info)
    ensures ResolveAll(s) == Step(ResolveAll(s[..|s| - 1]), s[|s| - 1]).symbol
  {
    hide Step, OrdinateOf;
  }

  lemma ResolveOne(s: seq<Symbol>)
    requires AllWellFormed(s) && |s| == 1
    ensures ResolveAll(s) == s[0]
  {}

  lemma SharedBeforeLonger(s: seq<Symbol>, i: nat)
    requires i < |s| - 1
    ensures SharedBefore(s[..|s| - 1], i) == SharedBefore(s, i)
  {
    hide MaxOf, OrdinateOf, TierOf;
    var shorter := s[..|s| - 1];
    assert shorter[..i] == s[..i];
    forall f: nat | f < i ensures IsFirstDefined(shorter, f) <==> IsFirstDefined(s, f) {
      assert forall k :: 0 <= k <= f ==> shorter[k] == s[k];
    }
  }

  lemma FirstStrongCommon(s: seq<Symbol>)
    requires AllWellFormed(s) && |s| > 0 && Class(s[|s| - 1]) == C
    requires forall k :: 0 <= k < |s| - 1 ==> Class(s[k]) != C && Class(s[k]) != D
    ensures Class(ResolveAll(s)) == C
    ensures ResolveAll(s).info.size
         == Larger(MaxOf(CommonSize, s), Larger(MaxOf(SharedSize, s[|s| - 1..]), SharedBefore(s, |s| - 1)))
  {
    hide Step, OrdinateOf, MaxOf, ResolveAll, SharedBefore, AllWellFormed;
    var i := |s| - 1;
    assert s[i..] == [s[i]];
    MaxOfLast(SharedSize, [s[i]]);
    MaxOfLast(CommonSize, s);
    if i == 0 {
      ResolveOne(s);
      SharedSoFar(s, 0);
    } else {
      LastStep(s);
      NoStrongSymbol(s[..i]);
      SharedSoFar(s, i);
      StepToStrongCommon(ResolveAll(s[..i]), s[i]);
    }
  }

  lemma SharedSoFar(s: seq<Symbol>, i: nat)
    requires AllWellFormed(s) && i < |s| && forall k :: 0 <= k < i ==> Class(s[k]) != C && Class(s[k]) != D
    ensures SharedBefore(s, i)
         == if i > 0 && Class(ResolveAll(s[..i])) == DynC then ResolveAll(s[..i]).info.size else 0
  {
    hide OrdinateOf, ResolveAll, MaxOf, TierOf;
    if i > 0 && Class(ResolveAll(s[..i])) == DynC {
      var f := WeakCommonSize(s[..i]);
      assert IsFirstDefined(s, f);
    }
    if f: nat :| f < i && IsFirstDefined(s, f) && Class(s[f]) == DynC {
      assert IsFirstDefined(s[..i], f);
      LeaderStays(s[..i], f);
      var _ := WeakCommonSize(s[..i]);
    }
  }

  lemma NoStrongSymbol(s: seq<Symbol>)
    requires |s| > 0 && AllWellFormed(s)
    requires forall k :: 0 <= k < |s| ==> Class(s[k]) != D && Class(s[k]) != C
    ensures Class(ResolveAll(s)) != D && Class(ResolveAll(s)) != C && MaxOf(CommonSize, s) == 0
  {
    hide OrdinateOf, ResolveAll, TierOf;
    SurvivorTier(s);
    var k :| 0 <= k < |s| && Tier(s[k]) == MaxOf(Tier, s);
    StrongTiers(Class(s[k]));
    StrongTiers(Class(ResolveAll(s)));
    var l :| 0 <= l < |s| && CommonSize(s[l]) == MaxOf(CommonSize, s);
  }

  lemma StrongTiers(o: Ordinate)
    ensures TierOf(o) >= 2 <==> o == C || o == D
  {}
}
