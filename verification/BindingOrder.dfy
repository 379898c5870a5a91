/** The binding of the survivor, over sequences of regular and shared symbols of one name: exactly when every order of
    the same symbols leaves the same one. */
module BindingOrder {
  import opened ResolveInfos
  import opened StaticResolvers
  import opened ResolutionOrder

  function BindingOf(s: Symbol): Binding { s.info.binding }

  function Seen(s: seq<Symbol>): set<Symbol> { set x | x in s }

  ghost predicate Has(seen: set<Symbol>, o: Ordinate) {
    exists x :: x in seen && Class(x) == o
  }

  predicate IsSharedDefinition(o: Ordinate) { o in {DynD, WeakDynD} }

  predicate IsReference(o: Ordinate) { o in {U, WeakU} }

  /** All symbols of the classes `p` have one binding. */
  ghost predicate OneBinding(seen: set<Symbol>, p: Ordinate -> bool) {
    forall x, y :: x in seen && y in seen && p(Class(x)) && p(Class(y)) ==> BindingOf(x) == BindingOf(y)
  }

  /** A shared definition takes the binding of a reference that came before it, so the two must agree. */
  ghost predicate ReferencesAgree(seen: set<Symbol>) {
    forall d, u :: d in seen && u in seen && IsSharedDefinition(Class(d)) && IsReference(Class(u))
                   ==> BindingOf(d) == BindingOf(u)
  }

  /** The set of symbols leaves one binding in every order. A strong common symbol is always global, and a weak
      definition takes the place of shared definitions, so that the references do not matter then. */
  ghost predicate BindingFixed(seen: set<Symbol>) {
    if Has(seen, D) then OneBinding(seen, o => o == D)
    else if Has(seen, C) then true
    else if Has(seen, WeakD) then forall c :: c in seen && Class(c) == DynC ==> BindingOf(c) == Weak
    else if exists x :: x in seen && Tier(x) == 1 then
      OneBinding(seen, o => TierOf(o) == 1) && ReferencesAgree(seen)
    else Has(seen, U) || OneBinding(seen, o => true)
  }

  predicate KeepsBinding(action: LinkAction) {
    action in {NoAct, MDefD, MDefWD, DUnd, DUndW, CRef, MBig, MDef}
  }

  /** Whose binding remains when two symbols meet. */
  lemma StepBinding(old_: Symbol, new_: Symbol)
    requires WellFormed(old_.info) && WellFormed(new_.info)
    ensures BindingOf(Step(old_, new_).symbol)
         == if KeepsBinding(Action(Class(new_), Class(old_))) then BindingOf(old_) else BindingOf(new_)
  {
    hide OrdinateOf;
    NotIndirect(old_.info);
    NotIndirect(new_.info);
    ActionDirect(Class(new_), Class(old_));
    NextClassOf(Class(new_), Class(old_));
  }

  lemma ClassBinding(x: Symbol)
    requires WellFormed(x.info)
    ensures Class(x) in {U, DynU, C} ==> BindingOf(x) == Global
    ensures Class(x) in {WeakU, WeakDynU, WeakD, WeakDynD, WeakC} ==> BindingOf(x) == Weak
    ensures Class(x) == DynC ==> BindingOf(x) in {Global, Weak}
    ensures Class(x) != Ind
  {}

  /** The symbols `new_` that can neither change the binding of a survivor of class `o` nor bring it into a class in
      which that is possible. */
  predicate Harmless(o: Ordinate, n: Ordinate) {
    match o
    case D => true
    case U | WeakU | DynU | WeakDynU => TierOf(n) == 0 && n != U
    case DynD | WeakDynD => TierOf(n) <= 1 && n != WeakD
    case C => false
    case _ => TierOf(n) <= 1
  }

  lemma HarmlessStep(n: Ordinate, o: Ordinate)
    requires Harmless(o, n) && n != Ind && o != Ind
    ensures NextClass(n, o) == o || (TierOf(o) == 0 && o == WeakDynU && NextClass(n, o) == WeakU && n == WeakU)
    ensures KeepsBinding(Action(n, o)) || (n == WeakU && o == WeakDynU)
  {}

  /** A start that the rest cannot harm keeps its binding to the end. */
  lemma {:induction false} StartDecides(p: seq<Symbol>, rest: seq<Symbol>)
    requires |p| > 0 && AllWellFormed(p) && AllWellFormed(rest)
    requires forall x :: x in rest ==> Harmless(Class(ResolveAll(p)), Class(x))
    ensures AllWellFormed(p + rest) && BindingOf(ResolveAll(p + rest)) == BindingOf(ResolveAll(p))
    ensures var c := Class(ResolveAll(p));
      Class(ResolveAll(p + rest)) == c || (c == WeakDynU && Class(ResolveAll(p + rest)) == WeakU)
  {
    hide Step, OrdinateOf;
    if |rest| == 0 {
      assert p + rest == p;
    } else {
      var n := |rest| - 1;
      var last := rest[n];
      StartDecides(p, rest[..n]);
      assert (p + rest)[..|p| + n] == p + rest[..n];
      var old_ := ResolveAll(p + rest[..n]);
      assert ResolveAll(p + rest) == Step(old_, last).symbol;
      assert last in rest;
      StepBinding(old_, last);
      StepClass(old_, last);
      ClassBinding(old_);
      ClassBinding(last);
      ClassBinding(ResolveAll(p));
      HarmlessStep(Class(last), Class(old_));
    }
  }

  /** Any symbol can come first, and any other one second. */
  lemma BringForward(s: seq<Symbol>, a: Symbol, b: Symbol) returns (one: seq<Symbol>, two: seq<Symbol>)
    requires a in s && b in s && a != b
    ensures multiset([a] + one) == multiset(s) && (forall x :: x in one ==> x in s)
    ensures multiset([a, b] + two) == multiset(s) && (forall x :: x in two ==> x in s)
  {
    one := BringFirst(s, a);
    assert b in multiset([a] + one);
    two := BringFirst(one, b);
    assert [a, b] + two == [a] + ([b] + two);
    assert multiset([a] + ([b] + two)) == multiset([a]) + multiset([b] + two);
    assert multiset([a] + one) == multiset([a]) + multiset(one);
  }

  lemma BringFirst(s: seq<Symbol>, a: Symbol) returns (rest: seq<Symbol>)
    requires a in s
    ensures multiset([a] + rest) == multiset(s) && (forall x :: x in rest ==> x in s)
  {
    var k: nat :| k < |s| && s[k] == a;
    rest := s[..k] + s[k + 1..];
    assert s == s[..k] + [a] + s[k + 1..];
  }

  lemma WellFormedParts(s: seq<Symbol>, t: seq<Symbol>)
    requires AllWellFormed(s) && forall x :: x in t ==> x in s
    ensures AllWellFormed(t)
  {
    forall k | 0 <= k < |t| ensures WellFormed(t[k].info) {
      assert t[k] in s;
    }
  }

  /** Two symbols of different binding, neither of which the others can harm, leave theirs if they come first. */
  lemma TwoStarts(s: seq<Symbol>, a: Symbol, b: Symbol) returns (t: seq<Symbol>, r: seq<Symbol>)
    requires AllWellFormed(s) && a in s && b in s && BindingOf(a) != BindingOf(b)
    requires forall x :: x in s ==> Harmless(Class(a), Class(x)) && Harmless(Class(b), Class(x))
    ensures multiset(t) == multiset(s) && multiset(r) == multiset(s) && |t| > 0 && |r| > 0
    ensures AllWellFormed(t) && AllWellFormed(r) && BindingOf(ResolveAll(t)) != BindingOf(ResolveAll(r))
  {
    hide OrdinateOf, Harmless, Step;
    var one, two := BringForward(s, a, b);
    t := [a] + one;
    WellFormedParts(s, one);
    WellFormedParts(s, [a]);
    StartDecides([a], one);
    one, two := BringForward(s, b, a);
    r := [b] + one;
    WellFormedParts(s, one);
    WellFormedParts(s, [b]);
    StartDecides([b], one);
  }

  /** A shared definition comes first, or second behind a reference of another binding. */
  lemma ReferenceBefore(s: seq<Symbol>, d: Symbol, u: Symbol) returns (t: seq<Symbol>, r: seq<Symbol>)
    requires AllWellFormed(s) && d in s && u in s && BindingOf(d) != BindingOf(u)
    requires IsSharedDefinition(Class(d)) && IsReference(Class(u))
    requires forall x :: x in s ==> TierOf(Class(x)) <= 1 && Class(x) != WeakD
    ensures multiset(t) == multiset(s) && multiset(r) == multiset(s) && |t| > 0 && |r| > 0
    ensures AllWellFormed(t) && AllWellFormed(r) && BindingOf(ResolveAll(t)) != BindingOf(ResolveAll(r))
  {
    hide OrdinateOf, Step;
    var one, two := BringForward(s, d, u);
    t := [d] + one;
    WellFormedParts(s, one);
    WellFormedParts(s, [d]);
    StartDecides([d], one);
    one, two := BringForward(s, u, d);
    r := [u, d] + two;
    WellFormedParts(s, two);
    WellFormedParts(s, [u, d]);
    ReferenceThenShared(u, d);
    StartDecides([u, d], two);
  }

  lemma ReferenceThenShared(u: Symbol, d: Symbol)
    requires AllWellFormed([u, d])
    requires IsSharedDefinition(Class(d)) && IsReference(Class(u))
    ensures BindingOf(ResolveAll([u, d])) == BindingOf(u) && IsSharedDefinition(Class(ResolveAll([u, d])))
  {
    hide OrdinateOf, Step;
    assert WellFormed([u, d][0].info) && WellFormed([u, d][1].info);
    assert [u, d][..1] == [u];
    assert ResolveAll([u, d]) == Step(u, d).symbol;
    StepBinding(u, d);
    StepClass(u, d);
  }

  lemma {:induction false} FirstDefinitionBinds(s: seq<Symbol>, b: Binding)
    requires |s| > 0 && AllWellFormed(s)
    requires forall x :: x in s && Class(x) == D ==> BindingOf(x) == b
    ensures Class(ResolveAll(s)) == D ==> BindingOf(ResolveAll(s)) == b
  {
    hide Step, OrdinateOf;
    var n := |s| - 1;
    if n > 0 {
      FirstDefinitionBinds(s[..n], b);
      StepBinding(ResolveAll(s[..n]), s[n]);
      StepClass(ResolveAll(s[..n]), s[n]);
      assert s[n] in s;
      ClassBinding(s[n]);
      ClassBinding(ResolveAll(s[..n]));
      ToDefinition(Class(s[n]), Class(ResolveAll(s[..n])));
    }
  }

  lemma ToDefinition(n: Ordinate, o: Ordinate)
    requires n != Ind && o != Ind
    ensures NextClass(n, o) == D ==> if KeepsBinding(Action(n, o)) then o == D else n == D
  {}

  /** Without strong symbols, with a weak definition, and without a global shared common symbol: weak. */
  lemma {:induction false} WeakDefinitionBinds(s: seq<Symbol>)
    requires |s| > 0 && AllWellFormed(s)
    requires forall x :: x in s ==> TierOf(Class(x)) <= 1 && (Class(x) == DynC ==> BindingOf(x) == Weak)
    ensures TierOf(Class(ResolveAll(s))) <= 1
    ensures TierOf(Class(ResolveAll(s))) == 1 && !IsSharedDefinition(Class(ResolveAll(s))) ==>
      BindingOf(ResolveAll(s)) == Weak
    ensures Has(Seen(s), WeakD) ==> TierOf(Class(ResolveAll(s))) == 1 && !IsSharedDefinition(Class(ResolveAll(s)))
  {
    hide Step, OrdinateOf;
    var n := |s| - 1;
    ClassBinding(s[n]);
    assert s[n] in s;
    if n > 0 {
      var old_ := ResolveAll(s[..n]);
      WeakDefinitionBinds(s[..n]);
      assert Has(Seen(s), WeakD) ==> Class(s[n]) == WeakD || Has(Seen(s[..n]), WeakD);
      StepBinding(old_, s[n]);
      StepClass(old_, s[n]);
      ClassBinding(old_);
      ToWeak(Class(s[n]), Class(old_));
    }
  }

  lemma ToWeak(n: Ordinate, o: Ordinate)
    requires n != Ind && o != Ind && TierOf(n) <= 1 && TierOf(o) <= 1
    ensures var r := NextClass(n, o);
      && TierOf(r) <= 1
      && (n == WeakD ==> TierOf(r) == 1 && !IsSharedDefinition(r))
      && (TierOf(o) == 1 && !IsSharedDefinition(o) ==> r == o && KeepsBinding(Action(n, o)))
      && (TierOf(r) == 1 && !IsSharedDefinition(r) && r != o ==> r == n && !KeepsBinding(Action(n, o)))
  {}

  /** Without a weak definition the definitions and common symbols agree, and the references with the shared ones. */
  lemma {:induction false} AgreedBinds(s: seq<Symbol>, b: Binding, shared: bool)
    requires |s| > 0 && AllWellFormed(s)
    requires forall x :: x in s ==> TierOf(Class(x)) <= 1 && Class(x) != WeakD
    requires forall x :: x in s && TierOf(Class(x)) == 1 ==> BindingOf(x) == b
    requires forall x :: x in s && IsSharedDefinition(Class(x)) ==> shared
    requires forall x :: x in s && IsReference(Class(x)) && shared ==> BindingOf(x) == b
    ensures var r := ResolveAll(s);
      && TierOf(Class(r)) <= 1
      && (TierOf(Class(r)) == 1 ==> BindingOf(r) == b)
      && (IsReference(Class(r)) && shared ==> BindingOf(r) == b)
  {
    hide Step, OrdinateOf;
    var n := |s| - 1;
    ClassBinding(s[n]);
    assert s[n] in s;
    if n > 0 {
      var old_ := ResolveAll(s[..n]);
      AgreedBinds(s[..n], b, shared);
      StepBinding(old_, s[n]);
      StepClass(old_, s[n]);
      ClassBinding(old_);
      ToAgreed(Class(s[n]), Class(old_));
    }
  }

  lemma ToAgreed(n: Ordinate, o: Ordinate)
    requires n != Ind && o != Ind && TierOf(n) <= 1 && TierOf(o) <= 1 && n != WeakD
    ensures var r := NextClass(n, o);
      && TierOf(r) <= 1
      && (IsReference(r) ==> if KeepsBinding(Action(n, o)) then r == o else r == n)
      && (TierOf(r) == 1 && KeepsBinding(Action(n, o)) ==> TierOf(o) == 1 || (IsReference(o) && IsSharedDefinition(n)))
      && (TierOf(r) == 1 && !KeepsBinding(Action(n, o)) ==> TierOf(n) == 1)
  {}

  lemma {:induction false} ReferenceBinds(s: seq<Symbol>)
    requires |s| > 0 && AllWellFormed(s) && forall x :: x in s ==> TierOf(Class(x)) == 0
    ensures TierOf(Class(ResolveAll(s))) == 0
    ensures Has(Seen(s), U) ==> Class(ResolveAll(s)) == U
    ensures exists x :: x in s && BindingOf(x) == BindingOf(ResolveAll(s))
  {
    hide Step, OrdinateOf;
    var n := |s| - 1;
    assert s[n] in s;
    if n > 0 {
      var old_ := ResolveAll(s[..n]);
      ReferenceBinds(s[..n]);
      assert Has(Seen(s), U) ==> Class(s[n]) == U || Has(Seen(s[..n]), U);
      StepBinding(old_, s[n]);
      StepClass(old_, s[n]);
      UndefinedMeets(Class(s[n]), Class(old_));
    }
  }

  lemma UndefinedMeets(n: Ordinate, o: Ordinate)
    requires n != Ind && o != Ind && TierOf(n) == 0 && TierOf(o) == 0
    ensures TierOf(NextClass(n, o)) == 0 && (n == U || o == U ==> NextClass(n, o) == U)
  {}

  /** The binding that a set of symbols fixes. */
  ghost predicate Fixes(seen: set<Symbol>, b: Binding) {
    if Has(seen, D) then forall x :: x in seen && Class(x) == D ==> BindingOf(x) == b
    else if Has(seen, C) then b == Global
    else if Has(seen, WeakD) then b == Weak
    else if exists x :: x in seen && Tier(x) == 1 then forall x :: x in seen && Tier(x) == 1 ==> BindingOf(x) == b
    else if Has(seen, U) then b == Global
    else forall x :: x in seen ==> BindingOf(x) == b
  }

  lemma SurvivorInSet(s: seq<Symbol>)
    requires |s| > 0 && AllWellFormed(s)
    ensures Class(ResolveAll(s)) == D <==> Has(Seen(s), D)
    ensures Class(ResolveAll(s)) == C <==> !Has(Seen(s), D) && Has(Seen(s), C)
    ensures TierOf(Class(ResolveAll(s))) == 1
       <==> !Has(Seen(s), D) && !Has(Seen(s), C) && exists x :: x in Seen(s) && Tier(x) == 1
    ensures forall x :: x in s ==> TierOf(Class(x)) <= TierOf(Class(ResolveAll(s)))
  {
    hide OrdinateOf, ResolveAll, TierOf, MaxOf;
    HighestSeen(s);
    Tiers(Class(ResolveAll(s)));
    forall x | x in s ensures x in Seen(s) {}
    forall x | x in Seen(s) ensures Class(x) in {D, C} <==> TierOf(Class(x)) in {3, 2} {
      Tiers(Class(x));
    }
    Tiers(D);
    Tiers(C);
  }

  lemma HighestSeen(s: seq<Symbol>)
    requires |s| > 0 && AllWellFormed(s)
    ensures exists x :: x in Seen(s) && TierOf(Class(x)) == TierOf(Class(ResolveAll(s)))
    ensures forall x :: x in Seen(s) ==> TierOf(Class(x)) <= TierOf(Class(ResolveAll(s)))
  {
    hide OrdinateOf, ResolveAll, TierOf;
    SurvivorTier(s);
    var k :| 0 <= k < |s| && Tier(s[k]) == MaxOf(Tier, s);
    assert s[k] in Seen(s);
    forall x | x in Seen(s) ensures TierOf(Class(x)) <= TierOf(Class(ResolveAll(s))) {
      var l :| 0 <= l < |s| && s[l] == x;
    }
  }

  /** The definitions and common symbols agree, and the references if there is a shared definition. */
  lemma AgreedFixes(s: seq<Symbol>, b: Binding)
    requires |s| > 0 && AllWellFormed(s)
    requires forall x :: x in s ==> TierOf(Class(x)) <= 1 && Class(x) != WeakD
    requires forall x :: x in Seen(s) && Tier(x) == 1 ==> BindingOf(x) == b
    requires ReferencesAgree(Seen(s))
    ensures TierOf(Class(ResolveAll(s))) == 1 ==> BindingOf(ResolveAll(s)) == b
  {
    hide OrdinateOf, ResolveAll, TierOf;
    forall x | x in s ensures x in Seen(s) && (IsSharedDefinition(Class(x)) ==> Tier(x) == 1 && BindingOf(x) == b) {
      Tiers(Class(x));
    }
    if d :| d in s && IsSharedDefinition(Class(d)) {
      forall u | u in s && IsReference(Class(u)) ensures BindingOf(u) == b {
        assert u in Seen(s);
      }
      AgreedBinds(s, b, true);
    } else {
      AgreedBinds(s, b, false);
    }
  }

  lemma FixedBinds(s: seq<Symbol>, b: Binding)
    requires |s| > 0 && AllWellFormed(s) && BindingFixed(Seen(s)) && Fixes(Seen(s), b)
    ensures BindingOf(ResolveAll(s)) == b
  {
    hide ResolveAll, OrdinateOf, TierOf;
    SurvivorInSet(s);
    ClassBinding(ResolveAll(s));
    Tiers(Class(ResolveAll(s)));
    forall x | x in s ensures x in Seen(s) {}
    if Has(Seen(s), D) {
      FirstDefinitionBinds(s, b);
    } else if Has(Seen(s), C) {
    } else if Has(Seen(s), WeakD) {
      WeakDefinitionBinds(s);
    } else if exists x :: x in Seen(s) && Tier(x) == 1 {
      AgreedFixes(s, b);
    } else {
      ReferenceBinds(s);
      ClassBinding(ResolveAll(s));
    }
  }

  lemma SomeFixes(s: seq<Symbol>) returns (b: Binding)
    requires |s| > 0 && AllWellFormed(s) && BindingFixed(Seen(s))
    ensures Fixes(Seen(s), b)
  {
    hide OrdinateOf, ResolveAll, TierOf;
    var seen := Seen(s);
    if Has(seen, D) {
      var x :| x in seen && Class(x) == D;
      b := BindingOf(x);
    } else if Has(seen, C) {
      b := Global;
    } else if Has(seen, WeakD) {
      b := Weak;
    } else if x :| x in seen && Tier(x) == 1 {
      b := BindingOf(x);
    } else if Has(seen, U) {
      b := Global;
    } else {
      assert s[0] in seen;
      b := BindingOf(s[0]);
    }
  }

  lemma TwoDefinitions(s: seq<Symbol>) returns (t: seq<Symbol>, r: seq<Symbol>)
    requires AllWellFormed(s) && Has(Seen(s), D) && !BindingFixed(Seen(s))
    ensures multiset(t) == multiset(s) && multiset(r) == multiset(s) && |t| > 0 && |r| > 0
    ensures AllWellFormed(t) && AllWellFormed(r) && BindingOf(ResolveAll(t)) != BindingOf(ResolveAll(r))
  {
    hide OrdinateOf, ResolveAll;
    var x, y :| x in s && y in s && Class(x) == D && Class(y) == D && BindingOf(x) != BindingOf(y);
    t, r := TwoStarts(s, x, y);
  }

  lemma WeakAndGlobal(s: seq<Symbol>) returns (t: seq<Symbol>, r: seq<Symbol>)
    requires AllWellFormed(s) && !Has(Seen(s), D) && !Has(Seen(s), C) && Has(Seen(s), WeakD) && !BindingFixed(Seen(s))
    requires forall x :: x in s ==> TierOf(Class(x)) <= 1
    ensures multiset(t) == multiset(s) && multiset(r) == multiset(s) && |t| > 0 && |r| > 0
    ensures AllWellFormed(t) && AllWellFormed(r) && BindingOf(ResolveAll(t)) != BindingOf(ResolveAll(r))
  {
    hide OrdinateOf, ResolveAll;
    var w :| w in Seen(s) && Class(w) == WeakD;
    var c :| c in Seen(s) && Class(c) == DynC && BindingOf(c) != Weak;
    WellFormedIn(s, w);
    ClassBinding(w);
    t, r := TwoStarts(s, w, c);
  }

  lemma Disagreement(s: seq<Symbol>) returns (t: seq<Symbol>, r: seq<Symbol>)
    requires AllWellFormed(s) && forall x :: x in s ==> TierOf(Class(x)) <= 1 && Class(x) != WeakD
    requires !OneBinding(Seen(s), o => TierOf(o) == 1) || !ReferencesAgree(Seen(s))
    ensures multiset(t) == multiset(s) && multiset(r) == multiset(s) && |t| > 0 && |r| > 0
    ensures AllWellFormed(t) && AllWellFormed(r) && BindingOf(ResolveAll(t)) != BindingOf(ResolveAll(r))
  {
    hide OrdinateOf, ResolveAll;
    if !ReferencesAgree(Seen(s)) {
      var d, u :| d in Seen(s) && u in Seen(s) && IsSharedDefinition(Class(d)) && IsReference(Class(u))
                  && BindingOf(d) != BindingOf(u);
      t, r := ReferenceBefore(s, d, u);
    } else {
      var x, y :| x in Seen(s) && y in Seen(s) && Tier(x) == 1 && Tier(y) == 1 && BindingOf(x) != BindingOf(y);
      t, r := TwoSettled(s, x, y);
    }
  }

  lemma TwoSettled(s: seq<Symbol>, x: Symbol, y: Symbol) returns (t: seq<Symbol>, r: seq<Symbol>)
    requires AllWellFormed(s) && x in s && y in s && BindingOf(x) != BindingOf(y) && Tier(x) == 1 && Tier(y) == 1
    requires forall x :: x in s ==> TierOf(Class(x)) <= 1 && Class(x) != WeakD
    ensures multiset(t) == multiset(s) && multiset(r) == multiset(s) && |t| > 0 && |r| > 0
    ensures AllWellFormed(t) && AllWellFormed(r) && BindingOf(ResolveAll(t)) != BindingOf(ResolveAll(r))
  {
    hide OrdinateOf, ResolveAll;
    t, r := TwoStarts(s, x, y);
  }

  lemma TwoReferences(s: seq<Symbol>) returns (t: seq<Symbol>, r: seq<Symbol>)
    requires AllWellFormed(s) && !Has(Seen(s), U) && !OneBinding(Seen(s), o => true)
    requires forall x :: x in s ==> TierOf(Class(x)) == 0 && Class(x) != Ind
    ensures multiset(t) == multiset(s) && multiset(r) == multiset(s) && |t| > 0 && |r| > 0
    ensures AllWellFormed(t) && AllWellFormed(r) && BindingOf(ResolveAll(t)) != BindingOf(ResolveAll(r))
  {
    hide OrdinateOf, ResolveAll;
    forall x | x in s ensures x in Seen(s) {}
    var x, y :| x in Seen(s) && y in Seen(s) && BindingOf(x) != BindingOf(y);
    t, r := TwoStarts(s, x, y);
  }

  /** Two orders of the same symbols that leave different bindings. */
  lemma UnfixedDiffers(s: seq<Symbol>) returns (t: seq<Symbol>, r: seq<Symbol>)
    requires |s| > 0 && AllWellFormed(s) && !BindingFixed(Seen(s))
    ensures multiset(t) == multiset(s) && multiset(r) == multiset(s) && |t| > 0 && |r| > 0
    ensures AllWellFormed(t) && AllWellFormed(r) && BindingOf(ResolveAll(t)) != BindingOf(ResolveAll(r))
  {
    hide OrdinateOf, ResolveAll, TierOf, Harmless;
    forall x | x in s ensures x in Seen(s) && Class(x) != Ind {
      WellFormedIn(s, x);
      ClassBinding(x);
    }
    SurvivorInSet(s);
    Tiers(Class(ResolveAll(s)));
    if Has(Seen(s), D) {
      t, r := TwoDefinitions(s);
    } else if Has(Seen(s), WeakD) {
      t, r := WeakAndGlobal(s);
    } else if exists x :: x in Seen(s) && Tier(x) == 1 {
      t, r := Disagreement(s);
    } else {
      t, r := TwoReferences(s);
    }
  }

  lemma Tiers(o: Ordinate)
    ensures IsSharedDefinition(o) ==> TierOf(o) == 1
    ensures TierOf(o) <= 3 && (TierOf(o) == 3 <==> o == D) && (TierOf(o) == 2 <==> o == C)
  {}

  lemma WellFormedIn(s: seq<Symbol>, x: Symbol)
    requires AllWellFormed(s) && x in s
    ensures WellFormed(x.info)
  {
    var k :| 0 <= k < |s| && s[k] == x;
  }

  /** Any two orders of the symbols leave the same binding. */
  ghost predicate SameInEveryOrder(s: seq<Symbol>) {
    forall t, r :: multiset(t) == multiset(s) && multiset(r) == multiset(s)
        && |t| > 0 && |r| > 0 && AllWellFormed(t) && AllWellFormed(r)
        ==> BindingOf(ResolveAll(t)) == BindingOf(ResolveAll(r))
  }

  /** Every order of the symbols leaves the same binding, exactly when the set of them says so. */
  lemma BindingOrderFree(s: seq<Symbol>)
    requires |s| > 0 && AllWellFormed(s)
    ensures BindingFixed(Seen(s)) <==> SameInEveryOrder(s)
  {
    hide Step, OrdinateOf, BindingFixed, Fixes;
    if BindingFixed(Seen(s)) {
      var b := SomeFixes(s);
      forall t, r | multiset(t) == multiset(s) && multiset(r) == multiset(s)
                    && |t| > 0 && |r| > 0 && AllWellFormed(t) && AllWellFormed(r)
        ensures BindingOf(ResolveAll(t)) == BindingOf(ResolveAll(r))
      {
        SameSeen(s, t);
        SameSeen(s, r);
        FixedBinds(t, b);
        FixedBinds(r, b);
      }
    } else {
      var t, r := UnfixedDiffers(s);
    }
  }

  lemma SameSeen(s: seq<Symbol>, t: seq<Symbol>)
    requires multiset(s) == multiset(t)
    ensures Seen(s) == Seen(t)
  {
    forall x ensures x in s <==> x in t {
      assert x in s <==> x in multiset(s);
      assert x in t <==> x in multiset(t);
    }
  }

  /** Among regular objects only an absolute and another definition can differ. */
  lemma RegularOrderFree(s: seq<Symbol>)
    requires |s| > 0 && AllWellFormed(s) && AllRegular(s)
    ensures SameInEveryOrder(s) <==> OneBinding(Seen(s), o => o == D)
  {
    hide OrdinateOf, TierOf, SameInEveryOrder;
    BindingOrderFree(s);
    forall x | x in Seen(s)
      ensures Class(x) in {U, WeakU, D, WeakD, C, WeakC}
      ensures Class(x) in {U, C} ==> BindingOf(x) == Global
      ensures Class(x) in {WeakU, WeakD, WeakC} ==> BindingOf(x) == Weak
    {
      var k :| 0 <= k < |s| && s[k] == x;
      RegularClass(x.info);
      ClassBinding(x);
    }
    RegularTiers();
  }

  lemma RegularTiers()
    ensures TierOf(U) == TierOf(WeakU) == 0 && TierOf(WeakD) == TierOf(WeakC) == 1 && TierOf(C) == 2 && TierOf(D) == 3
  {}
}
