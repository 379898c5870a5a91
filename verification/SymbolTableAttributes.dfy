/** Where the symbols of the output table stand, by their attributes and the calls made, over whole runs. */
module SymbolTableAttributes {
  import opened ResolveInfos
  import opened SymbolCategories
  import opened SymbolTableRuns

  /** One call, with the attributes of the symbol as the call sees them. Settling the commons sees those of every
      symbol, and says which became dynamic and which regular. */
  datatype Call<!S> =
    | AddSymbol(s: S, info: Info)
    | ForceLocal(s: S)
    | ArrangeFrom(s: S, sourceInfo: Info, info: Info)
    | ChangeToDynamic(s: S, info: Info)
    | ChangeCommonsToGlobal(infos: map<S, Info>, toDynamic: multiset<S>, toRegular: multiset<S>)

  /** What the call does to the regions. */
  function OpOf<S>(call: Call<S>): Op<S> {
    match call
    case AddSymbol(s, info) => Add(s, Categorize(info))
    case ForceLocal(s) => Add(s, LOCAL)
    case ArrangeFrom(s, sourceInfo, info) => Arrange(s, Categorize(sourceInfo), Categorize(info))
    case ChangeToDynamic(s, info) => Arrange(s, Categorize(info), LOCAL_DYN)
    case ChangeCommonsToGlobal(_, d, r) => Settle(d, r)
  }

  /** The commons were settled by their attributes. */
  ghost predicate SettledByCategory<S>(call: Call<S>) {
    call.ChangeCommonsToGlobal? ==>
      && (forall s :: s in call.toDynamic ==> s in call.infos && Categorize(call.infos[s]) == DYNAMIC)
      && (forall s :: s in call.toRegular ==> s in call.infos && Categorize(call.infos[s]) == REGULAR)
  }

  ghost predicate IsRun<S>(states: seq<seq<multiset<S>>>, calls: seq<Call<S>>) {
    && Run(states, Ops(calls))
    && forall i :: 0 <= i < |calls| ==> SettledByCategory(calls[i])
  }

  ghost function Ops<S>(calls: seq<Call<S>>): (ops: seq<Op<S>>)
    ensures |ops| == |calls| && forall i :: 0 <= i < |calls| ==> ops[i] == OpOf(calls[i])
  {
    seq(|calls|, i requires 0 <= i < |calls| => OpOf(calls[i]))
  }

  // ----- the attributes -----

  predicate IsFile(i: Info) { i.kind == 0x200 }

  predicate IsVisible(i: Info) { i.visibility == Default || i.visibility == Protected }

  /** By their attributes, the symbols that belong before all others. */
  predicate IsLocal(i: Info) { IsFile(i) || i.binding == Local }

  /** The two differ in nothing that matters for the place: whether a file symbol; if not, whether local; if not,
      whether common; if not, whether visible from outside. */
  predicate AlikePlaced(a: Info, b: Info) {
    && (IsFile(a) <==> IsFile(b))
    && (!IsFile(a) ==> (a.binding == Local <==> b.binding == Local))
    && (!IsLocal(a) && !IsLocal(b) ==> (a.desc == Common <==> b.desc == Common))
    && (!IsLocal(a) && !IsLocal(b) && a.desc != Common && b.desc != Common ==> (IsVisible(a) <==> IsVisible(b)))
  }

  /** The standing of a symbol: not there, made local, or placed by attributes. */
  datatype Standing = Absent | MadeLocal | ByAttributes(info: Info)

  /** What a call does to the standing of a symbol. An arrangement counts only if the attributes before and after, as
      the caller states them, are not alike. Settling concerns the commons only. */
  function StandingAfter<S>(call: Call<S>, s: S, before: Standing): Standing {
    match call
    case AddSymbol(x, info) => if x == s then ByAttributes(info) else before
    case ForceLocal(x) => if x == s then MadeLocal else before
    case ArrangeFrom(x, sourceInfo, info) =>
      if x == s && !AlikePlaced(sourceInfo, info) then ByAttributes(info) else before
    case ChangeToDynamic(x, _) => if x == s then MadeLocal else before
    case ChangeCommonsToGlobal(infos, d, r) =>
      if before.ByAttributes? && !IsLocal(before.info) && before.info.desc == Common && s in infos then
        ByAttributes(infos[s])
      else before
  }

  function StandingOf<S>(calls: seq<Call<S>>, s: S): Standing {
    if calls == [] then Absent else StandingAfter(calls[|calls| - 1], s, StandingOf(calls[..|calls| - 1], s))
  }

  /** Locals by attributes or by a call. */
  predicate StandsLocal(st: Standing) {
    st.MadeLocal? || (st.ByAttributes? && IsLocal(st.info))
  }

  predicate StandsCommon(st: Standing) {
    st.ByAttributes? && !IsLocal(st.info) && st.info.desc == Common
  }

  /** Symbols that others can see: neither local nor common, and of default or protected visibility. */
  predicate StandsDynamic(st: Standing) {
    st.ByAttributes? && !IsLocal(st.info) && st.info.desc != Common && IsVisible(st.info)
  }

  /** The region that agrees with a standing. */
  predicate Agrees(p: Place, st: Standing) {
    && (p.Nowhere? <==> st.Absent?)
    && (p.In? && p.region <= LOCAL_DYN <==> StandsLocal(st))
    && (p == In(COMMON) <==> StandsCommon(st))
    && (p == In(DYNAMIC) <==> StandsDynamic(st))
    && (p.In? ==> p.region < 6)
  }

  lemma AddedAgrees(info: Info)
    ensures Agrees(In(Categorize(info)), ByAttributes(info))
  {}

  lemma AlikeExactly(a: Info, b: Info)
    ensures Categorize(a) == Categorize(b) <==> AlikePlaced(a, b)
  {}

  /** A symbol is settled exactly if it was in the common region, and then with one of the two. */
  lemma SettledOne<S>(b: seq<multiset<S>>, d: multiset<S>, r: multiset<S>, b': seq<multiset<S>>, s: S, p: Place)
    requires Settling(b, b', d, r) && b'[COMMON] == multiset{} && Placed(b, s, p)
    ensures p == In(COMMON) <==> s in d || s in r
  {
    assert b'[COMMON][s] + d[s] + r[s] == b[COMMON][s];
  }

  lemma PutAgrees<S>(b: seq<multiset<S>>, call: Call<S>, b': seq<multiset<S>>, s: S, p: Place, st: Standing)
    requires |b| == 6 && |b'| == 6 && Step(b, OpOf(call), b') && SettledByCategory(call)
    requires Placed(b, s, p) && Agrees(p, st)
    ensures Agrees(Put(OpOf(call), s, p), StandingAfter(call, s, st))
  {
    match call
    case AddSymbol(x, info) => AddedAgrees(info);
    case ForceLocal(_) =>
    case ArrangeFrom(x, sourceInfo, info) =>
      AlikeExactly(sourceInfo, info);
      AddedAgrees(info);
    case ChangeToDynamic(x, info) =>
    case ChangeCommonsToGlobal(infos, d, r) =>
      SettledOne(b, d, r, b', s, p);
      if s in infos {
        AddedAgrees(infos[s]);
      }
  }

  /** Over every run, the calls put each symbol where its standing says. */
  lemma {:induction false} PlaceAgrees<S>(states: seq<seq<multiset<S>>>, calls: seq<Call<S>>, s: S)
    requires IsRun(states, calls)
    ensures Agrees(PlaceOf(Ops(calls), s), StandingOf(calls, s))
  {
    hide Agrees, Placed, Step, Put, StandingAfter;
    if calls == [] {
      NothingAgrees();
    } else {
      var n := |calls| - 1;
      assert Ops(calls)[..n] == Ops(calls[..n]);
      PlaceAgrees(states[..n + 1], calls[..n], s);
      EachSymbolIsPlaced(states[..n + 1], Ops(calls[..n]), s);
      PutAgrees(states[n], calls[n], states[n + 1], s, PlaceOf(Ops(calls[..n]), s), StandingOf(calls[..n], s));
    }
  }

  lemma NothingAgrees()
    ensures Agrees(Nowhere, Absent)
  {}

  /** The table that a run leaves. Its first entries, as many as there are files, locals and dynamic locals, are
      exactly the file symbols, those of local binding, and those made local by a call. Of the others, the common
      region holds the common symbols, and the dynamic one exactly those of default or protected visibility. */
  lemma SymbolsStandByAttributes<S>(symbols: seq<S>, begins: seq<nat>, ends: seq<nat>,
                                    states: seq<seq<multiset<S>>>, calls: seq<Call<S>>, i: nat)
    requires Tiles(begins, ends, |symbols|) && IsRun(states, calls) && i < |symbols|
    requires Bags(symbols, begins, ends) == states[|calls|]
    ensures var b, st := states[|calls|], StandingOf(calls, symbols[i]);
      && !st.Absent?
      && (i < |b[FILE]| + |b[LOCAL]| + |b[LOCAL_DYN]| <==> StandsLocal(st))
      && (symbols[i] in b[COMMON] <==> StandsCommon(st))
      && (symbols[i] in b[DYNAMIC] <==> StandsDynamic(st))
  {
    hide Tiles, Bags, PlaceOf, StandingOf, Run;
    var s := symbols[i];
    LocalsComeFirst(symbols, begins, ends, states, Ops(calls), i);
    PlaceAgrees(states, calls, s);
    EachSymbolIsPlaced(states, Ops(calls), s);
    InSomeRegion(symbols, begins, ends, states, Ops(calls), i);
  }

  lemma InSomeRegion<S>(symbols: seq<S>, begins: seq<nat>, ends: seq<nat>,
                        states: seq<seq<multiset<S>>>, ops: seq<Op<S>>, i: nat)
    requires Tiles(begins, ends, |symbols|) && Run(states, ops) && i < |symbols|
    requires Bags(symbols, begins, ends) == states[|ops|]
    ensures PlaceOf(ops, symbols[i]).In?
  {
    var p := PlaceOf(ops, symbols[i]);
    EachSymbolIsPlaced(states, ops, symbols[i]);
    BoundariesAreSums(symbols, begins, ends, REGULAR);
    CountBefore(states[|ops|], symbols[i], p, 6);
    assert symbols[..|symbols|] == symbols && symbols[i] in multiset(symbols);
  }

  /** One call on the table itself, with its symbols' attributes as they are now. What it does is what the call says. */
  method Perform(table: SymbolCategory, call: Call<LDSymbol>)
    requires table.Valid() && !call.ChangeCommonsToGlobal?
    requires match call
      case AddSymbol(s, info) => !Holds(table.Regions(), s) && s.info == info
      case ForceLocal(s) => !Holds(table.Regions(), s)
      case ArrangeFrom(s, _, info) => Holds(table.Regions(), s) && s.info == info
      case ChangeToDynamic(s, info) => Holds(table.Regions(), s) && s.info == info
      case _ => true
    modifies table
    ensures table.Valid() && Step(old(table.Regions()), OpOf(call), table.Regions())
  {
    hide Categorize, SymbolCategory.Valid, SymbolCategory.Regions, Arranged, Added;
    match call {
      case AddSymbol(s, _) =>
        table.Add(s);
      case ForceLocal(s) =>
        table.ForceLocal(s);
      case ArrangeFrom(s, sourceInfo, _) =>
        table.ArrangeFrom(s, sourceInfo);
      case ChangeToDynamic(s, _) =>
        table.ChangeToDynamic(s);
    }
  }

  /** Settling, with the attributes of all symbols as they are now. */
  method PerformSettling(table: SymbolCategory, ghost infos: map<LDSymbol, Info>) returns (ghost call: Call<LDSymbol>)
    requires table.Valid() && table.CommonsAllocated()
    requires forall s :: s in table.symbols ==> s in infos && s.info == infos[s]
    modifies table
    ensures table.Valid() && Step(old(table.Regions()), OpOf(call), table.Regions()) && SettledByCategory(call)
    ensures call.ChangeCommonsToGlobal? && call.infos == infos
  {
    hide Categorize, SymbolCategory.CommonsAllocated, Settling, Tiles, Bags;
    ghost var symbols, begins, ends := table.symbols, table.begins, table.ends;
    ghost var d, r := table.ChangeCommonsToGlobal();
    CommonsAreThere(symbols, begins, ends, table.Regions(), d, r);
    call := ChangeCommonsToGlobal(infos, d, r);
  }

  lemma CommonsAreThere<S>(symbols: seq<S>, begins: seq<nat>, ends: seq<nat>, now: seq<multiset<S>>,
                           d: multiset<S>, r: multiset<S>)
    requires Tiles(begins, ends, |symbols|) && Settling(Bags(symbols, begins, ends), now, d, r)
    ensures forall s :: s in d || s in r ==> s in symbols
  {
    BagIs(symbols, begins, ends, COMMON);
    var was := Bags(symbols, begins, ends)[COMMON];
    forall s | s in d || s in r ensures s in symbols {
      assert was[s] == now[COMMON][s] + d[s] + r[s];
      assert s in symbols[begins[COMMON]..ends[COMMON]];
    }
  }
}
