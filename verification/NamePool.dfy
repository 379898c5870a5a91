/** The pool of global symbols: one entry for each name, resolved as symbols arrive. */
module NamePools {
  import opened ResolveInfos
  import opened StaticResolvers
  import opened ResolutionOrder
  import SurvivorOrigins

  /** One global symbol as an object reader hands it to the pool. */
  datatype GlobalSymbol = GlobalSymbol(
    name: string,
    isDyn: bool,
    kind: bv32,
    desc: Desc,
    binding: Binding,
    size: nat,
    value: int,
    visibility: Visibility)
  {
    function Attributes(): Info { Incoming(isDyn, kind, desc, binding, size, visibility) }

    function AsSymbol(): Symbol { Symbol(Attributes(), value) }
  }

  /** The symbols of one input, as the readers produce them. */
  type Symbols = s: seq<GlobalSymbol> | forall k :: 0 <= k < |s| ==> WellFormed(s[k].Attributes()) witness []

  type Table = t: map<string, Symbol> | forall n :: n in t ==> WellFormed(t[n].info) witness map[]

  /** The table after one more symbol. */
  function Insert(t: Table, g: GlobalSymbol): Table
    requires WellFormed(g.Attributes())
  {
    if g.name in t then
      StepClass(t[g.name], g.AsSymbol());
      t[g.name := Step(t[g.name], g.AsSymbol()).symbol]
    else
      t[g.name := g.AsSymbol()]
  }

  lemma InsertedNew(t: Table, g: GlobalSymbol)
    requires WellFormed(g.Attributes()) && g.name !in t
    ensures Insert(t, g) == t[g.name := g.AsSymbol()] && g.AsSymbol() == Symbol(g.Attributes(), g.value)
  {}

  lemma InsertedAgain(t: Table, g: GlobalSymbol)
    requires WellFormed(g.Attributes()) && g.name in t
    ensures t[g.name].info.desc != Indirect && g.Attributes().desc != Indirect
    ensures var e, out := t[g.name], Step(t[g.name], g.AsSymbol());
      && (out.symbol.info, out.overriden, out.error)
         == Resolution(e.info, g.Attributes(), SameAbsolute(e, Symbol(g.Attributes(), g.value)))
      && Insert(t, g) == t[g.name := Symbol(out.symbol.info, if out.overriden && !g.isDyn then g.value else e.value)]
  {
    hide Resolution, SameAbsolute;
  }

  function InsertAll(t: Table, s: Symbols): Table {
    if |s| == 0 then t else Insert(InsertAll(t, s[..|s| - 1]), s[|s| - 1])
  }

  predicate IsDefined(t: Table, name: string) {
    name in t && t[name].info.desc != Undefined
  }

  /** A reference that an archive member may be pulled in for. */
  predicate IsWanted(t: Table, name: string) {
    name in t && t[name].info.desc == Undefined && t[name].info.binding != Weak
  }

  lemma InsertKeepsDefined(t: Table, g: GlobalSymbol, name: string)
    requires WellFormed(g.Attributes()) && IsDefined(t, name)
    ensures IsDefined(Insert(t, g), name)
  {
    hide Step;
    if g.name == name {
      DefinedStaysDefined(t[name], g.AsSymbol());
    }
  }

  /** Reading an input never makes a defined name undefined. */
  lemma {:induction false} InsertAllKeepsDefined(t: Table, s: Symbols, name: string)
    requires IsDefined(t, name)
    ensures IsDefined(InsertAll(t, s), name)
  {
    if |s| > 0 {
      InsertAllKeepsDefined(t, s[..|s| - 1], name);
      InsertKeepsDefined(InsertAll(t, s[..|s| - 1]), s[|s| - 1], name);
    }
  }

  /** The symbols of `s` called `name`, in order. */
  function Occurrences(s: Symbols, name: string): (r: seq<Symbol>)
    ensures AllWellFormed(r)
  {
    if |s| == 0 then []
    else if s[|s| - 1].name == name then Occurrences(s[..|s| - 1], name) + [s[|s| - 1].AsSymbol()]
    else Occurrences(s[..|s| - 1], name)
  }

  /** What the pool says of a name is the resolution of every symbol of that name, and of no other. */
  lemma {:induction false} PoolResolvesEachName(s: Symbols, name: string)
    ensures name in InsertAll(map[], s) <==> |Occurrences(s, name)| > 0
    ensures name in InsertAll(map[], s) ==> InsertAll(map[], s)[name] == ResolveAll(Occurrences(s, name))
  {
    hide Step;
    if |s| > 0 {
      PoolResolvesEachName(s[..|s| - 1], name);
      if s[|s| - 1].name == name {
        assert Occurrences(s, name)[..|Occurrences(s, name)| - 1] == Occurrences(s[..|s| - 1], name);
      }
    }
  }

  lemma {:induction false} OccurrenceIs(s: Symbols, name: string, j: nat) returns (k: nat)
    requires j < |Occurrences(s, name)|
    ensures k < |s| && s[k].name == name && Occurrences(s, name)[j] == s[k].AsSymbol()
  {
    var n := |s| - 1;
    var before := Occurrences(s[..n], name);
    if j < |before| {
      k := OccurrenceIs(s[..n], name, j);
    } else {
      k := n;
    }
  }

  /** Every entry has the description, the type and the source of one of the symbols of its name as they were read, its
      size if it is no common symbol, and its value if it is regular. */
  lemma EntryHasOrigin(s: Symbols, name: string) returns (k: nat)
    requires name in InsertAll(map[], s)
    ensures k < |s| && s[k].name == name
    ensures var e := InsertAll(map[], s)[name];
      && e.info.desc == s[k].desc && e.info.kind == s[k].kind & TYPE_MASK && e.info.dyn == s[k].isDyn
      && (s[k].desc != Common ==> e.info.size == s[k].size && (s[k].isDyn || e.value == s[k].value))
  {
    hide Step, ResolveAll, Occurrences;
    PoolResolvesEachName(s, name);
    var j := SurvivorOrigins.SurvivorOrigin(Occurrences(s, name));
    k := OccurrenceIs(s, name, j);
  }

  /** No two names share an entry. */
  ghost predicate Distinct(infos: map<string, ResolveInfo>) {
    forall m, n :: m in infos && n in infos && m != n ==> infos[m] != infos[n]
  }

  lemma OtherEntry(infos: map<string, ResolveInfo>, m: string, n: string)
    requires Distinct(infos) && m in infos && n in infos
    ensures m != n ==> infos[m] != infos[n]
  {}

  lemma StaysDistinct(infos: map<string, ResolveInfo>, name: string, info: ResolveInfo)
    requires Distinct(infos) && info !in infos.Values
    ensures Distinct(infos[name := info])
  {
    var longer := infos[name := info];
    forall m, n | m in longer && n in longer && m != n
      ensures longer[m] != longer[n]
    {
      assert m != name ==> infos[m] in infos.Values;
      assert n != name ==> infos[n] in infos.Values;
    }
  }

  class NamePool {
    var infos: map<string, ResolveInfo>
    var values: map<string, int>  // values of the output symbols
    ghost var contents: Table
    ghost var Repr: set<ResolveInfo>

    ghost predicate Valid()
      reads this, Repr
    {
      && infos.Keys == values.Keys == contents.Keys
      && (forall n :: n in infos ==> infos[n] in Repr)
      && (forall n :: n in infos ==> contents[n] == Symbol(infos[n].View(), values[n]))
      && Distinct(infos)
    }

    constructor ()
      ensures Valid() && fresh(Repr) && contents == map[]
    {
      infos, values, contents := map[], map[], map[];
      Repr := {};
    }

    /** One entry is new or has changed, and its symbol with it: the pool says what it should. */
    lemma StaysValid(name: string, e: Symbol, was: Table, valuesWere: map<string, int>)
      requires WellFormed(e.info) && Distinct(infos) && name in infos && valuesWere.Keys == was.Keys
      requires forall n :: n in infos <==> n == name || n in was
      requires forall n :: n in infos ==> infos[n] in Repr
      requires contents == was[name := e] && values == valuesWere[name := e.value]
      requires infos[name].View() == e.info
      requires forall n :: n in infos && n != name ==> Symbol(infos[n].View(), valuesWere[n]) == was[n]
      ensures Valid()
    {
      hide Distinct, WellFormed, ResolveInfo.View;
    }

    /** The symbol is in the pool already: resolve it against the newcomer. */
    method ResolveExisting(g: GlobalSymbol, new_: ResolveInfo) returns (overriden: bool, error: bool)
      requires Valid() && WellFormed(g.Attributes()) && g.name in contents
      requires new_ !in Repr && new_.View() == g.Attributes()
      modifies this, infos[g.name]
      ensures Valid() && Repr == old(Repr)
      ensures contents == Insert(old(contents), g)
      ensures var out := Step(old(contents)[g.name], g.AsSymbol()); overriden == out.overriden && error == out.error
    {
      hide Unpack, Step, Insert, Resolution, SameAbsolute, WellFormed, Distinct, ResolveInfos.Incoming,
        ResolveInfo.View, GlobalSymbol.Attributes, GlobalSymbol.AsSymbol;
      ghost var was, valuesWere := contents, values;
      InsertedAgain(was, g);
      overriden, error := Resolve(infos[g.name], new_, values[g.name], g.value);
      forall n | n in infos && n != g.name ensures Symbol(infos[n].View(), valuesWere[n]) == was[n] {
        OtherEntry(infos, n, g.name);
      }
      if overriden && !g.isDyn {
        values := values[g.name := g.value];
      }
      contents := Insert(was, g);
      StaysValid(g.name, contents[g.name], was, valuesWere);
    }

    /** The name is new: the newcomer becomes its entry. */
    method AddNew(g: GlobalSymbol, new_: ResolveInfo)
      requires Valid() && WellFormed(g.Attributes()) && g.name !in contents
      requires new_ !in Repr && new_.View() == g.Attributes()
      modifies this
      ensures Valid() && Repr == old(Repr) + {new_}
      ensures contents == Insert(old(contents), g)
    {
      hide Unpack, WellFormed, ResolveInfos.Incoming, Step, Distinct, Insert, GlobalSymbol.Attributes,
        GlobalSymbol.AsSymbol, ResolveInfo.View;
      ghost var was, valuesWere := contents, values;
      InsertedNew(was, g);
      StaysDistinct(infos, g.name, new_);
      infos, values := infos[g.name := new_], values[g.name := g.value];
      contents := Insert(was, g);
      Repr := Repr + {new_};
      StaysValid(g.name, contents[g.name], was, valuesWere);
    }

    /** Insert a symbol, resolving it at once against the symbol of that name if there is one. */
    method InsertSymbol(g: GlobalSymbol) returns (existent: bool, overriden: bool, error: bool)
      requires Valid() && WellFormed(g.Attributes())
      modifies this, Repr
      ensures Valid() && fresh(Repr - old(Repr))
      ensures contents == Insert(old(contents), g)
      ensures existent <==> g.name in old(contents)
      ensures if existent
        then var out := Step(old(contents)[g.name], g.AsSymbol()); overriden == out.overriden && error == out.error
        else overriden && !error
    {
      hide Unpack, WellFormed, Step, Insert, ResolveInfos.Incoming;
      var new_ := new ResolveInfo(g.isDyn, g.kind, g.desc, g.binding, g.size, g.visibility);
      existent := g.name in infos;
      if existent {
        overriden, error := ResolveExisting(g, new_);
      } else {
        AddNew(g, new_);
        overriden, error := true, false;
      }
    }

    /** Read the symbols of one input. */
    method InsertSymbols(s: Symbols)
      requires Valid()
      modifies this, Repr
      ensures Valid() && fresh(Repr - old(Repr))
      ensures contents == InsertAll(old(contents), s)
    {
      hide Insert, WellFormed, NamePool.Valid;
      for i := 0 to |s|
        invariant Valid() && fresh(Repr - old(Repr))
        invariant contents == InsertAll(old(contents), s[..i])
      {
        assert s[..i + 1][..i] == s[..i];
        var _, _, _ := InsertSymbol(s[i]);
      }
      assert s[..|s|] == s;
    }
  }
}
