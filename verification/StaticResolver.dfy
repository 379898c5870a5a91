/** Resolution of symbols of one name: a table of actions indexed by the class of the incoming symbol and the class of
    the symbol already in the pool, folded over all the symbols seen. */
module StaticResolvers {
  import opened ResolveInfos

  datatype Ordinate =
    | U | WeakU | DynU | WeakDynU
    | D | WeakD | DynD | WeakDynD
    | C | WeakC | DynC
    | Ind

  datatype LinkAction =
    | NoAct | Und | Weaken | Def | DefW | DefD | DefWD | MDefD | MDefWD
    | DUnd | DUndW | Com | CRef | CDef | Big | MBig | Indir | CInd | MDef | MInd | RefC

  /** What is known of one symbol: its attributes and the value of its output symbol. */
  datatype Symbol = Symbol(info: Info, value: int)

  /** `overriden` and `error` are the resolver's answers; `error` is the multiple-definition report. */
  datatype Outcome = Outcome(symbol: Symbol, overriden: bool, error: bool)

  /** Symbols as the object readers hand them over: local symbols never reach the pool, no reader makes an indirect
      symbol, and only a defined symbol is absolute. */
  predicate WellFormed(i: Info) {
    i.desc != Indirect && i.binding != Local && (i.binding == Absolute ==> i.desc == Define)
  }

  function OrdinateOf(i: Info): Ordinate {
    if i.binding == Absolute && i.dyn then DynD
    else if i.binding == Absolute then D
    else if i.desc == Common && i.dyn then DynC
    else if i.desc == Common && i.binding == Weak then WeakC
    else if i.desc == Indirect then Ind
    else match i.desc
      case Undefined => if i.binding == Weak then (if i.dyn then WeakDynU else WeakU) else (if i.dyn then DynU else U)
      case Define => if i.binding == Weak then (if i.dyn then WeakDynD else WeakD) else (if i.dyn then DynD else D)
      case _ => C
  }

  /** The row or column number of a class; the first nine are the low four bits of the attribute word. */
  function OrdinateNumber(o: Ordinate): bv32 {
    match o
    case U => 0 case WeakU => 1 case DynU => 2 case WeakDynU => 3
    case D => 4 case WeakD => 5 case DynD => 6 case WeakDynD => 7
    case C => 8 case WeakC => 9 case DynC => 10 case Ind => 11
  }

  /** Outside the special cases the class is read straight off the attribute word. */
  lemma OrdinateIsLowBits(size: nat, bits: bv32)
    requires var i := Unpack(size, bits);
      i.binding != Absolute && i.desc != Indirect && !(i.desc == Common && i.dyn)
    ensures OrdinateNumber(OrdinateOf(Unpack(size, bits))) == bits & INFO_MASK
  {
    assert bits & INFO_MASK == (bits & DESC_MASK) | (bits & DYN_MASK) | (bits & GLOBAL_MASK);
    assert bits & GLOBAL_MASK == 0 || bits & GLOBAL_MASK == 1;
    assert bits & DYN_MASK == 0 || bits & DYN_MASK == 2;
    assert bits & DESC_MASK == 0 || bits & DESC_MASK == 4 || bits & DESC_MASK == 8 || bits & DESC_MASK == 12;
  }

  /** The state table: one row per class of incoming symbol. */
  function Action(new_: Ordinate, old_: Ordinate): LinkAction {
    match new_
    case U => (match old_
      case WeakU | DynU | WeakDynU => Und
      case DynD | WeakDynD => DUnd
      case Ind => RefC
      case _ => NoAct)
    case WeakU => (match old_
      case WeakDynU => Weaken
      case DynD | WeakDynD => DUndW
      case Ind => RefC
      case _ => NoAct)
    case DynU | WeakDynU => if old_ == Ind then RefC else NoAct
    case D => (match old_
      case D | Ind => MDef
      case C | WeakC | DynC => CDef
      case _ => Def)
    case WeakD => (match old_
      case U | WeakU | DynU | WeakDynU | DynD | WeakDynD => DefW
      case _ => NoAct)
    case DynD => (match old_
      case U | WeakU => MDefD
      case DynU | WeakDynU => DefD
      case Ind => MDef
      case _ => NoAct)
    case WeakDynD => (match old_
      case U | WeakU => MDefWD
      case DynU | WeakDynU => DefWD
      case _ => NoAct)
    case C => (match old_
      case D => CRef
      case C => MBig
      case DynC => Big
      case Ind => RefC
      case _ => Com)
    case WeakC => (match old_
      case U | WeakU | DynU | WeakDynU => Com
      case Ind => RefC
      case _ => NoAct)
    case DynC => (match old_
      case U | WeakU | DynU | WeakDynU => Com
      case C | WeakC | DynC => MBig
      case Ind => RefC
      case _ => NoAct)
    case Ind => (match old_
      case D => MDef
      case C | WeakC | DynC => CInd
      case Ind => MInd
      case _ => Indir)
  }

  function WithVisibility(old_: Info, new_: Info): Info {
    old_.(visibility := MostConstrained(old_.visibility, new_.visibility))
  }

  function Larger(a: nat, b: nat): nat { if a < b then b else a }

  /** Two absolute definitions of one value are one definition. */
  predicate SameAbsolute(old_: Symbol, new_: Symbol) {
    old_.info.desc == Define && new_.info.desc == Define && old_.info.binding == Absolute
    && new_.info.binding == Absolute && old_.value == new_.value
  }

  /** What an action does: the attributes after it, the answer to the caller and whether it reports an error. */
  function Effect(action: LinkAction, old_: Info, new_: Info, sameAbsolute: bool): (Info, bool, bool) {
    match action
    case NoAct => (WithVisibility(old_, new_), false, false)
    case MDefD | MDefWD => (Overridden(old_, new_).(binding := old_.binding), true, false)
    case DUnd | DUndW => (WithVisibility(old_, new_).(dyn := true), false, false)
    case CRef => (old_, false, false)
    case Big => (Overridden(old_, new_).(size := Larger(old_.size, new_.size)), true, false)
    case MBig => (WithVisibility(old_, new_).(size := Larger(old_.size, new_.size)), false, false)
    case MDef => if sameAbsolute then (Overridden(old_, new_), true, false) else (old_, false, true)
    case _ => (Overridden(old_, new_), true, false)
  }

  function Resolution(old_: Info, new_: Info, sameAbsolute: bool): (Info, bool, bool) {
    Effect(Action(OrdinateOf(new_), OrdinateOf(old_)), old_, new_, sameAbsolute)
  }

  /** One symbol of the pool meets one incoming symbol. Only a symbol of a regular object gives the output symbol its
      value. */
  function Step(old_: Symbol, new_: Symbol): Outcome
    requires old_.info.desc != Indirect && new_.info.desc != Indirect
  {
    var (info, overriden, error) := Resolution(old_.info, new_.info, SameAbsolute(old_, new_));
    Outcome(Symbol(info, if overriden && !new_.info.dyn then new_.value else old_.value), overriden, error)
  }

  predicate IsIndirectAction(a: LinkAction) {
    a in {Indir, CInd, MInd, RefC}
  }

  method Grow(old_: ResolveInfo, size: nat)
    modifies old_
    ensures old_.View() == old(old_.View()).(size := Larger(old(old_.View()).size, size))
  {
    if old_.size < size {
      old_.SetSize(size);
    }
  }

  /** One action of the table, carried out on the symbols themselves. */
  method Perform(action: LinkAction, old_: ResolveInfo, new_: ResolveInfo, same: bool)
    returns (overriden: bool, error: bool)
    requires old_ != new_ && !IsIndirectAction(action)
    modifies old_
    ensures (old_.View(), overriden, error) == Effect(action, old(old_.View()), new_.View(), same)
  {
    hide Unpack;
    var o, n := old_.View(), new_.View();
    overriden, error := false, false;
    match action {
      case NoAct =>
        old_.OverrideVisibility(new_);
      case Und | Weaken | Def | DefW | DefD | DefWD | Com | CDef =>
        overriden := true;
        old_.Override(new_);
      case MDefD | MDefWD =>
        old_.Override(new_);
        old_.SetBinding(o.binding);
        overriden := true;
      case DUnd | DUndW =>
        old_.OverrideVisibility(new_);
        old_.SetDynamic();
      case CRef =>
        // a common symbol does not override a definition
      case Big =>
        Grow(old_, n.size);
        old_.OverrideAttributes(new_);
        old_.OverrideVisibility(new_);
        overriden := true;
      case MBig =>
        Grow(old_, n.size);
        old_.OverrideVisibility(new_);
      case MDef =>
        if same {
          overriden := true;
          old_.Override(new_);
        } else {
          error := true;
        }
    }
  }

  /** The resolver on the symbols themselves. `outValue` is the value of the old output symbol. */
  method Resolve(old_: ResolveInfo, new_: ResolveInfo, outValue: int, value: int)
    returns (overriden: bool, error: bool)
    requires old_ != new_ && old_.View().desc != Indirect && new_.View().desc != Indirect
    modifies old_
    ensures (old_.View(), overriden, error)
         == Resolution(old(old_.View()), new_.View(),
                       SameAbsolute(Symbol(old(old_.View()), outValue), Symbol(new_.View(), value)))
  {
    hide Unpack;
    var o, n := old_.View(), new_.View();
    overriden, error := Perform(Action(OrdinateOf(n), OrdinateOf(o)), old_, new_,
                                SameAbsolute(Symbol(o, outValue), Symbol(n, value)));
  }
}
