/** Evaluating linker script expressions: a stack machine over postfix tokens, whose operators are shared objects that
    receive their operands one by one. */
module RpnEvaluators {
  import opened Options
  import opened Words

  datatype Op =
    | SizeOfHeaders | MaxPageSize | CommonPageSize
    | UnaryPlus | UnaryMinus | LogicalNot | BitwiseNot
    | Absolute | Addr | AlignOf | DataSegmentEnd | Defined | Length | LoadAddr | Next | Origin | SizeOf
    | Mul | Div | Mod | Add | Sub | LShift | RShift | Lt | Le | Gt | Ge | Eq | Ne
    | BitwiseAnd | BitwiseXor | BitwiseOr | LogicalAnd | LogicalOr
    | Align | DataSegmentRelroEnd | Max | Min | SegmentStart
    | TernaryIf | DataSegmentAlign

  function Arity(op: Op): (n: nat)
    ensures n <= 3
  {
    match op
    case SizeOfHeaders | MaxPageSize | CommonPageSize => 0
    case UnaryPlus | UnaryMinus | LogicalNot | BitwiseNot => 1
    case Absolute | Addr | AlignOf | DataSegmentEnd | Defined | Length | LoadAddr | Next | Origin | SizeOf => 1
    case TernaryIf | DataSegmentAlign => 3
    case _ => 2
  }

  /** What an operand stands for: a number, or a section by its name, which has no value of its own. */
  datatype Value = Num(n: Word, isInteger: bool) | Sect(name: string)

  datatype SectionInfo = SectionInfo(addr: Word, size: Word, align: Word)

  /** What evaluation looks up: symbols, output sections, addresses given on the command line, and the target. */
  datatype Env = Env(
    symbols: map<string, Word>,
    sections: map<string, SectionInfo>,
    addresses: map<string, Word>,
    sectionStartOffset: Word,
    abiPageSize: Word,
    commonPageSize: Word)

  function Truth(b: bool): Word {
    if b then 1 else 0
  }

  /** The next multiple of an alignment that is a power of two; alignment 0 changes nothing. */
  function AlignAddress(address: Word, alignment: Word): Word {
    if alignment != 0 then And(Wrap(address + alignment - 1), Not(Wrap(alignment - 1))) else address
  }

  function Apply1(op: Op, a: Word): Option<Word> {
    match op
    case UnaryPlus | DataSegmentEnd => Some(a)
    case UnaryMinus => Some(Wrap(-(a as int)))
    case LogicalNot => Some(Truth(a == 0))
    case BitwiseNot => Some(Not(a))
    case _ => None
  }

  /** Division by 0, and a shift by the width or more, have no result. */
  function Apply2(op: Op, a: Word, b: Word, commonPageSize: Word): Option<Word> {
    match op
    case Mul => Some(Wrap(a * b))
    case Div => if b == 0 then None else Some(Quotient(a, b))
    case Mod => if b == 0 then None else Some(Remainder(a, b))
    case Add => Some(Wrap(a + b))
    case Sub => Some(Wrap(a - b))
    case LShift => if b < 64 then Some(ShiftLeft(a, b)) else None
    case RShift => if b < 64 then Some(ShiftRight(a, b)) else None
    case Lt => Some(Truth(a < b))
    case Le => Some(Truth(a <= b))
    case Gt => Some(Truth(a > b))
    case Ge => Some(Truth(a >= b))
    case Eq => Some(Truth(a == b))
    case Ne => Some(Truth(a != b))
    case BitwiseAnd => Some(And(a, b))
    case BitwiseXor => Some(Xor(a, b))
    case BitwiseOr => Some(Or(a, b))
    case LogicalAnd => Some(Truth(a != 0 && b != 0))
    case LogicalOr => Some(Truth(a != 0 || b != 0))
    case Align => Some(AlignAddress(a, b))
    case DataSegmentRelroEnd => Some(AlignAddress(Wrap(a + b), commonPageSize))
    case Max => Some(if a >= b then a else b)
    case Min => Some(if a <= b then a else b)
    case _ => None
  }

  function Apply3(op: Op, a: Word, b: Word, c: Word): Option<Word> {
    match op
    case DataSegmentAlign =>
      var dot := AlignAddress(a, b);
      var form1, form2 := Wrap(dot + And(dot, Wrap(b - 1))), Wrap(dot + And(dot, Wrap(b - c)));
      Some(if form1 <= form2 then form1 else form2)
    case _ => None
  }

  /** Functions of a section's name. */
  function OfSection(op: Op, name: string, env: Env): Option<Word> {
    if name !in env.sections then None
    else
      match op
      case Addr => Some(env.sections[name].addr)
      case AlignOf => Some(env.sections[name].align)
      case SizeOf => Some(env.sections[name].size)
      case _ => None
  }

  function SegmentKey(name: string): string {
    if name == "text-segment" then ".text"
    else if name == "data-segment" then ".data"
    else if name == "bss-segment" then ".bss"
    else name
  }

  /** The result of an operator; none where the program stops or has no defined behaviour. */
  function Apply(op: Op, args: seq<Value>, env: Env): Option<Word>
    requires |args| == Arity(op)
  {
    if Arity(op) == 0 then
      Some(if op == SizeOfHeaders then env.sectionStartOffset
           else if op == MaxPageSize then env.abiPageSize
           else env.commonPageSize)
    else if args[0].Sect? then
      if Arity(op) == 1 then OfSection(op, args[0].name, env)
      else if op == SegmentStart then
        var key := SegmentKey(args[0].name);
        if key in env.addresses then Some(env.addresses[key])
        else if args[1].Num? && args[1].isInteger then Some(args[1].n)
        else None
      else None
    else if (op == LogicalAnd && args[0].n == 0) || (op == LogicalOr && args[0].n != 0) then
      Some(Truth(args[0].n != 0))
    else if op == TernaryIf then
      var chosen := args[if args[0].n != 0 then 1 else 2];
      if chosen.Num? then Some(chosen.n) else None
    else if exists i :: 0 <= i < |args| && args[i].Sect? then None
    else if Arity(op) == 1 then Apply1(op, args[0].n)
    else if Arity(op) == 2 then Apply2(op, args[0].n, args[1].n, env.commonPageSize)
    else Apply3(op, args[0].n, args[1].n, args[2].n)
  }

  /** An operand token. A named one is a symbol other than the dot, which evaluation looks up; every other one has its
      value already. */
  class Operand {
    const isNamed: bool
    const name: string
    const given: Value
    var value: Word

    constructor (isNamed: bool, name: string, given: Value)
      ensures this.isNamed == isNamed && this.name == name && this.given == given
    {
      this.isNamed, this.name, this.given := isNamed, name, given;
    }

    function Read(): Value
      reads this
    {
      if isNamed then Num(value, false) else given
    }
  }

  /** An operator token. All uses of an operator share one object: its slots fill up in turn. */
  class Operator {
    const op: Op
    var size: nat
    var slots: seq<Operand?>

    ghost predicate Valid()
      reads this
    {
      |slots| == Arity(op) && (size < Arity(op) || size == 0)
    }

    constructor (op: Op)
      ensures this.op == op && Valid() && size == 0
    {
      this.op := op;
      size := 0;
      slots := seq(Arity(op), _ => null);
    }

    method AppendOperand(operand: Operand)
      requires Valid() && Arity(op) > 0
      modifies this
      ensures Valid() && slots == old(slots)[old(size) := operand]
      ensures size == if old(size) + 1 == Arity(op) then 0 else old(size) + 1
    {
      slots := slots[size := operand];
      size := size + 1;
      if size == Arity(op) {
        size := 0;
      }
    }

    ghost predicate Filled()
      reads this
    {
      Valid() && forall i :: 0 <= i < |slots| ==> slots[i] != null
    }

    /** What the operands in the slots stand for. */
    function Args(): (args: seq<Value>)
      requires Filled()
      reads this, slots
      ensures |args| == Arity(op)
    {
      if |slots| == 0 then []
      else if |slots| == 1 then [slots[0].Read()]
      else if |slots| == 2 then [slots[0].Read(), slots[1].Read()]
      else [slots[0].Read(), slots[1].Read(), slots[2].Read()]
    }

    /** The operator applied to what its slots hold: a fresh integer operand. */
    method Eval(env: Env) returns (r: Option<Operand>)
      requires Filled()
      ensures r.Some? == ApplyValue(op, Args(), env).Some?
      ensures r.Some? ==> fresh(r.value) && !r.value.isNamed && Some(r.value.given) == ApplyValue(op, Args(), env)
    {
      hide Apply;
      var result := Apply(op, Args(), env);
      if result.Some? {
        var operand := new Operand(false, "", Num(result.value, true));
        r := Some(operand);
      } else {
        r := None;
      }
    }
  }

  datatype Token = Opr(op: Operator) | Opd(operand: Operand)

  /** A well-formed expression. Its leaves and operators are the token objects themselves. */
  datatype Expr = Leaf(operand: Operand) | Apply0(op: Operator) | Unary(op: Operator, a: Expr)
                | Binary(op: Operator, a: Expr, b: Expr) | Ternary(op: Operator, a: Expr, b: Expr, c: Expr) {
    ghost predicate Valid() {
      match this
      case Leaf(_) => true
      case Apply0(op) => Arity(op.op) == 0
      case Unary(op, a) => Arity(op.op) == 1 && a.Valid()
      case Binary(op, a, b) => Arity(op.op) == 2 && a.Valid() && b.Valid()
      case Ternary(op, a, b, c) => Arity(op.op) == 3 && a.Valid() && b.Valid() && c.Valid()
    }
  }

  /** What a leaf stands for. A named symbol must be in the pool. */
  function LeafValue(o: Operand, env: Env): Option<Value> {
    if !o.isNamed then Some(o.given)
    else if o.name in env.symbols then Some(Num(env.symbols[o.name], false))
    else None
  }

  function ApplyValue(op: Op, args: seq<Value>, env: Env): Option<Value>
    requires |args| == Arity(op)
  {
    var r := Apply(op, args, env);
    if r.Some? then Some(Num(r.value, true)) else None
  }

  /** The value of an expression: all operands first, then the operator. */
  ghost function Meaning(e: Expr, env: Env): Option<Value>
    requires e.Valid()
  {
    match e
    case Leaf(o) => LeafValue(o, env)
    case Apply0(op) => ApplyValue(op.op, [], env)
    case Unary(op, a) =>
      var x := Meaning(a, env);
      if x.None? then None else ApplyValue(op.op, [x.value], env)
    case Binary(op, a, b) =>
      var x, y := Meaning(a, env), Meaning(b, env);
      if x.None? || y.None? then None else ApplyValue(op.op, [x.value, y.value], env)
    case Ternary(op, a, b, c) =>
      var x, y, z := Meaning(a, env), Meaning(b, env), Meaning(c, env);
      if x.None? || y.None? || z.None? then None else ApplyValue(op.op, [x.value, y.value, z.value], env)
  }

  /** The first operand of a logical operator alone decides. */
  predicate Decides(op: Op, first: Value) {
    first.Num? && ((op == LogicalAnd && first.n == 0) || (op == LogicalOr && first.n != 0))
  }

  /** What the expression would mean if only the operands that matter were evaluated, as in C. */
  ghost function LazyMeaning(e: Expr, env: Env): Option<Value>
    requires e.Valid()
  {
    match e
    case Leaf(o) => LeafValue(o, env)
    case Apply0(op) => ApplyValue(op.op, [], env)
    case Unary(op, a) =>
      var x := LazyMeaning(a, env);
      if x.None? then None else ApplyValue(op.op, [x.value], env)
    case Binary(op, a, b) =>
      var x := LazyMeaning(a, env);
      if x.None? then None
      else if Decides(op.op, x.value) then Some(Num(Truth(x.value.n != 0), true))
      else
        var y := LazyMeaning(b, env);
        if y.None? then None else ApplyValue(op.op, [x.value, y.value], env)
    case Ternary(op, a, b, c) =>
      var x := LazyMeaning(a, env);
      if x.None? then None
      else if op.op == TernaryIf then
        if x.value.Sect? then None else Selected(LazyMeaning(if x.value.n != 0 then b else c, env))
      else
        var y, z := LazyMeaning(b, env), LazyMeaning(c, env);
        if y.None? || z.None? then None else ApplyValue(op.op, [x.value, y.value, z.value], env)
  }

  /** The chosen operand of `? :`, which must be a number. */
  function Selected(v: Option<Value>): Option<Value> {
    if v.Some? && v.value.Num? then Some(Num(v.value.n, true)) else None
  }

  /** Every operand that need not be evaluated has a value nevertheless. */
  ghost predicate SkippedDefined(e: Expr, env: Env)
    requires e.Valid()
  {
    match e
    case Leaf(_) | Apply0(_) => true
    case Unary(_, a) => SkippedDefined(a, env)
    case Binary(op, a, b) =>
      var x := LazyMeaning(a, env);
      SkippedDefined(a, env)
      && if x.Some? && Decides(op.op, x.value) then Meaning(b, env).Some? else SkippedDefined(b, env)
    case Ternary(op, a, b, c) =>
      var x := LazyMeaning(a, env);
      SkippedDefined(a, env)
      && if op.op == TernaryIf && x.Some? && x.value.Num? then
           var (taken, skipped) := if x.value.n != 0 then (b, c) else (c, b);
           SkippedDefined(taken, env) && Meaning(skipped, env).Some?
         else SkippedDefined(b, env) && SkippedDefined(c, env)
  }

  lemma ApplyDecided(op: Op, x: Value, y: Value, env: Env)
    requires Arity(op) == 2 && Decides(op, x)
    ensures ApplyValue(op, [x, y], env) == Some(Num(Truth(x.n != 0), true))
  {}

  lemma ApplyIf(x: Value, y: Value, z: Value, env: Env)
    ensures ApplyValue(TernaryIf, [x, y, z], env)
         == if x.Sect? then None else Selected(Some(if x.n != 0 then y else z))
  {}

  /** Evaluating all operands first gives what evaluating only those that matter would give, exactly if every skipped
      operand has a value; otherwise it gives nothing. */
  lemma {:induction false} StrictMeans(e: Expr, env: Env)
    requires e.Valid()
    ensures Meaning(e, env) == if SkippedDefined(e, env) then LazyMeaning(e, env) else None
  {
    hide ApplyValue, Truth;
    match e
    case Leaf(_) =>
    case Apply0(_) =>
    case Unary(_, a) =>
      StrictMeans(a, env);
    case Binary(op, a, b) =>
      StrictMeans(a, env);
      StrictMeans(b, env);
      var x, y := Meaning(a, env), Meaning(b, env);
      if x.Some? && y.Some? && Decides(op.op, x.value) {
        ApplyDecided(op.op, x.value, y.value, env);
      }
    case Ternary(op, a, b, c) =>
      StrictMeans(a, env);
      StrictMeans(b, env);
      StrictMeans(c, env);
      var x, y, z := Meaning(a, env), Meaning(b, env), Meaning(c, env);
      if op.op == TernaryIf && x.Some? && y.Some? && z.Some? {
        ApplyIf(x.value, y.value, z.value, env);
      }
  }

  /** An unknown symbol in the branch not taken: C's meaning is the branch taken, the evaluator has none. */
  lemma UntakenBranchStops(op: Operator, condition: Operand, taken: Operand, unknown: Operand, v: Word, env: Env)
    requires op.op == TernaryIf && unknown.isNamed && unknown.name !in env.symbols
    requires !condition.isNamed && condition.given == Num(1, true) && !taken.isNamed && taken.given == Num(v, true)
    ensures var e := Ternary(op, Leaf(condition), Leaf(taken), Leaf(unknown));
      e.Valid() && LazyMeaning(e, env) == Some(Num(v, true)) && Meaning(e, env) == None
  {
    var e := Ternary(op, Leaf(condition), Leaf(taken), Leaf(unknown));
    assert Arity(op.op) == 3;
    assert LazyMeaning(e.a, env) == Some(Num(1, true));
    assert LazyMeaning(e.b, env) == Some(Num(v, true));
  }

  ghost function Postfix(e: Expr): seq<Token> {
    match e
    case Leaf(o) => [Opd(o)]
    case Apply0(op) => [Opr(op)]
    case Unary(op, a) => Postfix(a) + [Opr(op)]
    case Binary(op, a, b) => Postfix(a) + Postfix(b) + [Opr(op)]
    case Ternary(op, a, b, c) => Postfix(a) + Postfix(b) + Postfix(c) + [Opr(op)]
  }

  /** One token on a stack of values. */
  ghost function Step(t: Token, stack: seq<Value>, env: Env): Option<seq<Value>> {
    match t
    case Opd(o) =>
      var v := LeafValue(o, env);
      if v.None? then None else Some(stack + [v.value])
    case Opr(op) =>
      var n := Arity(op.op);
      if n > |stack| then None
      else
        var r := ApplyValue(op.op, stack[|stack| - n..], env);
        if r.None? then None else Some(stack[..|stack| - n] + [r.value])
  }

  ghost function Machine(tokens: seq<Token>, stack: seq<Value>, env: Env): Option<seq<Value>> {
    if tokens == [] then Some(stack)
    else
      var next := Step(tokens[0], stack, env);
      if next.None? then None else Machine(tokens[1..], next.value, env)
  }

  lemma {:induction false} MachineOn(s: seq<Token>, t: seq<Token>, stack: seq<Value>, env: Env)
    ensures Machine(s + t, stack, env)
         == var mid := Machine(s, stack, env); if mid.None? then None else Machine(t, mid.value, env)
  {
    if s == [] {
      assert s + t == t;
    } else {
      assert (s + t)[1..] == s[1..] + t;
      var next := Step(s[0], stack, env);
      if next.Some? {
        MachineOn(s[1..], t, next.value, env);
      }
    }
  }

  lemma One(t: Token, stack: seq<Value>, env: Env)
    ensures Machine([t], stack, env) == Step(t, stack, env)
  {
    var next := Step(t, stack, env);
    if next.Some? {
      assert Machine([], next.value, env) == Some(next.value);
    }
  }

  /** The postfix form of an expression leaves exactly its value on top of whatever the stack held. */
  lemma {:induction false} PostfixMeans(e: Expr, stack: seq<Value>, env: Env)
    requires e.Valid()
    ensures Machine(Postfix(e), stack, env)
         == var v := Meaning(e, env); if v.None? then None else Some(stack + [v.value])
    decreases e, 1
  {
    match e
    case Leaf(o) =>
      One(Opd(o), stack, env);
    case Apply0(op) =>
      One(Opr(op), stack, env);
      assert stack[|stack|..] == [] && stack[..|stack|] == stack;
    case Unary(op, a) =>
      PostfixMeans(a, stack, env);
      MachineOn(Postfix(a), [Opr(op)], stack, env);
      if Meaning(a, env).Some? {
        Operate(op, stack, [Meaning(a, env).value], env);
      }
    case Binary(op, a, b) =>
      PostfixMeans2(e, a, b, stack, env);
      MachineOn(Postfix(a) + Postfix(b), [Opr(op)], stack, env);
      if Meaning(a, env).Some? && Meaning(b, env).Some? {
        Operate(op, stack, [Meaning(a, env).value, Meaning(b, env).value], env);
      }
    case Ternary(op, a, b, c) =>
      PostfixMeans2(e, a, b, stack, env);
      MachineOn(Postfix(a) + Postfix(b), Postfix(c), stack, env);
      MachineOn(Postfix(a) + Postfix(b) + Postfix(c), [Opr(op)], stack, env);
      if Meaning(a, env).Some? && Meaning(b, env).Some? {
        var x, y := Meaning(a, env).value, Meaning(b, env).value;
        PostfixMeans(c, stack + [x, y], env);
        if Meaning(c, env).Some? {
          assert stack + [x, y] + [Meaning(c, env).value] == stack + [x, y, Meaning(c, env).value];
          Operate(op, stack, [x, y, Meaning(c, env).value], env);
        }
      }
  }

  lemma {:induction false} PostfixMeans2(e: Expr, a: Expr, b: Expr, stack: seq<Value>, env: Env)
    requires a < e && b < e && a.Valid() && b.Valid()
    ensures Machine(Postfix(a) + Postfix(b), stack, env)
         == var x, y := Meaning(a, env), Meaning(b, env);
            if x.None? || y.None? then None else Some(stack + [x.value, y.value])
    decreases e, 0
  {
    PostfixMeans(a, stack, env);
    MachineOn(Postfix(a), Postfix(b), stack, env);
    if Meaning(a, env).Some? {
      PostfixMeans(b, stack + [Meaning(a, env).value], env);
      if Meaning(b, env).Some? {
        var x, y := Meaning(a, env).value, Meaning(b, env).value;
        assert stack + [x] + [y] == stack + [x, y];
      }
    }
  }

  lemma Operate(op: Operator, stack: seq<Value>, args: seq<Value>, env: Env)
    requires |args| == Arity(op.op)
    ensures Machine([Opr(op)], stack + args, env)
         == var r := ApplyValue(op.op, args, env); if r.None? then None else Some(stack + [r.value])
  {
    One(Opr(op), stack + args, env);
    assert (stack + args)[|stack + args| - |args|..] == args && (stack + args)[..|stack + args| - |args|] == stack;
  }

  /** The operands have been looked up: each reads as what its token stands for. */
  ghost predicate LookedUp(stack: seq<Operand>, env: Env)
    reads stack
  {
    forall o :: o in stack ==> LeafValue(o, env) == Some(o.Read())
  }

  /** What the operands on a stack stand for. */
  ghost function Values(stack: seq<Operand>, env: Env): (vs: seq<Value>)
    requires forall o :: o in stack ==> LeafValue(o, env).Some?
    ensures |vs| == |stack| && forall i :: 0 <= i < |stack| ==> vs[i] == LeafValue(stack[i], env).value
  {
    seq(|stack|, i requires 0 <= i < |stack| => LeafValue(stack[i], env).value)
  }

  /** Evaluation's result: a number on top of the stack. */
  ghost function Result(stack: Option<seq<Value>>): Option<Word> {
    if stack.None? || stack.value == [] then None
    else
      var top := stack.value[|stack.value| - 1];
      if top.Num? then Some(top.n) else None
  }

  class RpnEvaluator {
    const env: Env

    constructor (env: Env)
      ensures this.env == env
    {
      this.env := env;
    }

    /** Hands over as many operands as the operator takes. */
    method Fill(op: Operator, args: seq<Operand>)
      requires op.Valid() && op.size == 0 && |args| == Arity(op.op)
      modifies op
      ensures op.Valid() && op.Filled() && op.size == 0
      ensures LookedUp(args, env) ==> op.Args() == Values(args, env)
    {
      hide Apply;
      if |args| == 1 {
        op.AppendOperand(args[0]);
      } else if |args| == 2 {
        op.AppendOperand(args[0]);
        op.AppendOperand(args[1]);
      } else if |args| == 3 {
        op.AppendOperand(args[0]);
        op.AppendOperand(args[1]);
        op.AppendOperand(args[2]);
      }
    }

    /** Pops as many operands as the operator takes, hands them over in the order they were pushed, and pushes the
        result. */
    method Operate(op: Operator, stack: seq<Operand>) returns (r: Option<seq<Operand>>)
      requires op.Valid() && op.size == 0 && LookedUp(stack, env)
      modifies op
      ensures op.Valid() && op.size == 0
      ensures var next := Step(Opr(op), Values(stack, env), env);
        && r.Some? == next.Some?
        && (r.Some? ==> LookedUp(r.value, env) && Values(r.value, env) == next.value)
      ensures r.Some? ==> forall o :: o in r.value ==> o in stack || fresh(o)
    {
      hide *;
      var n := Arity(op.op);
      Short(op, stack, env);
      if |stack| < n {
        return None;
      }
      var rest, args := stack[..|stack| - n], stack[|stack| - n..];
      assert stack == rest + args;
      Parts(rest, args, env);
      Fill(op, args);
      var result := op.Eval(env);
      if result.None? {
        return None;
      }
      Extended(rest, result.value, env);
      return Some(rest + [result.value]);
    }

    /** Looks a named symbol up; every other operand has its value already. */
    method LookUp(operand: Operand) returns (found: bool)
      modifies operand
      ensures found == LeafValue(operand, env).Some?
      ensures found ==> LeafValue(operand, env) == Some(operand.Read())
      ensures !operand.isNamed || !found ==> operand.value == old(operand.value)
    {
      found := true;
      if operand.isNamed {
        if operand.name in env.symbols {
          operand.value := env.symbols[operand.name];
        } else {
          found := false;
        }
      }
    }

    /** Runs the tokens on an empty stack; the result is the number on top. Where the program would stop, or its
        behaviour is undefined, there is none. */
    method Eval(tokens: seq<Token>, ghost operators: set<Operator>, ghost operands: set<Operand>)
      returns (r: Option<Word>)
      requires forall t :: t in tokens ==> if t.Opr? then t.op in operators else t.operand in operands
      requires forall op :: op in operators ==> op.Valid() && op.size == 0
      modifies operators, operands
      ensures r == Result(Machine(tokens, [], env))
      ensures forall op :: op in operators ==> op.Valid() && op.size == 0
    {
      hide Step;
      var stack: seq<Operand> := [];
      var i := 0;
      assert tokens[0..] == tokens;
      while i < |tokens|
        invariant i <= |tokens| && LookedUp(stack, env)
        invariant Machine(tokens, [], env) == Machine(tokens[i..], Values(stack, env), env)
        invariant forall op :: op in operators ==> op.Valid() && op.size == 0
        invariant forall o :: o in stack ==> o in operands || fresh(o)
      {
        assert tokens[i..][0] == tokens[i] && tokens[i..][1..] == tokens[i + 1..];
        match tokens[i] {
          case Opr(op) =>
            var next := Operate(op, stack);
            if next.None? {
              return None;
            }
            stack := next.value;
          case Opd(operand) =>
            var found := LookUp(operand);
            Pushed(stack, operand, env);
            if !found {
              return None;
            }
            stack := stack + [operand];
        }
        i := i + 1;
      }
      if stack == [] {
        return None;
      }
      var top := stack[|stack| - 1].Read();
      return if top.Num? then Some(top.n) else None;
    }
  }

  lemma Pushed(stack: seq<Operand>, o: Operand, env: Env)
    requires forall x :: x in stack ==> LeafValue(x, env).Some?
    ensures Step(Opd(o), Values(stack, env), env).Some? <==> LeafValue(o, env).Some?
    ensures LeafValue(o, env).Some? ==> Step(Opd(o), Values(stack, env), env) == Some(Values(stack + [o], env))
  {
    if LeafValue(o, env).Some? {
      assert Values(stack + [o], env) == Values(stack, env) + [LeafValue(o, env).value];
    }
  }

  /** For every well-formed expression, evaluating its postfix form gives its value, with nothing left below it. */
  lemma EvalMeans(e: Expr, env: Env)
    requires e.Valid()
    ensures var m, v := Machine(Postfix(e), [], env), Meaning(e, env);
      && (v.Some? ==> m == Some([v.value]))
      && Result(m) == if v.Some? && v.value.Num? then Some(v.value.n) else None
  {
    PostfixMeans(e, [], env);
    if Meaning(e, env).Some? {
      assert [] + [Meaning(e, env).value] == [Meaning(e, env).value];
    }
  }

  lemma Short(op: Operator, stack: seq<Operand>, env: Env)
    requires LookedUp(stack, env)
    ensures forall o :: o in stack ==> LeafValue(o, env).Some?
    ensures |stack| < Arity(op.op) ==> Step(Opr(op), Values(stack, env), env).None?
  {}

  /** The operator takes its arguments off the stack. */
  lemma Parts(rest: seq<Operand>, args: seq<Operand>, env: Env)
    requires LookedUp(rest + args, env)
    ensures LookedUp(rest, env) && LookedUp(args, env)
    ensures forall o :: o in rest + args ==> LeafValue(o, env).Some?
    ensures forall o :: o in args ==> LeafValue(o, env).Some?
    ensures forall o :: o in rest ==> LeafValue(o, env).Some?
    ensures forall op: Operator :: Arity(op.op) == |args| ==>
      Step(Opr(op), Values(rest + args, env), env) ==
      var r := ApplyValue(op.op, Values(args, env), env); if r.None? then None else Some(Values(rest, env) + [r.value])
  {
    assert forall o :: o in rest ==> o in rest + args;
    assert forall o :: o in args ==> o in rest + args;
    ValuesSplit(rest, args, env);
    hide ApplyValue;
    var s, t := Values(rest, env), Values(args, env);
    assert (s + t)[|s + t| - |args|..] == t && (s + t)[..|s + t| - |args|] == s;
  }

  /** A fresh integer operand on top. */
  lemma Extended(rest: seq<Operand>, o: Operand, env: Env)
    requires LookedUp(rest, env) && !o.isNamed
    ensures LookedUp(rest + [o], env)
    ensures forall x :: x in rest ==> LeafValue(x, env).Some?
    ensures forall x :: x in rest + [o] ==> LeafValue(x, env).Some?
    ensures Values(rest + [o], env) == Values(rest, env) + [o.given]
  {
    ValuesSplit(rest, [o], env);
    assert Values([o], env) == [o.given];
  }

  lemma ValuesSplit(s: seq<Operand>, t: seq<Operand>, env: Env)
    requires forall o :: o in s ==> LeafValue(o, env).Some?
    requires forall o :: o in t ==> LeafValue(o, env).Some?
    ensures forall o :: o in s + t ==> LeafValue(o, env).Some?
    ensures Values(s + t, env) == Values(s, env) + Values(t, env)
  {}
}
