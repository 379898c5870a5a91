/** What the operators of script expressions compute, each by laws of its own. */
module ScriptOperators {
  import opened Options
  import opened Words
  import opened Arithmetic
  import opened RpnEvaluators

  /** The result for two numbers, whatever kinds of operands they come from. */
  function Of2(op: Op, a: Word, b: Word, env: Env): Option<Word>
    requires Arity(op) == 2
  {
    Apply(op, [Num(a, true), Num(b, true)], env)
  }

  function Of1(op: Op, a: Word, env: Env): Option<Word>
    requires Arity(op) == 1
  {
    Apply(op, [Num(a, true)], env)
  }

  lemma Of2Is(op: Op, a: Word, b: Word, env: Env)
    requires Arity(op) == 2
    ensures Of2(op, a, b, env)
         == if (op == LogicalAnd && a == 0) || (op == LogicalOr && a != 0) then Some(Truth(a != 0))
            else Apply2(op, a, b, env.commonPageSize)
  {
    hide Apply2;
    assert Apply2(SegmentStart, a, b, env.commonPageSize) == None by { NoNumbers(a, b, env); }
  }

  lemma NoNumbers(a: Word, b: Word, env: Env)
    ensures Apply2(SegmentStart, a, b, env.commonPageSize) == None
  {}

  lemma KindDoesNotMatter(op: Op, a: Word, i: bool, b: Word, j: bool, env: Env)
    ensures Arity(op) == 2 ==> Apply(op, [Num(a, i), Num(b, j)], env) == Of2(op, a, b, env)
    ensures Arity(op) == 1 ==> Apply(op, [Num(a, i)], env) == Of1(op, a, env)
  {
    hide Apply1, Apply2, OfSection;
  }

  /** Subtraction undoes addition, and both are those of the integers as far as the result is a 64-bit number. */
  lemma SumsExactly(a: Word, b: Word, env: Env)
    ensures Of2(Add, a, b, env).Some? && Of2(Sub, a, b, env).Some?
    ensures Of2(Sub, Of2(Add, a, b, env).value, b, env) == Some(a)
    ensures Of2(Add, Of2(Sub, a, b, env).value, b, env) == Some(a)
    ensures a + b < TWO_64 ==> Of2(Add, a, b, env) == Some(a + b)
    ensures b <= a ==> Of2(Sub, a, b, env) == Some(a - b)
  {
    hide Of2, Wrap;
    var sum, difference := Wrap(a + b), Wrap(a - b);
    WrapsOnce(a, b);
    Of2Is(Add, a, b, env);
    Of2Is(Sub, a, b, env);
    Of2Is(Sub, sum, b, env);
    Of2Is(Add, difference, b, env);
  }

  lemma WrapsOnce(a: Word, b: Word)
    ensures Wrap(a + b) == (if a + b < TWO_64 then a + b else a + b - TWO_64)
    ensures Wrap(a - b) == (if b <= a then a - b else a - b + TWO_64)
    ensures Wrap(Wrap(a + b) - b) == a && Wrap(Wrap(a - b) + b) == a
  {}

  /** Multiplication is that of the integers, modulo 2^64. */
  lemma ProductExactly(a: Word, b: Word, env: Env)
    ensures Of2(Mul, a, b, env).Some? && (a * b - Of2(Mul, a, b, env).value) % TWO_64 == 0
    ensures a * b < TWO_64 ==> Of2(Mul, a, b, env) == Some(a * b)
  {
    hide Of2, Apply2;
    ProductIs(a, b, env);
    Congruent(a * b);
  }

  lemma ProductIs(a: Word, b: Word, env: Env)
    ensures Of2(Mul, a, b, env) == Some(Wrap(a * b))
  {
    hide Of2, Wrap;
    Of2Is(Mul, a, b, env);
  }

  lemma Congruent(m: nat)
    ensures Wrap(m) <= m && (m - Wrap(m)) % TWO_64 == 0
  {
    var q := m / TWO_64;
    assert m == TWO_64 * q + m % TWO_64;
    RemainderIs(TWO_64 * q, q, 0, TWO_64);
  }

  lemma SignsExactly(a: Word, env: Env)
    ensures Of1(UnaryPlus, a, env) == Some(a)
    ensures Of1(UnaryMinus, a, env) == Of2(Sub, 0, a, env)
    ensures Of1(LogicalNot, a, env) == Some(if a == 0 then 1 else 0)
    ensures Of1(BitwiseNot, a, env).Some?
    ensures forall i: nat :: i < 64 ==> (Bit(Of1(BitwiseNot, a, env).value, i) <==> !Bit(a, i))
  {
    hide Of2, Bit;
    Of2Is(Sub, 0, a, env);
    forall i: nat | i < 64 ensures Bit(Not(a), i) <==> !Bit(a, i) {
      BitwiseExactly(a, a, i);
    }
  }

  /** Quotient and remainder, for a divisor that is not 0. */
  lemma DivisionExactly(a: Word, b: Word, env: Env)
    ensures Of2(Div, a, b, env).Some? <==> b != 0
    ensures Of2(Mod, a, b, env).Some? <==> b != 0
    ensures b != 0 ==>
      a == b * Of2(Div, a, b, env).value + Of2(Mod, a, b, env).value && Of2(Mod, a, b, env).value < b
  {
    hide Of2;
    Of2Is(Div, a, b, env);
    Of2Is(Mod, a, b, env);
    if b != 0 {
      assert a == b * (a / b) + a % b;
    }
  }

  /** Shifts by less than the width: by none nothing changes, by one more the number is doubled or halved. */
  lemma ShiftingExactly(a: Word, n: Word, env: Env)
    ensures Of2(LShift, a, 0, env) == Some(a) && Of2(RShift, a, 0, env) == Some(a)
    ensures Of2(LShift, a, n, env).Some? <==> n < 64
    ensures Of2(RShift, a, n, env).Some? <==> n < 64
    ensures n < 63 ==> Of2(LShift, a, n + 1, env) == Of2(Mul, 2, Of2(LShift, a, n, env).value, env)
    ensures n < 63 ==> Of2(RShift, a, n + 1, env) == Of2(Div, Of2(RShift, a, n, env).value, 2, env)
  {
    hide ShiftLeft, ShiftRight, Of2;
    ShiftsExactly(a, n);
    ShiftsExactly(a, 0);
    Of2Is(LShift, a, 0, env);
    Of2Is(RShift, a, 0, env);
    Of2Is(LShift, a, n, env);
    Of2Is(RShift, a, n, env);
    if n < 63 {
      Of2Is(LShift, a, n + 1, env);
      Of2Is(RShift, a, n + 1, env);
      ProductIs(2, ShiftLeft(a, n), env);
      Of2Is(Div, ShiftRight(a, n), 2, env);
    }
  }

  lemma BitsExactly(a: Word, b: Word, i: nat, env: Env)
    requires i < 64
    ensures Of2(BitwiseAnd, a, b, env).Some? && Of2(BitwiseOr, a, b, env).Some? && Of2(BitwiseXor, a, b, env).Some?
    ensures Bit(Of2(BitwiseAnd, a, b, env).value, i) <==> Bit(a, i) && Bit(b, i)
    ensures Bit(Of2(BitwiseOr, a, b, env).value, i) <==> Bit(a, i) || Bit(b, i)
    ensures Bit(Of2(BitwiseXor, a, b, env).value, i) <==> Bit(a, i) != Bit(b, i)
  {
    hide And, Or, Xor, Bit, Of2;
    BitwiseExactly(a, b, i);
    Of2Is(BitwiseAnd, a, b, env);
    Of2Is(BitwiseOr, a, b, env);
    Of2Is(BitwiseXor, a, b, env);
  }

  /** Comparisons answer 1 or 0. */
  lemma ComparesExactly(a: Word, b: Word, env: Env)
    ensures Of2(Lt, a, b, env) == Some(if a < b then 1 else 0) && Of2(Ge, a, b, env) == Some(if a < b then 0 else 1)
    ensures Of2(Gt, a, b, env) == Some(if b < a then 1 else 0) && Of2(Le, a, b, env) == Some(if b < a then 0 else 1)
  {
    hide Of2;
    Of2Is(Lt, a, b, env);
    Of2Is(Ge, a, b, env);
    Of2Is(Gt, a, b, env);
    Of2Is(Le, a, b, env);
  }

  lemma EqualsExactly(a: Word, b: Word, env: Env)
    ensures Of2(Eq, a, b, env) == Some(if a == b then 1 else 0) && Of2(Ne, a, b, env) == Some(if a == b then 0 else 1)
  {
    hide Of2;
    Of2Is(Eq, a, b, env);
    Of2Is(Ne, a, b, env);
  }

  /** So do the logical operators. */
  lemma LogicExactly(a: Word, b: Word, env: Env)
    ensures Of2(LogicalAnd, a, b, env) == Some(if a == 0 || b == 0 then 0 else 1)
    ensures Of2(LogicalOr, a, b, env) == Some(if a == 0 && b == 0 then 0 else 1)
  {
    hide Of2;
    Of2Is(LogicalAnd, a, b, env);
    Of2Is(LogicalOr, a, b, env);
  }

  /** The greater and the smaller of two numbers. */
  lemma ExtremesExactly(a: Word, b: Word, env: Env)
    ensures Of2(Max, a, b, env) in {Some(a), Some(b)} && Of2(Max, a, b, env).value >= a
      && Of2(Max, a, b, env).value >= b
    ensures Of2(Min, a, b, env) in {Some(a), Some(b)} && Of2(Min, a, b, env).value <= a
      && Of2(Min, a, b, env).value <= b
  {
    hide Of2;
    Of2Is(Max, a, b, env);
    Of2Is(Min, a, b, env);
  }

  /** The least multiple of a power of two that is not below a number. */
  ghost predicate IsLeastMultiple(r: int, a: int, d: nat)
    requires d > 0
  {
    r % d == 0 && a <= r < a + d
  }

  lemma AlignsExactly(a: Word, k: nat)
    requires k < 64
    ensures Pow2(k) < TWO_64
    ensures a + Pow2(k) <= TWO_64 ==> IsLeastMultiple(AlignAddress(a, Pow2(k)), a, Pow2(k))
    ensures AlignAddress(a, 0) == a
  {
    hide Pow2, And, Not;
    var d := Pow2(k);
    if a + d <= TWO_64 {
      var y: Word := a + d - 1;
      MaskExactly(y, k);
      assert AlignAddress(a, d) == y - y % d;
      assert y == d * (y / d) + y % d;
      MultipleOf(y - y % d, y / d, d);
    } else {
      MaskExactly(0, k);
    }
  }

  lemma MultipleOf(x: nat, q: nat, d: nat)
    requires d > 0 && x == d * q
    ensures x % d == 0
  {
    assert x == q * d + 0;
    RemainderIs(x, q, 0, d);
  }

  /** ALIGN goes to the least multiple not below, if that is a 64-bit number; the end of the read-only data after
      relocation to that of the common page size. */
  lemma AlignmentExactly(a: Word, b: Word, k: nat, env: Env)
    requires k < 64 && Pow2(k) < TWO_64
    ensures a + Pow2(k) <= TWO_64 ==>
      Of2(Align, a, Pow2(k), env).Some? && IsLeastMultiple(Of2(Align, a, Pow2(k), env).value, a, Pow2(k))
    ensures env.commonPageSize == Pow2(k) && a + b + Pow2(k) <= TWO_64 ==>
      var r := Of2(DataSegmentRelroEnd, a, b, env);
      r.Some? && IsLeastMultiple(r.value, a + b, Pow2(k))
    ensures Of2(Align, a, 0, env) == Some(a)
  {
    hide AlignAddress, Pow2, Of2, IsLeastMultiple;
    AlignsExactly(a, k);
    Of2Is(Align, a, Pow2(k), env);
    Of2Is(Align, a, 0, env);
    Of2Is(DataSegmentRelroEnd, a, b, env);
    if a + b < TWO_64 {
      AlignsExactly(a + b, k);
    }
  }

  /** The data segment starts at the least multiple of the maximal page size not below the dot. */
  lemma DataSegmentExactly(dot: Word, k: nat, common: Word, env: Env)
    requires k < 64 && Pow2(k) < TWO_64 && common <= Pow2(k) && dot + 2 * Pow2(k) <= TWO_64
    ensures var r := Apply(DataSegmentAlign, [Num(dot, true), Num(Pow2(k), true), Num(common, true)], env);
      r.Some? && IsLeastMultiple(r.value, dot, Pow2(k))
  {
    hide AlignAddress, Pow2, And;
    var d := Pow2(k);
    AlignsExactly(dot, k);
    var aligned := AlignAddress(dot, d);
    MaskExactly(aligned, k);
    AndBound(aligned, d - common);
  }

  /** Masking does not make a number larger. */
  lemma AndBound(a: Word, b: Word)
    ensures And(a, b) <= a && And(a, b) <= b
  {
    BitsBound(a, b, 64);
  }

  lemma {:induction false} BitsBound(a: nat, b: nat, w: nat)
    ensures Bits(Both, a, b, w) <= a && Bits(Both, a, b, w) <= b
  {
    if w > 0 {
      BitsBound(a / 2, b / 2, w - 1);
    }
  }

  /** What an operator takes from the sections, the target, and the command line. */
  lemma LookupsExactly(name: string, other: Value, env: Env)
    ensures name in env.sections ==>
      && Apply(Addr, [Sect(name)], env) == Some(env.sections[name].addr)
      && Apply(AlignOf, [Sect(name)], env) == Some(env.sections[name].align)
      && Apply(SizeOf, [Sect(name)], env) == Some(env.sections[name].size)
    ensures name !in env.sections ==>
      Apply(Addr, [Sect(name)], env) == Apply(AlignOf, [Sect(name)], env) == Apply(SizeOf, [Sect(name)], env) == None
    ensures Apply(SizeOfHeaders, [], env) == Some(env.sectionStartOffset)
    ensures Apply(MaxPageSize, [], env) == Some(env.abiPageSize)
    ensures Apply(CommonPageSize, [], env) == Some(env.commonPageSize)
  {}

  /** The start of a segment: what the command line says of the section the segment is named for, else the default,
      which must be a number written in the script. */
  lemma SegmentStartExactly(name: string, section: string, other: Value, env: Env)
    requires (name, section) in {("text-segment", ".text"), ("data-segment", ".data"), ("bss-segment", ".bss")}
             || (name == section && name != "text-segment" && name != "data-segment" && name != "bss-segment")
    ensures Apply(SegmentStart, [Sect(name), other], env)
         == if section in env.addresses then Some(env.addresses[section])
            else if other.Num? && other.isInteger then Some(other.n) else None
  {}

  /** The chosen operand, which must be a number. */
  lemma ChoiceExactly(c: Word, a: Value, b: Value, env: Env)
    ensures c != 0 && a.Num? ==> Apply(TernaryIf, [Num(c, true), a, b], env) == Some(a.n)
    ensures c == 0 && b.Num? ==> Apply(TernaryIf, [Num(c, true), a, b], env) == Some(b.n)
    ensures (if c != 0 then a else b).Sect? ==> Apply(TernaryIf, [Num(c, true), a, b], env) == None
  {}

  /** A symbol's value counts where a number is asked for, but not as the default of a segment's start, which must be
      written in the script. A symbol that is not in the pool has none. */
  lemma SymbolsExactly(plus: Operator, start: Operator, section: Operand, symbol: Operand, env: Env)
    requires plus.op == UnaryPlus && start.op == SegmentStart && symbol.isNamed
    requires !section.isNamed && section.given.Sect? && SegmentKey(section.given.name) !in env.addresses
    ensures var e := Unary(plus, Leaf(symbol));
      e.Valid() && Meaning(e, env)
        == if symbol.name in env.symbols then Some(Num(env.symbols[symbol.name], true)) else None
    ensures var e := Binary(start, Leaf(section), Leaf(symbol));
      e.Valid() && Meaning(e, env) == None
  {
    assert Meaning(Leaf(section), env) == Some(section.given);
    assert Meaning(Leaf(symbol), env) == LeafValue(symbol, env);
  }

  /** The first operand is the left one: what is written first is what the second is subtracted from. */
  lemma FirstComesFirst(op: Operator, a: Operand, b: Operand, x: Word, y: Word, env: Env)
    requires op.op == Sub && y <= x
    requires LeafValue(a, env) == Some(Num(x, true)) && LeafValue(b, env) == Some(Num(y, true))
    ensures Arity(Sub) == 2
    ensures var e := Binary(op, Leaf(a), Leaf(b));
      Meaning(e, env) == Some(Num(x - y, true))
        && Machine([Opd(a), Opd(b), Opr(op)], [], env) == Some([Num(x - y, true)])
  {
    hide Apply;
    var e := Binary(op, Leaf(a), Leaf(b));
    SumsExactly(x, y, env);
    assert Meaning(Leaf(a), env) == Some(Num(x, true)) && Meaning(Leaf(b), env) == Some(Num(y, true));
    PostfixMeans(e, [], env);
    assert Postfix(e) == [Opd(a), Opd(b), Opr(op)];
    assert [] + [Meaning(e, env).value] == [Num(x - y, true)];
  }
}
