/**
 What the operators and instructions of kernel/src/wasm.rs mean, stated through the laws of sections 4.3.2 and 4.4 of
 the WebAssembly Core Specification 1.0: orders, division with remainder, bits, and what is popped and pushed.
 */
module WasmOperators {
  import opened Common
  import opened Leb128
  import opened WasmInstr
  import opened WasmMachine

  /** Whether a comparison holds. */
  predicate Holds(op: BinOp, a: i32, b: i32) { Apply(op, a, b) == Ok(1) }

  /** Comparisons give 1 or 0, and are the orders of the signed and of the unsigned numbers. */
  lemma Comparisons(a: i32, b: i32)
    ensures forall op :: op in {Eq, Ne, LtS, LtU, GtS, GtU, LeS, LeU, GeS, GeU} ==> Apply(op, a, b) in {Ok(0), Ok(1)}
    ensures (Holds(LtS, a, b) <==> a < b) && (Holds(LtU, a, b) <==> Unsigned(a) < Unsigned(b))
    ensures (Holds(GtS, a, b) <==> Holds(LtS, b, a)) && (Holds(GtU, a, b) <==> Holds(LtU, b, a))
    ensures (Holds(GeS, a, b) <==> !Holds(LtS, a, b)) && (Holds(GeU, a, b) <==> !Holds(LtU, a, b))
    ensures (Holds(LeS, a, b) <==> !Holds(LtS, b, a)) && (Holds(LeU, a, b) <==> !Holds(LtU, b, a))
    ensures Holds(Eq, a, b) <==> !Holds(LtS, a, b) && !Holds(LtS, b, a)
    ensures Holds(Eq, a, b) <==> !Holds(LtU, a, b) && !Holds(LtU, b, a)
    ensures Holds(Ne, a, b) <==> !Holds(Eq, a, b)
  {
  }

  /** The unsigned numbers are those of the bit patterns: the same modulo 2^32, from 0 on. */
  lemma UnsignedPattern(a: i32)
    ensures 0 <= Unsigned(a) < TWO_32 && (Unsigned(a) - a) % TWO_32 == 0 && Wrap(Unsigned(a)) == a
  {
  }

  /** Unsigned quotient and remainder, and the traps, each with its own message. */
  lemma UnsignedDivision(a: i32, b: i32)
    ensures b == 0 ==> Apply(DivU, a, b) == Err(DivideByZero) && Apply(RemU, a, b) == Err(RemainderByZero)
    ensures b == 0 ==> Apply(DivS, a, b) == Err(DivideByZeroOrOverflow) && Apply(RemS, a, b) == Err(RemainderByZero)
    ensures b != 0 ==>
              && Apply(DivU, a, b).Ok? && Apply(RemU, a, b).Ok?
              && var q, r := Unsigned(Apply(DivU, a, b).value), Unsigned(Apply(RemU, a, b).value);
                 Unsigned(a) == q * Unsigned(b) + r && r < Unsigned(b)
  {
    hide Wrap, Abs;
    if b != 0 {
      UnsignedPattern(a);
      UnsignedPattern(b);
      Quotient(Unsigned(a), Unsigned(b));
      UnsignedOfWrap(Unsigned(a) / Unsigned(b));
      UnsignedOfWrap(Unsigned(a) % Unsigned(b));
    }
  }

  lemma Quotient(n: nat, m: nat)
    requires m > 0
    ensures n == n / m * m + n % m && 0 <= n / m <= n && n % m < m && n % m <= n
  {
    QuotientSmall(n, m, n / m, n % m);
  }

  // ---- shifts ----

  /** Bits of the number itself, however large. */
  function BitOf(x: int, i: nat): int { x / Pow2(i) % 2 }

  lemma {:induction false} ShiftedBit(x: int, k: nat, i: nat)
    ensures BitOf(x / Pow2(k), i) == BitOf(x, k + i)
  {
    Pow2Add(k, i);
    TwoStepDivision(x, Pow2(k), Pow2(i));
  }

  /** Adding a multiple of 2^32 leaves the low 32 bits alone. */
  lemma LowBits(x: int, m: int, i: nat)
    requires i < 32
    ensures BitOf(x + m * TWO_32, i) == BitOf(x, i)
  {
    hide Pow2;
    Pow2Of64();
    Pow2Add(i, 32 - i);
    Pow2Step(32 - i);
    AddedAbove(x, m, Pow2(i), Pow2(31 - i));
  }

  /** What is added above a bit, in even multiples, does not change it. */
  lemma AddedAbove(x: int, m: int, p: int, h: int)
    requires p > 0
    ensures (x + m * (p * (2 * h))) / p % 2 == x / p % 2
  {
    MulAssoc(m, 2 * h, p);
    assert m * (p * (2 * h)) == (m * (2 * h)) * p;
    AddedWhole(x, m * (2 * h), p);
    assert m * (2 * h) == 2 * (m * h);
    EvenPart(x / p, m * h);
  }

  lemma AddedWhole(x: int, k: int, p: int)
    requires p > 0
    ensures (x + k * p) / p == x / p + k
  {
    var q, r := x / p, x % p;
    assert x == q * p + r;
    MulDistrib(q, k, p);
    DivUnique(x + k * p, p, q + k, r);
  }

  lemma EvenPart(q: int, half: int)
    ensures (q + 2 * half) % 2 == q % 2
  {
  }

  /** The bits of a pattern are the low 32 bits of any number it stands for. */
  lemma PatternBits(a: i32, x: int, i: nat)
    requires i < 32 && (a - x) % TWO_32 == 0
    ensures Bit(a, i) == BitOf(x, i)
  {
    UnsignedPattern(a);
    var m := (Unsigned(a) - x) / TWO_32;
    assert (Unsigned(a) - x) % TWO_32 == 0 by {
      var k, l := (Unsigned(a) - a) / TWO_32, (a - x) / TWO_32;
      DivUnique(Unsigned(a) - x, TWO_32, k + l, 0);
    }
    LowBits(x, m, i);
  }

  /** The bit at the top of a signed number. */
  lemma SignBits(a: i32, i: nat)
    requires i >= 31
    ensures BitOf(a, i) == if a < 0 then 1 else 0
  {
    Pow2Of64();
    Pow2At63();
    Pow2Mono(31, i);
    Pow2Step(32);
    hide Pow2;
    DivUnique(a, Pow2(i), if a < 0 then -1 else 0, if a < 0 then a + Pow2(i) else a);
  }

  /** How far a shift goes: the count's low five bits, read as unsigned. */
  lemma ShiftCount(b: i32)
    ensures b % 32 == Unsigned(b) % 32
  {
  }

  /** Shifted left, zeros come in from the right. */
  lemma ShiftsLeft(a: i32, b: i32, i: nat)
    requires i < 32
    ensures Bit(Apply(Shl, a, b).value, i) == if i >= b % 32 then Bit(a, i - b % 32) else 0
  {
    var k := b % 32;
    var x := a * Pow2(k);
    WrapCongruent(x);
    PatternBits(Wrap(x), x, i);
    PatternBits(a, a, if i >= k then i - k else 0);
    LeftBits(a, k, i);
  }

  lemma LeftBits(a: int, k: nat, i: nat)
    ensures BitOf(a * Pow2(k), i) == if i >= k then BitOf(a, i - k) else 0
  {
    hide Pow2, BitOf;
    if i >= k {
      ShiftedBit(a * Pow2(k), k, i - k);
      DivUnique(a * Pow2(k), Pow2(k), a, 0);
    } else {
      NewBits(a, k, i);
    }
  }

  lemma NewBits(a: int, k: nat, i: nat)
    requires i < k
    ensures BitOf(a * Pow2(k), i) == 0
  {
    hide Pow2;
    Pow2Add(i, k - i);
    Pow2Step(k - i);
    AddedAbove(0, a, Pow2(i), Pow2(k - i - 1));
    DivUnique(0, Pow2(i), 0, 0);
  }

  /** Shifted right, the sign comes in from the left, or zeros. */
  lemma ShiftsRight(a: i32, b: i32, i: nat)
    requires i < 32
    ensures Bit(Apply(ShrS, a, b).value, i) == Bit(a, if i + b % 32 < 32 then i + b % 32 else 31)
    ensures Bit(Apply(ShrU, a, b).value, i) == if i + b % 32 < 32 then Bit(a, i + b % 32) else 0
  {
    hide Pow2, Bit, BitOf;
    RightSigned(a, b % 32, i);
    RightUnsigned(a, b % 32, i);
  }

  lemma RightSigned(a: i32, k: nat, i: nat)
    requires i < 32 && k < 32
    ensures Bit(Wrap(a / Pow2(k)), i) == Bit(a, if i + k < 32 then i + k else 31)
  {
    hide Pow2, Bit, BitOf;
    WrapCongruent(a / Pow2(k));
    PatternBits(Wrap(a / Pow2(k)), a / Pow2(k), i);
    ShiftedBit(a, k, i);
    Itself(a);
    PatternBits(a, a, if i + k < 32 then i + k else 31);
    if i + k >= 32 {
      SignBits(a, i + k);
      SignBits(a, 31);
    }
  }

  lemma RightUnsigned(a: i32, k: nat, i: nat)
    requires i < 32 && k < 32
    ensures Bit(Wrap(Unsigned(a) / Pow2(k)), i) == if i + k < 32 then Bit(a, i + k) else 0
  {
    hide Pow2, Bit, BitOf;
    var n := Unsigned(a);
    UnsignedPattern(a);
    WrapCongruent(n / Pow2(k));
    PatternBits(Wrap(n / Pow2(k)), n / Pow2(k), i);
    ShiftedBit(n, k, i);
    if i + k < 32 {
      Opposite(n, a);
      PatternBits(a, n, i + k);
    } else {
      NoBits(n, i + k);
    }
  }

  lemma Itself(a: int)
    ensures (a - a) % TWO_32 == 0
  {
  }

  lemma Opposite(n: int, a: int)
    requires (n - a) % TWO_32 == 0
    ensures (a - n) % TWO_32 == 0
  {
  }

  lemma NoBits(n: nat, i: nat)
    requires n < TWO_32 && i >= 32
    ensures BitOf(n, i) == 0
  {
    Pow2Of64();
    Pow2Mono(32, i);
    hide Pow2;
    DivUnique(n, Pow2(i), 0, n);
  }

  // ---- what instructions pop and push ----

  /** Operators take their second operand from the top of the stack. */
  lemma OperatorsReduce(rest: seq<i32>, a: i32, b: i32, locals: seq<i32>, op: BinOp)
    ensures Exec(Binary(op), Store(rest + [a, b], locals))
            == match Apply(op, a, b)
               case Ok(v) => Ok(Store(rest + [v], locals))
               case Err(e) => Err(e)
    ensures Exec(I32Eqz, Store(rest + [a], locals)) == Ok(Store(rest + [if a == 0 then 1 else 0], locals))
    ensures Exec(Drop, Store(rest + [a], locals)) == Ok(Store(rest, locals))
    ensures Exec(I32Const(a), Store(rest, locals)) == Ok(Store(rest + [a], locals))
    ensures Exec(Nop, Store(rest, locals)) == Ok(Store(rest, locals))
    ensures Exec(UnreachableI, Store(rest, locals)) == Err(Unreachable)
  {
    hide Apply;
    assert (rest + [a, b])[..|rest|] == rest && (rest + [a])[..|rest|] == rest;
  }

  /** Locals are read and written at their own index, and only there. */
  lemma LocalsReduce(rest: seq<i32>, a: i32, locals: seq<i32>, x: nat)
    ensures Exec(LocalGet(x), Store(rest, locals))
            == if x < |locals| then Ok(Store(rest + [locals[x]], locals)) else Err(BadLocalIndex)
    ensures Exec(LocalSet(x), Store(rest + [a], locals))
            == if x < |locals| then Ok(Store(rest, locals[..x] + [a] + locals[x + 1..])) else Err(BadLocalIndex)
    ensures Exec(LocalTee(x), Store(rest + [a], locals))
            == if x < |locals| then Ok(Store(rest + [a], locals[..x] + [a] + locals[x + 1..])) else Err(BadLocalIndex)
  {
    assert (rest + [a])[..|rest|] == rest;
    if x < |locals| {
      assert locals[x := a] == locals[..x] + [a] + locals[x + 1..];
    }
  }

  /** With too few operands nothing is executed. */
  lemma Underflows(a: i32, locals: seq<i32>, op: BinOp, x: nat)
    ensures Exec(Binary(op), Store([], locals)) == Exec(Binary(op), Store([a], locals)) == Err(StackUnderflow)
    ensures Exec(I32Eqz, Store([], locals)) == Exec(Drop, Store([], locals)) == Err(StackUnderflow)
    ensures Exec(LocalSet(x), Store([], locals)) == Err(StackUnderflow)
    ensures Exec(LocalTee(x), Store([], locals)) == Err(TeeOnEmptyStack)
  {
  }

  /** A call starts with the arguments and then zeros, and its result is the top of the stack. */
  lemma CallAndReturn(args: seq<i32>, declared: nat, rest: seq<i32>, a: i32, i: nat)
    ensures |Locals(args, declared)| == |args| + declared
    ensures i < |args| + declared ==> Locals(args, declared)[i] == if i < |args| then args[i] else 0
    ensures Finish(rest + [a]) == Returned(a) && Finish([]) == Trapped(StackUnderflow)
  {
  }

  // ---- which bytes are instructions ----

  /** The opcode bytes of appendix A.4. */
  function OpcodeByte(i: Instr): byte {
    match i
    case UnreachableI => 0x00
    case Nop => 0x01
    case Block => 0x02
    case Loop => 0x03
    case If => 0x04
    case Else => 0x05
    case End => 0x0B
    case Br(_) => 0x0C
    case BrIf(_) => 0x0D
    case Return => 0x0F
    case Drop => 0x1A
    case LocalGet(_) => 0x20
    case LocalSet(_) => 0x21
    case LocalTee(_) => 0x22
    case I32Const(_) => 0x41
    case I32Eqz => 0x45
    case Binary(op) => Opcode(op)
  }

  /** An instruction comes out only of its own opcode, and each opcode but those with a bad immediate gives one. */
  lemma DecodedOpcode(code: Bytes, pc: nat)
    requires pc < |code|
    ensures Decode(code, pc).Ok? ==> code[pc] == OpcodeByte(Decode(code, pc).value.0)
    ensures Decode(code, pc) == Err(UnsupportedOpcode) <==> forall i :: OpcodeByte(i) != code[pc]
  {
    hide Uleb, Sleb;
    OpcodeOf(code[pc]);
    forall i ensures OpcodeByte(i) == code[pc] ==> !HeadAt(code[pc]).Unsupported? { HeadOfOpcode(i); }
  }

  lemma OpcodeOf(b: byte)
    ensures match HeadAt(b)
            case Whole(i, len) => OpcodeByte(i) == b && len == if b in {2, 3, 4} then 2 else 1
            case Unsigned32(build) => forall v: nat :: OpcodeByte(WithImmediate(build, v)) == b
            case Signed32 => forall v: i32 :: OpcodeByte(I32Const(v)) == b
            case Unsupported => true
    ensures !HeadAt(b).Unsupported? ==> exists i :: OpcodeByte(i) == b
  {
    match HeadAt(b)
    case Whole(i, _) => if BinOpAt(b).Some? { OpcodeOfOperator(b); }
    case Unsigned32(build) => assert OpcodeByte(WithImmediate(build, 0)) == b;
    case Signed32 => assert OpcodeByte(I32Const(0)) == b;
    case Unsupported =>
  }

  lemma OpcodeOfOperator(b: byte)
    requires BinOpAt(b).Some?
    ensures Opcode(BinOpAt(b).value) == b
  {
  }

  lemma HeadOfOpcode(i: Instr)
    ensures !HeadAt(OpcodeByte(i)).Unsupported?
  {
    if i.Binary? {
      HeadOfBinary(i.op);
    }
  }
}
