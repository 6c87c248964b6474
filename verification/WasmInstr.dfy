/** The i32 instruction set of kernel/src/wasm.rs: values, numeric operators, opcodes and their decoder. */
module WasmInstr {
  import opened Common
  import opened Leb128

  type i32 = x: int | -0x8000_0000 <= x < 0x8000_0000

  /** The interpreter's error messages, one constructor for each. */
  datatype Error =
    | TruncatedStream | TruncatedImmediate | UnsupportedOpcode
    | ElseWithoutIf | MissingControlInfo | BranchTooDeep
    | Unreachable | StackUnderflow | BadLocalIndex | TeeOnEmptyStack
    | DivideByZeroOrOverflow | DivideByZero | RemainderByZero

  datatype Result<+T> = Ok(value: T) | Err(error: Error)

  datatype BinOp =
    | Eq | Ne | LtS | LtU | GtS | GtU | LeS | LeU | GeS | GeU
    | Add | Sub | Mul | DivS | DivU | RemS | RemU | And | Or | Xor | Shl | ShrS | ShrU

  datatype Instr =
    | UnreachableI | Nop | Block | Loop | If | Else | End
    | Br(depth: nat) | BrIf(depth: nat) | Return | Drop
    | LocalGet(idx: nat) | LocalSet(idx: nat) | LocalTee(idx: nat)
    | I32Const(v: i32) | I32Eqz | Binary(op: BinOp)

  // ---- numeric operators ----

  /** `as u32` */
  function Unsigned(a: i32): nat { if a < 0 then a + TWO_32 else a }

  /** A 32-bit result, reinterpreted as signed. */
  function Wrap(x: int): i32 { var u := x % TWO_32; if u < 0x8000_0000 then u else u - TWO_32 }

  function Bool(b: bool): i32 { if b then 1 else 0 }

  /** Rust's `/` on i32: toward zero. */
  function TruncDiv(a: int, b: int): int
    requires b != 0
  {
    var m := Abs(a) / Abs(b);
    if (a < 0) == (b < 0) then m else -m
  }

  function Abs(x: int): int { if x < 0 then -x else x }

  function Bitwise(f: (nat, nat) -> nat, a: nat, b: nat, n: nat): nat
  {
    if n == 0 then 0 else f(a % 2, b % 2) + 2 * Bitwise(f, a / 2, b / 2, n - 1)
  }

  // One-bit operators; any operand other than 1 counts as 0.
  const AndBit: (nat, nat) -> nat := (x, y) => if x == 1 && y == 1 then 1 else 0
  const OrBit: (nat, nat) -> nat := (x, y) => if x == 1 || y == 1 then 1 else 0
  const XorBit: (nat, nat) -> nat := (x, y) => if (x == 1) != (y == 1) then 1 else 0

  function Apply(op: BinOp, a: i32, b: i32): Result<i32>
  {
    match op
    case Eq => Ok(Bool(a == b))
    case Ne => Ok(Bool(a != b))
    case LtS => Ok(Bool(a < b))
    case LtU => Ok(Bool(Unsigned(a) < Unsigned(b)))
    case GtS => Ok(Bool(a > b))
    case GtU => Ok(Bool(Unsigned(a) > Unsigned(b)))
    case LeS => Ok(Bool(a <= b))
    case LeU => Ok(Bool(Unsigned(a) <= Unsigned(b)))
    case GeS => Ok(Bool(a >= b))
    case GeU => Ok(Bool(Unsigned(a) >= Unsigned(b)))
    case Add => Ok(Wrap(a + b))
    case Sub => Ok(Wrap(a - b))
    case Mul => Ok(Wrap(a * b))
    case DivS => if b == 0 || (a == -0x8000_0000 && b == -1) then Err(DivideByZeroOrOverflow)
      else Ok(Wrap(TruncDiv(a, b)))
    case DivU => if b == 0 then Err(DivideByZero) else Ok(Wrap(Unsigned(a) / Unsigned(b)))
    case RemS => if b == 0 then Err(RemainderByZero) else Ok(if b == -1 then 0 else Wrap(a - TruncDiv(a, b) * b))
    case RemU => if b == 0 then Err(RemainderByZero) else Ok(Wrap(Unsigned(a) % Unsigned(b)))
    case And => Ok(Wrap(Bitwise(AndBit, Unsigned(a), Unsigned(b), 32)))
    case Or => Ok(Wrap(Bitwise(OrBit, Unsigned(a), Unsigned(b), 32)))
    case Xor => Ok(Wrap(Bitwise(XorBit, Unsigned(a), Unsigned(b), 32)))
    case Shl => Ok(Wrap(a * Pow2(b % 32)))
    case ShrS => Ok(Wrap(a / Pow2(b % 32)))
    case ShrU => Ok(Wrap(Unsigned(a) / Pow2(b % 32)))
  }

  /** Signed division and remainder as section 4.3.2 of the WebAssembly Core Specification defines them. */
  lemma SignedDivision(a: i32, b: i32)
    ensures Apply(DivS, a, b).Ok? <==> b != 0 && !(a == -0x8000_0000 && b == -1)
    ensures Apply(RemS, a, b).Ok? <==> b != 0
    ensures Apply(DivS, a, b).Ok? ==>
              var q, r := Apply(DivS, a, b).value, Apply(RemS, a, b).value;
              && a == q * b + r
              && -Abs(b) < r < Abs(b)
              && (r == 0 || (r < 0) == (a < 0))
  {
    if b != 0 && !(a == -0x8000_0000 && b == -1) {
      TruncDivision(a, b);
      var q := TruncDiv(a, b);
      assert Wrap(q) == q by { WrapSmall(q); }
      assert Wrap(a - q * b) == a - q * b by { WrapSmall(a - q * b); }
      if b == -1 {
        assert q == -a;
      }
    }
  }

  lemma WrapSmall(x: int)
    requires -0x8000_0000 <= x < 0x8000_0000
    ensures Wrap(x) == x
  {
    DivUnique(x, TWO_32, if x < 0 then -1 else 0, if x < 0 then x + TWO_32 else x);
  }

  lemma TruncDivision(a: int, b: int)
    requires b != 0
    ensures var q := TruncDiv(a, b); var r := a - q * b;
            && -Abs(b) < r < Abs(b) && (r == 0 || (r < 0) == (a < 0)) && -Abs(a) <= q <= Abs(a)
            && (b == -1 ==> q == -a) && (b != 1 && b != -1 && a != 0 ==> Abs(q) < Abs(a))
  {
    var n, m := Abs(a), Abs(b);
    var k, r := n / m, n % m;
    assert n == k * m + r;
    QuotientSmall(n, m, k, r);
    TruncDivSign(a, b, k, m);
  }

  lemma TruncDivSign(a: int, b: int, k: int, m: int)
    requires b != 0 && m == Abs(b) && k == Abs(a) / m
    ensures TruncDiv(a, b) == (if (a < 0) == (b < 0) then k else -k)
    ensures TruncDiv(a, b) * b == (if a < 0 then -(k * m) else k * m)
  {
    assert (-k) * b == -(k * b);
    assert k * (-b) == -(k * b);
  }

  lemma QuotientSmall(n: nat, m: nat, k: int, r: nat)
    requires m > 0 && r < m && n == k * m + r
    ensures 0 <= k <= n && (m == 1 ==> k == n) && (m > 1 && n > 0 ==> k < n)
  {
    if k < 0 {
      MulMono(k, -1, m);
    } else {
      MulMono(1, m, k);
      if m > 1 { MulMono(2, m, k); }
    }
  }

  /** Every operator works on bit patterns: add, sub, mul and shl are exact modulo 2^32, the shifts right divide. */
  lemma WrappingOperators(a: i32, b: i32)
    ensures (Apply(Add, a, b).value - (a + b)) % TWO_32 == 0
    ensures (Apply(Sub, a, b).value - (a - b)) % TWO_32 == 0
    ensures (Apply(Mul, a, b).value - a * b) % TWO_32 == 0
    ensures (Apply(Shl, a, b).value - a * Pow2(b % 32)) % TWO_32 == 0
  {
    WrapCongruent(a + b);
    WrapCongruent(a - b);
    WrapCongruent(a * b);
    WrapCongruent(a * Pow2(b % 32));
  }

  /** And, or and xor act on each bit on its own. */
  lemma {:induction false} BitwiseBit(f: (nat, nat) -> nat, a: nat, b: nat, n: nat, i: nat)
    requires i < n && forall x: nat, y: nat :: f(x, y) < 2
    ensures Bitwise(f, a, b, n) / Pow2(i) % 2 == f(a / Pow2(i) % 2, b / Pow2(i) % 2)
  {
    BitwiseStep(f, a, b, n);
    if i == 0 {
      assert Pow2(0) == 1;
    } else {
      BitwiseBit(f, a / 2, b / 2, n - 1, i - 1);
      HalveThenShift(a, i);
      HalveThenShift(b, i);
      HalveThenShift(Bitwise(f, a, b, n), i);
    }
  }

  lemma BitwiseStep(f: (nat, nat) -> nat, a: nat, b: nat, n: nat)
    requires n > 0 && forall x: nat, y: nat :: f(x, y) < 2
    ensures Bitwise(f, a, b, n) % 2 == f(a % 2, b % 2)
    ensures Bitwise(f, a, b, n) / 2 == Bitwise(f, a / 2, b / 2, n - 1)
  {
    var low, high := f(a % 2, b % 2), Bitwise(f, a / 2, b / 2, n - 1);
    assert Bitwise(f, a, b, n) == low + 2 * high;
  }

  lemma HalveThenShift(a: nat, i: nat)
    requires i > 0
    ensures a / 2 / Pow2(i - 1) == a / Pow2(i)
  {
    var p := Pow2(i - 1);
    var q, r := a / 2 / p, a / 2 % p;
    assert a / 2 == q * p + r;
    assert a == q * (2 * p) + (2 * r + a % 2);
    DivUnique(a, 2 * p, q, 2 * r + a % 2);
  }

  lemma BitwiseOperators(a: i32, b: i32, i: nat)
    requires i < 32
    ensures Bit(Apply(And, a, b).value, i) == AndBit(Bit(a, i), Bit(b, i))
    ensures Bit(Apply(Or, a, b).value, i) == OrBit(Bit(a, i), Bit(b, i))
    ensures Bit(Apply(Xor, a, b).value, i) == XorBit(Bit(a, i), Bit(b, i))
  {
    assert Bit(Apply(And, a, b).value, i) == AndBit(Bit(a, i), Bit(b, i)) by {
      BitwiseWrapped(AndBit, Unsigned(a), Unsigned(b), i);
    }
    assert Bit(Apply(Or, a, b).value, i) == OrBit(Bit(a, i), Bit(b, i)) by {
      BitwiseWrapped(OrBit, Unsigned(a), Unsigned(b), i);
    }
    assert Bit(Apply(Xor, a, b).value, i) == XorBit(Bit(a, i), Bit(b, i)) by {
      BitwiseWrapped(XorBit, Unsigned(a), Unsigned(b), i);
    }
  }

  function Bit(a: i32, i: nat): nat { Unsigned(a) / Pow2(i) % 2 }

  lemma BitwiseWrapped(f: (nat, nat) -> nat, a: nat, b: nat, i: nat)
    requires i < 32 && forall x: nat, y: nat :: f(x, y) < 2
    ensures Bit(Wrap(Bitwise(f, a, b, 32)), i) == f(a / Pow2(i) % 2, b / Pow2(i) % 2)
  {
    BitwiseBit(f, a, b, 32, i);
    BitwiseBound(f, a, b, 32);
    Pow2Of64();
    UnsignedOfWrap(Bitwise(f, a, b, 32));
  }

  lemma UnsignedOfWrap(x: nat)
    requires x < TWO_32
    ensures Unsigned(Wrap(x)) == x
  {
  }

  lemma {:induction false} BitwiseBound(f: (nat, nat) -> nat, a: nat, b: nat, n: nat)
    requires forall x: nat, y: nat :: f(x, y) < 2
    ensures Bitwise(f, a, b, n) < Pow2(n)
  {
    if n > 0 {
      BitwiseBound(f, a / 2, b / 2, n - 1);
    }
  }

  lemma WrapCongruent(x: int)
    ensures (Wrap(x) - x) % TWO_32 == 0
  {
    var q := x / TWO_32;
    DivUnique(Wrap(x) - x, TWO_32, if x % TWO_32 < 0x8000_0000 then -q else -q - 1, 0);
  }

  // ---- opcodes ----

  function BinOpAt(op: byte): Option<BinOp>
  {
    match op
    case 0x46 => Some(Eq)
    case 0x47 => Some(Ne)
    case 0x48 => Some(LtS)
    case 0x49 => Some(LtU)
    case 0x4A => Some(GtS)
    case 0x4B => Some(GtU)
    case 0x4C => Some(LeS)
    case 0x4D => Some(LeU)
    case 0x4E => Some(GeS)
    case 0x4F => Some(GeU)
    case 0x6A => Some(Add)
    case 0x6B => Some(Sub)
    case 0x6C => Some(Mul)
    case 0x6D => Some(DivS)
    case 0x6E => Some(DivU)
    case 0x6F => Some(RemS)
    case 0x70 => Some(RemU)
    case 0x71 => Some(And)
    case 0x72 => Some(Or)
    case 0x73 => Some(Xor)
    case 0x74 => Some(Shl)
    case 0x75 => Some(ShrS)
    case 0x76 => Some(ShrU)
    case _ => None
  }

  /** What the opcode byte alone decides: a whole instruction and its length, or one that still needs its immediate. */
  datatype Head = Whole(instr: Instr, len: nat) | Unsigned32(build: UImm) | Signed32 | Unsupported
  datatype UImm = BrImm | BrIfImm | GetImm | SetImm | TeeImm

  function HeadAt(op: byte): Head
  {
    match op
    case 0x00 => Whole(UnreachableI, 1)
    case 0x01 => Whole(Nop, 1)
    case 0x02 => Whole(Block, 2)
    case 0x03 => Whole(Loop, 2)
    case 0x04 => Whole(If, 2)
    case 0x05 => Whole(Else, 1)
    case 0x0B => Whole(End, 1)
    case 0x0C => Unsigned32(BrImm)
    case 0x0D => Unsigned32(BrIfImm)
    case 0x0F => Whole(Return, 1)
    case 0x1A => Whole(Drop, 1)
    case 0x20 => Unsigned32(GetImm)
    case 0x21 => Unsigned32(SetImm)
    case 0x22 => Unsigned32(TeeImm)
    case 0x41 => Signed32
    case 0x45 => Whole(I32Eqz, 1)
    case _ => if BinOpAt(op).Some? then Whole(Binary(BinOpAt(op).value), 1) else Unsupported
  }

  function WithImmediate(b: UImm, v: nat): Instr
  {
    match b
    case BrImm => Br(v)
    case BrIfImm => BrIf(v)
    case GetImm => LocalGet(v)
    case SetImm => LocalSet(v)
    case TeeImm => LocalTee(v)
  }

  /** The instruction at `pc` and the position after it. */
  function Decode(code: Bytes, pc: nat): (r: Result<(Instr, nat)>)
    ensures r.Ok? ==> pc < r.value.1 && pc < |code|
  {
    if pc >= |code| then Err(TruncatedStream)
    else
      match HeadAt(code[pc])
      case Whole(instr, len) => Ok((instr, pc + len))
      case Unsigned32(b) =>
        var imm := Uleb(code, pc + 1, 0);
        if imm == None then Err(TruncatedImmediate)
        else Ok((WithImmediate(b, imm.value.0 % TWO_32), imm.value.1))
      case Signed32 =>
        var imm := Sleb(code, pc + 1, 0);
        if imm == None then Err(TruncatedImmediate)
        else Ok((I32Const(Wrap(imm.value.0 % TWO_32)), imm.value.1))
      case Unsupported => Err(UnsupportedOpcode)
  }

  method DecodeInstr(code: Bytes, pc: nat) returns (r: Result<(Instr, nat)>)
    ensures r == Decode(code, pc)
  {
    if pc >= |code| {
      return Err(TruncatedStream);
    }
    match HeadAt(code[pc]) {
      case Whole(instr, len) =>
        r := Ok((instr, pc + len));
      case Unsigned32(b) =>
        var imm := ReadUleb128(code, pc + 1);
        if imm == None {
          return Err(TruncatedImmediate);
        }
        r := Ok((WithImmediate(b, imm.value.0 % TWO_32), imm.value.1));
      case Signed32 =>
        var imm := ReadSleb128(code, pc + 1);
        if imm == None {
          return Err(TruncatedImmediate);
        }
        r := Ok((I32Const(Wrap(imm.value.0 % TWO_32)), imm.value.1));
      case Unsupported =>
        r := Err(UnsupportedOpcode);
    }
  }

  // ---- encoding of the instructions that are not structured control ----

  /** Instructions with an unsigned immediate: their opcode and operand. */
  function UnsignedPart(i: Instr): Option<(byte, nat)>
  {
    match i
    case Br(d) => Some((0x0C, d))
    case BrIf(d) => Some((0x0D, d))
    case LocalGet(x) => Some((0x20, x))
    case LocalSet(x) => Some((0x21, x))
    case LocalTee(x) => Some((0x22, x))
    case _ => None
  }

  predicate Structured(i: Instr) { i.Block? || i.Loop? || i.If? || i.Else? || i.End? }

  /**
   Not structured control, and its immediate fits in `width` LEB128 bytes: up to ten, which is all the readers take.
   */
  predicate Plain(i: Instr, width: nat)
  {
    && !Structured(i)
    && (UnsignedPart(i).Some? ==> var v := UnsignedPart(i).value.1; v < TWO_32 && width <= 10 && FitsU(v, width))
    && (i.I32Const? ==> width <= 10 && FitsS(i.v, width))
  }

  function Opcode(op: BinOp): (b: byte)
    ensures BinOpAt(b) == Some(op)
  {
    match op
    case Eq => 0x46
    case Ne => 0x47
    case LtS => 0x48
    case LtU => 0x49
    case GtS => 0x4A
    case GtU => 0x4B
    case LeS => 0x4C
    case LeU => 0x4D
    case GeS => 0x4E
    case GeU => 0x4F
    case Add => 0x6A
    case Sub => 0x6B
    case Mul => 0x6C
    case DivS => 0x6D
    case DivU => 0x6E
    case RemS => 0x6F
    case RemU => 0x70
    case And => 0x71
    case Or => 0x72
    case Xor => 0x73
    case Shl => 0x74
    case ShrS => 0x75
    case ShrU => 0x76
  }

  function Encode(i: Instr, width: nat): (bs: Bytes)
    requires Plain(i, width)
    ensures |bs| >= 1
  {
    if UnsignedPart(i).Some? then [UnsignedPart(i).value.0] + EncodeU(UnsignedPart(i).value.1, width)
    else match i
      case UnreachableI => [0x00]
      case Nop => [0x01]
      case Return => [0x0F]
      case Drop => [0x1A]
      case I32Const(v) => [0x41] + EncodeS(v, width)
      case I32Eqz => [0x45]
      case Binary(op) => [Opcode(op)]
  }

  lemma HeadOf(i: Instr, width: nat)
    requires Plain(i, width)
    ensures match HeadAt(Encode(i, width)[0])
            case Whole(j, n) => j == i && n == 1 == |Encode(i, width)|
            case Unsigned32(b) => UnsignedPart(i).Some? && i == WithImmediate(b, UnsignedPart(i).value.1)
            case Signed32 => i.I32Const?
            case Unsupported => false
  {
    if i.Binary? {
      HeadOfBinary(i.op);
    }
  }

  lemma HeadOfBinary(op: BinOp)
    ensures HeadAt(Opcode(op)) == Whole(Binary(op), 1)
  {
    assert Opcode(op) >= 0x46;
  }

  lemma DecodeEncode(code: Bytes, pc: nat, i: Instr, width: nat)
    requires Plain(i, width)
    requires var n := |Encode(i, width)|; pc + n <= |code| && code[pc..pc + n] == Encode(i, width)
    ensures Decode(code, pc) == Ok((i, pc + |Encode(i, width)|))
  {
    var n := |Encode(i, width)|;
    var head, rest := Encode(i, width)[0], Encode(i, width)[1..];
    assert code[pc] == head;
    assert code[pc + 1..pc + n] == rest;
    HeadOf(i, width);
    match HeadAt(head)
    case Whole(_, _) =>
    case Unsigned32(_) => ReadU32(code, pc + 1, UnsignedPart(i).value.1, width);
    case Signed32 => ReadS32(code, pc + 1, i.v, width);
  }

  lemma ZeroShift()
    ensures Pow2(0) == 1 && TWO_32 <= Pow2(63) && TWO_32 <= Pow2(64)
  {
    Pow2Of64();
    Pow2At63();
  }

  lemma ReadU32(code: Bytes, pos: nat, v: nat, width: nat)
    requires v < TWO_32 && width <= 10 && FitsU(v, width)
    requires pos + width <= |code| && code[pos..pos + width] == EncodeU(v, width)
    ensures Uleb(code, pos, 0) == Some((v, pos + width)) && v % TWO_32 == v
  {
    hide Pow2;
    ZeroShift();
    UlebRoundTripAt(code, pos, v, width, 0);
  }

  lemma ReadS32(code: Bytes, pos: nat, v: i32, width: nat)
    requires width <= 10 && FitsS(v, width)
    requires pos + width <= |code| && code[pos..pos + width] == EncodeS(v, width)
    ensures Sleb(code, pos, 0).Some?
    ensures var (pattern, next) := Sleb(code, pos, 0).value; Wrap(pattern % TWO_32) == v && next == pos + width
  {
    hide Pow2;
    ZeroShift();
    SlebRoundTripAt(code, pos, v, width, 0);
    PatternWraps(v);
  }

  lemma PatternWraps(v: i32)
    ensures 0 <= Pattern(v, 0) && Wrap(Pattern(v, 0) % TWO_32) == v
  {
    if v < 0 {
      DivUnique(v + TWO_64, TWO_32, TWO_32 - 1, v + TWO_32);
    }
  }
}
