/**
 Structured programs, their bytes, and a structured evaluator in the manner of section 4.4.5 of the WebAssembly Core
 Specification 1.0. One departure, taken from `branch` in kernel/src/wasm.rs: leaving a block keeps the operand stack.
 */
module WasmStructured {
  import opened Common
  import opened WasmInstr
  import opened WasmMachine

  /** A nested instruction sequence. `width` is the LEB128 width of an immediate, `bt` the block type byte. */
  datatype Code =
    | Nil
    | Simple(i: Instr, width: nat, rest: Code)
    | BlockC(bt: byte, body: Code, rest: Code)
    | LoopC(bt: byte, body: Code, rest: Code)
    | IfC(bt: byte, body: Code, rest: Code)
    | IfElseC(bt: byte, thn: Code, els: Code, rest: Code)

  predicate WellFormed(c: Code)
  {
    match c
    case Nil => true
    case Simple(i, width, rest) => Plain(i, width) && WellFormed(rest)
    case IfElseC(_, thn, els, rest) => WellFormed(thn) && WellFormed(els) && WellFormed(rest)
    case _ => WellFormed(c.body) && WellFormed(c.rest)
  }

  /** The opcode of a construct with one body. */
  function OpcodeOf(c: Code): byte { if c.BlockC? then 0x02 else if c.LoopC? then 0x03 else 0x04 }

  function Flatten(c: Code): Bytes
    requires WellFormed(c)
  {
    match c
    case Nil => []
    case Simple(i, width, rest) => Encode(i, width) + Flatten(rest)
    case IfElseC(bt, thn, els, rest) => Enclose(0x04, bt, Flatten(thn), 0x05, Flatten(els) + ([0x0B] + Flatten(rest)))
    case _ => Enclose(OpcodeOf(c), c.bt, Flatten(c.body), 0x0B, Flatten(c.rest))
  }

  function Enclose(op: byte, bt: byte, body: Bytes, close: byte, rest: Bytes): (bs: Bytes)
    ensures |bs| == 3 + |body| + |rest|
  {
    [op, bt] + (body + ([close] + rest))
  }

  /** A function body as it stands in a module: the instructions, then the function's own `end`. */
  function Body(c: Code): Bytes
    requires WellFormed(c)
  {
    Flatten(c) + [0x0B]
  }

  /** Where each opener (and each `else`) of `c`, laid out from `base`, finds its `end` and `else`. */
  function ControlOf(c: Code, base: nat): ControlMap
    requires WellFormed(c)
  {
    match c
    case Nil => map[]
    case Simple(i, width, rest) => ControlOf(rest, base + |Encode(i, width)|)
    case IfElseC(_, thn, els, rest) =>
      var mid := base + 2 + |Flatten(thn)|;
      var end := mid + 1 + |Flatten(els)|;
      IfElseEntries(ControlOf(thn, base + 2), ControlOf(els, mid + 1), base, mid, end) + ControlOf(rest, end + 1)
    case _ =>
      var end := base + 2 + |Flatten(c.body)|;
      ControlOf(c.body, base + 2)[base := ControlInfo(end, None)] + ControlOf(c.rest, end + 1)
  }

  function IfElseEntries(thn: ControlMap, els: ControlMap, base: nat, mid: nat, end: nat): ControlMap
  {
    (thn + els)[base := ControlInfo(end, Some(mid))][mid := ControlInfo(end, None)]
  }

  // ---- the structured evaluator ----

  /**
   How a sequence ends, and the fuel left: by reaching its end, by a branch out of `depth` more blocks, by return, or
   not at all.
   */
  datatype Exit =
    | Fell(s: Store, fuel: nat)
    | Broke(depth: nat, s: Store, fuel: nat)
    | Left(stack: seq<i32>)
    | Fault(error: Error)
    | Starved

  /**
   What a construct's result is to the sequence around it: falling through costs the closing opcode, a branch to it
   costs nothing more.
   */
  function Close(r: Exit): (out: Exit)
    ensures out.Fell? ==> (r.Fell? && out.fuel < r.fuel) || (r.Broke? && out.fuel == r.fuel)
    ensures out.Broke? ==> r.Broke? && out.fuel == r.fuel
  {
    match r
    case Fell(s, fuel) => if fuel == 0 then Starved else Fell(s, fuel - 1)
    case Broke(depth, s, fuel) => if depth == 0 then Fell(s, fuel) else Broke(depth - 1, s, fuel)
    case _ => r
  }

  function Eval(c: Code, s: Store, fuel: nat): (r: Exit)
    requires WellFormed(c)
    ensures r.Fell? ==> r.fuel <= fuel
    ensures r.Broke? ==> r.fuel < fuel
    decreases fuel, c, 0
  {
    if c.Nil? then Fell(s, fuel)
    else if fuel == 0 then Starved
    else
      var n := |s.stack|;
      match c
      case Simple(i, _, rest) =>
        if i.Br? then Broke(i.depth, s, fuel - 1)
        else if i.BrIf? then
          if n < 1 then Fault(StackUnderflow)
          else
            var s1 := s.(stack := s.stack[..n - 1]);
            if s.stack[n - 1] != 0 then Broke(i.depth, s1, fuel - 1) else Eval(rest, s1, fuel - 1)
        else if i.Return? then Left(s.stack)
        else
          var after := Exec(i, s);
          if after.Err? then Fault(after.error) else Eval(rest, after.value, fuel - 1)
      case BlockC(_, body, rest) => AndThen(Close(Eval(body, s, fuel - 1)), rest, fuel - 1)
      case LoopC(_, body, rest) => AndThen(Close(Iterate(body, s, fuel - 1)), rest, fuel - 1)
      case IfC(_, body, rest) =>
        if n < 1 then Fault(StackUnderflow)
        else
          var s1 := s.(stack := s.stack[..n - 1]);
          if s.stack[n - 1] != 0 then AndThen(Close(Eval(body, s1, fuel - 1)), rest, fuel - 1)
          else Eval(rest, s1, fuel - 1)
      case IfElseC(_, thn, els, rest) =>
        if n < 1 then Fault(StackUnderflow)
        else
          var s1 := s.(stack := s.stack[..n - 1]);
          AndThen(Close(Eval(if s.stack[n - 1] != 0 then thn else els, s1, fuel - 1)), rest, fuel - 1)
  }

  function AndThen(r: Exit, rest: Code, bound: nat): (out: Exit)
    requires WellFormed(rest)
    requires r.Fell? ==> r.fuel <= bound
    requires r.Broke? ==> r.fuel < bound
    ensures out.Fell? ==> out.fuel <= bound
    ensures out.Broke? ==> out.fuel < bound
    decreases bound, rest, 1
  {
    if r.Fell? then Eval(rest, r.s, r.fuel) else r
  }

  /** A loop body again and again, for as long as it branches to the loop itself. */
  function Iterate(body: Code, s: Store, fuel: nat): (r: Exit)
    requires WellFormed(body)
    ensures r.Fell? ==> r.fuel <= fuel
    ensures r.Broke? ==> r.fuel < fuel && r.depth > 0
    decreases fuel, body, 1
  {
    match Eval(body, s, fuel)
    case Broke(depth, s1, fuel1) => if depth == 0 then Iterate(body, s1, fuel1) else Broke(depth, s1, fuel1)
    case r => r
  }

  /** A function call: a branch past the outermost block returns, a deeper one is malformed. */
  function EvalFunction(c: Code, args: seq<i32>, declared: nat, fuel: nat): Outcome
    requires WellFormed(c)
  {
    match Eval(c, Store([], Locals(args, declared)), fuel)
    case Fell(s, fuel1) => if fuel1 == 0 then OutOfFuel else Finish(s.stack)
    case Broke(depth, s, _) => if depth == 0 then Finish(s.stack) else Trapped(BranchTooDeep)
    case Left(stack) => Finish(stack)
    case Fault(e) => Trapped(e)
    case Starved => OutOfFuel
  }
}
