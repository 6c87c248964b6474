/**
 The interpreter loop of kernel/src/wasm.rs: a flat program counter, a control map computed up front,
 and a stack of frames. `fuel` counts executed opcodes, so that every run is finite.
 */
module WasmMachine {
  import opened Common
  import opened WasmInstr

  datatype ControlInfo = ControlInfo(endPc: nat, elsePc: Option<nat>)
  type ControlMap = map<nat, ControlInfo>

  datatype Frame = BlockFrame(endPc: nat) | LoopFrame(startPc: nat) | IfFrame(endPc: nat)

  /** Operand stack (top last) and locals. */
  datatype Store = Store(stack: seq<i32>, locals: seq<i32>)

  datatype Outcome = Returned(value: i32) | Trapped(error: Error) | OutOfFuel

  // ---- build_control_map ----

  function CloseOpener(m: ControlMap, opener: nat, endPc: nat): ControlMap
  {
    var elsePc := if opener in m then m[opener].elsePc else None;
    var m1 := m[opener := ControlInfo(endPc, elsePc)];
    if elsePc.Some? then m1[elsePc.value := ControlInfo(endPc, None)] else m1
  }

  function SetElse(m: ControlMap, opener: nat, elsePc: nat): ControlMap
  {
    m[opener := ControlInfo(if opener in m then m[opener].endPc else 0, Some(elsePc))]
  }

  /** What the scan makes of the code from `pc` on, given the openers still open (innermost last). */
  function Scan(code: Bytes, pc: nat, open: seq<nat>, m: ControlMap): Result<ControlMap>
    decreases |code| - pc
  {
    if pc >= |code| then Ok(m)
    else match Decode(code, pc)
      case Err(e) => Err(e)
      case Ok((instr, next)) =>
        match instr
        case Block => Scan(code, next, open + [pc], m)
        case Loop => Scan(code, next, open + [pc], m)
        case If => Scan(code, next, open + [pc], m)
        case Else => if open == [] then Err(ElseWithoutIf) else Scan(code, next, open, SetElse(m, open[|open| - 1], pc))
        case End => if open == [] then Scan(code, next, open, m)
                    else Scan(code, next, open[..|open| - 1], CloseOpener(m, open[|open| - 1], pc))
        case _ => Scan(code, next, open, m)
  }

  method BuildControlMap(code: Bytes) returns (r: Result<ControlMap>)
    ensures r == Scan(code, 0, [], map[])
  {
    var m: ControlMap := map[];
    var open: seq<nat> := [];
    var pc: nat := 0;
    while pc < |code|
      invariant Scan(code, pc, open, m) == Scan(code, 0, [], map[])
      decreases |code| - pc
    {
      var opPc := pc;
      var d := DecodeInstr(code, pc);
      if d.Err? {
        return Err(d.error);
      }
      var (instr, next) := d.value;
      pc := next;
      match instr {
        case Block => open := open + [opPc];
        case Loop => open := open + [opPc];
        case If => open := open + [opPc];
        case Else =>
          if open == [] {
            return Err(ElseWithoutIf);
          }
          var opener := open[|open| - 1];
          ghost var was := m;
          if opener !in m {
            m := m[opener := ControlInfo(0, None)];
          }
          m := m[opener := m[opener].(elsePc := Some(opPc))];
          assert m == SetElse(was, opener, opPc);
        case End =>
          if open != [] {
            var opener := open[|open| - 1];
            open := open[..|open| - 1];
            var elsePc := if opener in m then m[opener].elsePc else None;
            m := m[opener := ControlInfo(opPc, elsePc)];
            if elsePc.Some? {
              m := m[elsePc.value := ControlInfo(opPc, None)];
            }
          }
        case _ =>
      }
    }
    return Ok(m);
  }

  // ---- straight-line instructions ----

  function Exec(i: Instr, s: Store): Result<Store>
    requires !Structured(i) && !i.Br? && !i.BrIf? && !i.Return?
  {
    var n := |s.stack|;
    match i
    case UnreachableI => Err(Unreachable)
    case Nop => Ok(s)
    case Drop => if n < 1 then Err(StackUnderflow) else Ok(s.(stack := s.stack[..n - 1]))
    case LocalGet(x) => if x >= |s.locals| then Err(BadLocalIndex) else Ok(s.(stack := s.stack + [s.locals[x]]))
    case LocalSet(x) =>
      if n < 1 then Err(StackUnderflow)
      else if x >= |s.locals| then Err(BadLocalIndex)
      else Ok(Store(s.stack[..n - 1], s.locals[x := s.stack[n - 1]]))
    case LocalTee(x) =>
      if n < 1 then Err(TeeOnEmptyStack)
      else if x >= |s.locals| then Err(BadLocalIndex)
      else Ok(s.(locals := s.locals[x := s.stack[n - 1]]))
    case I32Const(v) => Ok(s.(stack := s.stack + [v]))
    case I32Eqz => if n < 1 then Err(StackUnderflow)
      else Ok(s.(stack := s.stack[..n - 1] + [Bool(s.stack[n - 1] == 0)]))
    case Binary(op) =>
      if n < 2 then Err(StackUnderflow)
      else match Apply(op, s.stack[n - 2], s.stack[n - 1])
        case Err(e) => Err(e)
        case Ok(v) => Ok(s.(stack := s.stack[..n - 2] + [v]))
  }

  /** `pop(&mut value_stack)` as the function's result. */
  function Finish(stack: seq<i32>): Outcome
  {
    if stack == [] then Trapped(StackUnderflow) else Returned(stack[|stack| - 1])
  }

  // ---- branch ----

  datatype Target = Goto(pc: nat, frames: seq<Frame>) | Leave | Malformed

  function Branch(frames: seq<Frame>, depth: nat): Target
  {
    if depth == |frames| then Leave
    else if depth > |frames| then Malformed
    else
      var target := |frames| - 1 - depth;
      match frames[target]
      case LoopFrame(startPc) => Goto(startPc, frames[..target + 1])
      case BlockFrame(endPc) => Goto(endPc + 1, frames[..target])
      case IfFrame(endPc) => Goto(endPc + 1, frames[..target])
  }

  // ---- the machine ----

  datatype Machine = Machine(pc: nat, store: Store, frames: seq<Frame>)
  datatype Step = Next(m: Machine) | Halt(outcome: Outcome)

  function Jump(t: Target, s: Store): Step
  {
    match t
    case Goto(pc, frames) => Next(Machine(pc, s, frames))
    case Leave => Halt(Finish(s.stack))
    case Malformed => Halt(Trapped(BranchTooDeep))
  }

  function StepIf(opPc: nat, next: nat, cm: ControlMap, s: Store, frames: seq<Frame>): Step
  {
    var n := |s.stack|;
    if n < 1 then Halt(Trapped(StackUnderflow))
    else if opPc !in cm then Halt(Trapped(MissingControlInfo))
    else
      var info, s1 := cm[opPc], s.(stack := s.stack[..n - 1]);
      if s.stack[n - 1] != 0 then Next(Machine(next, s1, frames + [IfFrame(info.endPc)]))
      else if info.elsePc.Some? then Next(Machine(info.elsePc.value + 1, s1, frames + [IfFrame(info.endPc)]))
      else Next(Machine(info.endPc + 1, s1, frames))
  }

  function PopFrame(frames: seq<Frame>): seq<Frame> { if frames == [] then [] else frames[..|frames| - 1] }

  function StepOf(code: Bytes, cm: ControlMap, m: Machine): Step
  {
    var s, n := m.store, |m.store.stack|;
    match Decode(code, m.pc)
    case Err(e) => Halt(Trapped(e))
    case Ok((instr, next)) =>
      match instr
      case Block => if m.pc !in cm then Halt(Trapped(MissingControlInfo))
                    else Next(Machine(next, s, m.frames + [BlockFrame(cm[m.pc].endPc)]))
      case Loop => Next(Machine(next, s, m.frames + [LoopFrame(next)]))
      case If => StepIf(m.pc, next, cm, s, m.frames)
      case Else => if m.pc !in cm then Halt(Trapped(MissingControlInfo))
                   else Next(Machine(cm[m.pc].endPc + 1, s, PopFrame(m.frames)))
      case End => Next(Machine(next, s, PopFrame(m.frames)))
      case Br(d) => Jump(Branch(m.frames, d), s)
      case BrIf(d) =>
        if n < 1 then Halt(Trapped(StackUnderflow))
        else
          var s1 := s.(stack := s.stack[..n - 1]);
          if s.stack[n - 1] != 0 then Jump(Branch(m.frames, d), s1) else Next(Machine(next, s1, m.frames))
      case Return => Halt(Finish(s.stack))
      case _ => match Exec(instr, s)
                case Err(e) => Halt(Trapped(e))
                case Ok(s1) => Next(Machine(next, s1, m.frames))
  }

  function Run(code: Bytes, cm: ControlMap, m: Machine, fuel: nat): Outcome
    decreases fuel
  {
    if m.pc >= |code| then Finish(m.store.stack)
    else if fuel == 0 then OutOfFuel
    else match StepOf(code, cm, m)
      case Halt(o) => o
      case Next(m1) => Run(code, cm, m1, fuel - 1)
  }

  /** The locals a call starts with. */
  function Locals(args: seq<i32>, declared: nat): seq<i32> { args + seq(declared, _ => 0) }

  function RunCode(code: Bytes, args: seq<i32>, declared: nat, fuel: nat): Outcome
  {
    match Scan(code, 0, [], map[])
    case Err(e) => Trapped(e)
    case Ok(cm) => Run(code, cm, Machine(0, Store([], Locals(args, declared)), []), fuel)
  }

  /** One turn of the interpreter loop. */
  method ExecuteOpcode(code: Bytes, cm: ControlMap, m: Machine) returns (step: Step)
    ensures step == StepOf(code, cm, m)
  {
    var stack, locals, frames := m.store.stack, m.store.locals, m.frames;
    var d := DecodeInstr(code, m.pc);
    if d.Err? {
      return Halt(Trapped(d.error));
    }
    var (instr, pc) := d.value;
    if instr.Block? {
      if m.pc !in cm {
        return Halt(Trapped(MissingControlInfo));
      }
      frames := frames + [BlockFrame(cm[m.pc].endPc)];
    } else if instr.Loop? {
      frames := frames + [LoopFrame(pc)];
    } else if instr.If? {
      if stack == [] {
        return Halt(Trapped(StackUnderflow));
      }
      var cond := stack[|stack| - 1];
      stack := stack[..|stack| - 1];
      if m.pc !in cm {
        return Halt(Trapped(MissingControlInfo));
      }
      var info := cm[m.pc];
      if cond != 0 {
        frames := frames + [IfFrame(info.endPc)];
      } else if info.elsePc.Some? {
        frames := frames + [IfFrame(info.endPc)];
        pc := info.elsePc.value + 1;
      } else {
        pc := info.endPc + 1;
      }
    } else if instr.Else? {
      if m.pc !in cm {
        return Halt(Trapped(MissingControlInfo));
      }
      pc, frames := cm[m.pc].endPc + 1, PopFrame(frames);
    } else if instr.End? {
      frames := PopFrame(frames);
    } else if instr.Br? || instr.BrIf? {
      var taken := true;
      if instr.BrIf? {
        if stack == [] {
          return Halt(Trapped(StackUnderflow));
        }
        taken := stack[|stack| - 1] != 0;
        stack := stack[..|stack| - 1];
      }
      if taken {
        match Branch(frames, instr.depth) {
          case Leave => return Halt(Finish(stack));
          case Malformed => return Halt(Trapped(BranchTooDeep));
          case Goto(target, kept) => pc, frames := target, kept;
        }
      }
    } else if instr.Return? {
      return Halt(Finish(stack));
    } else {
      var after := Exec(instr, m.store);
      if after.Err? {
        return Halt(Trapped(after.error));
      }
      stack, locals := after.value.stack, after.value.locals;
    }
    return Next(Machine(pc, Store(stack, locals), frames));
  }

  method RunFunction(code: Bytes, args: seq<i32>, declared: nat, fuel: nat) returns (outcome: Outcome)
    ensures outcome == RunCode(code, args, declared, fuel)
  {
    var built := BuildControlMap(code);
    if built.Err? {
      return Trapped(built.error);
    }
    var m := Machine(0, Store([], Locals(args, declared)), []);
    var left := fuel;
    while m.pc < |code|
      invariant Run(code, built.value, m, left) == RunCode(code, args, declared, fuel)
      decreases left
    {
      if left == 0 {
        return OutOfFuel;
      }
      var step := ExecuteOpcode(code, built.value, m);
      if step.Halt? {
        return step.outcome;
      }
      m, left := step.m, left - 1;
    }
    return Finish(m.store.stack);
  }
}
