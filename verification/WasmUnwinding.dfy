/**
 What section 4.4.5 of the WebAssembly Core Specification 1.0 asks of a branch beyond going to its label: only the
 label's results stay on the operand stack. `branch` in kernel/src/wasm.rs leaves the whole stack. The evaluator here
 unwinds; it and the interpreter agree on code whose branches have nothing to unwind.
 */
module WasmUnwinding {
  import opened Common
  import opened WasmInstr
  import opened WasmMachine
  import opened WasmStructured
  import opened WasmCorrect

  /** How many results a block type stands for: 0x40 is the empty one. */
  function Arity(bt: byte): nat { if bt == 0x40 then 0 else 1 }

  /** A branch to a label that was entered with `height` operands keeps those and the top `arity`. */
  function Unwind(r: Exit, height: nat, arity: nat): (out: Exit)
    ensures out.Fell? ==> out == r
    ensures out.Broke? ==> r.Broke? && r.depth == out.depth && r.fuel == out.fuel
  {
    if r.Broke? && r.depth == 0 then
      var n := |r.s.stack|;
      if n < height + arity then Fault(StackUnderflow)
      else Broke(0, r.s.(stack := r.s.stack[..height] + r.s.stack[n - arity..]), r.fuel)
    else r
  }

  /** `Eval`, but for the unwinding at each label. */
  function EvalU(c: Code, s: Store, fuel: nat): (r: Exit)
    requires WellFormed(c)
    ensures r.Fell? ==> r.fuel <= fuel
    ensures r.Broke? ==> r.fuel < fuel
    decreases fuel, c, 0
  {
    if c.Nil? then Fell(s, fuel)
    else if fuel == 0 then Starved
    else
      var n := |s.stack|;
      match c
      case Simple(i, _, rest) =>
        if i.Br? then Broke(i.depth, s, fuel - 1)
        else if i.BrIf? then
          if n < 1 then Fault(StackUnderflow)
          else if s.stack[n - 1] != 0 then Broke(i.depth, Popped(s), fuel - 1)
          else EvalU(rest, Popped(s), fuel - 1)
        else if i.Return? then Left(s.stack)
        else
          var after := Exec(i, s);
          if after.Err? then Fault(after.error) else EvalU(rest, after.value, fuel - 1)
      case BlockC(bt, body, rest) => AndThenU(Close(Unwind(EvalU(body, s, fuel - 1), n, Arity(bt))), rest, fuel - 1)
      case LoopC(_, body, rest) => AndThenU(Close(IterateU(body, s, n, fuel - 1)), rest, fuel - 1)
      case IfC(bt, body, rest) =>
        if n < 1 then Fault(StackUnderflow)
        else if s.stack[n - 1] != 0 then
          AndThenU(Close(Unwind(EvalU(body, Popped(s), fuel - 1), n - 1, Arity(bt))), rest, fuel - 1)
        else EvalU(rest, Popped(s), fuel - 1)
      case IfElseC(bt, thn, els, rest) =>
        if n < 1 then Fault(StackUnderflow)
        else
          var arm := if s.stack[n - 1] != 0 then thn else els;
          AndThenU(Close(Unwind(EvalU(arm, Popped(s), fuel - 1), n - 1, Arity(bt))), rest, fuel - 1)
  }

  function AndThenU(r: Exit, rest: Code, bound: nat): (out: Exit)
    requires WellFormed(rest)
    requires r.Fell? ==> r.fuel <= bound
    requires r.Broke? ==> r.fuel < bound
    ensures out.Fell? ==> out.fuel <= bound
    ensures out.Broke? ==> out.fuel < bound
    decreases bound, rest, 1
  {
    if r.Fell? then EvalU(rest, r.s, r.fuel) else r
  }

  /** A branch to a loop takes no results along. */
  function IterateU(body: Code, s: Store, height: nat, fuel: nat): (r: Exit)
    requires WellFormed(body)
    ensures r.Fell? ==> r.fuel <= fuel
    ensures r.Broke? ==> r.fuel < fuel && r.depth > 0
    decreases fuel, body, 1
  {
    match Unwind(EvalU(body, s, fuel), height, 0)
    case Broke(depth, s1, fuel1) => if depth == 0 then IterateU(body, s1, height, fuel1) else Broke(depth, s1, fuel1)
    case r => r
  }

  function EvalFunctionU(c: Code, args: seq<i32>, declared: nat, fuel: nat): Outcome
    requires WellFormed(c)
  {
    match EvalU(c, Store([], Locals(args, declared)), fuel)
    case Fell(s, fuel1) => if fuel1 == 0 then OutOfFuel else Finish(s.stack)
    case Broke(depth, s, _) => if depth == 0 then Finish(s.stack) else Trapped(BranchTooDeep)
    case Left(stack) => Finish(stack)
    case Fault(e) => Trapped(e)
    case Starved => OutOfFuel
  }

  // ---- runs with nothing to unwind ----

  /** A branch that has arrived at its label finds exactly the operands the label keeps. */
  predicate ArrivesLevel(r: Exit, height: nat, arity: nat) {
    r.Broke? && r.depth == 0 ==> |r.s.stack| == height + arity
  }

  /** That is exactly when there is nothing to unwind. */
  lemma NothingToUnwind(r: Exit, height: nat, arity: nat)
    ensures Unwind(r, height, arity) == r <==> ArrivesLevel(r, height, arity)
  {
    if r.Broke? && r.depth == 0 && |r.s.stack| == height + arity {
      assert r.s.stack[..height] + r.s.stack[|r.s.stack| - arity..] == r.s.stack;
    }
  }

  /** Every branch the run takes is level. */
  predicate LevelRun(c: Code, s: Store, fuel: nat)
    requires WellFormed(c)
    decreases fuel, c, 0
  {
    if c.Nil? || fuel == 0 then true
    else
      var n := |s.stack|;
      match c
      case Simple(i, _, rest) =>
        if i.Br? || i.Return? then true
        else if i.BrIf? then n > 0 && s.stack[n - 1] == 0 ==> LevelRun(rest, Popped(s), fuel - 1)
        else Exec(i, s).Ok? ==> LevelRun(rest, Exec(i, s).value, fuel - 1)
      case BlockC(bt, body, rest) => LevelBody(body, s, n, Arity(bt), rest, fuel - 1)
      case LoopC(_, body, rest) =>
        LevelLoop(body, s, n, fuel - 1) && LevelRest(Close(Iterate(body, s, fuel - 1)), rest, fuel - 1)
      case IfC(bt, body, rest) =>
        n > 0 ==>
          if s.stack[n - 1] != 0 then LevelBody(body, Popped(s), n - 1, Arity(bt), rest, fuel - 1)
          else LevelRun(rest, Popped(s), fuel - 1)
      case IfElseC(bt, thn, els, rest) =>
        n > 0 ==>
          LevelBody(if s.stack[n - 1] != 0 then thn else els, Popped(s), n - 1, Arity(bt), rest, fuel - 1)
  }

  predicate LevelBody(body: Code, s: Store, height: nat, arity: nat, rest: Code, fuel: nat)
    requires WellFormed(body) && WellFormed(rest)
    decreases fuel + 1, rest, 0
  {
    var r := Eval(body, s, fuel);
    LevelRun(body, s, fuel) && ArrivesLevel(r, height, arity) && LevelRest(Close(r), rest, fuel)
  }

  predicate LevelRest(r: Exit, rest: Code, bound: nat)
    requires WellFormed(rest) && (r.Fell? ==> r.fuel <= bound)
    decreases bound, rest, 1
  {
    r.Fell? ==> LevelRun(rest, r.s, r.fuel)
  }

  predicate LevelLoop(body: Code, s: Store, height: nat, fuel: nat)
    requires WellFormed(body)
    decreases fuel, body, 1
  {
    var r := Eval(body, s, fuel);
    && LevelRun(body, s, fuel) && ArrivesLevel(r, height, 0)
    && (r.Broke? && r.depth == 0 ==> LevelLoop(body, r.s, height, r.fuel))
  }

  /** On such a run both evaluators do the same. */
  lemma {:induction false} Agree(c: Code, s: Store, fuel: nat)
    requires WellFormed(c) && LevelRun(c, s, fuel)
    ensures EvalU(c, s, fuel) == Eval(c, s, fuel)
    decreases fuel, c, 0
  {
    if !c.Nil? && fuel > 0 {
      hide Unwind, Close, Eval, EvalU, AndThen, AndThenU, Iterate, IterateU, Exec, ArrivesLevel;
      var n := |s.stack|;
      EvalUOnce(c, s, fuel);
      match c
      case Simple(i, _, rest) =>
        EvalSimple(c, s, fuel);
        if i.BrIf? && n > 0 && s.stack[n - 1] == 0 {
          Agree(rest, Popped(s), fuel - 1);
        } else if !i.Br? && !i.BrIf? && !i.Return? && Exec(i, s).Ok? {
          Agree(rest, Exec(i, s).value, fuel - 1);
        }
      case BlockC(bt, body, rest) =>
        EvalOneBody(c, s, fuel);
        AgreeBody(body, s, n, Arity(bt), rest, fuel - 1);
      case LoopC(_, body, rest) =>
        EvalOneBody(c, s, fuel);
        AgreeLoop(body, s, n, fuel - 1);
        AgreeRest(Close(Iterate(body, s, fuel - 1)), rest, fuel - 1);
      case IfC(bt, body, rest) =>
        EvalOneBody(c, s, fuel);
        if n > 0 && s.stack[n - 1] != 0 {
          AgreeBody(body, Popped(s), n - 1, Arity(bt), rest, fuel - 1);
        } else if n > 0 {
          Agree(rest, Popped(s), fuel - 1);
        }
      case IfElseC(bt, thn, els, rest) =>
        EvalIfElse(c, s, fuel);
        if n > 0 {
          AgreeBody(if s.stack[n - 1] != 0 then thn else els, Popped(s), n - 1, Arity(bt), rest, fuel - 1);
        }
    }
  }

  /** What a construct does under `EvalU`. */
  lemma EvalUOnce(c: Code, s: Store, fuel: nat)
    requires WellFormed(c) && !c.Nil? && fuel > 0
    ensures var n := |s.stack|;
            EvalU(c, s, fuel) ==
            match c
            case Simple(i, _, rest) =>
              if i.Br? then Broke(i.depth, s, fuel - 1)
              else if i.BrIf? then
                if n == 0 then Fault(StackUnderflow)
                else if s.stack[n - 1] != 0 then Broke(i.depth, Popped(s), fuel - 1)
                else EvalU(rest, Popped(s), fuel - 1)
              else if i.Return? then Left(s.stack)
              else if Exec(i, s).Err? then Fault(Exec(i, s).error) else EvalU(rest, Exec(i, s).value, fuel - 1)
            case BlockC(bt, body, rest) => BodyU(body, s, n, Arity(bt), rest, fuel - 1)
            case LoopC(_, body, rest) => AndThenU(Close(IterateU(body, s, n, fuel - 1)), rest, fuel - 1)
            case IfC(bt, body, rest) =>
              if n == 0 then Fault(StackUnderflow)
              else if s.stack[n - 1] != 0 then BodyU(body, Popped(s), n - 1, Arity(bt), rest, fuel - 1)
              else EvalU(rest, Popped(s), fuel - 1)
            case IfElseC(bt, thn, els, rest) =>
              if n == 0 then Fault(StackUnderflow)
              else BodyU(if s.stack[n - 1] != 0 then thn else els, Popped(s), n - 1, Arity(bt), rest, fuel - 1)
  {
    hide Unwind, Close, AndThenU, IterateU, Exec;
  }

  function BodyU(body: Code, s: Store, height: nat, arity: nat, rest: Code, fuel: nat): Exit
    requires WellFormed(body) && WellFormed(rest)
  {
    AndThenU(Close(Unwind(EvalU(body, s, fuel), height, arity)), rest, fuel)
  }

  lemma {:induction false} AgreeBody(body: Code, s: Store, height: nat, arity: nat, rest: Code, fuel: nat)
    requires WellFormed(body) && WellFormed(rest) && LevelBody(body, s, height, arity, rest, fuel)
    ensures BodyU(body, s, height, arity, rest, fuel) == AndThen(Close(Eval(body, s, fuel)), rest, fuel)
    decreases fuel + 1, rest, 0
  {
    hide Unwind, Close, Eval, EvalU, AndThen, AndThenU, ArrivesLevel, LevelRun;
    Agree(body, s, fuel);
    NothingToUnwind(Eval(body, s, fuel), height, arity);
    AgreeRest(Close(Eval(body, s, fuel)), rest, fuel);
  }

  lemma {:induction false} AgreeRest(r: Exit, rest: Code, bound: nat)
    requires WellFormed(rest) && (r.Fell? ==> r.fuel <= bound) && (r.Broke? ==> r.fuel < bound)
    requires LevelRest(r, rest, bound)
    ensures AndThenU(r, rest, bound) == AndThen(r, rest, bound)
    decreases bound, rest, 1
  {
    hide LevelRun, Eval, EvalU;
    if r.Fell? {
      Agree(rest, r.s, r.fuel);
    }
  }

  lemma {:induction false} AgreeLoop(body: Code, s: Store, height: nat, fuel: nat)
    requires WellFormed(body) && LevelLoop(body, s, height, fuel)
    ensures IterateU(body, s, height, fuel) == Iterate(body, s, fuel)
    decreases fuel, body, 1
  {
    hide Unwind, Eval, EvalU, ArrivesLevel, LevelRun;
    Agree(body, s, fuel);
    var r := Eval(body, s, fuel);
    NothingToUnwind(r, height, 0);
    if r.Broke? && r.depth == 0 {
      AgreeLoop(body, r.s, height, r.fuel);
    }
  }

  /** A call whose branches are level as far as it runs does what unwinding asks. */
  lemma MachineUnwinds(c: Code, args: seq<i32>, declared: nat, fuel: nat)
    requires WellFormed(c) && LevelRun(c, Store([], Locals(args, declared)), fuel)
    ensures RunCode(Body(c), args, declared, fuel) == EvalFunctionU(c, args, declared, fuel)
  {
    hide RunCode, Eval, EvalU, LevelRun;
    MachineIsStructured(c, args, declared, fuel);
    Agree(c, Store([], Locals(args, declared)), fuel);
  }

  // ---- code with nothing to unwind ----

  /** The operands below a label, and the results a branch to it takes along. */
  datatype Label = Label(height: nat, arity: nat)

  /** Where a sequence gets to: its end with so many operands, never, or it is refused. */
  datatype Flow = At(height: nat) | Never | Bad

  /** Operands an ordinary instruction takes and leaves. */
  function Takes(i: Instr): nat {
    match i
    case Drop => 1
    case LocalSet(_) => 1
    case LocalTee(_) => 1
    case I32Eqz => 1
    case Binary(_) => 2
    case _ => 0
  }

  function Leaves(i: Instr): nat {
    match i
    case LocalGet(_) => 1
    case LocalTee(_) => 1
    case I32Const(_) => 1
    case I32Eqz => 1
    case Binary(_) => 1
    case _ => 0
  }

  /** The operands that belong to the enclosing blocks. */
  function Floor(labels: seq<Label>): nat { if labels == [] then 0 else labels[|labels| - 1].height }

  /** A branch finds exactly the operands its label keeps. */
  predicate Level(depth: nat, h: nat, labels: seq<Label>) {
    depth <= |labels|
    && (depth < |labels| ==> var l := labels[|labels| - 1 - depth]; h == l.height + l.arity)
  }

  /** A body ends with its results on top of what was there, or not at all. */
  predicate Ends(f: Flow, h: nat) { f == Never || f == At(h) }

  /** Counts operands as the validation of section 3.3 does, and demands that every branch be level. */
  function Check(c: Code, h: nat, labels: seq<Label>): Flow
    decreases c
  {
    match c
    case Nil => At(h)
    case Simple(i, _, rest) =>
      if i.Br? then if Level(i.depth, h, labels) then Never else Bad
      else if i.BrIf? then
        if h >= Floor(labels) + 1 && Level(i.depth, h - 1, labels) then Check(rest, h - 1, labels) else Bad
      else if i.Return? || i.UnreachableI? then Never
      else if h >= Floor(labels) + Takes(i) then Check(rest, h - Takes(i) + Leaves(i), labels)
      else Bad
    case BlockC(bt, body, rest) =>
      if Ends(Check(body, h, labels + [Label(h, Arity(bt))]), h + Arity(bt))
      then Check(rest, h + Arity(bt), labels) else Bad
    case LoopC(bt, body, rest) =>
      if Ends(Check(body, h, labels + [Label(h, 0)]), h + Arity(bt)) then Check(rest, h + Arity(bt), labels) else Bad
    case IfC(bt, body, rest) =>
      if h >= Floor(labels) + 1 && Arity(bt) == 0 && Ends(Check(body, h - 1, labels + [Label(h - 1, 0)]), h - 1)
      then Check(rest, h - 1, labels) else Bad
    case IfElseC(bt, thn, els, rest) =>
      if h >= Floor(labels) + 1
         && Ends(Check(thn, h - 1, labels + [Label(h - 1, Arity(bt))]), h - 1 + Arity(bt))
         && Ends(Check(els, h - 1, labels + [Label(h - 1, Arity(bt))]), h - 1 + Arity(bt))
      then Check(rest, h - 1 + Arity(bt), labels) else Bad
  }

  /** An exit as `Check` foresees it. */
  predicate Suits(r: Exit, f: Flow, labels: seq<Label>) {
    && (r.Fell? ==> f == At(|r.s.stack|))
    && (r.Broke? ==> Level(r.depth, |r.s.stack|, labels))
  }

  /** The body of a block. */
  lemma CloseLevel(r: Exit, f: Flow, labels: seq<Label>, h: nat, arity: nat)
    requires Suits(r, f, labels + [Label(h, arity)]) && Ends(f, h + arity)
    ensures ArrivesLevel(r, h, arity) && Suits(Close(r), At(h + arity), labels)
  {
  }

  lemma ExecHeight(i: Instr, s: Store)
    requires !Structured(i) && !i.Br? && !i.BrIf? && !i.Return? && Exec(i, s).Ok?
    ensures !i.UnreachableI? && |s.stack| >= Takes(i)
    ensures |Exec(i, s).value.stack| == |s.stack| - Takes(i) + Leaves(i)
  {
    hide Apply;
  }

  /** Checked code only ever takes level branches. */
  lemma {:induction false} CheckedIsLevel(c: Code, s: Store, fuel: nat, labels: seq<Label>)
    requires WellFormed(c) && Check(c, |s.stack|, labels) != Bad
    ensures LevelRun(c, s, fuel) && Suits(Eval(c, s, fuel), Check(c, |s.stack|, labels), labels)
    decreases fuel, c, 1
  {
    if !c.Nil? && fuel > 0 {
      match c
      case Simple(_, _, _) => CheckedSimple(c, s, fuel, labels);
      case BlockC(_, _, _) => CheckedBlock(c, s, fuel, labels);
      case LoopC(_, _, _) => CheckedLoop(c, s, fuel, labels);
      case IfC(_, _, _) => CheckedIf(c, s, fuel, labels);
      case IfElseC(_, _, _, _) => CheckedIfElse(c, s, fuel, labels);
    }
  }

  lemma {:induction false} CheckedSimple(c: Code, s: Store, fuel: nat, labels: seq<Label>)
    requires WellFormed(c) && c.Simple? && fuel > 0 && Check(c, |s.stack|, labels) != Bad
    ensures LevelRun(c, s, fuel) && Suits(Eval(c, s, fuel), Check(c, |s.stack|, labels), labels)
    decreases fuel, c, 0
  {
    hide Exec, Takes, Leaves, Level;
    EvalSimple(c, s, fuel);
    var Simple(i, _, rest) := c;
    if i.BrIf? && s.stack[|s.stack| - 1] == 0 {
      CheckedIsLevel(rest, Popped(s), fuel - 1, labels);
    } else if !i.Br? && !i.BrIf? && !i.Return? && Exec(i, s).Ok? {
      ExecHeight(i, s);
      CheckedIsLevel(rest, Exec(i, s).value, fuel - 1, labels);
    }
  }

  lemma {:induction false} CheckedRest(r: Exit, rest: Code, bound: nat, h: nat, labels: seq<Label>)
    requires WellFormed(rest) && Suits(r, At(h), labels) && Check(rest, h, labels) != Bad
    requires r.Fell? ==> r.fuel <= bound
    requires r.Broke? ==> r.fuel < bound
    ensures LevelRest(r, rest, bound) && Suits(AndThen(r, rest, bound), Check(rest, h, labels), labels)
    decreases bound, rest, 2
  {
    hide LevelRun;
    if r.Fell? {
      CheckedIsLevel(rest, r.s, r.fuel, labels);
    }
  }

  /** The body of a block or of an arm, and the rest. */
  lemma {:induction false} CheckedBody(body: Code, s: Store, arity: nat, rest: Code, fuel: nat, labels: seq<Label>)
    requires WellFormed(body) && WellFormed(rest)
    requires var h := |s.stack|;
             Ends(Check(body, h, labels + [Label(h, arity)]), h + arity) && Check(rest, h + arity, labels) != Bad
    ensures LevelBody(body, s, |s.stack|, arity, rest, fuel)
    ensures Suits(AndThen(Close(Eval(body, s, fuel)), rest, fuel), Check(rest, |s.stack| + arity, labels), labels)
    decreases fuel + 1, rest, 0
  {
    hide Suits, Unwind, Close, Eval, AndThen, LevelRun, LevelRest, Check, ArrivesLevel;
    var h, inner := |s.stack|, labels + [Label(|s.stack|, arity)];
    CheckedIsLevel(body, s, fuel, inner);
    CloseLevel(Eval(body, s, fuel), Check(body, h, inner), labels, h, arity);
    CheckedRest(Close(Eval(body, s, fuel)), rest, fuel, h + arity, labels);
  }

  lemma {:induction false} CheckedBlock(c: Code, s: Store, fuel: nat, labels: seq<Label>)
    requires WellFormed(c) && c.BlockC? && fuel > 0 && Check(c, |s.stack|, labels) != Bad
    ensures LevelRun(c, s, fuel) && Suits(Eval(c, s, fuel), Check(c, |s.stack|, labels), labels)
    decreases fuel, c, 0
  {
    hide Suits, Close, Ends, Eval, AndThen, LevelBody;
    EvalOneBody(c, s, fuel);
    CheckedBody(c.body, s, Arity(c.bt), c.rest, fuel - 1, labels);
  }

  lemma {:induction false} CheckedLoop(c: Code, s: Store, fuel: nat, labels: seq<Label>)
    requires WellFormed(c) && c.LoopC? && fuel > 0 && Check(c, |s.stack|, labels) != Bad
    ensures LevelRun(c, s, fuel) && Suits(Eval(c, s, fuel), Check(c, |s.stack|, labels), labels)
    decreases fuel, c, 0
  {
    hide Suits, Close, Ends, Eval, AndThen, Iterate, LevelLoop, LevelRest;
    EvalOneBody(c, s, fuel);
    var h := |s.stack| + Arity(c.bt);
    CheckedIterations(c.body, s, fuel - 1, labels, h);
    OutOfLoop(Iterate(c.body, s, fuel - 1), labels, h);
    CheckedRest(Close(Iterate(c.body, s, fuel - 1)), c.rest, fuel - 1, h, labels);
  }

  /** A loop is left by reaching its end or by a branch farther out. */
  lemma OutOfLoop(r: Exit, labels: seq<Label>, h: nat)
    requires (r.Fell? ==> |r.s.stack| == h) && (r.Broke? ==> r.depth > 0 && Level(r.depth - 1, |r.s.stack|, labels))
    ensures Suits(Close(r), At(h), labels)
  {
  }

  lemma {:induction false} CheckedIterations(body: Code, s: Store, fuel: nat, labels: seq<Label>, after: nat)
    requires WellFormed(body) && Ends(Check(body, |s.stack|, labels + [Label(|s.stack|, 0)]), after)
    ensures LevelLoop(body, s, |s.stack|, fuel)
    ensures var r := Iterate(body, s, fuel);
            (r.Fell? ==> |r.s.stack| == after) && (r.Broke? ==> r.depth > 0 && Level(r.depth - 1, |r.s.stack|, labels))
    decreases fuel, body, 2
  {
    hide Eval, Check, LevelRun;
    CheckedIsLevel(body, s, fuel, labels + [Label(|s.stack|, 0)]);
    var r := Eval(body, s, fuel);
    if r.Broke? && r.depth == 0 {
      CheckedIterations(body, r.s, r.fuel, labels, after);
    }
  }

  lemma {:induction false} CheckedIf(c: Code, s: Store, fuel: nat, labels: seq<Label>)
    requires WellFormed(c) && c.IfC? && fuel > 0 && Check(c, |s.stack|, labels) != Bad
    ensures LevelRun(c, s, fuel) && Suits(Eval(c, s, fuel), Check(c, |s.stack|, labels), labels)
    decreases fuel, c, 0
  {
    hide Suits, Close, Ends, Eval, AndThen, LevelBody;
    EvalOneBody(c, s, fuel);
    if s.stack[|s.stack| - 1] != 0 {
      CheckedBody(c.body, Popped(s), 0, c.rest, fuel - 1, labels);
    } else {
      CheckedIsLevel(c.rest, Popped(s), fuel - 1, labels);
    }
  }

  lemma {:induction false} CheckedIfElse(c: Code, s: Store, fuel: nat, labels: seq<Label>)
    requires WellFormed(c) && c.IfElseC? && fuel > 0 && Check(c, |s.stack|, labels) != Bad
    ensures LevelRun(c, s, fuel) && Suits(Eval(c, s, fuel), Check(c, |s.stack|, labels), labels)
    decreases fuel, c, 0
  {
    hide Suits, Close, Ends, Eval, AndThen, LevelBody;
    EvalIfElse(c, s, fuel);
    var arm := if s.stack[|s.stack| - 1] != 0 then c.thn else c.els;
    CheckedBody(arm, Popped(s), Arity(c.bt), c.rest, fuel - 1, labels);
  }

  /** On checked functions the interpreter does exactly what the unwinding evaluator does, whatever the arguments. */
  lemma CheckedUnwinds(c: Code, args: seq<i32>, declared: nat, fuel: nat)
    requires WellFormed(c) && Check(c, 0, []) != Bad
    ensures RunCode(Body(c), args, declared, fuel) == EvalFunctionU(c, args, declared, fuel)
  {
    hide Check, RunCode, Eval, EvalU, Suits, LevelRun, EvalFunctionU;
    CheckedIsLevel(c, Store([], Locals(args, declared)), fuel, []);
    MachineUnwinds(c, args, declared, fuel);
  }

  /** `i32.const 5; block; i32.const 7; br 0; end` */
  function Surplus(): Code {
    Simple(I32Const(5), 1, BlockC(0x40, Simple(I32Const(7), 1, Simple(Br(0), 1, Nil)), Nil))
  }

  /** A branch with an operand to spare: unwinding it away returns 5, the interpreter returns 7. */
  lemma SurplusIsKept()
    ensures WellFormed(Surplus()) && Check(Surplus(), 0, []) == Bad
    ensures EvalFunctionU(Surplus(), [], 0, 5) == Returned(5) && RunCode(Body(Surplus()), [], 0, 5) == Returned(7)
  {
    SurplusFormed();
    MachineIsStructured(Surplus(), [], 0, 5);
    SurplusEvaluated();
    hide RunCode, Eval, EvalU;
  }

  lemma SurplusFormed()
    ensures WellFormed(Surplus()) && Check(Surplus(), 0, []) == Bad
  {
    assert Pow2(7) == 128;
  }

  lemma SurplusEvaluated()
    requires WellFormed(Surplus())
    ensures EvalFunctionU(Surplus(), [], 0, 5) == Returned(5) && EvalFunction(Surplus(), [], 0, 5) == Returned(7)
  {
    var s := Store([], Locals([], 0));
    var body := Simple(I32Const(7), 1, Simple(Br(0), 1, Nil));
    var block := BlockC(0x40, body, Nil);
    assert WellFormed(block) && WellFormed(body);
    assert [] + [5 as i32] == [5] && [5 as i32] + [7] == [5, 7];
    assert Exec(I32Const(5), s) == Ok(s.(stack := [5]))
      && Exec(I32Const(7), s.(stack := [5])) == Ok(s.(stack := [5, 7]));
    assert Eval(body, s.(stack := [5]), 3) == Broke(0, s.(stack := [5, 7]), 1);
    assert EvalU(body, s.(stack := [5]), 3) == Broke(0, s.(stack := [5, 7]), 1);
    assert Eval(block, s.(stack := [5]), 4) == Fell(s.(stack := [5, 7]), 1);
    assert [5, 7][..1] + [5, 7][2..] == [5];
    assert EvalU(block, s.(stack := [5]), 4) == Fell(s.(stack := [5]), 1);
  }
}
