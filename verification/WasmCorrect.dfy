/** The flat machine with its control map computes what the structured evaluator does, for every structured program. */
module WasmCorrect {
  import opened Common
  import opened WasmInstr
  import opened WasmMachine
  import opened WasmStructured

  predicate At(code: Bytes, base: nat, bs: Bytes) { base + |bs| <= |code| && code[base..base + |bs|] == bs }

  lemma Split(code: Bytes, base: nat, a: Bytes, b: Bytes)
    requires At(code, base, a + b)
    ensures At(code, base, a) && At(code, base + |a|, b)
  {
    var whole := code[base..base + |a + b|];
    assert code[base..base + |a|] == whole[..|a|];
    assert code[base + |a|..base + |a| + |b|] == whole[|a|..];
  }

  lemma OpcodeAt(code: Bytes, pc: nat, op: byte, rest: Bytes)
    requires At(code, pc, [op] + rest)
    ensures pc < |code| && code[pc] == op && At(code, pc + 1, rest)
  {
    Split(code, pc, [op], rest);
    assert code[pc..pc + 1][0] == op;
  }

  /** The parts of `opener bt body close rest` found at `base`. */
  lemma Layout(code: Bytes, base: nat, op: byte, bt: byte, body: Bytes, close: byte, rest: Bytes)
    requires At(code, base, Enclose(op, bt, body, close, rest))
    ensures base < |code| && code[base] == op && At(code, base + 2, body)
    ensures var c := base + 2 + |body|; c < |code| && code[c] == close && At(code, c + 1, rest)
  {
    Split(code, base, [op, bt], body + ([close] + rest));
    assert code[base..base + 2][0] == op;
    Split(code, base + 2, body, [close] + rest);
    OpcodeAt(code, base + 2 + |body|, close, rest);
  }

  predicate OneBody(c: Code) { c.BlockC? || c.LoopC? || c.IfC? }

  // The definitions of `Flatten` and `ControlOf` at each kind of construct, so that proofs can keep them folded.

  lemma OneBodyShape(c: Code, base: nat)
    requires WellFormed(c) && OneBody(c)
    ensures WellFormed(c.body) && WellFormed(c.rest)
    ensures Flatten(c) == Enclose(OpcodeOf(c), c.bt, Flatten(c.body), 0x0B, Flatten(c.rest))
    ensures var end := base + 2 + |Flatten(c.body)|;
            ControlOf(c, base) == ControlOf(c.body, base + 2)[base := ControlInfo(end, None)]
              + ControlOf(c.rest, end + 1)
  {
    OneBodyBytes(c);
    OneBodyControl(c, base);
    hide Enclose, Flatten, ControlOf;
  }

  lemma OneBodyBytes(c: Code)
    requires WellFormed(c) && OneBody(c)
    ensures WellFormed(c.body) && WellFormed(c.rest)
    ensures Flatten(c) == Enclose(OpcodeOf(c), c.bt, Flatten(c.body), 0x0B, Flatten(c.rest))
  {
    hide Enclose;
  }

  lemma OneBodyControl(c: Code, base: nat)
    requires WellFormed(c) && OneBody(c)
    ensures var end := base + 2 + |Flatten(c.body)|;
            ControlOf(c, base) == ControlOf(c.body, base + 2)[base := ControlInfo(end, None)]
              + ControlOf(c.rest, end + 1)
  {
    hide Flatten;
  }

  lemma IfElseShape(c: Code, base: nat)
    requires WellFormed(c) && c.IfElseC?
    ensures WellFormed(c.thn) && WellFormed(c.els) && WellFormed(c.rest)
    ensures Flatten(c) == Enclose(0x04, c.bt, Flatten(c.thn), 0x05, Flatten(c.els) + ([0x0B] + Flatten(c.rest)))
    ensures |Flatten(c)| == 4 + |Flatten(c.thn)| + |Flatten(c.els)| + |Flatten(c.rest)|
    ensures var mid := base + 2 + |Flatten(c.thn)|; var end := mid + 1 + |Flatten(c.els)|;
            ControlOf(c, base) ==
              IfElseEntries(ControlOf(c.thn, base + 2), ControlOf(c.els, mid + 1), base, mid, end)
                + ControlOf(c.rest, end + 1)
  {
    IfElseBytes(c);
    IfElseControl(c, base);
    hide Enclose, IfElseEntries, Flatten, ControlOf;
  }

  lemma IfElseBytes(c: Code)
    requires WellFormed(c) && c.IfElseC?
    ensures WellFormed(c.thn) && WellFormed(c.els) && WellFormed(c.rest)
    ensures Flatten(c) == Enclose(0x04, c.bt, Flatten(c.thn), 0x05, Flatten(c.els) + ([0x0B] + Flatten(c.rest)))
  {
    hide Enclose;
  }

  lemma IfElseControl(c: Code, base: nat)
    requires WellFormed(c) && c.IfElseC?
    ensures var mid := base + 2 + |Flatten(c.thn)|; var end := mid + 1 + |Flatten(c.els)|;
            ControlOf(c, base) ==
              IfElseEntries(ControlOf(c.thn, base + 2), ControlOf(c.els, mid + 1), base, mid, end)
                + ControlOf(c.rest, end + 1)
  {
    hide Flatten, IfElseEntries;
  }

  lemma LayoutIfElse(code: Bytes, c: Code, base: nat)
    requires WellFormed(c) && c.IfElseC? && At(code, base, Flatten(c))
    ensures var mid := base + 2 + |Flatten(c.thn)|; var end := mid + 1 + |Flatten(c.els)|;
            && end < |code| && code[base] == 0x04 && code[mid] == 0x05 && code[end] == 0x0B
            && At(code, base + 2, Flatten(c.thn)) && At(code, mid + 1, Flatten(c.els))
              && At(code, end + 1, Flatten(c.rest))
  {
    hide At, Flatten, ControlOf, Enclose;
    IfElseShape(c, base);
    var tail := [0x0B] + Flatten(c.rest);
    Layout(code, base, 0x04, c.bt, Flatten(c.thn), 0x05, Flatten(c.els) + tail);
    var mid := base + 2 + |Flatten(c.thn)|;
    Split(code, mid + 1, Flatten(c.els), tail);
    OpcodeAt(code, mid + 1 + |Flatten(c.els)|, 0x0B, Flatten(c.rest));
  }

  // ---- the control map ----

  predicate Below(m: ControlMap, bound: nat) { forall k :: k in m ==> k < bound }

  predicate Within(m: ControlMap, low: nat, high: nat) { forall k :: k in m ==> low <= k < high }

  lemma {:induction false} ControlRange(c: Code, base: nat)
    requires WellFormed(c)
    ensures Within(ControlOf(c, base), base, base + |Flatten(c)|)
    decreases c
  {
    hide Flatten, ControlOf, WellFormed, Enclose, IfElseEntries, Within, Encode;
    if c.Nil? {
      NilRange(base);
    } else if c.Simple? {
      SimpleShape(c, base);
      ControlRange(c.rest, base + |Encode(c.i, c.width)|);
      Widen(map[], ControlOf(c.rest, base + |Encode(c.i, c.width)|), base, base + |Encode(c.i, c.width)|,
        base + |Flatten(c)|);
    } else if c.IfElseC? {
      IfElseShape(c, base);
      var mid := base + 2 + |Flatten(c.thn)|;
      var end := mid + 1 + |Flatten(c.els)|;
      ControlRange(c.thn, base + 2);
      ControlRange(c.els, mid + 1);
      ControlRange(c.rest, end + 1);
      EntriesRange(ControlOf(c.thn, base + 2), ControlOf(c.els, mid + 1), base, mid, end);
      Widen(IfElseEntries(ControlOf(c.thn, base + 2), ControlOf(c.els, mid + 1), base, mid, end),
        ControlOf(c.rest, end + 1), base, end + 1, base + |Flatten(c)|);
    } else {
      OneBodyShape(c, base);
      var end := base + 2 + |Flatten(c.body)|;
      ControlRange(c.body, base + 2);
      ControlRange(c.rest, end + 1);
      EntryRange(ControlOf(c.body, base + 2), ControlInfo(end, None), base, end);
      Widen(ControlOf(c.body, base + 2)[base := ControlInfo(end, None)], ControlOf(c.rest, end + 1), base, end + 1,
        base + |Flatten(c)|);
    }
  }

  lemma NilRange(base: nat)
    ensures Within(ControlOf(Nil, base), base, base + |Flatten(Nil)|)
  {
  }

  lemma Widen(a: ControlMap, b: ControlMap, low: nat, mid: nat, high: nat)
    requires Within(a, low, mid) && Within(b, mid, high) && low <= mid <= high
    ensures Within(a + b, low, high) && Within(b, low, high)
  {
  }

  lemma EntryRange(inner: ControlMap, info: ControlInfo, base: nat, end: nat)
    requires Within(inner, base + 2, end) && base < end
    ensures Within(inner[base := info], base, end + 1)
  {
  }

  lemma EntriesRange(a: ControlMap, b: ControlMap, base: nat, mid: nat, end: nat)
    requires Within(a, base + 2, mid) && Within(b, mid + 1, end) && base + 2 <= mid < end
    ensures Within(IfElseEntries(a, b, base, mid, end), base, end + 1)
  {
  }

  lemma SimpleShape(c: Code, base: nat)
    requires WellFormed(c) && c.Simple?
    ensures Plain(c.i, c.width) && WellFormed(c.rest)
    ensures Flatten(c) == Encode(c.i, c.width) + Flatten(c.rest)
    ensures ControlOf(c, base) == ControlOf(c.rest, base + |Encode(c.i, c.width)|)
  {
    hide Encode, Plain;
  }

  /** One step of the scan at an opener, at an `else` and at an `end`. */
  lemma ScanSteps(code: Bytes, pc: nat, open: seq<nat>, m: ControlMap)
    requires pc < |code|
    ensures code[pc] in {0x02, 0x03, 0x04} ==> Scan(code, pc, open, m) == Scan(code, pc + 2, open + [pc], m)
    ensures code[pc] == 0x05 && open != [] ==>
              Scan(code, pc, open, m) == Scan(code, pc + 1, open, SetElse(m, open[|open| - 1], pc))
    ensures code[pc] == 0x0B && open != [] ==>
              Scan(code, pc, open, m) == Scan(code, pc + 1, open[..|open| - 1], CloseOpener(m, open[|open| - 1], pc))
    ensures code[pc] == 0x0B && open == [] ==> Scan(code, pc, open, m) == Scan(code, pc + 1, open, m)
  {
    if code[pc] in {0x02, 0x03, 0x04} {
      assert Decode(code, pc).Ok? && Decode(code, pc).value.1 == pc + 2;
    } else if code[pc] == 0x05 {
      assert Decode(code, pc) == Ok((Else, pc + 1));
    } else if code[pc] == 0x0B {
      assert Decode(code, pc) == Ok((End, pc + 1));
    }
  }

  /** The scan passes over the bytes of `c` and adds exactly its entries, leaving the open constructs as they were. */
  lemma {:induction false} ScanCode(code: Bytes, c: Code, base: nat, open: seq<nat>, m: ControlMap)
    requires WellFormed(c) && At(code, base, Flatten(c)) && Below(m, base)
    ensures Scan(code, base, open, m) == Scan(code, base + |Flatten(c)|, open, m + ControlOf(c, base))
    ensures Below(m + ControlOf(c, base), base + |Flatten(c)|)
    decreases c, 1
  {
    ControlRange(c, base);
    if c.Nil? {
      assert m + map[] == m;
    } else if c.Simple? {
      ScanSimple(code, c, base, open, m);
    } else if c.IfElseC? {
      ScanIfElse(code, c, base, open, m);
    } else {
      ScanOpener(code, c, base, open, m);
    }
  }

  lemma {:induction false} ScanSimple(code: Bytes, c: Code, base: nat, open: seq<nat>, m: ControlMap)
    requires WellFormed(c) && c.Simple? && At(code, base, Flatten(c)) && Below(m, base)
    ensures Scan(code, base, open, m) == Scan(code, base + |Flatten(c)|, open, m + ControlOf(c, base))
    decreases c, 0
  {
    hide Flatten, ControlOf, Encode, At, WellFormed, Scan, Below;
    SimpleShape(c, base);
    var next := base + |Encode(c.i, c.width)|;
    Split(code, base, Encode(c.i, c.width), Flatten(c.rest));
    ScanPlain(code, base, c.i, c.width, open, m);
    StillBelow(m, base, next);
    ScanCode(code, c.rest, next, open, m);
  }

  lemma StillBelow(m: ControlMap, low: nat, high: nat)
    requires Below(m, low) && low <= high
    ensures Below(m, high)
  {
  }

  lemma ScanPlain(code: Bytes, pc: nat, i: Instr, width: nat, open: seq<nat>, m: ControlMap)
    requires Plain(i, width) && At(code, pc, Encode(i, width))
    ensures Scan(code, pc, open, m) == Scan(code, pc + |Encode(i, width)|, open, m)
  {
    DecodeEncode(code, pc, i, width);
    hide Decode, Encode;
  }

  lemma {:induction false} ScanOpener(code: Bytes, c: Code, base: nat, open: seq<nat>, m: ControlMap)
    requires WellFormed(c) && OneBody(c) && At(code, base, Flatten(c)) && Below(m, base)
    ensures Scan(code, base, open, m) == Scan(code, base + |Flatten(c)|, open, m + ControlOf(c, base))
    decreases c, 0
  {
    hide Decode, At, Flatten, ControlOf, Scan, WellFormed, Enclose;
    OneBodyShape(c, base);
    Layout(code, base, OpcodeOf(c), c.bt, Flatten(c.body), 0x0B, Flatten(c.rest));
    var end := base + 2 + |Flatten(c.body)|;
    ScanSteps(code, base, open, m);
    ScanCode(code, c.body, base + 2, open + [base], m);
    ControlRange(c.body, base + 2);
    var inside := m + ControlOf(c.body, base + 2);
    ScanSteps(code, end, open + [base], inside);
    assert (open + [base])[..|open|] == open;
    var closed := CloseOpener(inside, base, end);
    assert base !in inside && closed == inside[base := ControlInfo(end, None)];
    ScanCode(code, c.rest, end + 1, open, closed);
    assert closed + ControlOf(c.rest, end + 1) == m + ControlOf(c, base);
  }

  lemma {:induction false} ScanIfElse(code: Bytes, c: Code, base: nat, open: seq<nat>, m: ControlMap)
    requires WellFormed(c) && c.IfElseC? && At(code, base, Flatten(c)) && Below(m, base)
    ensures Scan(code, base, open, m) == Scan(code, base + |Flatten(c)|, open, m + ControlOf(c, base))
    decreases c, 0
  {
    hide Decode, At, Flatten, ControlOf, Scan, SetElse, CloseOpener, WellFormed, Enclose, IfElseEntries;
    IfElseShape(c, base);
    var mid := base + 2 + |Flatten(c.thn)|;
    var end := mid + 1 + |Flatten(c.els)|;
    LayoutIfElse(code, c, base);
    GatheredEntries(c, base, m);
    ScanSteps(code, base, open, m);
    ScanCode(code, c.thn, base + 2, open + [base], m);
    var inThen := m + ControlOf(c.thn, base + 2);
    ScanSteps(code, mid, open + [base], inThen);
    var withElse := SetElse(inThen, base, mid);
    ScanCode(code, c.els, mid + 1, open + [base], withElse);
    var inElse := withElse + ControlOf(c.els, mid + 1);
    ScanSteps(code, end, open + [base], inElse);
    assert (open + [base])[..|open|] == open;
    ScanCode(code, c.rest, end + 1, open, CloseOpener(inElse, base, end));
  }

  /** The entries gathered on the way through an if-else are those of `ControlOf`. */
  lemma GatheredEntries(c: Code, base: nat, m: ControlMap)
    requires WellFormed(c) && c.IfElseC? && Below(m, base)
    ensures var mid := base + 2 + |Flatten(c.thn)|; var end := mid + 1 + |Flatten(c.els)|;
            var withElse := SetElse(m + ControlOf(c.thn, base + 2), base, mid);
            var closed := CloseOpener(withElse + ControlOf(c.els, mid + 1), base, end);
            Below(withElse, mid + 1) && Below(closed, end + 1)
              && closed + ControlOf(c.rest, end + 1) == m + ControlOf(c, base)
  {
    hide Flatten, ControlOf, WellFormed, IfElseEntries, SetElse, CloseOpener, Enclose;
    IfElseShape(c, base);
    ControlRange(c.thn, base + 2);
    var mid := base + 2 + |Flatten(c.thn)|;
    ControlRange(c.els, mid + 1);
    var end := mid + 1 + |Flatten(c.els)|;
    var a, b, d := ControlOf(c.thn, base + 2), ControlOf(c.els, mid + 1), ControlOf(c.rest, end + 1);
    MergeEntries(m, a, b, base, mid, end);
    assert (m + IfElseEntries(a, b, base, mid, end)) + d == m + (IfElseEntries(a, b, base, mid, end) + d);
  }

  lemma MergeEntries(m: ControlMap, a: ControlMap, b: ControlMap, base: nat, mid: nat, end: nat)
    requires Below(m, base) && Within(a, base + 2, mid) && Within(b, mid + 1, end) && base < mid < end
    ensures var withElse := SetElse(m + a, base, mid);
            var closed := CloseOpener(withElse + b, base, end);
            Below(withElse, mid + 1) && Below(closed, end + 1) && closed == m + IfElseEntries(a, b, base, mid, end)
  {
    var inElse := SetElse(m + a, base, mid) + b;
    assert base in inElse && inElse[base].elsePc == Some(mid);
  }

  /**
   `build_control_map` sends every opener of a structured function to its matching `end` and `else`, and records nothing
   else.
   */
  lemma ControlMapCorrect(c: Code)
    requires WellFormed(c)
    ensures Scan(Body(c), 0, [], map[]) == Ok(ControlOf(c, 0))
  {
    hide Decode, Flatten, ControlOf;
    var code := Body(c);
    var n := |Flatten(c)|;
    assert code[..n] == Flatten(c) && code[n] == 0x0B;
    ScanCode(code, c, 0, [], map[]);
    assert map[] + ControlOf(c, 0) == ControlOf(c, 0);
    ScanSteps(code, n, [], ControlOf(c, 0));
  }

  // ---- the simulation ----

  predicate Agrees(cm: ControlMap, part: ControlMap) { forall k :: k in part ==> k in cm && cm[k] == part[k] }

  /** How the machine goes on from a structured result of code that ends just before `after`. */
  function Continue(code: Bytes, cm: ControlMap, frames: seq<Frame>, after: nat, r: Exit): Outcome
  {
    match r
    case Fell(s, fuel) => Run(code, cm, Machine(after, s, frames), fuel)
    case Broke(depth, s, fuel) => Take(code, cm, Jump(Branch(frames, depth), s), fuel)
    case Left(stack) => Finish(stack)
    case Fault(e) => Trapped(e)
    case Starved => OutOfFuel
  }

  function Take(code: Bytes, cm: ControlMap, step: Step, fuel: nat): Outcome
  {
    match step
    case Halt(o) => o
    case Next(m) => Run(code, cm, m, fuel)
  }

  /** A branch to an outer construct does not see the innermost frame. */
  lemma BranchOutward(frames: seq<Frame>, top: Frame, depth: nat)
    requires depth > 0
    ensures Branch(frames + [top], depth) == Branch(frames, depth - 1)
  {
    var inner := frames + [top];
    if depth < |inner| {
      var target := |inner| - 1 - depth;
      assert inner[target] == frames[target];
      assert inner[..target] == frames[..target];
      assert inner[..target + 1] == frames[..target + 1];
    }
  }

  /**
   From inside a block (or if) whose body ends at the opcode `closer`, the machine reaches `end + 1` as `Close` says.
   */
  lemma CloseBlock(code: Bytes, cm: ControlMap, frames: seq<Frame>, top: Frame, closer: nat, end: nat, r: Exit)
    requires top == BlockFrame(end) || top == IfFrame(end)
    requires closer < |code|
    requires forall s :: StepOf(code, cm, Machine(closer, s, frames + [top])) == Next(Machine(end + 1, s, frames))
    ensures Continue(code, cm, frames + [top], closer, r) == Continue(code, cm, frames, end + 1, Close(r))
  {
    hide StepOf;
    if r.Broke? {
      if r.depth > 0 {
        BranchOutward(frames, top, r.depth);
      } else {
        assert (frames + [top])[..|frames|] == frames;
      }
    }
  }

  lemma CloseLoop(code: Bytes, cm: ControlMap, frames: seq<Frame>, start: nat, end: nat, r: Exit)
    requires end < |code| && code[end] == 0x0B
    requires r.Broke? ==> r.depth > 0
    ensures Continue(code, cm, frames + [LoopFrame(start)], end, r) == Continue(code, cm, frames, end + 1, Close(r))
  {
    assert PopFrame(frames + [LoopFrame(start)]) == frames;
    if r.Broke? {
      BranchOutward(frames, LoopFrame(start), r.depth);
    }
  }

  lemma EndPops(code: Bytes, cm: ControlMap, frames: seq<Frame>, top: Frame, end: nat)
    requires end < |code| && code[end] == 0x0B
    ensures forall s :: StepOf(code, cm, Machine(end, s, frames + [top])) == Next(Machine(end + 1, s, frames))
  {
    assert PopFrame(frames + [top]) == frames;
  }

  /** What the induction carries for a piece of code. */
  predicate Placed(code: Bytes, cm: ControlMap, c: Code, base: nat)
  {
    && WellFormed(c)
    && At(code, base, Flatten(c))
    && base + |Flatten(c)| < |code|
    && Agrees(cm, ControlOf(c, base))
  }

  /** The claim of the simulation for one piece of code. */
  ghost predicate Simulated(code: Bytes, cm: ControlMap, c: Code, base: nat, s: Store, frames: seq<Frame>, fuel: nat)
    requires WellFormed(c)
  {
    Run(code, cm, Machine(base, s, frames), fuel) == Continue(code, cm, frames, base + |Flatten(c)|, Eval(c, s, fuel))
  }

  lemma {:induction false} Simulate(code: Bytes, cm: ControlMap, c: Code, base: nat, s: Store, frames: seq<Frame>,
      fuel: nat)
    requires Placed(code, cm, c, base)
    ensures Simulated(code, cm, c, base, s, frames, fuel)
    decreases fuel, c, 1
  {
    if !c.Nil? && fuel > 0 {
      match c
      case Simple(_, _, _) => SimulateSimple(code, cm, c, base, s, frames, fuel);
      case BlockC(_, _, _) => SimulateBlock(code, cm, c, base, s, frames, fuel);
      case LoopC(_, _, _) => SimulateLoop(code, cm, c, base, s, frames, fuel);
      case IfC(_, _, _) => SimulateIf(code, cm, c, base, s, frames, fuel);
      case IfElseC(_, _, _, _) => SimulateIfElse(code, cm, c, base, s, frames, fuel);
    }
  }

  // The evaluator at each construct.

  function Popped(s: Store): Store { if s.stack == [] then s else s.(stack := s.stack[..|s.stack| - 1]) }

  lemma EvalOneBody(c: Code, s: Store, fuel: nat)
    requires WellFormed(c) && OneBody(c) && fuel > 0
    ensures WellFormed(c.body) && WellFormed(c.rest)
    ensures var n := |s.stack|;
            Eval(c, s, fuel) ==
            if c.BlockC? then AndThen(Close(Eval(c.body, s, fuel - 1)), c.rest, fuel - 1)
            else if c.LoopC? then AndThen(Close(Iterate(c.body, s, fuel - 1)), c.rest, fuel - 1)
            else if n == 0 then Fault(StackUnderflow)
            else if s.stack[n - 1] != 0 then AndThen(Close(Eval(c.body, Popped(s), fuel - 1)), c.rest, fuel - 1)
            else Eval(c.rest, Popped(s), fuel - 1)
  {
    hide AndThen, Iterate, Close;
  }

  lemma EvalIfElse(c: Code, s: Store, fuel: nat)
    requires WellFormed(c) && c.IfElseC? && fuel > 0
    ensures WellFormed(c.thn) && WellFormed(c.els) && WellFormed(c.rest)
    ensures var n := |s.stack|;
            Eval(c, s, fuel) ==
            if n == 0 then Fault(StackUnderflow)
            else AndThen(Close(Eval(if s.stack[n - 1] != 0 then c.thn else c.els, Popped(s), fuel - 1)), c.rest,
              fuel - 1)
  {
    hide AndThen, Iterate, Close;
  }

  lemma EvalSimple(c: Code, s: Store, fuel: nat)
    requires WellFormed(c) && c.Simple? && fuel > 0
    ensures WellFormed(c.rest)
    ensures var n, i := |s.stack|, c.i;
            Eval(c, s, fuel) ==
            if i.Br? then Broke(i.depth, s, fuel - 1)
            else if i.BrIf? then
              if n == 0 then Fault(StackUnderflow)
              else if s.stack[n - 1] != 0 then Broke(i.depth, Popped(s), fuel - 1)
              else Eval(c.rest, Popped(s), fuel - 1)
            else if i.Return? then Left(s.stack)
            else if Exec(i, s).Err? then Fault(Exec(i, s).error) else Eval(c.rest, Exec(i, s).value, fuel - 1)
  {
    hide Exec;
  }

  /** One opcode of a run. */
  lemma RunStep(code: Bytes, cm: ControlMap, m: Machine, fuel: nat)
    requires m.pc < |code| && fuel > 0
    ensures Run(code, cm, m, fuel) == Take(code, cm, StepOf(code, cm, m), fuel - 1)
  {
    hide StepOf;
  }

  lemma SimpleStep(code: Bytes, cm: ControlMap, i: Instr, width: nat, pc: nat, s: Store, frames: seq<Frame>)
    requires Plain(i, width) && At(code, pc, Encode(i, width))
    ensures var n, next, step := |s.stack|, pc + |Encode(i, width)|, StepOf(code, cm, Machine(pc, s, frames));
            if i.Br? then step == Jump(Branch(frames, i.depth), s)
            else if i.BrIf? then
              step == if n < 1 then Halt(Trapped(StackUnderflow))
                      else if s.stack[n - 1] != 0 then Jump(Branch(frames, i.depth), Popped(s))
                      else Next(Machine(next, Popped(s), frames))
            else if i.Return? then step == Halt(Finish(s.stack))
            else step == if Exec(i, s).Err? then Halt(Trapped(Exec(i, s).error))
              else Next(Machine(next, Exec(i, s).value, frames))
  {
    DecodeEncode(code, pc, i, width);
    hide Decode, Exec, Encode, Branch, Jump;
  }

  lemma RunSimple(code: Bytes, cm: ControlMap, i: Instr, width: nat, pc: nat, s: Store, frames: seq<Frame>, fuel: nat)
    requires Plain(i, width) && At(code, pc, Encode(i, width)) && fuel > 0
    ensures var n, next := |s.stack|, pc + |Encode(i, width)|;
            Run(code, cm, Machine(pc, s, frames), fuel) ==
            if i.Br? then Take(code, cm, Jump(Branch(frames, i.depth), s), fuel - 1)
            else if i.BrIf? then
              if n == 0 then Trapped(StackUnderflow)
              else if s.stack[n - 1] != 0 then Take(code, cm, Jump(Branch(frames, i.depth), Popped(s)), fuel - 1)
              else Run(code, cm, Machine(next, Popped(s), frames), fuel - 1)
            else if i.Return? then Finish(s.stack)
            else if Exec(i, s).Err? then Trapped(Exec(i, s).error)
              else Run(code, cm, Machine(next, Exec(i, s).value, frames), fuel - 1)
  {
    hide Decode, Exec, Encode, Run, Branch, StepOf;
    SimpleStep(code, cm, i, width, pc, s, frames);
    RunStep(code, cm, Machine(pc, s, frames), fuel);
  }

  lemma PlaceSimple(code: Bytes, cm: ControlMap, c: Code, base: nat) returns (next: nat)
    requires Placed(code, cm, c, base) && c.Simple?
    ensures Plain(c.i, c.width) && At(code, base, Encode(c.i, c.width)) && base < |code|
    ensures next == base + |Encode(c.i, c.width)| && next + |Flatten(c.rest)| == base + |Flatten(c)|
    ensures Placed(code, cm, c.rest, next)
  {
    hide At, Encode, Agrees, ControlOf, Flatten, WellFormed;
    SimpleShape(c, base);
    next := base + |Encode(c.i, c.width)|;
    Split(code, base, Encode(c.i, c.width), Flatten(c.rest));
  }

  lemma {:induction false} SimulateSimple(code: Bytes, cm: ControlMap, c: Code, base: nat, s: Store, frames: seq<Frame>,
      fuel: nat)
    requires Placed(code, cm, c, base) && c.Simple? && fuel > 0
    ensures Simulated(code, cm, c, base, s, frames, fuel)
    decreases fuel, c, 0
  {
    hide Run, Eval, Iterate, AndThen, Close, Flatten, ControlOf, StepOf, At, Agrees, Branch, Exec, Encode, WellFormed;
    hide Take, Jump, Popped;
    var Simple(i, width, rest) := c;
    var next := PlaceSimple(code, cm, c, base);
    RunSimple(code, cm, i, width, base, s, frames, fuel);
    EvalSimple(c, s, fuel);
    var n := |s.stack|;
    if i.BrIf? && n > 0 && s.stack[n - 1] == 0 {
      Simulate(code, cm, rest, next, Popped(s), frames, fuel - 1);
    } else if !i.Br? && !i.BrIf? && !i.Return? && Exec(i, s).Ok? {
      Simulate(code, cm, rest, next, Exec(i, s).value, frames, fuel - 1);
    }
  }

  /** After a construct has closed, the rest of the sequence. */
  lemma {:induction false} SimulateRest(code: Bytes, cm: ControlMap, rest: Code, base: nat, frames: seq<Frame>, r: Exit,
      bound: nat)
    requires Placed(code, cm, rest, base)
    requires r.Fell? ==> r.fuel <= bound
    requires r.Broke? ==> r.fuel < bound
    ensures Continue(code, cm, frames, base, r)
            == Continue(code, cm, frames, base + |Flatten(rest)|, AndThen(r, rest, bound))
    decreases bound, rest, 2
  {
    hide Run, Eval, Flatten, ControlOf, At, Agrees, Branch;
    if r.Fell? {
      Simulate(code, cm, rest, base, r.s, frames, r.fuel);
    }
  }

  lemma PlaceOpener(code: Bytes, cm: ControlMap, c: Code, base: nat) returns (end: nat)
    requires Placed(code, cm, c, base) && OneBody(c)
    ensures base + 2 <= end == base + 2 + |Flatten(c.body)| && end < |code| && code[base] == OpcodeOf(c)
            && code[end] == 0x0B
    ensures base in cm && cm[base] == ControlInfo(end, None)
    ensures Placed(code, cm, c.body, base + 2) && Placed(code, cm, c.rest, end + 1)
    ensures end + 1 + |Flatten(c.rest)| == base + |Flatten(c)|
  {
    hide At, Agrees, ControlOf, Flatten, WellFormed, Enclose;
    OneBodyShape(c, base);
    end := base + 2 + |Flatten(c.body)|;
    Layout(code, base, OpcodeOf(c), c.bt, Flatten(c.body), 0x0B, Flatten(c.rest));
    ControlRange(c.body, base + 2);
    ControlRange(c.rest, end + 1);
    var inner := ControlOf(c.body, base + 2);
    Overlay(cm, inner[base := ControlInfo(end, None)], ControlOf(c.rest, end + 1));
    WithoutEntry(cm, inner, base, ControlInfo(end, None));
  }

  /** A map that agrees with a union of disjoint maps agrees with both. */
  lemma Overlay(cm: ControlMap, a: ControlMap, b: ControlMap)
    requires Agrees(cm, a + b) && a.Keys !! b.Keys
    ensures Agrees(cm, a) && Agrees(cm, b)
  {
    forall k | k in a ensures k in cm && cm[k] == a[k] { assert k in a + b && (a + b)[k] == a[k]; }
    forall k | k in b ensures k in cm && cm[k] == b[k] { assert k in a + b && (a + b)[k] == b[k]; }
  }

  lemma WithoutEntry(cm: ControlMap, part: ControlMap, k: nat, info: ControlInfo)
    requires Agrees(cm, part[k := info]) && k !in part
    ensures Agrees(cm, part) && k in cm && cm[k] == info
  {
    assert k in part[k := info] && part[k := info][k] == info;
    forall j | j in part ensures j in cm && cm[j] == part[j] { assert part[k := info][j] == part[j]; }
  }

  /** What each opener does in one step. */
  lemma EnterOpener(code: Bytes, cm: ControlMap, c: Code, base: nat, s: Store, frames: seq<Frame>, fuel: nat)
    requires OneBody(c) && base < |code| && code[base] == OpcodeOf(c) && base in cm && fuel > 0
    ensures Run(code, cm, Machine(base, s, frames), fuel) ==
            if c.BlockC? then Run(code, cm, Machine(base + 2, s, frames + [BlockFrame(cm[base].endPc)]), fuel - 1)
            else if c.LoopC? then Run(code, cm, Machine(base + 2, s, frames + [LoopFrame(base + 2)]), fuel - 1)
            else Take(code, cm, StepIf(base, base + 2, cm, s, frames), fuel - 1)
  {
    assert Decode(code, base) == Ok((if c.BlockC? then Block else if c.LoopC? then Loop else If, base + 2));
    hide Decode, StepIf, Run;
    RunStep(code, cm, Machine(base, s, frames), fuel);
  }

  lemma {:induction false} SimulateBlock(code: Bytes, cm: ControlMap, c: Code, base: nat, s: Store, frames: seq<Frame>,
      fuel: nat)
    requires Placed(code, cm, c, base) && c.BlockC? && fuel > 0
    ensures Simulated(code, cm, c, base, s, frames, fuel)
    decreases fuel, c, 0
  {
    hide Run, Eval, Iterate, AndThen, Close, Continue, Flatten, ControlOf, StepOf, At, Agrees, Branch, WellFormed;
    EvalOneBody(c, s, fuel);
    var end := PlaceOpener(code, cm, c, base);
    EnterOpener(code, cm, c, base, s, frames, fuel);
    EndPops(code, cm, frames, BlockFrame(end), end);
    Simulate(code, cm, c.body, base + 2, s, frames + [BlockFrame(end)], fuel - 1);
    CloseBlock(code, cm, frames, BlockFrame(end), end, end, Eval(c.body, s, fuel - 1));
    SimulateRest(code, cm, c.rest, end + 1, frames, Close(Eval(c.body, s, fuel - 1)), fuel - 1);
  }

  lemma {:induction false} SimulateLoop(code: Bytes, cm: ControlMap, c: Code, base: nat, s: Store, frames: seq<Frame>,
      fuel: nat)
    requires Placed(code, cm, c, base) && c.LoopC? && fuel > 0
    ensures Simulated(code, cm, c, base, s, frames, fuel)
    decreases fuel, c, 0
  {
    hide Run, Eval, Iterate, AndThen, Close, Continue, Flatten, ControlOf, StepOf, At, Agrees, Branch, WellFormed;
    EvalOneBody(c, s, fuel);
    var end := PlaceOpener(code, cm, c, base);
    EnterOpener(code, cm, c, base, s, frames, fuel);
    SimulateIterations(code, cm, c.body, base + 2, s, frames, fuel - 1);
    CloseLoop(code, cm, frames, base + 2, end, Iterate(c.body, s, fuel - 1));
    SimulateRest(code, cm, c.rest, end + 1, frames, Close(Iterate(c.body, s, fuel - 1)), fuel - 1);
  }

  lemma BranchToLoop(frames: seq<Frame>, start: nat)
    ensures var inner := frames + [LoopFrame(start)]; Branch(inner, 0) == Goto(start, inner)
  {
    var inner := frames + [LoopFrame(start)];
    assert inner[..|inner|] == inner;
  }

  lemma {:induction false} SimulateIterations(code: Bytes, cm: ControlMap, body: Code, start: nat, s: Store,
      frames: seq<Frame>, fuel: nat)
    requires Placed(code, cm, body, start)
    ensures var inner := frames + [LoopFrame(start)];
            Run(code, cm, Machine(start, s, inner), fuel)
              == Continue(code, cm, inner, start + |Flatten(body)|, Iterate(body, s, fuel))
    decreases fuel, body, 2
  {
    hide Run, Eval, Flatten, ControlOf, StepOf, At, Agrees, Branch, WellFormed;
    var inner := frames + [LoopFrame(start)];
    BranchToLoop(frames, start);
    Simulate(code, cm, body, start, s, inner, fuel);
    var r := Eval(body, s, fuel);
    if r.Broke? && r.depth == 0 {
      SimulateIterations(code, cm, body, start, r.s, frames, r.fuel);
    }
  }

  lemma {:induction false} SimulateIf(code: Bytes, cm: ControlMap, c: Code, base: nat, s: Store, frames: seq<Frame>,
      fuel: nat)
    requires Placed(code, cm, c, base) && c.IfC? && fuel > 0
    ensures Simulated(code, cm, c, base, s, frames, fuel)
    decreases fuel, c, 0
  {
    hide Run, Eval, Iterate, AndThen, Close, Flatten, ControlOf, StepOf, At, Agrees, Branch, WellFormed;
    EvalOneBody(c, s, fuel);
    var n, s1 := |s.stack|, Popped(s);
    var end := PlaceOpener(code, cm, c, base);
    EnterOpener(code, cm, c, base, s, frames, fuel);
    if n > 0 {
      if s.stack[n - 1] != 0 {
        EndPops(code, cm, frames, IfFrame(end), end);
        Simulate(code, cm, c.body, base + 2, s1, frames + [IfFrame(end)], fuel - 1);
        CloseBlock(code, cm, frames, IfFrame(end), end, end, Eval(c.body, s1, fuel - 1));
        SimulateRest(code, cm, c.rest, end + 1, frames, Close(Eval(c.body, s1, fuel - 1)), fuel - 1);
      } else {
        Simulate(code, cm, c.rest, end + 1, s1, frames, fuel - 1);
      }
    }
  }

  lemma PlaceIfElse(code: Bytes, cm: ControlMap, c: Code, base: nat) returns (mid: nat, end: nat)
    requires Placed(code, cm, c, base) && c.IfElseC?
    ensures mid == base + 2 + |Flatten(c.thn)| && end == mid + 1 + |Flatten(c.els)| && end < |code|
    ensures code[base] == 0x04 && code[mid] == 0x05 && code[end] == 0x0B
    ensures base in cm && cm[base] == ControlInfo(end, Some(mid)) && mid in cm && cm[mid].endPc == end
    ensures Placed(code, cm, c.thn, base + 2) && Placed(code, cm, c.els, mid + 1) && Placed(code, cm, c.rest, end + 1)
    ensures end + 1 + |Flatten(c.rest)| == base + |Flatten(c)|
  {
    hide At, Agrees, ControlOf, Flatten, WellFormed, Enclose;
    IfElseShape(c, base);
    mid := base + 2 + |Flatten(c.thn)|;
    end := mid + 1 + |Flatten(c.els)|;
    LayoutIfElse(code, c, base);
    ControlRange(c.thn, base + 2);
    ControlRange(c.els, mid + 1);
    ControlRange(c.rest, end + 1);
    var a, b := ControlOf(c.thn, base + 2), ControlOf(c.els, mid + 1);
    var withBase := (a + b)[base := ControlInfo(end, Some(mid))];
    Overlay(cm, withBase[mid := ControlInfo(end, None)], ControlOf(c.rest, end + 1));
    WithoutEntry(cm, withBase, mid, ControlInfo(end, None));
    WithoutEntry(cm, a + b, base, ControlInfo(end, Some(mid)));
    Overlay(cm, a, b);
  }

  lemma {:induction false} SimulateIfElse(code: Bytes, cm: ControlMap, c: Code, base: nat, s: Store, frames: seq<Frame>,
      fuel: nat)
    requires Placed(code, cm, c, base) && c.IfElseC? && fuel > 0
    ensures Simulated(code, cm, c, base, s, frames, fuel)
    decreases fuel, c, 0
  {
    hide Run, Eval, Iterate, AndThen, Close, Flatten, ControlOf, StepOf, At, Agrees, Branch, WellFormed;
    EvalIfElse(c, s, fuel);
    var n, s1 := |s.stack|, Popped(s);
    var arm := if n > 0 && s.stack[n - 1] != 0 then c.thn else c.els;
    var mid, end := PlaceIfElse(code, cm, c, base);
    EnterIf(code, cm, base, s, frames, fuel);
    if n > 0 {
      var r := Eval(arm, s1, fuel - 1);
      if s.stack[n - 1] != 0 {
        ElsePops(code, cm, frames, mid, end);
        Simulate(code, cm, c.thn, base + 2, s1, frames + [IfFrame(end)], fuel - 1);
        CloseBlock(code, cm, frames, IfFrame(end), mid, end, r);
      } else {
        EndPops(code, cm, frames, IfFrame(end), end);
        Simulate(code, cm, c.els, mid + 1, s1, frames + [IfFrame(end)], fuel - 1);
        CloseBlock(code, cm, frames, IfFrame(end), end, end, r);
      }
      SimulateRest(code, cm, c.rest, end + 1, frames, Close(r), fuel - 1);
    }
  }

  lemma EnterIf(code: Bytes, cm: ControlMap, base: nat, s: Store, frames: seq<Frame>, fuel: nat)
    requires base < |code| && code[base] == 0x04 && base in cm && fuel > 0
    ensures Run(code, cm, Machine(base, s, frames), fuel)
            == Take(code, cm, StepIf(base, base + 2, cm, s, frames), fuel - 1)
  {
    EnterOpener(code, cm, IfC(0, Nil, Nil), base, s, frames, fuel);
  }

  lemma ElsePops(code: Bytes, cm: ControlMap, frames: seq<Frame>, mid: nat, end: nat)
    requires mid < |code| && code[mid] == 0x05 && mid in cm && cm[mid].endPc == end
    ensures forall s :: StepOf(code, cm, Machine(mid, s, frames + [IfFrame(end)])) == Next(Machine(end + 1, s, frames))
  {
    assert PopFrame(frames + [IfFrame(end)]) == frames;
  }

  // ---- the main results ----

  /**
   For every structured function, every argument list and every budget of opcodes, the machine returns, traps
   or is still running exactly as the structured evaluator is.
   */
  lemma MachineIsStructured(c: Code, args: seq<i32>, declared: nat, fuel: nat)
    requires WellFormed(c)
    ensures RunCode(Body(c), args, declared, fuel) == EvalFunction(c, args, declared, fuel)
  {
    hide Flatten, ControlOf, Eval, Agrees, StepOf, Branch, Scan, WellFormed, Run;
    var code, cm, s := Body(c), ControlOf(c, 0), Store([], Locals(args, declared));
    ControlMapCorrect(c);
    var n := |Flatten(c)|;
    assert code[..n] == Flatten(c) && code[n] == 0x0B;
    assert Agrees(cm, cm) by { AgreesSelf(cm); }
    Simulate(code, cm, c, 0, s, [], fuel);
    TopLevel(code, cm, n, Eval(c, s, fuel));
  }

  lemma AgreesSelf(cm: ControlMap)
    ensures Agrees(cm, cm)
  {
  }

  /**
   What is left of a run when the whole body has ended: the function's own `end`, or a branch with no frame to go to.
   */
  lemma TopLevel(code: Bytes, cm: ControlMap, n: nat, r: Exit)
    requires |code| == n + 1 && code[n] == 0x0B
    ensures Continue(code, cm, [], n, r) ==
            match r
            case Fell(s, fuel) => if fuel == 0 then OutOfFuel else Finish(s.stack)
            case Broke(depth, s, _) => if depth == 0 then Finish(s.stack) else Trapped(BranchTooDeep)
            case Left(stack) => Finish(stack)
            case Fault(e) => Trapped(e)
            case Starved => OutOfFuel
  {
    if r.Fell? {
      assert Decode(code, n) == Ok((End, n + 1));
      assert StepOf(code, cm, Machine(n, r.s, [])) == Next(Machine(n + 1, r.s, []));
      if r.fuel > 0 {
        RunStep(code, cm, Machine(n, r.s, []), r.fuel);
      }
    }
  }

  /** More fuel changes nothing once a run has ended: the outcome of a call does not depend on the budget. */
  lemma {:induction false} MoreFuel(code: Bytes, cm: ControlMap, m: Machine, fuel: nat, more: nat)
    requires fuel <= more && Run(code, cm, m, fuel) != OutOfFuel
    ensures Run(code, cm, m, more) == Run(code, cm, m, fuel)
    decreases fuel
  {
    hide StepOf;
    if m.pc < |code| && StepOf(code, cm, m).Next? {
      MoreFuel(code, cm, StepOf(code, cm, m).m, fuel - 1, more - 1);
    }
  }

  /** So both sides agree on the one outcome of a call, and on whether there is one. */
  lemma SameOutcome(c: Code, args: seq<i32>, declared: nat, o: Outcome)
    requires WellFormed(c) && o != OutOfFuel
    ensures (exists n: nat :: RunCode(Body(c), args, declared, n) == o)
            <==> (exists n: nat :: EvalFunction(c, args, declared, n) == o)
    ensures forall n: nat, k: nat :: EvalFunction(c, args, declared, n) == o ==>
            EvalFunction(c, args, declared, k) in {o, OutOfFuel}
  {
    forall n: nat ensures RunCode(Body(c), args, declared, n) == EvalFunction(c, args, declared, n) {
      MachineIsStructured(c, args, declared, n);
    }
    ControlMapCorrect(c);
    forall n: nat, k: nat | EvalFunction(c, args, declared, n) == o
      ensures EvalFunction(c, args, declared, k) in {o, OutOfFuel}
    {
      var start := Machine(0, Store([], Locals(args, declared)), []);
      if n <= k {
        MoreFuel(Body(c), ControlOf(c, 0), start, n, k);
      } else if EvalFunction(c, args, declared, k) != OutOfFuel {
        MoreFuel(Body(c), ControlOf(c, 0), start, k, n);
      }
    }
  }
}
