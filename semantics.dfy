/**
 * The virtual machine's semantics as values: the machine state, the
 * single-step transition and the bounded run. The interpreter class is
 * proved against these functions; the properties of the machine are
 * lemmas about them.
 */
module Semantics {
  import opened Program
  import opened JumpTable

  /** Number of tape cells allocated at construction. */
  const Capacity: nat := 30000

  /** Step limit of the bulk-run driver. */
  const MaxSteps: nat := 10_000_000

  datatype State = State(
    code: string,               // the filtered program
    loopMap: map<int, int>,     // its jump table
    tape: seq<CharCode>,        // the memory cells
    ptr: nat,                   // data pointer
    ip: nat,                    // instruction pointer
    input: seq<CharCode>,       // pending input, consumed from the front
    output: seq<CharCode>,      // output produced so far
    halted: bool)

  /** The state of a freshly loaded program: zeroed tape, both pointers at 0, no output. */
  function Initial(code: string, loopMap: map<int, int>, input: seq<CharCode>): State {
    State(code, loopMap, seq(Capacity, _ => 0), 0, 0, input, [], false)
  }

  /** Every bracket has a jump target inside the program. */
  ghost predicate JumpsInRange(code: string, loopMap: map<int, int>) {
    forall i :: 0 <= i < |code| && IsBracket(code[i]) ==> i in loopMap && 0 <= loopMap[i] < |code|
  }

  /** What `step` needs of a state: in-range jump targets and `ip` at most at the end. */
  ghost predicate WellFormed(s: State) {
    JumpsInRange(s.code, s.loopMap) && s.ip <= |s.code|
  }

  lemma JumpTableInRange(code: string, loopMap: map<int, int>)
    requires IsJumpTable(code, loopMap)
    ensures JumpsInRange(code, loopMap)
  {
    forall i | 0 <= i < |code| && IsBracket(code[i])
      ensures i in loopMap && 0 <= loopMap[i] < |code|
    {
      JumpTableSymmetric(code, loopMap, i);
    }
  }

  /** `step` reports progress exactly when an instruction remains. */
  predicate Running(s: State) {
    s.ip < |s.code|
  }

  /** The instructions that read or write the current cell. */
  predicate TouchesCell(c: char) {
    c in "+-.,[]"
  }

  /**
   * The policy for a pointer moved past the tape: `>` may move it anywhere,
   * but an instruction that reads or writes the current cell needs it on the tape.
   */
  predicate CellInRange(s: State) {
    Running(s) && TouchesCell(s.code[s.ip]) ==> s.ptr < |s.tape|
  }

  /** What the instruction at `ip` does to the tape, the pointer, the input and the output. */
  function Execute(s: State): (r: State)
    requires Running(s) && CellInRange(s)
    ensures r.code == s.code && r.loopMap == s.loopMap && |r.tape| == |s.tape|
    ensures r.ip == s.ip && r.halted == s.halted
  {
    match s.code[s.ip]
    case '>' => s.(ptr := s.ptr + 1)
    case '<' => s.(ptr := if s.ptr == 0 then 0 else s.ptr - 1)
    case '+' => s.(tape := s.tape[s.ptr := (s.tape[s.ptr] as int + 1) % 256])
    case '-' => s.(tape := s.tape[s.ptr := (s.tape[s.ptr] as int - 1 + 256) % 256])
    case '.' => s.(output := s.output + [s.tape[s.ptr]])
    case ',' =>
      if s.input == [] then s.(tape := s.tape[s.ptr := 0])
      else s.(tape := s.tape[s.ptr := s.input[0]], input := s.input[1..])
    case _ => s
  }

  /**
   * Where execution continues: one past the jump target for `[` on a zero
   * cell and for `]` on a non-zero cell, the next instruction otherwise.
   */
  function NextIp(s: State): (ip: nat)
    requires WellFormed(s) && Running(s) && CellInRange(s)
    ensures ip <= |s.code|
  {
    var c := s.code[s.ip];
    if (c == '[' && s.tape[s.ptr] == 0) || (c == ']' && s.tape[s.ptr] != 0) then s.loopMap[s.ip] + 1
    else s.ip + 1
  }

  /** One instruction: the transition of `step`. */
  function Step(s: State): (r: State)
    requires WellFormed(s) && CellInRange(s)
    ensures WellFormed(r)
    ensures r.code == s.code && r.loopMap == s.loopMap && |r.tape| == |s.tape|
  {
    if !Running(s) then s.(halted := true) else Execute(s).(ip := NextIp(s))
  }

  /** The next `n` steps from `s` never touch a cell off the tape. */
  ghost predicate SafeFrom(s: State, steps: nat)
    requires WellFormed(s)
    decreases MaxSteps - steps
  {
    CellInRange(s) && (Running(s) && steps < MaxSteps ==> SafeFrom(Step(s), steps + 1))
  }

  datatype Exit = Exit(final: State, steps: nat)

  /**
   * The driver's loop `while (step() && steps < maxSteps) steps++`: the
   * step is taken before the counter is compared, so a run cut off by the
   * limit has executed `MaxSteps + 1` instructions.
   */
  function RunLoop(s: State, steps: nat): (e: Exit)
    requires WellFormed(s) && SafeFrom(s, steps)
    ensures WellFormed(e.final) && e.final.code == s.code && |e.final.tape| == |s.tape|
    ensures steps <= e.steps && (steps <= MaxSteps ==> e.steps <= MaxSteps)
    decreases MaxSteps - steps
  {
    var next := Step(s);
    if Running(s) && steps < MaxSteps then RunLoop(next, steps + 1) else Exit(next, steps)
  }

  /** `runAll`: the loop, then `halted` forced when the step limit was reached. */
  function Run(s: State): (r: State)
    requires WellFormed(s) && SafeFrom(s, 0)
    ensures WellFormed(r) && r.code == s.code && |r.tape| == |s.tape|
  {
    var e := RunLoop(s, 0);
    if e.steps >= MaxSteps then e.final.(halted := true) else e.final
  }

  /** The driver's loop, continued from `s` with the counter at `steps`, ends with `goal`. */
  ghost predicate Finishes(s: State, steps: nat, goal: Exit) {
    WellFormed(s) && SafeFrom(s, steps) && RunLoop(s, steps) == goal
  }

  /**
   * One turn of the driver's loop: `step` is called, then the counter is
   * compared. Either the loop goes on from the next state with the counter
   * one higher, or it ends with the next state.
   */
  lemma FinishesUnfold(s: State, steps: nat, goal: Exit)
    requires Finishes(s, steps, goal)
    ensures CellInRange(s)
    ensures Running(s) && steps < MaxSteps ==> Finishes(Step(s), steps + 1, goal)
    ensures !(Running(s) && steps < MaxSteps) ==> goal == Exit(Step(s), steps)
  {
  }

  // ---------------------------------------------------------------------
  // Properties of one step
  // ---------------------------------------------------------------------

  /** At or past the end of the program, `step` only sets `halted`. */
  lemma StepAtEnd(s: State)
    requires WellFormed(s) && !Running(s)
    ensures Step(s).halted && Step(s).(halted := s.halted) == s
  {
  }

  /**
   * Nothing else changes: only the current cell may change, only `+`, `-`
   * and `,` change it, only `.` writes output (exactly the current cell),
   * only `<` and `>` move the pointer, and `halted` is only ever set.
   */
  lemma StepFrame(s: State)
    requires WellFormed(s) && CellInRange(s)
    ensures var r := Step(s);
      && (forall i :: 0 <= i < |s.tape| && i != s.ptr ==> r.tape[i] == s.tape[i])
      && (r.tape != s.tape ==> Running(s) && s.code[s.ip] in "+-,")
      && r.output == (if Running(s) && s.code[s.ip] == '.' then s.output + [s.tape[s.ptr]] else s.output)
      && (r.ptr != s.ptr ==> Running(s) && s.code[s.ip] in "<>")
      && (r.input != s.input ==> Running(s) && s.code[s.ip] == ',')
      && r.halted == (s.halted || !Running(s))
  {
    if Running(s) {
      var c := s.code[s.ip];
      if c == '+' || c == '-' || c == ',' {
      } else if c == '.' {
      } else {
      }
    }
  }

  /** `<` floors the pointer at 0 (so it is a no-op at 0); `>` increments it without bound. */
  lemma StepMovesPointer(s: State)
    requires WellFormed(s) && Running(s) && s.code[s.ip] in "<>"
    ensures s.code[s.ip] == '<' ==> Step(s).ptr == (if s.ptr == 0 then 0 else s.ptr - 1)
    ensures s.code[s.ip] == '<' && s.ptr == 0 ==> Step(s).ptr == 0
    ensures s.code[s.ip] == '>' ==> Step(s).ptr == s.ptr + 1
  {
  }

  /**
   * `,` moves the head of the input into the current cell, or stores 0 when
   * the input is exhausted: the input consumed is exactly what the cell received.
   */
  lemma StepReadsInput(s: State)
    requires WellFormed(s) && CellInRange(s) && Running(s) && s.code[s.ip] == ','
    ensures var r := Step(s);
      && s.input == (if s.input == [] then [] else [r.tape[s.ptr]]) + r.input
      && (s.input == [] ==> r.tape[s.ptr] == 0)
  {
  }

  /** A byte cell incremented by `+` stays a byte, wrapping 255 to 0. */
  lemma IncrementWraps(s: State)
    requires WellFormed(s) && CellInRange(s) && Running(s) && s.code[s.ip] == '+'
    requires s.tape[s.ptr] < 256
    ensures Step(s).tape[s.ptr] == (if s.tape[s.ptr] == 255 then 0 else s.tape[s.ptr] + 1)
  {
  }

  /** A cell decremented by `-` is a byte, wrapping 0 to 255. */
  lemma DecrementWraps(s: State)
    requires WellFormed(s) && CellInRange(s) && Running(s) && s.code[s.ip] == '-'
    requires s.tape[s.ptr] < 256
    ensures Step(s).tape[s.ptr] == (if s.tape[s.ptr] == 0 then 255 else s.tape[s.ptr] - 1)
  {
  }

  /** `+` followed by `-` on a byte cell restores the tape. */
  lemma IncrementThenDecrement(s: State)
    requires WellFormed(s) && s.ip + 1 < |s.code| && s.code[s.ip] == '+' && s.code[s.ip + 1] == '-'
    requires s.ptr < |s.tape| && s.tape[s.ptr] < 256
    ensures CellInRange(Step(s))
    ensures Step(Step(s)) == s.(ip := s.ip + 2)
  {
    var r := Step(s);
    assert r.tape[s.ptr] == (s.tape[s.ptr] as int + 1) % 256;
    assert Step(r).tape == s.tape;
  }

  /** `-` followed by `+` on a byte cell restores the tape. */
  lemma DecrementThenIncrement(s: State)
    requires WellFormed(s) && s.ip + 1 < |s.code| && s.code[s.ip] == '-' && s.code[s.ip + 1] == '+'
    requires s.ptr < |s.tape| && s.tape[s.ptr] < 256
    ensures CellInRange(Step(s))
    ensures Step(Step(s)) == s.(ip := s.ip + 2)
  {
    var r := Step(s);
    assert r.tape[s.ptr] == (s.tape[s.ptr] as int - 1 + 256) % 256;
    assert Step(r).tape == s.tape;
  }

  /**
   * Control flow of a running step: `[` on a zero cell resumes just past
   * its matching `]`, `]` on a non-zero cell resumes just past its matching
   * `[`, and every other case moves to the next instruction.
   */
  lemma StepControlFlow(s: State)
    requires WellFormed(s) && IsJumpTable(s.code, s.loopMap) && CellInRange(s) && Running(s)
    ensures var r := Step(s); var c := s.code[s.ip];
      if c == '[' && s.tape[s.ptr] == 0 then
        forall close :: Matched(s.code, s.ip, close) ==> r.ip == close + 1
      else if c == ']' && s.tape[s.ptr] != 0 then
        forall open :: Matched(s.code, open, s.ip) ==> r.ip == open + 1
      else
        r.ip == s.ip + 1
  {
    var c := s.code[s.ip];
    var r := Step(s);
    if c == '[' && s.tape[s.ptr] == 0 {
      assert s.ip in s.loopMap && r.ip == s.loopMap[s.ip] + 1;
      forall close | Matched(s.code, s.ip, close) ensures r.ip == close + 1 {
        CloseIsUnique(s.code, s.ip, close, s.loopMap[s.ip]);
      }
    } else if c == ']' && s.tape[s.ptr] != 0 {
      assert s.ip in s.loopMap && r.ip == s.loopMap[s.ip] + 1;
      forall open | Matched(s.code, open, s.ip) ensures r.ip == open + 1 {
        OpenIsUnique(s.code, open, s.loopMap[s.ip], s.ip);
      }
    } else if c == '[' || c == ']' {
    } else if c == '+' || c == '-' || c == ',' {
    } else {
    }
  }

  /** Every value in `t` fits in a byte. */
  ghost predicate AllBytes(t: seq<CharCode>) {
    forall i :: 0 <= i < |t| ==> t[i] < 256
  }

  /** With byte input, a step keeps the tape, the pending input and the output made of bytes. */
  lemma StepKeepsBytes(s: State)
    requires WellFormed(s) && CellInRange(s)
    requires AllBytes(s.tape) && AllBytes(s.input) && AllBytes(s.output)
    ensures AllBytes(Step(s).tape) && AllBytes(Step(s).input) && AllBytes(Step(s).output)
  {
    if Running(s) {
      var c := s.code[s.ip];
      if c == '+' || c == '-' || c == ',' {
      } else if c == '.' {
      } else {
      }
    }
  }

  // ---------------------------------------------------------------------
  // Properties of the bounded run
  // ---------------------------------------------------------------------

  /** The loop stops either at the end of the program, with `halted` set, or at the step limit. */
  lemma {:induction false} RunLoopStops(s: State, steps: nat)
    requires WellFormed(s) && SafeFrom(s, steps) && steps <= MaxSteps
    ensures var e := RunLoop(s, steps);
      e.steps == MaxSteps || (e.final.halted && !Running(e.final))
    decreases MaxSteps - steps
  {
    if Running(s) && steps < MaxSteps {
      RunLoopStops(Step(s), steps + 1);
    }
  }

  /**
   * After `runAll`, `halted` is set: the program ended normally, or the
   * step limit was reached.
   */
  lemma RunHalts(s: State)
    requires WellFormed(s) && SafeFrom(s, 0)
    ensures Run(s).halted
    ensures !Running(Run(s)) || RunLoop(s, 0).steps == MaxSteps
  {
    RunLoopStops(s, 0);
  }

  /** Output is only appended to, and input is only consumed from the front. */
  lemma {:induction false} RunLoopExtends(s: State, steps: nat)
    requires WellFormed(s) && SafeFrom(s, steps)
    ensures var e := RunLoop(s, steps);
      && s.output <= e.final.output
      && |e.final.input| <= |s.input|
      && e.final.input == s.input[|s.input| - |e.final.input|..]
    decreases MaxSteps - steps
  {
    var r := Step(s);
    StepFrame(s);
    if Running(s) && s.code[s.ip] == ',' {
      StepReadsInput(s);
    }
    assert s.output <= r.output && r.input == s.input[|s.input| - |r.input|..];
    if Running(s) && steps < MaxSteps {
      RunLoopExtends(r, steps + 1);
    }
  }

  /** With byte input, cells, pending input and output stay bytes for the whole run. */
  lemma {:induction false} RunLoopKeepsBytes(s: State, steps: nat)
    requires WellFormed(s) && SafeFrom(s, steps)
    requires AllBytes(s.tape) && AllBytes(s.input) && AllBytes(s.output)
    ensures var e := RunLoop(s, steps);
      AllBytes(e.final.tape) && AllBytes(e.final.input) && AllBytes(e.final.output)
    decreases MaxSteps - steps
  {
    StepKeepsBytes(s);
    if Running(s) && steps < MaxSteps {
      RunLoopKeepsBytes(Step(s), steps + 1);
    }
  }

  /** The initial state is well formed once the jump table is, and all its cells are bytes. */
  lemma InitialIsWellFormed(code: string, loopMap: map<int, int>, input: seq<CharCode>)
    requires IsJumpTable(code, loopMap)
    ensures WellFormed(Initial(code, loopMap, input))
    ensures AllBytes(Initial(code, loopMap, input).tape) && |Initial(code, loopMap, input).tape| == Capacity
  {
    JumpTableInRange(code, loopMap);
  }
}
