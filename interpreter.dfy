/**
 * The single-instance interpreter: a class whose fields are the machine's
 * registers, updated in place by `Step` and `RunAll`. Each method is proved
 * to perform exactly the transition of `Semantics`, so every lemma proved
 * there holds of the object.
 */
module Interpreter {
  import opened Program
  import opened JumpTable
  import S = Semantics

  /** What `getState` hands to the visualisation: a read-only view of the registers. */
  datatype Snapshot = Snapshot(
    ptr: nat,
    ip: nat,
    memoryFull: seq<CharCode>,
    output: seq<CharCode>,
    halted: bool)

  class BrainfuckInterpreter {
    const code: string
    const loopMap: map<int, int>
    const memory: array<CharCode>
    var input: seq<CharCode>
    var ptr: nat
    var ip: nat
    var output: seq<CharCode>
    var halted: bool

    /** The object's value as a machine state. */
    ghost function Model(): S.State
      reads this, memory
    {
      S.State(code, loopMap, memory[..], ptr, ip, input, output, halted)
    }

    /**
     * The object invariant. `code` and `loopMap` are constants, so the facts
     * established about them at construction (a filtered program and its jump
     * table) hold for the object's whole life and are not repeated here.
     */
    ghost predicate Valid()
      reads this, memory
    {
      memory.Length == S.Capacity && S.WellFormed(Model())
    }

    /**
     * The initialisation done by the JavaScript constructor once the jump
     * table has been built: 30000 zero cells, both pointers at 0, empty
     * output, not halted.
     */
    constructor Init(code: string, input: seq<CharCode>, loopMap: map<int, int>)
      requires IsJumpTable(code, loopMap)
      ensures Valid() && fresh(memory)
      ensures Model() == S.Initial(code, loopMap, input)
    {
      this.code := code;
      this.input := input;
      this.memory := new CharCode[S.Capacity](_ => 0);
      this.ptr := 0;
      this.ip := 0;
      this.output := [];
      this.loopMap := loopMap;
      this.halted := false;
      new;
      assert memory[..] == seq(S.Capacity, _ => 0);
      S.InitialIsWellFormed(code, loopMap, input);
    }

    /**
     * Executes one instruction. At or past the end of the program it sets
     * `halted` and returns false; otherwise it applies the instruction,
     * advances `ip` (through the jump table for a taken branch) and returns true.
     */
    method Step() returns (running: bool)
      requires Valid() && S.CellInRange(Model())
      modifies this, memory
      ensures Valid()
      ensures Model() == S.Step(old(Model()))
      ensures running == (old(ip) < |code|)
    {
      if ip >= |code| {
        halted := true;
        return false;
      }
      var instruction := code[ip];
      match instruction {
        case '>' =>
          ptr := ptr + 1;
        case '<' =>
          ptr := if ptr == 0 then 0 else ptr - 1;
        case '+' =>
          memory[ptr] := (memory[ptr] as int + 1) % 256;
        case '-' =>
          memory[ptr] := (memory[ptr] as int - 1 + 256) % 256;
        case '.' =>
          output := output + [memory[ptr]];
        case ',' =>
          if input == [] {
            memory[ptr] := 0;
          } else {
            memory[ptr] := input[0];
            input := input[1..];
          }
        case '[' =>
          if memory[ptr] == 0 {
            ip := loopMap[ip];
          }
        case ']' =>
          if memory[ptr] != 0 {
            ip := loopMap[ip];
          }
        case _ =>
      }
      ip := ip + 1;
      return true;
    }

    /**
     * The loop of `runAll`: calls `step`, and stops when it reports the end
     * or when the counter has reached the limit; otherwise counts the step.
     * Returns the counter.
     */
    method StepUntilStop() returns (steps: nat)
      requires Valid() && S.SafeFrom(Model(), 0)
      modifies this, memory
      ensures Valid()
      ensures S.RunLoop(old(Model()), 0) == S.Exit(Model(), steps)
    {
      ghost var goal := S.RunLoop(Model(), 0);
      steps := 0;
      while true
        invariant Valid() && steps <= S.MaxSteps && S.Finishes(Model(), steps, goal)
        decreases S.MaxSteps - steps
      {
        S.FinishesUnfold(Model(), steps, goal);
        var running := Step();
        if !running || steps >= S.MaxSteps {
          break;
        }
        steps := steps + 1;
      }
    }

    /**
     * Runs the loop, forces `halted` when the step limit was reached, and
     * returns the accumulated output.
     */
    method RunAll() returns (result: seq<CharCode>)
      requires Valid() && S.SafeFrom(Model(), 0)
      modifies this, memory
      ensures Valid()
      ensures Model() == S.Run(old(Model()))
      ensures halted && result == output
    {
      var steps := StepUntilStop();
      if steps >= S.MaxSteps {
        halted := true;
      }
      S.RunHalts(old(Model()));
      return output;
    }

    /** A read-only view of the registers; with the invariant, the whole 30000-cell tape. */
    function GetState(): (snap: Snapshot)
      reads this, memory
      ensures snap.memoryFull == memory[..] && snap.output == output
      ensures snap.ptr == ptr && snap.ip == ip && snap.halted == halted
      ensures Valid() ==> |snap.memoryFull| == S.Capacity && snap.ip <= |code|
    {
      Snapshot(ptr, ip, memory[..], output, halted)
    }
  }

  /**
   * The JavaScript constructor: filters the source, builds the jump table
   * (throwing on an unmatched bracket) and initialises the machine.
   */
  method NewInterpreter(source: string, input: seq<CharCode>)
    returns (r: Result<BrainfuckInterpreter, SyntaxError>)
    ensures r.Success? <==> Balanced(Filter(source))
    ensures r.Failure? ==> Explains(Filter(source), r.error)
    ensures r.Success? ==>
      && fresh(r.value) && fresh(r.value.memory) && r.value.Valid()
      && r.value.code == Filter(source) && IsJumpTable(r.value.code, r.value.loopMap)
      && r.value.Model() == S.Initial(Filter(source), r.value.loopMap, input)
  {
    var code := Filter(source);
    var loopMap := BuildLoopMap(code);
    if loopMap.Failure? {
      return Failure(loopMap.error);
    }
    var interpreter := new BrainfuckInterpreter.Init(code, input, loopMap.value);
    return Success(interpreter);
  }
}
