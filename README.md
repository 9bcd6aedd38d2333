# Brainfuck interpreter — a verified Dafny model

This project models the single-instance Brainfuck virtual machine of
`BrainfuckInterpreter.js` and the `divideInput` policy of
`test_input_problem.js`.

- **Program loader** (`program.dfy`, module `Program`): the constructor's
  filter, which keeps only the eight instruction characters `><+-.,[]`.
  Input and output are sequences of UTF-16 code units (`CharCode`, 0..0xFFFF),
  which is what `split('')`, `charCodeAt` and `String.fromCharCode` work on.
- **Jump table** (`jump_table.dfy`, module `JumpTable`): `buildLoopMap` is a
  method with a loop and an explicit stack. It returns the table or a
  `SyntaxError`: an unmatched `]` with its index, or the number of `[` left
  open. The bracket structure is specified by bracket depth (`Depth`,
  `Balanced`, `Matched`). The method is proved to succeed exactly on
  balanced programs, to return a table linking each bracket to its match,
  and to return errors that say which bracket failed.
- **Semantics** (`semantics.dfy`, module `Semantics`): the machine state as a
  value (`State`), the transition of `step` (`Step`), and the `runAll`
  driver (`RunLoop`, `Run`). The properties of the machine are lemmas about
  these functions.
- **Interpreter** (`interpreter.dfy`, module `Interpreter`): the class
  `BrainfuckInterpreter`. Its fields are `code`, `loopMap`, a 30000-cell
  `memory` array, `input`, `ptr`, `ip`, `output` and `halted`. `Step` and
  `RunAll` update these fields in place. Each is proved to perform exactly
  `Semantics.Step` and `Semantics.Run` on the object's value (`Model()`).
  The JavaScript constructor can throw, so it is modelled as the method
  `NewInterpreter`, which returns a `Result`.
- **Input division** (`input_division.dfy`, module `InputDivision`):
  `divideInput` as a pure function.

Where the code and its design notes differ, this model follows the code:

- A cell is a code unit, not a byte. `,` stores `charCodeAt(0)`, which can
  exceed 255. `+` and `-` then reduce the cell modulo 256. "Cells stay in
  0..255" is therefore proved only for byte input (`StepKeepsBytes`,
  `RunLoopKeepsBytes`).
- The condition `step() && steps < maxSteps` calls `step` before it compares
  the counter. A run that hits the limit has therefore executed
  `MaxSteps + 1` instructions.
- Reaching the limit is not an error. `runAll` sets `halted` and returns the
  output, and the model does the same.
- `step` never reads `halted`. Calling it again after the limit continues
  execution.

## Model

| member | source | states |
|---|---|---|
| `Program.Filter` | BrainfuckInterpreter.js:14 | the result contains only instruction characters, is no longer than the source, and keeps every instruction character with its multiplicity |
| `Program.FilterAppend` | BrainfuckInterpreter.js:14 | filtering distributes over concatenation, so the kept characters stay in their original relative order |
| `Program.FilterKeepsProgram` | BrainfuckInterpreter.js:14 | a text made only of instruction characters is left unchanged |
| `Program.FilterIdempotent` | BrainfuckInterpreter.js:14 | filtering twice equals filtering once |
| `JumpTable.BuildLoopMap` | BrainfuckInterpreter.js:32-51 | succeeds exactly when the brackets are balanced, and then returns a table linking each bracket to its match; otherwise fails with `UnmatchedClose(i)`, where `i` is the first `]` with nothing pending, or with `UnmatchedOpen(n)`, where `n` `[` remain open |
| `JumpTable.CloseIsUnique` | BrainfuckInterpreter.js:36-44 | a `[` has at most one matching `]`, so the pairing is determined by the program |
| `JumpTable.OpenIsUnique` | BrainfuckInterpreter.js:36-44 | a `]` has at most one matching `[` |
| `JumpTable.JumpTableSymmetric` | BrainfuckInterpreter.js:43-44 | `map[map[i]] == i` for every bracket `i`; a `[` maps forward to a `]`, and a `]` maps backward to a `[` |
| `Semantics.Step` | BrainfuckInterpreter.js:57-122 | a step keeps the jump table valid and `ip` within the program length, and never changes the program or the tape length |
| `Semantics.RunLoop` | BrainfuckInterpreter.js:131-137 | the loop counts at most `MaxSteps` steps and keeps the state well formed |
| `Semantics.Run` | BrainfuckInterpreter.js:129-143 | `runAll` keeps the state well formed, the program unchanged and the tape length fixed |
| `Semantics.FinishesUnfold` | BrainfuckInterpreter.js:131-137 | one turn of the loop: `step` is called before the counter is compared; the loop goes on from the next state only when the program was running and the counter was below the limit, and otherwise ends with the state after that call |
| `Semantics.InitialIsWellFormed` | BrainfuckInterpreter.js:16-21 | the initial state has 30000 cells, all bytes, and is well formed |
| `Semantics.StepAtEnd` | BrainfuckInterpreter.js:58-61 | at or past the end of the program, `step` sets `halted` and changes nothing else |
| `Semantics.StepFrame` | BrainfuckInterpreter.js:63-121 | only the current cell can change, and only through `+`, `-` or `,`; `.` appends exactly the current cell, and nothing else writes output; only `<` and `>` move the pointer; only `,` consumes input; `halted` is only ever set |
| `Semantics.StepMovesPointer` | BrainfuckInterpreter.js:66-78 | `<` sets `ptr` to `max(0, ptr-1)`, so it is a no-op at 0; `>` increments `ptr` without clamping |
| `Semantics.StepReadsInput` | BrainfuckInterpreter.js:95-99 | `,` moves the head of the input into the current cell, or stores 0 when the input is empty |
| `Semantics.IncrementWraps` | BrainfuckInterpreter.js:80-83 | `+` on a byte cell adds one modulo 256 (255 becomes 0) |
| `Semantics.DecrementWraps` | BrainfuckInterpreter.js:85-88 | `-` on a byte cell subtracts one modulo 256 (0 becomes 255) |
| `Semantics.IncrementThenDecrement` | BrainfuckInterpreter.js:80-88 | `+` followed by `-` restores a byte cell and the whole tape |
| `Semantics.DecrementThenIncrement` | BrainfuckInterpreter.js:80-88 | `-` followed by `+` restores a byte cell and the whole tape |
| `Semantics.StepControlFlow` | BrainfuckInterpreter.js:101-121 | `[` on a zero cell resumes just after its matching `]`; `]` on a non-zero cell resumes just after its matching `[`; every other running step moves to `ip + 1` |
| `Semantics.StepKeepsBytes` | BrainfuckInterpreter.js:80-99 | with byte input, the cells, the pending input and the output stay in 0..255 |
| `Semantics.RunLoopStops` | BrainfuckInterpreter.js:134-136 | the loop ends either at the step limit, or at the end of the program with `halted` set |
| `Semantics.RunHalts` | BrainfuckInterpreter.js:129-143 | after `runAll`, `halted` is true; the program either ended or reached the step limit |
| `Semantics.RunLoopExtends` | BrainfuckInterpreter.js:90-99 | over a run, output is only appended to, and input is only consumed from the front |
| `Semantics.RunLoopKeepsBytes` | BrainfuckInterpreter.js:131-137 | with byte input, the cells stay in 0..255 for the whole run |
| `Interpreter.BrainfuckInterpreter.Init` | BrainfuckInterpreter.js:12-22 | constructs the initial state: 30000 zero cells, `ptr = ip = 0`, empty output, not halted, the given input and jump table |
| `Interpreter.BrainfuckInterpreter.Step` | BrainfuckInterpreter.js:57-122 | the in-place update performs exactly `Semantics.Step`, and the method returns true exactly when `ip` was before the end of the program |
| `Interpreter.BrainfuckInterpreter.StepUntilStop` | BrainfuckInterpreter.js:131-137 | the in-place loop ends in exactly the state and with exactly the counter that `Semantics.RunLoop` gives for the starting state |
| `Interpreter.BrainfuckInterpreter.RunAll` | BrainfuckInterpreter.js:129-144 | the in-place update performs exactly `Semantics.Run`; afterwards `halted` is true and the result is the accumulated output |
| `Interpreter.BrainfuckInterpreter.GetState` | BrainfuckInterpreter.js:150-158 | the snapshot reports the current registers; with the invariant, it shows the whole 30000-cell tape and an `ip` within the program |
| `Interpreter.NewInterpreter` | BrainfuckInterpreter.js:12-22 | succeeds exactly when the filtered program is balanced; a failure explains the unmatched bracket and builds no machine; on success the machine holds the filtered code and is in its initial state |
| `InputDivision.SplitPoint` | test_input_problem.js:182 | the split point is `ceil(n/2)`: `n <= 2k <= n+1` |
| `InputDivision.DivideInput` | test_input_problem.js:171-187 | parent followed by child equals the input; for length 0 or 1 the parent is empty (so the child is the input); for length 2 or more the parent has `ceil(n/2)` elements and the child has the rest, in order |
| `InputDivision.DivisionIsBalanced` | test_input_problem.js:182-186 | for length 2 or more, both parts are non-empty and the parent is longer than the child by 0 or 1 |
| `InputDivision.DivisionIsExclusive` | test_input_problem.js:171-187 | the two parts together hold every input element exactly once |

## Left out

- Interpreter.BrainfuckInterpreter.Step: requires `CellInRange`. An instruction that reads or writes the current cell needs `ptr < 30000`. In JavaScript, `>` past the tape only warns (BrainfuckInterpreter.js:72). After that, the cell is `undefined` and the arithmetic yields `NaN`. The model does not reproduce that behaviour.
- Interpreter.BrainfuckInterpreter.RunAll: requires `SafeFrom`, the same pointer policy applied to every step the run will take.
- The fork instruction and the thread layer (`threadManager`, `runAllThreads`, `getAllThreadStates`) are not part of this model. They are called from test_input_problem.js but are not defined in BrainfuckInterpreter.js, and the filter removes the fork character anyway.
- Console diagnostics, including the out-of-range warning and the step-limit message, are left out because they are I/O.
- Strings are modelled as code-unit sequences. The input string is given already split into units (`input.split('')`), and an output character is its code unit. `String.fromCharCode` and `charCodeAt` are not modelled beyond that.
- Interpreter.BrainfuckInterpreter.GetState: returns a copy of the tape. JavaScript returns the live `memory` array, so aliasing with the interpreter is not modelled.
- `divideInput` returns the child's part as a joined string and the parent's part as an array. Both are code-unit sequences here, which is the same content because every element is one character.
- update-version.js is build tooling (file I/O, regular expressions, a wall-clock date) and is not part of this model.
- The demo and console functions of test_input_problem.js are not modelled; only `divideInput` is.
