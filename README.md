# Deterministic single-tape Turing machine interpreter

This project models the `TuringMachine` class of `turing-machine-app.py`
and the three example machines built from it.

The class keeps three pieces of mutable state:

- a sparse tape: a dictionary from integer positions to symbols, where a missing key reads as the blank symbol;
- the head position;
- the control state.

`run` resets the tape to the input. It then repeats one pass until the state becomes the accept or the reject state:

1. read the cell under the head;
2. look up the transition for (state, symbol);
3. display the tape;
4. write the rule's symbol;
5. move the head;
6. change the state.

The loop also stops when no transition exists; the state then becomes the reject state. After the loop `run` displays the final tape and returns "Accepted" or "Rejected" by the final state. When 1000 transitions have been made and the state is still neither, `run` instead returns the step-limit verdict at once, without the final display.

The project has five modules:

- `Tape` (`tape.dfy`): the tape dictionary (`Cells`) and the dictionary reads.
  - The display reads every cell from the leftmost key (or the head) to the rightmost key (or the head).
  - Reading a missing key inserts it holding the blank. This is the dictionary's default-value behaviour, so every read that can insert a key does so in the model.
  - `Row(s, off)`: a tape with no gap, holding `s` from cell `off` on.
- `Semantics` (`semantics.dfy`): what one call of `run` computes, as functions on configurations (tape, head, state).
  - `Step` is one pass of the loop body.
  - `Exec` is the loop with its step ceiling.
  - `Finish` is the epilogue.
  - Exceptions are outcomes:
    - `Raised(InvalidMove(m))` is the error raised for a move other than R, L and N;
    - `Raised(NotATuple)` is the failed unpacking of the bare blank that the display returns for an empty dictionary.
- `Simulator` (`turing_machine.dfy`): the class itself.
  - Its fields are the tape dictionary, the head and the state. Its methods change them in place.
  - `Run` is a `while` loop. It is proved to end in the outcome and the configuration that `Semantics.Run` gives.
- `Rows` (`rows.dfy`): the loop on a tape with no gap holding a string. It is proved equal to `Exec` on such tapes. The proofs about the examples use it.
- `Examples` (`examples.dfy`): the three transition tables (`Delta1`, `Delta2` and `Delta3`) and their runs.

The tape is a dictionary keyed by position. States are strings and symbols are characters. The transitions are a dictionary, so there is at most one rule per (state, symbol).

## Model

| member | source | states |
|---|---|---|
| Simulator.TuringMachine.constructor | turing-machine-app.py:22-37 | the machine holds the given transitions and the given start, accept, reject and blank; its tape is empty, its head is at 0, its state is the start state |
| Simulator.TuringMachine.InitializeTape | turing-machine-app.py:39-45 | afterwards the tape holds exactly the keys 0 to \|input\|-1, cell i holds input[i], and every other cell reads blank; the head is 0 and the state is the start state |
| Semantics.InitialTape | turing-machine-app.py:41-43 | the initial dictionary's keys are exactly 0 to \|input\|-1; cell i reads input[i] and every other cell reads blank |
| Simulator.TuringMachine.GetCurrentSymbol | turing-machine-app.py:47-49 | returns the stored symbol, or blank for a missing key; the tape afterwards also holds the read key, no cell's symbol changes, and head and state are unchanged |
| Tape.Touch | turing-machine-app.py:49 | the dictionary after a read has the old keys plus the read one, and every cell reads as before |
| Simulator.TuringMachine.MoveHead | turing-machine-app.py:51-61 | succeeds exactly for R, L and N; R adds 1 to the head, L subtracts 1, N and any invalid move leave it unchanged; the tape and the state are untouched |
| Semantics.MoveToCases | turing-machine-app.py:53-61 | a move succeeds exactly for R, L and N; R gives head+1, L head-1, N the same head |
| Simulator.MinKey | turing-machine-app.py:68 | returns a key of the non-empty set that is at most every key |
| Simulator.MaxKey | turing-machine-app.py:69 | returns a key of the non-empty set that is at least every key |
| Simulator.TuringMachine.GetTapeString | turing-machine-app.py:63-80 | returns the bare blank exactly for an empty dictionary; otherwise it returns the symbols from min(least key, head) to max(greatest key, head), with the head offset and the start; every shown cell is read and so inserted, no symbol changes, and head and state are unchanged |
| Tape.TapeStringShape | turing-machine-app.py:63-80 | the display of an empty dictionary is the blank alone; on a non-empty one, the shown string starts at or left of both the head and every key, ends at or right of them, has the head offset inside the string with the head's symbol at that offset, and holds at every offset the symbol of that cell |
| Tape.AfterShow | turing-machine-app.py:75 | on a non-empty dictionary, the keys after the display are exactly the shown range, and every cell reads as before |
| Tape.ShownFromBounds | turing-machine-app.py:68-80 | a string read cell by cell over min(least key, head) to max(greatest key, head) is the display, and filling that range is the dictionary the display leaves |
| Tape.Read | turing-machine-app.py:47-49 | the definition of a dictionary read: the stored symbol, or blank for a missing key; `Tape.Touch` states what the read does to the keys |
| Tape.TapeStringOf | turing-machine-app.py:63-80 | the value the display returns, which is the bare blank exactly for an empty dictionary; `Tape.TapeStringShape` states its shape |
| Semantics.MoveTo | turing-machine-app.py:51-61 | the definition of the head arithmetic, with None for a move the source rejects; `Semantics.MoveToCases` states its cases |
| Semantics.Step | turing-machine-app.py:94-119 | the definition of one pass of the loop body; `Semantics.StepEffect` states its effect |
| Semantics.Finish | turing-machine-app.py:121-132 | the definition of the epilogue after the loop; `Semantics.FinishEffect` states its effect |
| Semantics.Run | turing-machine-app.py:82-132 | the definition of a whole run: the loop entered with the initial tape, head 0, the start state and no steps; `Semantics.RunNotATuple` and `Rows.RunRow` state its properties |
| Semantics.VerdictText | turing-machine-app.py:92-132 | the definition of the string `run` returns for each verdict; `Semantics.VerdictTextInjective` states that it loses no information |
| Semantics.MaxSteps | turing-machine-app.py:37 | the definition of the machine's safety limit of 1000 transitions |
| Semantics.Terminal | turing-machine-app.py:89 | the definition of the loop's stopping test: the state is the accept or the reject state |
| Examples.Delta1 | turing-machine-app.py:140-144 | the definition of the first-one replacer's transition table, entry by entry |
| Examples.Delta2 | turing-machine-app.py:151-172 | the definition of the a^n b^n recogniser's transition table, entry by entry |
| Examples.Delta3 | turing-machine-app.py:179-189 | the definition of the binary incrementer's transition table, entry by entry |
| Examples.ReplaceOne | turing-machine-app.py:145 | the definition of the replacer machine: Delta1 with start q0, accept q_accept, reject q_reject and the default blank B |
| Examples.AnBn | turing-machine-app.py:173 | the definition of the recogniser machine: Delta2 with start q0, accept q_accept, reject q_reject and the default blank B |
| Examples.Incrementer | turing-machine-app.py:190 | the definition of the incrementer machine: Delta3 with start q0, accept q_accept, reject q_reject and the default blank B |
| Simulator.TuringMachine.Run | turing-machine-app.py:82-132 | the verdict and the final tape, head and state are those of `Semantics.Run`; the verdict is never "Unknown Halt State"; a returned verdict is Accepted exactly when the final state is the accept state |
| Semantics.StepEffect | turing-machine-app.py:94-119 | one pass: with no rule for (state, symbol) the state becomes reject, and the head and every cell's symbol stay as they were; otherwise the rule's symbol is written at the old head, no other cell changes symbol, and either the move is valid and the head moves and the state becomes the rule's next state, or the move is invalid and head and state stay |
| Semantics.FinishEffect | turing-machine-app.py:121-132 | the epilogue keeps the state, the head, the step count and every cell's symbol; it raises exactly on an empty dictionary; otherwise it reports Accepted in the accept state, Rejected in the reject state, and Unknown Halt State in any other state |
| Semantics.Exec | turing-machine-app.py:87-119 | the loop never lowers the step count and never takes it past the ceiling of 1000 transitions |
| Semantics.ExecVerdicts | turing-machine-app.py:89-132 | the loop never ends with Unknown Halt State; a returned verdict is Accepted exactly in the accept state, Rejected exactly in a reject state that is not also the accept state, and the step-limit verdict exactly in neither, in which case it names the final state |
| Semantics.ExecCeiling | turing-machine-app.py:87-92 | the step-limit verdict is returned exactly when 1000 transitions were made and the state is neither accept nor reject |
| Semantics.ExecNotATuple | turing-machine-app.py:87-122 | the final unpacking fails exactly when the loop is entered with an empty dictionary in a terminal state, since every pass reads the head's cell |
| Semantics.RunNotATuple | turing-machine-app.py:82-122 | a whole run raises at the final unpacking exactly when the input is empty and the start state is the accept or the reject state |
| Semantics.NoRuleRejects | turing-machine-app.py:97-130 | with no rule for the symbol under the head, the run stops with no further transition, in the reject state, with the head and every cell's symbol unchanged; its verdict is the one an explicit move into the reject state gets |
| Semantics.VerdictTextInjective | turing-machine-app.py:92-132 | the strings `run` returns are different for different verdicts |
| Rows.ExecRow | turing-machine-app.py:87-119 | on a tape with no gap and the head inside it or just beside it, the loop of `Semantics.Exec` is the loop on strings of `Rows.RowExec` |
| Rows.RunRow | turing-machine-app.py:82-132 | a whole run is the string loop started on the input at cell 0 |
| Rows.RunEnds | turing-machine-app.py:82-132 | a run's outcome, head, state, step count and final tape are those of the string loop |
| Rows.StepRow | turing-machine-app.py:94-117 | one pass on a tape with no gap is one step of the string loop: reading a cell just outside the string adds a blank at that end, and the write lands in the string |
| Rows.ScanRight | turing-machine-app.py:89-119 | a state whose rules move right and write back the symbol read crosses those cells with one transition each, and the tape does not change |
| Rows.ScanLeft | turing-machine-app.py:89-119 | the same for a state that moves left |
| Examples.IncrementValue | turing-machine-app.py:185-188 | the carry rule of the incrementer adds one to the value of a binary string |
| Examples.IncrementerCarries | turing-machine-app.py:186-188 | whenever its transitions, one per trailing one and one more, fit the ceiling: from the last digit in state q_carry, the incrementer turns the trailing ones into zeros, then turns the zero before them, or the blank left of the number, into a one, and accepts |
| Examples.IncrementerScans | turing-machine-app.py:181-183 | in state q0 the incrementer moves right over the digits to the blank after them, then turns left into q_carry |
| Examples.IncrementerIsCorrect | turing-machine-app.py:179-189 | on every binary input whose run fits the ceiling, that is \|s\| + (number of trailing ones) + 2 <= 1000 transitions, the incrementer accepts in q_accept, with the successor of the input followed by one blank on the tape, starting at cell \|s\| - \|successor\| |
| Examples.IncrementerOn101 | turing-machine-app.py:179-189 | on 101 it accepts, with cells 0 to 2 holding 110 and cell 3 the blank it read |
| Examples.IncrementerOn111 | turing-machine-app.py:179-189 | on 111 it accepts, with cells -1 to 2 holding 1000 (the tape grows left) and cell 3 the blank it read |
| Examples.ReplacesRow | turing-machine-app.py:140-144 | on a contiguous tape, the replacer skips the leading zeros, then decides on the first other cell |
| Examples.ReplaceOneIsCorrect | turing-machine-app.py:140-145 | on every input whose run fits the ceiling, that is (number of leading zeros) + 1 <= 1000 transitions: if the first non-zero is a 1, it becomes 0 and the run accepts with the head just right of it; if the input is all zeros, the run rejects on the blank after it; if the first non-zero is another symbol, the run rejects with the tape unchanged, through the rule for the blank symbol when that symbol is B and for want of a rule otherwise |
| Examples.Round | turing-machine-app.py:152-165 | one round of the a^n b^n recogniser marks the leftmost a as X and the leftmost b as Y in 2n+1 transitions, and returns to the cell right of the X's |
| Examples.Rounds | turing-machine-app.py:151-172 | from m marked pairs the remaining rounds mark every pair; then the recogniser moves over the Y's and accepts on the blank |
| Examples.AnBnIsCorrect | turing-machine-app.py:151-173 | on a^n b^n, n >= 1, whenever 2n^2+2n+1 <= 1000, the recogniser accepts after 2n^2+2n+1 transitions, leaving X^n Y^n and one blank on the tape from cell 0 |

## Left out

- The `states`, `alphabet` and `description` fields: they are stored but never consulted by the logic.
- The `output_callback` text: the model has no trace of what is printed.
- The widgets UI and `sys.setrecursionlimit`: they are outside the interpreter.
- Symbols are single characters, and states and moves are strings; the example tables use only these. The source also runs with longer string symbols and with numeric states. With a blank of exactly three characters, the empty-tape unpacking at turing-machine-app.py:122 would succeed instead of raising, so the `Raised(NotATuple)` outcome depends on single-character symbols. A symbol that is not a string makes the display at turing-machine-app.py:80 raise a TypeError, and a state with no format support makes the step display at turing-machine-app.py:107 raise one; the model does not capture these errors.
- Simulator.TuringMachine.Run: it returns the `Outcome` rather than the verdict string. `Semantics.VerdictText` gives the string, and `Semantics.VerdictTextInjective` shows that no information is lost.
- Simulator.TuringMachine.GetTapeString: it visits the keys in the order `MinKey` and `MaxKey` choose; the source's dictionary iteration order does not change the result.
- A rule whose move is not R, L or N raises an exception in the source. In the model this is the outcome `Raised(InvalidMove(m))`, with the configuration at that moment.
- The empty-tape display returns a bare blank, and the final unpacking then fails. The model states this as the outcome `Raised(NotATuple)`; it does not guess at an intended fix.
- Examples.AnBnIsCorrect: it proves acceptance of a^n b^n only. Rejection is not proved. It cannot hold for every string outside the language: the table as written also accepts inputs that hold X or Y, such as "Y", "XY" and "aXb". It could hold only for inputs over {a, b}.
- Examples.IncrementerIsCorrect, Examples.ReplaceOneIsCorrect and Examples.AnBnIsCorrect: each requires exactly that its run's transitions fit in the 1000-transition ceiling. None of them states the step-limit verdict that a longer run gets.
