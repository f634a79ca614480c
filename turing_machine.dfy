/**
 * The interpreter object. Its tape dictionary, head position and control
 * state are fields that the methods update in place; the transition
 * dictionary and the start, accept, reject and blank symbols are fixed
 * when the machine is built. `Run` is proved to compute `Semantics.Run`.
 */
module Simulator {
  import opened Tape
  import opened Semantics

  /** The least key of a non-empty dictionary, found by visiting every key. */
  method MinKey(keys: set<int>) returns (m: int)
    requires keys != {}
    ensures m in keys && forall k :: k in keys ==> m <= k
  {
    NonEmptyHasElement(keys);
    m :| m in keys;
    var rest := keys - {m};
    while rest != {}
      invariant rest <= keys && m in keys
      invariant forall k :: k in keys && k !in rest ==> m <= k
      decreases rest
    {
      NonEmptyHasElement(rest);
      var k :| k in rest;
      if k < m {
        m := k;
      }
      rest := rest - {k};
    }
  }

  /** The greatest key of a non-empty dictionary, found by visiting every key. */
  method MaxKey(keys: set<int>) returns (m: int)
    requires keys != {}
    ensures m in keys && forall k :: k in keys ==> k <= m
  {
    NonEmptyHasElement(keys);
    m :| m in keys;
    var rest := keys - {m};
    while rest != {}
      invariant rest <= keys && m in keys
      invariant forall k :: k in keys && k !in rest ==> k <= m
      decreases rest
    {
      NonEmptyHasElement(rest);
      var k :| k in rest;
      if m < k {
        m := k;
      }
      rest := rest - {k};
    }
  }

  class TuringMachine {
    const delta: Delta
    const startState: string
    const acceptState: string
    const rejectState: string
    const blankSymbol: char
    const maxSteps: nat := MaxSteps

    var tape: Cells
    var headPosition: int
    var currentState: string

    /** The fixed part of the machine, as the semantics sees it. */
    function AsProgram(): Program {
      Program(delta, startState, acceptState, rejectState, blankSymbol)
    }

    constructor (transitions: Delta, start: string, accept: string, reject: string, blank: char := 'B')
      ensures AsProgram() == Program(transitions, start, accept, reject, blank)
      ensures tape == map[] && headPosition == 0 && currentState == start
    {
      delta := transitions;
      startState := start;
      acceptState := accept;
      rejectState := reject;
      blankSymbol := blank;
      tape := map[];
      headPosition := 0;
      currentState := start;
    }

    /** Clears the tape, writes `input` from cell 0 on, and resets head and state. */
    method InitializeTape(input: string)
      modifies this
      ensures tape == InitialTape(input)
      ensures headPosition == 0 && currentState == startState
    {
      tape := map[];
      for i := 0 to |input|
        invariant forall j :: j in tape <==> 0 <= j < i
        invariant forall j :: 0 <= j < i ==> tape[j] == input[j]
      {
        tape := tape[i := input[i]];
      }
      headPosition := 0;
      currentState := startState;
    }

    /** Reads the cell under the head; a missing cell is inserted holding the blank. */
    method GetCurrentSymbol() returns (symbol: char)
      modifies this
      ensures symbol == Read(old(tape), headPosition, blankSymbol)
      ensures tape == Touch(old(tape), headPosition, blankSymbol)
      ensures unchanged(this`headPosition, this`currentState)
    {
      if headPosition !in tape {
        tape := tape[headPosition := blankSymbol];
      }
      symbol := tape[headPosition];
    }

    /** Moves the head by R (+1), L (-1) or N (0); any other move fails
        (a ValueError in the source) and leaves the head where it was. */
    method MoveHead(move: string) returns (ok: bool)
      modifies this
      ensures ok <==> move == "R" || move == "L" || move == "N"
      ensures move == "R" ==> headPosition == old(headPosition) + 1
      ensures move == "L" ==> headPosition == old(headPosition) - 1
      ensures !(move == "R" || move == "L") ==> headPosition == old(headPosition)
      ensures MoveTo(old(headPosition), move) == if ok then Some(headPosition) else None
      ensures unchanged(this`tape, this`currentState)
    {
      ok := true;
      if move == "R" {
        headPosition := headPosition + 1;
      } else if move == "L" {
        headPosition := headPosition - 1;
      } else if move == "N" {
      } else {
        ok := false;
      }
    }

    /** Renders the tape from the leftmost of the keys and the head to the
        rightmost of them, reading (and so inserting) every cell in between. */
    method GetTapeString() returns (shown: TapeString)
      modifies this
      ensures shown == TapeStringOf(old(tape), headPosition, blankSymbol)
      ensures tape == AfterShow(old(tape), headPosition, blankSymbol)
      ensures unchanged(this`headPosition, this`currentState)
    {
      if tape == map[] {
        return Bare([blankSymbol]);
      }
      var minPos := MinKey(tape.Keys);
      var maxPos := MaxKey(tape.Keys);
      var tapeStart := Min(minPos, headPosition);
      var tapeEnd := Max(maxPos, headPosition) + 1;
      ghost var t0 := tape;
      var tapeList: string := [];
      for i := tapeStart to tapeEnd
        invariant |tapeList| == i - tapeStart
        invariant forall q :: tapeStart <= q < i ==> tapeList[q - tapeStart] == Read(t0, q, blankSymbol)
        invariant tape == Fill(t0, tapeStart, i, blankSymbol)
        invariant headPosition == old(headPosition) && currentState == old(currentState)
      {
        if i !in tape {
          tape := tape[i := blankSymbol];
        }
        tapeList := tapeList + [tape[i]];
      }
      var headOffset := headPosition - tapeStart;
      shown := Shown(tapeList, headOffset, tapeStart);
      ShownFromBounds(t0, headPosition, tapeStart, tapeEnd, tapeList, blankSymbol);
    }

    /** Simulates the machine on `input`: resets the tape, then applies
        transitions until the state is the accept or reject state, no
        transition applies, or `maxSteps` transitions have been made. */
    method Run(input: string) returns (outcome: Outcome)
      modifies this
      ensures var r := Semantics.Run(AsProgram(), input);
        && outcome == r.outcome
        && tape == r.config.tape && headPosition == r.config.head && currentState == r.config.state
      ensures outcome != Returned(UnknownHaltState)
      ensures outcome.Returned? ==> (outcome.verdict == Accepted <==> currentState == acceptState)
    {
      InitializeTape(input);
      ghost var p := AsProgram();
      ghost var result := Semantics.Run(p, input);
      ExecVerdicts(p, InitConfig(p, input), 0);
      var stepCount: nat := 0;
      while currentState != acceptState && currentState != rejectState
        invariant stepCount <= maxSteps
        invariant Exec(p, Config(tape, headPosition, currentState), stepCount) == result
        decreases maxSteps - stepCount
      {
        if stepCount >= maxSteps {
          return Returned(HaltedMaxSteps(currentState));
        }
        ghost var c := Config(tape, headPosition, currentState);
        var currentSymbol := GetCurrentSymbol();
        var transitionKey := (currentState, currentSymbol);
        if transitionKey !in delta {
          currentState := rejectState;
          assert Finish(p, Config(tape, headPosition, currentState), stepCount) == result;
          break;
        }
        var rule := delta[transitionKey];
        var shown := GetTapeString();
        assert shown.Shown?;
        tape := tape[headPosition := rule.write];
        var moved := MoveHead(rule.move);
        if !moved {
          return Raised(InvalidMove(rule.move));
        }
        currentState := rule.next;
        stepCount := stepCount + 1;
        assert Step(p, c) == Moved(Config(tape, headPosition, currentState));
      }
      assert Finish(p, Config(tape, headPosition, currentState), stepCount) == result;
      var finalTape := GetTapeString();
      if finalTape.Bare? {
        return Raised(NotATuple);
      }
      if currentState == acceptState {
        outcome := Returned(Accepted);
      } else if currentState == rejectState {
        outcome := Returned(Rejected);
      } else {
        assert false;
        outcome := Returned(UnknownHaltState);
      }
    }
  }
}
