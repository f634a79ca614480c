/**
 * What one call of `run` computes, stated as functions over configurations:
 * `Step` is one pass through the body of the simulation loop, `Exec` the loop
 * itself with its step ceiling, and `Finish` the epilogue that renders the
 * final tape and chooses the verdict.
 */
module Semantics {
  import opened Tape

  datatype Option<T> = None | Some(value: T)

  /** The right-hand side of a transition: (next_state, symbol_write, move). */
  datatype Rule = Rule(next: string, write: char, move: string)

  /** The transition dictionary, keyed by (current_state, symbol_read). */
  type Delta = map<(string, char), Rule>

  /** The parts of a machine that `run` consults. */
  datatype Program = Program(delta: Delta, start: string, accept: string, reject: string, blank: char)

  /** The machine's safety limit on the number of transitions. */
  const MaxSteps: nat := 1000

  /** The mutable part of a machine: tape dictionary, head position, control state. */
  datatype Config = Config(tape: Cells, head: int, state: string)

  /** Why a run ends with an exception instead of a verdict. */
  datatype Error =
    | InvalidMove(move: string)   // the ValueError raised for a move other than R, L, N
    | NotATuple                   // unpacking the bare string returned for an empty tape

  datatype Verdict = Accepted | Rejected | HaltedMaxSteps(state: string) | UnknownHaltState

  datatype Outcome = Returned(verdict: Verdict) | Raised(error: Error)

  /** How a run ends: its outcome, the machine's configuration then, and the step counter. */
  datatype Final = Final(outcome: Outcome, config: Config, steps: nat)

  /** The string `run` returns for a verdict. */
  function VerdictText(v: Verdict): string {
    match v
    case Accepted => "Accepted"
    case Rejected => "Rejected"
    case HaltedMaxSteps(state) => "Halted (Max Steps) - State: " + state
    case UnknownHaltState => "Unknown Halt State"
  }

  /** Different verdicts are reported by different strings. */
  lemma VerdictTextInjective(v: Verdict, w: Verdict)
    ensures VerdictText(v) == VerdictText(w) ==> v == w
  {
    var prefix := "Halted (Max Steps) - State: ";
    if v.HaltedMaxSteps? && w.HaltedMaxSteps? && VerdictText(v) == VerdictText(w) {
      assert v.state == VerdictText(v)[|prefix|..];
      assert w.state == VerdictText(w)[|prefix|..];
    } else if v.HaltedMaxSteps? {
      assert VerdictText(v)[0] == 'H';
    } else if w.HaltedMaxSteps? {
      assert VerdictText(w)[0] == 'H';
    }
  }

  /** The states at which the simulation loop stops. */
  predicate Terminal(p: Program, state: string) {
    state == p.accept || state == p.reject
  }

  /** The head position after a move, or None for a move the machine rejects. */
  function MoveTo(head: int, move: string): Option<int> {
    if move == "R" then Some(head + 1)
    else if move == "L" then Some(head - 1)
    else if move == "N" then Some(head)
    else None
  }

  /** The tape holding the input string from cell 0 on, and no other key. */
  function InitialTape(input: string): (t: Cells)
    ensures forall i :: i in t <==> 0 <= i < |input|
    ensures forall blank, i :: Read(t, i, blank) == if 0 <= i < |input| then input[i] else blank
  {
    Row(input, 0)
  }

  /** The configuration after the tape is initialised with `input`. */
  function InitConfig(p: Program, input: string): Config {
    Config(InitialTape(input), 0, p.start)
  }

  /** What one pass through the loop body leads to. */
  datatype StepResult =
    | NoRule(next: Config)                 // no transition for (state, symbol): state set to reject
    | Moved(next: Config)                  // the transition was applied
    | BadMove(next: Config, move: string)  // the symbol was written, then the move raised

  /** One pass through the loop body: read the head's cell, look the
      transition up, display the tape, write, move, change state. */
  ghost function Step(p: Program, c: Config): StepResult {
    var symbol := Read(c.tape, c.head, p.blank);
    var t1 := Touch(c.tape, c.head, p.blank);
    if (c.state, symbol) !in p.delta then NoRule(Config(t1, c.head, p.reject))
    else
      var rule := p.delta[(c.state, symbol)];
      var t2 := AfterShow(t1, c.head, p.blank);
      var t3 := t2[c.head := rule.write];
      match MoveTo(c.head, rule.move)
      case None => BadMove(Config(t3, c.head, c.state), rule.move)
      case Some(h) => Moved(Config(t3, h, rule.next))
  }

  /** The epilogue after the loop: display the final tape, then choose the verdict. */
  ghost function Finish(p: Program, c: Config, steps: nat): Final {
    match TapeStringOf(c.tape, c.head, p.blank)
    case Bare(_) => Final(Raised(NotATuple), c, steps)
    case Shown(_, _, _) =>
      var verdict :=
        if c.state == p.accept then Accepted
        else if c.state == p.reject then Rejected
        else UnknownHaltState;
      Final(Returned(verdict), c.(tape := AfterShow(c.tape, c.head, p.blank)), steps)
  }

  /** The simulation loop entered at configuration `c` with `steps` transitions done. */
  ghost function Exec(p: Program, c: Config, steps: nat): (r: Final)
    requires steps <= MaxSteps
    ensures steps <= r.steps <= MaxSteps
    decreases MaxSteps - steps
  {
    if Terminal(p, c.state) then Finish(p, c, steps)
    else if steps >= MaxSteps then Final(Returned(HaltedMaxSteps(c.state)), c, steps)
    else
      match Step(p, c)
      case NoRule(c') => Finish(p, c', steps)
      case BadMove(c', m) => Final(Raised(InvalidMove(m)), c', steps)
      case Moved(c') => Exec(p, c', steps + 1)
  }

  /** A whole run on `input`. */
  ghost function Run(p: Program, input: string): Final {
    Exec(p, InitConfig(p, input), 0)
  }

  /** One pass through the loop body. With no transition for the symbol read,
      the state becomes the reject state and no cell changes. Otherwise the
      rule's symbol is written at the old head position and no other cell
      changes; then either the head moves and the state becomes the rule's
      next state, or the move is not one of R, L, N and the head and state
      stay as they were. */
  lemma StepEffect(p: Program, c: Config)
    ensures var symbol := Read(c.tape, c.head, p.blank);
      var r := Step(p, c);
      && (r.NoRule? <==> (c.state, symbol) !in p.delta)
      && c.head in r.next.tape
      && (r.NoRule? ==>
            && r.next.head == c.head && r.next.state == p.reject
            && (forall q :: Read(r.next.tape, q, p.blank) == Read(c.tape, q, p.blank)))
      && (!r.NoRule? ==>
            var rule := p.delta[(c.state, symbol)];
            && (forall q :: q != c.head ==> Read(r.next.tape, q, p.blank) == Read(c.tape, q, p.blank))
            && r.next.tape[c.head] == rule.write
            && (r.Moved? <==> MoveTo(c.head, rule.move).Some?)
            && (r.Moved? ==> r.next.head == MoveTo(c.head, rule.move).value && r.next.state == rule.next)
            && (r.BadMove? ==> r.next.head == c.head && r.next.state == c.state && r.move == rule.move))
  {
    var t1 := Touch(c.tape, c.head, p.blank);
    assert c.head in t1;
  }

  /** The head arithmetic of a move: R is one cell right, L one cell left,
      N stays, and nothing else is a move. */
  lemma MoveToCases(head: int, move: string)
    ensures MoveTo(head, move).Some? <==> move in {"R", "L", "N"}
    ensures move == "R" ==> MoveTo(head, move) == Some(head + 1)
    ensures move == "L" ==> MoveTo(head, move) == Some(head - 1)
    ensures move == "N" ==> MoveTo(head, move) == Some(head)
  {
  }

  /** The epilogue changes neither the state, the head nor any cell's symbol;
      it raises exactly on an empty dictionary and otherwise reports the state. */
  lemma FinishEffect(p: Program, c: Config, steps: nat)
    ensures var r := Finish(p, c, steps);
      && r.config.state == c.state && r.config.head == c.head && r.steps == steps
      && (r.outcome.Raised? <==> c.tape == map[])
      && (r.outcome.Raised? ==> r.outcome.error == NotATuple)
      && (r.outcome.Returned? ==>
            r.outcome.verdict == (if c.state == p.accept then Accepted else if c.state == p.reject then Rejected else UnknownHaltState))
      && (forall q :: Read(r.config.tape, q, p.blank) == Read(c.tape, q, p.blank))
  {
  }

  /** The verdicts of a run: never "Unknown Halt State"; "Accepted" exactly
      when the machine ends in the accept state; "Rejected" exactly when it
      ends in the reject state that is not also the accept state; the
      step-limit verdict exactly when it ends in neither, and then it names
      that state. */
  lemma {:induction false} ExecVerdicts(p: Program, c: Config, steps: nat)
    requires steps <= MaxSteps
    ensures Exec(p, c, steps).outcome != Returned(UnknownHaltState)
    ensures var r := Exec(p, c, steps);
      r.outcome.Returned? ==> (r.outcome.verdict == Accepted <==> r.config.state == p.accept)
    ensures var r := Exec(p, c, steps);
      r.outcome.Returned? ==> (r.outcome.verdict == Rejected <==> r.config.state == p.reject && r.config.state != p.accept)
    ensures var r := Exec(p, c, steps);
      r.outcome.Returned? ==> (r.outcome.verdict.HaltedMaxSteps? <==> !Terminal(p, r.config.state))
    ensures var r := Exec(p, c, steps);
      r.outcome.Returned? && r.outcome.verdict.HaltedMaxSteps? ==> r.outcome.verdict.state == r.config.state
    decreases MaxSteps - steps
  {
    if Terminal(p, c.state) {
      FinishEffect(p, c, steps);
    } else if steps < MaxSteps {
      StepEffect(p, c);
      match Step(p, c)
      case NoRule(c') => FinishEffect(p, c', steps);
      case BadMove(c', m) =>
      case Moved(c') => ExecVerdicts(p, c', steps + 1);
    }
  }

  /** The step-limit verdict is returned exactly when the loop has made
      MaxSteps transitions and the state is still neither accept nor reject. */
  lemma {:induction false} ExecCeiling(p: Program, c: Config, steps: nat)
    requires steps <= MaxSteps
    ensures var r := Exec(p, c, steps);
      r.outcome.Returned? && r.outcome.verdict.HaltedMaxSteps? ==> r.steps == MaxSteps && !Terminal(p, r.config.state)
    ensures var r := Exec(p, c, steps);
      r.steps == MaxSteps && !Terminal(p, r.config.state) ==> r.outcome.Returned? && r.outcome.verdict.HaltedMaxSteps?
    decreases MaxSteps - steps
  {
    if Terminal(p, c.state) {
      FinishEffect(p, c, steps);
    } else if steps < MaxSteps {
      StepEffect(p, c);
      match Step(p, c)
      case NoRule(c') => FinishEffect(p, c', steps);
      case BadMove(c', m) =>
      case Moved(c') => ExecCeiling(p, c', steps + 1);
    }
  }

  /** Unpacking the final display fails exactly when the loop is entered with
      an empty dictionary in a terminal state: every pass reads the head's
      cell, so later the dictionary is never empty. */
  lemma {:induction false} ExecNotATuple(p: Program, c: Config, steps: nat)
    requires steps <= MaxSteps
    ensures Exec(p, c, steps).outcome == Raised(NotATuple) <==> c.tape == map[] && Terminal(p, c.state)
    decreases MaxSteps - steps
  {
    if Terminal(p, c.state) {
      FinishEffect(p, c, steps);
    } else if steps < MaxSteps {
      StepEffect(p, c);
      match Step(p, c)
      case NoRule(c') => FinishEffect(p, c', steps);
      case BadMove(c', m) =>
      case Moved(c') => ExecNotATuple(p, c', steps + 1);
    }
  }

  /** A whole run raises at the final unpacking exactly when the input is
      empty and the start state is the accept or the reject state. */
  lemma RunNotATuple(p: Program, input: string)
    ensures Run(p, input).outcome == Raised(NotATuple) <==> input == [] && Terminal(p, p.start)
  {
    ExecNotATuple(p, InitConfig(p, input), 0);
    if input != [] {
      assert 0 in InitialTape(input);
    }
  }

  /** With no transition for the symbol under the head, the run stops at once
      in the reject state with every cell and the head unchanged, and its
      verdict is the one an explicit transition into the reject state gets. */
  lemma NoRuleRejects(p: Program, c: Config, steps: nat)
    requires steps < MaxSteps && !Terminal(p, c.state)
    requires (c.state, Read(c.tape, c.head, p.blank)) !in p.delta
    ensures var r := Exec(p, c, steps);
      && r.config.state == p.reject && r.config.head == c.head && r.steps == steps
      && (forall q :: Read(r.config.tape, q, p.blank) == Read(c.tape, q, p.blank))
      && r.outcome == Returned(if p.reject == p.accept then Accepted else Rejected)
  {
    StepEffect(p, c);
    var c' := Step(p, c).next;
    FinishEffect(p, c', steps);
  }
}
