/**
 * The simulation loop on a contiguous tape. Every dictionary the loop ever
 * sees holds one unbroken run of cells, and the head is inside it or just
 * beside it: the input is written from cell 0 on, and each pass reads the
 * head's cell before the head moves by at most one. So a run can be
 * computed on a string and the position of its first cell, with no
 * dictionary at all; `ExecRow` proves that this computes `Semantics.Exec`.
 */
module Rows {
  import opened Tape
  import opened Semantics

  /** The end of a run on a contiguous tape: the cells are `cells`, the first
      of them at position `off`. */
  datatype RowFinal = RowFinal(outcome: Outcome, cells: string, off: int, head: int, state: string, steps: nat)

  /** The same end of a run, with the tape as a dictionary. */
  function Lift(r: RowFinal): Final {
    Final(r.outcome, Config(Row(r.cells, r.off), r.head, r.state), r.steps)
  }

  /** The epilogue on a contiguous tape: an empty tape cannot be unpacked;
      otherwise the display makes the row cover the head. */
  function RowFinish(p: Program, s: string, off: int, head: int, state: string, steps: nat): RowFinal
    requires off - 1 <= head <= off + |s|
  {
    if s == [] then RowFinal(Raised(NotATuple), s, off, head, state, steps)
    else
      var (s1, off1) := Cover(s, off, head, p.blank);
      var verdict :=
        if state == p.accept then Accepted
        else if state == p.reject then Rejected
        else UnknownHaltState;
      RowFinal(Returned(verdict), s1, off1, head, state, steps)
  }

  /** What one pass of the loop does to a contiguous tape. */
  datatype RowStepResult =
    | RowNoRule(cells: string, off: int)
    | RowBadMove(cells: string, off: int, move: string)
    | RowMoved(cells: string, off: int, head: int, next: string)

  /** One pass of the loop on a contiguous tape: read the head's cell (which
      makes the row cover the head), look the transition up, write, move. */
  function RowStep(p: Program, s: string, off: int, head: int, state: string): (r: RowStepResult)
    requires off - 1 <= head <= off + |s|
    ensures r.off - 1 <= head <= r.off + |r.cells|
    ensures r.RowMoved? ==> r.off - 1 <= r.head <= r.off + |r.cells|
  {
    var (s1, off1) := Cover(s, off, head, p.blank);
    var symbol := s1[head - off1];
    if (state, symbol) !in p.delta then RowNoRule(s1, off1)
    else
      var rule := p.delta[(state, symbol)];
      var s2 := s1[head - off1 := rule.write];
      match MoveTo(head, rule.move)
      case None => RowBadMove(s2, off1, rule.move)
      case Some(h) => RowMoved(s2, off1, h, rule.next)
  }

  /** The simulation loop on a contiguous tape holding `s` from `off` on. */
  function RowExec(p: Program, s: string, off: int, head: int, state: string, steps: nat): RowFinal
    requires off - 1 <= head <= off + |s| && steps <= MaxSteps
    decreases MaxSteps - steps
  {
    if Terminal(p, state) then RowFinish(p, s, off, head, state, steps)
    else if steps >= MaxSteps then RowFinal(Returned(HaltedMaxSteps(state)), s, off, head, state, steps)
    else
      match RowStep(p, s, off, head, state)
      case RowNoRule(s1, off1) => RowFinish(p, s1, off1, head, p.reject, steps)
      case RowBadMove(s2, off1, m) => RowFinal(Raised(InvalidMove(m)), s2, off1, head, state, steps)
      case RowMoved(s2, off1, h, next) => RowExec(p, s2, off1, h, next, steps + 1)
  }

  /** The epilogue on a dictionary holding a row is the epilogue on the row. */
  lemma FinishRow(p: Program, s: string, off: int, head: int, state: string, steps: nat)
    requires off - 1 <= head <= off + |s|
    ensures Finish(p, Config(Row(s, off), head, state), steps) == Lift(RowFinish(p, s, off, head, state, steps))
  {
    if s == [] {
      assert Row(s, off) == map[];
    } else {
      AfterShowRow(s, off, head, p.blank);
    }
  }

  /** Reading the head's cell of a row, with the head inside the row or just
      beside it, reads the covering row. */
  lemma ReadCoveredRow(s: string, off: int, head: int, blank: char)
    requires off - 1 <= head <= off + |s|
    ensures var (s1, off1) := Cover(s, off, head, blank); Read(Row(s, off), head, blank) == s1[head - off1]
  {
  }

  /** Reading the head's cell of a row, with the head inside the row or just
      beside it, reads the covering row, turns the dictionary into that row,
      and the display then leaves it as it is. */
  lemma ReadRow(s: string, off: int, head: int, blank: char)
    requires off - 1 <= head <= off + |s|
    ensures var (s1, off1) := Cover(s, off, head, blank);
      && Read(Row(s, off), head, blank) == s1[head - off1]
      && Touch(Row(s, off), head, blank) == Row(s1, off1)
      && AfterShow(Row(s1, off1), head, blank) == Row(s1, off1)
  {
    var (s1, off1) := Cover(s, off, head, blank);
    CoverTouch(s, off, head, blank);
    assert Read(Row(s, off), head, blank) == s1[head - off1] by {
      assert Read(Row(s1, off1), head, blank) == s1[head - off1];
    }
    ShowRowKeepsCells(s1, off1, head, blank);
  }

  /** A pass that finds no transition, on a dictionary holding a row. */
  lemma StepRowNoRule(p: Program, s: string, off: int, head: int, state: string)
    requires off - 1 <= head <= off + |s| && RowStep(p, s, off, head, state).RowNoRule?
    ensures var q := RowStep(p, s, off, head, state);
      Step(p, Config(Row(s, off), head, state)) == NoRule(Config(Row(q.cells, q.off), head, p.reject))
  {
    ReadRow(s, off, head, p.blank);
  }

  /** Reading, displaying and then writing `sym` under the head of a row
      writes it into the covering row. */
  lemma WriteCoveredRow(s: string, off: int, head: int, blank: char, sym: char)
    requires off - 1 <= head <= off + |s|
    ensures var (s1, off1) := Cover(s, off, head, blank);
      AfterShow(Touch(Row(s, off), head, blank), head, blank)[head := sym] == Row(s1[head - off1 := sym], off1)
  {
    var (s1, off1) := Cover(s, off, head, blank);
    ReadRow(s, off, head, blank);
    var t1 := Touch(Row(s, off), head, blank);
    assert t1 == Row(s1, off1);
    assert AfterShow(t1, head, blank) == Row(s1, off1);
    WriteRow(s1, off1, head, sym);
  }

  /** A pass that finds a transition, on a dictionary holding a row. */
  lemma StepRowRule(p: Program, s: string, off: int, head: int, state: string)
    requires off - 1 <= head <= off + |s| && !RowStep(p, s, off, head, state).RowNoRule?
    ensures var r, q := Step(p, Config(Row(s, off), head, state)), RowStep(p, s, off, head, state);
      && (q.RowBadMove? ==> r == BadMove(Config(Row(q.cells, q.off), head, state), q.move))
      && (q.RowMoved? ==> r == Moved(Config(Row(q.cells, q.off), q.head, q.next)))
  {
    var (s1, off1) := Cover(s, off, head, p.blank);
    ReadCoveredRow(s, off, head, p.blank);
    var symbol := Read(Row(s, off), head, p.blank);
    assert symbol == s1[head - off1];
    var rule := p.delta[(state, symbol)];
    WriteCoveredRow(s, off, head, p.blank, rule.write);
    var t3 := AfterShow(Touch(Row(s, off), head, p.blank), head, p.blank)[head := rule.write];
    assert t3 == Row(s1[head - off1 := rule.write], off1);
    match MoveTo(head, rule.move)
    case None =>
      assert Step(p, Config(Row(s, off), head, state)) == BadMove(Config(t3, head, state), rule.move);
    case Some(h) =>
      assert Step(p, Config(Row(s, off), head, state)) == Moved(Config(t3, h, rule.next));
  }

  /** One pass of the loop on a dictionary holding a row, with the head
      inside the row or just beside it, is the pass on the row. */
  lemma StepRow(p: Program, s: string, off: int, head: int, state: string)
    requires off - 1 <= head <= off + |s|
    ensures var r, q := Step(p, Config(Row(s, off), head, state)), RowStep(p, s, off, head, state);
      && (q.RowNoRule? ==> r == NoRule(Config(Row(q.cells, q.off), head, p.reject)))
      && (q.RowBadMove? ==> r == BadMove(Config(Row(q.cells, q.off), head, state), q.move))
      && (q.RowMoved? ==> r == Moved(Config(Row(q.cells, q.off), q.head, q.next)))
  {
    if RowStep(p, s, off, head, state).RowNoRule? {
      StepRowNoRule(p, s, off, head, state);
    } else {
      StepRowRule(p, s, off, head, state);
    }
  }

  /** The loop on a dictionary holding a row stops at once as the loop on
      the row does, unless it makes a transition; after a transition both
      loops go on from the configuration the row interpreter computes. */
  lemma ExecRowStep(p: Program, s: string, off: int, head: int, state: string, steps: nat)
    requires off - 1 <= head <= off + |s| && steps <= MaxSteps
    ensures var q := RowStep(p, s, off, head, state);
      !Terminal(p, state) && steps < MaxSteps && q.RowMoved? ==>
        Exec(p, Config(Row(s, off), head, state), steps) == Exec(p, Config(Row(q.cells, q.off), q.head, q.next), steps + 1)
    ensures var q := RowStep(p, s, off, head, state);
      !Terminal(p, state) && steps < MaxSteps && q.RowMoved? ==>
        RowExec(p, s, off, head, state, steps) == RowExec(p, q.cells, q.off, q.head, q.next, steps + 1)
    ensures var q := RowStep(p, s, off, head, state);
      !(!Terminal(p, state) && steps < MaxSteps && q.RowMoved?) ==>
        Exec(p, Config(Row(s, off), head, state), steps) == Lift(RowExec(p, s, off, head, state, steps))
  {
    if Terminal(p, state) {
      FinishRow(p, s, off, head, state, steps);
    } else if steps < MaxSteps {
      StepRow(p, s, off, head, state);
      var q := RowStep(p, s, off, head, state);
      if q.RowNoRule? {
        FinishRow(p, q.cells, q.off, head, p.reject, steps);
      }
    }
  }

  /** The loop on a dictionary holding a row, with the head inside the row or
      just beside it, ends as the loop on the row does. */
  lemma {:induction false} ExecRow(p: Program, s: string, off: int, head: int, state: string, steps: nat)
    requires off - 1 <= head <= off + |s| && steps <= MaxSteps
    ensures Exec(p, Config(Row(s, off), head, state), steps) == Lift(RowExec(p, s, off, head, state, steps))
    decreases MaxSteps - steps
  {
    ExecRowStep(p, s, off, head, state, steps);
    var q := RowStep(p, s, off, head, state);
    if !Terminal(p, state) && steps < MaxSteps && q.RowMoved? {
      ExecRow(p, q.cells, q.off, q.head, q.next, steps + 1);
    }
  }

  /** A whole run is the loop on the row holding the input from cell 0 on. */
  lemma RunRow(p: Program, input: string)
    ensures Run(p, input) == Lift(RowExec(p, input, 0, 0, p.start, 0))
  {
    ExecRow(p, input, 0, 0, p.start, 0);
  }

  /** The same, field by field, for a run on the row that ends with the
      cells `cells` from position `off` on. */
  lemma RunEnds(p: Program, input: string, cells: string, off: int)
    requires RowExec(p, input, 0, 0, p.start, 0).cells == cells && RowExec(p, input, 0, 0, p.start, 0).off == off
    ensures var r, q := Run(p, input), RowExec(p, input, 0, 0, p.start, 0);
      && r.outcome == q.outcome && r.steps == q.steps && r.config.head == q.head && r.config.state == q.state
      && r.config.tape == Row(cells, off)
  {
    RunRow(p, input);
  }

  /** A transition on a contiguous tape leads to the loop from the row the
      transition computes, with the step count `arrival`. */
  lemma RowMoves(p: Program, s: string, off: int, head: int, state: string, steps: nat,
                 s': string, off': int, head': int, next: string, arrival: nat)
    requires off - 1 <= head <= off + |s| && arrival == steps + 1 <= MaxSteps && !Terminal(p, state)
    requires RowStep(p, s, off, head, state) == RowMoved(s', off', head', next)
    ensures RowExec(p, s, off, head, state, steps) == RowExec(p, s', off', head', next, arrival)
  {
  }

  /** In the accept state the loop stops at once and returns "Accepted". */
  lemma RowAccepts(p: Program, s: string, off: int, head: int, state: string, steps: nat)
    requires off <= head < off + |s| && steps <= MaxSteps && state == p.accept
    ensures RowExec(p, s, off, head, state, steps) == RowFinal(Returned(Accepted), s, off, head, state, steps)
  {
  }

  /** In the reject state, when it is not also the accept state, the loop
      stops at once and returns "Rejected". */
  lemma RowRejects(p: Program, s: string, off: int, head: int, state: string, steps: nat)
    requires off <= head < off + |s| && steps <= MaxSteps && state == p.reject != p.accept
    ensures RowExec(p, s, off, head, state, steps) == RowFinal(Returned(Rejected), s, off, head, state, steps)
  {
  }

  /** In the accept state with the head just right of the row, the loop
      stops at once, and the display adds a blank cell under the head. */
  lemma RowAcceptsAtEnd(p: Program, s: string, off: int, head: int, state: string, steps: nat)
    requires head == off + |s| && s != [] && steps <= MaxSteps && state == p.accept
    ensures RowExec(p, s, off, head, state, steps) == RowFinal(Returned(Accepted), s + [p.blank], off, head, state, steps)
  {
  }

  /** A cell with no transition for the state sends the loop to the reject
      state, and, when that is not also the accept state, it returns
      "Rejected". */
  lemma RowStuck(p: Program, s: string, off: int, head: int, state: string, steps: nat)
    requires off <= head < off + |s| && steps < MaxSteps && !Terminal(p, state) && p.reject != p.accept
    requires (state, s[head - off]) !in p.delta
    ensures RowExec(p, s, off, head, state, steps) == RowFinal(Returned(Rejected), s, off, head, p.reject, steps)
  {
  }

  /** A state that moves right over cells `head`, ..., `hi` - 1 of a row,
      leaving each symbol as it is, reaches `hi` after one transition per
      cell, so with the step count `arrival`. */
  lemma {:induction false} ScanRight(p: Program, s: string, off: int, head: int, hi: int, state: string,
                                     steps: nat, arrival: nat)
    requires off <= head <= hi <= off + |s| && arrival == steps + (hi - head) <= MaxSteps && !Terminal(p, state)
    requires forall j :: head - off <= j < hi - off ==>
      (state, s[j]) in p.delta && p.delta[(state, s[j])] == Rule(state, s[j], "R")
    ensures RowExec(p, s, off, head, state, steps) == RowExec(p, s, off, hi, state, arrival)
    decreases hi - head
  {
    if head < hi {
      assert s[head - off := s[head - off]] == s;
      var head', steps' := head + 1, steps + 1;
      assert RowStep(p, s, off, head, state) == RowMoved(s, off, head', state);
      ScanRight(p, s, off, head', hi, state, steps', arrival);
    }
  }

  /** A state that moves left over cells `head`, ..., `lo` + 1 of a row,
      leaving each symbol as it is, reaches `lo` after one transition per
      cell, so with the step count `arrival`. */
  lemma {:induction false} ScanLeft(p: Program, s: string, off: int, lo: int, head: int, state: string,
                                    steps: nat, arrival: nat)
    requires off - 1 <= lo <= head < off + |s| && arrival == steps + (head - lo) <= MaxSteps && !Terminal(p, state)
    requires forall j :: lo - off < j <= head - off ==>
      (state, s[j]) in p.delta && p.delta[(state, s[j])] == Rule(state, s[j], "L")
    ensures RowExec(p, s, off, head, state, steps) == RowExec(p, s, off, lo, state, arrival)
    decreases head - lo
  {
    if lo < head {
      assert s[head - off := s[head - off]] == s;
      var head', steps' := head - 1, steps + 1;
      assert RowStep(p, s, off, head, state) == RowMoved(s, off, head', state);
      ScanLeft(p, s, off, lo, head', state, steps', arrival);
    }
  }

  /** A left scan to `lo` followed by a transition there. */
  lemma ScanLeftThenMove(p: Program, s: string, off: int, lo: int, head: int, state: string,
                         steps: nat, s': string, off': int, head': int, next: string, arrival: nat)
    requires off <= lo <= head < off + |s| && arrival == steps + (head - lo) + 1 <= MaxSteps && !Terminal(p, state)
    requires forall j :: lo - off < j <= head - off ==>
      (state, s[j]) in p.delta && p.delta[(state, s[j])] == Rule(state, s[j], "L")
    requires RowStep(p, s, off, lo, state) == RowMoved(s', off', head', next)
    ensures RowExec(p, s, off, head, state, steps) == RowExec(p, s', off', head', next, arrival)
  {
    var mid := arrival - 1;
    ScanLeft(p, s, off, lo, head, state, steps, mid);
    RowMoves(p, s, off, lo, state, mid, s', off', head', next, arrival);
  }

  /** A right scan to `hi` followed by a transition there. */
  lemma ScanRightThenMove(p: Program, s: string, off: int, head: int, hi: int, state: string,
                          steps: nat, s': string, off': int, head': int, next: string, arrival: nat)
    requires off <= head <= hi <= off + |s| && arrival == steps + (hi - head) + 1 <= MaxSteps && !Terminal(p, state)
    requires forall j :: head - off <= j < hi - off ==>
      (state, s[j]) in p.delta && p.delta[(state, s[j])] == Rule(state, s[j], "R")
    requires RowStep(p, s, off, hi, state) == RowMoved(s', off', head', next)
    ensures RowExec(p, s, off, head, state, steps) == RowExec(p, s', off', head', next, arrival)
  {
    var mid := arrival - 1;
    ScanRight(p, s, off, head, hi, state, steps, mid);
    RowMoves(p, s, off, hi, state, mid, s', off', head', next, arrival);
  }
}
