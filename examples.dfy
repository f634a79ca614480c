/**
 * The three example machines of the application, as transition tables, and
 * their runs on the inputs the application suggests.
 */
module Examples {
  import opened Tape
  import opened Semantics
  import opened Rows

  /** Replaces the first '1' with '0'. */
  const Delta1: Delta := map[
    ("q0", '1') := Rule("q_accept", '0', "R"),
    ("q0", '0') := Rule("q0", '0', "R"),
    ("q0", 'B') := Rule("q_reject", 'B', "N")
  ]

  /** Accepts the strings a^n b^n with n >= 1. */
  const Delta2: Delta := map[
    ("q0", 'a') := Rule("q1", 'X', "R"),
    ("q0", 'Y') := Rule("q3", 'Y', "R"),
    ("q0", 'B') := Rule("q_reject", 'B', "N"),
    ("q0", 'X') := Rule("q0", 'X', "R"),
    ("q1", 'a') := Rule("q1", 'a', "R"),
    ("q1", 'Y') := Rule("q1", 'Y', "R"),
    ("q1", 'b') := Rule("q2", 'Y', "L"),
    ("q1", 'X') := Rule("q1", 'X', "R"),
    ("q1", 'B') := Rule("q_reject", 'B', "N"),
    ("q2", 'a') := Rule("q2", 'a', "L"),
    ("q2", 'Y') := Rule("q2", 'Y', "L"),
    ("q2", 'X') := Rule("q0", 'X', "R"),
    ("q2", 'B') := Rule("q_reject", 'B', "N"),
    ("q3", 'Y') := Rule("q3", 'Y', "R"),
    ("q3", 'B') := Rule("q_accept", 'B', "N"),
    ("q3", 'a') := Rule("q_reject", 'a', "N"),
    ("q3", 'b') := Rule("q_reject", 'b', "N")
  ]

  /** Adds one to a binary number, carrying from the right. */
  const Delta3: Delta := map[
    ("q0", '0') := Rule("q0", '0', "R"),
    ("q0", '1') := Rule("q0", '1', "R"),
    ("q0", 'B') := Rule("q_carry", 'B', "L"),
    ("q_carry", '1') := Rule("q_carry", '0', "L"),
    ("q_carry", '0') := Rule("q_accept", '1', "N"),
    ("q_carry", 'B') := Rule("q_accept", '1', "N")
  ]

  const ReplaceOne: Program := Program(Delta1, "q0", "q_accept", "q_reject", 'B')
  const AnBn: Program := Program(Delta2, "q0", "q_accept", "q_reject", 'B')
  const Incrementer: Program := Program(Delta3, "q0", "q_accept", "q_reject", 'B')

  /** Strings over the digits 0 and 1, most significant digit first. */
  predicate IsBinary(s: string) {
    forall i :: 0 <= i < |s| ==> s[i] == '0' || s[i] == '1'
  }

  /** The number a binary string denotes. */
  function Value(s: string): nat
    requires IsBinary(s)
  {
    if s == [] then 0 else 2 * Value(s[..|s| - 1]) + (if s[|s| - 1] == '1' then 1 else 0)
  }

  /** `n` copies of `c`. */
  function Rep(c: char, n: nat): (r: string)
    ensures |r| == n && forall i :: 0 <= i < n ==> r[i] == c
  {
    if n == 0 then [] else [c] + Rep(c, n - 1)
  }

  /** Binary increment: the trailing ones become zeros and the zero before
      them (or a new leading digit) becomes a one. */
  function Increment(s: string): (r: string)
    requires IsBinary(s)
    ensures IsBinary(r) && |s| <= |r| <= |s| + 1
  {
    if s == [] then "1"
    else if s[|s| - 1] == '1' then Increment(s[..|s| - 1]) + "0"
    else s[..|s| - 1] + "1"
  }

  /** The number of ones that `s` ends with: the digits an increment carries over. */
  function TrailingOnes(s: string): (k: nat)
    ensures k <= |s| && (forall j :: |s| - k <= j < |s| ==> s[j] == '1') && (k < |s| ==> s[|s| - 1 - k] != '1')
  {
    if s == [] || s[|s| - 1] != '1' then 0 else 1 + TrailingOnes(s[..|s| - 1])
  }

  /** `Increment` adds one. */
  lemma {:induction false} IncrementValue(s: string)
    requires IsBinary(s)
    ensures Value(Increment(s)) == Value(s) + 1
    decreases |s|
  {
    if s != [] {
      var init := s[..|s| - 1];
      var r := Increment(s);
      assert r[..|r| - 1] == (if s[|s| - 1] == '1' then Increment(init) else init);
      if s[|s| - 1] == '1' {
        IncrementValue(init);
      }
    }
  }

  /** The transitions of the incrementer, one by one, together with its
      start, accept, reject and blank symbols. */
  predicate IncrementerRules(p: Program) {
    && p.start == "q0" && p.accept == "q_accept" && p.reject == "q_reject" && p.blank == 'B'
    && ("q0", '0') in p.delta && p.delta[("q0", '0')] == Rule("q0", '0', "R")
    && ("q0", '1') in p.delta && p.delta[("q0", '1')] == Rule("q0", '1', "R")
    && ("q0", 'B') in p.delta && p.delta[("q0", 'B')] == Rule("q_carry", 'B', "L")
    && ("q_carry", '1') in p.delta && p.delta[("q_carry", '1')] == Rule("q_carry", '0', "L")
    && ("q_carry", '0') in p.delta && p.delta[("q_carry", '0')] == Rule("q_accept", '1', "N")
    && ("q_carry", 'B') in p.delta && p.delta[("q_carry", 'B')] == Rule("q_accept", '1', "N")
  }

  /** The carry phase ends as it should: in state q_carry with the head on
      the last digit of `u`, followed by `z` zeros and a blank, the machine
      accepts with `Increment(u)` in place of `u`, the tape growing left by a
      cell when the carry leaves the top digit. */
  ghost predicate Carried(p: Program, u: string, z: nat, steps: nat)
    requires IsBinary(u) && steps <= MaxSteps
  {
    var r := RowExec(p, u + Rep('0', z) + "B", 0, |u| - 1, "q_carry", steps);
    && r.outcome == Returned(Accepted) && r.state == "q_accept"
    && r.cells == Increment(u) + Rep('0', z) + "B" && r.off == |u| - |Increment(u)|
  }

  /** A carry out of the top digit: the blank left of the number becomes a
      one and the machine accepts. */
  lemma CarryOut(p: Program, u: string, z: nat, steps: nat)
    requires IncrementerRules(p) && u == [] && steps + 1 <= MaxSteps
    ensures Carried(p, u, z, steps)
  {
    var s, t := u + Rep('0', z) + "B", "1" + Rep('0', z) + "B";
    assert s == Rep('0', z) + "B";
    assert RowStep(p, s, 0, -1, "q_carry") == RowMoved(t, -1, -1, "q_accept");
    RowMoves(p, s, 0, -1, "q_carry", steps, t, -1, -1, "q_accept", steps + 1);
    RowAccepts(p, t, -1, -1, "q_accept", steps + 1);
  }

  /** A carry into a zero digit at the head: it becomes a one and the
      machine accepts. */
  lemma CarryStops(p: Program, u: string, z: nat, steps: nat)
    requires IncrementerRules(p) && IsBinary(u) && u != [] && u[|u| - 1] == '0' && steps + 1 <= MaxSteps
    ensures Carried(p, u, z, steps)
  {
    var s, t := u + Rep('0', z) + "B", Increment(u) + Rep('0', z) + "B";
    assert s[|u| - 1] == '0';
    assert s[|u| - 1 := '1'] == t;
    assert RowStep(p, s, 0, |u| - 1, "q_carry") == RowMoved(t, 0, |u| - 1, "q_accept");
    RowMoves(p, s, 0, |u| - 1, "q_carry", steps, t, 0, |u| - 1, "q_accept", steps + 1);
    RowAccepts(p, t, 0, |u| - 1, "q_accept", steps + 1);
  }

  /** Turning the last digit, a one, into a zero moves it from the
      number into the zeros after it. */
  lemma CarryShift(u: string, z: nat)
    requires IsBinary(u) && u != [] && u[|u| - 1] == '1'
    ensures Increment(u[..|u| - 1]) + Rep('0', z + 1) + "B" == Increment(u) + Rep('0', z) + "B"
    ensures |Increment(u)| == |Increment(u[..|u| - 1])| + 1
  {
    assert Rep('0', z + 1) == "0" + Rep('0', z);
  }

  /** A carry into a one digit at the head: it becomes a zero and the carry
      moves one digit left. */
  lemma CarryMoves(p: Program, u: string, z: nat, steps: nat)
    requires IncrementerRules(p) && IsBinary(u) && u != [] && u[|u| - 1] == '1' && steps + 1 <= MaxSteps
    ensures RowExec(p, u + Rep('0', z) + "B", 0, |u| - 1, "q_carry", steps)
      == RowExec(p, u[..|u| - 1] + Rep('0', z + 1) + "B", 0, |u| - 2, "q_carry", steps + 1)
  {
    var s, t := u + Rep('0', z) + "B", u[..|u| - 1] + Rep('0', z + 1) + "B";
    assert s[|u| - 1] == '1';
    assert s[|u| - 1 := '0'] == t;
    assert RowStep(p, s, 0, |u| - 1, "q_carry") == RowMoved(t, 0, |u| - 2, "q_carry");
    RowMoves(p, s, 0, |u| - 1, "q_carry", steps, t, 0, |u| - 2, "q_carry", steps + 1);
  }

  /** So the carry into a one digit ends as the carry into the number
      without that digit, followed by one more zero, ends. */
  lemma CarryOn(p: Program, u: string, z: nat, steps: nat)
    requires IncrementerRules(p) && IsBinary(u) && u != [] && u[|u| - 1] == '1' && steps + 1 <= MaxSteps
    requires Carried(p, u[..|u| - 1], z + 1, steps + 1)
    ensures Carried(p, u, z, steps)
  {
    CarryMoves(p, u, z, steps);
    CarryShift(u, z);
  }

  /** The carry phase, for every binary `u` and every number of zeros after
      it, whenever its transitions, one per trailing one and one more, fit in
      the step ceiling. */
  lemma {:induction false} IncrementerCarries(p: Program, u: string, z: nat, steps: nat)
    requires IncrementerRules(p) && IsBinary(u) && steps + TrailingOnes(u) + 1 <= MaxSteps
    ensures Carried(p, u, z, steps)
    decreases |u|
  {
    if u == [] {
      CarryOut(p, u, z, steps);
    } else if u[|u| - 1] == '1' {
      IncrementerCarries(p, u[..|u| - 1], z + 1, steps + 1);
      CarryOn(p, u, z, steps);
    } else {
      CarryStops(p, u, z, steps);
    }
  }

  /** The scan phase: move right over the digits to the blank after them,
      then turn back onto the last digit in state q_carry. */
  lemma IncrementerScans(p: Program, s: string)
    requires IncrementerRules(p) && IsBinary(s) && |s| + 1 <= MaxSteps
    ensures RowExec(p, s, 0, 0, "q0", 0) == RowExec(p, s + Rep('0', 0) + "B", 0, |s| - 1, "q_carry", |s| + 1)
  {
    ScanRight(p, s, 0, 0, |s|, "q0", 0, |s|);
    assert s + "B" == s + Rep('0', 0) + "B";
    assert RowStep(p, s, 0, |s|, "q0") == RowMoved(s + "B", 0, |s| - 1, "q_carry");
    RowMoves(p, s, 0, |s|, "q0", |s|, s + Rep('0', 0) + "B", 0, |s| - 1, "q_carry", |s| + 1);
  }

  /** The whole run on a contiguous tape: scan right to the blank, turn, carry. */
  lemma IncrementsRow(p: Program, s: string)
    requires IncrementerRules(p) && IsBinary(s) && |s| + TrailingOnes(s) + 2 <= MaxSteps
    ensures var r := RowExec(p, s, 0, 0, p.start, 0);
      && r.outcome == Returned(Accepted) && r.state == "q_accept"
      && r.cells == Increment(s) + "B" && r.off == |s| - |Increment(s)|
  {
    IncrementerScans(p, s);
    IncrementerCarries(p, s, 0, |s| + 1);
    assert Increment(s) + Rep('0', 0) + "B" == Increment(s) + "B";
  }

  /** The incrementer of the application accepts every binary string that
      fits in the step ceiling, leaving its successor on the tape followed
      by the blank it read at the right end; a carry out of the top digit
      grows the tape to the left of cell 0. */
  lemma IncrementerIsCorrect(s: string)
    requires IsBinary(s) && |s| + TrailingOnes(s) + 2 <= MaxSteps
    ensures var r := Run(Incrementer, s);
      && r.outcome == Returned(Accepted) && r.config.state == "q_accept"
      && r.config.tape == Row(Increment(s) + "B", |s| - |Increment(s)|)
  {
    assert IncrementerRules(Incrementer);
    IncrementsRow(Incrementer, s);
    RunEnds(Incrementer, s, Increment(s) + "B", |s| - |Increment(s)|);
  }

  /** 101 + 1 = 110, and 111 + 1 = 1000. */
  lemma IncrementFacts(s: string)
    ensures s == "101" ==> IsBinary(s) && Increment(s) + "B" == "110B" && |Increment(s)| == 3
    ensures s == "111" ==> IsBinary(s) && Increment(s) + "B" == "1000B" && |Increment(s)| == 4
  {
    if s == "101" {
      assert s[..2] == "10";
      assert Increment(s) == "110";
    } else if s == "111" {
      assert "1"[..0] == "" && Increment("1") == "10";
      assert "11"[..1] == "1" && Increment("11") == "100";
      assert s[..2] == "11";
      assert Increment(s) == "1000";
    }
  }

  /** On 101 the incrementer accepts, with cells 0..2 holding 110 and the
      blank it read in cell 3. */
  lemma IncrementerOn101(s: string)
    requires s == "101"
    ensures var r := Run(Incrementer, s);
      r.outcome == Returned(Accepted) && r.config.tape == Row("110B", 0)
  {
    IncrementFacts(s);
    IncrementerIsCorrect(s);
  }

  /** On 111 the incrementer accepts, with cells -1..2 holding 1000 and the
      blank it read in cell 3. */
  lemma IncrementerOn111(s: string)
    requires s == "111"
    ensures var r := Run(Incrementer, s);
      r.outcome == Returned(Accepted) && r.config.tape == Row("1000B", -1)
  {
    IncrementFacts(s);
    IncrementerIsCorrect(s);
  }

  /** The transitions of the first-one replacer, with its start, accept,
      reject and blank symbols; q0 has a transition for 0, 1 and the blank only. */
  predicate ReplaceOneRules(p: Program) {
    && p.start == "q0" && p.accept == "q_accept" && p.reject == "q_reject" && p.blank == 'B'
    && ("q0", '1') in p.delta && p.delta[("q0", '1')] == Rule("q_accept", '0', "R")
    && ("q0", '0') in p.delta && p.delta[("q0", '0')] == Rule("q0", '0', "R")
    && ("q0", 'B') in p.delta && p.delta[("q0", 'B')] == Rule("q_reject", 'B', "N")
    && (forall c: char :: ("q0", c) in p.delta ==> c == '0' || c == '1' || c == 'B')
  }

  /** The number of zeros that `s` starts with. */
  function LeadingZeros(s: string): (k: nat)
    ensures k <= |s| && (forall j :: 0 <= j < k ==> s[j] == '0') && (k < |s| ==> s[k] != '0')
  {
    if s == [] || s[0] != '0' then 0 else 1 + LeadingZeros(s[1..])
  }

  /** The replacer on a one at `k`, after the leading zeros. */
  lemma ReplacesAtOne(p: Program, s: string, k: nat)
    requires ReplaceOneRules(p) && k < |s| && s[k] == '1' && k + 1 <= MaxSteps
    ensures RowExec(p, s, 0, k, "q0", k)
      == RowFinal(Returned(Accepted), if k + 1 == |s| then s[k := '0'] + "B" else s[k := '0'], 0, k + 1, "q_accept", k + 1)
  {
    var t := s[k := '0'];
    assert RowStep(p, s, 0, k, "q0") == RowMoved(t, 0, k + 1, "q_accept");
    RowMoves(p, s, 0, k, "q0", k, t, 0, k + 1, "q_accept", k + 1);
    if k + 1 == |s| {
      RowAcceptsAtEnd(p, t, 0, k + 1, "q_accept", k + 1);
    } else {
      RowAccepts(p, t, 0, k + 1, "q_accept", k + 1);
    }
  }

  /** The replacer on the blank after an input of zeros. */
  lemma ReplacesAtEnd(p: Program, s: string)
    requires ReplaceOneRules(p) && |s| + 1 <= MaxSteps
    ensures RowExec(p, s, 0, |s|, "q0", |s|) == RowFinal(Returned(Rejected), s + "B", 0, |s|, "q_reject", |s| + 1)
  {
    var k := |s|;
    var t := s + "B";
    assert t[k := 'B'] == t;
    assert RowStep(p, s, 0, k, "q0") == RowMoved(t, 0, k, "q_reject");
    RowMoves(p, s, 0, k, "q0", k, t, 0, k, "q_reject", k + 1);
    RowRejects(p, t, 0, k, "q_reject", k + 1);
  }

  /** The replacer on a symbol other than 0 and 1 at `k`, after the leading
      zeros: a blank symbol rejects by its transition, any other symbol for
      want of one. */
  lemma ReplacesAtOther(p: Program, s: string, k: nat)
    requires ReplaceOneRules(p) && k < |s| && s[k] != '0' && s[k] != '1' && k + 1 <= MaxSteps
    ensures var r := RowExec(p, s, 0, k, "q0", k);
      r.outcome == Returned(Rejected) && r.cells == s && r.off == 0 && r.head == k
  {
    if s[k] == 'B' {
      assert s[k := 'B'] == s;
      assert RowStep(p, s, 0, k, "q0") == RowMoved(s, 0, k, "q_reject");
      RowMoves(p, s, 0, k, "q0", k, s, 0, k, "q_reject", k + 1);
      RowRejects(p, s, 0, k, "q_reject", k + 1);
    } else {
      RowStuck(p, s, 0, k, "q0", k);
    }
  }

  /** The run on a contiguous tape: scan the leading zeros, then decide on
      the first other cell. */
  lemma ReplacesRow(p: Program, s: string)
    requires ReplaceOneRules(p) && LeadingZeros(s) + 1 <= MaxSteps
    ensures var k, r := LeadingZeros(s), RowExec(p, s, 0, 0, p.start, 0);
      && r.off == 0
      && (k < |s| && s[k] == '1' ==>
            && r.outcome == Returned(Accepted) && r.head == k + 1
            && r.cells == if k + 1 == |s| then s[k := '0'] + "B" else s[k := '0'])
      && (k == |s| ==> r.outcome == Returned(Rejected) && r.head == k && r.cells == s + "B")
      && (k < |s| && s[k] != '1' ==> r.outcome == Returned(Rejected) && r.head == k && r.cells == s)
  {
    var k := LeadingZeros(s);
    ScanRight(p, s, 0, 0, k, "q0", 0, k);
    if k == |s| {
      ReplacesAtEnd(p, s);
    } else if s[k] == '1' {
      ReplacesAtOne(p, s, k);
    } else {
      ReplacesAtOther(p, s, k);
    }
  }

  /** The replacer of the application, on an input that fits in the step
      ceiling: it skips the leading zeros; on a one it writes a zero there
      and accepts with the head just right of it; on the blank after the
      input it rejects; on any other symbol it rejects as well, with the
      tape unchanged: on a blank symbol by its transition into the reject
      state, on any other for want of a transition. */
  lemma ReplaceOneIsCorrect(s: string)
    requires LeadingZeros(s) + 1 <= MaxSteps
    ensures var k, r := LeadingZeros(s), Run(ReplaceOne, s);
      && (k < |s| && s[k] == '1' ==>
            && r.outcome == Returned(Accepted) && r.config.head == k + 1
            && r.config.tape == Row(if k + 1 == |s| then s[k := '0'] + "B" else s[k := '0'], 0))
      && (k == |s| ==> r.outcome == Returned(Rejected) && r.config.head == k && r.config.tape == Row(s + "B", 0))
      && (k < |s| && s[k] != '1' ==> r.outcome == Returned(Rejected) && r.config.head == k && r.config.tape == Row(s, 0))
  {
    assert ReplaceOneRules(ReplaceOne);
    ReplacesRow(ReplaceOne, s);
    var k := LeadingZeros(s);
    if k == |s| {
      RunEnds(ReplaceOne, s, s + "B", 0);
    } else if s[k] == '1' {
      RunEnds(ReplaceOne, s, if k + 1 == |s| then s[k := '0'] + "B" else s[k := '0'], 0);
    } else {
      RunEnds(ReplaceOne, s, s, 0);
    }
  }

  /** The transitions of the a^n b^n recogniser that an accepting run uses,
      with its start, accept, reject and blank symbols. */
  predicate AnBnRules(p: Program) {
    && p.start == "q0" && p.accept == "q_accept" && p.reject == "q_reject" && p.blank == 'B'
    && ("q0", 'a') in p.delta && p.delta[("q0", 'a')] == Rule("q1", 'X', "R")
    && ("q0", 'Y') in p.delta && p.delta[("q0", 'Y')] == Rule("q3", 'Y', "R")
    && ("q1", 'a') in p.delta && p.delta[("q1", 'a')] == Rule("q1", 'a', "R")
    && ("q1", 'Y') in p.delta && p.delta[("q1", 'Y')] == Rule("q1", 'Y', "R")
    && ("q1", 'b') in p.delta && p.delta[("q1", 'b')] == Rule("q2", 'Y', "L")
    && ("q2", 'a') in p.delta && p.delta[("q2", 'a')] == Rule("q2", 'a', "L")
    && ("q2", 'Y') in p.delta && p.delta[("q2", 'Y')] == Rule("q2", 'Y', "L")
    && ("q2", 'X') in p.delta && p.delta[("q2", 'X')] == Rule("q0", 'X', "R")
    && ("q3", 'Y') in p.delta && p.delta[("q3", 'Y')] == Rule("q3", 'Y', "R")
    && ("q3", 'B') in p.delta && p.delta[("q3", 'B')] == Rule("q_accept", 'B', "N")
  }

  /** The tape of the recogniser on a^n b^n after `m` rounds: each round
      marks one a as X and one b as Y. */
  function Marked(n: nat, m: nat): (r: string)
    requires m <= n
    ensures |r| == 2 * n
  {
    Rep('X', m) + Rep('a', n - m) + Rep('Y', m) + Rep('b', n - m)
  }

  /** The cells of `Marked(n, m)`, by position. */
  lemma MarkedAt(n: nat, m: nat)
    requires m <= n
    ensures var r := Marked(n, m);
      && (forall j :: 0 <= j < m ==> r[j] == 'X')
      && (forall j :: m <= j < n ==> r[j] == 'a')
      && (forall j :: n <= j < n + m ==> r[j] == 'Y')
      && (forall j :: n + m <= j < 2 * n ==> r[j] == 'b')
  {
  }

  /** A round marks the leftmost a and the leftmost b. */
  lemma MarkedNext(n: nat, m: nat)
    requires m < n
    ensures Marked(n, m)[m := 'X'][n + m := 'Y'] == Marked(n, m + 1)
  {
    var s, t := Marked(n, m)[m := 'X'][n + m := 'Y'], Marked(n, m + 1);
    MarkedAt(n, m);
    MarkedAt(n, m + 1);
    forall j | 0 <= j < 2 * n ensures s[j] == t[j] {
    }
  }

  /** What a round reads on the row `s0`, `s1` and `s2` being the rows after
      its two marks: the a it marks at `m`, then a's and Y's up to the b it
      marks at `n` + `m`, then back over Y's and a's to the X at `m`. */
  ghost predicate RoundReads(p: Program, s0: string, s1: string, s2: string, n: nat, m: nat) {
    && |s0| == 2 * n && |s1| == 2 * n && |s2| == 2 * n && m < n
    && RowStep(p, s0, 0, m, "q0") == RowMoved(s1, 0, m + 1, "q1")
    && (forall j :: m + 1 <= j < n + m ==> ("q1", s1[j]) in p.delta && p.delta[("q1", s1[j])] == Rule("q1", s1[j], "R"))
    && RowStep(p, s1, 0, n + m, "q1") == RowMoved(s2, 0, n + m - 1, "q2")
    && (forall j :: m < j <= n + m - 1 ==> ("q2", s2[j]) in p.delta && p.delta[("q2", s2[j])] == Rule("q2", s2[j], "L"))
    && RowStep(p, s2, 0, m, "q2") == RowMoved(s2, 0, m + 1, "q0")
  }

  /** What the first half of a round reads on `Marked(n, m)`. */
  lemma OutCells(p: Program, n: nat, m: nat)
    requires AnBnRules(p) && m < n
    ensures var s0, s1 := Marked(n, m), Marked(n, m)[m := 'X'];
      && RowStep(p, s0, 0, m, "q0") == RowMoved(s1, 0, m + 1, "q1")
      && (forall j :: m + 1 <= j < n + m ==> ("q1", s1[j]) in p.delta && p.delta[("q1", s1[j])] == Rule("q1", s1[j], "R"))
      && RowStep(p, s1, 0, n + m, "q1") == RowMoved(Marked(n, m + 1), 0, n + m - 1, "q2")
  {
    MarkedAt(n, m);
    MarkedNext(n, m);
  }

  /** What the second half of a round reads on `Marked(n, m + 1)`. */
  lemma BackCells(p: Program, n: nat, m: nat)
    requires AnBnRules(p) && m < n
    ensures var s := Marked(n, m + 1);
      && (forall j :: m < j <= n + m - 1 ==> ("q2", s[j]) in p.delta && p.delta[("q2", s[j])] == Rule("q2", s[j], "L"))
      && RowStep(p, s, 0, m, "q2") == RowMoved(s, 0, m + 1, "q0")
  {
    var s := Marked(n, m + 1);
    MarkedAt(n, m + 1);
    assert s[m := 'X'] == s;
  }

  /** So a round on `Marked(n, m)` reads as `RoundReads` says. */
  lemma RoundCells(p: Program, n: nat, m: nat)
    requires AnBnRules(p) && m < n
    ensures RoundReads(p, Marked(n, m), Marked(n, m)[m := 'X'], Marked(n, m + 1), n, m)
  {
    OutCells(p, n, m);
    BackCells(p, n, m);
  }

  /** The first half of a round on such a row. */
  lemma RoundOut(p: Program, s0: string, s1: string, s2: string, n: nat, m: nat, steps: nat, arrival: nat)
    requires RoundReads(p, s0, s1, s2, n, m) && arrival == steps + n + 1 <= MaxSteps
    requires !Terminal(p, "q0") && !Terminal(p, "q1")
    ensures RowExec(p, s0, 0, m, "q0", steps) == RowExec(p, s2, 0, n + m - 1, "q2", arrival)
  {
    var m', n', steps' := m + 1, n + m, steps + 1;
    RowMoves(p, s0, 0, m, "q0", steps, s1, 0, m', "q1", steps');
    ScanRightThenMove(p, s1, 0, m', n', "q1", steps', s2, 0, n' - 1, "q2", arrival);
  }

  /** A whole round on such a row: the first half, then back to the X. */
  lemma RoundOver(p: Program, s0: string, s1: string, s2: string, n: nat, m: nat, steps: nat, arrival: nat)
    requires RoundReads(p, s0, s1, s2, n, m) && arrival == steps + 2 * n + 1 <= MaxSteps
    requires !Terminal(p, "q0") && !Terminal(p, "q1") && !Terminal(p, "q2")
    ensures RowExec(p, s0, 0, m, "q0", steps) == RowExec(p, s2, 0, m + 1, "q0", arrival)
  {
    var half, b := steps + n + 1, n + m - 1;
    RoundOut(p, s0, s1, s2, n, m, steps, half);
    ScanLeftThenMove(p, s2, 0, m, b, "q2", half, s2, 0, m + 1, "q0", arrival);
  }

  /** One round, of 2n + 1 transitions: mark the leftmost a, move right past
      the a's and Y's, mark the leftmost b, move left past the Y's and a's
      to the rightmost X and step right onto the next a (or the first Y). */
  lemma Round(p: Program, n: nat, m: nat, steps: nat)
    requires AnBnRules(p) && m < n && steps + 2 * n + 1 <= MaxSteps
    ensures RowExec(p, Marked(n, m), 0, m, "q0", steps) == RowExec(p, Marked(n, m + 1), 0, m + 1, "q0", steps + 2 * n + 1)
  {
    RoundCells(p, n, m);
    var s0, s1, s2 := Marked(n, m), Marked(n, m)[m := 'X'], Marked(n, m + 1);
    var arrival := steps + 2 * n + 1;
    RoundOver(p, s0, s1, s2, n, m, steps, arrival);
  }

  /** The transitions of rounds `m`, ..., `n` - 1: 2n + 1 each. */
  function RoundsCost(n: nat, m: nat): nat
    decreases n - m
  {
    if m >= n then 0 else 2 * n + 1 + RoundsCost(n, m + 1)
  }

  lemma {:induction false} RoundsCostIs(n: nat, m: nat)
    requires m <= n
    ensures RoundsCost(n, m) == (n - m) * (2 * n + 1)
    decreases n - m
  {
    if m < n {
      RoundsCostIs(n, m + 1);
      assert (n - m) * (2 * n + 1) == (2 * n + 1) + (n - (m + 1)) * (2 * n + 1);
    }
  }

  /** What the recogniser reads once every a and b is marked: the first Y,
      the other Y's, then the blank after the input. */
  lemma MarkedCells(p: Program, n: nat)
    requires AnBnRules(p) && 1 <= n
    ensures var s := Marked(n, n);
      && RowStep(p, s, 0, n, "q0") == RowMoved(s, 0, n + 1, "q3")
      && (forall j :: n + 1 <= j < 2 * n ==> ("q3", s[j]) in p.delta && p.delta[("q3", s[j])] == Rule("q3", s[j], "R"))
      && RowStep(p, s, 0, 2 * n, "q3") == RowMoved(s + "B", 0, 2 * n, "q_accept")
  {
    var s := Marked(n, n);
    MarkedAt(n, n);
    assert s[n := 'Y'] == s;
    assert (s + "B")[2 * n := 'B'] == s + "B";
  }

  /** With every a and b marked: step onto the Y's, move right past them and
      accept on the blank after the input. */
  lemma AllMarked(p: Program, n: nat, steps: nat, arrival: nat)
    requires AnBnRules(p) && 1 <= n && arrival == steps + n + 1 <= MaxSteps
    ensures RowExec(p, Marked(n, n), 0, n, "q0", steps)
      == RowFinal(Returned(Accepted), Marked(n, n) + "B", 0, 2 * n, "q_accept", arrival)
  {
    var s := Marked(n, n);
    MarkedCells(p, n);
    var t, n', steps', end := s + "B", n + 1, steps + 1, 2 * n;
    RowMoves(p, s, 0, n, "q0", steps, s, 0, n', "q3", steps');
    ScanRightThenMove(p, s, 0, n', end, "q3", steps', t, 0, end, "q_accept", arrival);
    RowAccepts(p, t, 0, end, "q_accept", arrival);
  }

  /** Rounds `m`, ..., `n` - 1 mark every remaining a and b; then the
      recogniser accepts, with the step count `arrival`. */
  lemma {:induction false} Rounds(p: Program, n: nat, m: nat, steps: nat, arrival: nat)
    requires AnBnRules(p) && 1 <= n && m <= n && arrival == steps + RoundsCost(n, m) + n + 1 <= MaxSteps
    ensures RowExec(p, Marked(n, m), 0, m, "q0", steps)
      == RowFinal(Returned(Accepted), Marked(n, n) + "B", 0, 2 * n, "q_accept", arrival)
    decreases n - m
  {
    if m < n {
      Round(p, n, m, steps);
      var m', steps' := m + 1, steps + 2 * n + 1;
      Rounds(p, n, m', steps', arrival);
    } else {
      AllMarked(p, n, steps, arrival);
    }
  }

  /** The run on a^n b^n, on a contiguous tape. */
  lemma AnBnRow(p: Program, n: nat)
    requires AnBnRules(p) && 1 <= n && RoundsCost(n, 0) + n + 1 <= MaxSteps
    ensures RowExec(p, Marked(n, 0), 0, 0, p.start, 0)
      == RowFinal(Returned(Accepted), Marked(n, n) + "B", 0, 2 * n, "q_accept", RoundsCost(n, 0) + n + 1)
  {
    Rounds(p, n, 0, 0, RoundsCost(n, 0) + n + 1);
  }

  /** The number of transitions on a^n b^n. */
  lemma AnBnSteps(n: nat)
    ensures RoundsCost(n, 0) + n + 1 == 2 * n * n + 2 * n + 1
  {
    RoundsCostIs(n, 0);
    assert n * (2 * n + 1) == 2 * n * n + n;
  }

  /** The input a^n b^n is the row before the first round, and the row after
      the last round is X^n Y^n. */
  lemma MarkedEnds(n: nat)
    ensures Rep('a', n) + Rep('b', n) == Marked(n, 0)
    ensures Marked(n, n) == Rep('X', n) + Rep('Y', n)
  {
    assert Rep('X', 0) == [] && Rep('Y', 0) == [] && Rep('a', 0) == [] && Rep('b', 0) == [];
    assert n - n == 0;
  }

  /** The recogniser of the application accepts a^n b^n, n >= 1, whenever
      its 2n^2 + 2n + 1 transitions fit in the step ceiling, and leaves
      X^n Y^n and one blank on the tape. */
  lemma AnBnIsCorrect(n: nat)
    requires 1 <= n && 2 * n * n + 2 * n + 1 <= MaxSteps
    ensures var r := Run(AnBn, Rep('a', n) + Rep('b', n));
      && r.outcome == Returned(Accepted) && r.steps == 2 * n * n + 2 * n + 1
      && r.config.tape == Row(Rep('X', n) + Rep('Y', n) + "B", 0)
  {
    assert AnBnRules(AnBn);
    MarkedEnds(n);
    AnBnSteps(n);
    AnBnRow(AnBn, n);
    RunEnds(AnBn, Rep('a', n) + Rep('b', n), Rep('X', n) + Rep('Y', n) + "B", 0);
  }
}
