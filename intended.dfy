/**
 * `Machine::run` as it was evidently meant to work: when a loop's `while` ends, execution
 * resumes after the loop's matching Pool. The code as written (module Semantics) resumes
 * at the opcode right after the Loop instead, so it runs the body once more outside the
 * loop and then stops at the Pool with UnmatchedPool. This module gives the corrected
 * semantics and proves that with it a balanced program never fails for a bracket.
 */
module Intended {
  import Wrappers
  import opened Commands
  import opened Brackets
  import opened Semantics

  /** The corrected `for` loop: after a loop, go on at the opcode after its matching Pool. */
  function RunFrom(st: State, program: seq<Command>, index: nat, fuel: nat): (r: (Outcome, State))
    requires index <= |program|
    decreases fuel, 1, |program| - index
  {
    if index == |program| then (Ok, st)
    else match program[index]
      case Loop =>
        var end := Scan(program, index + 1, 1);
        if end.None? then (Err(UnexpectedEof), st)
        else
          var (o, st') := Repeat(st, program[index + 1..end.value], fuel);
          if o.Ok? then RunFrom(st', program, end.value + 1, fuel) else (o, st')
      case Pool => (Err(UnmatchedPool), st)
      case _ =>
        var (o, st') := Step(st, program[index]);
        if o.Ok? then RunFrom(st', program, index + 1, fuel) else (o, st')
  }

  function Run(st: State, program: seq<Command>, fuel: nat): (r: (Outcome, State)) {
    RunFrom(st, program, 0, fuel)
  }

  /** The `while` of a loop under the corrected semantics. */
  function Repeat(st: State, body: seq<Command>, fuel: nat): (r: (Outcome, State))
    ensures r.0 == Ok ==> InBounds(r.1) && r.1.tape[r.1.pointer] == 0
    decreases fuel, 0, 0
  {
    if !InBounds(st) then (Fault, st)
    else if st.tape[st.pointer] == 0 then (Ok, st)
    else if fuel == 0 then (OutOfFuel, st)
    else
      var (o, st') := RunFrom(st, body, 0, fuel - 1);
      if o.Ok? then Repeat(st', body, fuel - 1) else (o, st')
  }

  /** Corrected, Loop Pool on a zero cell does nothing and succeeds. */
  lemma LoopPoolOnZeroIsNoOp(st: State, fuel: nat)
    requires InBounds(st) && st.tape[st.pointer] == 0
    ensures Run(st, [Loop, Pool], fuel) == (Ok, st)
  {
    var program := [Loop, Pool];
    assert Scan(program, 1, 1) == Wrappers.Some(1);
    assert program[1..1] == [];
    assert Repeat(st, [], fuel) == (Ok, st);
    assert RunFrom(st, program, 2, fuel) == (Ok, st);
  }

  /** A balanced sequence does not start with a Pool. */
  lemma BalancedHead(xs: seq<Command>)
    requires Balanced(xs) && xs != []
    ensures !xs[0].Pool?
  {
    assert xs[..1] == [xs[0]];
    assert Net(xs[..1]) == Delta(xs[0]);
  }

  /** What remains of a balanced sequence after a balanced prefix is balanced. */
  lemma BalancedSuffix(xs: seq<Command>, i: nat)
    requires Balanced(xs) && i <= |xs| && Net(xs[..i]) == 0
    ensures Balanced(xs[i..])
  {
    assert xs == xs[..i] + xs[i..];
    NetConcat(xs[..i], xs[i..]);
    forall k | 0 <= k <= |xs[i..]|
      ensures Net(xs[i..][..k]) >= 0
    {
      assert xs[..i + k] == xs[..i] + xs[i..][..k];
      NetConcat(xs[..i], xs[i..][..k]);
    }
  }

  /**
   * In a balanced program a Loop has a matching Pool; the body between them is balanced,
   * and so is what follows the Pool.
   */
  lemma BalancedLoop(program: seq<Command>, index: nat)
    requires index < |program| && Balanced(program[index..]) && program[index].Loop?
    ensures Scan(program, index + 1, 1).Some?
    ensures var e := Scan(program, index + 1, 1).value;
      Balanced(program[index + 1..e]) && Balanced(program[e + 1..])
  {
    var xs := program[index..];
    NetFirst(program, index, |program|);
    assert xs == program[index..|program|];
    assert Net(program[index + 1..|program|]) < 0;
    ScanFindsFirstZero(program, index + 1, 1);
    var e := Scan(program, index + 1, 1).value;
    ScanBodyBalanced(program, index + 1);
    NetFirst(program, index, e + 1);
    assert xs[..e + 1 - index] == program[index..e + 1];
    BalancedSuffix(xs, e + 1 - index);
    assert xs[e + 1 - index..] == program[e + 1..];
  }

  /** In a balanced program an opcode other than a Loop is straight, and what follows it is balanced. */
  lemma BalancedStraight(program: seq<Command>, index: nat)
    requires index < |program| && Balanced(program[index..]) && !program[index].Loop?
    ensures Straight(program[index]) && Balanced(program[index + 1..])
  {
    var xs := program[index..];
    BalancedHead(xs);
    assert xs[..1] == [program[index]];
    assert Net(xs[..1]) == 0;
    BalancedSuffix(xs, 1);
    assert xs[1..] == program[index + 1..];
  }

  /**
   * Under the corrected semantics a balanced program never reports UnexpectedEof or
   * UnmatchedPool: every Loop finds its Pool, and no Pool is reached outside its loop.
   */
  lemma {:induction false} BalancedNoBracketErrors(st: State, program: seq<Command>, index: nat, fuel: nat)
    requires index <= |program| && Balanced(program[index..])
    ensures var o := RunFrom(st, program, index, fuel).0;
      o != Err(UnexpectedEof) && o != Err(UnmatchedPool)
    decreases fuel, 1, |program| - index
  {
    if index < |program| {
      if program[index].Loop? {
        BalancedLoop(program, index);
        var e := Scan(program, index + 1, 1).value;
        var body := program[index + 1..e];
        var r := Repeat(st, body, fuel);
        assert r.0 != Err(UnexpectedEof) && r.0 != Err(UnmatchedPool) by {
          RepeatNoBracketErrors(st, body, fuel);
        }
        if r.0.Ok? {
          BalancedNoBracketErrors(r.1, program, e + 1, fuel);
        }
      } else {
        BalancedStraight(program, index);
        var r := Step(st, program[index]);
        if r.0.Ok? {
          BalancedNoBracketErrors(r.1, program, index + 1, fuel);
        }
      }
    }
  }

  lemma {:induction false} RepeatNoBracketErrors(st: State, body: seq<Command>, fuel: nat)
    requires Balanced(body)
    ensures var o := Repeat(st, body, fuel).0;
      o != Err(UnexpectedEof) && o != Err(UnmatchedPool)
    decreases fuel, 0, 0
  {
    if InBounds(st) && st.tape[st.pointer] != 0 && fuel > 0 {
      assert body[0..] == body;
      var r := RunFrom(st, body, 0, fuel - 1);
      assert r.0 != Err(UnexpectedEof) && r.0 != Err(UnmatchedPool) by {
        BalancedNoBracketErrors(st, body, 0, fuel - 1);
      }
      if r.0.Ok? {
        RepeatNoBracketErrors(r.1, body, fuel - 1);
      }
    }
  }

  /** On programs without brackets the correction changes nothing. */
  lemma {:induction false} StraightRunsAgree(st: State, program: seq<Command>, index: nat, fuel: nat)
    requires index <= |program| && AllStraight(program[index..])
    ensures RunFrom(st, program, index, fuel) == ExecFrom(st, program, index, fuel)
    decreases |program| - index
  {
    if index < |program| {
      assert program[index..][0] == program[index];
      var rest := program[index + 1..];
      forall j | 0 <= j < |rest|
        ensures Straight(rest[j])
      {
        assert rest[j] == program[index..][j + 1];
      }
      var r := Step(st, program[index]);
      if r.0.Ok? {
        StraightRunsAgree(r.1, program, index + 1, fuel);
      }
    }
  }
}
