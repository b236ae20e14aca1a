/**
 * Bracket matching as `Machine::run` does it on reaching a Loop (src/main.rs:152-171):
 * scan forward from the opcode after the Loop with a nesting level of 1, raising it at
 * each Loop and lowering it at each Pool, and stop at the Pool that brings it to 0.
 */
module Brackets {
  import opened Wrappers
  import opened Commands

  /** How an opcode changes the nesting level. */
  function Delta(c: Command): int {
    if c.Loop? then 1 else if c.Pool? then -1 else 0
  }

  /** The number of Loops minus the number of Pools in `xs`. */
  function Net(xs: seq<Command>): int {
    if xs == [] then 0 else Delta(xs[0]) + Net(xs[1..])
  }

  /** Equally many Loops and Pools, and no prefix with more Pools than Loops. */
  predicate Balanced(xs: seq<Command>) {
    Net(xs) == 0 && forall k :: 0 <= k <= |xs| ==> Net(xs[..k]) >= 0
  }

  /** No prefix of `program[s..]` has more Pools than Loops: a Loop just before `s` is never closed. */
  predicate NeverCloses(program: seq<Command>, s: nat)
    requires s <= |program|
  {
    forall k :: s <= k <= |program| ==> Net(program[s..k]) >= 0
  }

  /**
   * The scan loop: `end` is the position to look at next and `level` the nesting depth
   * before it. The index of the matching Pool, or None when the program ends first.
   */
  function Scan(program: seq<Command>, end: nat, level: nat): (r: Option<nat>)
    requires end <= |program| && level >= 1
    ensures r.Some? ==> end <= r.value < |program| && program[r.value].Pool?
    decreases |program| - end
  {
    if end == |program| then None
    else match program[end]
      case Loop => Scan(program, end + 1, level + 1)
      case Pool => if level == 1 then Some(end) else Scan(program, end + 1, level - 1)
      case _ => Scan(program, end + 1, level)
  }

  lemma {:induction false} NetConcat(a: seq<Command>, b: seq<Command>)
    ensures Net(a + b) == Net(a) + Net(b)
  {
    if a == [] {
      assert a + b == b;
    } else {
      assert (a + b)[1..] == a[1..] + b;
      NetConcat(a[1..], b);
    }
  }

  /** Net of a slice, split at its first opcode. */
  lemma NetFirst(program: seq<Command>, s: nat, k: nat)
    requires s < k <= |program|
    ensures Net(program[s..k]) == Delta(program[s]) + Net(program[s + 1..k])
  {
    assert program[s..k][1..] == program[s + 1..k];
  }

  /**
   * The scan stops exactly where the depth first reaches 0: at the returned index the
   * slice read so far, Pool included, brings the level to 0, and at every earlier position
   * it is still at least 1. When the scan finds nothing, the level never reaches 0.
   */
  lemma {:induction false} ScanFindsFirstZero(program: seq<Command>, s: nat, level: nat)
    requires s <= |program| && level >= 1
    ensures Scan(program, s, level).Some? ==>
      var e := Scan(program, s, level).value;
      level + Net(program[s..e + 1]) == 0 &&
      forall k :: s <= k <= e ==> level + Net(program[s..k]) >= 1
    ensures Scan(program, s, level).None? ==>
      forall k :: s <= k <= |program| ==> level + Net(program[s..k]) >= 1
    ensures level == 1 ==> (Scan(program, s, level).None? <==> NeverCloses(program, s))
    decreases |program| - s
  {
    assert program[s..s] == [];
    if s < |program| {
      var next := level + Delta(program[s]);
      forall k | s < k <= |program|
        ensures Net(program[s..k]) == Delta(program[s]) + Net(program[s + 1..k])
      {
        NetFirst(program, s, k);
      }
      if program[s].Pool? && level == 1 {
        assert program[s..s + 1] == [program[s]];
      } else {
        ScanFindsFirstZero(program, s + 1, next);
      }
    }
  }

  /** The opcodes strictly between a Loop and the Pool the scan matches it with are balanced. */
  lemma ScanBodyBalanced(program: seq<Command>, s: nat)
    requires s <= |program| && Scan(program, s, 1).Some?
    ensures Balanced(program[s..Scan(program, s, 1).value])
  {
    var e := Scan(program, s, 1).value;
    ScanFindsFirstZero(program, s, 1);
    var body := program[s..e];
    assert program[s..e + 1] == body + [Pool];
    NetConcat(body, [Pool]);
    assert Net([Pool]) == -1;
    forall k | 0 <= k <= |body|
      ensures Net(body[..k]) >= 0
    {
      assert body[..k] == program[s..s + k];
    }
  }
}
