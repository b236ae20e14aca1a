/**
 * The machine of src/main.rs:83-185 as the source has it: an object whose methods update a
 * fixed-size tape, a pointer, an input it reads from and an output it writes to. Each method
 * is proved to do what the functions of module Semantics say.
 */
module Interpreter {
  import Wrappers
  import opened Commands
  import opened Brackets
  import opened Semantics
  import Utf8

  /**
   * The bracket scan of src/main.rs:153-171: from `start` on, count Loops up and Pools down
   * from a level of 1 and give the index of the Pool that brings the level to 0, or None
   * when the program ends first.
   */
  method FindMatchingPool(program: seq<Command>, start: nat) returns (r: Wrappers.Option<nat>)
    requires start <= |program|
    ensures r == Scan(program, start, 1)
    ensures r.Some? ==> start <= r.value < |program| && program[r.value].Pool?
  {
    var end := start;
    var level := 1;
    while true
      invariant start <= end <= |program| && level >= 1
      invariant Scan(program, end, level) == Scan(program, start, 1)
      decreases |program| - end
    {
      if end == |program| {
        return Wrappers.None;
      }
      match program[end] {
        case Loop =>
          level := level + 1;
        case Pool =>
          level := level - 1;
          if level == 0 {
            return Wrappers.Some(end);
          }
        case _ =>
      }
      end := end + 1;
    }
  }

  class Machine {
    /** The 30000 cells; the array itself never changes, its contents do. */
    const memory: array<Byte>
    var pointer: Word
    /** The bytes the input reader has not yet handed out. */
    var input: seq<Byte>
    /** Everything written to the output so far. */
    var output: seq<Byte>

    /** The machine as a value of the semantics. */
    ghost function Snapshot(): State
      reads this, memory
    {
      State(memory[..], pointer, input, output)
    }

    /** `Machine::new` (src/main.rs:127-134). */
    constructor (input: seq<Byte>)
      ensures fresh(memory) && memory.Length == TAPE_LEN
      ensures Snapshot() == Initial(input)
    {
      memory := new Byte[TAPE_LEN](_ => 0);
      pointer := 0;
      this.input := input;
      output := [];
    }

    /** One straight opcode of the `match` in `run` (src/main.rs:139-151). */
    method Execute(c: Command) returns (o: Outcome)
      requires Straight(c)
      modifies this, memory
      ensures (o, Snapshot()) == Step(old(Snapshot()), c)
    {
      match c {
        case Left =>
          pointer := (pointer - 1) % WORD_MODULUS;
          o := Ok;
        case Right =>
          pointer := (pointer + 1) % WORD_MODULUS;
          o := Ok;
        case Add =>
          if pointer >= memory.Length {
            o := Fault;
          } else {
            memory[pointer] := (memory[pointer] as int + 1) % 256;
            o := Ok;
          }
        case Sub =>
          if pointer >= memory.Length {
            o := Fault;
          } else {
            memory[pointer] := (memory[pointer] as int - 1) % 256;
            o := Ok;
          }
        case Input =>
          if input == [] {
            o := Err(Io(UnexpectedEndOfInput));
          } else {
            var b := input[0];
            input := input[1..];
            if pointer >= memory.Length {
              o := Fault;
            } else {
              memory[pointer] := b;
              o := Ok;
            }
          }
        case Output =>
          if pointer >= memory.Length {
            o := Fault;
          } else {
            output := output + Utf8.EncodeLatin1(memory[pointer]);
            o := Ok;
          }
      }
    }

    /** `Machine::run` (src/main.rs:136-184), with `fuel` bounding how often loop bodies repeat. */
    method Run(program: seq<Command>, fuel: nat) returns (o: Outcome)
      modifies this, memory
      ensures (o, Snapshot()) == Exec(old(Snapshot()), program, fuel)
      decreases fuel, 1
    {
      var index := 0;
      while index < |program|
        invariant index <= |program|
        invariant ExecFrom(Snapshot(), program, index, fuel) == Exec(old(Snapshot()), program, fuel)
        decreases |program| - index
      {
        var c := program[index];
        if c.Loop? {
          var end := FindMatchingPool(program, index + 1);
          if end.None? {
            return Err(UnexpectedEof);
          }
          o := RunLoop(program[index + 1..end.value], fuel);
          if !o.Ok? {
            return;
          }
        } else if c.Pool? {
          return Err(UnmatchedPool);
        } else {
          o := Execute(c);
          if !o.Ok? {
            return;
          }
        }
        index := index + 1;
      }
      return Ok;
    }

    /** `while memory[pointer] != 0 { run(body)? }` (src/main.rs:173-175). */
    method RunLoop(body: seq<Command>, fuel: nat) returns (o: Outcome)
      modifies this, memory
      ensures (o, Snapshot()) == LoopWhile(old(Snapshot()), body, fuel)
      decreases fuel, 0
    {
      var f: nat := fuel;
      while true
        invariant f <= fuel
        invariant LoopWhile(Snapshot(), body, f) == LoopWhile(old(Snapshot()), body, fuel)
        decreases f
      {
        if pointer >= memory.Length {
          return Fault;
        }
        if memory[pointer] == 0 {
          return Ok;
        }
        if f == 0 {
          return OutOfFuel;
        }
        o := Run(body, f - 1);
        if !o.Ok? {
          return;
        }
        f := f - 1;
      }
    }
  }
}
