/**
 * What `Machine::run` (src/main.rs:136-184) does to the machine, as functions on a state
 * value. The `while` that repeats a loop body may run forever, so the functions carry fuel:
 * every repetition of a body spends one unit, and a run that would need more reports
 * OutOfFuel. The imperative interpreter in module Interpreter is proved to agree with them.
 */
module Semantics {
  import Wrappers
  import opened Commands
  import opened Brackets
  import Utf8

  /** The number of cells on the tape (src/main.rs:84). */
  const TAPE_LEN: nat := 30000

  /** The pointer is a `Wrapping<usize>`; usize is taken as 64 bits wide. */
  const WORD_MODULUS: int := 0x1_0000_0000_0000_0000
  type Word = w: int | 0 <= w < 0x1_0000_0000_0000_0000

  /** The kind of `io::Error` that `read_exact` reports when the input has no byte left. */
  datatype IoErrorKind = UnexpectedEndOfInput

  /** `MachineError` (src/main.rs:91-95). */
  datatype MachineError = UnexpectedEof | UnmatchedPool | Io(kind: IoErrorKind)

  /**
   * How a run ends: `Ok(())`, `Err(e)`, a panic on indexing the tape out of range,
   * or a loop repeated more often than the fuel allows.
   */
  datatype Outcome = Ok | Err(error: MachineError) | Fault | OutOfFuel

  /** The machine: tape, pointer, the input not yet read and the output written so far. */
  datatype State = State(tape: seq<Byte>, pointer: Word, input: seq<Byte>, output: seq<Byte>)

  /** `Machine::new` (src/main.rs:127-134): every cell 0, the pointer 0, nothing written. */
  function Initial(input: seq<Byte>): (st: State)
    ensures |st.tape| == TAPE_LEN && st.pointer == 0
    ensures forall i :: 0 <= i < TAPE_LEN ==> st.tape[i] == 0
    ensures st.input == input && st.output == []
  {
    State(seq(TAPE_LEN, _ => 0), 0, input, [])
  }

  /** Whether `memory[pointer]` is an index Rust accepts, rather than a panic. */
  predicate InBounds(st: State) {
    st.pointer < |st.tape|
  }

  /**
   * What every execution keeps: the tape's size; output is only appended to; input is
   * only consumed, from the front.
   */
  predicate Evolves(st: State, st': State) {
    |st'.tape| == |st.tape| &&
    st.output <= st'.output &&
    |st'.input| <= |st.input| && st'.input == st.input[|st.input| - |st'.input|..]
  }

  /** One straight opcode (src/main.rs:139-151). */
  function Step(st: State, c: Command): (r: (Outcome, State))
    requires Straight(c)
    ensures r.0 == Ok || r.0 == Fault || r.0 == Err(Io(UnexpectedEndOfInput))
    ensures r.0 == Fault <==> c != Left && c != Right && !InBounds(st) && !(c == Input && st.input == [])
    ensures r.0 == Err(Io(UnexpectedEndOfInput)) <==> c == Input && st.input == []
  {
    match c
    case Left => (Ok, st.(pointer := (st.pointer - 1) % WORD_MODULUS))
    case Right => (Ok, st.(pointer := (st.pointer + 1) % WORD_MODULUS))
    case Add =>
      if !InBounds(st) then (Fault, st)
      else (Ok, st.(tape := st.tape[st.pointer := (st.tape[st.pointer] as int + 1) % 256]))
    case Sub =>
      if !InBounds(st) then (Fault, st)
      else (Ok, st.(tape := st.tape[st.pointer := (st.tape[st.pointer] as int - 1) % 256]))
    case Input =>
      // read_exact comes first; the byte is consumed before the tape is indexed
      if st.input == [] then (Err(Io(UnexpectedEndOfInput)), st)
      else
        var st' := st.(input := st.input[1..]);
        if !InBounds(st) then (Fault, st')
        else (Ok, st'.(tape := st.tape[st.pointer := st.input[0]]))
    case Output =>
      if !InBounds(st) then (Fault, st)
      else (Ok, st.(output := st.output + Utf8.EncodeLatin1(st.tape[st.pointer])))
  }

  /** `run` on `program`, from the opcode at `index` on: the `for` loop of src/main.rs:137-181. */
  function ExecFrom(st: State, program: seq<Command>, index: nat, fuel: nat): (r: (Outcome, State))
    requires index <= |program|
    decreases fuel, 1, |program| - index
  {
    if index == |program| then (Ok, st)
    else match program[index]
      case Loop =>
        var end := Scan(program, index + 1, 1);
        if end.None? then (Err(UnexpectedEof), st)
        else
          var (o, st') := LoopWhile(st, program[index + 1..end.value], fuel);
          // the `for` loop goes on at index + 1, not after the matching Pool
          if o.Ok? then ExecFrom(st', program, index + 1, fuel) else (o, st')
      case Pool => (Err(UnmatchedPool), st)
      case _ =>
        var (o, st') := Step(st, program[index]);
        if o.Ok? then ExecFrom(st', program, index + 1, fuel) else (o, st')
  }

  /** `run` on a whole program. */
  function Exec(st: State, program: seq<Command>, fuel: nat): (r: (Outcome, State)) {
    ExecFrom(st, program, 0, fuel)
  }

  /** `while memory[pointer] != 0 { run(body)? }` (src/main.rs:173-175). */
  function LoopWhile(st: State, body: seq<Command>, fuel: nat): (r: (Outcome, State))
    ensures r.0 == Ok ==> InBounds(r.1) && r.1.tape[r.1.pointer] == 0
    decreases fuel, 0, 0
  {
    if !InBounds(st) then (Fault, st)
    else if st.tape[st.pointer] == 0 then (Ok, st)
    else if fuel == 0 then (OutOfFuel, st)
    else
      var (o, st') := ExecFrom(st, body, 0, fuel - 1);
      if o.Ok? then LoopWhile(st', body, fuel - 1) else (o, st')
  }

  predicate AllStraight(cs: seq<Command>) {
    forall i :: 0 <= i < |cs| ==> Straight(cs[i])
  }

  /** The straight opcodes one after the other, stopping at the first that does not succeed. */
  function Fold(st: State, cs: seq<Command>): (r: (Outcome, State))
    requires AllStraight(cs)
    ensures r.0 == Ok || r.0 == Fault || r.0 == Err(Io(UnexpectedEndOfInput))
    decreases |cs|
  {
    if cs == [] then (Ok, st)
    else
      var (o, st') := Step(st, cs[0]);
      if o.Ok? then Fold(st', cs[1..]) else (o, st')
  }

  // ---------------------------------------------------------------------------
  // One opcode at a time

  /**
   * Add and Sub change the current cell by one, modulo 256, and nothing else; they panic,
   * changing nothing, when the pointer is off the tape.
   */
  lemma CellArithmetic(st: State, c: Command)
    requires c == Add || c == Sub
    ensures !InBounds(st) <==> Step(st, c) == (Fault, st)
    ensures InBounds(st) ==>
      var (o, st') := Step(st, c);
      o == Ok && st'.pointer == st.pointer && st'.input == st.input && st'.output == st.output &&
      |st'.tape| == |st.tape| &&
      (forall j :: 0 <= j < |st.tape| && j != st.pointer ==> st'.tape[j] == st.tape[j]) &&
      (st'.tape[st.pointer] as int + 256 - st.tape[st.pointer] as int) % 256 == (if c == Add then 1 else 255)
  {
  }

  /** Sub undoes Add and Add undoes Sub. */
  lemma AddSubInverse(st: State)
    requires InBounds(st)
    ensures Step(Step(st, Add).1, Sub) == (Ok, st)
    ensures Step(Step(st, Sub).1, Add) == (Ok, st)
  {
    var p, v := st.pointer, st.tape[st.pointer] as int;
    var up := st.(tape := st.tape[p := (v + 1) % 256]);
    var down := st.(tape := st.tape[p := (v - 1) % 256]);
    assert Step(st, Add) == (Ok, up);
    assert Step(st, Sub) == (Ok, down);
    WrapInverse(v);
    assert Step(up, Sub) == (Ok, st) by {
      assert up.tape[p := v] == st.tape;
    }
    assert Step(down, Add) == (Ok, st) by {
      assert down.tape[p := v] == st.tape;
    }
  }

  lemma WrapInverse(v: Byte)
    ensures ((v + 1) % 256 - 1) % 256 == v && ((v - 1) % 256 + 1) % 256 == v
  {
    if v == 255 {
      assert (v + 1) % 256 == 0;
    } else if v == 0 {
      assert (v - 1) % 256 == 255;
    } else {
      assert (v + 1) % 256 == v + 1 && (v - 1) % 256 == v - 1;
    }
  }

  /**
   * Left and Right move the pointer by one modulo 2^64 and change nothing else; they never
   * panic, even when the pointer leaves the tape.
   */
  lemma PointerMoves(st: State, c: Command)
    requires c == Left || c == Right
    ensures var (o, st') := Step(st, c);
      o == Ok && st'.tape == st.tape && st'.input == st.input && st'.output == st.output &&
      (st'.pointer - st.pointer) % WORD_MODULUS == (if c == Right then 1 else WORD_MODULUS - 1)
  {
  }

  /** Right undoes Left and Left undoes Right; from cell 0, Left leaves the tape. */
  lemma LeftRightInverse(st: State)
    ensures Step(Step(st, Left).1, Right) == (Ok, st)
    ensures Step(Step(st, Right).1, Left) == (Ok, st)
    ensures st.pointer == 0 && |st.tape| == TAPE_LEN ==> !InBounds(Step(st, Left).1)
  {
    var p := st.pointer;
    var left, right := (p - 1) % WORD_MODULUS, (p + 1) % WORD_MODULUS;
    if p == 0 {
      assert left == WORD_MODULUS - 1 && (left + 1) % WORD_MODULUS == 0;
    } else {
      assert left == p - 1 && (left + 1) % WORD_MODULUS == p;
    }
    if p == WORD_MODULUS - 1 {
      assert right == 0 && (right - 1) % WORD_MODULUS == p;
    } else {
      assert right == p + 1 && (right - 1) % WORD_MODULUS == p;
    }
    assert Step(st, Left).1 == st.(pointer := left);
    assert Step(st, Right).1 == st.(pointer := right);
  }

  /**
   * Input stores exactly the next input byte in the current cell and consumes it. With no
   * input left it fails with an Io error (never UnexpectedEof) and changes nothing.
   */
  lemma InputReadsOneByte(st: State)
    ensures st.input == [] ==>
      Step(st, Input) == (Err(Io(UnexpectedEndOfInput)), st) && Step(st, Input).0 != Err(UnexpectedEof)
    ensures st.input != [] && InBounds(st) ==>
      var (o, st') := Step(st, Input);
      o == Ok && [st.input[0]] + st'.input == st.input && st'.pointer == st.pointer &&
      st'.output == st.output && st'.tape[st.pointer] == st.input[0] &&
      forall j :: 0 <= j < |st.tape| && j != st.pointer ==> st'.tape[j] == st.tape[j]
  {
  }

  /**
   * Output appends the UTF-8 encoding of the current cell's value as a code point, one byte
   * below 0x80 and two from there on, which decodes back to that value.
   */
  lemma OutputWritesCell(st: State)
    requires InBounds(st)
    ensures var (o, st') := Step(st, Output);
      var v := st.tape[st.pointer];
      o == Ok && st'.tape == st.tape && st'.pointer == st.pointer && st'.input == st.input &&
      st'.output[..|st.output|] == st.output &&
      |st'.output| == |st.output| + (if v < 0x80 then 1 else 2) &&
      Utf8.Decode(st'.output[|st.output|..]) == Wrappers.Some(v as int)
  {
    var st' := Step(st, Output).1;
    assert st'.output[|st.output|..] == Utf8.EncodeLatin1(st.tape[st.pointer]);
  }

  /**
   * Off the tape, every indexing of `memory` panics: Output and the `while` test change
   * nothing, while Input has already consumed its byte when it panics.
   */
  lemma OffTapeFaults(st: State, body: seq<Command>, fuel: nat)
    requires !InBounds(st)
    ensures st.input != [] ==> Step(st, Input) == (Fault, st.(input := st.input[1..]))
    ensures Step(st, Output) == (Fault, st)
    ensures LoopWhile(st, body, fuel) == (Fault, st)
  {
  }

  /** `n` Adds in a row raise the current cell by `n`, modulo 256. */
  lemma {:induction false} FoldAdds(st: State, n: nat)
    requires InBounds(st)
    ensures AllStraight(seq(n, _ => Add))
    ensures Fold(st, seq(n, _ => Add)) == (Ok, Bump(st, n))
    decreases n
  {
    var adds := seq(n, _ => Add);
    if n == 0 {
      assert Bump(st, 0).tape == st.tape;
    } else {
      assert adds[0] == Add && adds[1..] == seq(n - 1, _ => Add);
      var st1 := Step(st, Add).1;
      assert st1 == Bump(st, 1);
      assert Fold(st, adds) == Fold(st1, seq(n - 1, _ => Add));
      FoldAdds(st1, n - 1);
      BumpTwice(st, n - 1);
    }
  }

  /** The state with the current cell raised by `n`, modulo 256. */
  function Bump(st: State, n: nat): (st': State)
    requires InBounds(st)
    ensures InBounds(st') && st'.pointer == st.pointer
  {
    st.(tape := st.tape[st.pointer := (st.tape[st.pointer] as int + n) % 256])
  }

  lemma BumpTwice(st: State, n: nat)
    requires InBounds(st)
    ensures Bump(Bump(st, 1), n) == Bump(st, n + 1)
  {
    var v := st.tape[st.pointer] as int;
    if v == 255 {
      assert (v + 1) % 256 == 0;
      assert (0 + n) % 256 == (v + n + 1) % 256;
    } else {
      assert (v + 1) % 256 == v + 1;
    }
    assert Bump(Bump(st, 1), n).tape == Bump(st, n + 1).tape;
  }

  /** 256 Adds restore the current cell. */
  lemma AddWrapsAround(st: State, fuel: nat)
    requires InBounds(st)
    ensures Exec(st, seq(256, _ => Add), fuel) == (Ok, st)
  {
    var adds := seq(256, _ => Add);
    assert Fold(st, adds) == (Ok, Bump(st, 256)) by {
      FoldAdds(st, 256);
    }
    assert Exec(st, adds, fuel) == Fold(st, adds) by {
      assert adds[0..] == adds;
      StraightRunIsFold(st, adds, 0, fuel);
    }
    assert Bump(st, 256).tape == st.tape;
  }

  /** Two Adds take a cell holding 255 to 1. */
  lemma AddTwiceFrom255(st: State, fuel: nat)
    requires InBounds(st) && st.tape[st.pointer] == 255
    ensures Exec(st, [Add, Add], fuel) == (Ok, st.(tape := st.tape[st.pointer := 1]))
  {
    var adds := [Add, Add];
    assert adds == seq(2, _ => Add);
    assert Fold(st, adds) == (Ok, Bump(st, 2)) by {
      FoldAdds(st, 2);
    }
    assert Exec(st, adds, fuel) == Fold(st, adds) by {
      assert adds[0..] == adds;
      StraightRunIsFold(st, adds, 0, fuel);
    }
  }

  /** Running two straight stretches one after the other is running their concatenation. */
  lemma {:induction false} FoldConcat(st: State, a: seq<Command>, b: seq<Command>)
    requires AllStraight(a) && AllStraight(b)
    ensures AllStraight(a + b)
    ensures Fold(st, a + b) ==
      var (o, st') := Fold(st, a);
      if o.Ok? then Fold(st', b) else (o, st')
    decreases |a|
  {
    if a == [] {
      assert a + b == b;
    } else {
      assert (a + b)[0] == a[0] && (a + b)[1..] == a[1..] + b;
      var (o, st') := Step(st, a[0]);
      if o.Ok? {
        FoldConcat(st', a[1..], b);
      }
    }
  }

  // ---------------------------------------------------------------------------
  // Loops

  /**
   * A Loop that no prefix of the rest of the program closes fails with UnexpectedEof
   * before touching anything.
   */
  lemma UnmatchedLoopIsEof(st: State, program: seq<Command>, index: nat, fuel: nat)
    requires index < |program| && program[index].Loop? && NeverCloses(program, index + 1)
    ensures ExecFrom(st, program, index, fuel) == (Err(UnexpectedEof), st)
  {
    ScanFindsFirstZero(program, index + 1, 1);
    if Scan(program, index + 1, 1).Some? {
      assert false;
    }
  }

  /** A Loop reached with the current cell 0 runs no iteration: the run goes on with the next opcode, state unchanged. */
  lemma ZeroCellLoopSkipsBody(st: State, program: seq<Command>, index: nat, fuel: nat)
    requires index < |program| && program[index].Loop? && Scan(program, index + 1, 1).Some?
    requires InBounds(st) && st.tape[st.pointer] == 0
    ensures ExecFrom(st, program, index, fuel) == ExecFrom(st, program, index + 1, fuel)
  {
  }

  /** On a zero cell the `while` runs the body not even once: it succeeds and changes nothing. */
  lemma ZeroCellLoopHasNoEffect(st: State, body: seq<Command>, fuel: nat)
    requires InBounds(st) && st.tape[st.pointer] == 0
    ensures LoopWhile(st, body, fuel) == (Ok, st)
  {
  }

  /** A loop with an empty body and a non-zero cell never ends: every amount of fuel runs out. */
  lemma {:induction false} EmptyBodySpins(st: State, fuel: nat)
    requires InBounds(st) && st.tape[st.pointer] != 0
    ensures LoopWhile(st, [], fuel) == (OutOfFuel, st)
  {
    if fuel > 0 {
      EmptyBodySpins(st, fuel - 1);
    }
  }

  /**
   * The program Loop Pool is not a no-op: with the cell 0 the Pool is reached by the
   * `for` loop and is unmatched; otherwise the empty body spins forever.
   */
  lemma LoopPoolNeverSucceeds(st: State, fuel: nat)
    ensures !InBounds(st) ==> Exec(st, [Loop, Pool], fuel) == (Fault, st)
    ensures InBounds(st) && st.tape[st.pointer] == 0 ==>
      Exec(st, [Loop, Pool], fuel) == (Err(UnmatchedPool), st)
    ensures InBounds(st) && st.tape[st.pointer] != 0 ==>
      Exec(st, [Loop, Pool], fuel) == (OutOfFuel, st)
  {
    var program := [Loop, Pool];
    assert Scan(program, 1, 1) == Wrappers.Some(1);
    assert program[1..1] == [];
    assert Exec(st, program, fuel) ==
      var (o, st') := LoopWhile(st, [], fuel);
      if o.Ok? then ExecFrom(st', program, 1, fuel) else (o, st');
    if !InBounds(st) {
      assert LoopWhile(st, [], fuel) == (Fault, st);
    } else if st.tape[st.pointer] == 0 {
      assert LoopWhile(st, [], fuel) == (Ok, st);
      assert ExecFrom(st, program, 1, fuel) == (Err(UnmatchedPool), st);
    } else {
      EmptyBodySpins(st, fuel);
    }
  }

  // ---------------------------------------------------------------------------
  // Whole runs

  /** On a program without brackets, a run is the opcodes' steps one after the other. */
  lemma {:induction false} StraightRunIsFold(st: State, program: seq<Command>, index: nat, fuel: nat)
    requires index <= |program| && AllStraight(program[index..])
    ensures ExecFrom(st, program, index, fuel) == Fold(st, program[index..])
    decreases |program| - index
  {
    if index < |program| {
      assert program[index..][0] == program[index];
      assert program[index..][1..] == program[index + 1..];
      var (o, st') := Step(st, program[index]);
      if o.Ok? {
        StraightRunIsFold(st', program, index + 1, fuel);
      }
    }
  }

  /**
   * A run that returns Ok met no bracket: since the `for` loop walks on into the body of
   * every loop it ran and then reaches that loop's Pool, a program with any Loop or Pool
   * never succeeds.
   */
  lemma {:induction false} OkRunHasNoBrackets(st: State, program: seq<Command>, index: nat, fuel: nat)
    requires index <= |program| && ExecFrom(st, program, index, fuel).0 == Ok
    ensures AllStraight(program[index..])
    decreases |program| - index
  {
    if index < |program| {
      if program[index].Loop? {
        var e := Scan(program, index + 1, 1).value;
        var (o, st') := LoopWhile(st, program[index + 1..e], fuel);
        OkRunHasNoBrackets(st', program, index + 1, fuel);
        assert false;
      } else {
        var (o, st') := Step(st, program[index]);
        OkRunHasNoBrackets(st', program, index + 1, fuel);
        assert forall j :: 1 <= j < |program[index..]| ==> program[index..][j] == program[index + 1..][j - 1];
      }
    }
  }

  /** Every successful run is a straight fold of single-opcode steps over a bracket-free program. */
  lemma OkRunIsFold(st: State, program: seq<Command>, fuel: nat)
    requires Exec(st, program, fuel).0 == Ok
    ensures AllStraight(program) && Exec(st, program, fuel) == Fold(st, program)
  {
    OkRunHasNoBrackets(st, program, 0, fuel);
    assert program[0..] == program;
    StraightRunIsFold(st, program, 0, fuel);
  }

  /** Fuel only cuts runs off: a run that did not run out gives the same result with more fuel. */
  lemma {:induction false} ExecFromMoreFuel(st: State, program: seq<Command>, index: nat, fuel: nat, more: nat)
    requires index <= |program| && fuel <= more
    requires ExecFrom(st, program, index, fuel).0 != OutOfFuel
    ensures ExecFrom(st, program, index, more) == ExecFrom(st, program, index, fuel)
    decreases fuel, 1, |program| - index
  {
    if index < |program| {
      if program[index].Loop? {
        var end := Scan(program, index + 1, 1);
        if end.Some? {
          var body := program[index + 1..end.value];
          var (o, st') := LoopWhile(st, body, fuel);
          LoopWhileMoreFuel(st, body, fuel, more);
          if o.Ok? {
            ExecFromMoreFuel(st', program, index + 1, fuel, more);
          }
        }
      } else if !program[index].Pool? {
        var (o, st') := Step(st, program[index]);
        if o.Ok? {
          ExecFromMoreFuel(st', program, index + 1, fuel, more);
        }
      }
    }
  }

  lemma {:induction false} LoopWhileMoreFuel(st: State, body: seq<Command>, fuel: nat, more: nat)
    requires fuel <= more && LoopWhile(st, body, fuel).0 != OutOfFuel
    ensures LoopWhile(st, body, more) == LoopWhile(st, body, fuel)
    decreases fuel, 0, 0
  {
    if InBounds(st) && st.tape[st.pointer] != 0 {
      var r := ExecFrom(st, body, 0, fuel - 1);
      assert LoopWhile(st, body, fuel) == if r.0.Ok? then LoopWhile(r.1, body, fuel - 1) else r by {
        LoopWhileUnfold(st, body, fuel);
      }
      assert ExecFrom(st, body, 0, more - 1) == r by {
        ExecFromMoreFuel(st, body, 0, fuel - 1, more - 1);
      }
      assert LoopWhile(st, body, more) == if r.0.Ok? then LoopWhile(r.1, body, more - 1) else r by {
        LoopWhileUnfold(st, body, more);
      }
      if r.0.Ok? {
        LoopWhileMoreFuel(r.1, body, fuel - 1, more - 1);
      }
    }
  }

  /** One iteration of the `while`: run the body once, then test again. */
  lemma LoopWhileUnfold(st: State, body: seq<Command>, fuel: nat)
    requires InBounds(st) && st.tape[st.pointer] != 0 && fuel > 0
    ensures var r := ExecFrom(st, body, 0, fuel - 1);
      LoopWhile(st, body, fuel) == if r.0.Ok? then LoopWhile(r.1, body, fuel - 1) else r
  {
  }

  // ---------------------------------------------------------------------------
  // What every run keeps

  lemma EvolvesReflexive(st: State)
    ensures Evolves(st, st)
  {
    assert st.input[|st.input| - |st.input|..] == st.input;
  }

  lemma EvolvesTransitive(a: State, b: State, c: State)
    requires Evolves(a, b) && Evolves(b, c)
    ensures Evolves(a, c)
  {
    assert c.input == b.input[|b.input| - |c.input|..];
  }

  /** One step keeps the tape's size, only appends output and only consumes input. */
  lemma StepEvolves(st: State, c: Command)
    requires Straight(c)
    ensures Evolves(st, Step(st, c).1)
  {
    assert st.input[|st.input| - |st.input|..] == st.input;
  }

  /**
   * A whole run, however it ends, keeps the tape at its size, leaves the output written
   * before it in place and consumes input only from the front.
   */
  lemma {:induction false} ExecFromEvolves(st: State, program: seq<Command>, index: nat, fuel: nat)
    requires index <= |program|
    ensures Evolves(st, ExecFrom(st, program, index, fuel).1)
    decreases fuel, 1, |program| - index
  {
    EvolvesReflexive(st);
    if index < |program| {
      if program[index].Loop? {
        var end := Scan(program, index + 1, 1);
        if end.Some? {
          var body := program[index + 1..end.value];
          var r := LoopWhile(st, body, fuel);
          assert Evolves(st, r.1) by {
            LoopWhileEvolves(st, body, fuel);
          }
          if r.0.Ok? {
            var r' := ExecFrom(r.1, program, index + 1, fuel);
            assert ExecFrom(st, program, index, fuel) == r';
            assert Evolves(r.1, r'.1) by {
              ExecFromEvolves(r.1, program, index + 1, fuel);
            }
            EvolvesTransitive(st, r.1, r'.1);
          }
        }
      } else if !program[index].Pool? {
        var r := Step(st, program[index]);
        assert Evolves(st, r.1) by {
          StepEvolves(st, program[index]);
        }
        if r.0.Ok? {
          var r' := ExecFrom(r.1, program, index + 1, fuel);
          assert ExecFrom(st, program, index, fuel) == r';
          assert Evolves(r.1, r'.1) by {
            ExecFromEvolves(r.1, program, index + 1, fuel);
          }
          EvolvesTransitive(st, r.1, r'.1);
        }
      }
    }
  }

  lemma {:induction false} LoopWhileEvolves(st: State, body: seq<Command>, fuel: nat)
    ensures Evolves(st, LoopWhile(st, body, fuel).1)
    decreases fuel, 0, 0
  {
    EvolvesReflexive(st);
    if InBounds(st) && st.tape[st.pointer] != 0 && fuel > 0 {
      var r := ExecFrom(st, body, 0, fuel - 1);
      assert Evolves(st, r.1) by {
        ExecFromEvolves(st, body, 0, fuel - 1);
      }
      if r.0.Ok? {
        var r' := LoopWhile(r.1, body, fuel - 1);
        assert LoopWhile(st, body, fuel) == r';
        assert Evolves(r.1, r'.1) by {
          LoopWhileEvolves(r.1, body, fuel - 1);
        }
        EvolvesTransitive(st, r.1, r'.1);
      }
    }
  }
}
