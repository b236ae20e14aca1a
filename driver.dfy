/**
 * `main` (src/main.rs:187-200) without its file and console plumbing: parse the source
 * text, stop with the parser's error if there is one, otherwise run the program on a
 * fresh machine reading the given input bytes.
 */
module Driver {
  import opened Wrappers
  import opened Commands
  import opened Lexer
  import Semantics
  import Interpreter
  import Utf8
  import Intended
  import Brackets

  /** How a run of the interpreter ends: a parse error, or the machine's outcome and output. */
  datatype RunResult = ParseFailed(error: ParserError) | Ran(outcome: Semantics.Outcome, output: seq<Byte>)

  /** What the program does with `source` and `input`, loop repetitions bounded by `fuel`. */
  function Interpret(source: seq<CodePoint>, input: seq<Byte>, fuel: nat): (r: RunResult)
    ensures r.ParseFailed? <==> Collect(source).Err?
    ensures r.ParseFailed? ==> r.error == Collect(source).error
  {
    var parsed := Collect(source);
    if parsed.Err? then ParseFailed(parsed.error)
    else
      var (o, st) := Semantics.Exec(Semantics.Initial(input), parsed.value, fuel);
      Ran(o, st.output)
  }

  /** Parse, then build a `Machine` and `run` it (src/main.rs:190-197). */
  method RunSource(source: seq<CodePoint>, input: seq<Byte>, fuel: nat) returns (r: RunResult)
    ensures r == Interpret(source, input, fuel)
  {
    var parsed := Collect(source);
    if parsed.Err? {
      return ParseFailed(parsed.error);
    }
    var machine := new Interpreter.Machine(input);
    var o := machine.Run(parsed.value, fuel);
    return Ran(o, machine.output);
  }

  /** A run that succeeds was given a bracket-free program. */
  lemma SuccessMeansNoBrackets(source: seq<CodePoint>, input: seq<Byte>, fuel: nat)
    requires Interpret(source, input, fuel).Ran? && Interpret(source, input, fuel).outcome == Semantics.Ok
    ensures Collect(source).Ok? && Semantics.AllStraight(Collect(source).value)
  {
    Semantics.OkRunIsFold(Semantics.Initial(input), Collect(source).value, fuel);
  }

  /** Empty source: nothing to run, nothing written. */
  lemma EmptySource(input: seq<Byte>, fuel: nat)
    ensures Interpret([], input, fuel) == Ran(Semantics.Ok, [])
  {
  }

  /** The program 🫂 alone: the scan for its Pool runs off the end. */
  lemma LoneLoop(input: seq<Byte>, fuel: nat)
    ensures Interpret([PEOPLE_HUGGING], input, fuel) == Ran(Semantics.Err(Semantics.UnexpectedEof), [])
  {
    CollectRender([Loop]);
    assert Render([Loop]) == [PEOPLE_HUGGING];
    var program := [Loop];
    Semantics.UnmatchedLoopIsEof(Semantics.Initial(input), program, 0, fuel);
  }

  /** A lone ✨: the Pool is met with no Loop open. */
  lemma LonePool(input: seq<Byte>, fuel: nat)
    ensures Interpret([SPARKLES], input, fuel) == Ran(Semantics.Err(Semantics.UnmatchedPool), [])
  {
    CollectRender([Pool]);
    assert Render([Pool]) == [SPARKLES];
  }

  /** The program 🫂✨ on a fresh machine: the Pool is reached outside the loop. */
  lemma EmptyLoop(input: seq<Byte>, fuel: nat)
    ensures Interpret([PEOPLE_HUGGING, SPARKLES], input, fuel) == Ran(Semantics.Err(Semantics.UnmatchedPool), [])
  {
    CollectRender([Loop, Pool]);
    assert Render([Loop, Pool]) == [PEOPLE_HUGGING, SPARKLES] by {
      assert Render([Loop, Pool]) == Lexeme(Loop) + Render([Pool]);
    }
    Semantics.LoopPoolNeverSucceeds(Semantics.Initial(input), fuel);
  }

  /** A heart without its variation selector is a parse error; nothing runs. */
  lemma BrokenHeart(rest: seq<CodePoint>, input: seq<Byte>, fuel: nat)
    requires rest == [] || rest[0] != VARIATION_SELECTOR_16
    ensures Interpret([HEAVY_HEART] + rest, input, fuel) == ParseFailed(IncompleteHeart)
  {
    var s := [HEAVY_HEART] + rest;
    HeartWithoutSelector(s);
    ItemsCollectStep(s);
  }

  /** `,.` echoes one input byte, and fails with an Io error on empty input. */
  lemma Echo(input: seq<Byte>, fuel: nat)
    ensures input != [] ==> Interpret([COMMA, FULL_STOP], input, fuel) == Ran(Semantics.Ok, Utf8.EncodeLatin1(input[0]))
    ensures input == [] ==>
      Interpret([COMMA, FULL_STOP], input, fuel) == Ran(Semantics.Err(Semantics.Io(Semantics.UnexpectedEndOfInput)), [])
  {
    CollectRender([Input, Output]);
    assert Render([Input, Output]) == [COMMA, FULL_STOP] by {
      assert Render([Input, Output]) == Lexeme(Input) + Render([Output]);
    }
    if input != [] {
      var program := [Input, Output];
      var st := Semantics.Initial(input);
      var st1 := Semantics.Step(st, Input).1;
      assert Semantics.Step(st, Input).0 == Semantics.Ok && st1.tape[0] == input[0];
      assert Semantics.Exec(st, program, fuel) == Semantics.ExecFrom(st1, program, 1, fuel);
      assert Semantics.ExecFrom(st1, program, 1, fuel) == Semantics.Step(st1, Output);
    }
  }

  /** 65 👉👈 then `.` prints "A". */
  lemma PrintA(input: seq<Byte>, fuel: nat)
    ensures Interpret(Render(seq(65, _ => Add) + [Output]), input, fuel) == Ran(Semantics.Ok, [0x41])
  {
    var adds := seq(65, _ => Add);
    var program := adds + [Output];
    var st := Semantics.Initial(input);
    var st' := Semantics.Bump(st, 65);
    assert Collect(Render(program)) == Ok(program) by {
      CollectRender(program);
    }
    assert Semantics.AllStraight(program) && Semantics.Fold(st, program) == Semantics.Fold(st', [Output]) by {
      Semantics.FoldAdds(st, 65);
      Semantics.FoldConcat(st, adds, [Output]);
    }
    assert Semantics.Exec(st, program, fuel) == Semantics.Fold(st, program) by {
      assert program[0..] == program;
      Semantics.StraightRunIsFold(st, program, 0, fuel);
    }
    assert Semantics.Fold(st', [Output]) == Semantics.Step(st', Output);
    assert st'.tape[0] == 65 && st'.output == [];
  }

  /** `Interpret` with the loop semantics corrected as in module Intended. */
  function InterpretIntended(source: seq<CodePoint>, input: seq<Byte>, fuel: nat): (r: RunResult)
    ensures r.ParseFailed? <==> Collect(source).Err?
    ensures r.ParseFailed? ==> r.error == Collect(source).error
  {
    var parsed := Collect(source);
    if parsed.Err? then ParseFailed(parsed.error)
    else
      var (o, st) := Intended.Run(Semantics.Initial(input), parsed.value, fuel);
      Ran(o, st.output)
  }

  /** With the correction, a source whose program is balanced never fails for a bracket. */
  lemma IntendedBalancedSource(source: seq<CodePoint>, input: seq<Byte>, fuel: nat)
    requires Collect(source).Ok? && Brackets.Balanced(Collect(source).value)
    ensures InterpretIntended(source, input, fuel).Ran?
    ensures var o := InterpretIntended(source, input, fuel).outcome;
      o != Semantics.Err(Semantics.UnexpectedEof) && o != Semantics.Err(Semantics.UnmatchedPool)
  {
    var program := Collect(source).value;
    assert program[0..] == program;
    Intended.BalancedNoBracketErrors(Semantics.Initial(input), program, 0, fuel);
  }

  /** With the correction, 🫂✨ on a fresh machine succeeds and writes nothing. */
  lemma IntendedEmptyLoop(input: seq<Byte>, fuel: nat)
    ensures InterpretIntended([PEOPLE_HUGGING, SPARKLES], input, fuel) == Ran(Semantics.Ok, [])
  {
    CollectRender([Loop, Pool]);
    assert Render([Loop, Pool]) == [PEOPLE_HUGGING, SPARKLES] by {
      assert Render([Loop, Pool]) == Lexeme(Loop) + Render([Pool]);
    }
    Intended.LoopPoolOnZeroIsNoOp(Semantics.Initial(input), fuel);
  }

  /** On sources without brackets the correction changes nothing. */
  lemma IntendedAgreesWithoutBrackets(source: seq<CodePoint>, input: seq<Byte>, fuel: nat)
    requires Collect(source).Ok? && Semantics.AllStraight(Collect(source).value)
    ensures InterpretIntended(source, input, fuel) == Interpret(source, input, fuel)
  {
    var program := Collect(source).value;
    assert program[0..] == program;
    Intended.StraightRunsAgree(Semantics.Initial(input), program, 0, fuel);
  }
}
