# bottomfuck in Dafny

bottomfuck is a Brainfuck dialect spelled in emoji. Its interpreter (`src/main.rs`) has two parts:

- **The tokenizer.** `Parser::next` reads the source text one Unicode scalar value at a time. It turns the text into opcodes:

  | lexeme | opcode |
  |---|---|
  | ❤ followed by U+FE0F | Left |
  | 💖 | Right |
  | 👉👈 | Add |
  | 🥺 | Sub |
  | `,` | Input |
  | `.` | Output |
  | 🫂 | Loop |
  | ✨ | Pool |

  Any other code point is passed over. `collect` gathers the opcodes into a program, stopping at the first parse error.
- **The tape machine.** `Machine::new` and `Machine::run` run the program. The machine has a tape of 30000 wrapping bytes, a wrapping `usize` pointer, an input reader and an output writer.

This project models both parts.

| module (file) | what it holds |
|---|---|
| `Commands` (commands.dfy) | the opcodes and the parse errors |
| `Lexer` (lexer.dfy) | the tokenizer as functions over the code points still unread |
| `Brackets` (brackets.dfy) | the forward scan that finds a Loop's matching Pool, and facts about nesting depth |
| `Utf8` (utf8.dfy) | how Output writes a cell: as the UTF-8 encoding of the code point with that number |
| `Semantics` (semantics.dfy) | `run` as functions on a state value. Loop repetitions are bounded by a `fuel` argument, and a run that needs more ends as `OutOfFuel` |
| `Interpreter` (machine.dfy) | the machine as the source has it: a class with an array tape and methods that update it, each proved equal to the functions of `Semantics` |
| `Intended` (intended.dfy) | the loop semantics the code evidently intends (see Findings), with its main property proved |
| `Driver` (driver.dfy) | `main` without file and console I/O: parse, then run on a fresh machine. It also holds worked example programs, and the same pipeline with the corrected loops |

Three behaviours of the code differ from what a reader of the language's description would expect. The model follows the code:

- Input with no input left fails with `MachineError::Io`, the error that `read_exact` reports. It never fails with `UnexpectedEof`. That variant is raised only when a Loop has no matching Pool.
- Ignored code points are not transparent inside a two-code-point lexeme. `❤`, then any other code point, then U+FE0F is an incomplete heart.
- The program 🫂✨ is not a no-op (see Findings).

## Model

| member | source | states |
|---|---|---|
| Lexer.Next | src/main.rs:56-80 | `next` yields no item exactly when every remaining code point is ignored; otherwise it consumes at least one code point |
| Lexer.NextLeavesSuffix | src/main.rs:56-80 | what `next` leaves unread is a proper suffix of what it was given |
| Lexer.Recognise | src/main.rs:57-77 | after a significant code point, the heart and the pointing-right hand consume the following code point (if there is one) whether it matches or not; every other lexeme consumes nothing more |
| Lexer.Items | src/main.rs:53-81 | the item stream has at most one item per code point |
| Lexer.Lexeme | src/main.rs:58-77 | every opcode has a one- or two-code-point spelling that starts with a code point `next` does not skip |
| Lexer.NextLexeme | src/main.rs:57-79 | each opcode's spelling is read back as that opcode, and exactly that spelling is consumed |
| Lexer.NextSkipsIgnored | src/main.rs:78 | any run of ignored code points before a lexeme is skipped without effect |
| Lexer.HeartWithoutSelector | src/main.rs:58-63 | ❤ not followed by U+FE0F gives `IncompleteHeart` and consumes the code point after it |
| Lexer.FingersWithoutPartner | src/main.rs:66-71 | 👉 not followed by 👈 gives `InvalidFingers` and consumes the code point after it |
| Lexer.LexemeStart | src/main.rs:56-80 | the item comes from the first significant code point, after a prefix made only of ignored code points |
| Lexer.ErrorsComeFromPairs | src/main.rs:58-72 | an error item is produced only at a ❤ whose next code point is not U+FE0F, or at a 👉 whose next code point is not 👈 |
| Lexer.Collect | src/main.rs:191 | a successful collect has at most one opcode per code point; that it holds exactly the stream's items, or fails with the stream's first error, is stated by `CollectOkMatchesItems` and `CollectErrIsFirstError` |
| Lexer.CollectOkMatchesItems | src/main.rs:191 | a successful collect holds exactly the items of the stream, in order, all of them Ok |
| Lexer.CollectErrIsFirstError | src/main.rs:191 | a failed collect reports the first error item of the stream; every item before it is Ok |
| Lexer.CollectRender | src/main.rs:57-79 | parsing the spelling of any program gives back that program |
| Lexer.CollectRenderPadded | src/main.rs:78 | the same holds with any ignored text before, between and after the lexemes |
| Lexer.IgnoredInsideHeart | src/main.rs:58-63 | ❤ U+FE0F parses as Left, but an ignored code point between the two makes it an incomplete heart |
| Lexer.RenderOfCollectIsSubsequence | src/main.rs:191 | the spelling of a parsed program is obtained from the source by deleting code points |
| Lexer.RecogniseLexeme | src/main.rs:57-77 | a successful item consumed exactly its opcode's spelling |
| Lexer.OkItemSplit | src/main.rs:56-80 | a source that yields a successful item is ignored code points up to the first significant code point, then that opcode's spelling, then the rest |
| Brackets.Scan | src/main.rs:153-171 | the scan yields, if anything, the index of a Pool at or after its starting position |
| Brackets.NetConcat | src/main.rs:159-161 | the Loop-minus-Pool count of a concatenation is the sum of the counts |
| Brackets.ScanFindsFirstZero | src/main.rs:153-171 | the scan stops at the first position where the nesting level drops to 0; it finds nothing exactly when no prefix of the rest closes the Loop |
| Brackets.ScanBodyBalanced | src/main.rs:152-174 | the body between a Loop and the Pool the scan matches it with is balanced |
| Utf8.EncodeLatin1 | src/main.rs:150 | a cell is written as one byte below 0x80 and as two bytes from there on; the encoding is well-formed UTF-8 and decodes to the cell's value |
| Utf8.Decode | src/main.rs:150 | decoding succeeds exactly on well-formed one- and two-byte sequences, and the result is below U+0800 |
| Utf8.EncodeInjective | src/main.rs:150 | different cell values produce different output bytes |
| Semantics.Initial | src/main.rs:127-134 | a new machine has 30000 zero cells, the pointer at 0, all input unread and nothing written |
| Semantics.Step | src/main.rs:139-151 | a straight opcode succeeds, panics, or fails with an Io error, and nothing else. It panics exactly when it is not a pointer move, the pointer is off the tape, and it is not an Input that found no input. It fails with an Io error exactly when it is an Input with no input left |
| Semantics.OffTapeFaults | src/main.rs:143-173 | off the tape, Output and the `while` test panic and change nothing; Input panics after consuming its byte, because `read_exact` comes before the indexing |
| Semantics.ExecFrom | src/main.rs:137-183 | the `for` loop from a given opcode on. It has no contract of its own; its properties are stated by `UnmatchedLoopIsEof`, `ZeroCellLoopSkipsBody`, `StraightRunIsFold`, `OkRunHasNoBrackets`, `ExecFromMoreFuel` and `ExecFromEvolves`, and `Interpreter.Machine.Run` is proved equal to it |
| Semantics.Exec | src/main.rs:136-184 | `run` on a whole program. Its properties are stated by `OkRunIsFold`, `AddWrapsAround` and `LoopPoolNeverSucceeds` |
| Semantics.LoopWhile | src/main.rs:173-175 | the `while` succeeds only once it finds the current cell on the tape and 0. `ZeroCellLoopHasNoEffect`, `EmptyBodySpins`, `LoopWhileMoreFuel`, `LoopWhileEvolves` and `OffTapeFaults` state the rest |
| Semantics.Fold | src/main.rs:137-181 | running bracket-free opcodes one after another ends only in success, a panic or an Io error |
| Semantics.CellArithmetic | src/main.rs:141-142 | Add and Sub change the current cell by +1 or -1 modulo 256 and nothing else; off the tape they panic and change nothing |
| Semantics.AddSubInverse | src/main.rs:141-142 | Sub undoes Add, and Add undoes Sub |
| Semantics.PointerMoves | src/main.rs:139-140 | Left and Right move the pointer by one modulo 2^64, change nothing else and never panic |
| Semantics.LeftRightInverse | src/main.rs:139-140 | Right undoes Left and Left undoes Right; Left from cell 0 wraps the pointer off the tape |
| Semantics.InputReadsOneByte | src/main.rs:143-148 | Input stores the next input byte in the current cell and consumes it; with no input left it fails with an Io error, never `UnexpectedEof` |
| Semantics.OutputWritesCell | src/main.rs:149-150 | Output appends the encoding of the current cell, changes nothing else, and the appended bytes decode to the cell's value |
| Semantics.FoldAdds | src/main.rs:141 | n Adds in a row raise the current cell by n modulo 256 |
| Semantics.Bump | src/main.rs:141 | raising a cell keeps the pointer and keeps it on the tape |
| Semantics.AddWrapsAround | src/main.rs:84 | 256 Adds bring a cell back to its value (wrapping arithmetic) |
| Semantics.AddTwiceFrom255 | src/main.rs:141 | two Adds take a cell from 255 to 1 |
| Semantics.FoldConcat | src/main.rs:137-181 | running two bracket-free stretches in a row is running their concatenation |
| Semantics.UnmatchedLoopIsEof | src/main.rs:167 | a Loop that nothing in the rest of the program closes fails with `UnexpectedEof` before changing anything |
| Semantics.ZeroCellLoopSkipsBody | src/main.rs:173-175 | a Loop reached on a zero cell runs no iteration; the `for` loop goes on at the next opcode |
| Semantics.ZeroCellLoopHasNoEffect | src/main.rs:173 | the `while` on a zero cell succeeds and changes nothing |
| Semantics.EmptyBodySpins | src/main.rs:173-175 | an empty body on a non-zero cell never ends, whatever the fuel |
| Semantics.LoopPoolNeverSucceeds | src/main.rs:152-177 | 🫂✨ panics off the tape, ends with `UnmatchedPool` on a zero cell, and spins forever otherwise |
| Semantics.StraightRunIsFold | src/main.rs:137-183 | on a bracket-free program, `run` is the opcodes' steps one after another, stopping at the first failure |
| Semantics.OkRunHasNoBrackets | src/main.rs:152-177 | a run that returns `Ok` met no Loop and no Pool |
| Semantics.OkRunIsFold | src/main.rs:136-184 | every successful run is a bracket-free program executed step by step |
| Semantics.ExecFromMoreFuel | src/main.rs:137-181 | more fuel changes no run that did not run out of it |
| Semantics.LoopWhileMoreFuel | src/main.rs:173-175 | the same holds for the `while` of a loop |
| Semantics.StepEvolves | src/main.rs:139-151 | one opcode keeps the tape's size, only appends to the output and only consumes input from the front |
| Semantics.ExecFromEvolves | src/main.rs:136-184 | a whole run, however it ends, does the same |
| Semantics.LoopWhileEvolves | src/main.rs:173-175 | the same holds for the `while` of a loop |
| Interpreter.FindMatchingPool | src/main.rs:153-171 | the scan loop returns exactly what `Brackets.Scan` specifies: the index of the matching Pool or nothing |
| Interpreter.Machine.constructor | src/main.rs:127-134 | `Machine::new` builds a machine in the initial state, with a fresh tape of 30000 cells |
| Interpreter.Machine.Execute | src/main.rs:139-151 | one straight opcode updates the object exactly as `Semantics.Step` says and returns its outcome |
| Interpreter.Machine.Run | src/main.rs:136-184 | `run` leaves the object in the state `Semantics.Exec` gives and returns its outcome |
| Interpreter.Machine.RunLoop | src/main.rs:173-175 | the `while` leaves the object in the state `Semantics.LoopWhile` gives and returns its outcome |
| Intended.RunFrom | src/main.rs:137-183 | the corrected `for` loop, which goes on after the matching Pool. Its properties are stated by `BalancedNoBracketErrors`, `StraightRunsAgree` and `LoopPoolOnZeroIsNoOp` |
| Intended.Repeat | src/main.rs:173-175 | the corrected `while` succeeds only once it finds the current cell on the tape and 0 |
| Intended.LoopPoolOnZeroIsNoOp | src/main.rs:152-177 | corrected semantics: 🫂✨ on a zero cell succeeds and changes nothing |
| Intended.BalancedLoop | src/main.rs:152-171 | in a balanced program every Loop's scan finds a Pool; the body and what follows the Pool are balanced |
| Intended.BalancedStraight | src/main.rs:177 | in a balanced program the opcode reached is never a Pool, and what follows it is balanced |
| Intended.BalancedNoBracketErrors | src/main.rs:152-177 | corrected semantics: a balanced program never ends with `UnexpectedEof` or `UnmatchedPool` |
| Intended.RepeatNoBracketErrors | src/main.rs:173-175 | the same holds for the `while` of a balanced body |
| Intended.StraightRunsAgree | src/main.rs:137-183 | on bracket-free programs the correction changes nothing |
| Driver.Interpret | src/main.rs:189-197 | the interpreter reports a parse error exactly when collecting fails, and then it is that error |
| Driver.RunSource | src/main.rs:190-197 | parsing, building a `Machine` and running it give what `Interpret` specifies |
| Driver.SuccessMeansNoBrackets | src/main.rs:191-197 | a source that runs to `Ok` parsed into a bracket-free program |
| Driver.EmptySource | src/main.rs:191-199 | empty source runs to `Ok` and writes nothing |
| Driver.LoneLoop | src/main.rs:167 | the source 🫂 ends with `UnexpectedEof` and writes nothing |
| Driver.LonePool | src/main.rs:177 | the source ✨ ends with `UnmatchedPool` and writes nothing |
| Driver.EmptyLoop | src/main.rs:174-177 | the source 🫂✨ on a fresh machine ends with `UnmatchedPool` |
| Driver.BrokenHeart | src/main.rs:58-63 | a source that starts with ❤ not followed by U+FE0F fails to parse with `IncompleteHeart`, and nothing runs |
| Driver.Echo | src/main.rs:143-150 | `,.` writes the encoding of the first input byte, and with no input fails with an Io error |
| Driver.PrintA | src/main.rs:141-150 | 65 👉👈 followed by `.` writes the single byte 0x41 |
| Driver.InterpretIntended | src/main.rs:189-197 | with corrected loops, the interpreter still reports a parse error exactly when collecting fails |
| Driver.IntendedBalancedSource | src/main.rs:152-177 | with corrected loops, a source that parses into a balanced program never ends with `UnexpectedEof` or `UnmatchedPool` |
| Driver.IntendedEmptyLoop | src/main.rs:152-177 | with corrected loops, 🫂✨ on a fresh machine succeeds and writes nothing |
| Driver.IntendedAgreesWithoutBrackets | src/main.rs:137-183 | on sources without brackets, the corrected and the as-written interpreters give the same result |

## Left out

- File reading and argument handling in `main` (src/main.rs:188-189) are not modelled. The source text is a parameter, taken as already decoded into scalar values; a file that is not UTF-8 is not modelled.
- Console locking (src/main.rs:192-196) is not modelled. The input is a finite byte sequence given as a parameter. The output is the sequence of bytes written.
- The `dbg!` and `println!` tracing in `run` (src/main.rs:138, 180) is not modelled. The model's `output` holds only the bytes the Output opcode writes, and every row above that says what a program writes (`Driver.EmptySource`, `LoneLoop`, `LonePool`, `EmptyLoop`, `Echo`, `PrintA`, `IntendedEmptyLoop`) means those bytes. In `main` the machine's writer is the locked standard output itself (src/main.rs:194-196), so the program's real standard output also carries a debug line with the first nine cells after each opcode that completes, interleaved with Output's bytes. Those lines are not modelled.
- Failures of the output writer are not modelled; writing always succeeds. Read errors other than end of input are not modelled.
- `Display` and `Error::source` for the two error types (src/main.rs:42-51, 97-114) only format messages. They are not modelled.
- `From<io::Error>` (src/main.rs:116-120) appears only as the `Io` variant of `MachineError`, holding the one kind of read error the model keeps.
- Semantics.ExecFrom: a run whose loops repeat forever does not terminate in the source. The model bounds the total number of loop iterations with `fuel` and reports `OutOfFuel` instead. A non-terminating run is characterised only as one that runs out of every amount of fuel (`EmptyBodySpins`). More fuel never changes a finished run (`ExecFromMoreFuel`).
- Interpreter.FindMatchingPool: the nesting level is an `i32` in the source. The model uses an unbounded integer, so it does not capture an overflow past 2^31 - 1 nested Loops.
- Semantics.Word: `usize` is taken to be 64 bits wide.
- A panic is modelled as the `Fault` outcome, which keeps the state reached so far. Unwinding is not modelled.
- Stack exhaustion is not modelled: neither from deeply nested `run` calls nor from `next`, which calls itself once per ignored code point (src/main.rs:78), so a long enough stretch of ignored text could exhaust the stack.

## Findings

| source | as written | input that shows it | evidently intended | confidence | as-written member | corrected member |
|---|---|---|---|---|---|---|
| src/main.rs:152-177 | When a loop's `while` ends, the `for` loop goes on at the opcode right after the Loop. It therefore runs the body once more outside the loop, then reaches the loop's Pool and returns `UnmatchedPool`. No program containing brackets can succeed. | source 🫂✨ on a fresh machine (zero cell): the result is `Err(UnmatchedPool)` | execution resumes after the matching Pool, so 🫂✨ on a zero cell is a no-op, and a balanced program never fails for a bracket | not executed | Semantics.LoopPoolNeverSucceeds | Intended.BalancedNoBracketErrors |
