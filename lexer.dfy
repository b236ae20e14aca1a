/**
 * The tokenizer: `Parser` and its `Iterator::next` (src/main.rs:24-81), and the
 * collection of its items into a program that stops at the first error (src/main.rs:191).
 * The parser's only state is the cursor into the source, so each call is a function from
 * the code points still to be read to the item produced and the code points left after it.
 */
module Lexer {
  import opened Wrappers
  import opened Commands

  /** A Unicode scalar value, which is what a Rust `char` holds. */
  type CodePoint = c: int | 0 <= c < 0xD800 || 0xE000 <= c < 0x11_0000

  const HEAVY_HEART: CodePoint := 0x2764           // ❤
  const VARIATION_SELECTOR_16: CodePoint := 0xFE0F
  const SPARKLING_HEART: CodePoint := 0x1F496      // 💖
  const POINTING_RIGHT: CodePoint := 0x1F449       // 👉
  const POINTING_LEFT: CodePoint := 0x1F448        // 👈
  const PLEADING_FACE: CodePoint := 0x1F97A        // 🥺
  const COMMA: CodePoint := 0x2C                   // ,
  const FULL_STOP: CodePoint := 0x2E               // .
  const PEOPLE_HUGGING: CodePoint := 0x1FAC2       // 🫂
  const SPARKLES: CodePoint := 0x2728              // ✨

  type Item = Result<Command, ParserError>

  /** A code point that does not begin any lexeme; `next` passes over it. */
  predicate Ignored(c: CodePoint) {
    c != HEAVY_HEART && c != SPARKLING_HEART && c != POINTING_RIGHT && c != PLEADING_FACE &&
    c != COMMA && c != FULL_STOP && c != PEOPLE_HUGGING && c != SPARKLES
  }

  predicate AllIgnored(s: seq<CodePoint>) {
    forall i :: 0 <= i < |s| ==> Ignored(s[i])
  }

  /** `chars.next()`: the first code point, if any, and the cursor after it. */
  function Pop(s: seq<CodePoint>): (Option<CodePoint>, seq<CodePoint>) {
    if s == [] then (None, []) else (Some(s[0]), s[1..])
  }

  /**
   * `Parser::next`: `chars.next()`, then a pass over ignored code points or the item the
   * code point starts. None when the source holds nothing but ignored code points.
   */
  function Next(s: seq<CodePoint>): (r: Option<(Item, seq<CodePoint>)>)
    ensures r.None? <==> AllIgnored(s)
    ensures r.Some? ==> |r.value.1| < |s|
    decreases |s|
  {
    if s == [] then None
    else if Ignored(s[0]) then Next(s[1..])
    else Some(Recognise(s[0], s[1..]))
  }

  /** What `next` leaves unread is a proper suffix of the source. */
  lemma {:induction false} NextLeavesSuffix(s: seq<CodePoint>)
    requires Next(s).Some?
    ensures var rest := Next(s).value.1;
      |rest| < |s| && rest == s[|s| - |rest|..]
    decreases |s|
  {
    if Ignored(s[0]) {
      NextLeavesSuffix(s[1..]);
      var rest := Next(s).value.1;
      assert s[1..][|s| - 1 - |rest|..] == s[|s| - |rest|..];
    }
  }

  /** The item that starts with the significant code point `c`, and the cursor after it. */
  function Recognise(c: CodePoint, rest: seq<CodePoint>): (r: (Item, seq<CodePoint>))
    requires !Ignored(c)
    ensures (c == HEAVY_HEART || c == POINTING_RIGHT) ==> r.1 == (if rest == [] then [] else rest[1..])
    ensures !(c == HEAVY_HEART || c == POINTING_RIGHT) ==> r.1 == rest
  {
    if c == HEAVY_HEART then
      var (following, after) := Pop(rest);
      if following == Some(VARIATION_SELECTOR_16) then (Ok(Left), after)
      else (Err(IncompleteHeart), after)
    else if c == SPARKLING_HEART then (Ok(Right), rest)
    else if c == POINTING_RIGHT then
      var (following, after) := Pop(rest);
      if following == Some(POINTING_LEFT) then (Ok(Add), after)
      else (Err(InvalidFingers), after)
    else if c == PLEADING_FACE then (Ok(Sub), rest)
    else if c == COMMA then (Ok(Input), rest)
    else if c == FULL_STOP then (Ok(Output), rest)
    else if c == PEOPLE_HUGGING then (Ok(Loop), rest)
    else (Ok(Pool), rest)
  }

  /** Every item the iterator yields, in order, until it returns None. */
  function Items(s: seq<CodePoint>): (items: seq<Item>)
    ensures |items| <= |s|
    decreases |s|
  {
    if Next(s).None? then []
    else
      var (item, rest) := Next(s).value;
      [item] + Items(rest)
  }

  /** `parser.collect::<Result<Vec<_>, _>>()`: the commands, or the first error met. */
  function Collect(s: seq<CodePoint>): (r: Result<seq<Command>, ParserError>)
    ensures r.Ok? ==> |r.value| <= |s|
    decreases |s|
  {
    if Next(s).None? then Ok([])
    else
      var (item, rest) := Next(s).value;
      if item.Err? then Err(item.error)
      else
        var tail := Collect(rest);
        if tail.Err? then tail else Ok([item.value] + tail.value)
  }

  /** The spelling of each opcode. */
  function Lexeme(c: Command): (s: seq<CodePoint>)
    ensures |s| == 1 || |s| == 2
    ensures !Ignored(s[0])
  {
    match c
    case Left => [HEAVY_HEART, VARIATION_SELECTOR_16]
    case Right => [SPARKLING_HEART]
    case Add => [POINTING_RIGHT, POINTING_LEFT]
    case Sub => [PLEADING_FACE]
    case Input => [COMMA]
    case Output => [FULL_STOP]
    case Loop => [PEOPLE_HUGGING]
    case Pool => [SPARKLES]
  }

  /** The source text spelling a program, lexeme after lexeme. */
  function Render(cs: seq<Command>): seq<CodePoint> {
    if cs == [] then [] else Lexeme(cs[0]) + Render(cs[1..])
  }

  /** A program spelled with a run of ignored code points before each lexeme and at the end. */
  function RenderPadded(cs: seq<Command>, gaps: seq<seq<CodePoint>>): seq<CodePoint>
    requires |gaps| == |cs| + 1
  {
    if cs == [] then gaps[0] else gaps[0] + (Lexeme(cs[0]) + RenderPadded(cs[1..], gaps[1..]))
  }

  /** `a` can be obtained from `b` by deleting code points. */
  predicate IsSubsequence(a: seq<CodePoint>, b: seq<CodePoint>)
    decreases |b|
  {
    if b == [] then a == []
    else (a != [] && a[0] == b[0] && IsSubsequence(a[1..], b[1..])) || IsSubsequence(a, b[1..])
  }

  // ---------------------------------------------------------------------------
  // Recognising one item

  /** Each opcode's spelling is read back as that opcode, consuming exactly the spelling. */
  lemma NextLexeme(c: Command, rest: seq<CodePoint>)
    ensures Next(Lexeme(c) + rest) == Some((Ok(c), rest))
  {
    var s := Lexeme(c) + rest;
    assert s[1..] == Lexeme(c)[1..] + rest;
    if |Lexeme(c)| == 2 {
      assert s[1..][1..] == rest;
    }
  }

  /** A run of ignored code points in front of the source changes nothing `next` yields. */
  lemma {:induction false} NextSkipsIgnored(junk: seq<CodePoint>, s: seq<CodePoint>)
    requires AllIgnored(junk)
    ensures Next(junk + s) == Next(s)
  {
    if junk != [] {
      var t := junk + s;
      assert t[0] == junk[0] && t[1..] == junk[1..] + s;
      assert Next(t) == Next(t[1..]);
      NextSkipsIgnored(junk[1..], s);
    } else {
      assert junk + s == s;
    }
  }

  /**
   * A heart commits the parser to a variation selector: whatever follows it, or its absence,
   * is consumed and yields IncompleteHeart.
   */
  lemma HeartWithoutSelector(s: seq<CodePoint>)
    requires s != [] && s[0] == HEAVY_HEART
    requires |s| == 1 || s[1] != VARIATION_SELECTOR_16
    ensures Next(s) == Some((Err(IncompleteHeart), if |s| == 1 then [] else s[2..]))
  {
    if |s| > 1 {
      assert s[1..][1..] == s[2..];
    }
  }

  /**
   * A pointing-right hand commits the parser to a pointing-left hand: whatever follows it,
   * or its absence, is consumed and yields InvalidFingers.
   */
  lemma FingersWithoutPartner(s: seq<CodePoint>)
    requires s != [] && s[0] == POINTING_RIGHT
    requires |s| == 1 || s[1] != POINTING_LEFT
    ensures Next(s) == Some((Err(InvalidFingers), if |s| == 1 then [] else s[2..]))
  {
    if |s| > 1 {
      assert s[1..][1..] == s[2..];
    }
  }

  /** The position of the first code point that is not ignored; `next` starts reading there. */
  function LexemeStart(s: seq<CodePoint>): (k: nat)
    requires !AllIgnored(s)
    ensures k < |s| && !Ignored(s[k]) && AllIgnored(s[..k])
    ensures Next(s) == Some(Recognise(s[k], s[k + 1..]))
    decreases |s|
  {
    if !Ignored(s[0]) then 0
    else
      assert Next(s) == Next(s[1..]);
      var k := LexemeStart(s[1..]);
      assert s[1..][k] == s[k + 1];
      assert s[1..][k + 1..] == s[k + 2..];
      assert s[..k + 1] == [s[0]] + s[1..][..k];
      k + 1
  }

  /**
   * An error comes only from a heart or a pointing-right hand, after nothing but ignored
   * code points, whose partner is missing or different.
   */
  lemma ErrorsComeFromPairs(s: seq<CodePoint>)
    requires Next(s).Some? && Next(s).value.0.Err?
    ensures var k := LexemeStart(s);
      (s[k] == HEAVY_HEART && Next(s).value.0.error == IncompleteHeart &&
       (k + 1 == |s| || s[k + 1] != VARIATION_SELECTOR_16)) ||
      (s[k] == POINTING_RIGHT && Next(s).value.0.error == InvalidFingers &&
       (k + 1 == |s| || s[k + 1] != POINTING_LEFT))
  {
    var k := LexemeStart(s);
    RecogniseErrors(s[k], s[k + 1..]);
  }

  /** Recognising fails only at a heart or a pointing-right hand whose partner is missing or different. */
  lemma RecogniseErrors(c: CodePoint, rest: seq<CodePoint>)
    requires !Ignored(c) && Recognise(c, rest).0.Err?
    ensures (c == HEAVY_HEART && Recognise(c, rest).0.error == IncompleteHeart &&
             (rest == [] || rest[0] != VARIATION_SELECTOR_16)) ||
            (c == POINTING_RIGHT && Recognise(c, rest).0.error == InvalidFingers &&
             (rest == [] || rest[0] != POINTING_LEFT))
  {
  }

  // ---------------------------------------------------------------------------
  // Collecting

  /** The first step of the item stream and of collecting it. */
  lemma ItemsCollectStep(s: seq<CodePoint>)
    requires Next(s).Some?
    ensures Items(s) == [Next(s).value.0] + Items(Next(s).value.1)
    ensures Next(s).value.0.Err? ==> Collect(s) == Err(Next(s).value.0.error)
    ensures Next(s).value.0.Ok? && Collect(Next(s).value.1).Err? ==>
      Collect(s) == Collect(Next(s).value.1)
    ensures Next(s).value.0.Ok? && Collect(Next(s).value.1).Ok? ==>
      Collect(s) == Ok([Next(s).value.0.value] + Collect(Next(s).value.1).value)
  {
  }

  /** When collecting succeeds, the item stream is exactly its commands, each wrapped in Ok. */
  lemma {:induction false} CollectOkMatchesItems(s: seq<CodePoint>)
    requires Collect(s).Ok?
    ensures |Collect(s).value| == |Items(s)|
    ensures forall j :: 0 <= j < |Items(s)| ==> Items(s)[j] == Ok(Collect(s).value[j])
    decreases |s|
  {
    if Next(s).Some? {
      ItemsCollectStep(s);
      CollectOkMatchesItems(Next(s).value.1);
    }
  }

  /** `items[k]` is the error `e`, and every item before it is Ok. */
  predicate IsFirstError(items: seq<Item>, k: nat, e: ParserError) {
    k < |items| && items[k] == Err(e) && forall j :: 0 <= j < k ==> items[j].Ok?
  }

  /** An Ok item in front moves the first error one place on. */
  lemma FirstErrorShift(item: Item, items: seq<Item>, k: nat, e: ParserError)
    requires item.Ok? && IsFirstError(items, k, e)
    ensures IsFirstError([item] + items, k + 1, e)
  {
    var all := [item] + items;
    forall j | 0 <= j < k + 1
      ensures all[j].Ok?
    {
      if j > 0 {
        assert all[j] == items[j - 1];
      }
    }
  }

  /**
   * When collecting fails, its error is the first error item of the stream: every item
   * before it is Ok.
   */
  lemma {:induction false} CollectErrIsFirstError(s: seq<CodePoint>)
    requires Collect(s).Err?
    ensures exists k: nat :: IsFirstError(Items(s), k, Collect(s).error)
    decreases |s|
  {
    ItemsCollectStep(s);
    var (item, rest) := Next(s).value;
    if item.Err? {
      assert IsFirstError(Items(s), 0, Collect(s).error);
    } else {
      CollectErrIsFirstError(rest);
      var k: nat :| IsFirstError(Items(rest), k, Collect(rest).error);
      FirstErrorShift(item, Items(rest), k, Collect(rest).error);
      assert IsFirstError(Items(s), k + 1, Collect(s).error);
    }
  }

  /** Spelling a program and parsing the text gives back exactly that program. */
  lemma {:induction false} CollectRender(cs: seq<Command>)
    ensures Collect(Render(cs)) == Ok(cs)
  {
    if cs != [] {
      NextLexeme(cs[0], Render(cs[1..]));
      CollectRender(cs[1..]);
      assert [cs[0]] + cs[1..] == cs;
    }
  }

  /** Ignored code points inserted between lexemes, before the first or after the last, change nothing. */
  lemma {:induction false} CollectRenderPadded(cs: seq<Command>, gaps: seq<seq<CodePoint>>)
    requires |gaps| == |cs| + 1
    requires forall i :: 0 <= i < |gaps| ==> AllIgnored(gaps[i])
    ensures Collect(RenderPadded(cs, gaps)) == Ok(cs)
  {
    if cs == [] {
      assert AllIgnored(gaps[0]);
    } else {
      var tail := RenderPadded(cs[1..], gaps[1..]);
      assert Collect(tail) == Ok(cs[1..]) by {
        var later := gaps[1..];
        forall i | 0 <= i < |later|
          ensures AllIgnored(later[i])
        {
          assert later[i] == gaps[i + 1];
        }
        CollectRenderPadded(cs[1..], later);
      }
      assert AllIgnored(gaps[0]);
      CollectPaddedLexeme(gaps[0], cs[0], tail);
      assert [cs[0]] + cs[1..] == cs;
    }
  }

  /** Ignored code points, then a lexeme, then text that collects: the lexeme's opcode heads the program. */
  lemma CollectPaddedLexeme(junk: seq<CodePoint>, c: Command, tail: seq<CodePoint>)
    requires AllIgnored(junk) && Collect(tail).Ok?
    ensures Collect(junk + (Lexeme(c) + tail)) == Ok([c] + Collect(tail).value)
  {
    var s := junk + (Lexeme(c) + tail);
    NextSkipsIgnored(junk, Lexeme(c) + tail);
    NextLexeme(c, tail);
    ItemsCollectStep(s);
  }

  /**
   * Ignored code points are NOT transparent inside a two-code-point lexeme: a heart separated
   * from its variation selector by any other ignored code point is an incomplete heart.
   */
  lemma IgnoredInsideHeart(x: CodePoint)
    requires Ignored(x) && x != VARIATION_SELECTOR_16
    ensures Collect([HEAVY_HEART, VARIATION_SELECTOR_16]) == Ok([Left])
    ensures Collect([HEAVY_HEART, x, VARIATION_SELECTOR_16]) == Err(IncompleteHeart)
  {
    CollectRender([Left]);
    assert Render([Left]) == [HEAVY_HEART, VARIATION_SELECTOR_16];
    HeartWithoutSelector([HEAVY_HEART, x, VARIATION_SELECTOR_16]);
  }

  // ---------------------------------------------------------------------------
  // What a successful parse keeps of the source

  lemma {:induction false} SubsequenceSkip(a: seq<CodePoint>, junk: seq<CodePoint>, b: seq<CodePoint>)
    requires IsSubsequence(a, b)
    ensures IsSubsequence(a, junk + b)
  {
    if junk != [] {
      assert (junk + b)[1..] == junk[1..] + b;
      SubsequenceSkip(a, junk[1..], b);
    } else {
      assert junk + b == b;
    }
  }

  lemma {:induction false} SubsequencePrepend(p: seq<CodePoint>, a: seq<CodePoint>, b: seq<CodePoint>)
    requires IsSubsequence(a, b)
    ensures IsSubsequence(p + a, p + b)
  {
    if p != [] {
      assert (p + a)[1..] == p[1..] + a;
      assert (p + b)[1..] == p[1..] + b;
      SubsequencePrepend(p[1..], a, b);
    } else {
      assert p + a == a && p + b == b;
    }
  }

  /**
   * Whatever a source parses to, spelling that program again yields text that can be got
   * from the source by deleting code points: every command comes from its own lexeme, in order.
   */
  lemma {:induction false} RenderOfCollectIsSubsequence(s: seq<CodePoint>)
    requires Collect(s).Ok?
    ensures IsSubsequence(Render(Collect(s).value), s)
    decreases |s|
  {
    if Next(s).None? {
      assert Collect(s) == Ok([]);
      EmptyIsSubsequence(s);
    } else {
      ItemsCollectStep(s);
      var (item, rest) := Next(s).value;
      var c := item.value;
      var cs := Collect(rest).value;
      assert Collect(s).value == [c] + cs;
      var lex, r := Lexeme(c), Render(cs);
      assert IsSubsequence(r, rest) by {
        RenderOfCollectIsSubsequence(rest);
      }
      var junk := OkItemSplit(s);
      SubsequenceAround(junk, lex, r, rest);
      RenderCons(c, cs);
    }
  }

  lemma SubsequenceAround(junk: seq<CodePoint>, p: seq<CodePoint>, a: seq<CodePoint>, b: seq<CodePoint>)
    requires IsSubsequence(a, b)
    ensures IsSubsequence(p + a, junk + (p + b))
  {
    SubsequencePrepend(p, a, b);
    SubsequenceSkip(p + a, junk, p + b);
  }

  lemma RenderCons(c: Command, cs: seq<Command>)
    ensures Render([c] + cs) == Lexeme(c) + Render(cs)
  {
    assert ([c] + cs)[1..] == cs;
  }

  lemma {:induction false} EmptyIsSubsequence(s: seq<CodePoint>)
    ensures IsSubsequence([], s)
  {
    if s != [] {
      EmptyIsSubsequence(s[1..]);
    }
  }

  /** An Ok item is read from exactly its lexeme. */
  lemma RecogniseLexeme(c: CodePoint, rest: seq<CodePoint>)
    requires !Ignored(c) && Recognise(c, rest).0.Ok?
    ensures [c] + rest == Lexeme(Recognise(c, rest).0.value) + Recognise(c, rest).1
  {
    if c == HEAVY_HEART || c == POINTING_RIGHT {
      assert rest == [rest[0]] + rest[1..];
    }
  }

  /** The source before an Ok item: ignored code points up to `LexemeStart`, the item's lexeme, and the rest. */
  lemma {:induction false} OkItemSplit(s: seq<CodePoint>) returns (junk: seq<CodePoint>)
    requires Next(s).Some? && Next(s).value.0.Ok?
    ensures AllIgnored(junk) && |junk| == LexemeStart(s)
    ensures s == junk + (Lexeme(Next(s).value.0.value) + Next(s).value.1)
    decreases |s|
  {
    assert s == [s[0]] + s[1..];
    if !Ignored(s[0]) {
      RecogniseLexeme(s[0], s[1..]);
      junk := [];
    } else {
      assert Next(s) == Next(s[1..]);
      var later := OkItemSplit(s[1..]);
      junk := [s[0]] + later;
    }
  }
}
