/**
 * The Markdown scanner of `src/markdown.rs`. One boolean, the fence state, is
 * threaded from line to line; within a line a scan over the chars toggles an
 * inline-code flag at every backtick and flushes a Text or Code block at each
 * toggle. A line left inside inline code collapses back into a single Text.
 *
 * Block columns are computed as "current column minus buffer length". The
 * column counts chars while the Rust buffer length counts UTF-8 bytes; the
 * scanner is parameterised by the unit used for buffer lengths so that both
 * the code as written (`ByteColumns`) and the evidently intended behaviour
 * (`CharColumns`, which the rest of the model uses) can be stated.
 */
module Markdown {
  import opened Strings
  import opened Documents
  import opened Wrappers

  datatype ColumnUnit = CharColumns | ByteColumns

  /** The length of a buffer as the column arithmetic sees it. */
  function Width(unit: ColumnUnit, s: string): nat {
    match unit
    case CharColumns => |s|
    case ByteColumns => Utf8Length(s)
  }

  /** `usize::saturating_sub`. */
  function SatSub(a: nat, b: nat): nat {
    if a >= b then a - b else 0
  }

  const Fence: string := "```"

  /** `is_fence`: the line, left-trimmed, starts with three backticks. */
  predicate IsFence(line: string) {
    StartsWith(TrimStart(line), Fence)
  }

  /** Number of backticks in `s`. */
  function Ticks(s: string): nat
    decreases |s|
  {
    if s == [] then 0 else Ticks(s[..|s| - 1]) + (if s[|s| - 1] == '`' then 1 else 0)
  }

  /** The locals of the scanning loop in `parse_inline_code_line`. */
  datatype ScanState = ScanState(blocks: seq<Block>, textBuf: string, codeBuf: string, inside: bool, col: nat)

  const Initial := ScanState([], [], [], false, 0)

  /** One iteration of the scanning loop. */
  function Step(unit: ColumnUnit, st: ScanState, ch: char): ScanState {
    if ch == '`' then
      if st.inside then
        // closing backtick: flush the code buffer, the backtick goes to the text side
        var code := Code(Range(SatSub(st.col, Width(unit, st.codeBuf)), st.col), st.codeBuf);
        ScanState(st.blocks + [code], st.textBuf + "`", [], false, st.col + 1)
      else
        // opening backtick: it ends the pending text, which is then never empty
        var text := st.textBuf + "`";
        var block := Text(Range(SatSub(st.col, Width(unit, text)), st.col), text);
        ScanState(st.blocks + [block], [], st.codeBuf, true, st.col + 1)
    else if st.inside then
      st.(codeBuf := st.codeBuf + [ch], col := st.col + 1)
    else
      st.(textBuf := st.textBuf + [ch], col := st.col + 1)
  }

  /** The loop state after scanning all of `s`. */
  function Scan(unit: ColumnUnit, s: string): ScanState
    decreases |s|
  {
    if s == [] then Initial else Step(unit, Scan(unit, s[..|s| - 1]), s[|s| - 1])
  }

  /** `flush_inline_buffers`. */
  function Flush(unit: ColumnUnit, st: ScanState, number: nat): Line {
    if st.inside then
      var full := Concat(st.blocks) + st.textBuf + st.codeBuf;
      Line(number, [Text(Range(0, Width(unit, full)), full)])
    else if st.textBuf != [] then
      Line(number, st.blocks + [Text(Range(SatSub(st.col, Width(unit, st.textBuf)), st.col), st.textBuf)])
    else
      Line(number, st.blocks)
  }

  /** `parse_inline_code_line`. */
  function InlineCodeLine(unit: ColumnUnit, number: nat, line: string): Line {
    Flush(unit, Scan(unit, line), number)
  }

  /** `parse_line`: the line and the fence state for the next line. */
  function ParseLine(unit: ColumnUnit, number: nat, line: string, inFence: bool): (r: (Line, bool))
    ensures r.0.number == number
    ensures r.1 == (inFence != IsFence(line))
  {
    if IsFence(line) then
      (Line(number, [Text(Range(0, Width(unit, line)), line)]), !inFence)
    else if inFence then
      (Line(number, [Code(Range(0, Width(unit, line)), line)]), inFence)
    else
      (InlineCodeLine(unit, number, line), inFence)
  }

  /** The parse loop from line `number` on, with fence state `inFence`. */
  function ParseFrom(unit: ColumnUnit, raws: seq<string>, number: nat, inFence: bool): (r: seq<Line>)
    decreases |raws|
    ensures |r| == |raws|
  {
    if raws == [] then []
    else
      var (line, next) := ParseLine(unit, number, raws[0], inFence);
      [line] + ParseFrom(unit, raws[1..], number + 1, next)
  }

  /** `MarkdownParser::parse`: `split_inclusive('\n')`, one final `'\n'` dropped per piece. */
  function Parse(unit: ColumnUnit, input: string): Document {
    Document(ParseFrom(unit, NewlineLines(input), 1, false))
  }

  // ---------------------------------------------------------------------------
  // Invariants of the scanning loop
  // ---------------------------------------------------------------------------

  /** The blocks and buffers tile the scanned prefix; only the active buffer is in use. */
  predicate Tiles(s: string, st: ScanState) {
    && st.col == |s|
    && Concat(st.blocks) + st.textBuf + st.codeBuf == s
    && (st.inside ==> st.textBuf == [])
    && (!st.inside ==> st.codeBuf == [])
    && '`' !in st.codeBuf
    && (!st.inside && st.blocks != [] ==> st.textBuf != [])
  }

  /** One block per backtick, Text and Code alternating from Text, Code blocks backtick-free. */
  predicate Alternates(s: string, st: ScanState) {
    && |st.blocks| == Ticks(s)
    && (st.inside <==> Ticks(s) % 2 == 1)
    && |LineCodes(st.blocks)| == Ticks(s) / 2
    && (forall i :: 0 <= i < |st.blocks| ==> (st.blocks[i].Code? <==> i % 2 == 1))
    && (forall i :: 0 <= i < |st.blocks| && st.blocks[i].Code? ==> '`' !in st.blocks[i].content)
  }

  /** Non-empty blocks are in column order and all start before the end of the flushed text. */
  predicate ColumnsOrdered(st: ScanState) {
    && NonEmptyOrdered(st.blocks)
    && forall i :: 0 <= i < |st.blocks| && st.blocks[i].content != [] ==> Start(st.blocks[i]) < |Concat(st.blocks)|
  }

  lemma ConcatSingle(b: Block)
    ensures Concat([b]) == b.content
  {
    assert Concat([b]) == b.content + Concat([]);
  }

  lemma ConcatPush(bs: seq<Block>, b: Block)
    ensures Concat(bs + [b]) == Concat(bs) + b.content
  {
    ConcatAppend(bs, [b]);
    ConcatSingle(b);
  }

  lemma CodesPush(bs: seq<Block>, b: Block)
    ensures LineCodes(bs + [b]) == LineCodes(bs) + (if b.Code? then [b.content] else [])
  {
    LineCodesAppend(bs, [b]);
    assert LineCodes([b]) == (if b.Code? then [b.content] else []) + LineCodes([]);
  }

  /** One scanning step extends the tiling by the scanned char. */
  lemma StepTiles(unit: ColumnUnit, p: string, st: ScanState, ch: char)
    requires Tiles(p, st)
    ensures Tiles(p + [ch], Step(unit, st, ch))
  {
    var st' := Step(unit, st, ch);
    var c := Concat(st.blocks);
    if ch == '`' {
      var b := st'.blocks[|st'.blocks| - 1];
      assert st'.blocks == st.blocks + [b];
      ConcatPush(st.blocks, b);
      if st.inside {
        assert c + st.codeBuf + "`" == p + [ch];
      } else {
        assert c + (st.textBuf + "`") == p + [ch];
      }
    } else if st.inside {
      assert c + st.textBuf + (st.codeBuf + [ch]) == p + [ch];
    } else {
      assert c + (st.textBuf + [ch]) + st.codeBuf == p + [ch];
    }
  }

  lemma {:induction false} ScanTiles(unit: ColumnUnit, s: string)
    ensures Tiles(s, Scan(unit, s))
    decreases |s|
  {
    if s != [] {
      var p := s[..|s| - 1];
      ScanTiles(unit, p);
      StepTiles(unit, p, Scan(unit, p), s[|s| - 1]);
      assert s == p + [s[|s| - 1]];
    }
  }

  lemma TicksPush(s: string, ch: char)
    ensures Ticks(s + [ch]) == Ticks(s) + (if ch == '`' then 1 else 0)
  {
    assert (s + [ch])[..|s + [ch]| - 1] == s;
  }

  /** The counting half of `Alternates`. */
  lemma {:induction false} ScanCounts(unit: ColumnUnit, s: string)
    ensures |Scan(unit, s).blocks| == Ticks(s)
    ensures Scan(unit, s).inside <==> Ticks(s) % 2 == 1
    ensures |LineCodes(Scan(unit, s).blocks)| == Ticks(s) / 2
    decreases |s|
  {
    if s != [] {
      var p := s[..|s| - 1];
      var ch := s[|s| - 1];
      ScanCounts(unit, p);
      assert s == p + [ch];
      TicksPush(p, ch);
      var st := Scan(unit, p);
      var st' := Step(unit, st, ch);
      if ch == '`' {
        var b := st'.blocks[|st'.blocks| - 1];
        assert st'.blocks == st.blocks + [b];
        CodesPush(st.blocks, b);
      }
    }
  }

  /** Blocks alternate Text, Code, … from index 0, and Code blocks hold no backtick. */
  predicate KindsAlternate(bs: seq<Block>) {
    && (forall i :: 0 <= i < |bs| ==> (bs[i].Code? <==> i % 2 == 1))
    && (forall i :: 0 <= i < |bs| && bs[i].Code? ==> '`' !in bs[i].content)
  }

  /** One scanning step keeps the blocks alternating. */
  lemma StepKinds(unit: ColumnUnit, st: ScanState, ch: char)
    requires KindsAlternate(st.blocks)
    requires st.inside <==> |st.blocks| % 2 == 1
    requires '`' !in st.codeBuf
    ensures KindsAlternate(Step(unit, st, ch).blocks)
  {
    if ch == '`' {
      var st' := Step(unit, st, ch);
      var b := st'.blocks[|st'.blocks| - 1];
      assert st'.blocks == st.blocks + [b];
      forall i | 0 <= i < |st'.blocks| ensures (st'.blocks[i].Code? <==> i % 2 == 1) {
        if i < |st.blocks| {
          assert st'.blocks[i] == st.blocks[i];
        }
      }
    }
  }

  /** The block-kind half of `Alternates`. */
  lemma {:induction false} ScanKinds(unit: ColumnUnit, s: string)
    ensures KindsAlternate(Scan(unit, s).blocks)
    decreases |s|
  {
    if s != [] {
      var p := s[..|s| - 1];
      ScanKinds(unit, p);
      ScanCounts(unit, p);
      ScanTiles(unit, p);
      StepKinds(unit, Scan(unit, p), s[|s| - 1]);
    }
  }

  lemma ScanAlternates(unit: ColumnUnit, s: string)
    ensures Alternates(s, Scan(unit, s))
  {
    ScanCounts(unit, s);
    ScanKinds(unit, s);
  }

  lemma {:induction false} ScanColumnsOrdered(s: string)
    ensures ColumnsOrdered(Scan(CharColumns, s))
    decreases |s|
  {
    if s != [] {
      var p := s[..|s| - 1];
      var ch := s[|s| - 1];
      ScanColumnsOrdered(p);
      ScanTiles(CharColumns, p);
      var st := Scan(CharColumns, p);
      var st' := Step(CharColumns, st, ch);
      if ch == '`' {
        var b := st'.blocks[|st'.blocks| - 1];
        assert st'.blocks == st.blocks + [b];
        PushKeepsOrder(st.blocks, b);
      }
    }
  }

  /** Appending a block that starts no earlier than one before the end of the flushed text. */
  lemma PushKeepsOrder(bs: seq<Block>, b: Block)
    requires NonEmptyOrdered(bs)
    requires forall i :: 0 <= i < |bs| && bs[i].content != [] ==> Start(bs[i]) < |Concat(bs)|
    requires |Concat(bs)| <= Start(b) + 1
    requires b.content != [] ==> Start(b) <= |Concat(bs)|
    ensures NonEmptyOrdered(bs + [b])
    ensures forall i :: 0 <= i < |bs + [b]| && (bs + [b])[i].content != [] ==> Start((bs + [b])[i]) < |Concat(bs + [b])|
  {
    ConcatPush(bs, b);
  }

  // ---------------------------------------------------------------------------
  // Properties of one line
  // ---------------------------------------------------------------------------

  /**
   * An inline line with an odd number of backticks (unterminated inline code)
   * is one Text block holding the whole line.
   */
  lemma InlineUnterminated(unit: ColumnUnit, number: nat, line: string)
    requires Ticks(line) % 2 == 1
    ensures InlineCodeLine(unit, number, line) == Line(number, [Text(Range(0, Width(unit, line)), line)])
  {
    ScanTiles(unit, line);
    ScanAlternates(unit, line);
  }

  /**
   * An inline line with balanced backticks: the blocks' contents in storage
   * order give back the line; the blocks alternate Text, Code, …, Text, one
   * more than there are backticks, of which half are Code; no Code block holds
   * a backtick. An empty line gives no block at all.
   */
  lemma InlineBalanced(unit: ColumnUnit, number: nat, line: string)
    requires Ticks(line) % 2 == 0
    ensures var l := InlineCodeLine(unit, number, line);
      && l.number == number
      && Concat(l.blocks) == line
      && (line == [] ==> l.blocks == [])
      && (line != [] ==> |l.blocks| == Ticks(line) + 1)
      && (forall i :: 0 <= i < |l.blocks| ==> (l.blocks[i].Code? <==> i % 2 == 1))
      && |LineCodes(l.blocks)| == Ticks(line) / 2
      && (forall i :: 0 <= i < |l.blocks| && l.blocks[i].Code? ==> '`' !in l.blocks[i].content)
  {
    var st := Scan(unit, line);
    ScanTiles(unit, line);
    ScanAlternates(unit, line);
    if st.textBuf != [] {
      var b := Text(Range(SatSub(st.col, Width(unit, st.textBuf)), st.col), st.textBuf);
      ConcatPush(st.blocks, b);
      CodesPush(st.blocks, b);
    } else {
      assert line == Concat(st.blocks);
    }
  }

  /** A line without backticks is one Text block equal to it, or no block if it is empty. */
  lemma InlinePlainText(number: nat, line: string)
    requires '`' !in line
    ensures line == [] ==> InlineCodeLine(CharColumns, number, line).blocks == []
    ensures line != [] ==> InlineCodeLine(CharColumns, number, line).blocks == [Text(Range(0, |line|), line)]
  {
    NoTicks(line);
    ScanTiles(CharColumns, line);
    ScanAlternates(CharColumns, line);
    var st := Scan(CharColumns, line);
    assert st.blocks == [] && !st.inside;
    assert st.textBuf == line;
  }

  lemma {:induction false} NoTicks(s: string)
    requires '`' !in s
    ensures Ticks(s) == 0
    decreases |s|
  {
    if s != [] {
      assert s[..|s| - 1] + [s[|s| - 1]] == s;
      NoTicks(s[..|s| - 1]);
    }
  }

  /** With char columns, a scanned line keeps its non-empty blocks in column order. */
  lemma InlineColumnsOrdered(number: nat, line: string)
    ensures NonEmptyOrdered(InlineCodeLine(CharColumns, number, line).blocks)
  {
    var st := Scan(CharColumns, line);
    ScanTiles(CharColumns, line);
    ScanColumnsOrdered(line);
    if st.inside {
      var l := InlineCodeLine(CharColumns, number, line);
      assert |l.blocks| == 1;
    } else if st.textBuf != [] {
      var b := Text(Range(SatSub(st.col, Width(CharColumns, st.textBuf)), st.col), st.textBuf);
      PushKeepsOrder(st.blocks, b);
    }
  }

  /** Every line the Markdown parser produces reconstructs to the raw line (char columns). */
  lemma ParseLineText(number: nat, line: string, inFence: bool)
    ensures LineText(ParseLine(CharColumns, number, line, inFence).0) == line
  {
    var l := ParseLine(CharColumns, number, line, inFence).0;
    if IsFence(line) || inFence || Ticks(line) % 2 == 1 {
      if !IsFence(line) && !inFence {
        InlineUnterminated(CharColumns, number, line);
      }
      assert |l.blocks| == 1;
      SortOfSortedIsIdentity(l.blocks);
      ConcatSingle(l.blocks[0]);
    } else {
      InlineBalanced(CharColumns, number, line);
      InlineColumnsOrdered(number, line);
      SortKeepsText(l.blocks);
    }
  }

  /** A fence line is one Text block holding the whole line, and it flips the fence state. */
  lemma FenceLine(unit: ColumnUnit, number: nat, line: string, inFence: bool)
    requires IsFence(line)
    ensures ParseLine(unit, number, line, inFence) == (Line(number, [Text(Range(0, Width(unit, line)), line)]), !inFence)
  {
  }

  /** Inside a fence, any other line is one Code block holding the whole line, and the state stays. */
  lemma FencedCodeLine(number: nat, line: string)
    requires !IsFence(line)
    ensures ParseLine(CharColumns, number, line, true) == (Line(number, [Code(Range(0, |line|), line)]), true)
  {
  }

  // ---------------------------------------------------------------------------
  // Properties of the whole parse
  // ---------------------------------------------------------------------------

  /** Whether a fence is open after the given lines: an odd number of them are fences. */
  function FenceOpen(raws: seq<string>): bool
    decreases |raws|
  {
    if raws == [] then false else IsFence(raws[0]) != FenceOpen(raws[1..])
  }

  /** Line k of the parse is `parse_line` of raw line k, numbered k + `number`, in the fence state the earlier lines left. */
  lemma {:induction false} ParseFromAt(unit: ColumnUnit, raws: seq<string>, number: nat, inFence: bool, k: nat)
    requires k < |raws|
    ensures ParseFrom(unit, raws, number, inFence)[k]
         == ParseLine(unit, number + k, raws[k], inFence != FenceOpen(raws[..k])).0
    decreases k
  {
    if k > 0 {
      var first := ParseLine(unit, number, raws[0], inFence);
      var rest := raws[1..];
      ParseFromCons(unit, raws, number, inFence);
      ParseFromAt(unit, rest, number + 1, first.1, k - 1);
      FenceOpenStep(raws, k);
      assert rest[k - 1] == raws[k];
      assert (first.1 != FenceOpen(rest[..k - 1])) == (inFence != FenceOpen(raws[..k]));
      assert number + 1 + (k - 1) == number + k;
    }
  }

  lemma ParseFromCons(unit: ColumnUnit, raws: seq<string>, number: nat, inFence: bool)
    requires raws != []
    ensures var first := ParseLine(unit, number, raws[0], inFence);
      && first.1 == (inFence != IsFence(raws[0]))
      && ParseFrom(unit, raws, number, inFence) == [first.0] + ParseFrom(unit, raws[1..], number + 1, first.1)
  {
  }

  lemma FenceOpenStep(raws: seq<string>, k: nat)
    requires 0 < k <= |raws|
    ensures FenceOpen(raws[..k]) == (IsFence(raws[0]) != FenceOpen(raws[1..][..k - 1]))
  {
    assert raws[..k][0] == raws[0] && raws[..k][1..] == raws[1..][..k - 1];
  }

  /**
   * The parser numbers lines 1..n and threads the fence state from `false`:
   * line k is scanned inside a fence exactly when an odd number of the lines
   * before it are fences.
   */
  lemma ParseAt(unit: ColumnUnit, input: string, k: nat)
    requires k < |NewlineLines(input)|
    ensures |Parse(unit, input).lines| == |NewlineLines(input)|
    ensures Parse(unit, input).lines[k]
         == ParseLine(unit, k + 1, NewlineLines(input)[k], FenceOpen(NewlineLines(input)[..k])).0
    ensures Parse(unit, input).lines[k].number == k + 1
  {
    ParseFromAt(unit, NewlineLines(input), 1, false, k);
  }

  lemma ParseFromTexts(raws: seq<string>, number: nat, inFence: bool)
    ensures LineTexts(ParseFrom(CharColumns, raws, number, inFence)) == raws
  {
    var r := ParseFrom(CharColumns, raws, number, inFence);
    forall k | 0 <= k < |raws|
      ensures LineTexts(r)[k] == raws[k]
    {
      ParseFromAt(CharColumns, raws, number, inFence, k);
      ParseLineText(number + k, raws[k], inFence != FenceOpen(raws[..k]));
    }
  }

  /** Round trip: reconstructing a parsed Markdown text gives it back, unless it ends in a newline. */
  lemma ParseRoundTrip(input: string)
    requires !EndsWithChar(input, '\n')
    ensures Reconstruct(Parse(CharColumns, input)) == input
  {
    ParseFromTexts(NewlineLines(input), 1, false);
    JoinNewlineLines(input);
  }

  // ---------------------------------------------------------------------------
  // The code as written: byte-length buffers against char-count columns
  // ---------------------------------------------------------------------------

  /** A one-line text with inline code followed by a three-byte char. */
  const EuroSample: string := "`a`\U{20AC}"

  lemma EuroScan()
    ensures Scan(ByteColumns, EuroSample)
         == ScanState([Text(Range(0, 0), "`"), Code(Range(1, 2), "a")], "`\U{20AC}", [], false, 4)
  {
    var s := EuroSample;
    assert s[..3] == "`a`" && s[3] == '\U{20AC}';
    assert "`a`"[..2] == "`a" && "`a"[..1] == "`" && "`"[..0] == [];
    assert Scan(ByteColumns, "`") == ScanState([Text(Range(0, 0), "`")], [], [], true, 1);
    assert Scan(ByteColumns, "`a") == ScanState([Text(Range(0, 0), "`")], [], "a", true, 2);
    assert Scan(ByteColumns, "`a`") == ScanState([Text(Range(0, 0), "`"), Code(Range(1, 2), "a")], "`", [], false, 3);
  }

  lemma EuroLine()
    ensures InlineCodeLine(ByteColumns, 1, EuroSample).blocks
         == [Text(Range(0, 0), "`"), Code(Range(1, 2), "a"), Text(Range(0, 4), "`\U{20AC}")]
  {
    EuroScan();
    assert "`\U{20AC}"[..1] == "`";
    assert Utf8Length("`\U{20AC}") == 4;
  }

  lemma EuroSortTail()
    ensures SortByStart([Code(Range(1, 2), "a"), Text(Range(0, 4), "`\U{20AC}")])
         == [Text(Range(0, 4), "`\U{20AC}"), Code(Range(1, 2), "a")]
  {
    var c1 := Code(Range(1, 2), "a");
    var t2 := Text(Range(0, 4), "`\U{20AC}");
    assert [c1, t2][1..] == [t2] && [t2][1..] == [];
    assert SortByStart([t2]) == InsertByStart(t2, []) == [t2];
    assert InsertByStart(c1, [t2]) == [t2] + InsertByStart(c1, []);
  }

  lemma EuroSortAll()
    ensures SortByStart([Text(Range(0, 0), "`"), Code(Range(1, 2), "a"), Text(Range(0, 4), "`\U{20AC}")])
         == [Text(Range(0, 0), "`"), Text(Range(0, 4), "`\U{20AC}"), Code(Range(1, 2), "a")]
  {
    var t0 := Text(Range(0, 0), "`");
    var c1 := Code(Range(1, 2), "a");
    var t2 := Text(Range(0, 4), "`\U{20AC}");
    assert [t0, c1, t2][1..] == [c1, t2];
    EuroSortTail();
    assert InsertByStart(t0, [t2, c1]) == [t0, t2, c1];
  }

  lemma EuroConcat()
    ensures Concat([Text(Range(0, 0), "`"), Text(Range(0, 4), "`\U{20AC}"), Code(Range(1, 2), "a")]) == "``\U{20AC}a"
  {
    var t0 := Text(Range(0, 0), "`");
    var c1 := Code(Range(1, 2), "a");
    var t2 := Text(Range(0, 4), "`\U{20AC}");
    assert [t0, t2, c1][1..] == [t2, c1] && [t2, c1][1..] == [c1];
    ConcatSingle(c1);
  }

  lemma EuroSort()
    ensures LineText(InlineCodeLine(ByteColumns, 1, EuroSample)) == "``\U{20AC}a"
  {
    EuroLine();
    EuroSortAll();
    EuroConcat();
  }

  /**
   * With buffer lengths in UTF-8 bytes, the final Text block of "`a`€" is
   * given start 4 - 4 = 0, the stable sort by start moves it ahead of the Code
   * block at column 1, and reconstruction yields "``€a".
   */
  lemma ByteColumnsBreakRoundTrip()
    ensures Reconstruct(Parse(ByteColumns, EuroSample)) == "``\U{20AC}a"
    ensures Reconstruct(Parse(ByteColumns, EuroSample)) != EuroSample
  {
    var s := EuroSample;
    NoNewline(s);
    SplitInclusiveNoNewline(s);
    assert NewlineLines(s) == [s];
    ParseAt(ByteColumns, s, 0);
    assert NewlineLines(s)[..0] == [];
    var d := Parse(ByteColumns, s);
    assert d.lines[0] == InlineCodeLine(ByteColumns, 1, s);
    EuroSort();
    ReconstructLines(d);
    assert ("``\U{20AC}a")[1] != s[1];
  }

  /** A string without `'\n'` has no occurrence of `"\n"`. */
  lemma NoNewline(s: string)
    requires '\n' !in s
    ensures Find(s, "\n") == None
  {
    if Find(s, "\n").Some? {
      OccursAtChar(s, '\n', Find(s, "\n").value);
    }
  }
}
