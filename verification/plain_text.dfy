/**
 * `PlainParser` of `src/parser.rs`: every line of the input, as `str::lines`
 * splits it, becomes one Code block spanning the whole line.
 */
module PlainText {
  import opened Strings
  import opened Documents

  /** The line for raw line `text` at 0-based position `i`; the range end is the line's byte length. */
  function PlainLine(i: nat, text: string): Line {
    Line(i + 1, [Code(Range(0, Utf8Length(text)), text)])
  }

  function Parse(input: string): (d: Document)
    ensures |d.lines| == |Lines(input)|
  {
    var raws := Lines(input);
    Document(seq(|raws|, i requires 0 <= i < |raws| => PlainLine(i, raws[i])))
  }

  lemma {:induction false} PlainCodes(raws: seq<string>, ls: seq<Line>, from: nat)
    requires |ls| == |raws|
    requires forall i :: 0 <= i < |ls| ==> ls[i] == PlainLine(from + i, raws[i])
    ensures LinesCodes(ls) == raws
    decreases |ls|
  {
    if ls != [] {
      assert LineCodes(ls[0].blocks) == [raws[0]] + LineCodes([]);
      PlainCodes(raws[1..], ls[1..], from + 1);
    }
  }

  /**
   * Every line of the input is one Code block holding exactly that line, with
   * no Text around it: the extracted code is the list of lines, line k is
   * numbered k + 1, and its block spans columns 0 to the line's UTF-8 byte length.
   */
  lemma PlainShape(input: string)
    ensures CodeContents(Parse(input)) == Lines(input)
    ensures forall k :: 0 <= k < |Parse(input).lines| ==>
      && Parse(input).lines[k].number == k + 1
      && |Parse(input).lines[k].blocks| == 1
      && Parse(input).lines[k].blocks[0].Code?
      && Parse(input).lines[k].blocks[0].range == Range(0, Utf8Length(Lines(input)[k]))
  {
    var d := Parse(input);
    PlainCodes(Lines(input), d.lines, 0);
  }

  /** A one-block line reconstructs to the block's content. */
  lemma SingleLineText(l: Line)
    requires |l.blocks| == 1
    ensures LineText(l) == l.blocks[0].content
  {
    SortOfSortedIsIdentity(l.blocks);
    assert Concat(l.blocks) == l.blocks[0].content + Concat([]);
  }

  /**
   * Round trip: a text without carriage returns and without a final newline
   * reconstructs to itself.
   */
  lemma ParseRoundTrip(input: string)
    requires '\r' !in input && !EndsWithChar(input, '\n')
    ensures Reconstruct(Parse(input)) == input
  {
    var d := Parse(input);
    LinesWithoutCarriageReturns(input);
    forall k | 0 <= k < |d.lines|
      ensures LineTexts(d.lines)[k] == NewlineLines(input)[k]
    {
      SingleLineText(d.lines[k]);
    }
    assert LineTexts(d.lines) == NewlineLines(input);
    JoinNewlineLines(input);
  }

  /** One final line ending is not a line of its own: the document is the same with or without it. */
  lemma FinalNewlineIgnored(input: string)
    requires input != [] && !EndsWithChar(input, '\n') && !EndsWithChar(input, '\r')
    ensures Parse(input + "\n") == Parse(input)
  {
    LinesIgnoreFinalNewline(input);
  }

  /** Line `k` of the evaluated document is one Code block holding slot `k` of the evaluator's output. */
  lemma EvaluatedLine(input: string, f: seq<string> -> seq<string>, k: nat)
    requires |f(Lines(input))| == |Lines(input)|
    requires k < |Lines(input)|
    ensures CodeContents(Parse(input)) == Lines(input)
    ensures LineText(EvaluateWith(Parse(input), f).lines[k]) == f(Lines(input))[k]
  {
    var d := Parse(input);
    PlainShape(input);
    var e := EvaluateWith(d, f);
    assert SameLineShape(e.lines[k], d.lines[k]);
    EvaluateWithSlot(d, f, k, 0);
    PlainCodes(Lines(input)[..k], d.lines[..k], 0);
    assert d.lines[k].blocks[..0] == [];
    SingleLineText(e.lines[k]);
  }

  /** Evaluating a plain-text document rewrites it line by line: the output is the evaluated lines joined by newlines. */
  lemma EvaluatedText(input: string, f: seq<string> -> seq<string>)
    requires |f(Lines(input))| == |Lines(input)|
    ensures CodeContents(Parse(input)) == Lines(input)
    ensures Reconstruct(EvaluateWith(Parse(input), f)) == Join(f(Lines(input)), "\n")
  {
    PlainShape(input);
    var e := EvaluateWith(Parse(input), f);
    forall k | 0 <= k < |e.lines| ensures LineTexts(e.lines)[k] == f(Lines(input))[k] {
      EvaluatedLine(input, f, k);
    }
    assert LineTexts(e.lines) == f(Lines(input));
  }
}
