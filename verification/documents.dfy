/**
 * The document model of `src/document.rs`: a document is a sequence of lines,
 * a line a sequence of column-tagged Text and Code blocks. Reconstruction
 * stably sorts each line's blocks by start column and joins the lines with
 * `"\n"`; evaluation pulls the Code contents out in traversal order, lets an
 * evaluator rewrite them as a slice of fixed length, and writes them back.
 */
module Documents {
  import opened Strings

  /** A half-open column interval `[start, end)`. */
  datatype Range = Range(start: nat, end: nat)

  datatype Block =
    | Text(range: Range, content: string)
    | Code(range: Range, content: string)

  datatype Line = Line(number: nat, blocks: seq<Block>)

  datatype Document = Document(lines: seq<Line>)

  function Start(b: Block): nat {
    b.range.start
  }

  /** Block contents concatenated in the given order. */
  function Concat(bs: seq<Block>): string
    decreases |bs|
  {
    if bs == [] then [] else bs[0].content + Concat(bs[1..])
  }

  lemma {:induction false} ConcatAppend(a: seq<Block>, b: seq<Block>)
    ensures Concat(a + b) == Concat(a) + Concat(b)
    decreases |a|
  {
    if a != [] {
      assert (a + b)[1..] == a[1..] + b;
      assert (a + b)[0] == a[0];
      ConcatAppend(a[1..], b);
      calc {
        Concat(a + b);
        a[0].content + Concat(a[1..] + b);
        a[0].content + (Concat(a[1..]) + Concat(b));
        (a[0].content + Concat(a[1..])) + Concat(b);
      }
    } else {
      assert a + b == b;
    }
  }

  // ---------------------------------------------------------------------------
  // Stable sort by start column (`sort_by_key` on the start column)
  // ---------------------------------------------------------------------------

  /** Start columns never decrease from one block to the next. */
  predicate SortedByStart(bs: seq<Block>) {
    forall i :: 0 < i < |bs| ==> Start(bs[i - 1]) <= Start(bs[i])
  }

  /** The blocks whose start column is `k`, in their order in `bs`. */
  function WithStart(bs: seq<Block>, k: nat): seq<Block>
    decreases |bs|
  {
    if bs == [] then []
    else (if Start(bs[0]) == k then [bs[0]] else []) + WithStart(bs[1..], k)
  }

  /** Places `b` before the first block whose start is not smaller than its own. */
  function InsertByStart(b: Block, s: seq<Block>): (r: seq<Block>)
    decreases |s|
    ensures |r| == |s| + 1
    ensures r[0] == b || (|s| > 0 && r[0] == s[0])
  {
    if s == [] || Start(b) <= Start(s[0]) then [b] + s else [s[0]] + InsertByStart(b, s[1..])
  }

  lemma {:induction false} InsertPermutes(b: Block, s: seq<Block>)
    ensures multiset(InsertByStart(b, s)) == multiset(s) + multiset{b}
    decreases |s|
  {
    if s != [] && Start(b) > Start(s[0]) {
      InsertPermutes(b, s[1..]);
      assert s == [s[0]] + s[1..];
    }
  }

  lemma {:induction false} InsertKeepsSorted(b: Block, s: seq<Block>)
    requires SortedByStart(s)
    ensures SortedByStart(InsertByStart(b, s))
    decreases |s|
  {
    if s != [] && Start(b) > Start(s[0]) {
      var rest := s[1..];
      assert SortedByStart(rest) by {
        forall i | 0 < i < |rest| ensures Start(rest[i - 1]) <= Start(rest[i]) {
          assert rest[i - 1] == s[i] && rest[i] == s[i + 1];
        }
      }
      InsertKeepsSorted(b, rest);
      var t := InsertByStart(b, rest);
      var r := [s[0]] + t;
      forall i | 0 < i < |r| ensures Start(r[i - 1]) <= Start(r[i]) {
        if i > 1 {
          assert r[i - 1] == t[i - 2] && r[i] == t[i - 1];
        }
      }
    }
  }

  lemma WithStartCons(x: Block, s: seq<Block>, k: nat)
    ensures WithStart([x] + s, k) == (if Start(x) == k then [x] else []) + WithStart(s, k)
  {
    assert ([x] + s)[1..] == s;
  }

  /** Inserting `b` adds it in front of the blocks with its start column and leaves the other columns alone. */
  lemma {:induction false} InsertKeepsKeyOrder(b: Block, s: seq<Block>, k: nat)
    ensures WithStart(InsertByStart(b, s), k) == (if Start(b) == k then [b] else []) + WithStart(s, k)
    decreases |s|
  {
    if s == [] || Start(b) <= Start(s[0]) {
      WithStartCons(b, s, k);
    } else {
      var t := InsertByStart(b, s[1..]);
      assert InsertByStart(b, s) == [s[0]] + t;
      assert [s[0]] + s[1..] == s;
      InsertKeepsKeyOrder(b, s[1..], k);
      WithStartCons(s[0], t, k);
      WithStartCons(s[0], s[1..], k);
      var w := WithStart(s[1..], k);
      if Start(s[0]) == k {
        assert WithStart(t, k) == w;
        assert WithStart(s, k) == [s[0]] + w;
      } else {
        assert WithStart(InsertByStart(b, s), k) == WithStart(t, k);
        assert WithStart(s, k) == w;
      }
    }
  }

  /**
   * A stable sort by start column: the result is ordered, is a permutation of
   * the input, and keeps the blocks that share a start column in their input
   * order. These three facts determine the result uniquely, so this insertion
   * sort stands for whatever stable algorithm `sort_by_key` uses.
   */
  function SortByStart(bs: seq<Block>): (r: seq<Block>)
    decreases |bs|
    ensures multiset(r) == multiset(bs)
    ensures SortedByStart(r)
    ensures forall k :: WithStart(r, k) == WithStart(bs, k)
  {
    if bs == [] then []
    else
      var sorted := SortByStart(bs[1..]);
      assert bs == [bs[0]] + bs[1..];
      InsertKeepsSorted(bs[0], sorted);
      InsertPermutes(bs[0], sorted);
      assert forall k :: WithStart(InsertByStart(bs[0], sorted), k) == WithStart(bs, k) by {
        forall k ensures WithStart(InsertByStart(bs[0], sorted), k) == WithStart(bs, k) {
          InsertKeepsKeyOrder(bs[0], sorted, k);
        }
      }
      InsertByStart(bs[0], sorted)
  }

  /** A line whose blocks are already in column order is left as it is by the sort. */
  lemma {:induction false} SortOfSortedIsIdentity(bs: seq<Block>)
    requires SortedByStart(bs)
    ensures SortByStart(bs) == bs
    decreases |bs|
  {
    if bs != [] {
      var rest := bs[1..];
      assert SortedByStart(rest) by {
        forall i | 0 < i < |rest| ensures Start(rest[i - 1]) <= Start(rest[i]) {
          assert rest[i - 1] == bs[i] && rest[i] == bs[i + 1];
        }
      }
      SortOfSortedIsIdentity(rest);
      assert [bs[0]] + rest == bs;
    }
  }

  /** Blocks with non-empty content appear in non-decreasing start order. */
  predicate NonEmptyOrdered(bs: seq<Block>) {
    forall i, j :: 0 <= i < j < |bs| && bs[i].content != [] && bs[j].content != [] ==> Start(bs[i]) <= Start(bs[j])
  }

  /** The blocks with non-empty content, in order. */
  function Solid(bs: seq<Block>): seq<Block>
    decreases |bs|
  {
    if bs == [] then []
    else (if bs[0].content != [] then [bs[0]] else []) + Solid(bs[1..])
  }

  lemma {:induction false} ConcatSolid(bs: seq<Block>)
    ensures Concat(Solid(bs)) == Concat(bs)
    decreases |bs|
  {
    if bs != [] {
      ConcatSolid(bs[1..]);
      var head := if bs[0].content != [] then [bs[0]] else [];
      ConcatAppend(head, Solid(bs[1..]));
      if head == [] {
        assert Concat(head) == [];
      } else {
        assert Concat(head) == bs[0].content + Concat([]);
      }
    }
  }

  lemma SolidCons(x: Block, s: seq<Block>)
    ensures Solid([x] + s) == (if x.content != [] then [x] else []) + Solid(s)
  {
    assert ([x] + s)[1..] == s;
  }

  lemma {:induction false} InsertEmptyBlock(b: Block, s: seq<Block>)
    requires b.content == []
    ensures Solid(InsertByStart(b, s)) == Solid(s)
    decreases |s|
  {
    if s == [] || Start(b) <= Start(s[0]) {
      SolidCons(b, s);
    } else {
      InsertEmptyBlock(b, s[1..]);
      var t := InsertByStart(b, s[1..]);
      assert InsertByStart(b, s) == [s[0]] + t;
      assert [s[0]] + s[1..] == s;
      SolidCons(s[0], t);
      SolidCons(s[0], s[1..]);
    }
  }

  lemma {:induction false} InsertLeastBlock(b: Block, s: seq<Block>)
    requires b.content != []
    requires forall i :: 0 <= i < |s| && s[i].content != [] ==> Start(b) <= Start(s[i])
    ensures Solid(InsertByStart(b, s)) == [b] + Solid(s)
    decreases |s|
  {
    if s == [] || Start(b) <= Start(s[0]) {
      SolidCons(b, s);
    } else {
      assert s[0].content == [];
      forall i | 0 <= i < |s| - 1 && s[1..][i].content != [] ensures Start(b) <= Start(s[1..][i]) {
        assert s[1..][i] == s[i + 1];
      }
      InsertLeastBlock(b, s[1..]);
      var t := InsertByStart(b, s[1..]);
      assert InsertByStart(b, s) == [s[0]] + t;
      assert [s[0]] + s[1..] == s;
      SolidCons(s[0], t);
      SolidCons(s[0], s[1..]);
    }
  }

  lemma NonEmptyOrderedTail(bs: seq<Block>)
    requires bs != [] && NonEmptyOrdered(bs)
    ensures NonEmptyOrdered(bs[1..])
  {
    var rest := bs[1..];
    forall i, j | 0 <= i < j < |rest| && rest[i].content != [] && rest[j].content != []
      ensures Start(rest[i]) <= Start(rest[j])
    {
      assert rest[i] == bs[i + 1] && rest[j] == bs[j + 1];
    }
  }

  /** A first block with content starts no later than any block with content in the sorted rest. */
  lemma HeadLeast(bs: seq<Block>)
    requires bs != [] && bs[0].content != [] && NonEmptyOrdered(bs)
    ensures var sorted := SortByStart(bs[1..]);
      forall i :: 0 <= i < |sorted| && sorted[i].content != [] ==> Start(bs[0]) <= Start(sorted[i])
  {
    var rest := bs[1..];
    var sorted := SortByStart(rest);
    forall i | 0 <= i < |sorted| && sorted[i].content != [] ensures Start(bs[0]) <= Start(sorted[i]) {
      var x := sorted[i];
      assert x in multiset(sorted);
      assert x in rest;
      var j :| 0 <= j < |rest| && rest[j] == x;
      assert bs[j + 1] == x;
    }
  }

  lemma {:induction false} SortKeepsSolidOrder(bs: seq<Block>)
    requires NonEmptyOrdered(bs)
    ensures Solid(SortByStart(bs)) == Solid(bs)
    decreases |bs|
  {
    if bs != [] {
      var rest := bs[1..];
      NonEmptyOrderedTail(bs);
      SortKeepsSolidOrder(rest);
      var sorted := SortByStart(rest);
      assert SortByStart(bs) == InsertByStart(bs[0], sorted);
      assert [bs[0]] + rest == bs;
      SolidCons(bs[0], rest);
      if bs[0].content == [] {
        InsertEmptyBlock(bs[0], sorted);
      } else {
        HeadLeast(bs);
        InsertLeastBlock(bs[0], sorted);
      }
    }
  }

  /**
   * Sorting leaves the concatenated text of a line alone as long as the blocks
   * with content are already in column order: blocks with empty content may
   * move, but they contribute nothing.
   */
  lemma SortKeepsText(bs: seq<Block>)
    requires NonEmptyOrdered(bs)
    ensures Concat(SortByStart(bs)) == Concat(bs)
  {
    SortKeepsSolidOrder(bs);
    ConcatSolid(bs);
    ConcatSolid(SortByStart(bs));
  }

  // ---------------------------------------------------------------------------
  // Reconstruction
  // ---------------------------------------------------------------------------

  /** One line of output: the blocks' contents in stable column order. */
  function LineText(l: Line): string {
    Concat(SortByStart(l.blocks))
  }

  function LineTexts(ls: seq<Line>): seq<string> {
    seq(|ls|, i requires 0 <= i < |ls| => LineText(ls[i]))
  }

  /** `Document::reconstruct`: the line texts joined with `"\n"`, with no trailing newline. */
  function Reconstruct(d: Document): string {
    Join(LineTexts(d.lines), "\n")
  }

  /** Reconstruction adds exactly one `"\n"` between consecutive lines and none after the last. */
  lemma {:induction false} ReconstructLines(d: Document)
    ensures d.lines == [] ==> Reconstruct(d) == []
    ensures |d.lines| == 1 ==> Reconstruct(d) == LineText(d.lines[0])
    ensures |d.lines| > 1 ==>
      Reconstruct(d) == LineText(d.lines[0]) + "\n" + Reconstruct(Document(d.lines[1..]))
  {
    if |d.lines| > 1 {
      assert LineTexts(d.lines)[1..] == LineTexts(d.lines[1..]);
    }
  }

  // ---------------------------------------------------------------------------
  // Code extraction and write-back
  // ---------------------------------------------------------------------------

  /** The contents of the Code blocks of one line, in storage order. */
  function LineCodes(bs: seq<Block>): seq<string>
    decreases |bs|
  {
    if bs == [] then []
    else (if bs[0].Code? then [bs[0].content] else []) + LineCodes(bs[1..])
  }

  function LinesCodes(ls: seq<Line>): seq<string>
    decreases |ls|
  {
    if ls == [] then [] else LineCodes(ls[0].blocks) + LinesCodes(ls[1..])
  }

  /**
   * `code_blocks_mut`, and the extraction step of `evaluate_with`: the Code
   * contents line by line, and within a line in storage order.
   */
  function CodeContents(d: Document): seq<string> {
    LinesCodes(d.lines)
  }

  lemma {:induction false} LineCodesAppend(a: seq<Block>, b: seq<Block>)
    ensures LineCodes(a + b) == LineCodes(a) + LineCodes(b)
    decreases |a|
  {
    if a != [] {
      assert (a + b)[0] == a[0];
      assert (a + b)[1..] == a[1..] + b;
      LineCodesAppend(a[1..], b);
      var head := if a[0].Code? then [a[0].content] else [];
      calc {
        LineCodes(a + b);
        head + LineCodes(a[1..] + b);
        head + (LineCodes(a[1..]) + LineCodes(b));
        (head + LineCodes(a[1..])) + LineCodes(b);
      }
    } else {
      assert a + b == b;
    }
  }

  lemma {:induction false} LinesCodesAppend(a: seq<Line>, b: seq<Line>)
    ensures LinesCodes(a + b) == LinesCodes(a) + LinesCodes(b)
    decreases |a|
  {
    if a != [] {
      assert (a + b)[0] == a[0];
      assert (a + b)[1..] == a[1..] + b;
      LinesCodesAppend(a[1..], b);
      calc {
        LinesCodes(a + b);
        LineCodes(a[0].blocks) + LinesCodes(a[1..] + b);
        LineCodes(a[0].blocks) + (LinesCodes(a[1..]) + LinesCodes(b));
        (LineCodes(a[0].blocks) + LinesCodes(a[1..])) + LinesCodes(b);
      }
    } else {
      assert a + b == b;
    }
  }

  /** How many Code blocks precede block `j` of line `i` in traversal order: that block's slot. */
  function CodesBefore(d: Document, i: nat, j: nat): nat
    requires i < |d.lines| && j <= |d.lines[i].blocks|
  {
    |LinesCodes(d.lines[..i])| + |LineCodes(d.lines[i].blocks[..j])|
  }

  /** The Code block at line `i`, block `j` is slot `CodesBefore(d, i, j)` of the extraction. */
  lemma CodeContentsAt(d: Document, i: nat, j: nat)
    requires i < |d.lines| && j < |d.lines[i].blocks| && d.lines[i].blocks[j].Code?
    ensures CodesBefore(d, i, j) < |CodeContents(d)|
    ensures CodeContents(d)[CodesBefore(d, i, j)] == d.lines[i].blocks[j].content
  {
    var ls := d.lines;
    var bs := ls[i].blocks;
    assert ls == ls[..i] + [ls[i]] + ls[i + 1..];
    LinesCodesAppend(ls[..i] + [ls[i]], ls[i + 1..]);
    LinesCodesAppend(ls[..i], [ls[i]]);
    assert LinesCodes([ls[i]]) == LineCodes(bs) + LinesCodes([]);
    assert bs == bs[..j] + [bs[j]] + bs[j + 1..];
    LineCodesAppend(bs[..j] + [bs[j]], bs[j + 1..]);
    LineCodesAppend(bs[..j], [bs[j]]);
    assert LineCodes([bs[j]]) == [bs[j].content] + LineCodes([]);
  }

  /** Same kind, same range, and for Text the same content: only Code contents may differ. */
  predicate SameBlockShape(a: Block, b: Block) {
    a.Text? == b.Text? && a.range == b.range && (a.Text? ==> a.content == b.content)
  }

  predicate SameLineShape(a: Line, b: Line) {
    && a.number == b.number
    && |a.blocks| == |b.blocks|
    && forall j :: 0 <= j < |a.blocks| ==> SameBlockShape(a.blocks[j], b.blocks[j])
  }

  /** Two documents that differ at most in the contents of their Code blocks. */
  predicate SameShape(a: Document, b: Document) {
    && |a.lines| == |b.lines|
    && forall i :: 0 <= i < |a.lines| ==> SameLineShape(a.lines[i], b.lines[i])
  }

  /** Replaces the Code contents of one line, in storage order, by `out`. */
  function WriteBlocks(bs: seq<Block>, out: seq<string>): (r: seq<Block>)
    requires |out| == |LineCodes(bs)|
    decreases |bs|
    ensures |r| == |bs|
    ensures forall j :: 0 <= j < |bs| ==> SameBlockShape(r[j], bs[j])
    ensures LineCodes(r) == out
    ensures out == LineCodes(bs) ==> r == bs
  {
    if bs == [] then []
    else match bs[0]
      case Text(_, _) =>
        var r := [bs[0]] + WriteBlocks(bs[1..], out);
        assert r[1..] == WriteBlocks(bs[1..], out);
        r
      case Code(range, _) =>
        var r := [Code(range, out[0])] + WriteBlocks(bs[1..], out[1..]);
        assert r[1..] == WriteBlocks(bs[1..], out[1..]);
        assert bs == [bs[0]] + bs[1..];
        r
  }

  function WriteLines(ls: seq<Line>, out: seq<string>): (r: seq<Line>)
    requires |out| == |LinesCodes(ls)|
    decreases |ls|
    ensures |r| == |ls|
    ensures forall i :: 0 <= i < |ls| ==> SameLineShape(r[i], ls[i])
    ensures LinesCodes(r) == out
    ensures out == LinesCodes(ls) ==> r == ls
  {
    if ls == [] then []
    else
      var n := |LineCodes(ls[0].blocks)|;
      var head := ls[0].(blocks := WriteBlocks(ls[0].blocks, out[..n]));
      var tail := WriteLines(ls[1..], out[n..]);
      WriteLinesStep(ls, out, head, tail);
      [head] + tail
  }

  lemma WriteLinesStep(ls: seq<Line>, out: seq<string>, head: Line, tail: seq<Line>)
    requires ls != [] && |out| == |LinesCodes(ls)|
    requires head == ls[0].(blocks := WriteBlocks(ls[0].blocks, out[..|LineCodes(ls[0].blocks)|]))
    requires |tail| == |ls| - 1
    requires forall i :: 0 <= i < |tail| ==> SameLineShape(tail[i], ls[1..][i])
    requires LinesCodes(tail) == out[|LineCodes(ls[0].blocks)|..]
    requires out[|LineCodes(ls[0].blocks)|..] == LinesCodes(ls[1..]) ==> tail == ls[1..]
    ensures forall i :: 0 <= i < |ls| ==> SameLineShape(([head] + tail)[i], ls[i])
    ensures LinesCodes([head] + tail) == out
    ensures out == LinesCodes(ls) ==> [head] + tail == ls
  {
    var n := |LineCodes(ls[0].blocks)|;
    var r := [head] + tail;
    assert r[0] == head && r[1..] == tail;
    assert LineCodes(head.blocks) == out[..n];
    assert LinesCodes(r) == out[..n] + out[n..] == out;
    assert SameLineShape(head, ls[0]);
    forall i | 0 < i < |ls| ensures SameLineShape(r[i], ls[i]) {
      assert r[i] == tail[i - 1] && ls[i] == ls[1..][i - 1];
    }
    if out == LinesCodes(ls) {
      assert out[..n] == LineCodes(ls[0].blocks);
      assert out[n..] == LinesCodes(ls[1..]);
      assert head == ls[0];
      assert ls == [ls[0]] + ls[1..];
    }
  }

  /**
   * `evaluate_with`: hand the evaluator the Code contents in traversal order,
   * then write slot k back into the k-th Code block. The slice the evaluator
   * receives cannot change length, which the precondition states.
   */
  function EvaluateWith(d: Document, evaluator: seq<string> -> seq<string>): (r: Document)
    requires |evaluator(CodeContents(d))| == |CodeContents(d)|
    ensures SameShape(r, d)
    ensures CodeContents(r) == evaluator(CodeContents(d))
    ensures evaluator(CodeContents(d)) == CodeContents(d) ==> r == d
  {
    Document(WriteLines(d.lines, evaluator(CodeContents(d))))
  }

  lemma {:induction false} SameShapeLineCodes(a: seq<Block>, b: seq<Block>)
    requires |a| == |b| && forall j :: 0 <= j < |a| ==> SameBlockShape(a[j], b[j])
    ensures |LineCodes(a)| == |LineCodes(b)|
    decreases |a|
  {
    if a != [] {
      assert SameBlockShape(a[0], b[0]);
      assert forall j :: 0 <= j < |a| - 1 ==> a[1..][j] == a[j + 1] && b[1..][j] == b[j + 1];
      SameShapeLineCodes(a[1..], b[1..]);
      assert |LineCodes(a)| == (if a[0].Code? then 1 else 0) + |LineCodes(a[1..])|;
      assert |LineCodes(b)| == (if b[0].Code? then 1 else 0) + |LineCodes(b[1..])|;
    } else {
      assert b == [];
    }
  }

  lemma {:induction false} SameShapeLinesCodes(a: seq<Line>, b: seq<Line>)
    requires |a| == |b| && forall i :: 0 <= i < |a| ==> SameLineShape(a[i], b[i])
    ensures |LinesCodes(a)| == |LinesCodes(b)|
    decreases |a|
  {
    if a != [] {
      assert SameLineShape(a[0], b[0]);
      SameShapeLineCodes(a[0].blocks, b[0].blocks);
      assert forall i :: 0 <= i < |a| - 1 ==> a[1..][i] == a[i + 1] && b[1..][i] == b[i + 1];
      SameShapeLinesCodes(a[1..], b[1..]);
      assert |LinesCodes(a)| == |LineCodes(a[0].blocks)| + |LinesCodes(a[1..])|;
    } else {
      assert b == [];
    }
  }

  /** After `evaluate_with`, the Code block at line `i`, block `j` holds the evaluator's slot for it. */
  lemma EvaluateWithSlot(d: Document, evaluator: seq<string> -> seq<string>, i: nat, j: nat)
    requires |evaluator(CodeContents(d))| == |CodeContents(d)|
    requires i < |d.lines| && j < |d.lines[i].blocks| && d.lines[i].blocks[j].Code?
    ensures CodesBefore(d, i, j) < |evaluator(CodeContents(d))|
    ensures EvaluateWith(d, evaluator).lines[i].blocks[j]
         == Code(d.lines[i].blocks[j].range, evaluator(CodeContents(d))[CodesBefore(d, i, j)])
  {
    var r := EvaluateWith(d, evaluator);
    assert SameLineShape(r.lines[i], d.lines[i]);
    assert SameBlockShape(r.lines[i].blocks[j], d.lines[i].blocks[j]);
    CodeContentsAt(r, i, j);
    SameShapeLinesCodes(r.lines[..i], d.lines[..i]);
    SameShapeLineCodes(r.lines[i].blocks[..j], d.lines[i].blocks[..j]);
  }
}
