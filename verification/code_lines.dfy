/**
 * The line grammar shared by the languages (`src/lang/mod.rs`): a code
 * line is plain code, or code followed by an evaluation marker, an optional
 * result and an optional trailing comment. The assignment detector is the
 * caller's and enters as a function parameter.
 */
module CodeLines {
  import opened Wrappers
  import opened Strings

  /** The marker and comment prefix every language passes to `SplitLine`. */
  const Marker: string := "#="
  const CommentPrefix: string := "#"

  datatype CodeLine =
    | Code(code: string)
    | Eval(code: string, marker: string, result: Option<string>, comment: Option<string>)
    | EvalAssignment(name: string, code: string, marker: string, result: Option<string>, comment: Option<string>)

  /** What follows the new result: a space and the trimmed comment, if there is one. */
  function Tail(comment: Option<string>): string {
    if comment.Some? then " " + Trim(comment.value) else ""
  }

  /** The marked line with its code, marker and result, and the trimmed comment if any. */
  function Rebuild(code: string, marker: string, result: string, comment: Option<string>): string {
    code + " " + marker + " " + result + Tail(comment)
  }

  /** `CodeLine::reconstruct`: the line with `result` in place of its old result. */
  function Reconstruct(l: CodeLine, result: string): string {
    match l
    case Code(code) => code
    case Eval(code, marker, _, comment) => Rebuild(code, marker, result, comment)
    case EvalAssignment(_, code, marker, _, comment) => Rebuild(code, marker, result, comment)
  }

  /**
   * The text after the marker, split at the first comment prefix into the
   * result (trimmed, absent when blank) and the comment (trimmed).
   */
  function SplitAfter(after: string, comment: string): (r: (Option<string>, Option<string>))
    ensures r.0.Some? ==> r.0.value != []
    ensures r.1.Some? <==> Contains(after, comment)
  {
    var (resultPart, commentPart) :=
      match Find(after, comment)
      case Some(c) => (Trim(after[..c]), Some(after[c..]))
      case None => (Trim(after), None);
    (if resultPart == [] then None else Some(resultPart),
     if commentPart.Some? then Some(Trim(commentPart.value)) else None)
  }

  /** An `Eval`, or an `EvalAssignment` when the detector names a variable in the code. */
  function Classify(code: string, marker: string, parts: (Option<string>, Option<string>), detect: string -> Option<string>): (r: CodeLine)
    ensures !r.Code? && r.code == code && r.marker == marker && r.result == parts.0 && r.comment == parts.1
    ensures r.EvalAssignment? <==> detect(code).Some?
    ensures r.EvalAssignment? ==> Some(r.name) == detect(code)
  {
    match detect(code)
    case Some(name) => EvalAssignment(name, code, marker, parts.0, parts.1)
    case None => Eval(code, marker, parts.0, parts.1)
  }

  /** `split_line` on an already trimmed line. */
  function SplitTrimmed(t: string, marker: string, comment: string, detect: string -> Option<string>): (r: CodeLine)
    ensures r.Code? <==> !Contains(t, marker)
    ensures r.Code? ==> r.code == t
    ensures !r.Code? ==> r.marker == marker
    ensures !r.Code? ==> (r.EvalAssignment? <==> detect(r.code).Some?)
    ensures r.EvalAssignment? ==> Some(r.name) == detect(r.code)
    ensures !r.Code? && r.result.Some? ==> r.result.value != []
  {
    match Find(t, marker)
    case None => Code(t)
    case Some(p) => Classify(Trim(t[..p]), marker, SplitAfter(t[p + |marker|..], comment), detect)
  }

  /**
   * `split_line`. The input is trimmed; without the marker it is plain code.
   * Otherwise the code is the trimmed text before the marker's first
   * occurrence, and the text after the marker gives the result and comment.
   */
  function SplitLine(input: string, marker: string, comment: string, detect: string -> Option<string>): (r: CodeLine)
    ensures r.Code? <==> !Contains(Trim(input), marker)
    ensures r.Code? ==> r.code == Trim(input)
    ensures !r.Code? ==> r.marker == marker
    ensures !r.Code? ==> (r.EvalAssignment? <==> detect(r.code).Some?)
    ensures r.EvalAssignment? ==> Some(r.name) == detect(r.code)
    ensures !r.Code? && r.result.Some? ==> r.result.value != []
  {
    SplitTrimmed(Trim(input), marker, comment, detect)
  }

  /** The lines of a slice, each split with the shared marker and comment prefix. */
  function SplitLines(input: seq<string>, detect: string -> Option<string>): (r: seq<CodeLine>)
    ensures |r| == |input|
    ensures forall i :: 0 <= i < |input| ==> (r[i].Code? <==> !Contains(Trim(input[i]), Marker))
  {
    seq(|input|, i requires 0 <= i < |input| => SplitLine(input[i], Marker, CommentPrefix, detect))
  }

  // ---------------------------------------------------------------------------
  // Well-formed lines: what `SplitLine` produces with the shared marker and comment prefix
  // ---------------------------------------------------------------------------

  predicate CommentOk(comment: Option<string>) {
    comment.Some? ==> Trimmed(comment.value) && StartsWith(comment.value, CommentPrefix)
  }

  predicate ResultOk(result: Option<string>) {
    result.Some? ==> result.value != [] && Trimmed(result.value) && '#' !in result.value
  }

  /** The code is trimmed and marker-free, and the detector agrees with the line's kind. */
  predicate WellFormed(l: CodeLine, detect: string -> Option<string>) {
    && Trimmed(l.code)
    && !Contains(l.code, Marker)
    && match l
       case Code(_) => true
       case Eval(code, marker, result, comment) =>
         marker == Marker && detect(code).None? && ResultOk(result) && CommentOk(comment)
       case EvalAssignment(name, code, marker, result, comment) =>
         marker == Marker && detect(code) == Some(name) && ResultOk(result) && CommentOk(comment)
  }

  /** The line with its result replaced; plain code has none. */
  function WithResult(l: CodeLine, result: string): CodeLine {
    if l.Code? then l else l.(result := Some(result))
  }

  lemma WhitespaceSpace()
    ensures AllWhitespace(" ") && AllWhitespace([])
  {
  }

  /** `SplitAfter` when the comment prefix first occurs at `c`. */
  lemma SplitAfterAt(after: string, c: nat)
    requires Find(after, CommentPrefix) == Some(c)
    ensures c < |after|
    ensures SplitAfter(after, CommentPrefix)
         == (if Trim(after[..c]) == [] then None else Some(Trim(after[..c])), Some(Trim(after[c..])))
  {
    assert OccursAt(after, CommentPrefix, c);
  }

  /** `SplitAfter` of a text without a comment prefix. */
  lemma SplitAfterNone(after: string)
    requires Find(after, CommentPrefix) == None
    ensures SplitAfter(after, CommentPrefix) == (if Trim(after) == [] then None else Some(Trim(after)), None)
  {
  }

  /** The text a rebuilt line has after its marker splits back into the result and the comment. */
  lemma SplitAfterRebuilt(result: string, comment: Option<string>)
    requires ResultOk(Some(result)) && CommentOk(comment)
    ensures SplitAfter(" " + result + Tail(comment), CommentPrefix) == (Some(result), comment)
  {
    WhitespaceSpace();
    var after := " " + result + Tail(comment);
    if comment.Some? {
      var c := comment.value;
      TrimmedFixed(c);
      assert after == " " + result + " " + c;
      var at := |result| + 2;
      assert after[at] == c[0] == '#';
      forall j | 0 <= j < at ensures after[j] != '#' {
        if 0 < j <= |result| {
          assert after[j] == result[j - 1];
        }
      }
      FindCharAt(after, '#', at);
      assert after[..at] == " " + result + " ";
      TrimPadded(" ", result, " ");
      assert after[at..] == c;
      SplitAfterAt(after, at);
    } else {
      assert after == " " + result + [];
      assert '#' !in after;
      NotContainsChar(after, '#');
      TrimPadded(" ", result, []);
      SplitAfterNone(after);
    }
  }

  /** A marker occurrence in the rebuilt line can only be the one after the code. */
  lemma FirstMarker(code: string, t: string)
    requires code != [] && !Contains(code, Marker)
    requires |code| + 3 <= |t| && t[..|code| + 3] == code + " " + Marker
    ensures Find(t, Marker) == Some(|code| + 1)
  {
    var pre := code + " " + Marker;
    assert forall j :: 0 <= j < |code| + 3 ==> t[j] == t[..|code| + 3][j];
    assert t[|code|] == ' ' && t[|code| + 1] == '#' && t[|code| + 2] == '=';
    assert t[|code| + 1..|code| + 3] == Marker;
    forall i | 0 <= i < |code| + 1 ensures !OccursAt(t, Marker, i) {
      if i + 2 <= |code| {
        var u, v := code[i..i + 2], t[i..i + 2];
        assert u[0] == pre[i] && u[1] == pre[i + 1];
        assert u == v;
        assert !OccursAt(code, Marker, i);
      } else if i + 1 == |code| {
        assert t[i + 1] == ' ';
      } else {
        assert t[i] == ' ';
      }
    }
    FindIs(t, Marker, |code| + 1);
  }

  /**
   * A line made of trimmed, marker-free code, a space, the marker and a rest
   * that ends in a non-blank: trimmed, its first marker sits right after the
   * code and the space, and the text before it trims to the code.
   */
  lemma MarkedLine(code: string, rest: string)
    requires Trimmed(code) && !Contains(code, Marker)
    requires rest != [] && !IsWhitespace(rest[|rest| - 1])
    ensures var t := Trim(code + " " + Marker + rest);
      var m := if code == [] then 0 else |code| + 1;
      && Find(t, Marker) == Some(m)
      && Trim(t[..m]) == code
      && t[m + |Marker|..] == rest
  {
    if code == [] {
      MarkedLineNoCode(rest);
      assert code + " " + Marker + rest == " " + Marker + rest;
    } else {
      MarkedLineWithCode(code, rest);
    }
  }

  lemma MarkedLineNoCode(rest: string)
    requires rest != [] && !IsWhitespace(rest[|rest| - 1])
    ensures var t := Trim(" " + Marker + rest);
      && Find(t, Marker) == Some(0)
      && Trim(t[..0]) == []
      && t[|Marker|..] == rest
  {
    var t := Marker + rest;
    WhitespaceSpace();
    TrimPadded(" ", t, []);
    assert " " + Marker + rest == " " + t + [];
    assert t[..2] == Marker;
    FindIs(t, Marker, 0);
    TrimmedFixed([]);
    assert t[..0] == [];
  }

  lemma MarkedLineWithCode(code: string, rest: string)
    requires code != [] && Trimmed(code) && !Contains(code, Marker)
    requires rest != [] && !IsWhitespace(rest[|rest| - 1])
    ensures var t := Trim(code + " " + Marker + rest);
      && Find(t, Marker) == Some(|code| + 1)
      && Trim(t[..|code| + 1]) == code
      && t[|code| + 1 + |Marker|..] == rest
  {
    var line := code + " " + Marker + rest;
    MarkedLineTrimmed(code, rest);
    WhitespaceSpace();
    TrimPadded([], code, " ");
    assert line[..|code| + 1] == [] + code + " ";
    assert line[..|code| + 3] == code + " " + Marker;
    FirstMarker(code, line);
  }

  /** A marked line that starts and ends in a non-blank is its own trim. */
  lemma MarkedLineTrimmed(code: string, rest: string)
    requires code != [] && Trimmed(code)
    requires rest != [] && !IsWhitespace(rest[|rest| - 1])
    ensures Trim(code + " " + Marker + rest) == code + " " + Marker + rest
  {
    var line := code + " " + Marker + rest;
    assert line[0] == code[0] && line[|line| - 1] == rest[|rest| - 1];
    TrimmedFixed(line);
  }

  /** The text after the marker ends in a non-blank: the result's or the comment's last char. */
  lemma RestEnd(result: string, comment: Option<string>)
    requires ResultOk(Some(result)) && CommentOk(comment)
    ensures var rest := " " + result + Tail(comment);
      rest != [] && !IsWhitespace(rest[|rest| - 1])
  {
    var rest := " " + result + Tail(comment);
    if comment.Some? {
      TrimmedFixed(comment.value);
      assert rest[|rest| - 1] == comment.value[|comment.value| - 1];
    } else {
      assert rest[|rest| - 1] == result[|result| - 1];
    }
  }

  /** `SplitTrimmed` of a line whose parts around the first marker are known. */
  lemma SplitTrimmedParts(t: string, m: nat, code: string, rest: string, parts: (Option<string>, Option<string>), detect: string -> Option<string>)
    requires Find(t, Marker) == Some(m) && Trim(t[..m]) == code
    requires m + |Marker| <= |t| && t[m + |Marker|..] == rest && SplitAfter(rest, CommentPrefix) == parts
    ensures SplitTrimmed(t, Marker, CommentPrefix, detect) == Classify(code, Marker, parts, detect)
  {
  }

  lemma RebuildParts(code: string, result: string, comment: Option<string>)
    ensures Rebuild(code, Marker, result, comment) == code + " " + Marker + (" " + result + Tail(comment))
  {
  }

  /** A rebuilt marked line splits back into its code, the new result and its comment. */
  lemma RebuiltSplit(code: string, result: string, comment: Option<string>, detect: string -> Option<string>)
    requires Trimmed(code) && !Contains(code, Marker) && ResultOk(Some(result)) && CommentOk(comment)
    ensures SplitLine(Rebuild(code, Marker, result, comment), Marker, CommentPrefix, detect)
         == Classify(code, Marker, (Some(result), comment), detect)
  {
    var rest := " " + result + Tail(comment);
    RestEnd(result, comment);
    RebuildParts(code, result, comment);
    MarkedLine(code, rest);
    SplitAfterRebuilt(result, comment);
    var m := if code == [] then 0 else |code| + 1;
    SplitTrimmedParts(Trim(code + " " + Marker + rest), m, code, rest, (Some(result), comment), detect);
  }

  /**
   * Round trip: re-splitting a well-formed line rebuilt with a non-empty,
   * trimmed, `'#'`-free result gives back the same line with that result.
   */
  lemma SplitReconstruct(l: CodeLine, result: string, detect: string -> Option<string>)
    requires WellFormed(l, detect) && ResultOk(Some(result))
    ensures SplitLine(Reconstruct(l, result), Marker, CommentPrefix, detect) == WithResult(l, result)
  {
    if l.Code? {
      TrimmedFixed(l.code);
    } else {
      RebuiltSplit(l.code, result, l.comment, detect);
    }
  }

  /** The code before the first marker, trimmed, holds no marker. */
  lemma CodeBeforeMarker(trimmed: string, p: nat)
    requires Find(trimmed, Marker) == Some(p)
    ensures !Contains(Trim(trimmed[..p]), Marker)
  {
    var before := trimmed[..p];
    TrimSlice(before);
    var k := LeadingWhitespace(before);
    SliceBeforeFirst(trimmed, Marker, k, k + |Trim(before)|);
    assert trimmed[k..k + |Trim(before)|] == Trim(before);
  }

  /** Splitting any text at the first `'#'` yields a `'#'`-free result and a well-formed comment. */
  lemma SplitAfterOk(after: string)
    ensures ResultOk(SplitAfter(after, CommentPrefix).0)
    ensures CommentOk(SplitAfter(after, CommentPrefix).1)
  {
    match Find(after, CommentPrefix)
    case Some(c) =>
      SplitAfterAt(after, c);
      var part, rest := after[..c], after[c..];
      OccursAtChar(after, '#', c);
      assert rest[0] == '#';
      TrimKeepsFirst(rest);
      TrimIsTrimmed(rest);
      assert Trim(rest)[..1] == CommentPrefix;
      forall j | 0 <= j < c ensures part[j] != '#' {
        OccursAtChar(after, '#', j);
      }
      TrimLacks(part, '#');
      TrimIsTrimmed(part);
    case None =>
      SplitAfterNone(after);
      FindNoneChar(after, '#');
      TrimLacks(after, '#');
      TrimIsTrimmed(after);
  }



  /** `SplitLine` with the shared marker and comment prefix yields a well-formed line. */
  lemma SplitLineWellFormed(input: string, detect: string -> Option<string>)
    ensures WellFormed(SplitLine(input, Marker, CommentPrefix, detect), detect)
  {
    var t := Trim(input);
    TrimIsTrimmed(input);
    match Find(t, Marker)
    case None =>
      assert SplitLine(input, Marker, CommentPrefix, detect) == Code(t);
    case Some(p) =>
      assert OccursAt(t, Marker, p);
      var code := Trim(t[..p]);
      var rest := t[p + |Marker|..];
      TrimIsTrimmed(t[..p]);
      CodeBeforeMarker(t, p);
      SplitAfterOk(rest);
      SplitTrimmedParts(t, p, code, rest, SplitAfter(rest, CommentPrefix), detect);
      ClassifyWellFormed(code, SplitAfter(rest, CommentPrefix), detect);
  }

  lemma ClassifyWellFormed(code: string, parts: (Option<string>, Option<string>), detect: string -> Option<string>)
    requires Trimmed(code) && !Contains(code, Marker) && ResultOk(parts.0) && CommentOk(parts.1)
    ensures WellFormed(Classify(code, Marker, parts, detect), detect)
  {
  }

  /**
   * Writing a result into any line and splitting again reproduces the split
   * with that result: evaluation is idempotent on the line structure.
   */
  lemma ResplitAfterReconstruct(input: string, result: string, detect: string -> Option<string>)
    requires ResultOk(Some(result))
    ensures var l := SplitLine(input, Marker, CommentPrefix, detect);
      SplitLine(Reconstruct(l, result), Marker, CommentPrefix, detect) == WithResult(l, result)
  {
    SplitLineWellFormed(input, detect);
    SplitReconstruct(SplitLine(input, Marker, CommentPrefix, detect), result, detect);
  }

  // ---------------------------------------------------------------------------
  // What `SplitLine` makes of any marked line
  // ---------------------------------------------------------------------------

  /** A text without `#` holds no marker. */
  lemma NoMarkerWithoutHash(s: string)
    requires '#' !in s
    ensures !Contains(s, Marker)
  {
    forall i: nat | i + 2 <= |s| ensures !OccursAt(s, Marker, i) {
      assert s[i..i + 2][0] == s[i];
    }
  }

  /**
   * Trimming a marked line drops the whitespace in front of the code (and,
   * when there is no code, in front of the marker) and the whitespace at the end.
   */
  lemma TrimMarked(p1: string, c: string, p2: string, a: string)
    requires AllWhitespace(p1) && AllWhitespace(p2) && Trimmed(c)
    ensures Trim(p1 + c + p2 + Marker + a) == (if c == [] then [] else c + p2) + Marker + TrimEnd(a)
  {
    var head := if c == [] then [] else c + p2;
    assert p1 + c + p2 + Marker + a == p1 + c + p2 + (Marker + a);
    TrimStartPadded(p1, c, p2, Marker + a);
    assert head + (Marker + a) == (head + Marker) + a;
    TrimEndBefore(head + Marker, a);
  }

  /** Left-trimming skips the padding before trimmed code, or before what follows when there is no code. */
  lemma TrimStartPadded(p1: string, c: string, p2: string, rest: string)
    requires AllWhitespace(p1) && AllWhitespace(p2) && Trimmed(c)
    requires rest != [] && !IsWhitespace(rest[0])
    ensures TrimStart(p1 + c + p2 + rest) == (if c == [] then [] else c + p2) + rest
  {
    var line := p1 + c + p2 + rest;
    var lead := if c == [] then |p1| + |p2| else |p1|;
    forall j | 0 <= j < lead ensures IsWhitespace(line[..lead][j]) {
      if j < |p1| {
        assert line[j] == p1[j];
      } else {
        assert line[j] == p2[j - |p1|];
      }
    }
    assert line[lead] == if c == [] then rest[0] else c[0];
    LeadingWhitespaceUnique(line, lead);
    assert line[lead..] == (if c == [] then [] else c + p2) + rest;
  }

  /** Right-trimming a text whose first part ends in a non-blank trims only the rest. */
  lemma TrimEndBefore(y: string, a: string)
    requires y != [] && !IsWhitespace(y[|y| - 1])
    ensures TrimEnd(y + a) == y + TrimEnd(a)
  {
    var k := TrailingStart(a);
    var s := y + a;
    assert s[|y| + k..] == a[k..];
    assert s[|y| + k - 1] == if k == 0 then y[|y| - 1] else a[k - 1];
    TrailingStartUnique(s, |y| + k);
    assert s[..|y| + k] == y + a[..k];
  }

  /** After marker-free code and whitespace, the first marker is the one that follows. */
  lemma MarkerAfterPad(c: string, p2: string, rest: string)
    requires !Contains(c, Marker) && AllWhitespace(p2)
    ensures Find(c + p2 + Marker + rest, Marker) == Some(|c| + |p2|)
  {
    var t := c + p2 + Marker + rest;
    var n := |c| + |p2|;
    assert t[n..n + 2] == Marker;
    forall i | 0 <= i < n ensures !OccursAt(t, Marker, i) {
      if i + 2 <= |c| {
        assert t[i..i + 2] == c[i..i + 2];
        assert !OccursAt(c, Marker, i);
      } else if i + 1 == |c| {
        assert t[i + 1] == (p2 + Marker)[0];
      } else {
        assert t[i] == p2[i - |c|];
      }
    }
    FindIs(t, Marker, n);
  }

  /** The text after the marker when the line has no comment: the result is the trimmed text. */
  lemma SplitAfterNoComment(p3: string, r: string, p4: string)
    requires AllWhitespace(p3) && AllWhitespace(p4) && Trimmed(r) && '#' !in r
    ensures SplitAfter(TrimEnd(p3 + r + p4), CommentPrefix) == (if r == [] then None else Some(r), None)
  {
    var s := p3 + r + p4;
    var k := if r == [] then 0 else |p3| + |r|;
    assert s[k..] == if r == [] then s else p4;
    TrailingStartUnique(s, k);
    var e := if r == [] then [] else p3 + r;
    assert TrimEnd(s) == e;
    forall j | 0 <= j < |e| ensures e[j] != '#' {
      if j >= |p3| {
        assert e[j] == r[j - |p3|];
      }
    }
    NotContainsChar(e, '#');
    SplitAfterNone(e);
    if r == [] {
      TrimmedFixed([]);
    } else {
      TrimPadded(p3, r, []);
      assert e == p3 + r + [];
    }
  }

  /** Trimming the end of a text whose last part starts with a non-blank trims only that part. */
  lemma TrimEndAfter(x: string, cm: string)
    requires cm != [] && !IsWhitespace(cm[0])
    ensures TrailingStart(cm) > 0
    ensures TrimEnd(x + cm) == x + TrimEnd(cm)
  {
    var k0 := TrailingStart(cm);
    var s := x + cm;
    assert s[|x| + k0..] == cm[k0..];
    assert s[|x| + k0 - 1] == cm[k0 - 1];
    TrailingStartUnique(s, |x| + k0);
  }

  /** The text after the marker when the line has a comment: the result stands before its `#`. */
  lemma SplitAfterComment(p3: string, r: string, p4: string, cm: string)
    requires AllWhitespace(p3) && AllWhitespace(p4) && Trimmed(r) && '#' !in r
    requires cm != [] && cm[0] == '#'
    ensures SplitAfter(TrimEnd(p3 + r + p4 + cm), CommentPrefix) == (if r == [] then None else Some(r), Some(Trim(cm)))
  {
    var x := p3 + r + p4;
    var at := |x|;
    TrimEndAfter(x, cm);
    var e := x + TrimEnd(cm);
    assert e[at] == '#';
    forall j | 0 <= j < at ensures e[j] != '#' {
      if |p3| <= j < |p3| + |r| {
        assert e[j] == r[j - |p3|];
      } else if j < |p3| {
        assert e[j] == p3[j];
      } else {
        assert e[j] == p4[j - |p3| - |r|];
      }
    }
    FindCharAt(e, '#', at);
    SplitAfterAt(e, at);
    assert e[..at] == p3 + r + p4;
    TrimPadded(p3, r, p4);
    assert e[at..] == TrimEnd(cm);
    TrimStartOfNonBlank(cm);
    TrimIsTrimmed(cm);
    TrimmedFixed(Trim(cm));
  }

  /**
   * Every marked line: with whitespace `p1`..`p4`, trimmed marker-free code
   * `c`, a trimmed `#`-free result text `r` and a comment `cm` that is empty
   * or starts with `#`, the line splits into code `c`, the result `r` (absent
   * when empty) and the trimmed comment (absent when empty). Every line that
   * contains the marker can be written this way.
   */
  lemma SplitPadded(p1: string, c: string, p2: string, p3: string, r: string, p4: string, cm: string, detect: string -> Option<string>)
    requires AllWhitespace(p1) && AllWhitespace(p2) && AllWhitespace(p3) && AllWhitespace(p4)
    requires Trimmed(c) && !Contains(c, Marker)
    requires Trimmed(r) && '#' !in r
    requires cm == [] || cm[0] == '#'
    ensures SplitLine(p1 + c + p2 + Marker + p3 + r + p4 + cm, Marker, CommentPrefix, detect)
         == Classify(c, Marker, (if r == [] then None else Some(r), if cm == [] then None else Some(Trim(cm))), detect)
  {
    var a := p3 + r + p4 + cm;
    var line := p1 + c + p2 + Marker + a;
    assert p1 + c + p2 + Marker + p3 + r + p4 + cm == line;
    TrimMarked(p1, c, p2, a);
    var head := if c == [] then [] else c + p2;
    var t := head + Marker + TrimEnd(a);
    MarkedHead(c, p2, TrimEnd(a));
    SplitTrimmedAt(t, |head|, detect);
    assert t[|head| + |Marker|..] == TrimEnd(a);
    if cm == [] {
      assert a == p3 + r + p4;
      SplitAfterNoComment(p3, r, p4);
    } else {
      SplitAfterComment(p3, r, p4, cm);
    }
  }

  /** The trimmed marked line: its first marker follows the code, and the text before it trims to the code. */
  lemma MarkedHead(c: string, p2: string, e: string)
    requires AllWhitespace(p2) && Trimmed(c) && !Contains(c, Marker)
    ensures var head := if c == [] then [] else c + p2;
      var t := head + Marker + e;
      && Find(t, Marker) == Some(|head|)
      && Trim(t[..|head|]) == c
  {
    var head := if c == [] then [] else c + p2;
    var t := head + Marker + e;
    assert t[..|head|] == head;
    if c == [] {
      MarkerAfterPad([], [], e);
      assert [] + [] + Marker + e == t;
      TrimmedFixed([]);
    } else {
      MarkerAfterPad(c, p2, e);
      TrimPadded([], c, p2);
      assert [] + c + p2 == head;
    }
  }

  /** `split_line` on a trimmed line whose first marker is at `p`. */
  lemma SplitTrimmedAt(t: string, p: nat, detect: string -> Option<string>)
    requires Find(t, Marker) == Some(p)
    ensures p + |Marker| <= |t|
    ensures SplitTrimmed(t, Marker, CommentPrefix, detect)
         == Classify(Trim(t[..p]), Marker, SplitAfter(t[p + |Marker|..], CommentPrefix), detect)
  {
  }

  /** The padded evaluation line of the source's tests splits into its trimmed parts. */
  lemma SpacedLine(line: string, detect: string -> Option<string>)
    requires line == "  d + 4   #=    12    # some note   "
    requires detect("d + 4") == None
    ensures SplitLine(line, Marker, CommentPrefix, detect) == Eval("d + 4", Marker, Some("12"), Some("# some note"))
  {
    var c, r, note := "d + 4", "12", "# some note";
    var p1, p2, p3 := "  ", "   ", "    ";
    var cm := note + p2;
    assert Trimmed(c) && '#' !in c && Trimmed(r) && '#' !in r && Trimmed(note);
    assert AllWhitespace(p1) && AllWhitespace(p2) && AllWhitespace(p3);
    NoMarkerWithoutHash(c);
    SpacedPieces(line, p1, c, p2, p3, r, cm);
    SplitPadded(p1, c, p2, p3, r, p3, cm, detect);
    TrimPadded([], note, p2);
    assert [] + note + p2 == cm;
  }

  lemma SpacedPieces(line: string, p1: string, c: string, p2: string, p3: string, r: string, cm: string)
    requires line == "  d + 4   #=    12    # some note   "
    requires p1 == "  " && c == "d + 4" && p2 == "   " && p3 == "    " && r == "12" && cm == "# some note   "
    ensures line == p1 + c + p2 + Marker + p3 + r + p3 + cm
  {
    assert p1 + c + p2 == "  d + 4   ";
    assert Marker + p3 + r + p3 == "#=    12    ";
  }

  /** A marker followed directly by a comment gives no result. */
  lemma NoResultLine(detect: string -> Option<string>)
    requires detect("b + 2") == None
    ensures SplitLine("b + 2 #= # comment", Marker, CommentPrefix, detect)
         == Eval("b + 2", Marker, None, Some("# comment"))
  {
    var c, cm := "b + 2", "# comment";
    assert Trimmed(c) && '#' !in c && Trimmed(cm);
    NoMarkerWithoutHash(c);
    var line := [] + c + " " + Marker + " " + [] + [] + cm;
    assert line == "b + 2 #= # comment";
    SplitPadded([], c, " ", " ", [], [], cm, detect);
    TrimmedFixed(cm);
  }
}
