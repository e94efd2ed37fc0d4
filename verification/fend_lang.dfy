/**
 * The fend language: no line counts as an assignment, every non-empty line joins
 * one `; `-separated fend program in which each `#=` line prints its tag and
 * value, and the output's tagged lines are folded back into the slice.
 *
 * The interpreter is a parameter `run` from the program text to the output of
 * a successful run, `None` when the run fails.
 */
module FendLang {
  import opened Wrappers
  import opened Strings
  import opened Numbers
  import opened CodeLines
  import opened Results

  const Name: string := "fend"
  const Separator: string := "; "

  /** fend has no assignment detector: every name query answers `None`. */
  function NoAssignment(code: string): (r: Option<string>)
    ensures r == None
  {
    None
  }

  /** Lines are split without assignment detection, so no line is an assignment. */
  function ParseLine(line: string): (r: CodeLine)
    ensures !r.EvalAssignment?
    ensures r.Code? <==> !Contains(Trim(line), Marker)
  {
    SplitLine(line, Marker, CommentPrefix, NoAssignment)
  }

  function ParseLines(input: seq<string>): (r: seq<CodeLine>)
    ensures |r| == |input|
    ensures forall i :: 0 <= i < |input| ==> !r[i].EvalAssignment?
  {
    SplitLines(input, NoAssignment)
  }

  /** `print "##RESULT:<i> "; println (code)`. */
  function PrintResult(i: nat, code: string): string {
    "print \"" + ResultTag + Decimal(i) + " \"; println (" + code + ")"
  }

  /** The statement line `i` contributes: none for an empty line, its code, or a tagged print. */
  function Statement(i: nat, l: CodeLine): (r: Option<string>)
    ensures r.Some? <==> l.code != []
    ensures r.Some? ==> r.value != []
  {
    if l.code == [] then None
    else if l.Code? then Some(l.code)
    else Some(PrintResult(i, l.code))
  }

  /** The statements of the program, in line order. */
  function Statements(lines: seq<CodeLine>): (r: seq<string>)
    decreases |lines|
    ensures forall k :: 0 <= k < |r| ==> r[k] != []
    ensures |r| <= |lines|
  {
    if lines == [] then []
    else
      var n := |lines| - 1;
      var prefix := Statements(lines[..n]);
      match Statement(n, lines[n])
      case None => prefix
      case Some(st) => prefix + [st]
  }

  /** `build_fend_script`. */
  function BuildScript(lines: seq<CodeLine>): string {
    Join(Statements(lines), Separator)
  }

  /** Every line with non-empty code has its statement in the program. */
  lemma {:induction false} StatementFor(lines: seq<CodeLine>, i: nat)
    requires i < |lines| && lines[i].code != []
    ensures Statement(i, lines[i]).value in Statements(lines)
    decreases |lines|
  {
    var n := |lines| - 1;
    if i < n {
      StatementFor(lines[..n], i);
      assert lines[..n][i] == lines[i];
    }
  }

  /** The program has no statements exactly when every line's code is empty. */
  lemma {:induction false} NoStatements(lines: seq<CodeLine>)
    ensures Statements(lines) == [] <==> forall i :: 0 <= i < |lines| ==> lines[i].code == []
    decreases |lines|
  {
    if lines != [] {
      var n := |lines| - 1;
      NoStatements(lines[..n]);
      assert forall i :: 0 <= i < n ==> lines[..n][i] == lines[i];
    }
  }

  lemma JoinEmpty(parts: seq<string>, sep: string)
    requires forall k :: 0 <= k < |parts| ==> parts[k] != []
    ensures Join(parts, sep) == [] <==> parts == []
  {
    if |parts| > 1 {
      JoinCons(parts[0], parts[1..], sep);
      assert parts == [parts[0]] + parts[1..];
    }
  }

  /** The program is empty exactly when every line's code is empty. */
  lemma EmptyScript(lines: seq<CodeLine>)
    ensures BuildScript(lines) == [] <==> forall i :: 0 <= i < |lines| ==> lines[i].code == []
  {
    JoinEmpty(Statements(lines), Separator);
    NoStatements(lines);
  }

  /** `splitn(2, ' ')` on the tag's argument: the index text and the trimmed value. */
  function SplitIndex(s: string): (r: (string, string))
    ensures Trimmed(r.1)
    ensures |r.0| <= |s| && ' ' !in r.0 && r.0 == s[..|r.0|]
  {
    match Find(s, " ")
    case None =>
      FindNoneChar(s, ' ');
      (s, [])
    case Some(p) =>
      TrimIsTrimmed(s[p + 1..]);
      forall j | 0 <= j < p ensures s[..p][j] != ' ' {
        OccursAtChar(s, ' ', j);
      }
      (s[..p], Trim(s[p + 1..]))
  }

  /**
   * One line of fend's output: after the `##RESULT:` tag and any leading
   * whitespace, the text up to the first space is the index and the trimmed
   * rest is the value.
   */
  function ResultLine(line: string): (r: Option<(nat, string)>)
    ensures r.Some? ==> StartsWith(line, ResultTag) && r.value.0 <= UsizeMax && Trimmed(r.value.1)
  {
    match StripPrefix(line, ResultTag)
    case None => None
    case Some(rest) =>
      var (index, value) := SplitIndex(TrimStart(rest));
      match ParseUsize(index)
      case None => None
      case Some(idx) => Some((idx, value))
  }

  /** An index followed by a space splits there. */
  lemma SplitIndexAt(d: string, v: string)
    requires d != [] && AllDigits(d)
    ensures TrimStart(d + " " + v) == d + " " + v
    ensures SplitIndex(d + " " + v) == (d, Trim(v))
  {
    var s := d + " " + v;
    assert s[0] == d[0];
    TrimStartOfNonBlank(s);
    forall j | 0 <= j < |d| ensures s[j] != ' ' {
      assert s[j] == d[j];
    }
    FindCharAt(s, ' ', |d|);
    assert s[..|d|] == d && s[|d| + 1..] == v;
  }

  /** What the tagged print writes reads back as the index it printed and the trimmed value. */
  lemma ResultLineRoundTrip(i: nat, v: string)
    requires i <= UsizeMax
    ensures ResultLine(ResultTag + (Decimal(i) + " " + v)) == Some((i, Trim(v)))
  {
    var d := Decimal(i);
    StripTag(d + " " + v);
    SplitIndexAt(d, v);
    ParseDecimal(i);
  }

  /** `run_fend`: a blank program is never run. */
  function RunFend(run: string -> Option<string>, script: string): (r: Option<string>)
    ensures Trim(script) == [] ==> r == None
    ensures Trim(script) != [] ==> r == run(script)
  {
    if Trim(script) == [] then None else run(script)
  }

  /** The tags the interpreter reports for a slice; none when the program is empty or fails. */
  function Tags(input: seq<string>, run: string -> Option<string>): seq<Option<(nat, string)>> {
    var script := BuildScript(ParseLines(input));
    if script == [] then []
    else match RunFend(run, script)
      case None => []
      case Some(output) => TagsOf(output, ResultLine)
  }

  /** Runs the slice's program, if there is one, and writes every reported value back. */
  function EvaluateInPlace(input: seq<string>, run: string -> Option<string>): (r: seq<string>)
    ensures |r| == |input|
  {
    var lines := ParseLines(input);
    var script := BuildScript(lines);
    if script == [] then input
    else match RunFend(run, script)
      case None => input
      case Some(output) => ApplyResults(input, lines, TagsOf(output, ResultLine))
  }

  /**
   * Slot `i` after evaluation: its line rebuilt around the last value the
   * interpreter reported for index `i`, or left alone when none was reported.
   */
  lemma EvaluateInPlaceSlot(input: seq<string>, run: string -> Option<string>, i: nat)
    requires i < |input|
    ensures EvaluateInPlace(input, run)[i]
         == match LastResult(Tags(input, run), i)
            case Some(value) => Reconstruct(ParseLines(input)[i], value)
            case None => input[i]
  {
    var lines := ParseLines(input);
    var script := BuildScript(lines);
    if script != [] && RunFend(run, script).Some? {
      ApplyResultsSlot(input, lines, Tags(input, run), i);
    }
  }

  /** A slice whose lines are all blank is returned as it is, without running anything. */
  lemma BlankSliceUnchanged(input: seq<string>, run: string -> Option<string>)
    requires forall i :: 0 <= i < |input| ==> Trim(input[i]) == []
    ensures EvaluateInPlace(input, run) == input
  {
    var lines := ParseLines(input);
    forall i | 0 <= i < |lines| ensures lines[i].code == [] {
      assert lines[i] == ParseLine(input[i]);
    }
    EmptyScript(lines);
  }

}
