/**
 * The Python language: `#=` lines are parsed with an assignment detector that
 * reads the left-hand side of `=`, the whole slice is turned into one Python
 * script that prints `##RESULT:<idx> <value>` for every evaluated line, and
 * the script's standard output is folded back into the slice.
 *
 * The interpreter is a parameter `run` from the script to its standard output.
 */
module PythonLang {
  import opened Wrappers
  import opened Strings
  import opened Numbers
  import opened CodeLines
  import opened Results

  const Name: string := "python"

  /** A line holding a `=` that is not part of `==` or `!=`. */
  predicate IsAssignment(code: string) {
    Contains(code, "=") && !Contains(code, "==") && !Contains(code, "!=")
  }

  /** The assigned name: the trimmed text before the first `=`, when it is not blank. */
  function ExtractAssignedVar(code: string): (r: Option<string>)
    ensures r.Some? ==> IsAssignment(code)
    ensures r.Some? ==> r.value != [] && Trimmed(r.value) && '=' !in r.value
  {
    if !IsAssignment(code) then None
    else
      var lhs := Before(code, '=');
      var name := Trim(lhs);
      TrimIsTrimmed(lhs);
      TrimSlice(lhs);
      assert forall k :: 0 <= k < |name| ==> name[k] == lhs[LeadingWhitespace(lhs) + k];
      if name == [] then None else Some(name)
  }

  /**
   * Every assignment, split at its first `=`: the name is the trimmed text in
   * front of it, or there is none when that text is blank. `x=1` names `x`,
   * and `x += 1` names `x +`.
   */
  lemma AssignedVarSplit(lhs: string, rhs: string)
    requires '=' !in lhs && IsAssignment(lhs + "=" + rhs)
    ensures ExtractAssignedVar(lhs + "=" + rhs) == if Trim(lhs) == [] then None else Some(Trim(lhs))
  {
    assert lhs + "=" + rhs == lhs + ("=" + rhs);
    BeforeAt(lhs, "=" + rhs, '=');
  }

  /**
   * A line with a single `=` that no `!` precedes is an assignment: it
   * contains neither `==` nor `!=`.
   */
  lemma SingleEquals(lhs: string, rhs: string)
    requires '=' !in lhs && '=' !in rhs && (lhs == [] || lhs[|lhs| - 1] != '!')
    ensures IsAssignment(lhs + "=" + rhs)
  {
    var code := lhs + "=" + rhs;
    OccursAtChar(code, '=', |lhs|);
    forall i: nat ensures !OccursAt(code, "==", i) && !OccursAt(code, "!=", i) {
      if i + 2 <= |code| {
        assert code[i..i + 2][0] == code[i] && code[i..i + 2][1] == code[i + 1];
        if i < |lhs| {
          assert code[i] == lhs[i];
        } else if i > |lhs| {
          assert code[i] == rhs[i - |lhs| - 1];
        }
        if i + 1 < |lhs| {
          assert code[i + 1] == lhs[i + 1];
        } else if i + 1 > |lhs| {
          assert code[i + 1] == rhs[i - |lhs|];
        }
      }
    }
  }

  /** The compact spelling `x=1` is an assignment to `x`. */
  lemma CompactAssignment(code: string)
    requires code == "x=1"
    ensures ExtractAssignedVar(code) == Some("x")
  {
    assert code == "x" + "=" + "1";
    SingleEquals("x", "1");
    AssignedVarSplit("x", "1");
    TrimmedFixed("x");
  }

  /** An augmented assignment keeps its operator: `x += 1` names `x +`. */
  lemma AugmentedAssignment(code: string)
    requires code == "x += 1"
    ensures ExtractAssignedVar(code) == Some("x +")
  {
    AugmentedPieces(code, "x +", " 1");
    SingleEquals("x +", " 1");
    AssignedVarSplit("x +", " 1");
    TrimmedFixed("x +");
  }

  /** The pieces of `x += 1` around its `=`. */
  lemma AugmentedPieces(code: string, lhs: string, rhs: string)
    requires code == "x += 1" && lhs == "x +" && rhs == " 1"
    ensures code == lhs + "=" + rhs
    ensures '=' !in lhs && '=' !in rhs && lhs[|lhs| - 1] != '!' && Trimmed(lhs)
  {
  }

  /** In `name = rhs`, the only `=` is the one after the name. */
  lemma AssignmentEquals(name: string, rhs: string)
    requires '=' !in name && '=' !in rhs
    ensures forall j :: 0 <= j < |name + " = " + rhs| ==> ((name + " = " + rhs)[j] == '=' <==> j == |name| + 1)
  {
    var code := name + " = " + rhs;
    var n := |name|;
    forall j | 0 <= j < |code| ensures code[j] == '=' <==> j == n + 1 {
      if j < n {
        assert code[j] == name[j];
      } else if j > n + 2 {
        assert code[j] == rhs[j - n - 3];
      }
    }
  }

  /** A plain assignment `name = rhs` is recognised, and its name extracted. */
  lemma AssignedVarOf(name: string, rhs: string)
    requires name != [] && Trimmed(name) && '=' !in name && '=' !in rhs
    ensures IsAssignment(name + " = " + rhs)
    ensures ExtractAssignedVar(name + " = " + rhs) == Some(name)
  {
    var code := name + " = " + rhs;
    var n := |name|;
    OccursAtChar(code, '=', n + 1);
    AssignmentEquals(name, rhs);
    forall i: nat ensures !OccursAt(code, "==", i) && !OccursAt(code, "!=", i) {
      if i + 2 <= |code| && code[i + 1] == '=' {
        assert code[i] == ' ';
        assert code[i..i + 2][0] == ' ';
      }
      if i + 2 <= |code| && code[i + 1] != '=' {
        assert code[i..i + 2][1] != '=';
      }
    }
    var lhs := Before(code, '=');
    assert lhs == name + " ";
    TrimPadded([], name, " ");
    assert [] + name + " " == lhs;
  }

  /** `print('##RESULT:<i>', expr)`. */
  function PrintResult(i: nat, expr: string): string {
    "print('" + ResultTag + Decimal(i) + "', " + expr + ")"
  }

  /** The expression whose value a line reports: the code, or the assigned name. */
  function Reported(l: CodeLine): string
    requires !l.Code?
  {
    if l.EvalAssignment? then l.name else l.code
  }

  /** The script text for line `i`. */
  function Chunk(i: nat, l: CodeLine): string {
    match l
    case Code(code) => code
    case Eval(code, _, _, _) => PrintResult(i, code)
    case EvalAssignment(name, code, _, _, _) => code + "\n" + PrintResult(i, name)
  }

  /** The script: one chunk per line, joined by newlines. */
  function BuildScript(lines: seq<CodeLine>): string {
    Join(seq(|lines|, i requires 0 <= i < |lines| => Chunk(i, lines[i])), "\n")
  }

  /**
   * The statements line `i` contributes: a plain line runs as it is, an
   * evaluated line prints its tag and value, an assignment runs and then
   * prints the name it assigned.
   */
  function LineStatements(i: nat, l: CodeLine): (r: seq<string>)
    ensures r != []
  {
    match l
    case Code(code) => [code]
    case Eval(code, _, _, _) => [PrintResult(i, code)]
    case EvalAssignment(name, code, _, _, _) => [code, PrintResult(i, name)]
  }

  /** All statements of the script, in line order. */
  function Statements(lines: seq<CodeLine>): (r: seq<string>)
    decreases |lines|
    ensures lines == [] <==> r == []
  {
    if lines == [] then []
    else Statements(lines[..|lines| - 1]) + LineStatements(|lines| - 1, lines[|lines| - 1])
  }

  /** The script is the statement list, one statement per line. */
  lemma {:induction false} ScriptStatements(lines: seq<CodeLine>)
    ensures BuildScript(lines) == Join(Statements(lines), "\n")
    decreases |lines|
  {
    if lines != [] {
      var n := |lines| - 1;
      var chunks := seq(|lines|, i requires 0 <= i < |lines| => Chunk(i, lines[i]));
      var prefix := lines[..n];
      ScriptStatements(prefix);
      assert chunks[..n] == seq(|prefix|, i requires 0 <= i < |prefix| => Chunk(i, prefix[i]));
      assert chunks == chunks[..n] + [Chunk(n, lines[n])];
      var last := LineStatements(n, lines[n]);
      assert Join(last, "\n") == Chunk(n, lines[n]) by {
        if lines[n].EvalAssignment? {
          JoinCons(lines[n].code, [PrintResult(n, lines[n].name)], "\n");
        }
      }
      if n > 0 {
        JoinAppend(chunks[..n], [Chunk(n, lines[n])], "\n");
        JoinAppend(Statements(prefix), last, "\n");
      }
    }
  }

  /** Every evaluated line gets a print of its own index and reported expression. */
  lemma {:induction false} PrintFor(lines: seq<CodeLine>, i: nat)
    requires i < |lines| && !lines[i].Code?
    ensures PrintResult(i, Reported(lines[i])) in Statements(lines)
    decreases |lines|
  {
    var n := |lines| - 1;
    if i < n {
      PrintFor(lines[..n], i);
    } else {
      var last := LineStatements(n, lines[n]);
      assert PrintResult(i, Reported(lines[i])) == last[|last| - 1];
    }
  }

  /**
   * One line of the interpreter's output: after the `##RESULT:` tag, the
   * first whitespace-separated word is the index and the other words, joined
   * by single spaces, are the value.
   */
  function ResultLine(line: string): (r: Option<(nat, string)>)
    ensures r.Some? ==> StartsWith(line, ResultTag) && r.value.0 <= UsizeMax
  {
    match StripPrefix(line, ResultTag)
    case None => None
    case Some(rest) =>
      var parts := SplitWhitespace(rest);
      if parts == [] then None
      else match ParseUsize(parts[0])
        case None => None
        case Some(idx) => Some((idx, Join(parts[1..], " ")))
  }

  /**
   * What the tagged print writes reads back as the index it printed and the
   * words of the value.
   */
  lemma ResultLineRoundTrip(i: nat, v: string)
    requires i <= UsizeMax
    ensures ResultLine(ResultTag + Decimal(i) + " " + v) == Some((i, Join(SplitWhitespace(v), " ")))
  {
    var d := Decimal(i);
    assert ResultTag + d + " " + v == ResultTag + (d + " " + v);
    StripTag(d + " " + v);
    IndexWords(d, v);
    ParseDecimal(i);
  }

  /** A digit string followed by a space is the first word, and the value's words follow. */
  lemma IndexWords(d: string, v: string)
    requires d != [] && AllDigits(d)
    ensures SplitWhitespace(d + " " + v) == [d] + SplitWhitespace(v)
  {
    forall j | 0 <= j < |d| ensures !IsWhitespace(d[j]) {
      assert IsDigit(d[j]);
    }
    assert d + " " + v == d + (" " + v);
    SplitWhitespaceWord(d, " " + v);
    SplitWhitespaceSkip(" ", v);
  }

  function ParseLine(line: string): CodeLine {
    SplitLine(line, Marker, CommentPrefix, ExtractAssignedVar)
  }

  function ParseLines(input: seq<string>): seq<CodeLine> {
    SplitLines(input, ExtractAssignedVar)
  }

  /** The tags the interpreter reports for a slice. */
  function Tags(input: seq<string>, run: string -> string): seq<Option<(nat, string)>> {
    TagsOf(run(BuildScript(ParseLines(input))), ResultLine)
  }

  /** Runs the slice's script and writes every reported value back. */
  function EvaluateInPlace(input: seq<string>, run: string -> string): (r: seq<string>)
    ensures |r| == |input|
  {
    var lines := ParseLines(input);
    ApplyResults(input, lines, TagsOf(run(BuildScript(lines)), ResultLine))
  }

  /**
   * Slot `i` after evaluation: its line rebuilt around the last value the
   * interpreter reported for index `i`, or left alone when none was reported.
   */
  lemma EvaluateInPlaceSlot(input: seq<string>, run: string -> string, i: nat)
    requires i < |input|
    ensures EvaluateInPlace(input, run)[i]
         == match LastResult(Tags(input, run), i)
            case Some(value) => Reconstruct(ParseLine(input[i]), value)
            case None => input[i]
  {
    ApplyResultsSlot(input, ParseLines(input), Tags(input, run), i);
  }

}
