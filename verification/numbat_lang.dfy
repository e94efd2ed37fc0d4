/**
 * The Numbat language: the lines of a slice are evaluated one after another. Plain
 * lines and assignments build up a context of expressions; every `#=` line is
 * sent to the interpreter together with the context so far (an assignment
 * also asks for the assigned name), and the trimmed answer becomes the line's
 * result.
 *
 * The interpreter is a parameter `run` from the list of expressions to the
 * output of a successful run, `None` when the run fails.
 */
module NumbatLang {
  import opened Wrappers
  import opened Strings
  import opened CodeLines

  const Name: string := "numbat"
  const LetKeyword: string := "let "

  /**
   * The name a `let` statement binds: the trimmed left-hand side of the first
   * `=`, cut at a type annotation `:`.
   */
  function ExtractAssignedVar(code: string): (r: Option<string>)
    ensures r.Some? ==> StartsWith(Trim(code), LetKeyword)
    ensures r.Some? ==> r.value != [] && Trimmed(r.value) && ':' !in r.value && '=' !in r.value
    ensures r.Some? ==> Contains(code, "=")
  {
    var t := Trim(code);
    match StripPrefix(t, LetKeyword)
    case None => None
    case Some(rest) =>
      var s := TrimStart(rest);
      match Find(s, "=")
      case None => None
      case Some(p) =>
        var lhs := Trim(s[..p]);
        if lhs == [] then None
        else
          var head := Before(lhs, ':');
          var v := Trim(head);
          TrimIsTrimmed(head);
          if v == [] then None
          else
            assert '=' !in s[..p] by {
              forall j | 0 <= j < p ensures s[..p][j] != '=' {
                OccursAtChar(s, '=', j);
              }
            }
            TrimSlice(s[..p]);
            SliceLacks(s[..p], LeadingWhitespace(s[..p]), LeadingWhitespace(s[..p]) + |lhs|, '=');
            SliceLacks(lhs, 0, |head|, '=');
            TrimSlice(head);
            SliceLacks(head, LeadingWhitespace(head), LeadingWhitespace(head) + |v|, '=');
            SliceLacks(head, LeadingWhitespace(head), LeadingWhitespace(head) + |v|, ':');
            LetEquals(code, rest, p);
            Some(v)
  }

  /** Trimming a line that starts with `l` keeps it up to its last non-blank char, here at least up to `m`. */
  lemma LetTrim(code: string, m: nat)
    requires m < |code| && code[0] == 'l' && code[m] == '='
    ensures m < |Trim(code)| && Trim(code) == code[..|Trim(code)|]
  {
    TrimStartOfNonBlank(code);
    var k := TrailingStart(code);
    forall j | k <= j < |code| ensures IsWhitespace(code[j]) {
      assert code[k..][j - k] == code[j];
    }
  }

  /** After `let `, the text up to the first `=` is the left-hand side. */
  lemma LetLeftSide(rest: string, core: string)
    requires core != [] && Trimmed(core) && '=' !in core
    requires |rest| >= |core| + 2 && rest[..|core| + 2] == core + " ="
    ensures TrimStart(rest) == rest
    ensures Find(rest, "=") == Some(|core| + 1)
    ensures Trim(rest[..|core| + 1]) == core
  {
    assert rest[0] == core[0];
    TrimStartOfNonBlank(rest);
    forall j | 0 <= j < |core| + 1 ensures rest[j] != '=' {
      assert rest[..|core| + 2][j] == rest[j];
    }
    assert rest[..|core| + 2][|core| + 1] == '=';
    FindCharAt(rest, '=', |core| + 1);
    assert rest[..|core| + 1] == [] + core + " ";
    TrimPadded([], core, " ");
  }

  /** The text of a `let` statement after trimming and dropping the keyword. */
  lemma LetRest(core: string, rhs: string)
    requires core != []
    ensures var t := Trim(LetKeyword + core + " = " + rhs);
      && |t| >= 4 + |core| + 2
      && StripPrefix(t, LetKeyword) == Some(t[4..])
      && t[4..][..|core| + 2] == core + " ="
  {
    var code := LetKeyword + core + " = " + rhs;
    var m := 4 + |core| + 1;
    assert code[m] == '=';
    LetTrim(code, m);
    var t := Trim(code);
    assert t[..4] == code[..4] == LetKeyword;
    assert t[4..][..|core| + 2] == code[4..4 + |core| + 2];
    assert code[4..4 + |core| + 2] == core + " =";
  }

  /**
   * A `let` statement, with or without a type annotation after the name,
   * yields the name it binds.
   */
  lemma AssignedVarOf(name: string, ann: string, rhs: string)
    requires name != [] && Trimmed(name) && '=' !in name && ':' !in name
    requires ann == [] || (ann[0] == ':' && Trimmed(ann) && '=' !in ann)
    ensures ExtractAssignedVar(LetKeyword + name + ann + " = " + rhs) == Some(name)
  {
    var core := name + ann;
    var code := LetKeyword + core + " = " + rhs;
    LetCode(name, ann, rhs);
    AnnotatedName(name, ann);
    LetRest(core, rhs);
    var rest := Trim(code)[4..];
    LetLeftSide(rest, core);
    BeforeAt(name, ann, ':');
    TrimmedFixed(name);
    ExtractSteps(code, rest, |core| + 1, core, name);
  }

  lemma LetCode(name: string, ann: string, rhs: string)
    ensures LetKeyword + name + ann + " = " + rhs == LetKeyword + (name + ann) + " = " + rhs
  {
  }

  /**
   * Every `let` line, split at the first `=` after the keyword: the name is the
   * trimmed text before any `:` in the trimmed left side, or there is none when
   * either of those is blank. `let x=1` names `x`.
   */
  lemma AssignedVarSplit(code: string, rest: string, lhs: string, rhs: string)
    requires Trim(code) == LetKeyword + rest
    requires TrimStart(rest) == lhs + "=" + rhs && '=' !in lhs
    ensures var v := Trim(Before(Trim(lhs), ':'));
      ExtractAssignedVar(code) == if Trim(lhs) == [] || v == [] then None else Some(v)
  {
    var t := Trim(code);
    assert t[..|LetKeyword|] == LetKeyword;
    assert t[|LetKeyword|..] == rest;
    var s := TrimStart(rest);
    assert s[|lhs|] == '=' && s[..|lhs|] == lhs;
    FindCharAt(s, '=', |lhs|);
  }

  /** The compact spelling `let x=1` binds `x`. */
  lemma CompactLet(code: string)
    requires code == "let x=1"
    ensures ExtractAssignedVar(code) == Some("x")
  {
    assert code == LetKeyword + "x=1";
    TrimmedFixed(code);
    TrimmedFixed("x=1");
    assert "x=1" == "x" + "=" + "1";
    TrimmedFixed("x");
    BeforeAt("x", [], ':');
    AssignedVarSplit(code, "x=1", "x", "1");
  }

  /** An `=` after the keyword of the trimmed line is an `=` of the line. */
  lemma LetEquals(code: string, rest: string, p: nat)
    requires StripPrefix(Trim(code), LetKeyword) == Some(rest)
    requires OccursAt(TrimStart(rest), "=", p)
    ensures Contains(code, "=")
  {
    var s := TrimStart(rest);
    OccursAtChar(s, '=', p);
    assert s[p] in rest[LeadingWhitespace(rest)..];
    assert Trim(code) == LetKeyword + rest;
    TrimSlice(code);
    ContainsChar(code, '=');
  }

  /** `ExtractAssignedVar` step by step, once each intermediate value is known. */
  lemma ExtractSteps(code: string, rest: string, p: nat, lhs: string, name: string)
    requires StripPrefix(Trim(code), LetKeyword) == Some(rest)
    requires TrimStart(rest) == rest && Find(rest, "=") == Some(p)
    requires Trim(rest[..p]) == lhs && lhs != []
    requires Before(lhs, ':') == name && Trim(name) == name && name != []
    ensures ExtractAssignedVar(code) == Some(name)
  {
  }

  /** A name followed by an optional annotation is trimmed and has no `=`. */
  lemma AnnotatedName(name: string, ann: string)
    requires name != [] && Trimmed(name) && '=' !in name
    requires ann == [] || (ann[0] == ':' && Trimmed(ann) && '=' !in ann)
    ensures Trimmed(name + ann) && '=' !in name + ann
  {
    var core := name + ann;
    if ann != [] {
      assert core[|core| - 1] == ann[|ann| - 1];
    }
    forall j | 0 <= j < |core| ensures core[j] != '=' {
      if j >= |name| {
        assert core[j] == ann[j - |name|];
      }
    }
  }

  /** `run_numbat`: an empty expression list is never run. */
  function RunNumbat(run: seq<string> -> Option<string>, exprs: seq<string>): (r: Option<string>)
    ensures exprs == [] ==> r == None
    ensures exprs != [] ==> r == run(exprs)
  {
    if exprs == [] then None else run(exprs)
  }

  function ParseLine(line: string): CodeLine {
    SplitLine(line, Marker, CommentPrefix, ExtractAssignedVar)
  }

  function ParseLines(input: seq<string>): seq<CodeLine> {
    SplitLines(input, ExtractAssignedVar)
  }

  /** The expressions sent for an evaluated line: the context, the code, and for an assignment the name. */
  function Request(l: CodeLine, context: seq<string>): (r: seq<string>)
    requires !l.Code?
    ensures |r| == |context| + (if l.EvalAssignment? then 2 else 1)
    ensures r[..|context|] == context && r[|context|] == l.code
    ensures l.EvalAssignment? ==> r[|context| + 1] == l.name
  {
    if l.EvalAssignment? then context + [l.code, l.name] else context + [l.code]
  }

  /** What a line adds to the context: plain lines and assignments add their code, evaluations nothing. */
  function Contribution(l: CodeLine): seq<string> {
    if l.Eval? then [] else [l.code]
  }

  /**
   * The new text of one line (parsed as `l`), given the context built from
   * the lines before it: a plain line stays; an evaluated line is sent with
   * the context and, when the run succeeds, rebuilt around the trimmed
   * answer; when the run fails it stays.
   */
  function Slot(line: string, l: CodeLine, context: seq<string>, run: seq<string> -> Option<string>): (r: string)
    ensures l.Code? ==> r == line
    ensures !l.Code? && run(Request(l, context)).None? ==> r == line
    ensures !l.Code? && run(Request(l, context)).Some? ==> r == Reconstruct(l, Trim(run(Request(l, context)).value))
    ensures r != line ==> !l.Code? && run(Request(l, context)).Some?
  {
    if l.Code? then line
    else match RunNumbat(run, Request(l, context))
      case None => line
      case Some(answer) => Reconstruct(l, Trim(answer))
  }

  /** The evaluation loop, front to back, threading the context. */
  function Loop(lines: seq<string>, parsed: seq<CodeLine>, context: seq<string>, run: seq<string> -> Option<string>): (r: seq<string>)
    requires |parsed| == |lines|
    decreases |lines|
    ensures |r| == |lines|
  {
    if lines == [] then []
    else [Slot(lines[0], parsed[0], context, run)] + Loop(lines[1..], parsed[1..], context + Contribution(parsed[0]), run)
  }

  /** The context the lines contribute, in order: the code of every line that is not an evaluation. */
  function Contributions(parsed: seq<CodeLine>): (r: seq<string>)
    decreases |parsed|
    ensures |r| <= |parsed|
  {
    if parsed == [] then [] else Contributions(parsed[..|parsed| - 1]) + Contribution(parsed[|parsed| - 1])
  }

  /** The context holds the code of the plain lines and assignments, and nothing else. */
  lemma {:induction false} ContributionsMembers(parsed: seq<CodeLine>)
    decreases |parsed|
    ensures forall e :: e in Contributions(parsed) ==>
      exists k :: 0 <= k < |parsed| && !parsed[k].Eval? && e == parsed[k].code
    ensures forall k :: 0 <= k < |parsed| && !parsed[k].Eval? ==> parsed[k].code in Contributions(parsed)
  {
    if parsed != [] {
      var n := |parsed| - 1;
      ContributionsMembers(parsed[..n]);
      assert forall k :: 0 <= k < n ==> parsed[..n][k] == parsed[k];
    }
  }

  /** `Contributions` read from the front. */
  lemma {:induction false} ContributionsCons(parsed: seq<CodeLine>)
    requires parsed != []
    ensures Contributions(parsed) == Contribution(parsed[0]) + Contributions(parsed[1..])
    decreases |parsed|
  {
    var n := |parsed| - 1;
    if n > 0 {
      ContributionsCons(parsed[..n]);
      assert parsed[..n][1..] == parsed[1..][..n - 1];
      assert parsed[..n][0] == parsed[0];
      assert parsed[1..][n - 1] == parsed[n];
    } else {
      assert parsed[1..] == [];
    }
  }

  /**
   * Line `i` is evaluated with the context the lines before it contributed,
   * after whatever context the loop started with.
   */
  lemma {:induction false} LoopSlot(lines: seq<string>, parsed: seq<CodeLine>, context: seq<string>, run: seq<string> -> Option<string>, i: nat)
    requires |parsed| == |lines| && i < |lines|
    ensures Loop(lines, parsed, context, run)[i] == Slot(lines[i], parsed[i], context + Contributions(parsed[..i]), run)
    decreases |lines|
  {
    if i > 0 {
      var c := Contribution(parsed[0]);
      var tail := Loop(lines[1..], parsed[1..], context + c, run);
      assert Loop(lines, parsed, context, run)[i] == tail[i - 1];
      LoopSlot(lines[1..], parsed[1..], context + c, run, i - 1);
      ContextStep(parsed, context, i);
    } else {
      assert parsed[..0] == [];
      assert context + [] == context;
    }
  }

  /** The context after the first line, extended by the next lines, is the context extended by all of them. */
  lemma ContextStep(parsed: seq<CodeLine>, context: seq<string>, i: nat)
    requires 0 < i <= |parsed|
    ensures context + Contribution(parsed[0]) + Contributions(parsed[1..][..i - 1]) == context + Contributions(parsed[..i])
  {
    var a := parsed[..i];
    ContributionsCons(a);
    assert a[0] == parsed[0];
    assert a[1..] == parsed[1..][..i - 1];
    var x, y := Contribution(parsed[0]), Contributions(a[1..]);
    assert context + x + y == context + (x + y);
  }

  /** `evaluate_in_place`: the loop over the parsed lines, started with an empty context. */
  function EvaluateInPlace(lines: seq<string>, run: seq<string> -> Option<string>): (r: seq<string>)
    ensures |r| == |lines|
  {
    Loop(lines, ParseLines(lines), [], run)
  }

  /**
   * Line `i` of the evaluated slice is its line evaluated with the
   * contributions of the lines before it; plain lines never change.
   */
  lemma EvaluateInPlaceSlot(lines: seq<string>, run: seq<string> -> Option<string>, i: nat)
    requires i < |lines|
    ensures EvaluateInPlace(lines, run)[i] == Slot(lines[i], ParseLine(lines[i]), Contributions(ParseLines(lines)[..i]), run)
  {
    LoopSlot(lines, ParseLines(lines), [], run, i);
    assert [] + Contributions(ParseLines(lines)[..i]) == Contributions(ParseLines(lines)[..i]);
  }

}
