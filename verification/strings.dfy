/**
 * The pieces of Rust's `str` API the rewriting core relies on, over `seq<char>`:
 * whitespace trimming, substring search, prefix tests, `split_inclusive('\n')`,
 * `lines()`, `split_whitespace()` and `join`. Positions are char indices.
 */
module Strings {
  import opened Wrappers

  /** Unicode White_Space, the set `char::is_whitespace` accepts. */
  predicate IsWhitespace(c: char) {
    || ('\t' <= c <= '\r')
    || c == ' '
    || c == '\U{85}'
    || c == '\U{A0}'
    || c == '\U{1680}'
    || ('\U{2000}' <= c <= '\U{200A}')
    || c == '\U{2028}'
    || c == '\U{2029}'
    || c == '\U{202F}'
    || c == '\U{205F}'
    || c == '\U{3000}'
  }

  predicate AllWhitespace(s: string) {
    forall i :: 0 <= i < |s| ==> IsWhitespace(s[i])
  }

  predicate NoWhitespace(s: string) {
    forall i :: 0 <= i < |s| ==> !IsWhitespace(s[i])
  }

  /** A string with neither leading nor trailing whitespace. */
  predicate Trimmed(s: string) {
    s == [] || (!IsWhitespace(s[0]) && !IsWhitespace(s[|s| - 1]))
  }

  /** Length of the leading whitespace run. */
  function LeadingWhitespace(s: string): (k: nat)
    ensures k <= |s|
    ensures AllWhitespace(s[..k])
    ensures k < |s| ==> !IsWhitespace(s[k])
  {
    if |s| > 0 && IsWhitespace(s[0]) then
      var k := 1 + LeadingWhitespace(s[1..]);
      assert forall i :: 1 <= i < k ==> s[..k][i] == s[1..][..k - 1][i - 1];
      k
    else 0
  }

  /** Index at which the trailing whitespace run starts. */
  function TrailingStart(s: string): (k: nat)
    ensures k <= |s|
    ensures AllWhitespace(s[k..])
    ensures k > 0 ==> !IsWhitespace(s[k - 1])
  {
    if |s| > 0 && IsWhitespace(s[|s| - 1]) then
      var k := TrailingStart(s[..|s| - 1]);
      assert s[k..] == s[..|s| - 1][k..] + [s[|s| - 1]];
      k
    else |s|
  }

  /** `str::trim_start`. */
  function TrimStart(s: string): string {
    s[LeadingWhitespace(s)..]
  }

  /** `str::trim_end`. */
  function TrimEnd(s: string): string {
    s[..TrailingStart(s)]
  }

  /** `str::trim`. */
  function Trim(s: string): string {
    TrimEnd(TrimStart(s))
  }

  lemma LeadingWhitespaceUnique(s: string, k: nat)
    requires k <= |s| && AllWhitespace(s[..k])
    requires k < |s| ==> !IsWhitespace(s[k])
    ensures LeadingWhitespace(s) == k
  {
    if k > 0 {
      assert s[..k][0] == s[0];
      assert s[1..][..k - 1] == s[..k][1..];
      LeadingWhitespaceUnique(s[1..], k - 1);
    }
  }

  lemma TrailingStartUnique(s: string, k: nat)
    requires k <= |s| && AllWhitespace(s[k..])
    requires k > 0 ==> !IsWhitespace(s[k - 1])
    ensures TrailingStart(s) == k
  {
    if k < |s| {
      assert s[k..][|s| - 1 - k] == s[|s| - 1];
      assert s[..|s| - 1][k..] == s[k..][..|s| - 1 - k];
      TrailingStartUnique(s[..|s| - 1], k);
    }
  }

  /** Trimming always yields a trimmed string. */
  lemma TrimIsTrimmed(s: string)
    ensures Trimmed(Trim(s))
  {
    var t := TrimStart(s);
    var k := TrailingStart(t);
    if k > 0 {
      assert Trim(s)[0] == t[0];
    }
  }

  /** A trimmed string is its own trim. */
  lemma TrimmedFixed(s: string)
    requires Trimmed(s)
    ensures TrimStart(s) == s && TrimEnd(s) == s && Trim(s) == s
  {
    LeadingWhitespaceUnique(s, 0);
    TrailingStartUnique(s, |s|);
  }

  /** Trimming strips exactly the whitespace padding around a trimmed core. */
  lemma TrimPadded(a: string, x: string, b: string)
    requires AllWhitespace(a) && AllWhitespace(b) && Trimmed(x)
    ensures Trim(a + x + b) == x
  {
    var s := a + x + b;
    if x == [] {
      assert s == a + b;
      LeadingWhitespaceUnique(s, |s|);
      assert TrimStart(s) == [];
    } else {
      assert s[..|a|] == a;
      assert s[|a|] == x[0];
      LeadingWhitespaceUnique(s, |a|);
      var t := TrimStart(s);
      assert t == x + b;
      assert t[|x|..] == b;
      assert t[|x| - 1] == x[|x| - 1];
      TrailingStartUnique(t, |x|);
      assert t[..|x|] == x;
    }
  }

  /** Left-trimming is unaffected by text after a non-blank start. */
  lemma TrimStartOfNonBlank(s: string)
    requires s != [] && !IsWhitespace(s[0])
    ensures TrimStart(s) == s
  {
    LeadingWhitespaceUnique(s, 0);
  }

  predicate StartsWith(s: string, p: string) {
    |p| <= |s| && s[..|p|] == p
  }

  predicate EndsWithChar(s: string, c: char) {
    |s| > 0 && s[|s| - 1] == c
  }

  /** `str::strip_prefix`. */
  function StripPrefix(s: string, p: string): (r: Option<string>)
    ensures r.Some? <==> StartsWith(s, p)
    ensures r.Some? ==> p + r.value == s
  {
    if StartsWith(s, p) then Some(s[|p|..]) else None
  }

  /** `p` occurs in `s` starting at char index `i`. */
  predicate OccursAt(s: string, p: string, i: nat) {
    i + |p| <= |s| && s[i..i + |p|] == p
  }

  function FindFrom(s: string, p: string, from: nat): (r: Option<nat>)
    requires from <= |s|
    decreases |s| - from
    ensures r.Some? ==> from <= r.value && OccursAt(s, p, r.value)
    ensures r.Some? ==> forall i :: from <= i < r.value ==> !OccursAt(s, p, i)
    ensures r.None? ==> forall i :: from <= i ==> !OccursAt(s, p, i)
  {
    if from + |p| > |s| then None
    else if OccursAt(s, p, from) then Some(from)
    else
      assert |p| == 0 ==> OccursAt(s, p, from);
      FindFrom(s, p, from + 1)
  }

  /** `str::find`: the first occurrence of `p` in `s`. */
  function Find(s: string, p: string): (r: Option<nat>)
    ensures r.Some? ==> OccursAt(s, p, r.value)
    ensures r.Some? ==> forall i :: 0 <= i < r.value ==> !OccursAt(s, p, i)
    ensures r.None? ==> forall i :: !OccursAt(s, p, i)
  {
    FindFrom(s, p, 0)
  }

  /** `str::contains`. */
  predicate Contains(s: string, p: string) {
    Find(s, p).Some?
  }

  /** The first occurrence is the only one with no occurrence before it. */
  lemma FindIs(s: string, p: string, n: nat)
    requires OccursAt(s, p, n)
    requires forall i :: 0 <= i < n ==> !OccursAt(s, p, i)
    ensures Find(s, p) == Some(n)
  {
  }

  lemma OccursAtChar(s: string, c: char, i: nat)
    ensures OccursAt(s, [c], i) <==> i < |s| && s[i] == c
  {
    if i < |s| && s[i] == c {
      assert s[i..i + 1] == [c];
    }
  }

  lemma NotContainsChar(s: string, c: char)
    requires c !in s
    ensures !Contains(s, [c])
  {
    if Contains(s, [c]) {
      var i := Find(s, [c]).value;
      OccursAtChar(s, c, i);
    }
  }

  /** A string that holds `c` contains `[c]`. */
  lemma ContainsChar(s: string, c: char)
    requires c in s
    ensures Contains(s, [c])
  {
    var j :| 0 <= j < |s| && s[j] == c;
    OccursAtChar(s, c, j);
  }

  /** A string in which `find` sees no `c` holds no `c`. */
  lemma FindNoneChar(s: string, c: char)
    requires Find(s, [c]) == None
    ensures c !in s
  {
    forall j | 0 <= j < |s| ensures s[j] != c {
      OccursAtChar(s, c, j);
    }
  }

  /** A slice of a string has no char the string lacks. */
  lemma SliceLacks(s: string, a: nat, b: nat, c: char)
    requires a <= b <= |s| && c !in s
    ensures c !in s[a..b]
  {
    forall k | 0 <= k < b - a ensures s[a..b][k] != c {
      assert s[a..b][k] == s[a + k];
    }
  }

  /** The first occurrence of a one-char pattern is the first index holding that char. */
  lemma FindCharAt(s: string, c: char, i: nat)
    requires i < |s| && s[i] == c
    requires forall j :: 0 <= j < i ==> s[j] != c
    ensures Find(s, [c]) == Some(i)
  {
    OccursAtChar(s, c, i);
    forall j | 0 <= j < i ensures !OccursAt(s, [c], j) {
      OccursAtChar(s, c, j);
    }
    FindIs(s, [c], i);
  }

  /** A slice that ends before the first occurrence of a non-empty pattern does not contain it. */
  lemma SliceBeforeFirst(s: string, p: string, a: nat, b: nat)
    requires p != [] && a <= b <= |s|
    requires forall i :: 0 <= i < b ==> !OccursAt(s, p, i)
    ensures !Contains(s[a..b], p)
  {
    var t := s[a..b];
    forall i: nat ensures !OccursAt(t, p, i) {
      if i + |p| <= |t| {
        var u, v := t[i..i + |p|], s[a + i..a + i + |p|];
        forall k | 0 <= k < |p| ensures u[k] == v[k] {
          assert t[i + k] == s[a + i + k];
        }
        assert u == v;
        assert !OccursAt(s, p, a + i);
      }
    }
  }

  /** `Trim` returns a slice of its argument. */
  lemma TrimSlice(s: string)
    ensures LeadingWhitespace(s) + |Trim(s)| <= |s|
    ensures Trim(s) == s[LeadingWhitespace(s)..LeadingWhitespace(s) + |Trim(s)|]
  {
  }

  /** Trimming never introduces a char. */
  lemma TrimLacks(s: string, c: char)
    requires c !in s
    ensures c !in Trim(s)
  {
    TrimSlice(s);
    SliceLacks(s, LeadingWhitespace(s), LeadingWhitespace(s) + |Trim(s)|, c);
  }

  /** Trimming a string that starts with a non-blank keeps its first char. */
  lemma TrimKeepsFirst(s: string)
    requires s != [] && !IsWhitespace(s[0])
    ensures Trim(s) != [] && Trim(s)[0] == s[0]
  {
    TrimStartOfNonBlank(s);
  }

  /** The text before the first `c`, or all of `s` when `c` does not occur: the first item of `str::split(c)`. */
  function Before(s: string, c: char): (r: string)
    ensures c !in r
    ensures r == s || (|r| < |s| && s[|r|] == c)
    ensures r == s[..|r|]
  {
    if s == [] then []
    else if s[0] == c then []
    else [s[0]] + Before(s[1..], c)
  }

  /** `Before(s, c)` is the part before a `c` that follows a `c`-free prefix. */
  lemma {:induction false} BeforeAt(x: string, y: string, c: char)
    requires c !in x && (y == [] || y[0] == c)
    ensures Before(x + y, c) == x
    decreases |x|
  {
    if x == [] {
      assert x + y == y;
    } else {
      assert (x + y)[1..] == x[1..] + y;
      BeforeAt(x[1..], y, c);
      assert x == [x[0]] + x[1..];
    }
  }

  /** `str::split_inclusive('\n')`: pieces that end at each newline, the last one possibly without it. */
  function SplitInclusive(s: string): (r: seq<string>)
    decreases |s|
  {
    if s == [] then []
    else match Find(s, "\n")
      case None => [s]
      case Some(i) => [s[..i + 1]] + SplitInclusive(s[i + 1..])
  }

  /** Removes one final `'\n'`, as the Markdown parser does after `split_inclusive`. */
  function DropNewline(p: string): string {
    if EndsWithChar(p, '\n') then p[..|p| - 1] else p
  }

  /** Removes a final `"\n"` or `"\r\n"`, as `str::lines` does. */
  function DropLineEnding(p: string): string {
    if EndsWithChar(p, '\n') then
      var q := p[..|p| - 1];
      if EndsWithChar(q, '\r') then q[..|q| - 1] else q
    else p
  }

  /** The lines of `s` split at `'\n'` with a final empty line dropped; `'\r'` is kept. */
  function NewlineLines(s: string): seq<string> {
    var pieces := SplitInclusive(s);
    seq(|pieces|, k requires 0 <= k < |pieces| => DropNewline(pieces[k]))
  }

  /** `str::lines`. */
  function Lines(s: string): seq<string> {
    var pieces := SplitInclusive(s);
    seq(|pieces|, k requires 0 <= k < |pieces| => DropLineEnding(pieces[k]))
  }

  /** `[String]::join(sep)`. */
  function Join(parts: seq<string>, sep: string): string
    decreases |parts|
  {
    if |parts| == 0 then []
    else if |parts| == 1 then parts[0]
    else parts[0] + sep + Join(parts[1..], sep)
  }

  /** Length of the leading run of non-whitespace chars. */
  function TokenEnd(s: string): (k: nat)
    ensures k <= |s|
    ensures NoWhitespace(s[..k])
    ensures k < |s| ==> IsWhitespace(s[k])
  {
    if |s| > 0 && !IsWhitespace(s[0]) then
      var k := 1 + TokenEnd(s[1..]);
      assert forall i :: 1 <= i < k ==> s[..k][i] == s[1..][..k - 1][i - 1];
      k
    else 0
  }

  /** `str::split_whitespace`: the maximal non-blank runs, left to right. */
  function SplitWhitespace(s: string): (r: seq<string>)
    decreases |s|
  {
    var k := LeadingWhitespace(s);
    if k == |s| then []
    else
      var t := s[k..];
      var e := TokenEnd(t);
      [t[..e]] + SplitWhitespace(t[e..])
  }

  lemma TokenEndUnique(s: string, k: nat)
    requires k <= |s| && NoWhitespace(s[..k])
    requires k < |s| ==> IsWhitespace(s[k])
    ensures TokenEnd(s) == k
  {
    if k > 0 {
      assert s[..k][0] == s[0];
      assert s[1..][..k - 1] == s[..k][1..];
      TokenEndUnique(s[1..], k - 1);
    }
  }

  /** Leading whitespace does not change the words `split_whitespace` finds. */
  lemma SplitWhitespaceSkip(a: string, v: string)
    requires AllWhitespace(a)
    ensures SplitWhitespace(a + v) == SplitWhitespace(v)
  {
    var s := a + v;
    var k := LeadingWhitespace(v);
    var m := |a| + k;
    forall i | 0 <= i < m ensures IsWhitespace(s[..m][i]) {
      if i < |a| {
        assert s[..m][i] == a[i];
      } else {
        assert s[..m][i] == v[..k][i - |a|];
      }
    }
    if m < |s| {
      assert s[m] == v[k];
    }
    LeadingWhitespaceUnique(s, m);
    assert s[m..] == v[k..];
  }

  /** A word followed by whitespace or the end is the first word `split_whitespace` finds. */
  lemma SplitWhitespaceWord(w: string, b: string)
    requires w != [] && NoWhitespace(w)
    requires b != [] ==> IsWhitespace(b[0])
    ensures SplitWhitespace(w + b) == [w] + SplitWhitespace(b)
  {
    var s := w + b;
    assert s[..0] == [];
    LeadingWhitespaceUnique(s, 0);
    assert s[0..] == s && s[..|w|] == w;
    TokenEndUnique(s, |w|);
    assert s[|w|..] == b;
  }

  /** UTF-8 encoded length of one char. */
  function Utf8Width(c: char): nat {
    if (c as int) < 0x80 then 1
    else if (c as int) < 0x800 then 2
    else if (c as int) < 0x1_0000 then 3
    else 4
  }

  /** `String::len`: the UTF-8 encoded length in bytes. */
  function Utf8Length(s: string): nat
    decreases |s|
  {
    if s == [] then 0 else Utf8Length(s[..|s| - 1]) + Utf8Width(s[|s| - 1])
  }

  lemma {:induction false} Utf8LengthAtLeastChars(s: string)
    ensures Utf8Length(s) >= |s|
    decreases |s|
  {
    if s != [] {
      Utf8LengthAtLeastChars(s[..|s| - 1]);
    }
  }

  lemma JoinCons(x: string, ys: seq<string>, sep: string)
    requires ys != []
    ensures Join([x] + ys, sep) == x + sep + Join(ys, sep)
  {
    assert ([x] + ys)[1..] == ys;
  }

  /** Joining two non-empty lists puts one separator between their joins. */
  lemma {:induction false} JoinAppend(a: seq<string>, b: seq<string>, sep: string)
    requires a != [] && b != []
    ensures Join(a + b, sep) == Join(a, sep) + sep + Join(b, sep)
    decreases |a|
  {
    if |a| == 1 {
      JoinCons(a[0], b, sep);
      assert a + b == [a[0]] + b;
    } else {
      JoinAppend(a[1..], b, sep);
      assert (a + b)[1..] == a[1..] + b;
      JoinCons(a[0], a[1..] + b, sep);
      assert a + b == [a[0]] + (a[1..] + b);
      JoinCons(a[0], a[1..], sep);
      assert a == [a[0]] + a[1..];
    }
  }

  /** How `split_inclusive('\n')` starts: the piece up to the first newline, then the rest. */
  lemma SplitInclusiveFirst(s: string, i: nat)
    requires Find(s, "\n") == Some(i)
    ensures i < |s| && s[i] == '\n'
    ensures SplitInclusive(s) == [s[..i + 1]] + SplitInclusive(s[i + 1..])
  {
    OccursAtChar(s, '\n', i);
  }

  lemma SplitInclusiveNoNewline(s: string)
    requires s != [] && Find(s, "\n") == None
    ensures '\n' !in s
    ensures SplitInclusive(s) == [s]
  {
    if '\n' in s {
      var i :| 0 <= i < |s| && s[i] == '\n';
      OccursAtChar(s, '\n', i);
    }
  }

  lemma NewlineLinesFirst(s: string, i: nat)
    requires Find(s, "\n") == Some(i)
    ensures NewlineLines(s) == [s[..i]] + NewlineLines(s[i + 1..])
  {
    SplitInclusiveFirst(s, i);
    var pieces, tail := SplitInclusive(s), SplitInclusive(s[i + 1..]);
    var r, rest := NewlineLines(s), NewlineLines(s[i + 1..]);
    assert pieces == [s[..i + 1]] + tail;
    assert r[0] == DropNewline(s[..i + 1]);
    assert s[..i + 1][..i] == s[..i];
    forall k | 1 <= k < |r| ensures r[k] == rest[k - 1] {
      assert pieces[k] == tail[k - 1];
    }
  }

  lemma LinesFirst(s: string, i: nat)
    requires Find(s, "\n") == Some(i)
    ensures Lines(s) == [DropLineEnding(s[..i + 1])] + Lines(s[i + 1..])
  {
    SplitInclusiveFirst(s, i);
  }

  /**
   * Splitting at newlines and joining back with `"\n"` gives the text back,
   * provided it does not end in a newline (that one is dropped by the split).
   */
  lemma {:induction false} JoinNewlineLines(s: string)
    requires !EndsWithChar(s, '\n')
    ensures Join(NewlineLines(s), "\n") == s
    decreases |s|
  {
    if s != [] {
      match Find(s, "\n")
      case None =>
        SplitInclusiveNoNewline(s);
      case Some(i) =>
        var rest := s[i + 1..];
        NewlineSplit(s, i);
        JoinNewlineLines(rest);
        NewlineLinesFirst(s, i);
        JoinCons(s[..i], NewlineLines(rest), "\n");
    }
  }

  /** Cutting a text that does not end in a newline at its first newline. */
  lemma NewlineSplit(s: string, i: nat)
    requires Find(s, "\n") == Some(i) && !EndsWithChar(s, '\n')
    ensures i + 1 < |s|
    ensures !EndsWithChar(s[i + 1..], '\n') && NewlineLines(s[i + 1..]) != []
    ensures s == s[..i] + "\n" + s[i + 1..]
  {
    SplitInclusiveFirst(s, i);
    var rest := s[i + 1..];
    assert rest[|rest| - 1] == s[|s| - 1];
    assert SplitInclusive(rest) != [];
  }

  /** Without carriage returns, `lines()` and the newline split agree. */
  lemma {:induction false} LinesWithoutCarriageReturns(s: string)
    requires '\r' !in s
    ensures Lines(s) == NewlineLines(s)
    decreases |s|
  {
    if s != [] {
      match Find(s, "\n")
      case None =>
        SplitInclusiveNoNewline(s);
      case Some(i) =>
        SplitInclusiveFirst(s, i);
        LinesFirst(s, i);
        NewlineLinesFirst(s, i);
        var p := s[..i + 1];
        assert p[..|p| - 1] == s[..i];
        assert i == 0 || s[..i][i - 1] == s[i - 1];
        LinesWithoutCarriageReturns(s[i + 1..]);
    }
  }

  /**
   * A final newline does not add a line: `lines()` gives the same lines with
   * or without it, for text that does not already end in a line break.
   */
  lemma {:induction false} LinesIgnoreFinalNewline(s: string)
    requires s != [] && !EndsWithChar(s, '\n') && !EndsWithChar(s, '\r')
    ensures Lines(s + "\n") == Lines(s)
    decreases |s|
  {
    var t := s + "\n";
    match Find(s, "\n")
    case None =>
      LinesOneLine(s);
    case Some(i) =>
      var rest := s[i + 1..];
      FindAppend(s, "\n", i);
      SplitInclusiveFirst(s, i);
      LinesFirst(t, i);
      LinesFirst(s, i);
      assert t[..i + 1] == s[..i + 1];
      assert t[i + 1..] == rest + "\n";
      assert rest[|rest| - 1] == s[|s| - 1];
      LinesIgnoreFinalNewline(rest);
  }

  /** The first newline of `s` is also the first of `s + x`. */
  lemma FindAppend(s: string, x: string, i: nat)
    requires Find(s, "\n") == Some(i)
    ensures Find(s + x, "\n") == Some(i)
  {
    var t := s + x;
    OccursAtChar(s, '\n', i);
    OccursAtChar(t, '\n', i);
    forall j | 0 <= j < i ensures !OccursAt(t, "\n", j) {
      OccursAtChar(t, '\n', j);
      OccursAtChar(s, '\n', j);
    }
    FindIs(t, "\n", i);
  }

  /** A line without a line break, with or without a final newline, is one line. */
  lemma LinesOneLine(s: string)
    requires s != [] && Find(s, "\n") == None && !EndsWithChar(s, '\r')
    ensures Lines(s + "\n") == Lines(s)
  {
    var t := s + "\n";
    SplitInclusiveNoNewline(s);
    OccursAtChar(t, '\n', |s|);
    forall j | 0 <= j < |s| ensures !OccursAt(t, "\n", j) {
      OccursAtChar(t, '\n', j);
      assert t[j] == s[j];
    }
    FindIs(t, "\n", |s|);
    LinesFirst(t, |s|);
    assert t[..|s| + 1] == t && t[|s| + 1..] == [];
    assert t[..|t| - 1] == s;
  }
}
