# equals — a Dafny model of the text-rewriting core

`equals` rewrites a text or Markdown document in which some code lines end in
an evaluation marker `#=`: it parses the document into lines of Text and Code
blocks, hands the contents of the Code blocks, as one slice, to a
language (Python, Numbat or fend), and writes each evaluated line back as
`<code> #= <result> <comment>` before reconstructing the document.

This project models that core as pure Dafny functions and proves properties
about them:

- `Strings` — the parts of Rust's `str` API the core relies on (`trim`,
  `find`, `strip_prefix`, `split_inclusive('\n')`, `lines`,
  `split_whitespace`, `join`, `String::len` as a UTF-8 length).
- `Numbers` — decimal rendering of indices and `usize::from_str`, for a
  64-bit `usize`.
- `Documents` — `Document`/`Line`/`Block`, reconstruction (a stable sort of
  each line's blocks by start column, then a join with `"\n"`), and
  `evaluate_with` (extract the Code contents, evaluate the slice, write it
  back).
- `Markdown` — `MarkdownParser`: fence tracking and the inline backtick
  scanner.
- `PlainText` — `PlainParser`: one Code block per line.
- `CodeLines` — `CodeLine`, `split_line` and `CodeLine::reconstruct`.
- `Updates` — `CodeBlock`/`CodeBlockUpdate`, the changed-only filter at the
  end of every `evaluate`, and the apply-updates loop of the languages' tests.
- `Results` — the `##RESULT:<idx> <value>` write-back loop shared by the
  Python and fend languages.
- `PythonLang`, `NumbatLang`, `FendLang` — the three languages.
- `Languages` — `get_language_spec`, the `evaluate` every language shares, dispatch
  of the in-place evaluation over the languages, and the whole rewrite: parse,
  evaluate, reconstruct.

The interpreters are function parameters:

- Python maps a script to its standard output.
- Numbat maps a list of expressions to `Some(output)`, or `None` when the run
  fails.
- fend maps a program to `Some(output)`, or `None` when the run fails.

Nothing is assumed about what they compute. The properties proved are
therefore about the protocol around them:

- which lines are evaluated, with what context;
- how the output is read back;
- how results are written into lines, blocks and documents.

Markdown columns are counted in chars, except in the one place where the
source's mix of char and byte counts is the subject (see Findings). Plain-text
blocks end at the line's UTF-8 byte length, as in the source.

## Model

| member | source | states |
|---|---|---|
| Markdown.ParseLine | src/markdown.rs:13-27 | The parsed line carries the given number, and the fence state for the next line flips exactly when this line is a fence. |
| Markdown.FenceLine | src/markdown.rs:13-31 | A line whose left-trimmed text starts with three backticks is one Text block holding the whole line, whatever the fence state, and it flips the state. |
| Markdown.FencedCodeLine | src/markdown.rs:22-38 | Inside a fence, a non-fence line is one Code block spanning the whole line, and the fence stays open. |
| Markdown.ScanTiles | src/markdown.rs:40-77 | Loop invariant of the scan: the blocks emitted so far, then the text buffer, then the code buffer, spell the scanned prefix. Only the buffer of the current mode is in use, and the column equals the prefix length. |
| Markdown.ScanColumnsOrdered | src/markdown.rs:47-74 | With char columns, the non-empty blocks the scan has emitted are in non-decreasing start order, and each starts inside the text they spell. |
| Markdown.InlineUnterminated | src/markdown.rs:87-97 | A line with an odd number of backticks collapses into a single Text block holding the whole line. |
| Markdown.InlineBalanced | src/markdown.rs:40-105 | With balanced backticks, the blocks in order spell the line. There is one block more than there are backticks. Blocks alternate Text/Code starting and ending with Text. Half the backticks open a Code block, no Code block holds a backtick, and an empty line gives no block. |
| Markdown.InlinePlainText | src/markdown.rs:98-102 | A line without backticks is one Text block equal to the line, or no block at all when it is empty. |
| Markdown.InlineColumnsOrdered | src/markdown.rs:40-105 | With char columns, the non-empty blocks of a scanned line are in non-decreasing start order. The stable sort in reconstruction therefore keeps them in place. |
| Markdown.ParseLineText | src/markdown.rs:13-105 | Every line the Markdown parser produces, in any fence state, reconstructs to exactly the raw line. |
| Markdown.ParseFromAt | src/markdown.rs:113-120 | Line k of the parse loop is `parse_line` of raw line k, numbered from the start number, in the fence state left by the lines before it. |
| Markdown.ParseAt | src/markdown.rs:109-123 | The parser yields one line per `split_inclusive` piece. Line k is numbered k+1 and is scanned inside a fence exactly when an odd number of earlier lines are fences. |
| Markdown.ParseFromTexts | src/markdown.rs:109-123 | The reconstructed line texts of a parse are exactly the raw lines. |
| Markdown.ParseRoundTrip | src/markdown.rs:249-267 | Reconstructing a parsed Markdown text gives the text back, for every text that does not end in a newline. |
| Markdown.ByteColumnsBreakRoundTrip | src/markdown.rs:51-99 | With buffer lengths in UTF-8 bytes, as written, "`a`€" reconstructs to "``€a", which differs from the input. |
| Documents.SortByStart | src/document.rs:24-28 | The result is sorted by start column. It is a permutation of the line's blocks, and it keeps blocks with equal start in input order (stability). |
| Documents.InsertKeepsKeyOrder | src/document.rs:24-28 | Inserting a block adds it in front of the blocks with its start column and leaves every other start column's blocks as they were. |
| Documents.SortOfSortedIsIdentity | src/document.rs:24-28 | A line whose blocks are already in column order is not reordered. |
| Documents.SortKeepsText | src/document.rs:19-40 | When the non-empty blocks are already in column order, sorting does not change the line's text. |
| Documents.ReconstructLines | src/document.rs:19-40 | Reconstruction puts exactly one newline between consecutive line texts and none after the last. |
| Documents.CodeContentsAt | src/document.rs:42-68 | The Code block at line i, block j is slot `CodesBefore(d, i, j)` of the extracted slice, which counts the Code blocks before it in traversal order. |
| Documents.WriteLines | src/document.rs:73-82 | Write-back keeps every line's number, block kinds, ranges and Text contents. Afterwards the document's Code contents are exactly the written slice, and writing back the unchanged slice gives the same lines. |
| Documents.EvaluateWith | src/document.rs:54-83 | The evaluated document has the same shape as the input. Its Code contents are the evaluator's output, and an evaluator that changes nothing leaves the document unchanged. |
| Documents.EvaluateWithSlot | src/document.rs:54-83 | After evaluation, the Code block at line i, block j keeps its range and holds the evaluator's output at that block's slot. |
| PlainText.Parse | src/parser.rs:10-26 | The plain parser yields one line per line of `str::lines`. |
| PlainText.PlainShape | src/parser.rs:10-26 | Each plain line is a single Code block spanning columns 0 to the line's UTF-8 byte length. Line k is numbered k+1, and the extracted code slice is exactly the list of input lines. |
| PlainText.ParseRoundTrip | src/parser.rs:35-54 | A text with no carriage return and no final newline reconstructs to itself. |
| PlainText.FinalNewlineIgnored | src/parser.rs:11-12 | One final line ending adds no line: the parse is the same with or without it. |
| PlainText.EvaluatedText | src/parser.rs:10-26 | Evaluating a plain document and reconstructing it gives the evaluator's output for the input's lines, joined by newlines. |
| CodeLines.SplitAfter | src/lang/mod.rs:115-126 | The result part is never empty when present. A comment is present exactly when the text after the marker contains the comment prefix. Which text becomes the result and the comment is stated by `CodeLines.SplitPadded`. |
| CodeLines.Classify | src/lang/mod.rs:128-143 | A marked line is an assignment exactly when the detector names a variable, and it then carries that name. It keeps the given code, marker, result and comment. |
| CodeLines.SplitLine | src/lang/mod.rs:98-147 | A line is plain code exactly when its trimmed text lacks the marker, and plain code is the trimmed line. A marked line records the marker. It is an assignment exactly when the detector accepts its code, and its result is never empty. Which text becomes the code, the result and the comment is stated by `CodeLines.SplitPadded`. |
| CodeLines.SplitLineWellFormed | src/lang/mod.rs:98-147 | With the `#=` marker and `#` comment prefix, the split line has trimmed, marker-free code. Its result is non-empty, trimmed and `#`-free, and its comment is trimmed and starts with `#`. |
| CodeLines.SplitPadded | src/lang/mod.rs:98-147 | For every marked line, written as whitespace, trimmed marker-free code, whitespace, `#=`, whitespace, a trimmed `#`-free result text, whitespace and a comment that is empty or starts with `#`: the code is that code, the result is that text (absent when empty), and the comment is the trimmed comment (absent when empty). |
| CodeLines.SpacedLine | src/lang/mod.rs:249-262 | `"  d + 4   #=    12    # some note   "` splits into code `d + 4`, result `12` and comment `# some note`. |
| CodeLines.NoResultLine | src/lang/mod.rs:199-212 | `"b + 2 #= # comment"` splits into code `b + 2`, no result and comment `# comment`. |
| CodeLines.SplitAfterRebuilt | src/lang/mod.rs:58-90 | The text `reconstruct` puts after the marker splits back into the same result and comment. |
| CodeLines.CodeBeforeMarker | src/lang/mod.rs:110-111 | The code in front of the first marker never contains the marker. |
| CodeLines.SplitReconstruct | src/lang/mod.rs:58-147 | Round trip: a well-formed line rebuilt with a trimmed, non-empty, `#`-free result splits back into the same line carrying that result. |
| CodeLines.ResplitAfterReconstruct | src/lang/mod.rs:58-147 | For any input line, writing a result into its split form and splitting again gives the split form with that result. Re-evaluating an evaluated line therefore sees the same code, kind and comment. |
| Updates.ChangedUpdatesExact | src/lang/python.rs:37-50 | Every emitted update carries the id and new content of a block whose content changed, and every changed block has its update. |
| Updates.ChangedUpdatesOrdered | src/lang/python.rs:37-50 | Updates come out in block order: increasing block ids give increasing update ids. |
| Updates.NoChangeNoUpdates | src/lang/python.rs:37-50 | When no content changes, no update is emitted. |
| Updates.ApplyChangedUpdates | src/lang/python.rs:138-156 | Applying the updates emitted for a slice whose blocks are numbered by position reproduces the new contents. |
| Results.LastResult | src/lang/python.rs:66-79 | Reference definition: a value is reported for slot i exactly when some output line is tagged i, and the value comes from such a line. |
| Results.ApplyResultsSlot | src/lang/python.rs:66-79 | After the output loop, slot i is its parsed line rebuilt with the last value tagged i, or its old content when no line is tagged i. |
| Results.NoTagsNoChange | src/lang/python.rs:66-79 | Output without any parsable tag leaves the slice unchanged. |
| PythonLang.ExtractAssignedVar | src/lang/python.rs:84-98 | A name is found only in a line that has `=` but neither `==` nor `!=`. The name is non-empty, trimmed and free of `=`. |
| PythonLang.AssignedVarSplit | src/lang/python.rs:89-98 | For every assignment `lhs = rhs` split at its first `=`: the extracted name is `Trim(lhs)`, or there is none when that is blank. |
| PythonLang.SingleEquals | src/lang/python.rs:84-86 | A line whose only `=` is not preceded by `!` counts as an assignment. |
| PythonLang.CompactAssignment | src/lang/python.rs:89-98 | `x=1` names `x`. |
| PythonLang.AugmentedAssignment | src/lang/python.rs:89-98 | `x += 1` names `x +`, because the name is everything before the first `=`. |
| PythonLang.AssignedVarOf | src/lang/python.rs:84-98 | `name = rhs`, with a trimmed `=`-free name and an `=`-free right side, is an assignment, and its name is extracted. |
| PythonLang.ScriptStatements | src/lang/python.rs:100-113 | The script is the statement list, one statement per line. A plain line is itself, an evaluated line is a tagged print of its code, and an assignment is its code followed by a tagged print of its name. |
| PythonLang.PrintFor | src/lang/python.rs:100-113 | Every evaluated line i contributes a print tagged with its own index i, of the code or of the assigned name. |
| PythonLang.ResultLine | src/lang/python.rs:66-71 | An output line yields a value only when it starts with `##RESULT:`, and the index it yields fits in a `usize`. |
| PythonLang.ResultLineRoundTrip | src/lang/python.rs:66-76 | The line a tagged print writes, `##RESULT:<i> <v>`, reads back as index i and the words of v joined by single spaces. |
| PythonLang.EvaluateInPlaceSlot | src/lang/python.rs:55-80 | After evaluation, slot i is its parsed line rebuilt with the last value the interpreter reported for index i, or is unchanged when none was reported. |
| NumbatLang.ExtractAssignedVar | src/lang/numbat.rs:111-123 | A name is found only in a trimmed line that starts with `let ` and contains `=`. The name is non-empty, trimmed, and free of `:` and `=`. |
| NumbatLang.AssignedVarSplit | src/lang/numbat.rs:111-123 | For every `let` line whose text after the keyword is `lhs = rhs`, split at its first `=`: the name is the trimmed text before any `:` in `Trim(lhs)`. There is no name when `Trim(lhs)` or that text is blank. |
| NumbatLang.CompactLet | src/lang/numbat.rs:111-123 | `let x=1` binds `x`. |
| NumbatLang.AssignedVarOf | src/lang/numbat.rs:111-123 | `let name = rhs` and `let name: T = rhs` both yield `name`, for a trimmed name free of `=` and `:`. |
| NumbatLang.Request | src/lang/numbat.rs:25-37 | An evaluated line sends the context, then its code, and for an assignment also the assigned name. |
| NumbatLang.Slot | src/lang/numbat.rs:21-42 | A plain line never changes. An evaluated line whose run succeeds becomes the line rebuilt with the trimmed answer, and one whose run fails stays as it was. |
| NumbatLang.ContributionsMembers | src/lang/numbat.rs:19-44 | Every context entry is the code of a plain line or an assignment, and the code of every plain line and assignment is in the context. |
| NumbatLang.LoopSlot | src/lang/numbat.rs:18-45 | Line i of the loop is evaluated with the starting context followed by the contributions of the lines before it. |
| NumbatLang.EvaluateInPlaceSlot | src/lang/numbat.rs:18-45 | Line i of the evaluated slice is its line evaluated with the contributions of lines 0..i. |
| FendLang.ParseLine | src/lang/fend.rs:20-23 | With fend's detector no line is ever an assignment. A line is marked exactly when its trimmed text contains `#=`. |
| FendLang.Statement | src/lang/fend.rs:86-97 | A line contributes a statement exactly when its code is non-empty, and the statement is then non-empty. |
| FendLang.StatementFor | src/lang/fend.rs:83-100 | Every line with non-empty code has its statement, plain or tagged print, in the program. |
| FendLang.EmptyScript | src/lang/fend.rs:83-100 | The program is empty exactly when every line's code is empty. |
| FendLang.SplitIndex | src/lang/fend.rs:33-35 | The index part is the text before the first space and holds no space. The value is trimmed. |
| FendLang.ResultLine | src/lang/fend.rs:32-37 | An output line yields a value only when it starts with `##RESULT:`. The index fits in a `usize`, and the value is trimmed. |
| FendLang.ResultLineRoundTrip | src/lang/fend.rs:30-42 | The line a tagged print writes, `##RESULT:<i> <v>`, reads back as index i and v trimmed. |
| FendLang.EvaluateInPlaceSlot | src/lang/fend.rs:18-46 | After evaluation, slot i is its parsed line rebuilt with the last value reported for index i, or is unchanged when none was reported, the program was empty, or the run failed. |
| FendLang.BlankSliceUnchanged | src/lang/fend.rs:25-28 | A slice of blank lines is returned unchanged. |
| Languages.GetLanguageSpec | src/lang/mod.rs:28-34 | A name selects a language exactly when it is that language's name and the language is Python or Numbat. fend is not registered. |
| Languages.Evaluate | src/lang/python.rs:29-51 | No blocks give no updates. Otherwise every update carries the id and new text of a block whose text the language's in-place evaluation changed, and every such block has its update. The `evaluate` of the Numbat and fend languages (src/lang/numbat.rs:57-79, src/lang/fend.rs:58-80) is the same code. |
| Languages.EvalSlots | src/lang/python.rs:138-156 | The slice evaluator, `evaluate` followed by applying its updates by id, computes exactly the language's in-place evaluation. |
| Languages.UpdatesRoundTrip | src/lang/python.rs:138-156 | For every language, applying `evaluate`'s updates for blocks numbered by position gives the in-place evaluation. |
| Languages.QuietMarkdownUnchanged | src/main.rs:52-59 | When the language leaves every code slot unchanged, a Markdown input without a final newline comes back unchanged. |
| Languages.PlainRewrite | src/main.rs:52-59 | In plain-text mode the output is the language's evaluation of the input's lines, joined by newlines. |
| Strings.LinesIgnoreFinalNewline | src/parser.rs:11-12 | `str::lines` gives the same lines with or without one final newline. |
| Numbers.Decimal | src/lang/python.rs:106 | The rendering of an index is a non-empty string of ASCII digits denoting it, with no leading zero. |
| Numbers.ParseUsize | src/lang/python.rs:70 | Parsing succeeds exactly when the text after one optional `+` is a non-empty run of ASCII digits whose value fits in 64 bits, and the result is that value. |
| Numbers.ParseSignedPadded | src/lang/python.rs:70 | An index written with a `+` sign or leading zeros reads back as that index: `+7`, `007` and `+007` all name slot 7. |

## Left out

- Running interpreters: the `python3`, `numbat` and `fend` subprocesses. Their outputs and success are function parameters.
- Lossy UTF-8 decoding of interpreter output: the model takes output as a string of chars.
- The `expect` panic when `python3` cannot start: the parameter always returns an output.
- `main`: argument parsing, file and stdin/stdout I/O, and the `Unknown language` panic.
  - `Languages.Rewrite` models steps 2 to 6 of `src/main.rs`.
  - `main` hands `evaluate_with` a closure over `&[CodeBlock]` that returns updates, but `evaluate_with` expects a closure that rewrites a `&mut [String]`. As written this does not type-check. The model uses what the languages' test helpers do: number the slice's blocks by position, call `evaluate`, and write each update into the slot its id names (`Languages.EvalSlots`).
- `CodeBlock`/`CodeBlockUpdate` and `BlockId` are not defined in `src/document.rs`. `Updates` models them as an id and a content, with ids as positions.
- The `Debug` implementation of `dyn Language`, and the `new` constructors.
- `PythonLang.ResultLine`: the value is the whitespace-separated words joined by single spaces, as the source does. The model does not state when this normalisation gives the printed value back unchanged.
- `Numbers.ParseUsize` assumes a 64-bit `usize`.
- Plain-text block ranges end at the line's UTF-8 byte length, as in `src/parser.rs`. They do not affect reconstruction, which sorts on start columns that are all 0.
- Markdown reconstruction is proved only with char columns (`Markdown.ParseRoundTrip`). With the byte-length arithmetic as written it fails, as the Findings row shows.
- Languages.QuietMarkdownUnchanged: the whole rewrite (`Languages.Rewrite`, `Languages.ParseDocument`) parses Markdown with the corrected char-column scanner. The program as written differs on a line where inline code is followed by non-ASCII text: "`a`€" comes back as "``€a".

## Findings

| source | as written | input that shows it | evidently intended | confidence | as-written member | corrected member |
|---|---|---|---|---|---|---|
| src/markdown.rs:51-99 | A block's start column is `col` minus the buffer's `String::len` (the flushes at lines 51-63 and the end-of-line flush at line 99). `col` counts chars but `len` counts UTF-8 bytes, so a buffer holding a multi-byte char starts too early, and the stable sort in `reconstruct` moves it before earlier blocks. | "`a`€": the final Text "`€" gets start 4 - 4 = 0 and is sorted before the Code block "a" at column 1, so the line reconstructs to "``€a". | Buffer lengths in chars, so that every Markdown line reconstructs to itself, as the round-trip test expects. | not executed | Markdown.ByteColumnsBreakRoundTrip | Markdown.ParseRoundTrip |
