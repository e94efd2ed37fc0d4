/**
 * The `Language` interface of `src/lang/mod.rs` as a closed set of languages,
 * the name lookup `get_language_spec`, and the whole rewrite of a document:
 * parse (Markdown or plain text), evaluate its code slice with a language, and
 * reconstruct.
 *
 * The evaluator handed to the document is the language's `evaluate` followed by
 * writing each update into the slot its id names, as the languages' test helpers
 * do with ids numbered by position.
 */
module Languages {
  import opened Wrappers
  import opened Strings
  import opened Updates
  import opened Documents
  import PythonLang
  import NumbatLang
  import FendLang
  import Markdown
  import PlainText

  datatype Language = Python | Numbat | Fend

  /** The interpreters the languages run, one per language. */
  datatype Interpreters = Interpreters(
    python: string -> string,
    numbat: seq<string> -> Option<string>,
    fend: string -> Option<string>)

  function Name(l: Language): string {
    match l
    case Python => PythonLang.Name
    case Numbat => NumbatLang.Name
    case Fend => FendLang.Name
  }

  /**
   * `get_language_spec`: the names `python` and `numbat` select their languages;
   * fend is not registered, so its name selects nothing.
   */
  function GetLanguageSpec(s: string): (r: Option<Language>)
    ensures forall l :: r == Some(l) <==> s == Name(l) && l != Fend
  {
    if s == PythonLang.Name then Some(Python)
    else if s == NumbatLang.Name then Some(Numbat)
    else None
  }

  /**
   * `evaluate`, which every language implements the same way: no blocks give no
   * updates; otherwise the blocks' texts are evaluated in place as one slice,
   * and each block whose text changed, and no other, yields an update with
   * its id and its new text.
   */
  function Evaluate(l: Language, it: Interpreters, blocks: seq<CodeBlock>): (r: seq<CodeBlockUpdate>)
    ensures |r| <= |blocks|
    ensures forall u :: u in r ==>
      exists i :: ChangedAt(blocks, EvaluateInPlace(l, it, Contents(blocks)), i)
               && u == CodeBlockUpdate(blocks[i].id, EvaluateInPlace(l, it, Contents(blocks))[i])
    ensures forall i :: ChangedAt(blocks, EvaluateInPlace(l, it, Contents(blocks)), i) ==>
      CodeBlockUpdate(blocks[i].id, EvaluateInPlace(l, it, Contents(blocks))[i]) in r
  {
    if blocks == [] then []
    else
      var working := EvaluateInPlace(l, it, Contents(blocks));
      ChangedUpdatesExact(blocks, working);
      ChangedUpdates(blocks, working)
  }

  /** The language's in-place evaluation of a slice. */
  function EvaluateInPlace(l: Language, it: Interpreters, slots: seq<string>): (r: seq<string>)
    ensures |r| == |slots|
  {
    match l
    case Python => PythonLang.EvaluateInPlace(slots, it.python)
    case Numbat => NumbatLang.EvaluateInPlace(slots, it.numbat)
    case Fend => FendLang.EvaluateInPlace(slots, it.fend)
  }

  /**
   * The slice evaluator: the language's updates for the slice's blocks numbered
   * by position, each written into the slot its id names. It computes exactly
   * the language's in-place evaluation.
   */
  function EvalSlots(l: Language, it: Interpreters, slots: seq<string>): (r: seq<string>)
    ensures |r| == |slots|
    ensures r == EvaluateInPlace(l, it, slots)
  {
    UpdatesRoundTrip(l, it, slots);
    ApplyUpdates(slots, Evaluate(l, it, Indexed(slots)))
  }

  /** Applying the updates for the blocks numbered by position gives the in-place evaluation back. */
  lemma UpdatesRoundTrip(l: Language, it: Interpreters, slots: seq<string>)
    ensures ApplyUpdates(slots, Evaluate(l, it, Indexed(slots))) == EvaluateInPlace(l, it, slots)
  {
    assert Contents(Indexed(slots)) == slots;
    if slots != [] {
      ApplyChangedUpdates(slots, EvaluateInPlace(l, it, slots));
    }
  }

  /** The document the input parses to, with the Markdown parser or the plain one. */
  function ParseDocument(markdown: bool, input: string): Document {
    if markdown then Markdown.Parse(Markdown.CharColumns, input) else PlainText.Parse(input)
  }

  /** The whole rewrite: parse, evaluate the code slice, reconstruct. */
  function Rewrite(markdown: bool, l: Language, it: Interpreters, input: string): string {
    var d := ParseDocument(markdown, input);
    Reconstruct(EvaluateWith(d, slots => EvalSlots(l, it, slots)))
  }

  /**
   * When the language leaves every code slot as it was, a Markdown input with no
   * final newline comes back unchanged.
   */
  lemma QuietMarkdownUnchanged(l: Language, it: Interpreters, input: string)
    requires !EndsWithChar(input, '\n')
    requires EvaluateInPlace(l, it, CodeContents(ParseDocument(true, input))) == CodeContents(ParseDocument(true, input))
    ensures Rewrite(true, l, it, input) == input
  {
    Markdown.ParseRoundTrip(input);
  }

  /**
   * In plain-text mode every line is one slot: the output is the language's
   * evaluation of the input's lines, joined by newlines.
   */
  lemma PlainRewrite(l: Language, it: Interpreters, input: string)
    ensures Rewrite(false, l, it, input) == Join(EvaluateInPlace(l, it, Lines(input)), "\n")
  {
    PlainText.PlainShape(input);
    PlainText.EvaluatedText(input, slots => EvalSlots(l, it, slots));
  }
}
