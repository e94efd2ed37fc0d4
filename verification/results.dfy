/**
 * How the Python and fend languages write interpreter output back: the output is
 * read line by line, each line that parses as a `##RESULT:<idx> <value>` tag
 * rewrites slot `idx` (when it exists) to the parsed line at `idx`
 * reconstructed with `value`, and later tags overwrite earlier ones.
 */
module Results {
  import opened Wrappers
  import opened Strings
  import opened CodeLines

  const ResultTag: string := "##RESULT:"

  /** Stripping the tag from a tagged line leaves what followed it. */
  lemma StripTag(x: string)
    ensures StripPrefix(ResultTag + x, ResultTag) == Some(x)
  {
    assert (ResultTag + x)[..|ResultTag|] == ResultTag;
  }

  /** The interpreter's output read line by line, each line parsed as a tag or `None`. */
  function TagsOf(output: string, parse: string -> Option<(nat, string)>): (r: seq<Option<(nat, string)>>)
    ensures |r| == |Lines(output)|
  {
    var ls := Lines(output);
    seq(|ls|, k requires 0 <= k < |ls| => parse(ls[k]))
  }

  /** One parsed output line: write the slot it names, if the slice has one. */
  function ApplyOne(slots: seq<string>, parsed: seq<CodeLine>, tag: Option<(nat, string)>): (r: seq<string>)
    requires |parsed| == |slots|
    ensures |r| == |slots|
  {
    match tag
    case Some((idx, value)) =>
      if idx < |slots| then slots[idx := Reconstruct(parsed[idx], value)] else slots
    case None => slots
  }

  /** The output loop, one parsed output line after another. */
  function ApplyResults(slots: seq<string>, parsed: seq<CodeLine>, tags: seq<Option<(nat, string)>>): (r: seq<string>)
    requires |parsed| == |slots|
    decreases |tags|
    ensures |r| == |slots|
  {
    if tags == [] then slots
    else ApplyOne(ApplyResults(slots, parsed, tags[..|tags| - 1]), parsed, tags[|tags| - 1])
  }

  /** The value of the last tag naming slot `i`, if any tag does. */
  function LastResult(tags: seq<Option<(nat, string)>>, i: nat): (r: Option<string>)
    decreases |tags|
    ensures r.Some? <==> exists k :: 0 <= k < |tags| && tags[k].Some? && tags[k].value.0 == i
    ensures r.Some? ==> exists k :: 0 <= k < |tags| && tags[k] == Some((i, r.value))
  {
    if tags == [] then None
    else
      var last := tags[|tags| - 1];
      if last.Some? && last.value.0 == i then Some(last.value.1)
      else
        var r := LastResult(tags[..|tags| - 1], i);
        assert forall k :: 0 <= k < |tags| - 1 ==> tags[..|tags| - 1][k] == tags[k];
        r
  }

  /**
   * Slot `i` ends up as the parsed line reconstructed with the value of the
   * last tag naming it, and keeps its old content when no tag names it.
   */
  lemma {:induction false} ApplyResultsSlot(slots: seq<string>, parsed: seq<CodeLine>, tags: seq<Option<(nat, string)>>, i: nat)
    requires |parsed| == |slots| && i < |slots|
    ensures ApplyResults(slots, parsed, tags)[i]
         == match LastResult(tags, i)
            case Some(value) => Reconstruct(parsed[i], value)
            case None => slots[i]
    decreases |tags|
  {
    if tags != [] {
      ApplyResultsSlot(slots, parsed, tags[..|tags| - 1], i);
    }
  }

  /** Without any tag the slice is unchanged. */
  lemma NoTagsNoChange(slots: seq<string>, parsed: seq<CodeLine>, tags: seq<Option<(nat, string)>>)
    requires |parsed| == |slots|
    requires forall k :: 0 <= k < |tags| ==> tags[k].None?
    ensures ApplyResults(slots, parsed, tags) == slots
  {
    forall i | 0 <= i < |slots| ensures ApplyResults(slots, parsed, tags)[i] == slots[i] {
      ApplyResultsSlot(slots, parsed, tags, i);
    }
  }
}
