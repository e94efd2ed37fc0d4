/**
 * The block-level interface of the languages: code blocks carrying an
 * id, the updates `evaluate` returns for the blocks whose content changed, and
 * the way the test helpers of the languages apply those updates to a slice
 * (by index, ignoring ids out of range).
 */
module Updates {
  datatype CodeBlock = CodeBlock(id: nat, content: string)
  datatype CodeBlockUpdate = CodeBlockUpdate(id: nat, content: string)

  function Contents(blocks: seq<CodeBlock>): (r: seq<string>)
    ensures |r| == |blocks| && forall i :: 0 <= i < |blocks| ==> r[i] == blocks[i].content
  {
    seq(|blocks|, i requires 0 <= i < |blocks| => blocks[i].content)
  }

  /** The blocks of a slice, numbered by position, as the test helpers build them. */
  function Indexed(slots: seq<string>): (r: seq<CodeBlock>)
    ensures |r| == |slots| && forall i :: 0 <= i < |slots| ==> r[i] == CodeBlock(i, slots[i])
  {
    seq(|slots|, i requires 0 <= i < |slots| => CodeBlock(i, slots[i]))
  }

  /**
   * The filter at the end of every `evaluate`: the blocks zipped with their
   * new contents, keeping an update, with the block's id, for each block whose
   * content changed.
   */
  function ChangedUpdates(blocks: seq<CodeBlock>, working: seq<string>): (r: seq<CodeBlockUpdate>)
    decreases |blocks|
    ensures |r| <= |blocks|
  {
    if blocks == [] || working == [] then []
    else
      var rest := ChangedUpdates(blocks[1..], working[1..]);
      if blocks[0].content == working[0] then rest
      else [CodeBlockUpdate(blocks[0].id, working[0])] + rest
  }

  /** An update is emitted for position `i` exactly when that block's content changed. */
  predicate ChangedAt(blocks: seq<CodeBlock>, working: seq<string>, i: int) {
    0 <= i < |blocks| && i < |working| && blocks[i].content != working[i]
  }

  /**
   * Soundness and completeness of the filter: every update carries the id and
   * new content of a changed block, and every changed block has its update.
   */
  lemma {:induction false} ChangedUpdatesExact(blocks: seq<CodeBlock>, working: seq<string>)
    ensures forall u :: u in ChangedUpdates(blocks, working) ==>
      exists i :: ChangedAt(blocks, working, i) && u == CodeBlockUpdate(blocks[i].id, working[i])
    ensures forall i :: ChangedAt(blocks, working, i) ==>
      CodeBlockUpdate(blocks[i].id, working[i]) in ChangedUpdates(blocks, working)
    decreases |blocks|
  {
    if blocks != [] && working != [] {
      ChangedUpdatesExact(blocks[1..], working[1..]);
      forall u | u in ChangedUpdates(blocks[1..], working[1..])
        ensures exists i :: ChangedAt(blocks, working, i) && u == CodeBlockUpdate(blocks[i].id, working[i])
      {
        var j :| ChangedAt(blocks[1..], working[1..], j) && u == CodeBlockUpdate(blocks[1..][j].id, working[1..][j]);
        assert ChangedAt(blocks, working, j + 1);
      }
      forall i | ChangedAt(blocks, working, i) && i > 0
        ensures CodeBlockUpdate(blocks[i].id, working[i]) in ChangedUpdates(blocks, working)
      {
        assert ChangedAt(blocks[1..], working[1..], i - 1);
      }
    }
  }

  lemma {:induction false} ChangedUpdatesIdsFrom(blocks: seq<CodeBlock>, working: seq<string>, lo: nat)
    requires forall i :: 0 <= i < |blocks| ==> lo <= blocks[i].id
    ensures forall k :: 0 <= k < |ChangedUpdates(blocks, working)| ==> lo <= ChangedUpdates(blocks, working)[k].id
    decreases |blocks|
  {
    if blocks != [] && working != [] {
      ChangedUpdatesIdsFrom(blocks[1..], working[1..], lo);
    }
  }

  /** Updates keep input order: with increasing ids, the emitted ids increase. */
  lemma {:induction false} ChangedUpdatesOrdered(blocks: seq<CodeBlock>, working: seq<string>)
    requires forall i, j :: 0 <= i < j < |blocks| ==> blocks[i].id < blocks[j].id
    ensures forall i, j :: 0 <= i < j < |ChangedUpdates(blocks, working)| ==>
      ChangedUpdates(blocks, working)[i].id < ChangedUpdates(blocks, working)[j].id
    decreases |blocks|
  {
    if blocks != [] && working != [] {
      var tail := blocks[1..];
      ChangedUpdatesOrdered(tail, working[1..]);
      ChangedUpdatesIdsFrom(tail, working[1..], blocks[0].id + 1);
    }
  }

  /** Nothing changed, nothing emitted. */
  lemma {:induction false} NoChangeNoUpdates(blocks: seq<CodeBlock>)
    ensures ChangedUpdates(blocks, Contents(blocks)) == []
    decreases |blocks|
  {
    if blocks != [] {
      assert Contents(blocks)[1..] == Contents(blocks[1..]);
      NoChangeNoUpdates(blocks[1..]);
    }
  }

  /** The test helpers' loop: each update overwrites the slot its id names, if there is one. */
  function ApplyUpdates(slots: seq<string>, updates: seq<CodeBlockUpdate>): (r: seq<string>)
    decreases |updates|
    ensures |r| == |slots|
  {
    if updates == [] then slots
    else
      var u := updates[0];
      ApplyUpdates(if u.id < |slots| then slots[u.id := u.content] else slots, updates[1..])
  }

  /**
   * Round trip of the update protocol: applying the updates emitted for a
   * slice numbered by position to that slice yields the new contents.
   */
  lemma {:induction false} ApplyChangedUpdates(slots: seq<string>, working: seq<string>)
    requires |working| == |slots|
    ensures ApplyUpdates(slots, ChangedUpdates(Indexed(slots), working)) == working
  {
    ApplyChangedFrom(slots, working, 0);
  }

  /** Positions before `from` already hold their new contents; the blocks from `from` on are numbered by position. */
  lemma {:induction false} ApplyChangedFrom(slots: seq<string>, working: seq<string>, from: nat)
    requires |working| == |slots| && from <= |slots|
    requires slots[..from] == working[..from]
    ensures ApplyUpdates(slots, ChangedUpdates(Indexed(slots)[from..], working[from..])) == working
    decreases |slots| - from
  {
    var blocks := Indexed(slots)[from..];
    if from == |slots| {
      assert slots == slots[..from];
      assert working == working[..from];
    } else {
      assert blocks[1..] == Indexed(slots)[from + 1..];
      assert working[from..][1..] == working[from + 1..];
      if slots[from] == working[from] {
        assert slots[..from + 1] == working[..from + 1];
        ApplyChangedFrom(slots, working, from + 1);
      } else {
        var next := slots[from := working[from]];
        assert next[..from + 1] == working[..from + 1];
        assert Indexed(next)[from + 1..] == Indexed(slots)[from + 1..];
        ApplyChangedFrom(next, working, from + 1);
      }
    }
  }
}
