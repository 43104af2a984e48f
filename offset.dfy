/**
 * `_getAdjustedOffset`: moves a text offset past the `sup`/`sub` tags that
 * start at or before it, so that it indexes the same place in the markup.
 */
module Offset {
  import Dom

  /** A tag found in the markup and the position at which it was found. */
  datatype TagPosition = TagPosition(position: int, tag: string)

  /**
   * The adjusted offset: each tag is taken in turn while its position is not
   * beyond the running offset, adding its length; the first tag beyond the
   * running offset stops the scan.
   */
  function Adjusted(offset: int, tags: seq<TagPosition>): (r: int)
    decreases |tags|
  {
    if tags == [] || tags[0].position > offset then offset
    else Adjusted(offset + |tags[0].tag|, tags[1..])
  }

  /** The total length of the tags. */
  function TagLength(tags: seq<TagPosition>): (n: nat)
  {
    if tags == [] then 0 else |tags[0].tag| + TagLength(tags[1..])
  }

  /**
   * The adjusted offset lies between the offset and the offset moved past
   * every tag: it is never below its input.
   */
  lemma {:induction false} AdjustedBounds(offset: int, tags: seq<TagPosition>)
    ensures offset <= Adjusted(offset, tags) <= offset + TagLength(tags)
    decreases |tags|
  {
    if tags != [] && tags[0].position <= offset {
      AdjustedBounds(offset + |tags[0].tag|, tags[1..]);
    }
  }

  /** The adjusted offset skips exactly the tags of a prefix of the list: a prefix whose every tag starts at or before the running offset, followed by the end of the list or a tag beyond it. */
  lemma {:induction false} AdjustedPrefix(offset: int, tags: seq<TagPosition>)
    ensures exists k :: 0 <= k <= |tags| && Skips(offset, tags, k)
    decreases |tags|
  {
    if tags == [] || tags[0].position > offset {
      assert Skips(offset, tags, 0);
    } else {
      var t := tags[0];
      AdjustedPrefix(offset + |t.tag|, tags[1..]);
      var k :| 0 <= k <= |tags[1..]| && Skips(offset + |t.tag|, tags[1..], k);
      assert tags[1..][..k] == tags[1..k + 1];
      assert TagLength(tags[..k + 1]) == |t.tag| + TagLength(tags[1..k + 1]) by {
        assert tags[..k + 1][1..] == tags[1..k + 1];
      }
      forall j | 0 <= j < k + 1
        ensures tags[j].position <= offset + TagLength(tags[..j])
      {
        if j > 0 {
          assert tags[..j][1..] == tags[1..][..j - 1];
          assert tags[j] == tags[1..][j - 1];
        }
      }
      if k + 1 < |tags| {
        assert tags[k + 1] == tags[1..][k];
      }
      assert Skips(offset, tags, k + 1);
    }
  }

  /**
   * The first `k` tags are skipped: each starts no later than the running
   * offset it meets, the next one (if any) starts beyond it, and the result
   * is the offset plus their lengths.
   */
  ghost predicate Skips(offset: int, tags: seq<TagPosition>, k: nat)
    requires k <= |tags|
  {
    (forall j :: 0 <= j < k ==> tags[j].position <= offset + TagLength(tags[..j]))
    && (k < |tags| ==> tags[k].position > offset + TagLength(tags[..k]))
    && Adjusted(offset, tags) == offset + TagLength(tags[..k])
  }

  /** `_getAdjustedOffset`; `None` is a missing list. The text argument is never used, so it is not modelled. */
  method GetAdjustedOffset(offset: int, tagPositions: Dom.Option<seq<TagPosition>>) returns (r: int)
    ensures tagPositions.None? || tagPositions.value == [] ==> r == offset
    ensures tagPositions.Some? ==> r == Adjusted(offset, tagPositions.value)
  {
    if tagPositions.None? || |tagPositions.value| == 0 {
      return offset;
    }
    var tags := tagPositions.value;
    r := offset;
    var x := 0;
    while x < |tags|
      invariant x <= |tags|
      invariant Adjusted(r, tags[x..]) == Adjusted(offset, tags)
    {
      var tagPosition := tags[x];
      if tagPosition.position > r {
        break;
      }
      assert tags[x..][1..] == tags[x + 1..];
      r := r + |tagPosition.tag|;
      x := x + 1;
    }
  }
}
