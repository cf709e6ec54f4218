/**
 * appendNpArray: the helper that grows an accumulator array chunk by chunk.
 * With axis=None, np.append flattens both arguments, so on flat arrays the
 * operation is concatenation; an accumulator that does not exist yet (None)
 * or is empty is replaced by the new data.
 */
module ArrayAppend {
  import opened Wrappers

  /**
   * The accumulator followed by the new data: the first |a| entries are the
   * accumulator's and the rest are data's, where a missing accumulator counts
   * as empty.
   */
  function AppendNpArray<T>(acc: Option<seq<T>>, data: seq<T>): (r: seq<T>)
    ensures var a := acc.GetOr([]);
      |r| == |a| + |data| && r[..|a|] == a && r[|a|..] == data
  {
    if acc.None? || |acc.value| == 0 then data
    else acc.value + data
  }

  /** All chunks one after another. */
  function Concat<T>(chunks: seq<seq<T>>): seq<T> {
    if chunks == [] then [] else chunks[0] + Concat(chunks[1..])
  }

  /** The caller's loop: start from acc and append every chunk in turn with AppendNpArray. */
  function Accumulate<T>(acc: Option<seq<T>>, chunks: seq<seq<T>>): seq<T>
    decreases chunks
  {
    if chunks == [] then acc.GetOr([])
    else Accumulate(Some(AppendNpArray(acc, chunks[0])), chunks[1..])
  }

  /** Appending chunk by chunk yields the initial accumulator followed by all the chunks in order. */
  lemma {:induction false} AccumulateConcat<T>(acc: Option<seq<T>>, chunks: seq<seq<T>>)
    ensures Accumulate(acc, chunks) == acc.GetOr([]) + Concat(chunks)
    decreases chunks
  {
    if chunks != [] {
      var next := AppendNpArray(acc, chunks[0]);
      AccumulateConcat(Some(next), chunks[1..]);
      assert next == acc.GetOr([]) + chunks[0];
    }
  }

  /** Starting from None, appending every chunk gives just their concatenation. */
  lemma AccumulateFromNone<T>(chunks: seq<seq<T>>)
    ensures Accumulate(None, chunks) == Concat(chunks)
  {
    AccumulateConcat(None, chunks);
  }

  /** Appending the empty array changes nothing, and appending to None or to an empty accumulator returns data itself. */
  lemma AppendIdentity<T>(acc: Option<seq<T>>, data: seq<T>)
    ensures AppendNpArray(acc, []) == acc.GetOr([])
    ensures acc.GetOr([]) == [] ==> AppendNpArray(acc, data) == data
  {
    var r := AppendNpArray(acc, []);
    assert r == r[..|acc.GetOr([])|];
  }
}
