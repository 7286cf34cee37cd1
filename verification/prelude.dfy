/** Small shared vocabulary: an optional value and a strictly descending sequence. */
module Prelude {

  /** The absent-or-present value the source writes as `None` / a value. */
  datatype Option<T> = None | Some(value: T)

  /** Every element is strictly greater than every element after it. */
  ghost predicate StrictlyDescending(s: seq<int>)
  {
    forall i, j :: 0 <= i < j < |s| ==> s[i] > s[j]
  }

  /** In a strictly descending sequence every element after position i is below it. */
  lemma DescendingTail(s: seq<int>, i: nat, tail: seq<int>)
    requires StrictlyDescending(s) && i < |s| && tail == s[i + 1..]
    ensures s[i..] == [s[i]] + tail
    ensures forall x :: x in tail ==> x < s[i]
  {
    forall x | x in tail ensures x < s[i] {
      var k :| 0 <= k < |tail| && tail[k] == x;
      assert s[i + 1 + k] == x;
    }
  }

  /** Appending a value below the last element keeps a sequence strictly descending. */
  lemma DescendingSnoc(s: seq<int>, x: int)
    requires StrictlyDescending(s) && (s != [] ==> s[|s| - 1] > x)
    ensures StrictlyDescending(s + [x])
  {
    forall i, j | 0 <= i < j < |s| + 1 ensures (s + [x])[i] > (s + [x])[j] {
      if j < |s| {
        assert (s + [x])[i] == s[i] && (s + [x])[j] == s[j];
      } else {
        assert (s + [x])[i] == s[i] >= s[|s| - 1];
      }
    }
  }
}
