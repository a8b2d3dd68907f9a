/** JavaScript's `xs.slice(-k)` for a positive `k`: the last `k` elements, or all of them. */
module Slices {

  function KeepLast<T>(s: seq<T>, k: nat): (r: seq<T>)
    requires k > 0
    ensures |r| == if |s| <= k then |s| else k
    ensures r == s[|s| - |r|..]
  {
    if |s| <= k then s else s[|s| - k..]
  }

  /** Keeping the last `k` of `s + [x]` always keeps `x` as the final element. */
  lemma KeepLastEndsWith<T>(s: seq<T>, x: T, k: nat)
    requires k > 0
    ensures |KeepLast(s + [x], k)| > 0
    ensures KeepLast(s + [x], k)[|KeepLast(s + [x], k)| - 1] == x
  {
  }

  /** What precedes that final element is the tail of `s`. */
  lemma KeepLastPrefix<T>(s: seq<T>, x: T, k: nat)
    requires k > 0
    ensures var r := KeepLast(s + [x], k);
      r[..|r| - 1] == s[|s| - (|r| - 1)..]
  {
    var r := KeepLast(s + [x], k);
    assert r == (s + [x])[|s| + 1 - |r|..];
    assert r[..|r| - 1] == (s + [x])[|s| + 1 - |r|..|s|];
  }

  /** Truncating before appending and truncating after give the same result. */
  lemma KeepLastSnoc<T>(s: seq<T>, x: T, k: nat)
    requires k > 0
    ensures KeepLast(KeepLast(s, k) + [x], k) == KeepLast(s + [x], k)
  {
    if |s| > k {
      var t := s[|s| - k..];
      assert KeepLast(t + [x], k) == (t + [x])[1..];
      assert (t + [x])[1..] == (s + [x])[|s| + 1 - k..];
    }
  }
}
