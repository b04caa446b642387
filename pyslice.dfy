/**
 * Python's negative-index slices on strings, which the tool uses for every
 * suffix test. A slice never fails in Python: when the string is shorter than
 * the count, `s[-n:]` is the whole string and `s[:-n]` is empty.
 */
module PySlice {

  /** `s[-n:]`: the last `n` elements, or all of `s` when it has fewer. */
  function LastN<T>(s: seq<T>, n: nat): (r: seq<T>)
    requires 0 < n
    ensures |r| == if |s| < n then |s| else n
    ensures s[|s| - |r|..] == r
  {
    if |s| < n then s else s[|s| - n..]
  }

  /** `s[:-n]`: everything but the last `n` elements; empty when `s` has fewer. */
  function AllButLastN<T>(s: seq<T>, n: nat): (r: seq<T>)
    requires 0 < n
    ensures r + LastN(s, n) == s
  {
    if |s| < n then [] else s[..|s| - n]
  }

  /** `s` ends with `suffix`, with no length subtleties. */
  predicate EndsWith<T(==)>(s: seq<T>, suffix: seq<T>)
  {
    |suffix| <= |s| && forall k | 0 <= k < |suffix| :: s[|s| - |suffix| + k] == suffix[k]
  }

  /** Comparing `s[-n:]` with a string of the same length `n` is a suffix test. */
  lemma LastNMatchIff<T>(s: seq<T>, t: seq<T>)
    requires 0 < |t|
    ensures LastN(s, |t|) == t <==> EndsWith(s, t)
  {
    if |s| < |t| {
      assert |LastN(s, |t|)| < |t|;
    }
  }

  /**
   * Comparing `s[-n:]` with a string SHORTER than `n` only succeeds when the
   * whole of `s` is that string: the slice is `n` long whenever `s` is.
   */
  lemma LastNLongerThanTarget<T>(s: seq<T>, n: nat, t: seq<T>)
    requires 0 < n && |t| < n
    ensures LastN(s, n) == t <==> s == t
  {
    if |s| >= n {
      assert |LastN(s, n)| == n;
    }
  }
}
