/** The tail end of a sequence, which both bounded histories keep. */
module Sequences {
  /** Python's `s[-n:]` for a positive `n`. */
  function LastOf<T>(s: seq<T>, n: nat): (r: seq<T>)
    ensures |r| == if |s| < n then |s| else n
  {
    if |s| <= n then s else s[|s| - n..]
  }

  lemma LastOfLast<T>(s: seq<T>, wide: nat, narrow: nat)
    requires narrow <= wide
    ensures LastOf(LastOf(s, wide), narrow) == LastOf(s, narrow)
  {
  }

  /** Dropping the oldest before or after appending makes no difference. */
  lemma LastOfAppend<T>(s: seq<T>, t: T, n: nat)
    ensures LastOf(LastOf(s, n) + [t], n) == LastOf(s + [t], n)
  {
  }
}
