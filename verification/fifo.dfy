/**
 * Bounded first-in-first-out buffers, as values: Python's `deque(maxlen=n)`.
 * Appending to a full buffer evicts the oldest entry.
 */
module Fifo {

  /** The most recent (at most) `n` entries of `s`, oldest first. */
  function Last<T>(s: seq<T>, n: nat): (r: seq<T>)
    ensures |r| == if |s| <= n then |s| else n
  {
    if |s| <= n then s else s[|s| - n..]
  }

  /** `deque.append(x)` on a deque whose `maxlen` is `cap`. */
  function BoundedAppend<T>(s: seq<T>, x: T, cap: nat): (r: seq<T>)
    ensures |r| == if |s| < cap then |s| + 1 else cap
  {
    Last(s + [x], cap)
  }

  /** Below capacity an append keeps every entry; at capacity it evicts exactly the oldest one. */
  lemma BoundedAppendEvictsOldest<T>(s: seq<T>, x: T, cap: nat)
    ensures |s| < cap ==> BoundedAppend(s, x, cap) == s + [x]
    ensures 0 < |s| == cap ==> BoundedAppend(s, x, cap) == s[1..] + [x]
    ensures cap == 0 ==> BoundedAppend(s, x, cap) == []
  {
    if 0 < |s| == cap {
      assert (s + [x])[1..] == s[1..] + [x];
    }
  }

  /** The newest entry survives. */
  lemma LastNewest<T>(s: seq<T>, n: nat)
    requires |s| > 0 && n > 0
    ensures Last(s, n) != [] && Last(s, n)[|Last(s, n)| - 1] == s[|s| - 1]
  {
  }

  /** The first (at most) `n` entries of `s`. */
  function Take<T>(s: seq<T>, n: nat): (r: seq<T>)
    ensures |r| == if |s| <= n then |s| else n
    ensures forall i :: 0 <= i < |r| ==> r[i] == s[i]
  {
    if |s| <= n then s else s[..n]
  }

  /** Keeping only the last `n` entries after every append is the same as keeping them once at the end. */
  lemma LastAppend<T>(s: seq<T>, x: T, n: nat)
    ensures Last(Last(s, n) + [x], n) == Last(s + [x], n)
  {
    var t := Last(s, n);
    if |s| > n && n > 0 {
      assert t + [x] == s[|s| - n..] + [x];
      assert (t + [x])[1..] == (s + [x])[|s| + 1 - n..];
    }
  }

  /** An append to a prefix that is still below `n` entries extends it; otherwise the prefix is unchanged. */
  lemma TakeAppend<T>(s: seq<T>, x: T, n: nat)
    ensures Take(s + [x], n) == if |s| < n then s + [x] else Take(s, n)
  {
    if |s| >= n {
      assert (s + [x])[..n] == s[..n];
    }
  }
}
