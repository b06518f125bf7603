/** Buffers that append at the end and drop the oldest entry once over capacity (`push`, then `shift`). */
module Bounded {

  function PushBounded<T>(buf: seq<T>, x: T, cap: nat): seq<T> {
    var b := buf + [x];
    if |b| > cap then b[1..] else b
  }

  /**
   * Below capacity the value is appended; at capacity the oldest entry is
   * dropped as well. The result never exceeds the capacity, is the newest
   * suffix of buf + [x], and (for a positive capacity) ends with x.
   */
  lemma PushBoundedSpec<T>(buf: seq<T>, x: T, cap: nat)
    requires |buf| <= cap
    ensures var r := PushBounded(buf, x, cap);
      && |r| <= cap
      && (|buf| < cap ==> r == buf + [x])
      && (|buf| == cap ==> r == (buf + [x])[1..])
      && r == (buf + [x])[|buf| + 1 - |r|..]
      && (cap > 0 ==> |r| > 0 && r[|r| - 1] == x)
      && (cap > 0 && |buf| == cap ==> r[..|r| - 1] == buf[1..])
  {
  }
}
