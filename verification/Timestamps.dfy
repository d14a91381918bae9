/** Lists of event times, and how many of them fall into an interval. */
module Timestamps {
  /** `list.retain(|t| t > cutoff)`. */
  function Retain(s: seq<nat>, cutoff: int): (r: seq<nat>)
    ensures |r| <= |s|
    ensures forall t :: t in r <==> t in s && t > cutoff
  {
    if s == [] then []
    else
      var front, last := Retain(s[..|s| - 1], cutoff), s[|s| - 1];
      assert s == s[..|s| - 1] + [last];
      if last > cutoff then front + [last] else front
  }

  lemma {:induction false} RetainNone(s: seq<nat>, cutoff: int)
    requires AllAtMost(s, cutoff)
    ensures Retain(s, cutoff) == []
  {
    if s != [] {
      RetainNone(s[..|s| - 1], cutoff);
    }
  }

  /** How many of the times lie in the half-open interval (lo, hi]. */
  function CountIn(s: seq<nat>, lo: int, hi: int): (n: nat)
    ensures n <= |s|
  {
    if s == [] then 0
    else CountIn(s[..|s| - 1], lo, hi) + (if lo < s[|s| - 1] <= hi then 1 else 0)
  }

  ghost predicate AllAtMost(s: seq<nat>, t: int) {
    forall i :: 0 <= i < |s| ==> s[i] <= t
  }

  ghost predicate AllAtLeast(s: seq<nat>, t: int) {
    forall i :: 0 <= i < |s| ==> t <= s[i]
  }

  lemma RetainSnoc(s: seq<nat>, t: nat, cutoff: int)
    ensures Retain(s + [t], cutoff) == if t > cutoff then Retain(s, cutoff) + [t] else Retain(s, cutoff)
  {
    assert (s + [t])[..|s|] == s;
  }

  lemma {:induction false} RetainTwice(s: seq<nat>, c: int, d: int)
    requires c <= d
    ensures Retain(Retain(s, c), d) == Retain(s, d)
  {
    if s != [] {
      var front, last := s[..|s| - 1], s[|s| - 1];
      RetainTwice(front, c, d);
      RetainSnoc(Retain(front, c), last, d);
    }
  }

  lemma {:induction false} RetainAll(s: seq<nat>, cutoff: int)
    requires AllAtLeast(s, cutoff + 1)
    ensures Retain(s, cutoff) == s
  {
    if s != [] {
      RetainAll(s[..|s| - 1], cutoff);
      assert s == s[..|s| - 1] + [s[|s| - 1]];
    }
  }

  lemma CountSnoc(s: seq<nat>, t: nat, lo: int, hi: int)
    ensures CountIn(s + [t], lo, hi) == CountIn(s, lo, hi) + (if lo < t <= hi then 1 else 0)
  {
    assert (s + [t])[..|s|] == s;
  }

  /** The same time, `k` times. */
  function Copies(t: nat, k: nat): (r: seq<nat>)
    ensures |r| == k && forall i :: 0 <= i < k ==> r[i] == t
  {
    if k == 0 then [] else Copies(t, k - 1) + [t]
  }

  lemma {:induction false} CountCopies(t: nat, k: nat, lo: int, hi: int)
    ensures CountIn(Copies(t, k), lo, hi) == if lo < t <= hi then k else 0
  {
    if k == 0 {
      assert Copies(t, k) == [];
    } else {
      hide CountIn;
      CountCopies(t, k - 1, lo, hi);
      CountSnoc(Copies(t, k - 1), t, lo, hi);
    }
  }

  lemma {:induction false} CountAppend(a: seq<nat>, b: seq<nat>, lo: int, hi: int)
    ensures CountIn(a + b, lo, hi) == CountIn(a, lo, hi) + CountIn(b, lo, hi)
  {
    if b == [] {
      assert a + b == a;
    } else {
      var front, last := b[..|b| - 1], b[|b| - 1];
      CountAppend(a, front, lo, hi);
      assert a + b == (a + front) + [last];
      CountSnoc(a + front, last, lo, hi);
    }
  }

  /** Up to the newest time, counting is retaining. */
  lemma {:induction false} CountIsRetained(s: seq<nat>, lo: int, hi: int)
    requires AllAtMost(s, hi)
    ensures CountIn(s, lo, hi) == |Retain(s, lo)|
  {
    if s != [] {
      CountIsRetained(s[..|s| - 1], lo, hi);
    }
  }

  /** An interval holds no more than one that covers it. */
  lemma {:induction false} CountCovered(s: seq<nat>, lo: int, hi: int, lo1: int, hi1: int)
    requires lo1 <= lo && (hi <= hi1 || AllAtMost(s, hi1))
    ensures CountIn(s, lo, hi) <= CountIn(s, lo1, hi1)
  {
    if s != [] {
      CountCovered(s[..|s| - 1], lo, hi, lo1, hi1);
    }
  }

  lemma {:induction false} CountNone(s: seq<nat>, lo: int, hi: int)
    requires AllAtMost(s, lo) || AllAtLeast(s, hi + 1)
    ensures CountIn(s, lo, hi) == 0
  {
    if s != [] {
      CountNone(s[..|s| - 1], lo, hi);
    }
  }

  // ---- Pruned logs ----------------------------------------------------------------

  const TWO_TO_64: nat := 0x1_0000_0000_0000_0000

  /** `now - window` on 64-bit unsigned integers, which wraps when the window is longer than `now`. */
  function Cutoff(now: nat, windowSecs: nat): int {
    if windowSecs <= now then now - windowSecs else now - windowSecs + TWO_TO_64
  }

  /** From `now` on, the pruned log and the full history look the same. */
  ghost predicate SameFrom(log: seq<nat>, history: seq<nat>, now: nat, windowSecs: nat) {
    && AllAtMost(history, now)
    && forall c: int :: now - windowSecs <= c ==> Retain(log, c) == Retain(history, c)
  }

  lemma PruneKeepsSame(log: seq<nat>, history: seq<nat>, now: nat, next: nat, windowSecs: nat)
    requires SameFrom(log, history, now, windowSecs) && now <= next
    ensures SameFrom(Retain(log, next - windowSecs), history, next, windowSecs)
    ensures SameFrom(Retain(log, next - windowSecs) + [next], history + [next], next, windowSecs)
  {
    hide Retain;
    var pruned := Retain(log, next - windowSecs);
    forall c: int | next - windowSecs <= c
      ensures Retain(pruned, c) == Retain(history, c)
      ensures Retain(pruned + [next], c) == Retain(history + [next], c)
    {
      RetainTwice(log, next - windowSecs, c);
      RetainSnoc(pruned, next, c);
      RetainSnoc(history, next, c);
    }
  }

  lemma SameFromLater(log: seq<nat>, history: seq<nat>, now: nat, later: nat, windowSecs: nat)
    requires SameFrom(log, history, now, windowSecs) && now <= later
    ensures SameFrom(log, history, later, windowSecs)
  {
    hide Retain;
  }

  lemma EmptyIsSame(now: nat, windowSecs: nat)
    ensures SameFrom([], [], now, windowSecs)
  {
  }

  lemma SameMeans(log: seq<nat>, history: seq<nat>, now: nat, windowSecs: nat)
    requires SameFrom(log, history, now, windowSecs)
    ensures AllAtMost(history, now)
    ensures Retain(log, now - windowSecs) == Retain(history, now - windowSecs)
  {
  }
}
