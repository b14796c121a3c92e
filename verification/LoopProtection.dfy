/** The sliding-window reclaim tracker (`src/loop_protection.rs`). Instants are nanoseconds. */
module LoopProtection {
  const WINDOW: int := 600_000_000_000
  const THRESHOLD: nat := 3
  const MAX_TRACKED: nat := 10

  /** Events not older than the window, in any order. */
  function Recent(events: seq<int>, now: int): nat {
    if events == [] then 0
    else Recent(events[..|events| - 1], now) + (if events[|events| - 1] >= now - WINDOW then 1 else 0)
  }

  predicate ShouldWarn(events: seq<int>, now: int) {
    Recent(events, now) >= THRESHOLD
  }

  predicate NonDecreasing(s: seq<int>) {
    forall i, j :: 0 <= i < j < |s| ==> s[i] <= s[j]
  }

  /** The last `n` elements, or all of them. */
  function LastN(s: seq<int>, n: nat): seq<int> {
    if n >= |s| then s else s[|s| - n..]
  }

  function Min(a: nat, b: nat): nat { if a < b then a else b }

  function Pruned(events: seq<int>, now: int): seq<int> {
    if events != [] && events[0] < now - WINDOW then Pruned(events[1..], now) else events
  }

  function Recorded(events: seq<int>, now: int): seq<int> {
    LastN(Pruned(events, now) + [now], MAX_TRACKED)
  }

  /** The deque after recording a whole history from empty. */
  function Deque(history: seq<int>): seq<int> {
    if history == [] then []
    else Recorded(Deque(history[..|history| - 1]), history[|history| - 1])
  }

  /** The tracked timestamps of one `ScheduledMachine`. */
  class Tracker {
    var events: seq<int>

    constructor ()
      ensures events == []
    {
      events := [];
    }

    /** Pop from the front while it is too old. */
    method Prune(now: int)
      modifies this
      ensures events == Pruned(old(events), now)
    {
      var cutoff := now - WINDOW;
      while events != [] && events[0] < cutoff
        invariant Pruned(events, now) == Pruned(old(events), now)
        decreases |events|
      {
        events := events[1..];
      }
    }

    /** Prune, append, cap; report whether the threshold is met. */
    method Record(now: int) returns (breach: bool)
      modifies this
      ensures events == Recorded(old(events), now)
      ensures breach <==> |events| >= 3
    {
      Prune(now);
      events := events + [now];
      ghost var all := events;
      while |events| > MAX_TRACKED
        invariant |events| <= |all| && events == all[|all| - |events|..]
        invariant LastN(events, MAX_TRACKED) == LastN(all, MAX_TRACKED)
        decreases |events|
      {
        events := events[1..];
      }
      breach := |events| >= THRESHOLD;
    }
  }

  /** In a non-decreasing history the recent events are a suffix. */
  lemma {:induction false} RecentIsSuffix(s: seq<int>, now: int)
    requires NonDecreasing(s)
    ensures Recent(s, now) <= |s|
    ensures forall i :: 0 <= i < |s| ==> (s[i] >= now - WINDOW <==> i >= |s| - Recent(s, now))
    decreases |s|
  {
    if s != [] {
      var init := s[..|s| - 1];
      RecentIsSuffix(init, now);
      forall i | 0 <= i < |init| ensures init[i] == s[i] {}
      if Recent(init, now) > 0 { assert s[|init| - 1] >= now - WINDOW; }
    }
  }

  /** The count is what the suffix says, whatever it was computed from. */
  lemma {:induction false} RecentUnique(s: seq<int>, now: int, k: nat)
    requires NonDecreasing(s) && k <= |s|
    requires forall i :: 0 <= i < |s| ==> (s[i] >= now - WINDOW <==> i >= |s| - k)
    ensures Recent(s, now) == k
  {
    hide Recent, NonDecreasing;
    RecentIsSuffix(s, now);
    var r := Recent(s, now);
    if k > 0 { assert s[|s| - k] >= now - WINDOW; }
    if r > 0 { assert s[|s| - r] >= now - WINDOW; }
  }

  /** Among the last `m` events the recent ones are the recent ones of all, up to `m`. */
  lemma {:induction false} RecentOfLast(s: seq<int>, m: nat, now: int)
    requires NonDecreasing(s)
    ensures NonDecreasing(LastN(s, m))
    ensures Recent(LastN(s, m), now) == Min(m, Recent(s, now))
  {
    RecentIsSuffix(s, now);
    var t := LastN(s, m);
    forall i | 0 <= i < |t| ensures t[i] == s[|s| - |t| + i] {}
    RecentUnique(t, now, Min(m, Recent(s, now)));
  }

  /** Pruning a non-decreasing deque keeps exactly its recent events. */
  lemma {:induction false} PrunedKeepsRecent(s: seq<int>, now: int)
    requires NonDecreasing(s)
    ensures Pruned(s, now) == LastN(s, Recent(s, now))
    decreases |s|
  {
    RecentIsSuffix(s, now);
    if s != [] && s[0] < now - WINDOW {
      var rest := s[1..];
      forall i | 0 <= i < |rest| ensures rest[i] == s[i + 1] {}
      RecentUnique(rest, now, Recent(s, now));
      PrunedKeepsRecent(rest, now);
    }
  }

  lemma LastOfLast(s: seq<int>, m: nat, n: nat)
    ensures LastN(LastN(s, m), n) == LastN(s, Min(m, n))
  {
  }

  lemma LastAppend(s: seq<int>, m: nat, x: int)
    ensures LastN(s, m) + [x] == LastN(s + [x], m + 1)
  {
  }

  /** A later cutoff keeps no more. */
  lemma {:induction false} RecentShrinks(s: seq<int>, now: int, later: int)
    requires now <= later
    ensures Recent(s, later) <= Recent(s, now)
    decreases |s|
  {
    if s != [] { RecentShrinks(s[..|s| - 1], now, later); }
  }

  lemma InitNonDecreasing(s: seq<int>)
    requires NonDecreasing(s) && s != []
    ensures NonDecreasing(s[..|s| - 1])
  {
  }

  /** One more event: from a deque that is the tail of its history to the next one. */
  lemma {:induction false} RecordKeepsTail(init: seq<int>, now: int, k0: nat)
    requires NonDecreasing(init) && Recent(init, now) <= k0
    ensures Recorded(LastN(init, Min(MAX_TRACKED, k0)), now) == LastN(init + [now], Min(MAX_TRACKED, Recent(init, now) + 1))
  {
    hide Recent, Pruned, LastN, NonDecreasing;
    var kept, cap := Recent(init, now), Min(MAX_TRACKED, k0);
    var deque := LastN(init, cap);
    RecentOfLast(init, cap, now);
    PrunedKeepsRecent(deque, now);
    LastOfLast(init, cap, Min(cap, kept));
    LastAppend(init, Min(MAX_TRACKED, kept), now);
    LastOfLast(init + [now], Min(MAX_TRACKED, kept) + 1, MAX_TRACKED);
  }

  lemma RecentAppend(init: seq<int>, now: int)
    ensures Recent(init + [now], now) == Recent(init, now) + 1
  {
    assert (init + [now])[..|init|] == init;
  }

  lemma LastNLength(s: seq<int>, n: nat)
    requires n <= |s|
    ensures |LastN(s, n)| == n
  {
  }

  /** For every non-decreasing history the deque is the last `min(10, k)` events of it, where `k` of
      them lie in the window of the last one. */
  lemma {:induction false} DequeIsTail(init: seq<int>, now: int)
    requires NonDecreasing(init + [now])
    ensures Deque(init + [now]) == LastN(init + [now], Min(MAX_TRACKED, Recent(init, now) + 1))
    decreases |init|
  {
    assert (init + [now])[..|init|] == init;
    InitNonDecreasing(init + [now]);
    if init == [] {
      hide Recent, Pruned, LastN, Recorded, NonDecreasing;
      RecordKeepsTail(init, now, Recent(init, now));
      EmptyTail(Min(MAX_TRACKED, Recent(init, now)));
    } else {
      var init0, now0 := init[..|init| - 1], init[|init| - 1];
      assert init == init0 + [now0];
      assert now0 <= now by { assert (init + [now])[|init| - 1] == now0 && (init + [now])[|init|] == now; }
      hide Recent, Pruned, LastN, Recorded, NonDecreasing;
      DequeIsTail(init0, now0);
      RecentAppend(init0, now0);
      RecentShrinks(init, now0, now);
      RecordKeepsTail(init, now, Recent(init, now0));
    }
  }

  lemma EmptyTail(n: nat)
    ensures LastN([], n) == []
  {
  }

  /** So it reports a breach exactly when `k` reaches three. */
  lemma {:induction false} DequeExactly(history: seq<int>)
    requires NonDecreasing(history) && history != []
    ensures var k := Recent(history, history[|history| - 1]);
            && k <= |history|
            && Deque(history) == LastN(history, Min(10, k))
            && (|Deque(history)| >= 3 <==> k >= 3)
  {
    hide Recent, Deque, LastN, NonDecreasing;
    var init, now := history[..|history| - 1], history[|history| - 1];
    assert history == init + [now];
    RecentIsSuffix(history, now);
    RecentAppend(init, now);
    DequeIsTail(init, now);
    LastNLength(history, Min(MAX_TRACKED, Recent(history, now)));
  }

  /** Three reclaims in a row are a breach exactly when the first is at most ten minutes before the
      last. */
  lemma ThreeReclaims(a: int, b: int, c: int)
    requires a <= b <= c
    ensures |Deque([a, b, c])| >= 3 <==> c - a <= 600_000_000_000
  {
    var s := [a, b, c];
    assert NonDecreasing(s);
    hide Deque, LastN;
    DequeExactly(s);
    RecentIsSuffix(s, c);
    assert s[0] >= c - WINDOW <==> 0 >= 3 - Recent(s, c);
  }

  /** At any later instant, the read-only check on the capped deque agrees with the same check on the
      whole unbounded history. */
  lemma {:induction false} CappedDequeSuffices(history: seq<int>, now: int)
    requires NonDecreasing(history)
    requires history != [] ==> history[|history| - 1] <= now
    ensures ShouldWarn(Deque(history), now) <==> ShouldWarn(history, now)
    ensures ShouldWarn(history, now) <==> Recent(history, now) >= 3
  {
    if history != [] {
      hide Recent, Deque, LastN, NonDecreasing;
      var last := history[|history| - 1];
      DequeExactly(history);
      RecentShrinks(history, last, now);
      RecentOfLast(history, Min(MAX_TRACKED, Recent(history, last)), now);
    }
  }
}
