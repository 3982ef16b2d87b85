/** The fixed-window rate limiter: its bucket table, which is pruned, and its bounds over every run. */
module RateLimits {
  import opened Lists

  const MAX_BUCKETS := 10000

  type Key = string

  datatype Bucket = Bucket(count: nat, reset: int)

  type Table = map<Key, Bucket>

  datatype Limits = Limits(windowMs: int, max: nat)

  // ----- the limiter that never forgets a bucket ------------------------------------------

  /** The bucket of a key after one more request: the live one, or a new window. */
  function Charged(l: Limits, t: Table, key: Key, now: int): Bucket {
    if key in t && t[key].reset > now then Bucket(t[key].count + 1, t[key].reset) else Bucket(1, now + l.windowMs)
  }

  function Step(l: Limits, t: Table, key: Key, now: int): Table { t[key := Charged(l, t, key, now)] }

  predicate Allows(l: Limits, t: Table, key: Key, now: int) { Charged(l, t, key, now).count <= l.max }

  /** Milliseconds as whole seconds, rounded up. */
  function CeilSeconds(ms: int): int { if ms <= 0 then 0 else (ms + 999) / 1000 }

  /** The least number of seconds, from 0 on, that is not shorter. */
  lemma CeilSecondsIsLeast(ms: int)
    ensures var s := CeilSeconds(ms);
            s >= 0 && 1000 * s >= ms && forall t | t >= 0 && 1000 * t >= ms :: s <= t
  {
  }

  // ----- the limiter ----------------------------------------------------------------------

  class RateLimiter {
    const limits: Limits
    var buckets: Table
    /** The keys in order of insertion, in which the table is iterated. */
    var order: seq<Key>
    /** The table without pruning, and the time of the last request. */
    ghost var unpruned: Table
    ghost var clock: int

    ghost predicate Valid() reads this { Agrees(buckets, unpruned, clock) && Listed(order, buckets) }

    constructor (limits: Limits, ghost start: int)
      ensures this.limits == limits && Valid() && unpruned == map[] && clock == start
    {
      this.limits, buckets, order, unpruned, clock := limits, map[], [], map[], start;
    }

    /** Forget expired buckets when there are too many. */
    method Prune(now: int)
      requires Listed(order, buckets)
      modifies `buckets, `order
      ensures Listed(order, buckets) && Pruned(old(buckets), buckets, now)
      ensures |old(buckets)| <= MAX_BUCKETS ==> buckets == old(buckets)
      ensures |buckets| <= MAX_BUCKETS || forall k | k in buckets :: buckets[k].reset > now
    {
      hide Listed, Pruned, Remaining;
      NothingPruned(order, buckets, now);
      if |buckets| <= MAX_BUCKETS { return; }
      var keys := order;
      var i := 0;
      while i < |keys|
        invariant 0 <= i <= |keys| && Listed(order, buckets) && Pruned(old(buckets), buckets, now)
        invariant Remaining(keys, i, buckets, now)
      {
        PruneStep(old(buckets), buckets, order, keys, i, now);
        var k := keys[i];
        if buckets[k].reset <= now {
          order := Removed(order, k);
          buckets := buckets - {k};
        }
        i := i + 1;
        if |buckets| <= MAX_BUCKETS - 1000 { return; }
      }
      AllLive(keys, buckets, now);
    }

    /** One request: whether it is let through, how many remain, and the seconds until the window ends. */
    method Request(key: Key, now: int) returns (admitted: bool, remaining: nat, retryAfter: int)
      requires Valid() && clock <= now
      modifies this
      ensures Valid() && clock == now && unpruned == Step(limits, old(unpruned), key, now)
      ensures admitted <==> Allows(limits, old(unpruned), key, now)
      ensures remaining == if unpruned[key].count <= limits.max then limits.max - unpruned[key].count else 0
      ensures retryAfter == CeilSeconds(unpruned[key].reset - now)
    {
      hide Listed, Pruned, Agrees;
      Prune(now);
      PruneAgrees(old(buckets), buckets, unpruned, clock, now);
      ghost var pruned := buckets;
      Inserted(order, buckets, key, Charged(limits, buckets, key, now));
      RequestAgrees(limits, buckets, unpruned, key, now);
      if key !in buckets || buckets[key].reset <= now {
        if key !in buckets { order := order + [key]; }
        buckets := buckets[key := Bucket(0, now + limits.windowMs)];
      }
      var b := Bucket(buckets[key].count + 1, buckets[key].reset);
      buckets := buckets[key := b];
      assert buckets == pruned[key := Charged(limits, pruned, key, now)];
      unpruned := Step(limits, unpruned, key, now);
      clock := now;
      remaining := if limits.max > b.count then limits.max - b.count else 0;
      retryAfter := CeilSeconds(b.reset - now);
      admitted := b.count <= limits.max;
    }
  }

  /** Only expired buckets are missing, and nothing else has changed. */
  ghost predicate Pruned(before: Table, after: Table, now: int) {
    && (forall k | k in after :: k in before && after[k] == before[k])
    && (forall k | k in before && before[k].reset > now :: k in after)
  }

  /** Before key `i` of the iteration only live buckets are left, from there on all. */
  ghost predicate Remaining(keys: seq<Key>, i: nat, t: Table, now: int) {
    && Distinct(keys) && (forall k | k in t :: k in keys)
    && (forall j | i <= j < |keys| :: keys[j] in t)
    && (forall j | 0 <= j < i && j < |keys| && keys[j] in t :: t[keys[j]].reset > now)
  }

  lemma NothingPruned(order: seq<Key>, t: Table, now: int)
    requires Listed(order, t)
    ensures Pruned(t, t, now) && Remaining(order, 0, t, now)
  {
  }

  lemma AllLive(keys: seq<Key>, t: Table, now: int)
    requires Remaining(keys, |keys|, t, now)
    ensures forall k | k in t :: t[k].reset > now
  {
    forall k | k in t ensures t[k].reset > now {
      var j :| 0 <= j < |keys| && keys[j] == k;
    }
  }

  lemma PruneStep(before: Table, t: Table, order: seq<Key>, keys: seq<Key>, i: nat, now: int)
    requires i < |keys| && Listed(order, t) && Pruned(before, t, now) && Remaining(keys, i, t, now)
    ensures keys[i] in t
    ensures t[keys[i]].reset > now ==> Remaining(keys, i + 1, t, now)
    ensures t[keys[i]].reset <= now ==>
              var less := t - {keys[i]};
              Listed(Removed(order, keys[i]), less) && Pruned(before, less, now) && Remaining(keys, i + 1, less, now)
  {
    if t[keys[i]].reset <= now {
      Forgotten(t, order, keys[i]);
      ForgottenRemaining(keys, i, t, now);
      hide Listed, Remaining;
    }
  }

  lemma Forgotten(t: Table, order: seq<Key>, k: Key)
    requires Listed(order, t) && k in t
    ensures Listed(Removed(order, k), t - {k})
  {
    hide Removed;
  }

  lemma ForgottenRemaining(keys: seq<Key>, i: nat, t: Table, now: int)
    requires i < |keys| && Remaining(keys, i, t, now)
    ensures Remaining(keys, i + 1, t - {keys[i]}, now)
  {
    var less := t - {keys[i]};
    forall j | i + 1 <= j < |keys| ensures keys[j] in less { assert keys[j] != keys[i]; }
  }

  /** Pruning keeps what the unpruned table says of live buckets. */
  lemma PruneAgrees(before: Table, after: Table, unpruned: Table, clock: int, now: int)
    requires Agrees(before, unpruned, clock) && Pruned(before, after, now) && clock <= now
    ensures Agrees(after, unpruned, now)
  {
  }

  lemma Inserted(order: seq<Key>, t: Table, key: Key, b: Bucket)
    requires Listed(order, t)
    ensures Listed(if key in t then order else order + [key], t[key := b])
  {
  }

  /** The request sees the same bucket in both tables, and changes both alike. */
  lemma RequestAgrees(l: Limits, t: Table, unpruned: Table, key: Key, now: int)
    requires Agrees(t, unpruned, now)
    ensures Charged(l, t, key, now) == Charged(l, unpruned, key, now)
    ensures Agrees(t[key := Charged(l, t, key, now)], Step(l, unpruned, key, now), now)
  {
  }

  /** The table holds buckets of the unpruned one, and all live ones. */
  ghost predicate Agrees(t: Table, unpruned: Table, clock: int) {
    && (forall k | k in t :: k in unpruned && unpruned[k] == t[k])
    && (forall k | k in unpruned && unpruned[k].reset > clock :: k in t)
  }

  function Removed(s: seq<Key>, k: Key): (r: seq<Key>)
    ensures forall x :: x in r <==> x in s && x != k
    ensures Distinct(s) ==> Distinct(r)
  {
    if s == [] then []
    else
      assert Distinct(s) ==> Distinct(s[1..]) && s[0] !in s[1..];
      if s[0] == k then Removed(s[1..], k) else [s[0]] + Removed(s[1..], k)
  }

  // ----- bounds ---------------------------------------------------------------------------

  datatype Req = Req(key: Key, now: int)

  ghost predicate Timely(reqs: seq<Req>, from: int) {
    && (forall i | 0 <= i < |reqs| :: from <= reqs[i].now)
    && forall i, j | 0 <= i < j < |reqs| :: reqs[i].now <= reqs[j].now
  }

  /** Requests of `key` that are admitted at a time from `lo` up to, and without, `hi`. */
  function AdmittedIn(l: Limits, t: Table, reqs: seq<Req>, key: Key, lo: int, hi: int): nat
    decreases |reqs|
  {
    if reqs == [] then 0
    else
      (if reqs[0].key == key && lo <= reqs[0].now < hi && Allows(l, t, key, reqs[0].now) then 1 else 0)
      + AdmittedIn(l, Step(l, t, reqs[0].key, reqs[0].now), reqs[1..], key, lo, hi)
  }

  /** What the bucket of `key` still lets through. */
  function Left(l: Limits, t: Table, key: Key): nat
    requires key in t
  {
    if t[key].count <= l.max then l.max - t[key].count else 0
  }

  lemma {:induction false} NothingLater(l: Limits, t: Table, reqs: seq<Req>, key: Key, lo: int, hi: int)
    requires forall i | 0 <= i < |reqs| :: hi <= reqs[i].now
    ensures AdmittedIn(l, t, reqs, key, lo, hi) == 0
    decreases |reqs|
  {
    if reqs != [] { NothingLater(l, Step(l, t, reqs[0].key, reqs[0].now), reqs[1..], key, lo, hi); }
  }

  /** Up to the end of the bucket's window. */
  lemma {:induction false} RestOfWindow(l: Limits, t: Table, reqs: seq<Req>, key: Key, lo: int, hi: int)
    requires reqs != [] && Timely(reqs, reqs[0].now) && key in t && hi <= t[key].reset
    ensures AdmittedIn(l, t, reqs, key, lo, hi) <= Left(l, t, key)
    decreases |reqs|
  {
    if reqs[0].now >= hi {
      NothingLater(l, t, reqs, key, lo, hi);
    } else if |reqs| > 1 {
      RestOfWindow(l, Step(l, t, reqs[0].key, reqs[0].now), reqs[1..], key, lo, hi);
    }
  }

  /** No bucket of the key is live from time `at` on. */
  predicate Idle(t: Table, key: Key, at: int) { key in t ==> t[key].reset <= at }

  /** At most `max` requests of a key are admitted per window: counted from a time at which its window is over, up
      to the length of a window later. */
  lemma {:induction false} WindowBound(l: Limits, t: Table, reqs: seq<Req>, key: Key, at: int, lo: int, hi: int)
    requires Timely(reqs, at) && Idle(t, key, at) && hi <= at + l.windowMs
    ensures AdmittedIn(l, t, reqs, key, lo, hi) <= l.max
    decreases |reqs|
  {
    if reqs != [] {
      var next := Step(l, t, reqs[0].key, reqs[0].now);
      if reqs[0].key != key {
        WindowBound(l, next, reqs[1..], key, at, lo, hi);
      } else if |reqs| > 1 {
        RestOfWindow(l, next, reqs[1..], key, lo, hi);
      }
    }
  }

  /** The rest of one window and the next one. */
  lemma {:induction false} TwoWindows(l: Limits, t: Table, reqs: seq<Req>, key: Key, lo: int, hi: int)
    requires reqs != [] && Timely(reqs, reqs[0].now) && key in t && hi <= t[key].reset + l.windowMs
    ensures AdmittedIn(l, t, reqs, key, lo, hi) <= Left(l, t, key) + l.max
    decreases |reqs|
  {
    if reqs[0].now >= t[key].reset {
      WindowBound(l, t, reqs, key, t[key].reset, lo, hi);
    } else if |reqs| > 1 {
      TwoWindows(l, Step(l, t, reqs[0].key, reqs[0].now), reqs[1..], key, lo, hi);
    }
  }

  /** Every bucket counts the request that opened it. */
  ghost predicate Opened(t: Table) { forall k | k in t :: t[k].count >= 1 }

  /** In any interval of the length of a window, for every run: the request that opened the earlier of two windows
      lies outside, so fewer than twice `max` requests of a key are admitted. */
  lemma {:induction false} IntervalBound(l: Limits, t: Table, reqs: seq<Req>, key: Key, from: int, lo: int)
    requires Timely(reqs, from) && Opened(t)
    ensures AdmittedIn(l, t, reqs, key, lo, lo + l.windowMs) <= if l.max == 0 then 0 else 2 * l.max - 1
    decreases |reqs|
  {
    if reqs != [] {
      if reqs[0].now < lo {
        IntervalBound(l, Step(l, t, reqs[0].key, reqs[0].now), reqs[1..], key, reqs[0].now, lo);
      } else if Idle(t, key, lo) {
        WindowBound(l, t, reqs, key, lo, lo, lo + l.windowMs);
      } else {
        TwoWindows(l, t, reqs, key, lo, lo + l.windowMs);
      }
    }
  }

  /** `n` requests at the same time. */
  function Burst(key: Key, at: int, n: nat): seq<Req> { if n == 0 then [] else [Req(key, at)] + Burst(key, at, n - 1) }

  lemma {:induction false} BurstIsAdmitted(l: Limits, t: Table, key: Key, at: int, n: nat, more: seq<Req>, lo: int,
                                           hi: int)
    requires key in t && t[key].reset > at && t[key].count + n <= l.max && lo <= at < hi
    ensures AdmittedIn(l, t, Burst(key, at, n) + more, key, lo, hi)
            == n + AdmittedIn(l, t[key := Bucket(t[key].count + n, t[key].reset)], more, key, lo, hi)
  {
    if n == 0 {
      assert Burst(key, at, n) + more == more && t[key := t[key]] == t;
    } else {
      var next := t[key := Bucket(t[key].count + 1, t[key].reset)];
      assert Burst(key, at, n) + more == [Req(key, at)] + (Burst(key, at, n - 1) + more);
      FirstIsAdmitted(l, t, key, at, Burst(key, at, n - 1) + more, lo, hi);
      hide AdmittedIn, Burst;
      BurstIsAdmitted(l, next, key, at, n - 1, more, lo, hi);
      assert next[key := Bucket(next[key].count + (n - 1), next[key].reset)]
             == t[key := Bucket(t[key].count + n, t[key].reset)];
    }
  }

  lemma FirstIsAdmitted(l: Limits, t: Table, key: Key, at: int, more: seq<Req>, lo: int, hi: int)
    requires key in t && t[key].reset > at && t[key].count < l.max && lo <= at < hi
    ensures AdmittedIn(l, t, [Req(key, at)] + more, key, lo, hi)
            == 1 + AdmittedIn(l, t[key := Bucket(t[key].count + 1, t[key].reset)], more, key, lo, hi)
  {
    assert ([Req(key, at)] + more)[1..] == more;
  }

  /** One request opens a window, the rest of it is used up at its end, and all of the next one at its start. */
  function TwoBursts(l: Limits, key: Key): seq<Req>
    requires l.max >= 1
  {
    [Req(key, 0)] + (Burst(key, l.windowMs - 1, l.max - 1) + ([Req(key, l.windowMs)]
                                                              + Burst(key, l.windowMs, l.max - 1)))
  }

  lemma {:induction false} BurstIsAt(key: Key, at: int, n: nat)
    ensures forall r | r in Burst(key, at, n) :: r == Req(key, at)
  {
    if n > 0 { BurstIsAt(key, at, n - 1); }
  }

  lemma TwoBurstsAreTimely(l: Limits, key: Key)
    requires l.max >= 1 && l.windowMs >= 1
    ensures Timely(TwoBursts(l, key), 0)
  {
    BurstIsAt(key, l.windowMs - 1, l.max - 1);
    BurstIsAt(key, l.windowMs, l.max - 1);
    var reqs := TwoBursts(l, key);
    forall i | 0 <= i < |reqs| ensures reqs[i].now == if i == 0 then 0 else if i < l.max then l.windowMs - 1
      else l.windowMs {
      BurstLength(key, l.windowMs - 1, l.max - 1);
      var first, second := Burst(key, l.windowMs - 1, l.max - 1), Burst(key, l.windowMs, l.max - 1);
      if 1 <= i < l.max {
        assert reqs[i] == first[i - 1] && first[i - 1] in first;
      } else if i > l.max {
        assert reqs[i] == second[i - l.max - 1] && second[i - l.max - 1] in second;
      }
    }
  }

  lemma {:induction false} BurstLength(key: Key, at: int, n: nat)
    ensures |Burst(key, at, n)| == n
  {
    if n > 0 { BurstLength(key, at, n - 1); }
  }

  /** For every limit and every window of at least two milliseconds some run reaches the bound. */
  lemma IntervalBoundIsTight(l: Limits, key: Key)
    requires l.max >= 1 && l.windowMs >= 2
    ensures var reqs, lo := TwoBursts(l, key), l.windowMs - 1;
            Timely(reqs, 0) && AdmittedIn(l, map[], reqs, key, lo, lo + l.windowMs) == 2 * l.max - 1
  {
    TwoBurstsAreTimely(l, key);
    hide Timely;
    var w, lo := l.windowMs, l.windowMs - 1;
    var last := [Req(key, w)] + Burst(key, w, l.max - 1);
    assert TwoBursts(l, key)[1..] == Burst(key, w - 1, l.max - 1) + last;
    var first: Table := map[key := Bucket(1, w)];
    assert Step(l, map[], key, 0) == first && TwoBursts(l, key)[0] == Req(key, 0);
    hide TwoBursts, AdmittedIn, Burst;
    BurstIsAdmitted(l, first, key, w - 1, l.max - 1, last, lo, lo + w);
    NewWindow(l, first[key := Bucket(1 + (l.max - 1), w)], key, lo);
    SkipFirst(l, key, TwoBursts(l, key), lo, lo + w);
  }

  lemma SkipFirst(l: Limits, key: Key, reqs: seq<Req>, lo: int, hi: int)
    requires reqs != [] && reqs[0].now < lo
    ensures AdmittedIn(l, map[], reqs, key, lo, hi)
            == AdmittedIn(l, Step(l, map[], reqs[0].key, reqs[0].now), reqs[1..], key, lo, hi)
  {
    hide Step;
  }

  /** When the window is over, a new one lets `max` requests through. */
  lemma NewWindow(l: Limits, t: Table, key: Key, lo: int)
    requires l.max >= 1 && l.windowMs >= 2 && key in t && t[key].reset == l.windowMs && lo == l.windowMs - 1
    ensures AdmittedIn(l, t, [Req(key, l.windowMs)] + Burst(key, l.windowMs, l.max - 1), key, lo, lo + l.windowMs)
            == l.max
  {
    var w := l.windowMs;
    var last := [Req(key, w)] + Burst(key, w, l.max - 1);
    assert last[1..] == Burst(key, w, l.max - 1) + [];
    assert Charged(l, t, key, w) == Bucket(1, w + w);
    BurstIsAdmitted(l, t[key := Bucket(1, w + w)], key, w, l.max - 1, [], lo, lo + w);
  }
}
