/** The request rate limiter (util/simpleratelimiter.cc) and the clock it is asked with. */
module RateLimits {

  /** time(nullptr): seconds that never go back. */
  class Clock {
    var now: int

    constructor (start: int)
      requires start >= 0
      ensures now == start
    {
      now := start;
    }

    method Time() returns (t: int)
      modifies this
      ensures old(now) <= t == now
    {
      t :| t >= now;
      now := t;
    }
  }

  const RATE_PERIOD: int := 1

  datatype Bucket = Bucket(used: int, periodEnd: int)

  /** One call of TakeRateSlotWithTime: the new bucket, and whether a slot was granted. */
  function Take(b: Bucket, maxRate: int, now: int): (Bucket, bool) {
    if now >= b.periodEnd then (Bucket(1, now + RATE_PERIOD), true)
    else if b.used < maxRate then (b.(used := b.used + 1), true)
    else (b, false)
  }

  // ---------------------------------------------------------------- runs of calls

  predicate ClockOrder(calls: seq<int>) {
    && (forall i | 0 <= i < |calls| :: calls[i] >= 0)
    && (forall i, j | 0 <= i < j < |calls| :: calls[i] <= calls[j])
  }

  function After(calls: seq<int>, maxRate: int): Bucket {
    if calls == [] then Bucket(0, 0) else Take(After(calls[..|calls| - 1], maxRate), maxRate, calls[|calls| - 1]).0
  }

  /** How often a number occurs. */
  function CountAt(xs: seq<int>, t: int): nat {
    if xs == [] then 0 else CountAt(xs[..|xs| - 1], t) + if xs[|xs| - 1] == t then 1 else 0
  }

  /** The slots granted by the calls made in second t. */
  function GrantsAt(calls: seq<int>, maxRate: int, t: int): nat {
    if calls == [] then 0 else
      var front, now := calls[..|calls| - 1], calls[|calls| - 1];
      GrantsAt(front, maxRate, t) + if now == t && Take(After(front, maxRate), maxRate, now).1 then 1 else 0
  }

  function Min(a: int, b: int): int {
    if a < b then a else b
  }

  lemma {:induction false} NoneLater(xs: seq<int>, t: int)
    requires forall i | 0 <= i < |xs| :: xs[i] < t
    ensures CountAt(xs, t) == 0
  {
    if xs != [] {
      NoneLater(xs[..|xs| - 1], t);
    }
  }

  /** The bucket remembers how many slots the last second has used. */
  lemma {:induction false} BucketMeaning(calls: seq<int>, maxRate: int)
    requires ClockOrder(calls) && maxRate >= 1 && calls != []
    ensures var now := calls[|calls| - 1];
            After(calls, maxRate) == Bucket(Min(CountAt(calls, now), maxRate), now + RATE_PERIOD)
  {
    var front, now := calls[..|calls| - 1], calls[|calls| - 1];
    if front == [] {
      assert CountAt(front, now) == 0;
    } else {
      BucketMeaning(front, maxRate);
      var before := front[|front| - 1];
      assert before == calls[|calls| - 2] <= now;
      if before < now {
        NoneLater(front, now);
      }
    }
  }

  /** In every second the limiter grants the calls it gets, up to the maximal rate. */
  lemma {:induction false} GrantsPerSecond(calls: seq<int>, maxRate: int, t: int)
    requires ClockOrder(calls) && maxRate >= 1
    ensures GrantsAt(calls, maxRate, t) == Min(CountAt(calls, t), maxRate)
  {
    if calls != [] {
      var front, now := calls[..|calls| - 1], calls[|calls| - 1];
      GrantsPerSecond(front, maxRate, t);
      if front == [] {
        assert CountAt(front, t) == 0;
      } else if now == t {
        BucketMeaning(front, maxRate);
        var before := front[|front| - 1];
        assert before == calls[|calls| - 2] <= now;
        if before < now {
          NoneLater(front, now);
        }
      }
    }
  }

  /** The occurrences of the n numbers from, from + 1, ... */
  function CountIn(xs: seq<int>, from: int, n: nat): nat {
    if n == 0 then 0 else CountIn(xs, from, n - 1) + CountAt(xs, from + n - 1)
  }

  lemma NextMultiple(n: nat, k: nat)
    ensures (n + 1) * k == n * k + k
  {
  }

  lemma {:induction false} WindowBound(xs: seq<int>, maxRate: nat, from: int, n: nat)
    requires forall t :: CountAt(xs, t) <= maxRate
    ensures CountIn(xs, from, n) <= n * maxRate
  {
    if n > 0 {
      WindowBound(xs, maxRate, from, n - 1);
      NextMultiple(n - 1, maxRate);
    }
  }

  lemma CountSnoc(xs: seq<int>, x: int, t: int)
    ensures CountAt(xs + [x], t) == CountAt(xs, t) + if x == t then 1 else 0
  {
    assert (xs + [x])[..|xs|] == xs;
  }

  lemma {:induction false} CountInSnoc(xs: seq<int>, x: int, from: int, n: nat)
    ensures CountIn(xs + [x], from, n) == CountIn(xs, from, n) + if from <= x < from + n then 1 else 0
  {
    if n > 0 {
      CountInSnoc(xs, x, from, n - 1);
      CountSnoc(xs, x, from + n - 1);
    }
  }

  lemma {:induction false} CountInNone(xs: seq<int>, from: int, n: nat)
    requires forall i | 0 <= i < |xs| :: xs[i] < from
    ensures CountIn(xs, from, n) == 0
  {
    if n > 0 {
      CountInNone(xs, from, n - 1);
      NoneLater(xs, from + n - 1);
    }
  }

  /** Each grant comes before its count, and each count before the next grant. */
  predicate Interleaved(grants: seq<int>, counts: seq<int>) {
    && |grants| == |counts| && (forall i | 0 <= i < |grants| :: grants[i] <= counts[i])
    && (forall i, j | 0 <= i < j < |grants| :: counts[i] <= grants[j])
  }

  lemma InterleavedSnoc(grants: seq<int>, counts: seq<int>, t: int, u: int)
    requires Interleaved(grants, counts) && t <= u && forall i | 0 <= i < |counts| :: counts[i] <= t
    ensures Interleaved(grants + [t], counts + [u])
  {
  }

  /** The last grant and its count put aside. */
  lemma InterleavedFront(grants: seq<int>, counts: seq<int>, m: nat)
    requires Interleaved(grants, counts) && |counts| == m + 1
    ensures Interleaved(grants[..m], counts[..m]) && grants == grants[..m] + [grants[m]] && counts == counts[..m] + [counts[m]]
  {
  }

  /** Over any window at most one count belongs to a grant from before it. */
  lemma {:induction false} CountsInWindow(grants: seq<int>, counts: seq<int>, from: int, n: nat)
    requires Interleaved(grants, counts)
    ensures CountIn(counts, from, n) <= CountIn(grants, from, n) + 1
  {
    if counts == [] {
      CountInNone(counts, from, n);
    } else {
      var m := |counts| - 1;
      InterleavedFront(grants, counts, m);
      CountInSnoc(grants[..m], grants[m], from, n);
      CountInSnoc(counts[..m], counts[m], from, n);
      if m > 0 && counts[m - 1] >= from {
        assert counts[m - 1] <= grants[m] <= counts[m];
        CountsInWindow(grants[..m], counts[..m], from, n);
      } else {
        CountsRise(grants, counts, m);
        CountInNone(counts[..m], from, n);
      }
    }
  }

  /** And none if no grant from before the window is counted in it or later. */
  lemma {:induction false} CountsWithoutStraddle(grants: seq<int>, counts: seq<int>, from: int, n: nat)
    requires |grants| == |counts| && forall i | 0 <= i < |grants| :: grants[i] <= counts[i] && !(grants[i] < from <= counts[i])
    ensures CountIn(counts, from, n) <= CountIn(grants, from, n)
  {
    if counts == [] {
      CountInNone(counts, from, n);
    } else {
      var m := |counts| - 1;
      assert grants == grants[..m] + [grants[m]] && counts == counts[..m] + [counts[m]];
      CountInSnoc(grants[..m], grants[m], from, n);
      CountInSnoc(counts[..m], counts[m], from, n);
      CountsWithoutStraddle(grants[..m], counts[..m], from, n);
    }
  }

  lemma CountOfTwo(x: int, y: int, t: int)
    ensures CountAt([x, y], t) == (if x == t then 1 else 0) + if y == t then 1 else 0
  {
    CountSnoc([], x, t);
    CountSnoc([x], y, t);
    assert [] + [x] == [x] && [x] + [y] == [x, y];
  }

  /** With a rate of one, a slot of second 0 counted in second 1 makes two counts there. */
  lemma OneMoreIsNeeded()
    ensures var calls, counts := [0, 1], [1, 1];
      && Interleaved(calls, counts) && GrantsAt(calls, 1, 0) == 1 == GrantsAt(calls, 1, 1)
      && CountIn(calls, 1, 1) == 1 && CountIn(counts, 1, 1) == 2
  {
    CountOfTwo(0, 1, 0);
    CountOfTwo(0, 1, 1);
    CountOfTwo(1, 1, 1);
    GrantsPerSecond([0, 1], 1, 0);
    GrantsPerSecond([0, 1], 1, 1);
    assert CountIn([0, 1], 1, 1) == CountIn([0, 1], 1, 0) + CountAt([0, 1], 1);
    assert CountIn([1, 1], 1, 1) == CountIn([1, 1], 1, 0) + CountAt([1, 1], 1);
  }

  lemma CountsRise(grants: seq<int>, counts: seq<int>, m: nat)
    requires Interleaved(grants, counts) && m < |counts|
    ensures forall i | 0 <= i < m :: counts[i] <= counts[m - 1]
  {
  }

  /** A call gets a slot exactly if fewer calls than the maximal rate came before it in its second. */
  lemma GrantedExactly(calls: seq<int>, maxRate: int, now: int)
    requires ClockOrder(calls + [now]) && maxRate >= 1
    ensures Take(After(calls, maxRate), maxRate, now).1 <==> CountAt(calls, now) < maxRate
  {
    var all := calls + [now];
    assert all[..|calls|] == calls;
    assert forall i | 0 <= i < |calls| :: all[i] == calls[i];
    GrantsPerSecond(calls, maxRate, now);
    GrantsPerSecond(all, maxRate, now);
    CountSnoc(calls, now, now);
  }

  lemma OneMoreCall(calls: seq<int>, maxRate: int, now: int)
    ensures After(calls + [now], maxRate) == Take(After(calls, maxRate), maxRate, now).0
  {
    assert (calls + [now])[..|calls|] == calls;
  }

  lemma ClockOrderSnoc(calls: seq<int>, now: int)
    requires ClockOrder(calls) && now >= 0 && forall i | 0 <= i < |calls| :: calls[i] <= now
    ensures ClockOrder(calls + [now])
  {
  }

  class SimpleRateLimiter {
    const maxRate: int
    var used: int
    var periodEnd: int
    ghost var calls: seq<int>

    ghost predicate Valid()
      reads this
    {
      maxRate >= 1 && Bucket(used, periodEnd) == After(calls, maxRate)
    }

    constructor (ratePerSec: int)
      ensures Valid() && calls == [] && maxRate == if ratePerSec <= 0 then 1 else ratePerSec
    {
      maxRate := if ratePerSec <= 0 then 1 else ratePerSec;
      used, periodEnd := 0, 0;
      calls := [];
    }

    /** The times may come in any order here; what the grants mean is proved for a clock that does not go back. */
    method TakeRateSlotWithTime(now: int) returns (granted: bool)
      requires Valid()
      modifies this
      ensures Valid() && calls == old(calls) + [now]
      ensures granted == Take(After(old(calls), maxRate), maxRate, now).1
    {
      ghost var next := Take(Bucket(used, periodEnd), maxRate, now);
      OneMoreCall(calls, maxRate, now);
      calls := calls + [now];
      assert After(calls, maxRate) == next.0;
      if now >= periodEnd {
        periodEnd := now + RATE_PERIOD;
        used := 1;
        return true;
      }
      if used < maxRate {
        used := used + 1;
        return true;
      }
      return false;
    }

    method TakeRateSlot(clock: Clock) returns (granted: bool)
      requires Valid()
      modifies this, clock
      ensures Valid() && old(clock.now) <= clock.now && calls == old(calls) + [clock.now]
      ensures granted == Take(After(old(calls), maxRate), maxRate, clock.now).1
    {
      var now := clock.Time();
      granted := TakeRateSlotWithTime(now);
    }
  }
}
