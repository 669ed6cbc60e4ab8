/**
 The bookkeeping of the HTTP client (curl_http_client.cc): the schedule queue,
 the running requests, the counters and the enabled flag. Which transfers fail
 or complete, and when, is left to the environment.
 */
module HttpClients {
  import opened RateLimits

  /** Handles are numbered in the order in which requests are taken from the queue. */
  type Handle = nat

  /** What waits, what was taken from the queue so far, what runs, and how many requests were performed. */
  datatype Ledger<T> = Ledger(queue: seq<T>, taken: seq<T>, running: set<Handle>, performed: int)

  /** The handles from `first` up to `last` joined the running ones. */
  ghost predicate Joined(before: set<Handle>, after: set<Handle>, first: Handle, last: Handle) {
    forall h: Handle :: h in after <==> h in before || first <= h < last
  }

  ghost predicate MovedBetween<T>(a: Ledger<T>, b: Ledger<T>, k: nat, started: nat) {
    && started <= k <= |a.queue|
    && b.taken == a.taken + a.queue[..k] && b.queue == a.queue[k..]
    && Joined(a.running, b.running, |a.taken|, |a.taken| + started)
    && b.performed == a.performed + started
  }

  lemma MovedOn<T>(a: Ledger<T>, b: Ledger<T>, c: Ledger<T>, k: nat, started: nat)
    requires MovedBetween(a, b, k, k) && MovedBetween(b, c, 1, started) && started <= 1
    ensures MovedBetween(a, c, k + 1, k + started)
  {
    assert a.queue[..k + 1] == a.queue[..k] + b.queue[..1];
  }

  lemma NothingMoved<T>(a: Ledger<T>)
    ensures MovedBetween(a, a, 0, 0)
  {
  }

  lemma NothingAsked(calls: seq<int>, maxRate: int, since: int)
    ensures AskedBetween(calls, calls, maxRate, since, 0, false)
  {
  }

  /** Call i came in a second that had not had all its calls before. */
  ghost predicate InTime(calls: seq<int>, maxRate: int, i: nat) {
    i < |calls| && CountAt(calls[..i], calls[i]) < maxRate
  }

  /** Since a time, k more calls to the limiter that each got a slot, and maybe one that was refused because its
      second had had all its calls before. */
  ghost predicate AskedBetween(before: seq<int>, after: seq<int>, maxRate: int, since: int, k: nat, refused: bool) {
    && |after| == |before| + k + (if refused then 1 else 0) && after[..|before|] == before
    && (|before| < |after| ==> since <= after[|before|])
    && (forall i | |before| <= i < |after| :: InTime(after, maxRate, i) <==> i < |before| + k)
  }

  lemma AskedOn(a: seq<int>, b: seq<int>, c: seq<int>, maxRate: int, since: int, later: int, k: nat, granted: bool)
    requires AskedBetween(a, b, maxRate, since, k, false) && since <= later
    requires AskedBetween(b, c, maxRate, later, if granted then 1 else 0, !granted)
    ensures AskedBetween(a, c, maxRate, since, if granted then k + 1 else k, !granted)
  {
    forall i | |a| <= i < |b| ensures InTime(c, maxRate, i) {
      assert c[..i] == c[..|b|][..i] && c[i] == c[..|b|][i];
      assert InTime(b, maxRate, i);
    }
    assert c[..|a|] == c[..|b|][..|a|];
  }

  class CurlHttpClient<T(==)> {
    const limiter: SimpleRateLimiter
    /** connection_limit * kRequestScheduleRatio, as an integer. */
    const maxActive: int

    var enabled: bool
    var scheduleQueue: seq<T>
    var running: map<Handle, T>
    var nextHandle: Handle
    var handleCount: int
    var performed: nat

    /** Every request accepted, and those already taken from the queue, in order. */
    ghost var accepted: seq<T>
    ghost var taken: seq<T>
    /** What became of the handles that are not running. */
    ghost var failed: set<Handle>
    ghost var completed: set<Handle>
    /** The seconds in which `performed` was counted up, and those in which the slots used up were granted;
        one granted late in a second may be counted later. */
    ghost var counted: seq<int>
    ghost var starts: seq<int>

    /** No request is lost or doubled on its way through the client. */
    ghost predicate Conserved()
      reads this`accepted, this`taken, this`nextHandle, this`scheduleQueue, this`running, this`failed, this`completed
    {
      && accepted == taken + scheduleQueue && nextHandle == |taken|
      && (forall h: Handle :: h < |taken| <==> h in running || h in failed || h in completed)
      && (forall h | h in running :: running[h] == taken[h] && h !in failed && h !in completed)
      && failed !! completed
    }

    /** Each request performed used up a slot of its own. */
    ghost predicate Paced()
      reads this`starts, this`counted, this`performed, limiter
    {
      && limiter.Valid() && ClockOrder(limiter.calls) && |counted| == performed && Interleaved(starts, counted)
      && forall t {:trigger CountAt(starts, t)} :: CountAt(starts, t) <= GrantsAt(limiter.calls, limiter.maxRate, t)
    }

    ghost predicate Valid()
      reads this, limiter
    {
      Conserved() && Paced()
    }

    /** Nothing happened at a time the clock has not reached. */
    ghost predicate InStepWith(clock: Clock)
      reads this`counted, limiter, clock
    {
      && clock.now >= 0 && (forall i | 0 <= i < |limiter.calls| :: limiter.calls[i] <= clock.now)
      && (forall i | 0 <= i < |counted| :: counted[i] <= clock.now)
    }

    constructor (ratePerSec: int, maxActive: int)
      ensures Valid() && enabled && fresh(limiter) && limiter.calls == []
      ensures scheduleQueue == [] && running == map[] && accepted == [] && performed == 0 && counted == []
    {
      limiter := new SimpleRateLimiter(ratePerSec);
      this.maxActive, enabled := maxActive, true;
      scheduleQueue, running, nextHandle, handleCount, performed := [], map[], 0, 0, 0;
      accepted, taken, failed, completed, starts, counted := [], [], {}, {}, [], [];
    }

    method Disable()
      modifies this`enabled
      ensures !enabled
    {
      enabled := false;
    }

    method Schedule(req: T) returns (ok: bool)
      requires Valid()
      modifies this`scheduleQueue, this`accepted
      ensures Valid() && ok == enabled
      ensures ok ==> scheduleQueue == old(scheduleQueue) + [req] && accepted == old(accepted) + [req]
      ensures !ok ==> scheduleQueue == old(scheduleQueue) && accepted == old(accepted)
    {
      if !enabled {
        return false;
      }
      scheduleQueue, accepted := scheduleQueue + [req], accepted + [req];
      return true;
    }

    ghost function Books(): Ledger<T>
      reads this`scheduleQueue, this`taken, this`running, this`performed
    {
      Ledger(scheduleQueue, taken, running.Keys, performed)
    }

    /** The first k requests of the queue were taken, in order, and the first `started` of them run and are counted. */
    twostate predicate Moved(k: nat, started: nat)
      reads this`scheduleQueue, this`taken, this`running, this`performed
    {
      MovedBetween(old(Books()), Books(), k, started)
    }

    twostate predicate Asked(clock: Clock, k: nat, refused: bool)
      reads limiter
    {
      AskedBetween(old(limiter.calls), limiter.calls, limiter.maxRate, old(clock.now), k, refused)
    }

    /** The queue got shorter if there was something in it and the way was free, or the next call to the limiter
        was refused. */
    twostate predicate Shorter(free: bool)
      reads this`scheduleQueue, limiter
    {
      var first := |old(limiter.calls)|;
      && |scheduleQueue| <= |old(scheduleQueue)| && first <= |limiter.calls| && limiter.calls[..first] == old(limiter.calls)
      && (free && old(scheduleQueue) != [] && |scheduleQueue| == |old(scheduleQueue)| ==>
            first < |limiter.calls| && !InTime(limiter.calls, limiter.maxRate, first))
    }

    /** Moves requests from the queue to the running ones, in order. With the client on it stops only for want of
        a connection, of requests or of a slot in the second in which it asks, or with a request whose handle
        cannot be set up, which is dropped and ends the call with false. */
    method StartNewRequests(clock: Clock) returns (ok: bool)
      requires Valid() && InStepWith(clock)
      modifies this`scheduleQueue, this`running, this`handleCount, this`nextHandle, this`performed
      modifies this`taken, this`failed, this`starts, this`counted, limiter, clock
      ensures Valid() && InStepWith(clock) && old(clock.now) <= clock.now && old(counted) <= counted
      ensures |taken| >= |old(taken)| && (enabled && !ok ==> |taken| > |old(taken)|)
      ensures !enabled || old(handleCount) >= maxActive ==>
              ok == enabled && taken == old(taken) && scheduleQueue == old(scheduleQueue) && performed == old(performed)
      ensures var k := |taken| - |old(taken)|;
              && Moved(k, if enabled && !ok then k - 1 else k) && (k > 0 ==> k <= maxActive - old(handleCount))
              && (Asked(clock, k, false) || Asked(clock, k, true))
      ensures enabled && ok && old(handleCount) < maxActive ==>
              var k := |taken| - |old(taken)|;
              ((scheduleQueue == [] || k == maxActive - old(handleCount)) && Asked(clock, k, false)) || Asked(clock, k, true)
      ensures enabled && old(scheduleQueue) != [] && old(handleCount) < maxActive ==>
              |scheduleQueue| < |old(scheduleQueue)| || Asked(clock, 0, true)
      ensures Shorter(enabled && old(handleCount) < maxActive)
    {
      hide InTime, MovedBetween, AskedBetween;
      NothingMoved(Books());
      NothingAsked(limiter.calls, limiter.maxRate, clock.now);
      if !enabled {
        return false;
      }
      if handleCount >= maxActive {
        return true;
      }
      ok := StartSome(clock, maxActive - handleCount);
    }

    /** The loop of StartNewRequests. */
    method StartSome(clock: Clock, room: int) returns (ok: bool)
      requires Valid() && InStepWith(clock) && room > 0
      modifies this`scheduleQueue, this`running, this`handleCount, this`nextHandle, this`performed
      modifies this`taken, this`failed, this`starts, this`counted, limiter, clock
      ensures Valid() && InStepWith(clock) && old(clock.now) <= clock.now && old(counted) <= counted
      ensures var k := |taken| - |old(taken)|;
              && 0 <= k <= room && (!ok ==> k > 0) && Moved(k, if ok then k else k - 1)
              && if ok then ((scheduleQueue == [] || k == room) && Asked(clock, k, false)) || Asked(clock, k, true)
                 else Asked(clock, k, false)
      ensures old(scheduleQueue) != [] ==> |scheduleQueue| < |old(scheduleQueue)| || Asked(clock, 0, true)
      ensures Shorter(true)
    {
      hide InTime;
      var maxToAdd := room;
      ghost var k: nat := 0;
      ghost var books0, calls0 := Books(), limiter.calls;
      while scheduleQueue != [] && maxToAdd > 0
        invariant Valid() && InStepWith(clock) && old(clock.now) <= clock.now && old(counted) <= counted
        invariant MovedBetween(books0, Books(), k, k)
        invariant AskedBetween(calls0, limiter.calls, limiter.maxRate, old(clock.now), k, false)
        invariant maxToAdd == room - k >= 0
        decreases maxToAdd
      {
        var granted, started := StartNext(clock, books0, calls0, old(clock.now), k);
        if !granted {
          break;
        }
        maxToAdd := maxToAdd - 1;
        k := k + 1;
        if !started {
          return false;
        }
      }
      return true;
    }

    /** One call to the limiter, and one request on its way if a slot is granted. */
    method StartNext(clock: Clock, ghost books0: Ledger<T>, ghost calls0: seq<int>, ghost since: int, ghost k: nat)
      returns (granted: bool, started: bool)
      requires Valid() && InStepWith(clock) && scheduleQueue != [] && since <= clock.now
      requires MovedBetween(books0, Books(), k, k) && AskedBetween(calls0, limiter.calls, limiter.maxRate, since, k, false)
      modifies this`scheduleQueue, this`running, this`handleCount, this`nextHandle, this`performed
      modifies this`taken, this`failed, this`starts, this`counted, limiter, clock
      ensures Valid() && InStepWith(clock) && old(clock.now) <= clock.now && old(counted) <= counted
      ensures AskedBetween(calls0, limiter.calls, limiter.maxRate, since, if granted then k + 1 else k, !granted)
      ensures if granted then MovedBetween(books0, Books(), k + 1, if started then k + 1 else k)
              else MovedBetween(books0, Books(), k, k)
    {
      ghost var books, calls, now := Books(), limiter.calls, clock.now;
      started := false;
      granted := TakeSlot(clock);
      AskedOn(calls0, calls, limiter.calls, limiter.maxRate, since, now, k, granted);
      if granted {
        started := StartFirst(clock);
        MovedOn(books0, books, Books(), k, if started then 1 else 0);
      }
    }

    /** A slot was granted in second t and is not used up yet. */
    ghost predicate SlotFree(t: int)
      reads this`starts, limiter
    {
      CountAt(starts, t) < GrantsAt(limiter.calls, limiter.maxRate, t)
    }

    method TakeSlot(clock: Clock) returns (granted: bool)
      requires Valid() && InStepWith(clock)
      modifies limiter, clock
      ensures Valid() && InStepWith(clock) && old(clock.now) <= clock.now
      ensures Asked(clock, if granted then 1 else 0, !granted)
      ensures granted ==> SlotFree(clock.now)
    {
      ghost var before := limiter.calls;
      granted := limiter.TakeRateSlot(clock);
      ClockOrderSnoc(before, clock.now);
      GrantedExactly(before, limiter.maxRate, clock.now);
      assert limiter.calls[..|limiter.calls| - 1] == before;
      assert CountAt(starts, clock.now) <= GrantsAt(before, limiter.maxRate, clock.now);
      forall t ensures GrantsAt(before, limiter.maxRate, t) <= GrantsAt(limiter.calls, limiter.maxRate, t) {
      }
    }

    /** Takes the oldest request from the queue and starts it, unless its handle fails. Time passes on the way. */
    method StartFirst(clock: Clock) returns (started: bool)
      requires Valid() && InStepWith(clock) && SlotFree(clock.now) && scheduleQueue != []
      modifies this`scheduleQueue, this`running, this`handleCount, this`nextHandle, this`performed
      modifies this`taken, this`failed, this`starts, this`counted, clock
      ensures Valid() && InStepWith(clock) && old(clock.now) <= clock.now
      ensures Moved(1, if started then 1 else 0)
      ensures counted == old(counted) + if started then [clock.now] else []
    {
      ghost var granted := clock.now;
      started := TakeFirst();
      var now := clock.Time();
      if started {
        Count(granted, now);
      }
    }

    method TakeFirst() returns (started: bool)
      requires Conserved() && scheduleQueue != []
      modifies this`scheduleQueue, this`running, this`handleCount, this`nextHandle, this`taken, this`failed
      ensures Conserved()
      ensures var s := if started then 1 else 0; MovedBetween(old(Books()), Books().(performed := performed + s), 1, s)
    {
      var req := scheduleQueue[0];
      var h := nextHandle;
      nextHandle := h + 1;
      scheduleQueue, taken := scheduleQueue[1..], taken + [req];
      started := *;
      handleCount := *;
      if started {
        running := running[h := req];
      } else {
        failed := failed + {h};
      }
    }

    method Count(ghost granted: int, ghost now: int)
      requires Paced() && SlotFree(granted) && granted <= now && forall i | 0 <= i < |counted| :: counted[i] <= granted
      modifies this`performed, this`starts, this`counted
      ensures Paced() && counted == old(counted) + [now] && performed == old(performed) + 1
    {
      InterleavedSnoc(starts, counted, granted, now);
      performed := performed + 1;
      starts, counted := starts + [granted], counted + [now];
      forall t ensures CountAt(starts, t) <= GrantsAt(limiter.calls, limiter.maxRate, t) {
        CountSnoc(old(starts), granted, t);
        assert CountAt(old(starts), t) <= GrantsAt(limiter.calls, limiter.maxRate, t);
      }
    }

    /** A transfer is done: its handle is removed from the running ones. */
    method Complete(h: Handle)
      requires Valid() && h in running
      modifies this`running, this`completed, this`handleCount
      ensures Valid() && running == old(running) - {h}
    {
      running := running - {h};
      completed := completed + {h};
      handleCount := *;
    }

    /** Of the slots granted in any n seconds at most n times the maximal rate are used up by requests performed. */
    lemma GrantsHold(from: int, n: nat)
      requires Valid()
      ensures CountIn(starts, from, n) <= n * limiter.maxRate
    {
      forall t ensures CountAt(starts, t) <= limiter.maxRate {
        GrantsPerSecond(limiter.calls, limiter.maxRate, t);
      }
      WindowBound(starts, limiter.maxRate, from, n);
    }

    /** Over any n seconds `performed` rises by at most n times the maximal rate, and one more for a slot that was
        granted before, however often and whenever StartNewRequests is called. */
    lemma RateHolds(from: int, n: nat)
      requires Valid()
      ensures |counted| == performed && CountIn(counted, from, n) <= n * limiter.maxRate + 1
    {
      GrantsHold(from, n);
      CountsInWindow(starts, counted, from, n);
    }
  }
}
