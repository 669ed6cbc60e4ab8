/**
 The shutdown protocol of the scanner (plusfish.cc): two flags and a deadline,
 moved by signals and by the check at the end of every turn of the main loop.
 */
module Shutdowns {

  datatype Signal = SigInt | SigTerm | OtherSignal

  datatype Control = Control(enabled: bool, clientEnabled: bool, deadline: int)

  /** A check compares the deadline with `now` and, when it starts a drain, reads the clock again. */
  datatype Event = Check(now: int, drainAt: int) | Signalled(signal: Signal, drainAt: int)

  function Graceful(c: Control, now: int, grace: int): Control {
    c.(clientEnabled := false, deadline := now + grace)
  }

  function Immediate(c: Control): Control {
    c.(clientEnabled := false, enabled := false)
  }

  /** KeepRunningOrShutdown: whether to go on, and the new state. */
  function Checked(c: Control, now: int, drainAt: int, grace: int): (bool, Control) {
    if !c.enabled then (false, c)
    else if c.deadline > now then (true, c)
    else if c.clientEnabled then (true, Graceful(c, drainAt, grace))
    else (false, Immediate(c))
  }

  /** SignalHandler: the first interrupt drains, the second stops. */
  function Handled(c: Control, signal: Signal, now: int, grace: int): Control {
    match signal
    case SigInt => if c.clientEnabled then Graceful(c, now, grace) else Immediate(c)
    case SigTerm => Immediate(c)
    case OtherSignal => c
  }

  function Next(c: Control, e: Event, grace: int): Control {
    match e
    case Check(now, drainAt) => Checked(c, now, drainAt, grace).1
    case Signalled(signal, drainAt) => Handled(c, signal, drainAt, grace)
  }

  function Exec(c: Control, events: seq<Event>, grace: int): Control {
    if events == [] then c else Next(Exec(c, events[..|events| - 1], grace), events[|events| - 1], grace)
  }

  lemma ExecSnoc(c: Control, events: seq<Event>, e: Event, grace: int)
    ensures Exec(c, events + [e], grace) == Next(Exec(c, events, grace), e, grace)
  {
    assert (events + [e])[..|events|] == events;
  }

  /** The signals among some events, and how many checks there are. */
  function SignalsOf(events: seq<Event>): seq<Signal> {
    if events == [] then [] else
      var front, last := SignalsOf(events[..|events| - 1]), events[|events| - 1];
      if last.Signalled? then front + [last.signal] else front
  }

  function ChecksOf(events: seq<Event>): nat {
    if events == [] then 0 else ChecksOf(events[..|events| - 1]) + if events[|events| - 1].Check? then 1 else 0
  }

  lemma SignalsSnoc(events: seq<Event>, e: Event)
    ensures SignalsOf(events + [e]) == SignalsOf(events) + if e.Signalled? then [e.signal] else []
    ensures ChecksOf(events + [e]) == ChecksOf(events) + if e.Check? then 1 else 0
  {
    assert (events + [e])[..|events|] == events;
  }

  /** When an event begins; it ends when the clock was read last. */
  function Begin(e: Event): int {
    if e.Check? then e.now else e.drainAt
  }

  /** The events in the order of the clock, the last one not after `now`. */
  predicate Timed(events: seq<Event>, now: int) {
    && (forall i | 0 <= i < |events| :: Begin(events[i]) <= events[i].drainAt <= now)
    && (forall i, j | 0 <= i < j < |events| :: events[i].drainAt <= Begin(events[j]))
  }

  lemma TimedSnoc(events: seq<Event>, now: int, e: Event, later: int)
    requires Timed(events, now) && now <= Begin(e) <= e.drainAt <= later
    ensures Timed(events + [e], later)
  {
  }

  // ---------------------------------------------------------------- phases

  datatype Phase = Running | Draining | Stopped

  function PhaseOf(c: Control): Phase {
    if !c.enabled then Stopped else if c.clientEnabled then Running else Draining
  }

  function Rank(p: Phase): nat {
    match p
    case Running => 0
    case Draining => 1
    case Stopped => 2
  }

  /** The scanner is only switched off together with its client. */
  predicate Sound(c: Control) {
    c.clientEnabled ==> c.enabled
  }

  /** Whatever signals and checks arrive, in whatever order: the scan only moves forward through
      running, draining and stopped, and the client is never switched on again. */
  lemma {:induction false} OnlyForward(c: Control, events: seq<Event>, k: nat, grace: int)
    requires Sound(c) && k <= |events|
    ensures Sound(Exec(c, events, grace)) && Sound(Exec(c, events[..k], grace))
    ensures Rank(PhaseOf(Exec(c, events[..k], grace))) <= Rank(PhaseOf(Exec(c, events, grace)))
    ensures Exec(c, events, grace).clientEnabled ==> Exec(c, events[..k], grace).clientEnabled
    decreases |events|
  {
    if k == |events| {
      assert events[..k] == events;
      if k > 0 {
        OnlyForward(c, events[..k - 1], 0, grace);
      }
    } else {
      var front := events[..|events| - 1];
      assert front[..k] == events[..k];
      OnlyForward(c, front, k, grace);
    }
  }

  /** Once the client is off, the deadline never changes again. */
  lemma {:induction false} DeadlineIsFinal(c: Control, events: seq<Event>, grace: int)
    requires !c.clientEnabled
    ensures !Exec(c, events, grace).clientEnabled && Exec(c, events, grace).deadline == c.deadline
  {
    if events != [] {
      DeadlineIsFinal(c, events[..|events| - 1], grace);
    }
  }

  /** The deadline in force while draining was set by the one event that started the draining, and
      lies the grace period after it. */
  lemma {:induction false} DeadlineSetOnce(c: Control, events: seq<Event>, grace: int) returns (k: nat)
    requires Sound(c) && PhaseOf(c) == Running && PhaseOf(Exec(c, events, grace)) == Draining
    ensures k < |events|
    ensures PhaseOf(Exec(c, events[..k], grace)) == Running
    ensures PhaseOf(Exec(c, events[..k + 1], grace)) == Draining
    ensures Exec(c, events, grace).deadline == events[k].drainAt + grace
  {
    var front := events[..|events| - 1];
    OnlyForward(c, events, |front|, grace);
    if PhaseOf(Exec(c, front, grace)) == Running {
      k := |front|;
      assert events[..k + 1] == events;
    } else {
      k := DeadlineSetOnce(c, front, grace);
      assert front[..k] == events[..k] && front[..k + 1] == events[..k + 1];
    }
  }

  /** After the deadline of a drain has passed, every check says stop, at any later point of the run. */
  lemma {:induction false} ChecksStopAfterDeadline(c: Control, events: seq<Event>, now: int, drainAt: int, grace: int)
    requires !c.clientEnabled && now >= c.deadline
    ensures !Checked(Exec(c, events, grace), now, drainAt, grace).0
    ensures PhaseOf(Checked(Exec(c, events, grace), now, drainAt, grace).1) == Stopped
  {
    DeadlineIsFinal(c, events, grace);
  }

  /** Two checks end a scan whose deadline has passed, whatever happens in between, if the second
      comes the grace period after the first. */
  lemma {:induction false} TwoChecksEnd(c: Control, first: Event, events: seq<Event>, second: Event, grace: int)
    requires first.Check? && second.Check? && first.drainAt >= first.now >= c.deadline && grace >= 0
    requires second.now >= first.drainAt + grace
    ensures var c' := Exec(Next(c, first, grace), events, grace);
            !Checked(c', second.now, second.drainAt, grace).0
  {
    if c.enabled {
      DeadlineIsFinal(Next(c, first, grace), events, grace);
    } else {
      StaysStopped(c, events, grace);
    }
  }

  lemma {:induction false} StaysStopped(c: Control, events: seq<Event>, grace: int)
    requires !c.enabled
    ensures !Exec(c, events, grace).enabled
  {
    if events != [] {
      StaysStopped(c, events[..|events| - 1], grace);
    }
  }

  // ---------------------------------------------------------------- which events drain, and which stop

  /** An event that leaves a running scan alone: any other signal, or a check ahead of the deadline. */
  predicate Harmless(e: Event, deadline: int) {
    match e
    case Check(now, _) => now < deadline
    case Signalled(signal, _) => signal == OtherSignal
  }

  predicate Terminates(e: Event) {
    e.Signalled? && e.signal == SigTerm
  }

  /** A running scan keeps running exactly as long as nothing but harmless events arrive. */
  lemma {:induction false} RunsExactly(c: Control, events: seq<Event>, grace: int)
    requires PhaseOf(c) == Running
    ensures PhaseOf(Exec(c, events, grace)) == Running <==> forall i | 0 <= i < |events| :: Harmless(events[i], c.deadline)
    ensures PhaseOf(Exec(c, events, grace)) == Running ==> Exec(c, events, grace) == c
  {
    if events != [] {
      var n := |events| - 1;
      RunsExactly(c, events[..n], grace);
      OnlyForward(c, events, n, grace);
      assert forall i | 0 <= i < n :: events[..n][i] == events[i];
    }
  }

  /** The event that ends the running of a scan without stopping it: the first interrupt, or a check at the deadline. */
  ghost predicate Drains(c: Control, events: seq<Event>, j: nat) {
    && j < |events| && (forall i | 0 <= i < j :: Harmless(events[i], c.deadline))
    && !Harmless(events[j], c.deadline) && !Terminates(events[j])
  }

  /** What stops a scan that drains: the next interrupt, or a check at the deadline of the drain. */
  ghost predicate Stops(c: Control, events: seq<Event>, j: nat, k: nat, grace: int) {
    && Drains(c, events, j) && j < k < |events|
    && !Harmless(events[k], events[j].drainAt + grace)
  }

  ghost predicate Ended(c: Control, events: seq<Event>, grace: int) {
    || (exists k: nat :: k < |events| && Terminates(events[k]))
    || (exists j: nat, k: nat :: Stops(c, events, j, k, grace))
  }

  lemma DrainingSince(c: Control, events: seq<Event>, grace: int) returns (j: nat)
    requires PhaseOf(c) == Running && PhaseOf(Exec(c, events, grace)) == Draining
    ensures Drains(c, events, j) && Exec(c, events, grace).deadline == events[j].drainAt + grace
    ensures forall k: nat | Drains(c, events, k) :: k == j
  {
    j := DeadlineSetOnce(c, events, grace);
    RunsExactly(c, events[..j], grace);
    RunsExactly(c, events[..j + 1], grace);
    assert forall i | 0 <= i < j :: events[..j][i] == events[i] && Harmless(events[..j][i], c.deadline);
    assert events[..j + 1][..j] == events[..j];
    assert Exec(c, events[..j + 1], grace) == Next(c, events[j], grace);
  }

  lemma EndedFront(c: Control, events: seq<Event>, n: nat, grace: int)
    requires n <= |events| && Ended(c, events[..n], grace)
    ensures Ended(c, events, grace)
  {
    var front := events[..n];
    if k: nat :| k < |front| && Terminates(front[k]) {
      assert Terminates(events[k]);
    } else {
      var j: nat, k: nat :| Stops(c, front, j, k, grace);
      assert forall i | 0 <= i <= k :: events[i] == front[i];
      assert Stops(c, events, j, k, grace);
    }
  }

  lemma EndedBack(c: Control, events: seq<Event>, n: nat, grace: int)
    requires |events| == n + 1 && Ended(c, events, grace)
    ensures Ended(c, events[..n], grace) || Terminates(events[n])
         || exists j: nat :: Drains(c, events[..n], j) && !Harmless(events[n], events[j].drainAt + grace)
  {
    var front := events[..n];
    if k: nat :| k < |events| && Terminates(events[k]) {
      if k < n {
        assert Terminates(front[k]);
      }
    } else {
      var j: nat, k: nat :| Stops(c, events, j, k, grace);
      assert forall i | 0 <= i < n :: events[i] == front[i];
      assert Drains(c, front, j);
      if k < n {
        assert Stops(c, front, j, k, grace);
      }
    }
  }

  /** A scan that ran is stopped exactly if SIGTERM came, or if something else ended its running and after that came
      an interrupt, or a check at the deadline of the drain. */
  lemma {:induction false} StoppedExactly(c: Control, events: seq<Event>, grace: int)
    requires PhaseOf(c) == Running
    ensures PhaseOf(Exec(c, events, grace)) == Stopped <==> Ended(c, events, grace)
  {
    if events != [] {
      var n := |events| - 1;
      var front, last := events[..n], events[n];
      StoppedExactly(c, front, grace);
      if PhaseOf(Exec(c, front, grace)) == Stopped {
        EndedFront(c, events, n, grace);
      } else {
        LastEvent(c, events, n, grace);
      }
    }
  }

  lemma LastEvent(c: Control, events: seq<Event>, n: nat, grace: int)
    requires PhaseOf(c) == Running && |events| == n + 1
    requires PhaseOf(Exec(c, events[..n], grace)) != Stopped && !Ended(c, events[..n], grace)
    ensures PhaseOf(Exec(c, events, grace)) == Stopped <==> Ended(c, events, grace)
  {
    var front, last := events[..n], events[n];
    if Ended(c, events, grace) {
      EndedBack(c, events, n, grace);
    }
    if PhaseOf(Exec(c, front, grace)) == Draining {
      var j := DrainingSince(c, front, grace);
      assert forall i | 0 <= i < n :: events[i] == front[i];
      assert Drains(c, events, j);
      if !Harmless(last, events[j].drainAt + grace) {
        assert Stops(c, events, j, n, grace);
      }
    } else {
      RunsExactly(c, front, grace);
      forall j: nat ensures !Drains(c, front, j) {
      }
    }
    if Terminates(last) {
      assert Terminates(events[n]);
    }
  }

  /** One interrupt is enough to switch the client off, a second one or SIGTERM to stop the scanner, whatever
      state they find. */
  lemma {:induction false} SignalsCount(c: Control, events: seq<Event>, grace: int)
    requires Sound(c)
    ensures Sound(Exec(c, events, grace))
    ensures Exec(c, events, grace).clientEnabled ==> SigInt !in SignalsOf(events)
    ensures Exec(c, events, grace).enabled ==>
            SigTerm !in SignalsOf(events) && multiset(SignalsOf(events))[SigInt] <= 1
  {
    if events != [] {
      SignalsCount(c, events[..|events| - 1], grace);
    }
  }
}
