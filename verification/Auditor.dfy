/**
 The auditor (audit/selective_auditor.cc, audit/security_check_runner.cc): a
 chain of security checks, and runners that walk it, one per tested request.
 A runner schedules the requests of a check, counts the responses that come
 back in any order, and moves on when it has them all.
 */
module Auditor {

  /** What CreateRequests does for a tested request. */
  datatype Creation = NoRequests | Created(count: nat)

  class SecurityCheck {
    const serial: bool
    /** The requests the check makes for each tested request it has any for. */
    const made: map<int, nat>
    /** The tested requests that already test positive themselves (EvaluateSingle). */
    const positive: set<int>
    var next: SecurityCheck?
    /** Its place in the chain, once added. */
    ghost var position: int

    constructor (serial: bool, made: map<int, nat>, positive: set<int>)
      ensures this.serial == serial && this.made == made && this.positive == positive && next == null
    {
      this.serial, this.made, this.positive, next := serial, made, positive, null;
    }

    function Creates(tested: int): Creation {
      if tested in made then Created(made[tested]) else NoRequests
    }

    /** The check makes requests for a tested request, and it is not skipped because that tests positive itself. */
    predicate Applies(tested: int) {
      tested in made && !(serial && tested in positive)
    }

    /** If the check makes requests at all, it makes at least one. */
    ghost predicate Productive() {
      forall t | t in made :: made[t] > 0
    }
  }

  /** A request made by a runner at a position of the chain, the index-th of its check. */
  datatype TestRequest = TestRequest(runner: SecurityCheckRunner, position: nat, index: nat)

  /** The client as the auditor sees it: scheduled requests are outstanding until answered. */
  class HttpClient {
    var enabled: bool
    var outstanding: set<TestRequest>

    constructor ()
      ensures enabled && outstanding == {}
    {
      enabled, outstanding := true, {};
    }

    method Schedule(req: TestRequest) returns (ok: bool)
      modifies this`outstanding
      ensures ok == enabled && outstanding == if ok then old(outstanding) + {req} else old(outstanding)
    {
      if !enabled {
        return false;
      }
      outstanding := outstanding + {req};
      return true;
    }
  }

  /** What can happen to the auditor: a request is handed to it, a response comes in for any of the
      outstanding requests, or the client is switched off. */
  datatype Step = Test(tested: int) | Respond | SwitchOff

  /** How many of the first n steps hand a request to the auditor. */
  function TestsAmong(steps: seq<Step>, n: nat): nat
    requires n <= |steps|
  {
    if n == 0 then 0 else TestsAmong(steps, n - 1) + if steps[n - 1].Test? then 1 else 0
  }

  /** What a runner did: the checks tried, the positions answered in full, the batches evaluated, and how many
      evaluations that took. */
  datatype Departure = Departure(tested: int, walk: seq<SecurityCheck>, answered: set<int>, evaluated: set<int>, evaluations: nat)

  /** Exactly the checks that apply were answered in full, and exactly the batches among them evaluated, with as
      many evaluations as there are such batches: each was evaluated once. */
  ghost predicate Complete(d: Departure) {
    && (forall p: nat | p < |d.walk| :: p in d.answered <==> d.walk[p].Applies(d.tested))
    && (forall p: nat | p < |d.walk| :: p in d.evaluated <==> d.walk[p].Applies(d.tested) && !d.walk[p].serial)
    && (forall p | p in d.evaluated :: 0 <= p < |d.walk|)
    && d.evaluations == |d.evaluated|
  }

  /** Only checks that apply are answered, and a batch is evaluated when it is answered. */
  ghost predicate Scored(walk: seq<SecurityCheck>, tested: int, answered: set<int>, evaluated: set<int>) {
    && (forall p | p in answered :: 0 <= p < |walk| && walk[p].Applies(tested))
    && (forall p :: p in evaluated <==> p in answered && !walk[p].serial)
  }

  lemma OneMoreAnswered(walk: seq<SecurityCheck>, tested: int, answered: set<int>, evaluated: set<int>, p: nat)
    requires Scored(walk, tested, answered, evaluated) && p < |walk| && walk[p].Applies(tested)
    ensures Scored(walk, tested, answered + {p}, if walk[p].serial then evaluated else evaluated + {p})
  {
  }

  class SecurityCheckRunner {
    const tested: int
    var check: SecurityCheck
    var finished: bool
    var completed: nat
    var requests: seq<TestRequest>
    /** How many checks were tried; it tells the requests of different checks apart. */
    var tried: nat

    /** The checks tried so far, in order; the last one is `check`. */
    ghost var walked: seq<SecurityCheck>
    /** The requests scheduled and not answered, and how many the client refused. */
    ghost var waiting: set<TestRequest>
    ghost var refused: nat
    /** The positions whose requests were all answered, those evaluated as a batch, and how many evaluations there were. */
    ghost var answered: set<int>
    ghost var evaluated: set<int>
    ghost var evaluations: nat

    constructor (check: SecurityCheck, tested: int)
      ensures this.check == check && this.tested == tested && Idle()
      ensures walked == [] && answered == {} && evaluated == {} && evaluations == 0
    {
      this.check, this.tested := check, tested;
      finished, completed, requests, tried := false, 0, [], 0;
      walked, waiting, refused, answered, evaluated, evaluations := [], {}, 0, {}, {}, 0;
    }

    /** Ready to run `check`. */
    ghost predicate Idle()
      reads this
    {
      requests == [] && waiting == {} && completed == 0 && refused == 0 && !finished && tried == |walked|
    }

    /** Every request of the check is answered, awaited or was refused, and not all are answered. */
    ghost predicate Busy()
      reads this
    {
      && !finished && |requests| == completed + |waiting| + refused && tried == |walked|
      && (requests != [] ==> completed < |requests|)
      && (forall q | q in waiting :: q.runner == this && q.position + 1 == |walked|)
    }

    /** Every batch answered was evaluated, and none twice. */
    ghost predicate Evaluations()
      reads this`walked, this`answered, this`evaluated, this`evaluations
    {
      Scored(walked, tested, answered, evaluated) && evaluations == |evaluated|
    }

    /** Of the first n checks exactly those that apply were answered. */
    ghost predicate AnsweredUpTo(n: nat)
      reads this`walked, this`answered
    {
      n <= |walked| && forall p: nat | p < n :: p in answered <==> walked[p].Applies(tested)
    }

    /** What a runner has done, for the record. */
    ghost function Record(): Departure
      reads this`walked, this`answered, this`evaluated, this`evaluations
    {
      Departure(tested, walked, answered, evaluated, evaluations)
    }

    /** SecurityCheckInterface::CreateRequests for this runner. */
    method CreateRequests() returns (ok: bool)
      requires requests == []
      modifies this`requests
      ensures ok == check.Creates(tested).Created?
      ensures |requests| == if ok then check.Creates(tested).count else 0
      ensures forall i | 0 <= i < |requests| :: requests[i] == TestRequest(this, tried, i)
    {
      match check.Creates(tested) {
        case NoRequests => return false;
        case Created(count) =>
          for i := 0 to count
            invariant |requests| == i && forall j | 0 <= j < i :: requests[j] == TestRequest(this, tried, j)
          {
            requests := requests + [TestRequest(this, tried, i)];
          }
          return true;
      }
    }

    method Run(client: HttpClient) returns (ok: bool)
      requires Idle() && Evaluations()
      modifies this`requests, this`tried, this`walked, this`waiting, this`refused, client`outstanding
      ensures walked == old(walked) + [check] && Evaluations()
      ensures client.outstanding == old(client.outstanding) + waiting
      ensures ok <==> && check.Creates(tested).Created? && !(check.serial && tested in check.positive)
                      && (client.enabled || check.serial || check.Creates(tested).count == 0)
      ensures ok ==> Busy() && |requests| == check.Creates(tested).count
                     && refused == if client.enabled then 0 else |requests|
      ensures !ok ==> waiting == {} && tried == |walked|
    {
      ok := CreateRequests();
      tried := tried + 1;
      NoteTried();
      if !ok {
        return false;
      }
      if check.serial && tested in check.positive {
        return false;
      }
      ok := ScheduleAll(client);
    }

    ghost method NoteTried()
      requires Evaluations()
      modifies this`walked
      ensures walked == old(walked) + [check] && Evaluations()
    {
      walked := walked + [check];
    }

    /** The scheduling loop of Run: with the client switched off, a batch check gives up. */
    method ScheduleAll(client: HttpClient) returns (ok: bool)
      requires waiting == {} && refused == 0
      requires forall i | 0 <= i < |requests| :: requests[i].runner == this && requests[i].position + 1 == tried && requests[i].index == i
      modifies this`waiting, this`refused, client`outstanding
      ensures ok <==> client.enabled || check.serial || requests == []
      ensures client.outstanding == old(client.outstanding) + waiting
      ensures forall q | q in waiting :: q.runner == this && q.position + 1 == tried
      ensures ok ==> refused == (if client.enabled then 0 else |requests|) && |waiting| == |requests| - refused
      ensures !ok ==> waiting == {}
    {
      for i := 0 to |requests|
        invariant !client.enabled ==> waiting == {} && refused == i && (i > 0 ==> check.serial)
        invariant client.enabled ==> refused == 0 && |waiting| == i
        invariant forall q | q in waiting :: q.runner == this && q.position + 1 == tried && q.index < i
        invariant client.outstanding == old(client.outstanding) + waiting
      {
        var scheduled := client.Schedule(requests[i]);
        if scheduled {
          waiting := waiting + {requests[i]};
        } else {
          refused := refused + 1;
          if !check.serial {
            return false;
          }
        }
      }
      return true;
    }

    method SetNextCheck() returns (ok: bool)
      requires waiting == {} && tried == |walked|
      modifies this`check, this`requests, this`finished, this`completed, this`refused
      ensures ok <==> old(check).next != null
      ensures ok ==> check == old(check).next && Idle()
      ensures !ok ==> unchanged(this)
    {
      if check.next == null {
        return false;
      }
      check := check.next;
      requests, finished, completed := [], false, 0;
      refused := 0;
      return true;
    }

    /** Evaluate of the whole batch: all responses are there, and it was not evaluated before. */
    method Evaluate()
      requires |walked| > 0 && walked[|walked| - 1] == check && !check.serial
      requires waiting == {} && refused == 0 && completed == |requests|
      requires |walked| - 1 !in evaluated && evaluations == |evaluated|
      modifies this`evaluated, this`evaluations
      ensures evaluated == old(evaluated) + {|walked| - 1} && evaluations == |evaluated|
    {
      evaluated := evaluated + {|walked| - 1};
      evaluations := evaluations + 1;
    }

    /** RequestCallback up to the call of the finished callback; says whether the check is done. */
    method CountResponse(q: TestRequest) returns (done: bool)
      requires Busy() && Evaluations() && q in waiting && check.Applies(tested)
      requires |walked| > 0 && walked[|walked| - 1] == check && |walked| - 1 !in answered
      modifies this`completed, this`finished, this`waiting, this`answered, this`evaluated, this`evaluations
      ensures waiting == old(waiting) - {q} && completed == old(completed) + 1 && Evaluations()
      ensures done == finished && (done <==> completed == |requests|)
      ensures !done ==> Busy() && answered == old(answered)
      ensures done ==> waiting == {} && tried == |walked| && refused == 0 && answered == old(answered) + {|walked| - 1}
    {
      completed := completed + 1;
      assert |waiting| == |waiting - {q}| + 1;
      waiting := waiting - {q};
      if completed == |requests| {
        Finish();
      }
      return finished;
    }

    /** The last response is there. */
    method Finish()
      requires Evaluations() && check.Applies(tested) && waiting == {} && refused == 0 && completed == |requests|
      requires |walked| > 0 && walked[|walked| - 1] == check && |walked| - 1 !in answered
      modifies this`finished, this`answered, this`evaluated, this`evaluations
      ensures finished && answered == old(answered) + {|walked| - 1} && Evaluations()
    {
      finished := true;
      ghost var p := |walked| - 1;
      OneMoreAnswered(walked, tested, answered, evaluated, p);
      if !check.serial {
        Evaluate();
      }
      answered := answered + {p};
    }
  }

  /** The checks that are left to try among n, counting the one in progress. */
  ghost function Weight(d: seq<nat>, n: nat): nat {
    if d == [] then 0 else (if d[0] <= n then n + 1 - d[0] else 0) + Weight(d[1..], n)
  }

  lemma {:induction false} WeightFalls(before: seq<nat>, after: nat, k: nat, n: nat)
    requires k < |before| && before[k] <= after <= n
    ensures Weight(before[k := after], n) <= Weight(before, n) - (after - before[k])
  {
    if k == 0 {
      assert before[k := after][1..] == before[1..];
    } else {
      WeightFalls(before[1..], after, k - 1, n);
      assert before[k := after][1..] == before[1..][k - 1 := after];
    }
  }

  lemma {:induction false} WeightErase(d: seq<nat>, i: nat, n: nat)
    requires i < |d| && d[i] <= n
    ensures Weight(d[..i] + d[i + 1..], n) < Weight(d, n)
  {
    if i == 0 {
      assert d[..0] + d[1..] == d[1..];
    } else {
      WeightErase(d[1..], i - 1, n);
      assert (d[..i] + d[i + 1..])[1..] == d[1..][..i - 1] + d[1..][i..];
    }
  }

  ghost predicate AllProductive(checks: seq<SecurityCheck>) {
    forall i | 0 <= i < |checks| :: checks[i].Productive()
  }

  /** The list holds the members of the set, once each. */
  ghost predicate Lists(rs: seq<SecurityCheckRunner>, members: set<SecurityCheckRunner>) {
    && (forall i | 0 <= i < |rs| :: rs[i] in members)
    && (forall r | r in members :: r in rs)
    && (forall i, j | 0 <= i < j < |rs| :: rs[i] != rs[j])
  }

  lemma ListsMore(rs: seq<SecurityCheckRunner>, members: set<SecurityCheckRunner>, r: SecurityCheckRunner)
    requires Lists(rs, members) && r !in members
    ensures Lists(rs + [r], members + {r})
  {
  }

  lemma ListsLess(rs: seq<SecurityCheckRunner>, members: set<SecurityCheckRunner>, k: nat)
    requires Lists(rs, members) && k < |rs|
    ensures Lists(rs[..k] + rs[k + 1..], members - {rs[k]})
  {
    var rest := rs[..k] + rs[k + 1..];
    assert forall i | 0 <= i < |rest| :: rest[i] == rs[if i < k then i else i + 1];
    forall r | r in members - {rs[k]}
      ensures r in rest
    {
      var i :| 0 <= i < |rs| && rs[i] == r;
      assert rest[if i < k then i else i - 1] == r;
    }
  }

  lemma OneGone<T>(before: set<T>, after: set<T>, x: T)
    requires x in before && after <= before <= after + {x}
    ensures |before| == |after| + if x in after then 0 else 1
  {
    if x in after {
      assert before == after;
    } else {
      assert before == after + {x};
    }
  }

  /** A runner that left at a step, and whether the client was on then. */
  datatype Leaving = Leaving(record: Departure, step: nat, clientOn: bool)

  /** All of them tried the whole chain, evaluated what was answered, and got all answers if the client was on. */
  ghost predicate AllComplete(checks: seq<SecurityCheck>, left: seq<Leaving>) {
    forall l | l in left ::
      && l.record.walk == checks && Scored(checks, l.record.tested, l.record.answered, l.record.evaluated)
      && l.record.evaluations == |l.record.evaluated| && (l.clientOn ==> Complete(l.record))
  }

  ghost predicate AllAt(left: seq<Leaving>, step: nat, clientOn: bool) {
    forall l | l in left :: l.step == step && l.clientOn == clientOn
  }

  /** The client is on until the first step that switches it off. */
  predicate StillOn(steps: seq<Step>, n: nat, on: bool)
    requires n <= |steps|
  {
    if n == 0 then on else StillOn(steps, n - 1, on) && !steps[n - 1].SwitchOff?
  }

  lemma StillOnNext(steps: seq<Step>, n: nat, on: bool)
    requires n < |steps|
    ensures StillOn(steps, n + 1, on) == (StillOn(steps, n, on) && !steps[n].SwitchOff?)
  {
  }

  ghost predicate AllDated(left: seq<Leaving>, steps: seq<Step>, n: nat, on: bool)
    requires n <= |steps|
  {
    forall l | l in left :: l.step < n && l.clientOn == StillOn(steps, l.step, on)
  }

  ghost function TestedBy(rs: set<SecurityCheckRunner>): set<int> {
    set r | r in rs :: r.tested
  }

  ghost function TestedIn(left: seq<Leaving>): set<int> {
    set l | l in left :: l.record.tested
  }

  ghost function TestsOf(steps: seq<Step>, n: nat): set<int>
    requires n <= |steps|
  {
    if n == 0 then {} else TestsOf(steps, n - 1) + if steps[n - 1].Test? then {steps[n - 1].tested} else {}
  }

  /** Runners listed before, and those new ones that tested `ids`, are listed after or left. */
  ghost predicate Balanced(before: set<SecurityCheckRunner>, after: set<SecurityCheckRunner>, left: seq<Leaving>, begun: nat, ids: set<int>) {
    |after| + |left| == |before| + begun && TestedBy(after) + TestedIn(left) == TestedBy(before) + ids
  }

  lemma NothingMoved(rs: set<SecurityCheckRunner>)
    ensures Balanced(rs, rs, [], 0, {})
  {
  }

  lemma OneListed(rs: set<SecurityCheckRunner>, r: SecurityCheckRunner)
    requires r !in rs
    ensures Balanced(rs, rs + {r}, [], 1, {r.tested})
  {
    assert TestedBy(rs + {r}) == TestedBy(rs) + {r.tested};
  }

  lemma OneLeftAtOnce(rs: set<SecurityCheckRunner>, l: Leaving)
    ensures Balanced(rs, rs, [l], 1, {l.record.tested})
  {
    assert TestedIn([l]) == {l.record.tested};
  }

  lemma OneLeft(before: set<SecurityCheckRunner>, after: set<SecurityCheckRunner>, r: SecurityCheckRunner, l: Leaving)
    requires r in before && after <= before <= after + {r} && l.record.tested == r.tested
    ensures Balanced(before, after, if r in after then [] else [l], 0, {})
  {
    OneGone(before, after, r);
    if r in after {
      assert before == after;
    } else {
      assert TestedIn([l]) == {r.tested};
      assert before == after + {r};
      assert TestedBy(after + {r}) == TestedBy(after) + {r.tested};
    }
  }

  lemma BalancedTwice(before: set<SecurityCheckRunner>, mid: set<SecurityCheckRunner>, after: set<SecurityCheckRunner>,
                      left: seq<Leaving>, more: seq<Leaving>, n: nat, m: nat, ids: set<int>, new_: set<int>)
    requires Balanced(before, mid, left, n, ids) && Balanced(mid, after, more, m, new_)
    ensures Balanced(before, after, left + more, n + m, ids + new_)
  {
    assert TestedIn(left + more) == TestedIn(left) + TestedIn(more);
  }

  /** The account of a session after n steps. */
  ghost predicate Account(checks: seq<SecurityCheck>, steps: seq<Step>, n: nat, on: bool,
                          before: set<SecurityCheckRunner>, after: set<SecurityCheckRunner>, left: seq<Leaving>)
    requires n <= |steps|
  {
    && AllComplete(checks, left) && AllDated(left, steps, n, on)
    && Balanced(before, after, left, if checks == [] then 0 else TestsAmong(steps, n), if checks == [] then {} else TestsOf(steps, n))
  }

  ghost predicate StepOk(checks: seq<SecurityCheck>, step: Step, i: nat, on: bool,
                         before: set<SecurityCheckRunner>, after: set<SecurityCheckRunner>, left: seq<Leaving>) {
    var begins := checks != [] && step.Test?;
    && AllComplete(checks, left) && AllAt(left, i, on)
    && Balanced(before, after, left, if begins then 1 else 0, if begins then {step.tested} else {})
  }

  lemma AccountStep(checks: seq<SecurityCheck>, steps: seq<Step>, i: nat, on: bool, before: set<SecurityCheckRunner>,
                    mid: set<SecurityCheckRunner>, after: set<SecurityCheckRunner>, left: seq<Leaving>, more: seq<Leaving>)
    requires i < |steps| && Account(checks, steps, i, on, before, mid, left)
    requires StepOk(checks, steps[i], i, StillOn(steps, i, on), mid, after, more)
    ensures Account(checks, steps, i + 1, on, before, after, left + more)
  {
    var begins := checks != [] && steps[i].Test?;
    BalancedTwice(before, mid, after, left, more, if checks == [] then 0 else TestsAmong(steps, i), if begins then 1 else 0,
                  if checks == [] then {} else TestsOf(steps, i), if begins then {steps[i].tested} else {});
  }

  class SelectiveAuditor {
    const client: HttpClient
    var checks: seq<SecurityCheck>
    var runners: seq<SecurityCheckRunner>

    ghost var chain: set<SecurityCheck>
    ghost var active: set<SecurityCheckRunner>
    /** How many checks each listed runner has tried. */
    ghost var depth: seq<nat>

    constructor (client: HttpClient)
      requires client.outstanding == {}
      ensures Valid() && this.client == client && checks == [] && runners == []
    {
      this.client := client;
      checks, runners, chain, active, depth := [], [], {}, {}, [];
    }

    /** The checks are linked in the order in which they were added, and none is added twice. */
    ghost predicate ChainOk()
      reads this`checks, this`chain, chain
    {
      forall i | 0 <= i < |checks| ::
        && checks[i] in chain && checks[i].position == i
        && checks[i].next == if i + 1 < |checks| then checks[i + 1] else null
    }

    lemma NextInChain(k: nat)
      requires ChainOk() && k < |checks|
      ensures checks[k].next == if k + 1 < |checks| then checks[k + 1] else null
    {
    }

    /** The runner has tried exactly the first checks of the chain, in order, and its check is next. */
    ghost predicate AtCheck(r: SecurityCheckRunner)
      reads this`checks, r`walked, r`check
    {
      |r.walked| < |checks| && r.walked == checks[..|r.walked|] && r.check == checks[|r.walked|]
    }

    /** The runner has tried exactly the first checks of the chain, in order, and its check last. */
    ghost predicate OnCheck(r: SecurityCheckRunner)
      reads this`checks, r`walked, r`check
    {
      1 <= |r.walked| <= |checks| && r.walked == checks[..|r.walked|] && r.check == checks[|r.walked| - 1]
    }

    /** The runner can try its check next. */
    ghost predicate Ready(r: SecurityCheckRunner)
      reads this`checks, client`enabled, r
    {
      && AtCheck(r) && r.Idle() && r.Evaluations() && |r.walked| !in r.answered
      && (client.enabled ==> r.AnsweredUpTo(|r.walked|))
    }

    /** The runner has all responses to its check. */
    ghost predicate Done(r: SecurityCheckRunner)
      reads this`checks, client`enabled, r
    {
      && OnCheck(r) && r.Evaluations() && r.waiting == {} && r.tried == |r.walked| && |r.walked| !in r.answered
      && (client.enabled ==> r.AnsweredUpTo(|r.walked|))
    }

    ghost predicate RunnerOk(r: SecurityCheckRunner)
      reads this`checks, client`enabled, r
    {
      && r.Busy() && r.Evaluations() && OnCheck(r) && |r.walked| - 1 !in r.answered && r.check.Applies(r.tested)
      && (client.enabled ==> r.refused == 0 && r.AnsweredUpTo(|r.walked| - 1))
      && r.check.Creates(r.tested) == Created(|r.requests|)
    }

    ghost predicate RunnersOk()
      reads this`checks, this`active, client`enabled, active
    {
      forall r | r in active :: RunnerOk(r)
    }

    /** The outstanding requests are exactly those the listed runners wait for. */
    ghost predicate OutstandingOk()
      reads this`active, active`waiting, client`outstanding
    {
      && (forall q | q in client.outstanding :: q.runner in active && q in q.runner.waiting)
      && (forall r | r in active :: r.waiting <= client.outstanding)
    }

    ghost predicate Listed()
      reads this`active, this`runners
    {
      Lists(runners, active)
    }

    ghost predicate DepthOk()
      reads this`active, this`runners, this`depth, active`walked
    {
      |depth| == |runners| && forall i | 0 <= i < |runners| :: runners[i] in active && depth[i] == |runners[i].walked|
    }

    ghost predicate Valid()
      reads this, chain, active, client
    {
      ChainOk() && RunnersOk() && OutstandingOk() && Listed() && DepthOk()
    }

    /** The checks the listed runners may still try. */
    ghost function Left(): nat
      reads this`depth, this`checks
    {
      Weight(depth, |checks|)
    }

    lemma PrefixStays(before: seq<SecurityCheck>, n: nat, check: SecurityCheck)
      requires n <= |before|
      ensures (before + [check])[..n] == before[..n]
    {
    }

    /** A runner on its way is not disturbed by a check added at the end. */
    twostate lemma RunnersGoOn(check: SecurityCheck)
      requires old(RunnersOk()) && checks == old(checks) + [check]
      requires active == old(active) && unchanged(active) && client.enabled == old(client.enabled)
      ensures RunnersOk()
    {
      forall r | r in active ensures RunnerOk(r) {
        assert old(RunnerOk(r));
        PrefixStays(old(checks), |r.walked|, check);
      }
    }

    method AddSecurityCheck(check: SecurityCheck)
      requires Valid() && check !in checks && check.next == null
      modifies this`checks, this`chain, chain`next, check`position
      ensures Valid() && checks == old(checks) + [check]
    {
      if checks != [] {
        checks[|checks| - 1].next := check;
      }
      check.position := |checks|;
      checks, chain := checks + [check], chain + {check};
      RunnersGoOn(check);
      assert OutstandingOk() && Listed() && DepthOk();
    }

    method ScheduleNextCheck(runner: SecurityCheckRunner) returns (scheduled: bool)
      requires ChainOk() && Ready(runner)
      modifies runner, client`outstanding
      ensures ChainOk()
      ensures scheduled ==> RunnerOk(runner) && |old(runner.walked)| < |runner.walked|
      ensures !scheduled ==> Walked(runner) && runner.waiting == {}
      ensures client.outstanding == old(client.outstanding) + runner.waiting
      ensures runner.answered == old(runner.answered)
    {
      while true
        invariant ChainOk() && Ready(runner)
        invariant client.outstanding == old(client.outstanding)
        invariant |old(runner.walked)| <= |runner.walked| && runner.answered == old(runner.answered)
        decreases |checks| - |runner.walked|
      {
        var ran := TryCheck(runner);
        if ran {
          return true;
        }
        var more := NextCheck(runner);
        if !more {
          return false;
        }
      }
    }

    /** The runner runs its check: it waits for responses then, or the check does not apply. */
    method TryCheck(runner: SecurityCheckRunner) returns (ran: bool)
      requires ChainOk() && Ready(runner)
      modifies runner, client`outstanding
      ensures ChainOk() && |runner.walked| == |old(runner.walked)| + 1 && runner.answered == old(runner.answered)
      ensures ran ==> RunnerOk(runner)
      ensures !ran ==> Done(runner)
      ensures client.outstanding == old(client.outstanding) + runner.waiting
    {
      ghost var k := |runner.walked|;
      assert checks[..k] + [checks[k]] == checks[..k + 1];
      ran := runner.Run(client);
    }

    /** The runner goes on along the chain, or has come to its end. */
    method NextCheck(runner: SecurityCheckRunner) returns (more: bool)
      requires ChainOk() && Done(runner)
      modifies runner
      ensures ChainOk() && runner.walked == old(runner.walked) && runner.answered == old(runner.answered)
      ensures more ==> Ready(runner)
      ensures !more ==> Walked(runner)
      ensures runner.waiting == {}
    {
      NextInChain(|runner.walked| - 1);
      more := runner.SetNextCheck();
      assert !more ==> runner.walked == checks;
    }

    // -------------------------------------------------------------- steps of one runner

    /** All other runners are left alone. */
    twostate predicate OnlyMoves(mover: SecurityCheckRunner)
      reads this, active, client
    {
      && checks == old(checks) && client.enabled == old(client.enabled) && active - {mover} == old(active) - {mover}
      && (forall r | r in active && r in old(active) && r != mover :: unchanged(r))
    }

    twostate lemma ChainKept()
      requires old(ChainOk()) && unchanged(this`checks, this`chain) && unchanged(chain)
      ensures ChainOk()
    {
    }

    twostate lemma RunnersKept(mover: SecurityCheckRunner)
      requires OnlyMoves(mover) && (mover in active ==> RunnerOk(mover))
      requires old(forall r | r in active && r != mover :: RunnerOk(r))
      ensures RunnersOk()
    {
      forall r | r in active ensures RunnerOk(r) {
        if r != mover {
          assert r in active - {mover};
        }
      }
    }

    /** New outstanding requests are those of the runner that moved. */
    twostate lemma OutstandingKept(mover: SecurityCheckRunner)
      requires OnlyMoves(mover) && old(OutstandingOk())
      requires old(mover in active ==> mover.waiting == {})
      requires mover.waiting != {} ==> mover in active
      requires forall q | q in mover.waiting :: q.runner == mover
      requires client.outstanding == old(client.outstanding) + mover.waiting
      ensures OutstandingOk()
    {
      forall q | q in client.outstanding ensures q.runner in active && q in q.runner.waiting {
        if q in old(client.outstanding) {
          assert q.runner in old(active) - {mover} && q.runner in active - {mover};
        }
      }
      forall r | r in active ensures r.waiting <= client.outstanding {
        if r != mover {
          assert r in old(active) - {mover};
        }
      }
    }

    method Enlist(runner: SecurityCheckRunner)
      requires ChainOk() && RunnersOk() && Listed() && DepthOk() && OutstandingWith(runner)
      requires runner !in active && RunnerOk(runner)
      modifies this`runners, this`depth, this`active
      ensures Valid() && runners == old(runners) + [runner] && active == old(active) + {runner}
    {
      List(runner);
      ChainKept();
      RunnersJoined(runner);
      OutstandingJoined(runner);
    }

    method List(runner: SecurityCheckRunner)
      requires Listed() && DepthOk() && runner !in active
      modifies this`runners, this`depth, this`active
      ensures Listed() && DepthOk() && runners == old(runners) + [runner] && active == old(active) + {runner}
    {
      ListsMore(runners, active, runner);
      runners, active, depth := runners + [runner], active + {runner}, depth + [|runner.walked|];
    }

    twostate lemma RunnersJoined(runner: SecurityCheckRunner)
      requires old(RunnersOk()) && RunnerOk(runner) && active == old(active) + {runner} && checks == old(checks)
      requires client.enabled == old(client.enabled) && unchanged(old(active))
      ensures RunnersOk()
    {
    }

    twostate lemma OutstandingJoined(runner: SecurityCheckRunner)
      requires old(OutstandingWith(runner)) && active == old(active) + {runner}
      requires unchanged(client`outstanding) && unchanged(old(active)) && runner.waiting == old(runner.waiting)
      ensures OutstandingOk()
    {
    }

    /** Schedules the first check that makes requests; the runner is kept only if there is one. */
    method ScheduleFirst(tested: int) returns (scheduled: bool, ghost runner: SecurityCheckRunner?)
      requires Valid()
      modifies this`runners, this`depth, this`active, client`outstanding
      ensures Valid()
      ensures checks == [] ==> !scheduled && runner == null
      ensures checks != [] ==> runner != null && fresh(runner) && runner.tested == tested
      ensures scheduled ==> runners == old(runners) + [runner] && active == old(active) + {runner}
      ensures !scheduled ==> runners == old(runners) && active == old(active) && client.outstanding == old(client.outstanding)
      ensures !scheduled && runner != null ==> Walked(runner) && runner.answered == {}
    {
      if checks == [] {
        return false, null;
      }
      var r := new SecurityCheckRunner(checks[0], tested);
      runner := r;
      scheduled := Launch(r);
    }

    method Launch(r: SecurityCheckRunner) returns (scheduled: bool)
      requires Valid() && r !in active && Ready(r) && r.walked == [] && r.answered == {}
      modifies r, this`runners, this`depth, this`active, client`outstanding
      ensures Valid()
      ensures scheduled ==> runners == old(runners) + [r] && active == old(active) + {r}
      ensures !scheduled ==> runners == old(runners) && active == old(active) && client.outstanding == old(client.outstanding)
      ensures !scheduled ==> Walked(r) && r.answered == {}
    {
      scheduled := ScheduleApart(r);
      if scheduled {
        Enlist(r);
      }
    }

    /** The requests of r, which is not listed, are outstanding besides those of the listed runners. */
    ghost predicate OutstandingWith(r: SecurityCheckRunner)
      reads this`active, active`waiting, client`outstanding, r`waiting
    {
      && (forall q | q in client.outstanding && q !in r.waiting :: q.runner in active && q in q.runner.waiting)
      && (forall a | a in active :: a.waiting <= client.outstanding)
      && r.waiting <= client.outstanding && (forall q | q in r.waiting :: q.runner == r)
    }

    /** A runner that is not listed is scheduled without touching the listed ones. */
    method ScheduleApart(r: SecurityCheckRunner) returns (scheduled: bool)
      requires Valid() && r !in active && Ready(r) && r.walked == [] && r.answered == {}
      modifies r, client`outstanding
      ensures ChainOk() && RunnersOk() && Listed() && DepthOk() && OutstandingWith(r)
      ensures scheduled ==> RunnerOk(r)
      ensures !scheduled ==> Walked(r) && r.waiting == {}
      ensures client.outstanding == old(client.outstanding) + r.waiting && r.answered == {}
    {
      scheduled := ScheduleNextCheck(r);
      ListKept();
      OutstandingApart(r);
    }

    twostate lemma ListKept()
      requires old(RunnersOk() && Listed() && DepthOk())
      requires unchanged(this) && unchanged(active) && client.enabled == old(client.enabled)
      ensures RunnersOk() && Listed() && DepthOk()
    {
    }

    twostate lemma OutstandingApart(r: SecurityCheckRunner)
      requires old(OutstandingOk()) && unchanged(this) && unchanged(active)
      requires client.outstanding == old(client.outstanding) + r.waiting && forall q | q in r.waiting :: q.runner == r
      ensures OutstandingWith(r)
    {
    }

    /** std::find over the runners. */
    method Find(runner: SecurityCheckRunner) returns (i: nat)
      requires runner in runners
      ensures i < |runners| && runners[i] == runner
    {
      i := 0;
      while runners[i] != runner
        invariant i < |runners| && runner !in runners[..i]
        decreases |runners| - i
      {
        i := i + 1;
      }
    }

    method Erase(runner: SecurityCheckRunner)
      requires Listed() && DepthOk() && runner in active && |runner.walked| <= |checks|
      modifies this`runners, this`depth, this`active
      ensures Listed() && DepthOk() && active == old(active) - {runner}
      ensures Left() < old(Left())
    {
      var i := Find(runner);
      ListsLess(runners, active, i);
      WeightErase(depth, i, |checks|);
      runners := runners[..i] + runners[i + 1..];
      depth, active := depth[..i] + depth[i + 1..], active - {runner};
    }

    /** SetNextCheck and ScheduleNextCheck, as FinishedCheckCb combines them. */
    method Advance(runner: SecurityCheckRunner) returns (scheduled: bool)
      requires ChainOk() && Done(runner)
      modifies runner, client`outstanding
      ensures ChainOk()
      ensures scheduled ==> RunnerOk(runner) && |old(runner.walked)| < |runner.walked|
      ensures !scheduled ==> Walked(runner) && runner.waiting == {}
      ensures client.outstanding == old(client.outstanding) + runner.waiting
      ensures runner.answered == old(runner.answered)
    {
      scheduled := NextCheck(runner);
      if scheduled {
        scheduled := ScheduleNextCheck(runner);
      }
    }

    /** The listed runner at k has moved: its depth is brought up to date. */
    ghost method Deepen(runner: SecurityCheckRunner, k: nat)
      requires Listed() && |depth| == |runners| && k < |runners| && runners[k] == runner
      requires forall i | 0 <= i < |runners| && i != k :: depth[i] == |runners[i].walked|
      requires depth[k] <= |runner.walked| <= |checks|
      modifies this`depth
      ensures DepthOk() && Left() <= old(Left()) - (|runner.walked| - old(depth)[k])
    {
      WeightFalls(depth, |runner.walked|, k, |checks|);
      depth := depth[k := |runner.walked|];
    }

    method AdvanceListed(runner: SecurityCheckRunner) returns (scheduled: bool)
      requires ChainOk() && Listed() && DepthOk() && runner in active
      requires Done(runner)
      modifies runner, client`outstanding, this`depth
      ensures ChainOk() && DepthOk()
      ensures scheduled ==> RunnerOk(runner) && |old(runner.walked)| < |runner.walked|
      ensures !scheduled ==> Walked(runner) && runner.waiting == {}
      ensures client.outstanding == old(client.outstanding) + runner.waiting
      ensures runner.answered == old(runner.answered)
      ensures Left() <= old(Left()) - (if scheduled then 1 else 0)
    {
      ghost var k :| 0 <= k < |runners| && runners[k] == runner;
      scheduled := Advance(runner);
      Deepen(runner, k);
    }

    /** The runner advances or is erased; either way fewer checks are left to try. */
    method MoveOn(runner: SecurityCheckRunner) returns (scheduled: bool)
      requires ChainOk() && Listed() && DepthOk() && runner in active
      requires Done(runner)
      modifies runner, this`runners, this`depth, this`active, client`outstanding
      ensures ChainOk() && Listed() && DepthOk()
      ensures scheduled ==> RunnerOk(runner) && active == old(active) && |old(runner.walked)| < |runner.walked|
      ensures !scheduled ==> active == old(active) - {runner} && Walked(runner) && runner.waiting == {}
      ensures client.outstanding == old(client.outstanding) + runner.waiting
      ensures runner.answered == old(runner.answered)
      ensures Left() < old(Left())
    {
      scheduled := AdvanceListed(runner);
      if !scheduled {
        Erase(runner);
      }
    }

    /** The runner is done with its check: it goes on to the next one that makes requests, or is
        destroyed after it has tried them all. */
    method FinishedCheckCb(runner: SecurityCheckRunner)
      requires ChainOk() && Listed() && DepthOk() && runner in active
      requires forall r | r in active && r != runner :: RunnerOk(r)
      requires OutstandingOk() && Done(runner)
      modifies runner, this`runners, this`depth, this`active, client`outstanding
      ensures Valid()
      ensures runner in active ==> active == old(active) && |old(runner.walked)| < |runner.walked|
      ensures runner !in active ==> active == old(active) - {runner} && Walked(runner)
      ensures runner.answered == old(runner.answered)
      ensures Left() < old(Left())
    {
      MoveAmong(runner);
      OutstandingKept(runner);
    }

    /** The runner moves on, and the others are still in order. */
    method MoveAmong(runner: SecurityCheckRunner)
      requires ChainOk() && Listed() && DepthOk() && runner in active && Done(runner)
      requires forall r | r in active && r != runner :: RunnerOk(r)
      modifies runner, this`runners, this`depth, this`active, client`outstanding
      ensures ChainOk() && RunnersOk() && Listed() && DepthOk() && OnlyMoves(runner)
      ensures runner in active ==> active == old(active) && |old(runner.walked)| < |runner.walked|
      ensures runner !in active ==> active == old(active) - {runner} && Walked(runner) && runner.waiting == {}
      ensures client.outstanding == old(client.outstanding) + runner.waiting
      ensures runner.answered == old(runner.answered) && Left() < old(Left())
    {
      var scheduled := MoveOn(runner);
      RunnersKept(runner);
    }

    /** The response to q reaches its runner, which may be done with its check now. */
    method Receive(q: TestRequest) returns (done: bool)
      requires Valid() && q in client.outstanding
      modifies q.runner, client`outstanding
      ensures OutstandingOk() && client.outstanding == old(client.outstanding) - {q}
      ensures forall r | r in active && r != q.runner :: RunnerOk(r)
      ensures !done ==> RunnerOk(q.runner)
      ensures done ==> Done(q.runner)
      ensures q.runner.walked == old(q.runner.walked) && q.runner.requests == old(q.runner.requests)
      ensures q.runner.refused == old(q.runner.refused)
    {
      var runner := q.runner;
      assert RunnerOk(runner) && q in runner.waiting;
      client.outstanding := client.outstanding - {q};
      done := runner.CountResponse(q);
    }

    /** One delivery by the client: Request::DoneCb calls RequestCallback of the runner. */
    method Answer(q: TestRequest)
      requires Valid() && q in client.outstanding
      modifies q.runner, this`runners, this`depth, this`active, client`outstanding
      ensures Valid()
      ensures q.runner in active ==> active == old(active)
      ensures q.runner !in active ==> active == old(active) - {q.runner} && Walked(q.runner)
      ensures || Left() < old(Left())
              || (Left() == old(Left())
                  && client.outstanding == old(client.outstanding) - {q})
    {
      var runner := q.runner;
      assert RunnerOk(runner) && runner in active;
      var done := Receive(q);
      ChainKept();
      if done {
        FinishedCheckCb(runner);
      } else {
        assert RunnersOk();
      }
    }

    /** A listed runner that waits for nothing had requests refused, or made none. */
    lemma IdleRunners(r: SecurityCheckRunner)
      requires Valid() && r in runners && r.waiting == {}
      ensures r.refused > 0 || r.requests == []
    {
      assert r in active && RunnerOk(r);
    }

    /** With the client on, and checks that make requests if any, a listed runner waits for something. */
    lemma AwaitsSome(r: SecurityCheckRunner)
      requires Valid() && client.enabled && AllProductive(checks) && r in runners
      ensures r.waiting != {}
    {
      assert r in active && RunnerOk(r);
      assert checks[|r.walked| - 1].Productive();
    }

    /** When nothing is outstanding, no runner is left. */
    lemma NoneLeft()
      requires Valid() && client.enabled && AllProductive(checks) && client.outstanding == {}
      ensures runners == [] && active == {}
    {
      if runners != [] {
        AwaitsSome(runners[0]);
      }
    }

    /** The runner tried every check, in order; and with the client on throughout, it got all answers to the
        checks that apply. */
    ghost predicate Walked(r: SecurityCheckRunner)
      reads this`checks, client`enabled, r`walked, r`answered, r`evaluated, r`evaluations
    {
      r.walked == checks && r.Evaluations() && (client.enabled ==> r.AnsweredUpTo(|checks|))
    }

    /** Then its batches that apply were evaluated, each exactly once. */
    lemma WalkedIsComplete(r: SecurityCheckRunner)
      requires Walked(r) && client.enabled
      ensures r.Record().walk == checks && Complete(r.Record())
    {
    }

    /** The client answers what is outstanding, in any order. This ends, and then no runner is left: every runner
        tried every check in order, none twice; exactly the checks that apply were answered, and exactly the
        batches among them evaluated, each once. */
    method Drain()
      requires Valid() && client.enabled && AllProductive(checks)
      modifies this`runners, this`depth, this`active, active, client`outstanding
      ensures client.outstanding == {} && runners == []
      ensures forall r | r in old(active) :: r.Record().walk == checks && Complete(r.Record())
    {
      AnswerAll();
      forall r | r in old(active) ensures r.Record().walk == checks && Complete(r.Record()) {
        WalkedIsComplete(r);
      }
    }

    method AnswerAll()
      requires Valid() && client.enabled && AllProductive(checks)
      modifies this`runners, this`depth, this`active, active, client`outstanding
      ensures client.outstanding == {} && runners == [] && AllWalked(old(active))
      decreases Left(), |client.outstanding|, 1
    {
      if client.outstanding == {} {
        NoneLeft();
      } else {
        AnswerSome();
      }
    }

    method AnswerSome()
      requires Valid() && client.enabled && AllProductive(checks) && client.outstanding != {}
      modifies this`runners, this`depth, this`active, active, client`outstanding
      ensures client.outstanding == {} && runners == [] && AllWalked(old(active))
      decreases Left(), |client.outstanding|, 0
    {
      ghost var runner := AnswerAny();
      AnswerRest(runner, old(active));
    }

    method AnswerRest(ghost runner: SecurityCheckRunner, ghost before: set<SecurityCheckRunner>)
      requires Valid() && client.enabled && AllProductive(checks)
      requires (runner in active || Walked(runner)) && before <= active + {runner}
      modifies this`runners, this`depth, this`active, active, client`outstanding
      ensures client.outstanding == {} && runners == [] && AllWalked(before)
      decreases Left(), |client.outstanding|, 2
    {
      ghost var left := active;
      AnswerAll();
      if runner !in left {
        WalkedKept(runner);
      }
      AllWalkedJoin(left, runner, before);
    }

    /** The client answers any one of the outstanding requests. */
    method AnswerAny() returns (ghost runner: SecurityCheckRunner)
      requires Valid() && client.outstanding != {}
      modifies this`runners, this`depth, this`active, active, client`outstanding
      ensures Valid() && runner in old(active) && old(active) <= active + {runner} && active <= old(active)
      ensures runner in active || Walked(runner)
      ensures || Left() < old(Left())
              || (Left() == old(Left())
                  && |client.outstanding| < |old(client.outstanding)|)
    {
      var q :| q in client.outstanding;
      runner := q.runner;
      assert runner in active && |client.outstanding - {q}| < |client.outstanding|;
      Answer(q);
    }

    ghost predicate AllWalked(rs: set<SecurityCheckRunner>)
      reads this`checks, client`enabled, rs
    {
      forall r | r in rs :: Walked(r)
    }

    lemma AllWalkedJoin(left: set<SecurityCheckRunner>, r: SecurityCheckRunner, rs: set<SecurityCheckRunner>)
      requires AllWalked(left) && (r in left || Walked(r)) && rs <= left + {r}
      ensures AllWalked(rs)
    {
    }

    twostate lemma WalkedKept(r: SecurityCheckRunner)
      requires old(Walked(r)) && checks == old(checks) && client.enabled == old(client.enabled) && unchanged(r)
      ensures Walked(r)
    {
    }

    method SwitchOff()
      requires Valid()
      modifies client`enabled
      ensures Valid() && !client.enabled
    {
      client.enabled := false;
      assert OutstandingOk();
    }

    /** A runner that leaves now. */
    lemma LeavesNow(runner: SecurityCheckRunner, step: nat, l: Leaving)
      requires Walked(runner) && l == Leaving(runner.Record(), step, client.enabled)
      ensures AllComplete(checks, [l]) && AllAt([l], step, client.enabled)
    {
      if client.enabled {
        WalkedIsComplete(runner);
      }
    }

    /** A new runner is listed, or leaves at once. */
    method Begin(tested: int, ghost step: nat) returns (ghost left: seq<Leaving>)
      requires Valid()
      modifies this`runners, this`depth, this`active, client`outstanding
      ensures Valid() && fresh(active - old(active))
      ensures StepOk(checks, Test(tested), step, client.enabled, old(active), active, left)
    {
      ghost var before := active;
      var scheduled: bool;
      ghost var runner;
      scheduled, runner := ScheduleFirst(tested);
      if runner == null {
        left := [];
        NothingMoved(before);
      } else if scheduled {
        left := [];
        OneListed(before, runner);
      } else {
        ghost var l := Leaving(runner.Record(), step, client.enabled);
        LeavesNow(runner, step, l);
        OneLeftAtOnce(before, l);
        left := [l];
      }
    }

    /** A response comes in; its runner stays, or leaves. */
    method Deliver(ghost step: nat) returns (ghost left: seq<Leaving>)
      requires Valid()
      modifies this`runners, this`depth, this`active, active, client`outstanding
      ensures Valid() && active <= old(active)
      ensures StepOk(checks, Respond, step, client.enabled, old(active), active, left)
    {
      ghost var before := active;
      left := [];
      if client.outstanding == {} {
        NothingMoved(before);
        return;
      }
      ghost var runner := AnswerAny();
      ghost var l := Leaving(runner.Record(), step, client.enabled);
      OneLeft(before, active, runner, l);
      if runner !in active {
        LeavesNow(runner, step, l);
        left := [l];
      }
    }

    method Perform(step: Step, ghost i: nat) returns (ghost left: seq<Leaving>)
      requires Valid()
      modifies this`runners, this`depth, this`active, active, client
      ensures Valid() && fresh(active - old(active))
      ensures StepOk(checks, step, i, old(client.enabled), old(active), active, left)
      ensures client.enabled == (old(client.enabled) && !step.SwitchOff?)
    {
      match step {
        case Test(tested) =>
          left := Begin(tested, i);
        case Respond =>
          left := Deliver(i);
        case SwitchOff =>
          left := [];
          NothingMoved(active);
          SwitchOff();
      }
    }

    /** Any run of the auditor: no runner gets lost. Those that left tried the whole chain in order, and were
        answered and evaluated completely if the client was on when they left, that is, before it was switched off.
        None is listed when nothing is outstanding, the client is on and the checks are productive. */
    method Session(steps: seq<Step>) returns (ghost left: seq<Leaving>)
      requires Valid()
      modifies this`runners, this`depth, this`active, active, client
      ensures Valid() && Account(checks, steps, |steps|, old(client.enabled), old(active), active, left)
      ensures client.enabled == StillOn(steps, |steps|, old(client.enabled))
      ensures client.enabled && AllProductive(checks) && client.outstanding == {} ==> runners == [] && active == {}
    {
      NothingMoved(active);
      left := SessionFrom(steps, 0, client.enabled, active, []);
      if client.enabled && AllProductive(checks) && client.outstanding == {} {
        NoneLeft();
      }
    }

    method SessionFrom(steps: seq<Step>, i: nat, ghost on: bool, ghost first: set<SecurityCheckRunner>, ghost left: seq<Leaving>)
      returns (ghost left': seq<Leaving>)
      requires Valid() && i <= |steps| && client.enabled == StillOn(steps, i, on)
      requires Account(checks, steps, i, on, first, active, left)
      modifies this`runners, this`depth, this`active, active, client
      ensures Valid() && client.enabled == StillOn(steps, |steps|, on)
      ensures Account(checks, steps, |steps|, on, first, active, left')
      decreases |steps| - i
    {
      left' := left;
      if i < |steps| {
        left' := SessionStep(steps, i, on, first, left);
        left' := SessionFrom(steps, i + 1, on, first, left');
      }
    }

    method SessionStep(steps: seq<Step>, i: nat, ghost on: bool, ghost first: set<SecurityCheckRunner>, ghost left: seq<Leaving>)
      returns (ghost left': seq<Leaving>)
      requires Valid() && i < |steps| && client.enabled == StillOn(steps, i, on)
      requires Account(checks, steps, i, on, first, active, left)
      modifies this`runners, this`depth, this`active, active, client
      ensures Valid() && fresh(active - old(active)) && client.enabled == StillOn(steps, i + 1, on)
      ensures Account(checks, steps, i + 1, on, first, active, left')
    {
      ghost var mid := active;
      StillOnNext(steps, i, on);
      ghost var more := Perform(steps[i], i);
      AccountStep(checks, steps, i, on, first, mid, active, left, more);
      left' := left + more;
    }
  }
}
