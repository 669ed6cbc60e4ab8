/**
 The main loop of a scan (plusfish.cc): requests move from the probe queue to
 the crawl queue to the client, while responses bring in new requests and
 signals ask for shutdown.
 */
module Scanner {
  import opened Requests
  import opened Forests
  import opened Sites
  import opened Store
  import opened RateLimits
  import opened HttpClients
  import opened Shutdowns
  import opened Sequences

  /** What the client is asked to fetch: a stored request, or a probe that is not stored. */
  datatype Job = Crawl(id: int) | Probe

  /** A URL found in a response. */
  datatype Link = Link(proto: HttpRequest, url: string, urlIsValid: bool)

  /** What the environment does during one turn of the loop: transfers that complete, requests and links
      that their callbacks bring, probes that the 404 detector, the object finder and the auditor want
      to send, and signals between the actions. */
  datatype Turn = Turn(
    completed: set<Handle>, requested: nat, links: seq<Link>, probes: nat, objects: nat, tests: nat,
    signals0: seq<Signal>, signals1: seq<Signal>, signals2: seq<Signal>, signals3: seq<Signal>)

  /** The signals from the polling of a turn to its check, and those of the first n turns. */
  function LateSignals(turn: Turn): seq<Signal> {
    turn.signals1 + turn.signals2 + turn.signals3
  }

  function SignalsIn(turns: seq<Turn>, n: nat): seq<Signal>
    requires n <= |turns|
  {
    if n == 0 then [] else SignalsIn(turns, n - 1) + turns[n - 1].signals0 + LateSignals(turns[n - 1])
  }

  /** A turn that brings no links and nothing to send; signals may come. */
  predicate Quiet(turn: Turn) {
    turn.requested == 0 && turn.links == [] && turn.probes == 0 && turn.objects == 0 && turn.tests == 0
  }

  /** All of the first n handles complete, if they still run. */
  ghost predicate Completes(turn: Turn, n: nat) {
    forall h: Handle | h < n :: h in turn.completed
  }

  /** Why a turn started nothing though requests waited: all connections were in use, or a call to the limiter came
      in a second that had had all its calls before. */
  datatype Stall = NoConnection(handles: int) | NoSlot(call: nat)

  /** The links of the first n turns. */
  function LinksIn(turns: seq<Turn>, n: nat): seq<Link>
    requires n <= |turns|
  {
    if n == 0 then [] else LinksIn(turns, n - 1) + turns[n - 1].links
  }

  /** How many requests wait to be probed and to be started, how many were accepted, and how often nothing was
      started though something waited. */
  datatype Load = Load(toProbe: nat, waiting: nat, accepted: nat, stalls: nat) {
    /** What is left to do in a quiet run: a request to probe is crawled and started, one that waits is started. */
    function Work(): nat {
      2 * toProbe + waiting
    }
  }

  predicate Lighter(a: Load, b: Load) {
    && b.accepted + b.toProbe <= a.accepted + a.toProbe && a.stalls <= b.stalls
    && (b.Work() == 0 || b.Work() + a.stalls < a.Work() + b.stalls)
  }

  /** The first part of a quiet turn starts something that waits, or has a reason not to; the second feeds the client. */
  predicate LoadServed(a: Load, b: Load) {
    && b.toProbe == a.toProbe && b.accepted == a.accepted && b.waiting <= a.waiting && a.stalls <= b.stalls
    && (a.waiting > 0 && a.stalls == b.stalls ==> b.waiting < a.waiting)
  }

  predicate LoadFed(a: Load, b: Load) {
    var fed := if a.toProbe > 0 then 1 else 0;
    b == Load(a.toProbe - fed, a.waiting + fed, a.accepted + fed, a.stalls)
  }

  lemma GetsLighter(a: Load, b: Load, c: Load)
    requires LoadServed(a, b) && LoadFed(b, c)
    ensures Lighter(a, c)
  {
  }

  function Probes(n: nat): seq<Job> {
    seq(n, _ => Probe)
  }

  /** The ids of the crawled requests that the client accepted. */
  function CrawlIds(jobs: seq<Job>): seq<int> {
    if jobs == [] then [] else
      var front := CrawlIds(jobs[..|jobs| - 1]);
      if jobs[|jobs| - 1].Crawl? then front + [jobs[|jobs| - 1].id] else front
  }

  lemma CrawlIdsSnoc(jobs: seq<Job>, job: Job)
    ensures CrawlIds(jobs + [job]) == CrawlIds(jobs) + if job.Crawl? then [job.id] else []
  {
    assert (jobs + [job])[..|jobs|] == jobs;
  }

  /** 1, 2, ..., n */
  function UpTo(n: nat): seq<int> {
    if n == 0 then [] else UpTo(n - 1) + [n]
  }

  lemma ShiftProbe<T>(a: seq<T>, b: seq<T>, c: seq<T>)
    requires c != []
    ensures a + (b + [c[0]]) + c[1..] == a + b + c && (a + b + c)[|a| + |b|] == c[0]
  {
  }

  lemma ShiftCrawl<T>(a: seq<T>, b: seq<T>, c: seq<T>)
    requires b != []
    ensures (a + [b[0]]) + b[1..] + c == a + b + c && (a + b + c)[|a|] == b[0]
  {
  }

  /** kint64max: no shutdown planned. */
  const MAX_TIME: int := 0x7FFF_FFFF_FFFF_FFFF

  class Plusfish {
    const client: CurlHttpClient<Job>
    const store: DataStore
    const clock: Clock
    const grace: int
    var enabled: bool
    var shutdownTime: int

    /** The requests passed to the crawler so far. */
    ghost var crawled: seq<Request>
    /** The links found in responses so far. */
    ghost var offered: seq<Link>
    /** The turns in which requests waited and none was started. */
    ghost var stalls: seq<Stall>
    /** The signals and checks so far, and the state they started from. */
    ghost const initial: Control
    ghost var events: seq<Event>

    constructor (client: CurlHttpClient<Job>, store: DataStore, clock: Clock, grace: int)
      requires store.Valid() && client.Valid() && client.InStepWith(clock)
      requires store.crawlQueue == [] && store.probeQueue == store.stored && client.accepted == [] && store.ScopeOk()
      ensures Valid() && enabled && crawled == [] && offered == [] && stalls == [] && this.client == client && this.store == store
    {
      this.client, this.store, this.clock, this.grace := client, store, clock, grace;
      enabled, shutdownTime := true, MAX_TIME;
      crawled, offered, stalls := [], [], [];
      events, initial := [], Control(true, client.enabled, MAX_TIME);
      new;
      AtStart();
    }

    lemma AtStart()
      requires crawled == [] && events == [] && initial == State() && enabled
      requires store.crawlQueue == [] && store.probeQueue == store.stored && client.accepted == []
      ensures Pipeline() && Scheduled() && Protocol()
    {
      assert [] + store.crawlQueue + store.probeQueue == store.stored;
      assert CrawlIds(client.accepted) == UpTo(0);
    }

    ghost predicate Valid()
      reads this, client, client.limiter, clock, store, store.sites, store.sites.repr, store.book, store.requests
    {
      store.Valid() && Pipeline() && Covered() && ClientOk() && Protocol()
    }

    predicate InScope(link: Link)
      reads store`allowedHosts
    {
      HostOf(link.proto) in store.allowedHosts && store.urlInScope(link.url) && link.urlIsValid
    }

    /** The link is in scope, the tree has room for it, and nothing equal is stored there. */
    ghost predicate Wanted(link: Link)
      requires store.sites.Valid()
      reads store`allowedHosts, store.sites, store.sites.repr
    {
      InScope(link) && Placeable(store.sites.Forest(), store.sites.limits, link.proto)
    }

    /** No link found so far is missing: what is in scope is stored, or equal to something stored, or has no room.
        Only links that repeat a parameter name are excepted, which are not equal to themselves. And nothing out of
        scope is stored, so that none is ever crawled. */
    ghost predicate Covered()
      requires store.sites.Valid()
      reads this`offered, store`allowedHosts, store`stored, store.sites, store.sites.repr
    {
      CoveredBy(offered, store.sites.Forest()) && store.ScopeOk()
    }

    ghost predicate CoveredBy(links: seq<Link>, f: Forest<Request>)
      reads store`allowedHosts
    {
      forall link | link in links && DistinctParams(link.proto) && InScope(link) ::
        !Placeable(f, store.sites.limits, link.proto)
    }

    ghost predicate StallsOk()
      reads this`stalls, client.limiter
    {
      forall s | s in stalls ::
        match s
        case NoConnection(handles) => handles >= client.maxActive
        case NoSlot(i) => i < |client.limiter.calls| && !InTime(client.limiter.calls, client.limiter.maxRate, i)
    }

    /** The flags and the deadline are what the shutdown protocol makes of the events, which the clock orders. */
    ghost predicate Protocol()
      reads this`enabled, this`shutdownTime, this`events, client`enabled, clock
    {
      initial.enabled && State() == Exec(initial, events, grace) && Timed(events, clock.now)
    }

    /** Every stored request is in exactly one stage, and stages are passed in the order of ids. */
    ghost predicate Pipeline()
      reads this`crawled, store
    {
      crawled + store.crawlQueue + store.probeQueue == store.stored
    }

    /** As long as the client takes requests, it has taken every request crawled, in order. */
    ghost predicate Scheduled()
      reads this`crawled, client`enabled, client`accepted
    {
      client.enabled ==> CrawlIds(client.accepted) == UpTo(|crawled|)
    }

    function State(): Control
      reads this`enabled, this`shutdownTime, client`enabled
    {
      Control(enabled, client.enabled, shutdownTime)
    }

    // -------------------------------------------------------------- shutdown

    method ShutdownGraceful()
      modifies this`shutdownTime, client`enabled, clock
      ensures old(clock.now) <= clock.now && State() == Graceful(old(State()), clock.now, grace)
    {
      if client.enabled {
        client.Disable();
      }
      var now := clock.Time();
      shutdownTime := now + grace;
    }

    method Shutdown()
      modifies this`enabled, client`enabled
      ensures State() == Immediate(old(State()))
    {
      if client.enabled {
        client.Disable();
      }
      enabled := false;
    }

    method SignalHandler(signal: Signal)
      modifies this`enabled, this`shutdownTime, client`enabled, clock
      ensures old(clock.now) <= clock.now && State() == Handled(old(State()), signal, clock.now, grace)
    {
      match signal {
        case SigInt =>
          if client.enabled {
            ShutdownGraceful();
          } else {
            Shutdown();
          }
        case SigTerm =>
          Shutdown();
        case OtherSignal =>
      }
    }

    method KeepRunningOrShutdown() returns (goOn: bool, ghost event: Event)
      modifies this`enabled, this`shutdownTime, client`enabled, clock
      ensures event.Check? && old(clock.now) <= event.now <= event.drainAt <= clock.now
      ensures (goOn, State()) == Checked(old(State()), event.now, event.drainAt, grace)
    {
      var now := clock.now;
      event := Check(now, now);
      if !enabled {
        return false, event;
      }
      now := clock.Time();
      event := Check(now, now);
      if shutdownTime > now {
        return true, event;
      }
      if client.enabled {
        ShutdownGraceful();
        return true, Check(now, clock.now);
      }
      Shutdown();
      return false, event;
    }

    /** One event of the protocol is recorded. */
    ghost method Note(before: Control, event: Event, was: int)
      requires initial.enabled && before == Exec(initial, events, grace) && Timed(events, was)
      requires State() == Next(before, event, grace) && was <= Begin(event) <= event.drainAt <= clock.now
      modifies this`events
      ensures Protocol() && events == old(events) + [event]
      ensures Heard(if event.Signalled? then [event.signal] else [], if event.Check? then 1 else 0)
    {
      SignalsSnoc(events, event);
      ExecSnoc(initial, events, event, grace);
      TimedSnoc(events, was, event, clock.now);
      events := events + [event];
    }

    /** The client and the scanner stay off once they are, and the deadline is fixed then. */
    twostate predicate OnlyOff()
      reads this`enabled, this`shutdownTime, this`events, client`enabled, clock
    {
      && old(clock.now) <= clock.now && old(events) <= events
      && (client.enabled ==> old(client.enabled)) && (enabled ==> old(enabled))
      && (!old(client.enabled) ==> shutdownTime == old(shutdownTime))
    }

    /** The signals and checks recorded since. */
    twostate predicate Heard(signals: seq<Signal>, checks: nat)
      reads this`events
    {
      SignalsOf(events) == SignalsOf(old(events)) + signals && ChecksOf(events) == ChecksOf(old(events)) + checks
    }

    method HandleSignal(signal: Signal)
      requires Protocol()
      modifies this`enabled, this`shutdownTime, this`events, client`enabled, clock
      ensures Protocol() && OnlyOff() && Heard([signal], 0)
    {
      ghost var before, was := State(), clock.now;
      SignalHandler(signal);
      Note(before, Signalled(signal, clock.now), was);
    }

    /** A check with the deadline behind it, and the client off, says stop. */
    method CheckDeadline() returns (goOn: bool)
      requires Protocol()
      modifies this`enabled, this`shutdownTime, this`events, client`enabled, clock
      ensures Protocol() && OnlyOff() && Heard([], 1)
      ensures goOn == enabled
      ensures !old(client.enabled) && old(shutdownTime) <= old(clock.now) ==> !goOn
    {
      ghost var before, was := State(), clock.now;
      ghost var event;
      goOn, event := KeepRunningOrShutdown();
      Note(before, event, was);
    }

    /** While draining, the deadline is the grace period after the one event that started the drain. */
    lemma DeadlineOfRun() returns (k: nat)
      requires Protocol() && initial.clientEnabled && PhaseOf(State()) == Draining
      ensures k < |events| && shutdownTime == events[k].drainAt + grace
      ensures PhaseOf(Exec(initial, events[..k], grace)) == Running
      ensures PhaseOf(Exec(initial, events[..k + 1], grace)) == Draining
    {
      k := DeadlineSetOnce(initial, events, grace);
    }

    /** No scan goes on after SIGTERM or a second interrupt, and no client after the first. */
    lemma SignalsObeyed()
      requires Protocol()
      ensures enabled ==> SigTerm !in SignalsOf(events) && multiset(SignalsOf(events))[SigInt] <= 1
      ensures client.enabled ==> enabled && SigInt !in SignalsOf(events)
    {
      SignalsCount(initial, events, grace);
    }

    /** The same of the signals that came since: a part of a run with SIGTERM or two interrupts in it stops the scanner. */
    twostate lemma SignalsSinceObeyed(signals: seq<Signal>, checks: nat)
      requires Protocol() && Heard(signals, checks)
      ensures enabled ==> SigTerm !in signals && multiset(signals)[SigInt] <= 1
      ensures client.enabled ==> enabled && SigInt !in signals
    {
      SignalsObeyed();
    }

    // -------------------------------------------------------------- the actions of a turn

    method HandleSignals(signals: seq<Signal>)
      requires Protocol()
      modifies this`enabled, this`shutdownTime, this`events, client`enabled, clock
      ensures Protocol() && OnlyOff() && Heard(signals, 0)
    {
      assert SignalsOf(events) + signals[..0] == SignalsOf(events);
      for i := 0 to |signals|
        invariant Protocol() && OnlyOff() && Heard(signals[..i], 0)
      {
        Associate(SignalsOf(old(events)), signals[..i], [signals[i]]);
        HandleSignal(signals[i]);
        assert signals[..i + 1] == signals[..i] + [signals[i]];
      }
      assert signals[..|signals|] == signals;
    }

    method SendProbes(n: nat)
      requires client.Valid() && Scheduled()
      modifies client`scheduleQueue, client`accepted
      ensures client.Valid() && Scheduled()
      ensures client.scheduleQueue == old(client.scheduleQueue) + if client.enabled then Probes(n) else []
      ensures client.accepted == old(client.accepted) + if client.enabled then Probes(n) else []
    {
      for i := 0 to n
        invariant client.Valid() && Scheduled()
        invariant client.scheduleQueue == old(client.scheduleQueue) + if client.enabled then Probes(i) else []
        invariant client.accepted == old(client.accepted) + if client.enabled then Probes(i) else []
      {
        CrawlIdsSnoc(client.accepted, Probe);
        var ok := client.Schedule(Probe);
        assert Probes(i + 1) == Probes(i) + [Probe];
      }
    }

    /** Crawler::MaybeAddURL, called back for each link found in a response. */
    method AddLink(link: Link, ghost before: seq<Link>)
      requires store.Valid() && store.ScopeOk() && Pipeline() && CoveredBy(before, store.sites.Forest())
      modifies store`requestsById, store`requestId, store`probeQueue, store`stored, store`requests, store.sites, store.sites.repr
      ensures store.Valid() && store.ScopeOk() && Pipeline() && CoveredBy(before + [link], store.sites.Forest())
      ensures LinkAdded(link, old(Wanted(link)))
      ensures fresh(store.sites.repr - old(store.sites.repr))
    {
      ghost var f := store.sites.Forest();
      store.sites.ForestIsTree();
      var req := StoreLink(link);
      StillCovered(before, f, store.sites.Forest(), req, link);
    }

    /** A link that was wanted is stored last, as a new request to probe; any other changes neither. */
    twostate predicate LinkAdded(link: Link, wanted: bool)
      reads store`stored, store`probeQueue, store.stored
    {
      var n := |old(store.stored)|;
      if wanted then
        && |store.stored| == n + 1 && store.stored[..n] == old(store.stored)
        && var req := store.stored[n];
           req.proto == link.proto && req.url == link.url && store.probeQueue == old(store.probeQueue) + [req]
      else store.stored == old(store.stored) && store.probeQueue == old(store.probeQueue)
    }

    method StoreLink(link: Link) returns (req: Request)
      requires store.Valid() && store.ScopeOk() && Pipeline()
      modifies store`requestsById, store`requestId, store`probeQueue, store`stored, store`requests, store.sites, store.sites.repr
      ensures store.Valid() && store.ScopeOk() && Pipeline() && LinkAdded(link, old(Wanted(link)))
      ensures fresh(req) && req.proto == link.proto && req.url == link.url && req.urlIsValid == link.urlIsValid
      ensures ForestAfter(old(store.sites.Forest()), store.sites.Forest(), link, req)
      ensures fresh(store.sites.repr - old(store.sites.repr))
    {
      req := new Request(link.proto, link.url, link.urlIsValid);
      assert store.sites.Forest() == old(store.sites.Forest());
      Submit(link, req);
    }

    ghost predicate ForestAfter(f: Forest<Request>, g: Forest<Request>, link: Link, req: Request)
      reads store`allowedHosts
    {
      g == if InScope(link) then Attempted(f, store.sites.limits, req) else f
    }

    method Submit(link: Link, req: Request)
      requires store.Valid() && store.ScopeOk() && Pipeline() && req !in store.stored && req.issues == map[]
      requires req.proto == link.proto && req.url == link.url && req.urlIsValid == link.urlIsValid
      modifies store`requestsById, store`requestId, store`probeQueue, store`stored, store`requests, store.sites, store.sites.repr, req`id
      ensures store.Valid() && store.ScopeOk() && Pipeline() && LinkAdded(link, old(Wanted(link)))
      ensures ForestAfter(old(store.sites.Forest()), store.sites.Forest(), link, req)
      ensures fresh(store.sites.repr - old(store.sites.repr))
    {
      hide DataStore.IdsOk, DataStore.IssuesOk, DataStore.SitesOk, DataStore.ScopeOk;
      ghost var before := crawled + store.crawlQueue;
      var id := store.AddRequest(req);
      assert before + (old(store.probeQueue) + [req]) == before + old(store.probeQueue) + [req];
    }

    lemma StillCovered(before: seq<Link>, f: Forest<Request>, g: Forest<Request>, req: Request, link: Link)
      requires Tree(f) && CoveredBy(before, f) && req.proto == link.proto
      requires ForestAfter(f, g, link, req)
      ensures CoveredBy(before + [link], g)
    {
      if InScope(link) {
        forall l | l in before + [link] && DistinctParams(l.proto) && InScope(l)
          ensures !Placeable(g, store.sites.limits, l.proto)
        {
          if l in before {
            NoPlaceStays(f, store.sites.limits, req, l.proto);
          } else {
            NoPlaceAfter(f, store.sites.limits, req);
          }
        }
      }
    }

    method ProbeStep(probes: nat)
      requires store.IdsOk() && Pipeline() && client.Valid() && Scheduled()
      modifies store`probeQueue, store`crawlQueue, client`scheduleQueue, client`accepted
      ensures Pipeline() && client.Valid() && Scheduled()
      ensures if old(store.probeQueue) == [] then store.probeQueue == [] && store.crawlQueue == old(store.crawlQueue)
              else && store.probeQueue == old(store.probeQueue)[1..]
                   && store.crawlQueue == old(store.crawlQueue) + [old(store.probeQueue)[0]]
      ensures client.scheduleQueue == old(client.scheduleQueue)
                + if client.enabled && old(store.probeQueue) != [] then Probes(probes) else []
      ensures client.accepted == old(client.accepted)
                + if client.enabled && old(store.probeQueue) != [] then Probes(probes) else []
    {
      if |store.probeQueue| > 0 {
        ShiftProbe(crawled, store.crawlQueue, store.probeQueue);
        assert store.stored[|crawled| + |store.crawlQueue|].id == |crawled| + |store.crawlQueue| + 1;
        var req := store.GetRequestFromProbeQueue();
        SendProbes(probes);
        store.AddRequestToCrawlQueue(store.GetRequestById(req.id));
      }
    }

    method CrawlStep()
      requires store.IdsOk() && Pipeline() && client.Valid() && Scheduled()
      modifies this`crawled, store`crawlQueue, client`scheduleQueue, client`accepted
      ensures Pipeline() && client.Valid() && Scheduled()
      ensures if old(store.crawlQueue) == [] then store.crawlQueue == [] && crawled == old(crawled)
              else && store.crawlQueue == old(store.crawlQueue)[1..]
                   && crawled == old(crawled) + [old(store.crawlQueue)[0]]
      ensures client.scheduleQueue == old(client.scheduleQueue)
                + if client.enabled && old(store.crawlQueue) != [] then [Crawl(|old(crawled)| + 1)] else []
      ensures client.accepted == old(client.accepted)
                + if client.enabled && old(store.crawlQueue) != [] then [Crawl(|old(crawled)| + 1)] else []
    {
      if |store.crawlQueue| > 0 {
        ShiftCrawl(crawled, store.crawlQueue, store.probeQueue);
        assert store.stored[|crawled|].id == |crawled| + 1;
        var req := store.GetRequestFromCrawlQueue();
        CrawlIdsSnoc(client.accepted, Crawl(req.id));
        var ok := client.Schedule(Crawl(req.id));
        crawled := crawled + [store.GetRequestById(req.id)];
      }
    }

    method AddLinks(links: seq<Link>, ghost before: seq<Link>)
      requires store.Valid() && store.ScopeOk() && Pipeline() && CoveredBy(before, store.sites.Forest())
      modifies store`requestsById, store`requestId, store`probeQueue, store`stored, store`requests, store.sites, store.sites.repr
      ensures store.Valid() && store.ScopeOk() && Pipeline() && CoveredBy(before + links, store.sites.Forest())
      ensures links == [] ==> store.probeQueue == old(store.probeQueue)
      ensures fresh(store.sites.repr - old(store.sites.repr))
    {
      assert before + links[..0] == before;
      for i := 0 to |links|
        invariant store.Valid() && store.ScopeOk() && Pipeline() && CoveredBy(before + links[..i], store.sites.Forest())
        invariant i == 0 ==> store.probeQueue == old(store.probeQueue)
        invariant fresh(store.sites.repr - old(store.sites.repr))
      {
        assert before + links[..i + 1] == before + links[..i] + [links[i]];
        AddLink(links[i], before + links[..i]);
      }
      assert links[..|links|] == links;
    }

    method CompleteAll(done: set<Handle>)
      requires client.Valid()
      modifies client`running, client`completed, client`handleCount
      ensures client.Valid() && client.running == old(client.running) - done
    {
      var left := done;
      while left != {}
        invariant client.Valid() && left <= done && client.running == old(client.running) - (done - left)
        decreases left
      {
        var h :| h in left;
        left := left - {h};
        if h in client.running {
          client.Complete(h);
        }
      }
    }

    /** The part of a turn that feeds the client. */
    method Feed(turn: Turn)
      requires store.IdsOk() && Pipeline() && client.Valid() && Scheduled() && Protocol() && store.crawlQueue == []
      modifies this`crawled, this`enabled, this`shutdownTime, this`events
      modifies store`probeQueue, store`crawlQueue, client`scheduleQueue, client`accepted, client`enabled, clock
      ensures Pipeline() && client.Valid() && Scheduled() && Protocol() && OnlyOff() && store.crawlQueue == []
      ensures Fed(turn) && Heard(LateSignals(turn), 0)
      ensures !old(client.enabled) ==> client.accepted == old(client.accepted)
    {
      hide CurlHttpClient.Valid;
      ghost var heard := SignalsOf(events);
      Associate(heard, turn.signals1, turn.signals2);
      Associate(heard, turn.signals1 + turn.signals2, turn.signals3);
      FeedProbe(turn);
      FeedCrawl(turn);
      SendMore(turn);
    }

    method FeedProbe(turn: Turn)
      requires store.IdsOk() && Pipeline() && client.Valid() && Scheduled() && Protocol() && store.crawlQueue == []
      modifies this`enabled, this`shutdownTime, this`events, clock
      modifies store`probeQueue, store`crawlQueue, client`scheduleQueue, client`accepted, client`enabled
      ensures Pipeline() && client.Valid() && Scheduled() && Protocol() && OnlyOff() && Heard(turn.signals1, 0)
      ensures if old(store.probeQueue) == [] then store.probeQueue == [] && store.crawlQueue == []
              else |store.crawlQueue| == 1 && store.probeQueue == old(store.probeQueue)[1..]
      ensures client.enabled ==>
              var more := if old(store.probeQueue) == [] then [] else Probes(turn.probes);
              client.scheduleQueue == old(client.scheduleQueue) + more && client.accepted == old(client.accepted) + more
      ensures !old(client.enabled) ==> client.accepted == old(client.accepted)
    {
      HandleSignals(turn.signals1);
      label signalled:
      ProbeStep(turn.probes);
      ProtocolKept@signalled();
    }

    method FeedCrawl(turn: Turn)
      requires store.IdsOk() && Pipeline() && client.Valid() && Scheduled() && Protocol() && |store.crawlQueue| <= 1
      modifies this`crawled, this`enabled, this`shutdownTime, this`events
      modifies store`crawlQueue, client`scheduleQueue, client`accepted, client`enabled, clock
      ensures Pipeline() && client.Valid() && Scheduled() && Protocol() && OnlyOff() && store.crawlQueue == []
      ensures Heard(turn.signals2, 0)
      ensures client.enabled ==>
              var more := if old(store.crawlQueue) == [] then [] else [Crawl(|old(crawled)| + 1)];
              client.scheduleQueue == old(client.scheduleQueue) + more && client.accepted == old(client.accepted) + more
      ensures !old(client.enabled) ==> client.accepted == old(client.accepted)
    {
      HandleSignals(turn.signals2);
      label signalled:
      CrawlStep();
      ProtocolKept@signalled();
    }

    method SendMore(turn: Turn)
      requires client.Valid() && Scheduled() && Protocol()
      modifies this`enabled, this`shutdownTime, this`events, client`scheduleQueue, client`accepted, client`enabled, clock
      ensures client.Valid() && Scheduled() && Protocol() && OnlyOff() && Heard(turn.signals3, 0)
      ensures var more := if old(client.enabled) then Probes(turn.objects) + Probes(turn.tests) else [];
              client.scheduleQueue == old(client.scheduleQueue) + more && client.accepted == old(client.accepted) + more
    {
      SendProbes(turn.objects);
      SendProbes(turn.tests);
      HandleSignals(turn.signals3);
    }

    /** What the loop keeps about the client. */
    ghost predicate ClientOk()
      reads this`crawled, this`stalls, client, client.limiter, clock
    {
      client.Valid() && client.InStepWith(clock) && Scheduled() && StallsOk()
    }

    /** What the loop makes of StartNewRequests: with the client on, something waiting is started, or there is a
        reason why not. */
    method StartRequests()
      requires ClientOk()
      modifies this`stalls, client, client.limiter, clock
      ensures ClientOk() && old(clock.now) <= clock.now
      ensures client.enabled == old(client.enabled) && client.accepted == old(client.accepted)
      ensures !client.enabled ==> client.performed == old(client.performed)
      ensures |client.scheduleQueue| <= |old(client.scheduleQueue)| && (!client.enabled ==> client.scheduleQueue == old(client.scheduleQueue))
      ensures |old(stalls)| <= |stalls| <= |old(stalls)| + 1
      ensures client.enabled && old(client.scheduleQueue) != [] && |stalls| == |old(stalls)| ==>
              |client.scheduleQueue| < |old(client.scheduleQueue)|
      ensures |stalls| > |old(stalls)| ==>
              && client.enabled && |client.scheduleQueue| == |old(client.scheduleQueue)| > 0
              && stalls[|old(stalls)|] == if old(client.handleCount) >= client.maxActive
                                          then NoConnection(old(client.handleCount)) else NoSlot(|old(client.limiter.calls)|)
    {
      ghost var queue, calls, handles := |client.scheduleQueue|, client.limiter.calls, client.handleCount;
      Launch();
      if client.enabled && queue > 0 && |client.scheduleQueue| == queue {
        stalls := stalls + [if handles >= client.maxActive then NoConnection(handles) else NoSlot(|calls|)];
      }
    }

    method Launch()
      requires ClientOk()
      modifies client`scheduleQueue, client`running, client`handleCount, client`nextHandle, client`performed
      modifies client`taken, client`failed, client`starts, client`counted, client.limiter, clock
      ensures ClientOk() && old(clock.now) <= clock.now
      ensures client.Shorter(client.enabled && old(client.handleCount) < client.maxActive)
      ensures !client.enabled ==> client.performed == old(client.performed) && client.scheduleQueue == old(client.scheduleQueue)
    {
      hide AskedBetween, MovedBetween;
      ghost var calls := client.limiter.calls;
      var started := client.StartNewRequests(clock);
      CallsStay(calls, client.limiter.calls, client.limiter.maxRate);
    }

    lemma CallsStay(before: seq<int>, after: seq<int>, maxRate: int)
      requires |before| <= |after| && after[..|before|] == before
      ensures forall i: nat | i < |before| :: InTime(after, maxRate, i) == InTime(before, maxRate, i)
    {
      forall i: nat | i < |before| ensures InTime(after, maxRate, i) == InTime(before, maxRate, i) {
        assert after[..i] == after[..|before|][..i] && after[i] == after[..|before|][i];
      }
    }

    /** The part of a turn that starts requests and completes transfers, whose callbacks may ask for more. */
    method Serve(turn: Turn)
      requires ClientOk() && Protocol()
      modifies this`enabled, this`shutdownTime, this`events, this`stalls, client, client.limiter, clock
      ensures ClientOk() && Protocol() && OnlyOff() && Served(turn) && Heard(turn.signals0, 0)
      ensures !old(client.enabled) ==> client.performed == old(client.performed) && client.accepted == old(client.accepted)
    {
      hide CurlHttpClient.Paced, StallsOk, SignalsOf, ChecksOf, Protocol, CrawlIds, UpTo;
      HandleSignals(turn.signals0);
      label signalled:
      StartRequests();
      ProtocolKept@signalled();
      CompleteAll(turn.completed);
      SendProbes(turn.requested);
    }

    /** Nothing that completes runs any more; and with the client on to its end, something that waited was started
        or there is one more reason why not, and the client has accepted what the callbacks asked for. */
    twostate predicate Served(turn: Turn)
      reads this`stalls, client
    {
      && (forall h | h in client.running :: h !in turn.completed)
      && |old(stalls)| <= |stalls| <= |old(stalls)| + 1
      && (client.enabled ==>
            && |client.accepted| == |old(client.accepted)| + turn.requested
            && |client.scheduleQueue| <= |old(client.scheduleQueue)| + turn.requested
            && (old(client.scheduleQueue) != [] && |stalls| == |old(stalls)| ==>
                  |client.scheduleQueue| < |old(client.scheduleQueue)| + turn.requested))
    }

    twostate lemma ProtocolKept()
      requires old(Protocol()) && unchanged(this`enabled, this`shutdownTime, this`events) && client.enabled == old(client.enabled) && old(clock.now) <= clock.now
      ensures Protocol()
    {
    }

    /** The rest of the turn, up to the loop condition: the loop goes on exactly if the scanner is still on and
        something runs or waits. */
    method Conclude(turn: Turn) returns (again: bool)
      requires ClientOk() && store.IdsOk() && Pipeline() && Protocol() && store.crawlQueue == []
      modifies this`crawled, this`enabled, this`shutdownTime, this`events
      modifies client`enabled, client`scheduleQueue, client`accepted, clock, store`probeQueue, store`crawlQueue
      ensures ClientOk() && Pipeline() && Protocol() && OnlyOff() && store.crawlQueue == []
      ensures again <==> GoesOn()
      ensures !again && enabled && client.enabled ==> store.probeQueue == []
      ensures Fed(turn) && Heard(LateSignals(turn), 1)
      ensures !old(client.enabled) ==> client.accepted == old(client.accepted)
      ensures !old(client.enabled) && old(shutdownTime) <= old(clock.now) ==> !again
    {
      hide SignalsOf, ChecksOf, Protocol, CrawlIds, UpTo, StallsOk;
      Feed(turn);
      var goOn := CheckDeadline();
      again := goOn && (|client.running| > 0 || |client.scheduleQueue| > 0);
    }

    /** With the client on to its end, a request to probe and what goes with it is accepted. */
    twostate predicate Fed(turn: Turn)
      reads store`probeQueue, client`enabled, client`scheduleQueue, client`accepted
    {
      && store.probeQueue == (if old(store.probeQueue) == [] then [] else old(store.probeQueue)[1..])
      && var more := (if old(store.probeQueue) == [] then 0 else turn.probes + 1) + turn.objects + turn.tests;
         client.enabled ==>
           && |client.scheduleQueue| == |old(client.scheduleQueue)| + more
           && |client.accepted| == |old(client.accepted)| + more
    }

    /** StartNewRequests and Poll: requests are started, transfers complete, links and issues come in. */
    method Exchange(turn: Turn)
      requires Valid()
      modifies this`enabled, this`shutdownTime, this`events, this`stalls, this`offered, client, client.limiter, clock
      modifies store`requestsById, store`requestId, store`probeQueue, store`stored, store`requests
      modifies store.sites, store.sites.repr
      ensures Valid() && OnlyOff() && Served(turn) && Heard(turn.signals0, 0) && offered == old(offered) + turn.links
      ensures turn.links == [] ==> store.probeQueue == old(store.probeQueue)
      ensures !old(client.enabled) ==> client.performed == old(client.performed) && client.accepted == old(client.accepted)
      ensures fresh(store.sites.repr - old(store.sites.repr))
    {
      hide Valid;
      ServeTurn(turn);
      TakeLinks(turn.links);
    }

    method TakeLinks(links: seq<Link>)
      requires Valid()
      modifies this`offered
      modifies store`requestsById, store`requestId, store`probeQueue, store`stored, store`requests, store.sites, store.sites.repr
      ensures Valid() && offered == old(offered) + links
      ensures links == [] ==> store.probeQueue == old(store.probeQueue)
      ensures fresh(store.sites.repr - old(store.sites.repr))
    {
      hide CoveredBy, CurlHttpClient.Valid, Protocol, ClientOk, DataStore.IdsOk, DataStore.IssuesOk, DataStore.SitesOk, DataStore.ScopeOk;
      offered := offered + links;
      AddLinks(links, old(offered));
      ClientFramed();
      ProtocolKept();
    }

    method ServeTurn(turn: Turn)
      requires Valid()
      modifies this`enabled, this`shutdownTime, this`events, this`stalls, client, client.limiter, clock
      ensures Valid() && OnlyOff() && Served(turn) && Heard(turn.signals0, 0)
      ensures !old(client.enabled) ==> client.performed == old(client.performed) && client.accepted == old(client.accepted)
    {
      Serve(turn);
      StoreFramed();
    }

    twostate lemma ClientFramed()
      requires old(ClientOk()) && unchanged(this`crawled, this`stalls) && unchanged(client) && unchanged(client.limiter) && unchanged(clock)
      ensures ClientOk()
    {
    }

    ghost function LoadNow(): Load
      reads this`stalls, client`accepted, client`scheduleQueue, store`probeQueue
    {
      Load(|store.probeQueue|, |client.scheduleQueue|, |client.accepted|, |stalls|)
    }

    /** In a quiet turn that completes what runs, with the client on to its end, there is less to do afterwards or
        one more reason why nothing was started. */
    twostate predicate Progressed(turn: Turn)
      reads this`stalls, client, store`probeQueue
    {
      && |old(stalls)| <= |stalls|
      && (client.enabled && Quiet(turn) ==> Lighter(old(LoadNow()), LoadNow()))
      && (Completes(turn, |client.taken|) ==> client.running == map[])
    }

    method OneTurn(turn: Turn) returns (again: bool)
      requires Valid() && store.crawlQueue == []
      modifies this, client, client.limiter, clock
      modifies store`requestsById, store`requestId, store`probeQueue, store`stored, store`requests, store`crawlQueue
      modifies store.sites, store.sites.repr
      ensures Valid() && OnlyOff() && store.crawlQueue == [] && offered == old(offered) + turn.links
      ensures Heard(turn.signals0 + LateSignals(turn), 1)
      ensures again <==> GoesOn()
      ensures !again && enabled && client.enabled ==> store.probeQueue == []
      ensures Progressed(turn)
      ensures !old(client.enabled) ==> client.accepted == old(client.accepted) && client.performed == old(client.performed)
      ensures !old(client.enabled) && old(shutdownTime) <= old(clock.now) ==> !again
      ensures fresh(store.sites.repr - old(store.sites.repr))
    {
      hide Valid;
      ghost var before := LoadNow();
      Associate(SignalsOf(events), turn.signals0, LateSignals(turn));
      Exchange(turn);
      ghost var between := LoadNow();
      again := ConcludeTurn(turn);
      NoneRuns(turn);
      if client.enabled && Quiet(turn) {
        assert LoadServed(before, between) && LoadFed(between, LoadNow());
        GetsLighter(before, between, LoadNow());
      }
    }

    method ConcludeTurn(turn: Turn) returns (again: bool)
      requires Valid() && store.crawlQueue == []
      modifies this`crawled, this`enabled, this`shutdownTime, this`events
      modifies client`enabled, client`scheduleQueue, client`accepted, clock, store`probeQueue, store`crawlQueue
      ensures Valid() && OnlyOff() && store.crawlQueue == []
      ensures again <==> GoesOn()
      ensures !again && enabled && client.enabled ==> store.probeQueue == []
      ensures Fed(turn) && Heard(LateSignals(turn), 1)
      ensures !old(client.enabled) ==> client.accepted == old(client.accepted)
      ensures !old(client.enabled) && old(shutdownTime) <= old(clock.now) ==> !again
    {
      again := Conclude(turn);
      StoreFramed();
    }

    /** Every request that was passed to the crawler has an allowed host and a valid URL in scope. */
    lemma CrawledInScope()
      requires Valid()
      ensures forall req | req in crawled ::
        HostOf(req.proto) in store.allowedHosts && store.urlInScope(req.url) && req.urlIsValid
    {
      forall req | req in crawled ensures req in store.stored {
        assert req in crawled + store.crawlQueue + store.probeQueue;
      }
    }

    lemma NoneRuns(turn: Turn)
      requires Valid() && forall h | h in client.running :: h !in turn.completed
      ensures Completes(turn, |client.taken|) ==> client.running == map[]
    {
    }

    twostate lemma StoreFramed()
      requires old(store.Valid() && Covered()) && unchanged(this`offered)
      requires unchanged(store`stored, store`requests, store`requestId, store`requestsById, store`allowedHosts)
      requires unchanged(store.sites) && unchanged(store.sites.repr, store.book, store.requests)
      ensures store.Valid() && Covered()
    {
    }

    /** Every stored request was crawled, once and in the order of ids, and the client accepted it. */
    ghost predicate Finished()
      reads this`crawled, store, client`accepted
    {
      && store.probeQueue == [] && store.crawlQueue == [] && crawled == store.stored && store.requestId == |crawled|
      && CrawlIds(client.accepted) == UpTo(|crawled|)
    }

    /** With both queues empty, every stored request was crawled and accepted once, in the order of ids. */
    lemma AllCrawled()
      requires store.IdsOk() && Pipeline() && Scheduled() && client.enabled && store.crawlQueue == [] && store.probeQueue == []
      ensures Finished()
    {
      assert crawled + [] + [] == crawled;
    }

    /** Any finite part of a run, one environment turn per turn of the loop. `returned` says that
        the loop ended by itself, after `taken` turns: then nothing runs or waits, or the scanner is off.
        A turn that starts with the client off and the deadline behind it ends it; and with the client on, so does
        a run of quiet turns that complete what runs, once there are as many as there was work and reasons to wait. */
    method Run(turns: seq<Turn>) returns (returned: bool, ghost taken: nat)
      requires Valid() && store.crawlQueue == []
      modifies this, client, client.limiter, clock
      modifies store`requestsById, store`requestId, store`probeQueue, store`stored, store`requests, store`crawlQueue
      modifies store.sites, store.sites.repr
      ensures Valid() && OnlyOff() && store.crawlQueue == []
      ensures taken <= |turns| && OfferedBy(old(offered), turns, taken)
      ensures Heard(SignalsIn(turns, taken), taken)
      ensures !returned ==> taken == |turns| && (turns == [] || GoesOn())
      ensures returned ==> !enabled || (client.running == map[] && client.scheduleQueue == [])
      ensures returned && enabled && client.enabled ==> Finished()
      ensures var handles := |old(client.accepted)| + |old(store.probeQueue)|;
              && client.enabled && turns != [] && (forall turn | turn in turns :: Quiet(turn) && Completes(turn, handles))
              && |turns| >= old(LoadNow()).Work() + |stalls| - |old(stalls)|
              ==> returned
      ensures !old(client.enabled) ==> client.accepted == old(client.accepted) && client.performed == old(client.performed)
      ensures !old(client.enabled) && old(shutdownTime) <= old(clock.now) && turns != [] ==> returned
    {
      hide Valid, SignalsOf, ChecksOf, LateSignals, DistinctParams, CoveredBy;
      returned, taken := false, 0;
      assert SignalsOf(events) + SignalsIn(turns, 0) == SignalsOf(events);
      ghost var links, handles, load := offered, |client.accepted| + |store.probeQueue|, LoadNow();
      NoneOffered(turns);
      ghost var quiet := forall turn | turn in turns :: Quiet(turn) && Completes(turn, handles);
      for i := 0 to |turns|
        invariant Valid() && OnlyOff() && store.crawlQueue == [] && taken == i
        invariant OfferedBy(links, turns, i) && Heard(SignalsIn(turns, i), i)
        invariant i == 0 || GoesOn()
        invariant quiet && client.enabled ==> QuietFor(i, handles, load)
        invariant !old(client.enabled) ==>
                  client.accepted == old(client.accepted) && client.performed == old(client.performed)
        invariant fresh(store.sites.repr - old(store.sites.repr))
        invariant !old(client.enabled) && old(shutdownTime) <= old(clock.now) ==> i == 0
      {
        assert turns[i] in turns;
        var signals := turns[i].signals0 + LateSignals(turns[i]);
        Associate(SignalsOf(old(events)), SignalsIn(turns, i), signals);
        Associate(SignalsIn(turns, i), turns[i].signals0, LateSignals(turns[i]));
        var again := NextTurn(turns[i], links, turns, quiet, i, handles, load);
        taken := i + 1;
        if !again {
          return true, i + 1;
        }
      }
    }

    /** One turn, and what it means for the work left. */
    method NextTurn(turn: Turn, ghost links: seq<Link>, ghost turns: seq<Turn>, ghost quiet: bool, ghost n: nat,
                    ghost handles: nat, ghost load: Load)
      returns (again: bool)
      requires Valid() && store.crawlQueue == [] && n < |turns| && turns[n] == turn && OfferedBy(links, turns, n)
      requires quiet ==> Quiet(turn) && Completes(turn, handles)
      requires quiet && client.enabled ==> QuietFor(n, handles, load)
      modifies this, client, client.limiter, clock
      modifies store`requestsById, store`requestId, store`probeQueue, store`stored, store`requests, store`crawlQueue
      modifies store.sites, store.sites.repr
      ensures Valid() && OnlyOff() && store.crawlQueue == [] && OfferedBy(links, turns, n + 1)
      ensures Heard(turn.signals0 + LateSignals(turn), 1)
      ensures again <==> GoesOn()
      ensures !again && enabled && client.enabled ==> Finished()
      ensures again && quiet && client.enabled ==> QuietFor(n + 1, handles, load)
      ensures !old(client.enabled) ==> client.accepted == old(client.accepted) && client.performed == old(client.performed)
      ensures !old(client.enabled) && old(shutdownTime) <= old(clock.now) ==> !again
      ensures fresh(store.sites.repr - old(store.sites.repr))
    {
      again := OneTurn(turn);
      Associate(links, LinksIn(turns, n), turn.links);
      if !again && enabled && client.enabled {
        AllCrawled();
      }
    }

    /** What was offered since is the links of the first n turns, in order. */
    ghost predicate OfferedBy(before: seq<Link>, turns: seq<Turn>, n: nat)
      requires n <= |turns|
      reads this`offered
    {
      offered == before + LinksIn(turns, n)
    }

    lemma NoneOffered(turns: seq<Turn>)
      ensures OfferedBy(offered, turns, 0)
    {
    }

    /** The loop condition. */
    ghost predicate GoesOn()
      reads this`enabled, client`running, client`scheduleQueue
    {
      enabled && (client.running != map[] || client.scheduleQueue != [])
    }

    /** After n quiet turns each has cost some work, or has its reason to wait. */
    ghost predicate QuietFor(n: nat, handles: nat, load: Load)
      reads this`stalls, client`accepted, client`scheduleQueue, store`probeQueue
    {
      && |client.accepted| + |store.probeQueue| <= handles
      && LoadNow().Work() + n + load.stalls <= load.Work() + |stalls| && (n > 0 ==> LoadNow().Work() > 0)
    }
  }
}
