/** The store of a scan: site tree, id map, issue indexes and queues (datastore.cc). */
module Store {
  import opened Requests
  import opened Forests
  import opened Findings
  import opened Sites
  import opened Issues

  lemma {:induction false} NoFindings(log: Log, id: int, kind: IssueType)
    requires forall f | f in log :: f.id != id
    ensures Of(log, id, kind) == []
  {
    if log != [] {
      assert log[|log| - 1] in log;
      NoFindings(log[..|log| - 1], id, kind);
    }
  }

  class DataStore {
    const sites: SiteTree
    const book: IssueBook
    /** The verdict of the white- and blacklist expressions on a URL. */
    const urlInScope: string -> bool

    var allowedHosts: set<string>
    var requestsById: map<int, Request>
    var requestId: int
    var auditQueue: seq<Request>
    var crawlQueue: seq<Request>
    var probeQueue: seq<Request>

    /** The stored requests in the order of their ids. */
    ghost var stored: seq<Request>
    ghost var requests: set<Request>

    // -------------------------------------------------------------- invariants

    /** Ids are 1..n and the id map is a bijection onto the stored requests. */
    ghost predicate IdsOk()
      reads this`stored, this`requests, this`requestId, this`requestsById, requests`id
    {
      && requestId == |stored|
      && (forall i :: i in requestsById <==> 1 <= i <= requestId)
      && (forall i | 1 <= i <= requestId :: requestsById[i] == stored[i - 1])
      && (forall i | 0 <= i < |stored| :: stored[i] in requests && stored[i].id == i + 1)
    }

    ghost predicate IssuesOk()
      reads this`stored, this`requests, book, requests`issues
    {
      && book.Valid()
      && (forall i | 0 <= i < |stored| :: stored[i] in requests && Mirrors(stored[i].issues, book.log, i + 1))
      && (forall f | f in book.log :: 1 <= f.id <= |stored|)
    }

    ghost predicate SitesOk()
      reads this`stored, sites, sites.repr
    {
      && sites.Valid()
      && Placed(sites.Forest(), stored)
      && WithinLimits(sites.Forest(), sites.limits)
    }

    ghost predicate Valid()
      reads this`stored, this`requests, this`requestId, this`requestsById, sites, sites.repr, book, requests
    {
      IdsOk() && IssuesOk() && SitesOk()
    }

    twostate lemma RequestsFramed()
      requires old(IdsOk() && IssuesOk())
      requires unchanged(this) && unchanged(book) && unchanged(requests)
      ensures IdsOk() && IssuesOk()
    {
    }

    twostate lemma SitesFramed(f: Forest<Request>)
      requires old(sites.Valid()) && old(sites.Forest()) == f
      requires unchanged(sites) && unchanged(sites.repr)
      ensures sites.Valid() && sites.Forest() == f
    {
    }

    constructor (limits: Limits, issueLimits: IssueLimits, urlInScope: string -> bool)
      ensures Valid() && fresh(sites) && fresh(book) && sites.repr == {}
      ensures sites.limits == limits && book.limits == issueLimits && this.urlInScope == urlInScope
      ensures stored == [] && probeQueue == [] && crawlQueue == [] && auditQueue == [] && allowedHosts == {} && ScopeOk()
    {
      sites := new SiteTree(limits);
      book := new IssueBook(issueLimits);
      this.urlInScope := urlInScope;
      allowedHosts, requestsById, requestId, stored, requests := {}, map[], 0, [], {};
      auditQueue, crawlQueue, probeQueue := [], [], [];
    }

    method AddHost(host: string)
      modifies this`allowedHosts
      ensures allowedHosts == old(allowedHosts) + {host} && (old(ScopeOk()) ==> ScopeOk())
    {
      allowedHosts := allowedHosts + {host};
    }

    // -------------------------------------------------------------- requests

    predicate InScope(req: Request)
      reads this`allowedHosts
    {
      HostOf(req.proto) in allowedHosts && urlInScope(req.url) && req.urlIsValid
    }

    /** Nothing out of scope was ever stored. */
    ghost predicate ScopeOk()
      reads this`allowedHosts, this`stored
    {
      forall req | req in stored :: InScope(req)
    }

    /** The tree has room for the request and does not hold it yet. */
    ghost predicate HasPlace(req: Request)
      requires sites.Valid()
      reads this, sites, sites.repr
    {
      Placeable(sites.Forest(), sites.limits, req.proto)
    }

    /** The forest after an attempt to store the request. */
    ghost function ForestWith(req: Request): Forest<Request>
      requires sites.Valid()
      reads this, sites, sites.repr
    {
      Attempted(sites.Forest(), sites.limits, req)
    }

    ghost predicate Accepts(req: Request)
      requires sites.Valid()
      reads this, sites, sites.repr
    {
      InScope(req) && HasPlace(req)
    }

    /** The refused request would leave new pivots behind. */
    ghost predicate Littering(req: Request)
      requires sites.Valid()
      reads this, sites, sites.repr
    {
      InScope(req) && Litters(sites.Forest(), AddressOf(req.proto), sites.limits)
    }

    method AddRequestToIdMap(req: Request) returns (id: int)
      requires IdsOk() && req !in stored
      modifies this`requestsById, this`requestId, this`probeQueue, this`stored, this`requests, req`id
      ensures IdsOk() && stored == old(stored) + [req] && id == |stored|
      ensures probeQueue == old(probeQueue) + [req] && requests == old(requests) + {req}
    {
      requestId := requestId + 1;
      req.id := requestId;
      requestsById := requestsById[requestId := req];
      AddRequestToProbeQueue(req);
      stored, requests := stored + [req], requests + {req};
      id := req.id;
    }

    /** A request just added has no issues yet, in its own map as in the log. */
    twostate lemma NewRequestMirrors()
      requires old(IssuesOk()) && stored != [] && old(stored) == stored[..|stored| - 1]
      requires forall i | 0 <= i < |stored| :: stored[i] in requests
      requires unchanged(book) && stored[|stored| - 1].issues == map[]
      requires forall i | 0 <= i < |old(stored)| :: stored[i].issues == old(stored[i].issues)
      ensures IssuesOk()
    {
      var n, id := |stored| - 1, |stored|;
      forall kind ensures Of(book.log, id, kind) == [] {
        NoFindings(book.log, id, kind);
      }
      forall i | 0 <= i < n ensures Mirrors(stored[i].issues, book.log, i + 1) {
        assert old(stored)[i] == stored[i];
      }
    }

    method AddRequest(req: Request) returns (id: int)
      requires Valid() && req !in stored && req.issues == map[]
      modifies this`requestsById, this`requestId, this`probeQueue, this`stored, this`requests, sites, sites.repr, req`id
      ensures Valid() && (old(ScopeOk()) ==> ScopeOk())
      ensures old(Accepts(req)) ==>
              id == |stored| && stored == old(stored) + [req] && probeQueue == old(probeQueue) + [req]
      ensures !old(Accepts(req)) ==>
              && id == INVALID_ID && stored == old(stored) && probeQueue == old(probeQueue)
              && requestsById == old(requestsById)
              && (sites.Forest() == old(sites.Forest()) <==> !old(Littering(req)))
      ensures sites.Forest() == if old(InScope(req)) then old(ForestWith(req)) else old(sites.Forest())
      ensures sites.limits.samples != 0 && sites.limits.children != 0 ==> !old(Littering(req))
      ensures fresh(sites.repr - old(sites.repr)) && requests <= old(requests) + {req}
    {
      hide ScopeOk;
      if HostOf(req.proto) !in allowedHosts {
        return INVALID_ID;
      }
      if !urlInScope(req.url) {
        return INVALID_ID;
      }
      if !req.urlIsValid {
        return INVALID_ID;
      }
      ghost var f, addr := sites.Forest(), AddressOf(req.proto);
      ghost var duplicate := Duplicate(SamplesAt(f, addr), req.proto);
      sites.ForestIsTree();
      if !Fits(f, addr, sites.limits, duplicate) {
        RefusalIsAtomicUnless(f, addr, sites.limits, duplicate, req);
      }
      id := AddRequestToPivot(req);
      ScopeKept(req);
    }

    twostate lemma ScopeKept(req: Request)
      requires allowedHosts == old(allowedHosts) && InScope(req)
      requires stored == old(stored) || stored == old(stored) + [req]
      ensures old(ScopeOk()) ==> ScopeOk()
    {
    }

    method AddRequestToPivot(req: Request) returns (id: int)
      requires Valid() && req !in stored && req.issues == map[]
      modifies this`requestsById, this`requestId, this`probeQueue, this`stored, this`requests, sites, sites.repr, req`id
      ensures Valid() && sites.Forest() == old(ForestWith(req))
      ensures old(HasPlace(req)) ==>
              id == |stored| && stored == old(stored) + [req] && probeQueue == old(probeQueue) + [req]
      ensures !old(HasPlace(req)) ==>
              && id == INVALID_ID && stored == old(stored) && probeQueue == old(probeQueue)
              && requestsById == old(requestsById)
      ensures fresh(sites.repr - old(sites.repr)) && requests <= old(requests) + {req}
    {
      var request := PlaceRequest(req);
      RequestsFramed();
      if request == null {
        return INVALID_ID;
      }
      id := Enlist(request);
    }

    /** A request that has its place in the tree gets its id. */
    method Enlist(req: Request) returns (id: int)
      requires IdsOk() && IssuesOk() && req !in stored && req.issues == map[]
      requires sites.Valid() && WithinLimits(sites.Forest(), sites.limits) && Placed(sites.Forest(), stored + [req])
      modifies this`requestsById, this`requestId, this`probeQueue, this`stored, this`requests, req`id
      ensures Valid() && sites.Forest() == old(sites.Forest())
      ensures stored == old(stored) + [req] && id == |stored| && probeQueue == old(probeQueue) + [req]
      ensures requests == old(requests) + {req}
    {
      id := AddRequestToIdMap(req);
      NewRequestMirrors();
      SitesFramed(old(sites.Forest()));
    }

    /** The part of AddRequestToPivot that works on the tree. */
    method PlaceRequest(req: Request) returns (request: Request?)
      requires SitesOk() && req !in stored
      modifies sites, sites.repr
      ensures sites.Valid() && WithinLimits(sites.Forest(), sites.limits)
      ensures Placed(sites.Forest(), if request == null then stored else stored + [req])
      ensures sites.Forest() == old(ForestWith(req))
      ensures request == if old(HasPlace(req)) then req else null
      ensures fresh(sites.repr - old(sites.repr))
    {
      ghost var f, addr := sites.Forest(), AddressOf(req.proto);
      sites.ForestIsTree();
      PlacedKept(f, stored, sites.limits, req);
      LimitsKept(f, addr, sites.limits, Duplicate(SamplesAt(f, addr), req.proto), req);
      request := sites.AddRequest(req);
    }

    function GetRequestById(id: int): (req: Request?)
      reads this
    {
      if id in requestsById then requestsById[id] else null
    }

    // -------------------------------------------------------------- issues

    method AddIssueDetails(id: int, issue: Issue) returns (added: bool)
      requires Valid()
      modifies book, requests`issues
      ensures Valid()
      ensures added <==> Admits(old(book.log), 1 <= id <= requestId, Finding(id, issue), book.limits)
      ensures book.log == Accounted(old(book.log), 1 <= id <= requestId, Finding(id, issue), book.limits)
    {
      var req := GetRequestById(id);
      if req == null {
        return false;
      }
      assert req == stored[id - 1] && req.id == id;
      added := AddIssueToRequest(req, issue);
      SitesFramed(old(sites.Forest()));
    }

    method AddIssueToRequest(req: Request, issue: Issue) returns (added: bool)
      requires IdsOk() && IssuesOk() && req in stored
      modifies book, req`issues
      ensures IssuesOk()
      ensures added <==> Admits(old(book.log), true, Finding(req.id, issue), book.limits)
      ensures book.log == Accounted(old(book.log), true, Finding(req.id, issue), book.limits)
    {
      ghost var f := Finding(req.id, issue);
      assert req == stored[f.id - 1];
      assert forall i | 0 <= i < |stored| && i + 1 != f.id :: stored[i] != req;
      assert Mirrors(req.issues, book.log, f.id - 1 + 1);
      added := book.Register(req, issue);
      assert book.log == old(book.log) || book.log == old(book.log) + [f];
      OthersMirror(f);
    }

    /** An issue of one request changes what no other request mirrors. */
    twostate lemma OthersMirror(f: Finding)
      requires old(forall i | 0 <= i < |stored| :: stored[i] in requests && Mirrors(stored[i].issues, book.log, i + 1))
      requires 1 <= f.id <= |stored| && unchanged(this)
      requires forall i | 0 <= i < |stored| && i + 1 != f.id :: stored[i].issues == old(stored[i].issues)
      requires Mirrors(stored[f.id - 1].issues, book.log, f.id)
      requires book.log == old(book.log) || book.log == old(book.log) + [f]
      ensures forall i | 0 <= i < |stored| :: Mirrors(stored[i].issues, book.log, i + 1)
    {
      forall i | 0 <= i < |stored| ensures Mirrors(stored[i].issues, book.log, i + 1) {
        if i + 1 != f.id {
          var issues := stored[i].issues;
          assert Mirrors(issues, old(book.log), i + 1);
          StillMirrors(issues, old(book.log), book.log, f, i + 1);
        }
      }
    }

    /** The issues in the maps of the requests, each with the id of its request. */
    ghost function HeldIssues(): set<Finding>
      reads this`requestsById, requestsById.Values
    {
      set id, f | id in requestsById && f in HeldIn(id, requestsById[id].issues) :: f
    }

    lemma HeldAreLogged()
      requires Valid()
      ensures HeldIssues() == Logged(book.log)
    {
      forall id | id in requestsById ensures HeldIn(id, requestsById[id].issues) == AllOn(book.log, id) {
        assert requestsById[id] == stored[id - 1];
        HeldIsLogged(id, stored[id - 1].issues, book.log);
      }
      forall f | f in book.log ensures f in HeldIssues() {
        assert f.id in requestsById && f in AllOn(book.log, f.id);
      }
    }

    /** In every reachable store: the index and the maps of the requests hold the same issues, none twice; the
        counter of a kind and that of a severity are the numbers of issues stored there. */
    lemma AccountsBalance(kind: IssueType, severity: Severity, id: int)
      requires Valid()
      ensures StoredIssues(book.perId) == HeldIssues()
      ensures Counter(book.checkCounters, kind) == |OfKind(HeldIssues(), kind)|
      ensures severity in book.severityCount && book.severityCount[severity] == |OfSeverity(HeldIssues(), severity)|
      ensures Counter(book.checkCounters, kind) == SumOverRequests(book.log, kind, requestId)
      ensures IssuesOf(KindMap(book.perId, id), kind) == Of(book.log, id, kind)
      ensures 1 <= id <= requestId ==> IssuesOf(requestsById[id].issues, kind) == Of(book.log, id, kind)
      ensures var issues := Of(book.log, id, kind); forall i, j | 0 <= i < j < |issues| :: issues[i] != issues[j]
    {
      StoredIsLogged(book.perId, book.log);
      HeldAreLogged();
      CountKindIsSize(book.log, kind);
      CountSeverityIsSize(book.log, severity);
      CountIsSum(book.log, kind, requestId);
      OfNoRepeats(book.log, id, kind);
      if 1 <= id <= requestId {
        assert Mirrors(stored[id - 1].issues, book.log, id);
      }
    }

    /** A copy of a stored request has no place exactly if its parameter names are distinct, so that the copy is
        found, or if its pivot is full. With a repeated name the copy is stored again. */
    lemma CopyHasPlace(req: Request, copy: Request)
      requires Valid() && req in stored && copy.proto == req.proto
      ensures HasPlace(copy) <==>
        !DistinctParams(req.proto) && !Reached(|SamplesAt(sites.Forest(), AddressOf(req.proto))|, sites.limits.samples)
    {
      var f, addr := sites.Forest(), AddressOf(req.proto);
      var i :| 0 <= i < |stored| && stored[i] == req;
      assert req in SamplesAt(f, addr);
      sites.ForestIsTree();
      WalkThrough(f, addr, 1, sites.limits);
      CopyIsDuplicate(f, stored, addr, req);
    }

    /** A request that differs in scheme, verb or port from every sample of its pivot is stored, given room. */
    lemma OtherVerbHasPlace(req: Request)
      requires Valid() && HasRoom(sites.Forest(), sites.limits, req.proto)
      requires forall q | q in SamplesAt(sites.Forest(), AddressOf(req.proto)) ::
                 q.proto.ssl != req.proto.ssl || q.proto.verb != req.proto.verb || q.proto.port != req.proto.port
      ensures HasPlace(req)
    {
      OtherPlaceFits(sites.Forest(), sites.limits, req.proto);
    }

    /** With host names set and no parameter names repeated, a request has a place exactly if there is room and no
        stored request has its scheme, verb, host, port, path values and sets of parameter names. */
    lemma HasPlaceByKey(req: Request)
      requires Valid() && DistinctParams(req.proto) && req.proto.host.Some?
      requires forall q | q in stored :: DistinctParams(q.proto) && q.proto.host.Some?
      ensures HasPlace(req) <==>
              HasRoom(sites.Forest(), sites.limits, req.proto) && forall q | q in stored :: KeyOf(q.proto) != KeyOf(req.proto)
    {
      PlaceableByKey(sites.Forest(), stored, sites.limits, req.proto);
    }

    // -------------------------------------------------------------- queues

    method AddRequestToProbeQueue(req: Request)
      modifies this`probeQueue
      ensures probeQueue == old(probeQueue) + [req]
    {
      probeQueue := probeQueue + [req];
    }

    method AddRequestToCrawlQueue(req: Request)
      modifies this`crawlQueue
      ensures crawlQueue == old(crawlQueue) + [req]
    {
      crawlQueue := crawlQueue + [req];
    }

    method AddRequestToAuditQueue(req: Request)
      modifies this`auditQueue
      ensures auditQueue == old(auditQueue) + [req]
    {
      auditQueue := auditQueue + [req];
    }

    method GetRequestFromAuditQueue() returns (req: Request?)
      modifies this`auditQueue
      ensures old(auditQueue) == [] ==> req == null && auditQueue == []
      ensures old(auditQueue) != [] ==> req == old(auditQueue)[0] && auditQueue == old(auditQueue)[1..]
    {
      if auditQueue == [] {
        return null;
      }
      req, auditQueue := auditQueue[0], auditQueue[1..];
    }

    method GetRequestFromProbeQueue() returns (req: Request?)
      modifies this`probeQueue
      ensures old(probeQueue) == [] ==> req == null && probeQueue == []
      ensures old(probeQueue) != [] ==> req == old(probeQueue)[0] && probeQueue == old(probeQueue)[1..]
    {
      if probeQueue == [] {
        return null;
      }
      req, probeQueue := probeQueue[0], probeQueue[1..];
    }

    method GetRequestFromCrawlQueue() returns (req: Request?)
      modifies this`crawlQueue
      ensures old(crawlQueue) == [] ==> req == null && crawlQueue == []
      ensures old(crawlQueue) != [] ==> req == old(crawlQueue)[0] && crawlQueue == old(crawlQueue)[1..]
    {
      if crawlQueue == [] {
        return null;
      }
      req, crawlQueue := crawlQueue[0], crawlQueue[1..];
    }
  }
}
