/** Stored requests and the tree of pivots they sit in (request.h, pivot.cc, datastore.cc). */
module Sites {
  import opened Requests
  import opened Forests
  import opened Findings

  const INVALID_ID: int := -1

  /** Where a request belongs: its host, then the values of its path elements. */
  function AddressOf(r: HttpRequest): Address {
    [HostOf(r)] + Values(r.path)
  }

  function Child(a: Address, name: string): (c: Address)
    ensures |c| == |a| + 1 && c[..|a|] == a && c[|a|] == name && Parent(c) == a
  {
    a + [name]
  }

  /** operator[] of the nested issue maps reads a missing set as empty. */
  function IssuesOf(m: map<IssueType, seq<Issue>>, kind: IssueType): seq<Issue> {
    if kind in m then m[kind] else []
  }

  class Request {
    const proto: HttpRequest
    const url: string
    const urlIsValid: bool
    var id: int
    var issues: map<IssueType, seq<Issue>>

    constructor (proto: HttpRequest, url: string, urlIsValid: bool)
      ensures this.proto == proto && this.url == url && this.urlIsValid == urlIsValid
      ensures id == INVALID_ID && issues == map[]
    {
      this.proto, this.url, this.urlIsValid := proto, url, urlIsValid;
      id, issues := INVALID_ID, map[];
    }

    method AddIssue(issue: Issue)
      modifies this`issues
      ensures issues == old(issues)[issue.kind := IssuesOf(old(issues), issue.kind) + [issue]]
    {
      issues := issues[issue.kind := IssuesOf(issues, issue.kind) + [issue]];
    }
  }

  predicate Duplicate(samples: seq<Request>, proto: HttpRequest) {
    exists q | q in samples :: SameRequest(q.proto, proto)
  }

  class Pivot {
    const name: string
    const limits: Limits
    ghost const address: Address
    var children: map<string, Pivot>
    var samples: seq<Request>

    constructor (name: string, limits: Limits, ghost address: Address)
      ensures this.name == name && this.limits == limits && this.address == address
      ensures children == map[] && samples == []
    {
      this.name, this.limits, this.address := name, limits, address;
      children, samples := map[], [];
    }

    method AddRequest(req: Request) returns (stored: Request?)
      modifies this`samples
      ensures stored == null <==> Reached(|old(samples)|, limits.samples) || Duplicate(old(samples), req.proto)
      ensures stored == null ==> samples == old(samples)
      ensures stored != null ==> stored == req && samples == old(samples) + [req]
    {
      if Reached(|samples|, limits.samples) {
        return null;
      }
      for i := 0 to |samples|
        invariant samples == old(samples)
        invariant forall j | 0 <= j < i :: !SameRequest(samples[j].proto, req.proto)
      {
        var same := Equals(samples[i].proto, req.proto);
        if same {
          return null;
        }
      }
      samples := samples + [req];
      return req;
    }

    method AddChildPivot(pivot: Pivot) returns (added: bool)
      modifies this`children
      ensures added <==> !Reached(|old(children)|, limits.children) && pivot.name !in old(children)
      ensures children == if added then old(children)[pivot.name := pivot] else old(children)
    {
      if Reached(|children|, limits.children) {
        return false;
      }
      var present := GetChildPivot(pivot.name);
      if present != null {
        return false;
      }
      children := children[pivot.name := pivot];
      return true;
    }

    function GetChildPivot(name: string): (child: Pivot?)
      reads this
    {
      if name in children then children[name] else null
    }
  }

  /** The first step of a descent is the host. */
  lemma HostStep(f: Forest<Request>, proto: HttpRequest, addr: Address)
    requires addr == AddressOf(proto)
    ensures addr[..1] == Child([], HostOf(proto)) && Grow(f, addr, 1) == Added(f, addr[..1])
    ensures |addr| == |proto.path| + 1 && forall i | 0 <= i < |proto.path| :: addr[i + 1] == proto.path[i].Value()
  {
    assert addr[..0] == [];
    assert Grow(f, addr, 0) == f;
  }

  /** The pivots of all hosts (site_pivots_ of the store). */
  class SiteTree {
    const limits: Limits
    var sitePivots: map<string, Pivot>

    /** All pivots by address. */
    ghost var pivots: map<Address, Pivot>
    ghost var repr: set<Pivot>

    ghost function Forest(): Forest<Request>
      requires forall a | a in pivots :: pivots[a] in repr
      reads this, repr
    {
      map a | a in pivots :: pivots[a].samples
    }

    /** A child map links to exactly the pivots one level below its address. */
    ghost predicate Linked(a: Address, children: map<string, Pivot>)
      reads this
    {
      forall name {:trigger Child(a, name)} ::
        && (name in children <==> Child(a, name) in pivots)
        && (name in children ==> children[name] == pivots[Child(a, name)])
    }

    ghost predicate Valid()
      reads this, repr
    {
      && [] !in pivots
      && (forall a {:trigger pivots[a]} | a in pivots ::
            pivots[a] in repr && pivots[a].address == a && pivots[a].limits == limits)
      && (forall a {:trigger Parent(a)} | a in pivots && |a| > 1 :: Parent(a) in pivots)
      && Linked([], sitePivots)
      && (forall a {:trigger pivots[a]} | a in pivots :: Linked(a, pivots[a].children))
    }

    constructor (limits: Limits)
      ensures Valid() && this.limits == limits && repr == {} && Forest() == map[]
    {
      this.limits := limits;
      sitePivots, pivots, repr := map[], map[], {};
    }

    /** Linking in a pivot without samples adds an empty pivot to the forest. */
    twostate lemma ForestAdded(c: Address)
      requires old(Valid()) && Valid() && c in pivots
      requires pivots == old(pivots) || (c !in old(pivots) && pivots == old(pivots)[c := pivots[c]] && pivots[c].samples == [])
      requires forall a | a in old(pivots) :: pivots[a].samples == old(pivots[a].samples)
      ensures Forest() == Added(old(Forest()), c)
    {
    }

    method HostPivot(host: string) returns (pivot: Pivot)
      requires Valid()
      modifies this
      ensures Valid()
      ensures Child([], host) in pivots && pivots[Child([], host)] == pivot
      ensures Forest() == Added(old(Forest()), Child([], host))
      ensures fresh(repr - old(repr)) && old(repr) <= repr
    {
      if host !in sitePivots {
        pivot := new Pivot(host, limits, Child([], host));
        sitePivots := sitePivots[host := pivot];
        pivots, repr := pivots[Child([], host) := pivot], repr + {pivot};
        assert Linked([], sitePivots);
        forall b | b in pivots ensures Linked(b, pivots[b].children) {
          if b != Child([], host) {
            assert old(Linked(b, pivots[b].children));
          }
        }
      }
      pivot := sitePivots[host];
      ForestAdded(Child([], host));
    }

    method ChildPivot(ghost a: Address, pivot: Pivot, name: string) returns (next: Pivot?)
      requires Valid() && a in pivots && pivots[a] == pivot
      modifies this`pivots, this`repr, pivot`children
      ensures Valid()
      ensures next == null <==> Child(a, name) !in old(pivots) && Reached(|old(pivot.children)|, limits.children)
      ensures next == null ==> Forest() == old(Forest())
      ensures next != null ==> Child(a, name) in pivots && pivots[Child(a, name)] == next
      ensures next != null ==> Forest() == Added(old(Forest()), Child(a, name))
      ensures fresh(repr - old(repr)) && old(repr) <= repr
    {
      next := pivot.GetChildPivot(name);
      ghost var c := Child(a, name);
      if next != null {
        return;
      }
      next := new Pivot(name, limits, c);
      var added := pivot.AddChildPivot(next);
      if !added {
        return null;
      }
      pivots, repr := pivots[c := next], repr + {next};
      assert Linked([], sitePivots);
      forall b | b in pivots ensures Linked(b, pivots[b].children) {
        if b != c {
          assert old(Linked(b, pivots[b].children));
        }
      }
      ForestAdded(c);
    }

    lemma ForestIsTree()
      requires Valid()
      ensures Tree(Forest())
    {
    }

    lemma ChildNamesAreChildren(a: Address)
      requires Valid() && a in pivots
      ensures pivots[a].children.Keys == ChildNames(Forest(), a)
    {
      forall name ensures name in pivots[a].children <==> name in ChildNames(Forest(), a) {
        ChildNamesMember(Forest(), a, name);
        assert Linked(a, pivots[a].children) && Child(a, name) == a + [name];
      }
    }

    /** The descent has come n levels down the address, to this pivot, and created what was missing. */
    ghost predicate InDescent(f: Forest<Request>, addr: Address, n: nat, pivot: Pivot)
      requires Valid()
      reads this, repr
    {
      && 1 <= n <= |addr| && addr[..n] in pivots && pivots[addr[..n]] == pivot
      && Forest() == Grow(f, addr, n) && Walk(f, addr, n, limits) == Walk(f, addr, 1, limits)
    }

    /** The descent was stopped by a full pivot. */
    ghost predicate Stopped(f: Forest<Request>, addr: Address)
      requires Valid() && |addr| >= 1
      reads this, repr
    {
      Walk(f, addr, 1, limits) < |addr| && Forest() == Grow(f, addr, Walk(f, addr, 1, limits))
    }

    /** One turn of the loop of AddRequestToPivot, n levels down the address. */
    method StepInto(ghost f: Forest<Request>, ghost addr: Address, ghost n: nat, pivot: Pivot, name: string)
      returns (next: Pivot?)
      requires Valid() && Tree(f) && InDescent(f, addr, n, pivot) && n < |addr| && addr[n] == name
      modifies this`pivots, this`repr, pivot`children
      ensures Valid() && if next == null then Stopped(f, addr) else InDescent(f, addr, n + 1, next)
      ensures fresh(repr - old(repr)) && old(repr) <= repr
    {
      assert addr[..n + 1] == Child(addr[..n], name);
      ChildNamesAreChildren(addr[..n]);
      StepDown(f, addr, n, limits);
      next := ChildPivot(addr[..n], pivot, name);
    }

    /** The loop of AddRequestToPivot: down the path, creating the missing pivots on the way. */
    method Descend(proto: HttpRequest, ghost addr: Address) returns (leaf: Pivot?)
      requires Valid() && addr == AddressOf(proto)
      modifies this, repr`children
      ensures Valid()
      ensures leaf == null <==> Walk(old(Forest()), addr, 1, limits) < |addr|
      ensures leaf != null ==> addr in pivots && pivots[addr] == leaf
      ensures Forest() == Grow(old(Forest()), addr, Walk(old(Forest()), addr, 1, limits))
      ensures fresh(repr - old(repr)) && old(repr) <= repr
    {
      ghost var f := Forest();
      ForestIsTree();
      HostStep(f, proto, addr);
      leaf := HostPivot(HostOf(proto));
      leaf := DescendPath(f, proto, addr, leaf);
      WholeAddress(addr);
    }

    method DescendPath(ghost f: Forest<Request>, proto: HttpRequest, ghost addr: Address, host: Pivot) returns (leaf: Pivot?)
      requires Valid() && Tree(f) && |addr| == |proto.path| + 1 && InDescent(f, addr, 1, host)
      requires forall i | 0 <= i < |proto.path| :: addr[i + 1] == proto.path[i].Value()
      modifies this, repr`children
      ensures Valid() && if leaf == null then Stopped(f, addr) else InDescent(f, addr, |addr|, leaf)
      ensures fresh(repr - old(repr)) && old(repr) <= repr
    {
      leaf := host;
      var i := 0;
      while i < |proto.path| && leaf != null
        invariant i <= |proto.path| && Valid()
        invariant if leaf == null then Stopped(f, addr) else InDescent(f, addr, i + 1, leaf)
        invariant fresh(repr - old(repr)) && old(repr) <= repr
      {
        leaf := StepInto(f, addr, i + 1, leaf, proto.path[i].Value());
        i := i + 1;
      }
    }

    lemma WholeAddress(addr: Address)
      ensures addr[..|addr|] == addr
    {
    }

    method AddSample(ghost addr: Address, pivot: Pivot, req: Request) returns (stored: Request?)
      requires Valid() && addr in pivots && pivots[addr] == pivot
      modifies pivot`samples
      ensures Valid()
      ensures var samples := old(Forest())[addr];
              && (stored == null <==> Reached(|samples|, limits.samples) || Duplicate(samples, req.proto))
              && Forest() == if stored == null then old(Forest()) else old(Forest())[addr := samples + [req]]
      ensures stored != null ==> stored == req
    {
      stored := pivot.AddRequest(req);
    }

    /** AddRequestToPivot up to the id: the forest changes as `Stored` says, and nothing else. */
    method AddRequest(req: Request) returns (stored: Request?)
      requires Valid()
      modifies this, repr
      ensures Valid()
      ensures var f, addr := old(Forest()), AddressOf(req.proto);
              var duplicate := Duplicate(SamplesAt(f, addr), req.proto);
              && Forest() == Stored(f, addr, limits, duplicate, req)
              && (stored != null <==> Fits(f, addr, limits, duplicate))
      ensures stored != null ==> stored == req
      ensures fresh(repr - old(repr)) && old(repr) <= repr
    {
      ghost var f, addr := Forest(), AddressOf(req.proto);
      var pivot := Descend(req.proto, addr);
      if pivot == null {
        return null;
      }
      GrowKeys(f, addr, |addr|, addr);
      assert addr[..|addr|] == addr;
      stored := AddSample(addr, pivot, req);
    }
  }

  // ---------------------------------------------------------------- placement

  /** Every stored request sits at the pivot of its address. */
  ghost predicate Covers(f: Forest<Request>, stored: seq<Request>) {
    forall i | 0 <= i < |stored| :: stored[i] in SamplesAt(f, AddressOf(stored[i].proto))
  }

  /** Pivots hold stored requests of their own address only. */
  ghost predicate Housed(f: Forest<Request>, stored: seq<Request>) {
    forall a, k | a in f && 0 <= k < |f[a]| :: AddressOf(f[a][k].proto) == a && f[a][k] in stored
  }

  /** No pivot holds a request twice, or two requests that are the same. */
  ghost predicate NoTwins(f: Forest<Request>) {
    forall a, j, k | a in f && 0 <= j < k < |f[a]| ::
      f[a][j] != f[a][k] && !SameRequest(f[a][j].proto, f[a][k].proto)
  }

  ghost predicate Placed(f: Forest<Request>, stored: seq<Request>) {
    Covers(f, stored) && Housed(f, stored) && NoTwins(f)
  }

  ghost predicate WithinLimits<R>(f: Forest<R>, limits: Limits) {
    && (limits.samples >= 0 ==> forall a | a in f :: |f[a]| <= limits.samples)
    && (limits.children >= 0 ==> ChildrenWithin(f, limits.children))
  }

  lemma PlacedGrow(f: Forest<Request>, stored: seq<Request>, addr: Address, n: nat)
    requires Placed(f, stored) && n <= |addr|
    ensures Placed(Grow(f, addr, n), stored)
  {
    var g := Grow(f, addr, n);
    forall a ensures (a in f ==> a in g) && (a in g ==> g[a] == SamplesAt(f, a)) {
      GrowKeys(f, addr, n, a);
    }
  }

  /** Storing a request that fits keeps the placement. */
  lemma PlacedKept(f: Forest<Request>, stored: seq<Request>, limits: Limits, req: Request)
    requires Placed(f, stored) && req !in stored
    ensures var addr := AddressOf(req.proto);
            var duplicate := Duplicate(SamplesAt(f, addr), req.proto);
            var f' := Stored(f, addr, limits, duplicate, req);
            Placed(f', if Fits(f, addr, limits, duplicate) then stored + [req] else stored)
  {
    var addr := AddressOf(req.proto);
    var duplicate := Duplicate(SamplesAt(f, addr), req.proto);
    PlacedGrow(f, stored, addr, Walk(f, addr, 1, limits));
    if Fits(f, addr, limits, duplicate) {
      PlacedGrow(f, stored, addr, |addr|);
      GrowKeys(f, addr, |addr|, addr);
      assert addr[..|addr|] == addr;
      PlacedInsert(Grow(f, addr, |addr|), stored, req);
    }
  }

  lemma NoTwinsInsert(g: Forest<Request>, addr: Address, req: Request)
    requires NoTwins(g) && addr in g && req !in g[addr] && !Duplicate(g[addr], req.proto)
    ensures NoTwins(g[addr := g[addr] + [req]])
  {
  }

  lemma PlacedInsert(g: Forest<Request>, stored: seq<Request>, req: Request)
    requires Placed(g, stored) && req !in stored && AddressOf(req.proto) in g
    requires !Duplicate(g[AddressOf(req.proto)], req.proto)
    ensures var addr := AddressOf(req.proto); Placed(g[addr := g[addr] + [req]], stored + [req])
  {
    var addr := AddressOf(req.proto);
    var g', stored' := g[addr := g[addr] + [req]], stored + [req];
    assert g'[addr][|g[addr]|] == req && stored'[|stored|] == req;
    forall i | 0 <= i < |stored'| ensures stored'[i] in SamplesAt(g', AddressOf(stored'[i].proto)) {
      if i < |stored| {
        assert stored[i] in SamplesAt(g, AddressOf(stored[i].proto));
      }
    }
    NoTwinsInsert(g, addr, req);
  }

  /** Equal requests have one address, and so are compared, exactly if they name one host; they do when both
      have the host name set. */
  lemma SameRequestSameAddress(p: HttpRequest, q: HttpRequest)
    requires SameRequest(p, q)
    ensures AddressOf(p) == AddressOf(q) <==> HostOf(p) == HostOf(q)
    ensures p.host.Some? && q.host.Some? ==> AddressOf(p) == AddressOf(q)
  {
    assert Values(p.path) == Values(q.path);
    assert AddressOf(p)[0] == HostOf(p) && AddressOf(q)[0] == HostOf(q);
  }

  /** Without host names, the addresses decide where two equal requests go, and they are never compared. */
  lemma HostlessTwins(p: HttpRequest, ip: string)
    requires p.host.None? && p.ip != ip && SameRequest(p, p)
    ensures SameRequest(p, p.(ip := ip)) && AddressOf(p) != AddressOf(p.(ip := ip))
  {
    assert AddressOf(p)[0] == p.ip && AddressOf(p.(ip := ip))[0] == ip;
  }

  /** On two new hosts both are stored. The store keeps them out only by asking for a valid URL, which a request
      without a host name can hardly have. */
  lemma HostlessTwinsFit(f: Forest<Request>, limits: Limits, p: Request, ip: string)
    requires Tree(f) && limits.children != 0 && limits.samples != 0 && p.proto.host.None? && p.proto.ip != ip
    requires [p.proto.ip] !in f && [ip] !in f
    ensures var one, two := AddressOf(p.proto), AddressOf(p.proto.(ip := ip));
      && Fits(f, one, limits, Duplicate(SamplesAt(f, one), p.proto))
      && var g := Stored(f, one, limits, false, p);
         Fits(g, two, limits, Duplicate(SamplesAt(g, two), p.proto.(ip := ip)))
  {
    var one, two := AddressOf(p.proto), AddressOf(p.proto.(ip := ip));
    assert one[..1] == [p.proto.ip] && two[..1] == [ip];
    NewHostFits(f, one, limits);
    var g := Stored(f, one, limits, false, p);
    StoredTree(f, one, limits, false, p);
    GrowKeys(f, one, |one|, [ip]);
    NewHostFits(g, two, limits);
  }

  /** In a pivot, a copy of a sample is a duplicate exactly if its parameter names are distinct. */
  lemma CopyIsDuplicate(f: Forest<Request>, stored: seq<Request>, a: Address, req: Request)
    requires Placed(f, stored) && a in f && req in f[a]
    ensures Duplicate(f[a], req.proto) <==> DistinctParams(req.proto)
  {
    SameRequestReflexiveWhen(req.proto);
    if q :| q in f[a] && SameRequest(q.proto, req.proto) {
      if q != req {
        DistinctInPivot(f, stored, a, q, req);
      }
    }
  }

  lemma DistinctInPivot(f: Forest<Request>, stored: seq<Request>, a: Address, p: Request, q: Request)
    requires Placed(f, stored) && a in f && p in f[a] && q in f[a] && p != q
    ensures !SameRequest(p.proto, q.proto)
  {
    var j :| 0 <= j < |f[a]| && f[a][j] == p;
    var k :| 0 <= k < |f[a]| && f[a][k] == q;
    SameRequestSymmetric(p.proto, q.proto);
    assert j < k || k < j;
  }

  /** Although only the samples of one pivot are compared, no two stored requests for the same
      host are the same. Requests with a host name set need no more than that. */
  lemma GloballyDistinct(f: Forest<Request>, stored: seq<Request>, p: Request, q: Request)
    requires Placed(f, stored) && p in stored && q in stored && p != q
    requires HostOf(p.proto) == HostOf(q.proto) || (p.proto.host.Some? && q.proto.host.Some?)
    ensures !SameRequest(p.proto, q.proto)
  {
    assert p in SamplesAt(f, AddressOf(p.proto)) && q in SamplesAt(f, AddressOf(q.proto));
    if AddressOf(p.proto) == AddressOf(q.proto) {
      DistinctInPivot(f, stored, AddressOf(p.proto), p, q);
    } else if SameRequest(p.proto, q.proto) {
      SameRequestSameAddress(p.proto, q.proto);
    }
  }

  // ---------------------------------------------------------------- room in the tree

  /** The tree has room for the request and does not hold it yet. */
  ghost predicate Placeable(f: Forest<Request>, limits: Limits, proto: HttpRequest) {
    var addr := AddressOf(proto);
    Fits(f, addr, limits, Duplicate(SamplesAt(f, addr), proto))
  }

  /** Where the descent is stopped, no later request gets past it. */
  lemma StopStays(f: Forest<Request>, limits: Limits, addr: Address, other: Address, n: nat)
    requires Tree(f) && |other| >= 1 && n <= Walk(f, other, 1, limits)
    requires |addr| >= 1 && Walk(f, addr, 1, limits) < |addr|
    ensures Walk(Grow(f, other, n), addr, 1, limits) < |addr|
  {
    var g, m := Grow(f, other, n), Walk(f, addr, 1, limits);
    WalkStops(f, addr, 1, limits);
    GrowKeys(f, other, n, addr[..m + 1]);
    if addr[..m + 1] in g {
      assert addr[..m + 1] == other[..m + 1];
      assert addr[..m] == addr[..m + 1][..m] == other[..m];
      WalkPasses(f, other, 1, m, limits);
    }
    MoreChildren(f, other, n, addr[..m]);
    GrowKeys(f, other, n, addr[..m]);
    if Walk(g, addr, 1, limits) == |addr| {
      WalkPasses(g, addr, 1, m, limits);
    }
  }

  lemma MoreChildren<R>(f: Forest<R>, other: Address, n: nat, a: Address)
    requires n <= |other|
    ensures |ChildNames(f, a)| <= |ChildNames(Grow(f, other, n), a)|
    ensures Tree(f) && a != [] && a !in f ==> ChildNames(f, a) == {}
  {
    var g := Grow(f, other, n);
    forall name | name in ChildNames(f, a) ensures name in ChildNames(g, a) {
      ChildNamesMember(f, a, name);
      ChildNamesMember(g, a, name);
      GrowKeys(f, other, n, a + [name]);
    }
    SubsetSize(ChildNames(f, a), ChildNames(g, a));
    if Tree(f) && a != [] && a !in f {
      forall b | b in f ensures !IsChild(b, a) {
        assert |b| > 1 ==> Parent(b) in f;
      }
    }
  }

  /** The forest after an attempt to store a request. */
  ghost function Attempted(f: Forest<Request>, limits: Limits, req: Request): Forest<Request> {
    var addr := AddressOf(req.proto);
    Stored(f, addr, limits, Duplicate(SamplesAt(f, addr), req.proto), req)
  }

  /** A request with a place joins the samples of its own pivot, which exists then like all on the way to it, and
      nothing else changes. */
  lemma AttemptedIs(f: Forest<Request>, limits: Limits, req: Request, a: Address)
    requires Placeable(f, limits, req.proto)
    ensures var g, addr := Attempted(f, limits, req), AddressOf(req.proto);
      && (a in g <==> a in f || (1 <= |a| <= |addr| && a == addr[..|a|]))
      && (a in g ==> g[a] == if a == addr then SamplesAt(f, a) + [req] else SamplesAt(f, a))
  {
    var addr := AddressOf(req.proto);
    GrowKeys(f, addr, |addr|, a);
    assert addr[..|addr|] == addr;
  }

  /** Samples only join, whatever is attempted. */
  lemma SamplesStay(f: Forest<Request>, limits: Limits, req: Request, a: Address)
    ensures SamplesAt(f, a) <= SamplesAt(Attempted(f, limits, req), a)
  {
    var addr := AddressOf(req.proto);
    GrowKeys(f, addr, Walk(f, addr, 1, limits), a);
    GrowKeys(f, addr, |addr|, a);
  }

  /** The descent is stopped after an attempt wherever it was stopped before. */
  lemma StopsStay(f: Forest<Request>, limits: Limits, req: Request, addr: Address)
    requires Tree(f) && |addr| >= 1 && Walk(f, addr, 1, limits) < |addr|
    ensures Walk(Attempted(f, limits, req), addr, 1, limits) < |addr|
  {
    var other := AddressOf(req.proto);
    StopStays(f, limits, addr, other, Walk(f, other, 1, limits));
    var g, h := Grow(f, other, Walk(f, other, 1, limits)), Attempted(f, limits, req);
    GrowKeys(f, other, |other|, other);
    assert other[..|other|] == other;
    assert g.Keys == h.Keys;
    SameWalk(g, h, addr, 1, limits);
  }

  lemma {:induction false} SameWalk<R>(g: Forest<R>, h: Forest<R>, addr: Address, n: nat, limits: Limits)
    requires g.Keys == h.Keys && n <= |addr|
    ensures Walk(g, addr, n, limits) == Walk(h, addr, n, limits)
    decreases |addr| - n
  {
    forall a ensures ChildNames(g, a) == ChildNames(h, a) {
    }
    if n < |addr| {
      SameWalk(g, h, addr, n + 1, limits);
    }
  }

  /** A request that has no place never gets one, whatever is stored. */
  lemma NoPlaceStays(f: Forest<Request>, limits: Limits, req: Request, proto: HttpRequest)
    requires Tree(f) && !Placeable(f, limits, proto)
    ensures !Placeable(Attempted(f, limits, req), limits, proto)
  {
    var addr := AddressOf(proto);
    SamplesStay(f, limits, req, addr);
    if Walk(f, addr, 1, limits) < |addr| {
      StopsStay(f, limits, req, addr);
    } else if Duplicate(SamplesAt(f, addr), proto) {
      var q :| q in SamplesAt(f, addr) && SameRequest(q.proto, proto);
      assert q in SamplesAt(Attempted(f, limits, req), addr);
    }
  }

  /** Once stored, or refused, a request has no place, unless it repeats a parameter name. */
  lemma NoPlaceAfter(f: Forest<Request>, limits: Limits, req: Request)
    requires Tree(f) && DistinctParams(req.proto)
    ensures !Placeable(Attempted(f, limits, req), limits, req.proto)
  {
    if Placeable(f, limits, req.proto) {
      SameRequestReflexiveWhen(req.proto);
      assert req in SamplesAt(Attempted(f, limits, req), AddressOf(req.proto));
    } else {
      NoPlaceStays(f, limits, req, req.proto);
    }
  }

  // ---------------------------------------------------------------- keys

  /** Stored requests without repeated parameter names, and with host names or on one host, have different keys. */
  lemma KeysAreDistinct(f: Forest<Request>, stored: seq<Request>, p: Request, q: Request)
    requires Placed(f, stored) && p in stored && q in stored && p != q
    requires HostOf(p.proto) == HostOf(q.proto) || (p.proto.host.Some? && q.proto.host.Some?)
    requires DistinctParams(p.proto) && DistinctParams(q.proto)
    ensures KeyOf(p.proto) != KeyOf(q.proto)
  {
    GloballyDistinct(f, stored, p, q);
    SameRequestIsSameKey(p.proto, q.proto);
  }

  /** The descent for the request is not stopped, and its pivot is not full. */
  ghost predicate HasRoom(f: Forest<Request>, limits: Limits, proto: HttpRequest) {
    var addr := AddressOf(proto);
    Walk(f, addr, 1, limits) == |addr| && !Reached(|SamplesAt(f, addr)|, limits.samples)
  }

  /** There is room exactly if the parent of every pivot missing on the way has fewer children than the limit, and
      the leaf fewer samples; a negative limit is none. */
  lemma RoomExactly(f: Forest<Request>, limits: Limits, proto: HttpRequest)
    requires Tree(f)
    ensures HasRoom(f, limits, proto) <==>
      var addr := [HostOf(proto)] + Values(proto.path);
      && (forall k | 1 <= k < |addr| && addr[..k + 1] !in f :: Below(|ChildrenOf(f, addr[..k])|, limits.children))
      && Below(if addr in f then |f[addr]| else 0, limits.samples)
  {
    ReachesExactly(f, AddressOf(proto), 1, limits);
  }

  /** A request has a place, given room, if every sample of its pivot differs from it in scheme, verb or port. */
  lemma OtherPlaceFits(f: Forest<Request>, limits: Limits, proto: HttpRequest)
    requires HasRoom(f, limits, proto)
    requires forall q | q in SamplesAt(f, AddressOf(proto)) ::
               q.proto.ssl != proto.ssl || q.proto.verb != proto.verb || q.proto.port != proto.port
    ensures Placeable(f, limits, proto)
  {
    forall q | q in SamplesAt(f, AddressOf(proto)) ensures !SameRequest(q.proto, proto) {
      SameRequestIsSameKey(q.proto, proto);
    }
  }

  /** Among requests with host names and without repeated parameter names, one has a place exactly if there is room
      and no stored request, wherever it sits, has its key. */
  lemma PlaceableByKey(f: Forest<Request>, stored: seq<Request>, limits: Limits, proto: HttpRequest)
    requires Placed(f, stored) && DistinctParams(proto) && proto.host.Some?
    requires forall q | q in stored :: DistinctParams(q.proto) && q.proto.host.Some?
    ensures Placeable(f, limits, proto) <==> HasRoom(f, limits, proto) && forall q | q in stored :: KeyOf(q.proto) != KeyOf(proto)
  {
    var samples := SamplesAt(f, AddressOf(proto));
    forall q | q in samples ensures q in stored {
      var k :| 0 <= k < |samples| && samples[k] == q;
    }
    forall q | q in stored ensures KeyOf(q.proto) == KeyOf(proto) <==> q in samples && SameRequest(q.proto, proto) {
      SameRequestIsSameKey(q.proto, proto);
      if SameRequest(q.proto, proto) {
        SameRequestSameAddress(q.proto, proto);
        assert q in SamplesAt(f, AddressOf(q.proto));
      }
    }
  }

  // ---------------------------------------------------------------- limits and size

  lemma AddedWithin<R>(f: Forest<R>, a: Address, c: nat)
    requires Tree(f) && |a| >= 1 && ChildrenWithin(f, c)
    requires a !in f && |a| > 1 ==> |ChildNames(f, Parent(a))| < c
    ensures ChildrenWithin(Added(f, a), c)
  {
    var g := Added(f, a);
    if a !in f {
      forall b | b in g ensures |ChildNames(g, b)| <= c {
        forall name ensures name in ChildNames(g, b) ==> (b != a && name in ChildNames(f, b)) || Child(b, name) == a {
          ChildNamesMember(g, b, name);
          ChildNamesMember(f, b, name);
          assert Child(b, name) == b + [name];
        }
        if b == Parent(a) {
          SubsetSize(ChildNames(g, b), ChildNames(f, b) + {a[|a| - 1]});
        } else if b in f {
          SubsetSize(ChildNames(g, b), ChildNames(f, b));
        } else {
          assert ChildNames(g, b) == {};
        }
      }
    }
  }

  /** Pivots never get more children than the limit, because the descent stops in time. */
  lemma {:induction false} GrowWithin<R>(f: Forest<R>, addr: Address, n: nat, limits: Limits)
    requires Tree(f) && limits.children >= 0 && ChildrenWithin(f, limits.children)
    requires n <= |addr| && (n > 1 ==> n <= Walk(f, addr, 1, limits))
    ensures ChildrenWithin(Grow(f, addr, n), limits.children)
  {
    if n > 0 {
      GrowWithin(f, addr, n - 1, limits);
      var g := Grow(f, addr, n - 1);
      GrowTree(f, addr, n - 1);
      if n > 1 {
        WalkPasses(f, addr, 1, n - 1, limits);
        GrowChildren(f, addr, n - 1);
        GrowKeys(f, addr, n - 1, addr[..n]);
        assert Parent(addr[..n]) == addr[..n - 1];
      }
      AddedWithin(g, addr[..n], limits.children);
    }
  }

  lemma {:induction false} WalkPasses<R>(f: Forest<R>, addr: Address, n: nat, k: nat, limits: Limits)
    requires n <= |addr| && n <= k < Walk(f, addr, n, limits)
    ensures addr[..k + 1] in f || Room(f, addr, k, limits)
    decreases k - n
  {
    if n < k {
      WalkPasses(f, addr, n + 1, k, limits);
    }
  }

  lemma LimitsKept(f: Forest<Request>, addr: Address, limits: Limits, duplicate: bool, req: Request)
    requires Tree(f) && WithinLimits(f, limits) && |addr| >= 1
    ensures WithinLimits(Stored(f, addr, limits, duplicate, req), limits)
  {
    var m := Walk(f, addr, 1, limits);
    var g := Grow(f, addr, m);
    forall a | a in g ensures g[a] == SamplesAt(f, a) {
      GrowKeys(f, addr, m, a);
    }
    if limits.children >= 0 {
      GrowWithin(f, addr, m, limits);
    }
    if Fits(f, addr, limits, duplicate) {
      GrowKeys(f, addr, m, addr);
      assert addr[..|addr|] == addr;
      var f' := g[addr := SamplesAt(f, addr) + [req]];
      forall a | a in f' ensures ChildNames(f', a) == ChildNames(g, a) {
      }
    }
  }

  /** The stored requests with at most d path elements. */
  ghost function Shallow(stored: seq<Request>, d: nat): set<Request> {
    set i | 0 <= i < |stored| && |stored[i].proto.path| <= d :: stored[i]
  }

  lemma ShallowInSlots(f: Forest<Request>, stored: seq<Request>, d: nat)
    requires Covers(f, stored)
    ensures |Shallow(stored, d)| <= |Slots(f, d + 1)|
  {
    var place := map q | q in Shallow(stored, d) :: Place(f, stored, q);
    forall p, q | p in place && q in place && place[p] == place[q] ensures p == q {
      assert f[place[p].0][place[p].1] == p;
    }
    InjectionBound(place, Slots(f, d + 1));
    assert place.Keys == Shallow(stored, d);
  }

  /** At most samples per pivot x hosts x (1 + c + ... + c^d) requests have at most d path elements. */
  lemma {:induction false} StoreBound(f: Forest<Request>, stored: seq<Request>, limits: Limits, d: nat)
    requires Tree(f) && Placed(f, stored) && WithinLimits(f, limits) && limits.samples >= 0 && limits.children >= 0
    ensures |Shallow(stored, d)| <= limits.samples * Capacity(|AtDepth(f, 1)|, limits.children, d)
  {
    ShallowInSlots(f, stored, d);
    SampleBound(f, limits.children, limits.samples, d);
  }

  ghost function Place(f: Forest<Request>, stored: seq<Request>, q: Request): (place: (Address, nat))
    requires Covers(f, stored) && q in stored
    ensures place.0 in f && place.0 == AddressOf(q.proto) && place.1 < |f[place.0]| && f[place.0][place.1] == q
  {
    var a := AddressOf(q.proto);
    assert q in SamplesAt(f, a);
    var k: nat :| k < |f[a]| && f[a][k] == q;
    (a, k)
  }
}
