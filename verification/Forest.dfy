/**
 The site tree as a value (pivot.h, datastore.h): every pivot is named by its
 address, the host followed by the path values on the way to it, and holds the
 requests sampled there.
 */
module Forests {

  type Address = seq<string>

  type Forest<R> = map<Address, seq<R>>

  /** Limits are signed flags compared with a size_t: a negative one is never reached. */
  predicate Reached(size: nat, limit: int) {
    0 <= limit <= size
  }

  datatype Limits = Limits(samples: int, children: int)

  /** Pivots hang below pivots, and only hosts are roots. */
  ghost predicate Tree<R>(f: Forest<R>) {
    && (forall a | a in f :: |a| >= 1)
    && (forall a {:trigger Parent(a)} | a in f && |a| > 1 :: Parent(a) in f)
  }

  function Parent(a: Address): Address
    requires |a| >= 1
  {
    a[..|a| - 1]
  }

  predicate IsChild(a: Address, parent: Address) {
    |a| == |parent| + 1 && a[..|parent|] == parent
  }

  ghost function ChildNames<R>(f: Forest<R>, parent: Address): set<string> {
    set a | a in f && IsChild(a, parent) :: a[|parent|]
  }

  lemma ChildNamesMember<R>(f: Forest<R>, parent: Address, name: string)
    ensures name in ChildNames(f, parent) <==> parent + [name] in f
  {
    if name in ChildNames(f, parent) {
      var a :| a in f && IsChild(a, parent) && a[|parent|] == name;
      assert a == parent + [name];
    }
    if parent + [name] in f {
      assert IsChild(parent + [name], parent);
    }
  }

  // ---------------------------------------------------------------- the descent of AddRequestToPivot

  /** The forest with an empty pivot at `a`, unless there is a pivot. */
  ghost function Added<R>(f: Forest<R>, a: Address): Forest<R> {
    if a in f then f else f[a := []]
  }

  /** The first n levels of the address exist; missing ones are new and empty. */
  ghost function Grow<R>(f: Forest<R>, addr: Address, n: nat): Forest<R>
    requires n <= |addr|
  {
    if n == 0 then f else Added(Grow(f, addr, n - 1), addr[..n])
  }

  /** The pivot n levels down, existing or just created, can take one more child. */
  ghost predicate Room<R>(f: Forest<R>, addr: Address, n: nat, limits: Limits)
    requires n <= |addr|
  {
    !Reached(if addr[..n] in f then |ChildNames(f, addr[..n])| else 0, limits.children)
  }

  /** How many levels the descent gets down: all, or up to the pivot that is full. */
  ghost function Walk<R>(f: Forest<R>, addr: Address, n: nat, limits: Limits): (m: nat)
    requires n <= |addr|
    ensures n <= m <= |addr|
    decreases |addr| - n
  {
    if n == |addr| || (addr[..n + 1] !in f && !Room(f, addr, n, limits)) then n
    else Walk(f, addr, n + 1, limits)
  }

  ghost function SamplesAt<R>(f: Forest<R>, addr: Address): seq<R> {
    if addr in f then f[addr] else []
  }

  lemma {:induction false} GrowKeys<R>(f: Forest<R>, addr: Address, n: nat, a: Address)
    requires n <= |addr|
    ensures a in Grow(f, addr, n) <==> a in f || (1 <= |a| <= n && a == addr[..|a|])
    ensures a in Grow(f, addr, n) ==> Grow(f, addr, n)[a] == SamplesAt(f, a)
  {
    if n > 0 {
      GrowKeys(f, addr, n - 1, a);
      GrowKeys(f, addr, n - 1, addr[..n]);
    }
  }

  lemma GrowTree<R>(f: Forest<R>, addr: Address, n: nat)
    requires Tree(f) && n <= |addr|
    ensures Tree(Grow(f, addr, n))
  {
    forall a | a in Grow(f, addr, n) ensures |a| >= 1 && (|a| > 1 ==> Parent(a) in Grow(f, addr, n)) {
      GrowKeys(f, addr, n, a);
      if |a| > 1 {
        GrowKeys(f, addr, n, Parent(a));
      }
    }
  }

  /** While descending, the children of the pivot reached are those it had before. */
  lemma GrowChildren<R>(f: Forest<R>, addr: Address, n: nat)
    requires Tree(f) && 1 <= n <= |addr|
    ensures ChildNames(Grow(f, addr, n), addr[..n]) == if addr[..n] in f then ChildNames(f, addr[..n]) else {}
  {
    var g, here := Grow(f, addr, n), addr[..n];
    forall name ensures name in ChildNames(g, here) <==> here in f && name in ChildNames(f, here) {
      var child := here + [name];
      assert Parent(child) == here;
      ChildNamesMember(g, here, name);
      ChildNamesMember(f, here, name);
      GrowKeys(f, addr, n, child);
    }
  }

  /** One turn of the descent: it is stopped by a full pivot exactly where `Walk` stops. */
  lemma StepDown<R>(f: Forest<R>, addr: Address, n: nat, limits: Limits)
    requires Tree(f) && 1 <= n < |addr|
    ensures var g := Grow(f, addr, n);
            var stopped := addr[..n + 1] !in g && Reached(|ChildNames(g, addr[..n])|, limits.children);
            Walk(f, addr, n, limits) == if stopped then n else Walk(f, addr, n + 1, limits)
  {
    GrowChildren(f, addr, n);
    GrowKeys(f, addr, n, addr[..n + 1]);
  }

  /** In a tree, all levels above an existing pivot exist. */
  lemma {:induction false} AncestorsExist<R>(f: Forest<R>, addr: Address, n: nat, k: nat)
    requires Tree(f) && 1 <= k <= n <= |addr| && addr[..n] in f
    ensures addr[..k] in f
    decreases n
  {
    if k < n {
      assert Parent(addr[..n]) == addr[..n - 1];
      AncestorsExist(f, addr, n - 1, k);
    }
  }

  lemma {:induction false} GrowIdle<R>(f: Forest<R>, addr: Address, n: nat)
    requires Tree(f) && n <= |addr| && (n == 0 || addr[..n] in f)
    ensures Grow(f, addr, n) == f
  {
    if n > 0 {
      if n > 1 {
        AncestorsExist(f, addr, n, n - 1);
      }
      GrowIdle(f, addr, n - 1);
    }
  }

  /** The descent only passes pivots with room, and stops at the end or below a full one. */
  lemma {:induction false} WalkStops<R>(f: Forest<R>, addr: Address, n: nat, limits: Limits)
    requires n <= |addr|
    ensures var m := Walk(f, addr, n, limits);
            && (m < |addr| ==> addr[..m + 1] !in f && !Room(f, addr, m, limits))
            && (n < m && addr[..m] !in f ==> Room(f, addr, m - 1, limits))
    decreases |addr| - n
  {
    if !(n == |addr| || (addr[..n + 1] !in f && !Room(f, addr, n, limits))) {
      WalkStops(f, addr, n + 1, limits);
    }
  }

  /** Below this limit, which is none if it is negative. */
  predicate Below(size: nat, limit: int) {
    limit < 0 || size < limit
  }

  /** The pivots one level below the address. */
  ghost function ChildrenOf<R>(f: Forest<R>, parent: Address): set<Address> {
    set a | a in f && |a| == |parent| + 1 && a[..|parent|] == parent
  }

  lemma NamesAtLeast<R>(f: Forest<R>, parent: Address)
    ensures |ChildrenOf(f, parent)| <= |ChildNames(f, parent)|
  {
    var nameOf := map a | a in ChildrenOf(f, parent) :: a[|parent|];
    forall a | a in nameOf ensures nameOf[a] in ChildNames(f, parent) && a == parent + [nameOf[a]] {
      assert IsChild(a, parent);
    }
    var names := ChildNames(f, parent);
    hide ChildNames;
    InjectionBound(nameOf, names);
    assert nameOf.Keys == ChildrenOf(f, parent);
  }

  lemma ChildrenAtLeast<R>(f: Forest<R>, parent: Address)
    ensures |ChildNames(f, parent)| <= |ChildrenOf(f, parent)|
  {
    var childOf := map name | name in ChildNames(f, parent) :: parent + [name];
    forall name | name in childOf ensures childOf[name] in ChildrenOf(f, parent) && childOf[name][|parent|] == name {
      ChildNamesMember(f, parent, name);
    }
    hide ChildNames, ChildrenOf;
    InjectionBound(childOf, ChildrenOf(f, parent));
    assert childOf.Keys == ChildNames(f, parent);
  }

  lemma ChildrenCount<R>(f: Forest<R>, parent: Address)
    requires Tree(f)
    ensures |ChildrenOf(f, parent)| == |ChildNames(f, parent)|
    ensures |parent| >= 1 && parent !in f ==> ChildNames(f, parent) == {}
  {
    NamesAtLeast(f, parent);
    ChildrenAtLeast(f, parent);
    forall a | a in f && IsChild(a, parent) && |parent| >= 1 ensures parent in f {
      assert Parent(a) == parent;
    }
  }

  /** The descent reaches the leaf exactly if the parent of every missing pivot on the way has fewer children than
      the limit. */
  lemma {:induction false} ReachesExactly<R>(f: Forest<R>, addr: Address, n: nat, limits: Limits)
    requires Tree(f) && 1 <= n <= |addr|
    ensures Walk(f, addr, n, limits) == |addr| <==>
      forall k | n <= k < |addr| && addr[..k + 1] !in f :: Below(|ChildrenOf(f, addr[..k])|, limits.children)
    decreases |addr| - n
  {
    if n < |addr| {
      ReachesExactly(f, addr, n + 1, limits);
      ChildrenCount(f, addr[..n]);
    }
  }

  /** The request is stored: the descent reaches its leaf, which has room for it. */
  ghost predicate Fits<R>(f: Forest<R>, addr: Address, limits: Limits, duplicate: bool)
    requires |addr| >= 1
  {
    && Walk(f, addr, 1, limits) == |addr|
    && !Reached(|SamplesAt(f, addr)|, limits.samples)
    && !duplicate
  }

  /** The forest after an attempt to store a request `req`. */
  ghost function Stored<R>(f: Forest<R>, addr: Address, limits: Limits, duplicate: bool, req: R): Forest<R>
    requires |addr| >= 1
  {
    if Fits(f, addr, limits, duplicate)
    then Grow(f, addr, |addr|)[addr := SamplesAt(f, addr) + [req]]
    else Grow(f, addr, Walk(f, addr, 1, limits))
  }

  /** The two ways in which a refused request leaves pivots behind: a new host that may have no
      children, or a new leaf that may have no samples. */
  ghost predicate Litters<R>(f: Forest<R>, addr: Address, limits: Limits)
    requires |addr| >= 1
  {
    || (limits.children == 0 && |addr| > 1 && addr[..1] !in f)
    || (limits.samples == 0 && addr !in f && Walk(f, addr, 1, limits) == |addr|)
  }

  /** A refused request leaves the forest unchanged unless it litters, so always under limits
      that are not zero. */
  lemma RefusalIsAtomicUnless<R>(f: Forest<R>, addr: Address, limits: Limits, duplicate: bool, req: R)
    requires Tree(f) && |addr| >= 1 && (duplicate ==> addr in f)
    requires !Fits(f, addr, limits, duplicate)
    ensures Stored(f, addr, limits, duplicate, req) == f <==> !Litters(f, addr, limits)
    ensures limits.samples != 0 && limits.children != 0 ==> Stored(f, addr, limits, duplicate, req) == f
  {
    var m := Walk(f, addr, 1, limits);
    WalkStops(f, addr, 1, limits);
    GrowKeys(f, addr, m, addr[..m]);
    assert addr[..|addr|] == addr;
    if addr[..m] in f {
      GrowIdle(f, addr, m);
      AncestorsExist(f, addr, m, 1);
    }
  }

  /** A descent to a pivot that exists is not stopped. */
  lemma {:induction false} WalkThrough<R>(f: Forest<R>, addr: Address, n: nat, limits: Limits)
    requires Tree(f) && 1 <= n <= |addr| && addr in f
    ensures Walk(f, addr, n, limits) == |addr|
    decreases |addr| - n
  {
    if n < |addr| {
      assert addr[..|addr|] == addr;
      AncestorsExist(f, addr, |addr|, n + 1);
      WalkThrough(f, addr, n + 1, limits);
    }
  }

  /** Nor is one below a new host, if pivots may have children at all. */
  lemma {:induction false} WalkFree<R>(f: Forest<R>, addr: Address, n: nat, limits: Limits)
    requires Tree(f) && 1 <= n <= |addr| && addr[..1] !in f && limits.children != 0
    ensures Walk(f, addr, n, limits) == |addr|
    decreases |addr| - n
  {
    if n < |addr| {
      if addr[..n] in f {
        AncestorsExist(f, addr, n, 1);
      }
      WalkFree(f, addr, n + 1, limits);
    }
  }

  /** So a request for a new host is always stored, under limits that are not zero. */
  lemma NewHostFits<R>(f: Forest<R>, addr: Address, limits: Limits)
    requires Tree(f) && |addr| >= 1 && addr[..1] !in f && limits.children != 0 && limits.samples != 0
    ensures addr !in f && Fits(f, addr, limits, false)
  {
    WalkFree(f, addr, 1, limits);
    if addr in f {
      assert addr[..|addr|] == addr;
      AncestorsExist(f, addr, |addr|, 1);
    }
  }

  lemma StoredTree<R>(f: Forest<R>, addr: Address, limits: Limits, duplicate: bool, req: R)
    requires Tree(f) && |addr| >= 1
    ensures Tree(Stored(f, addr, limits, duplicate, req))
  {
    GrowTree(f, addr, Walk(f, addr, 1, limits));
    GrowTree(f, addr, |addr|);
    GrowKeys(f, addr, |addr|, addr);
    assert addr[..|addr|] == addr;
  }

  // ---------------------------------------------------------------- size bounds

  ghost function Fibre<A, B>(send: map<A, B>, y: B): set<A> {
    set x | x in send && send[x] == y
  }

  /** If at most k keys are sent to each element of ys, then there are at most k |ys| keys. */
  lemma {:induction false} FibreBound<A, B>(send: map<A, B>, ys: set<B>, k: nat)
    requires forall x | x in send :: send[x] in ys
    requires forall y | y in ys :: |Fibre(send, y)| <= k
    ensures |send.Keys| <= k * |ys|
    decreases |ys|
  {
    if ys == {} {
      assert send.Keys == {};
    } else {
      var y :| y in ys;
      var fibre := Fibre(send, y);
      var rest := send - fibre;
      forall z | z in ys - {y} ensures |Fibre(rest, z)| <= k {
        assert Fibre(rest, z) == Fibre(send, z);
      }
      FibreBound(rest, ys - {y}, k);
      assert send.Keys == rest.Keys + fibre;
      FibreSum(|send.Keys|, |rest.Keys|, |fibre|, k, |ys - {y}|, |ys|);
    }
  }

  lemma FibreSum(all: nat, rest: nat, fibre: nat, k: nat, m: nat, n: nat)
    requires all == rest + fibre && n == m + 1 && rest <= k * m && fibre <= k
    ensures all <= k * n
  {
  }

  lemma Monotone(k: nat, x: nat, y: nat)
    requires x <= y
    ensures k * x <= k * y
  {
  }

  lemma {:induction false} InjectionBound<A, B>(send: map<A, B>, ys: set<B>)
    requires forall x | x in send :: send[x] in ys
    requires forall x, y | x in send && y in send && send[x] == send[y] :: x == y
    ensures |send.Keys| <= |ys|
    decreases |send.Keys|
  {
    if send.Keys != {} {
      var x :| x in send;
      var rest := send - {x};
      assert rest.Keys == send.Keys - {x};
      InjectionBound(rest, ys - {send[x]});
    }
  }

  /** h c^d: the pivots at depth d below h hosts, if each has c children. */
  function Width(h: nat, c: nat, d: nat): nat {
    if d == 0 then h else c * Width(h, c, d - 1)
  }

  /** h (1 + c + ... + c^d) */
  function Capacity(h: nat, c: nat, d: nat): nat {
    if d == 0 then h else Capacity(h, c, d - 1) + Width(h, c, d)
  }

  ghost function AtDepth<R>(f: Forest<R>, depth: nat): set<Address> {
    set a | a in f && |a| == depth
  }

  ghost function UpToDepth<R>(f: Forest<R>, depth: nat): set<Address> {
    set a | a in f && |a| <= depth
  }

  ghost predicate ChildrenWithin<R>(f: Forest<R>, c: nat) {
    forall a | a in f :: |ChildNames(f, a)| <= c
  }

  /** Distinct pivots directly below one pivot have distinct child names. */
  lemma BelowBound<R>(f: Forest<R>, p: Address, below: set<Address>)
    requires forall a | a in below :: a in f && IsChild(a, p)
    ensures |below| <= |ChildNames(f, p)|
  {
    var last := map a | a in below :: a[|p|];
    forall a, b | a in last && b in last && last[a] == last[b] ensures a == b {
      assert a == a[..|p|] + [a[|p|]] && b == b[..|p|] + [b[|p|]];
    }
    InjectionBound(last, ChildNames(f, p));
    assert last.Keys == below;
  }

  lemma LevelStep<R>(f: Forest<R>, c: nat, d: nat)
    requires Tree(f) && d > 0 && ChildrenWithin(f, c)
    ensures |AtDepth(f, d + 1)| <= c * |AtDepth(f, d)|
  {
    var up := map a | a in AtDepth(f, d + 1) :: a[..d];
    forall a | a in up ensures up[a] in AtDepth(f, d) {
      assert Parent(a) == a[..d];
    }
    forall p | p in AtDepth(f, d) ensures |Fibre(up, p)| <= c {
      BelowBound(f, p, Fibre(up, p));
    }
    FibreBound(up, AtDepth(f, d), c);
    assert up.Keys == AtDepth(f, d + 1);
  }

  /** Child counts bound the width of every level. */
  lemma {:induction false} LevelBound<R>(f: Forest<R>, c: nat, d: nat)
    requires Tree(f) && ChildrenWithin(f, c)
    ensures |AtDepth(f, d + 1)| <= Width(|AtDepth(f, 1)|, c, d)
  {
    if d > 0 {
      LevelStep(f, c, d);
      LevelBound(f, c, d - 1);
      Monotone(c, |AtDepth(f, d)|, Width(|AtDepth(f, 1)|, c, d - 1));
    }
  }

  lemma {:induction false} PivotBound<R>(f: Forest<R>, c: nat, d: nat)
    requires Tree(f) && ChildrenWithin(f, c)
    ensures |UpToDepth(f, d + 1)| <= Capacity(|AtDepth(f, 1)|, c, d)
  {
    if d == 0 {
      assert UpToDepth(f, 1) == AtDepth(f, 1);
    } else {
      LevelBound(f, c, d);
      PivotBound(f, c, d - 1);
      DepthSplit(f, d);
    }
  }

  lemma DepthSplit<R>(f: Forest<R>, d: nat)
    ensures |UpToDepth(f, d + 1)| <= |UpToDepth(f, d)| + |AtDepth(f, d + 1)|
  {
    assert UpToDepth(f, d + 1) == UpToDepth(f, d) + AtDepth(f, d + 1);
  }

  /** The places of the samples stored at pivots of at most the given depth. */
  ghost function Slots<R>(f: Forest<R>, depth: nat): set<(Address, nat)> {
    set a, i: nat | a in f && |a| <= depth && i < |f[a]| :: (a, i)
  }

  function Range(n: nat): (r: set<nat>)
    ensures |r| == n && forall i: nat :: i in r <==> i < n
  {
    if n == 0 then {} else Range(n - 1) + {n - 1}
  }

  lemma SubsetSize<T>(a: set<T>, b: set<T>)
    requires a <= b
    ensures |a| <= |b|
  {
    assert b == a + (b - a);
  }

  lemma SlotsOfPivot<R>(f: Forest<R>, a: Address, slots: set<(Address, nat)>)
    requires a in f && forall x | x in slots :: x.0 == a && x.1 < |f[a]|
    ensures |slots| <= |f[a]|
  {
    var index := map x | x in slots :: x.1;
    InjectionBound(index, Range(|f[a]|));
    assert index.Keys == slots;
  }

  /** Stored requests with at most d path elements: samples per pivot x hosts x (1 + c + ... + c^d). */
  lemma SampleBound<R>(f: Forest<R>, c: nat, s: nat, d: nat)
    requires Tree(f) && ChildrenWithin(f, c)
    requires forall a | a in f :: |f[a]| <= s
    ensures |Slots(f, d + 1)| <= s * Capacity(|AtDepth(f, 1)|, c, d)
  {
    var owner := map x | x in Slots(f, d + 1) :: x.0;
    forall a | a in UpToDepth(f, d + 1) ensures |Fibre(owner, a)| <= s {
      SlotsOfPivot(f, a, Fibre(owner, a));
    }
    FibreBound(owner, UpToDepth(f, d + 1), s);
    assert owner.Keys == Slots(f, d + 1);
    PivotBound(f, c, d);
    Monotone(s, |UpToDepth(f, d + 1)|, Capacity(|AtDepth(f, 1)|, c, d));
  }
}
