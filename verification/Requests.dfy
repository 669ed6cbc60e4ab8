/** The parsed HTTP request (proto/http_request.proto) and its fuzzy comparison (request.cc). */
module Requests {

  datatype Option<+T> = None | Some(value: T)

  /** An optional proto string reads as empty when it is not set. */
  function OrEmpty(o: Option<string>): string {
    if o.Some? then o.value else ""
  }

  datatype Field = Field(name: Option<string>, value: Option<string>, modified: bool) {
    function Name(): string {
      OrEmpty(name)
    }

    function Value(): string {
      OrEmpty(value)
    }
  }

  datatype Verb = Empty | Get | Head | Options | Post | Put | Trace

  datatype HttpRequest = HttpRequest(
    ssl: bool, verb: Verb, host: Option<string>, ip: string, port: int,
    header: seq<Field>, param: seq<Field>, bodyParam: seq<Field>, path: seq<Field>)

  /** Request::host(): the host name, or the IP address when no host is set. */
  function HostOf(r: HttpRequest): string {
    if r.host.Some? then r.host.value else r.ip
  }

  function Values(fields: seq<Field>): (vs: seq<string>)
    ensures |vs| == |fields| && forall i | 0 <= i < |fields| :: vs[i] == fields[i].Value()
  {
    if fields == [] then [] else [fields[0].Value()] + Values(fields[1..])
  }

  // ---------------------------------------------------------------- comparing field names

  function NameSet(fields: seq<Field>): set<string> {
    set f | f in fields :: f.Name()
  }

  predicate DistinctNames(fields: seq<Field>) {
    forall i, j | 0 <= i < j < |fields| :: fields[i].Name() != fields[j].Name()
  }

  /** What `FieldNamesEqual` computes: both sides together have as many names as one side has fields. */
  predicate NamesMatch(one: seq<Field>, two: seq<Field>) {
    |one| == |two| && |NameSet(one) + NameSet(two)| == |one|
  }

  method FieldNamesEqual(one: seq<Field>, two: seq<Field>) returns (equal: bool)
    ensures equal == NamesMatch(one, two)
  {
    if |one| != |two| {
      return false;
    }
    var uniqueNames: set<string> := {};
    for i := 0 to |one|
      invariant uniqueNames == NameSet(one[..i])
    {
      assert one[..i + 1] == one[..i] + [one[i]];
      uniqueNames := uniqueNames + {one[i].Name()};
    }
    assert one[..|one|] == one;
    for i := 0 to |two|
      invariant uniqueNames == NameSet(one) + NameSet(two[..i])
    {
      assert two[..i + 1] == two[..i] + [two[i]];
      uniqueNames := uniqueNames + {two[i].Name()};
    }
    assert two[..|two|] == two;
    return |uniqueNames| == |one|;
  }

  lemma NamesSnoc(front: seq<Field>, f: Field)
    ensures NameSet(front + [f]) == NameSet(front) + {f.Name()}
    ensures DistinctNames(front + [f]) <==> DistinctNames(front) && f.Name() !in NameSet(front)
  {
    var all := front + [f];
    assert forall g | g in front :: g in all;
    if DistinctNames(all) {
      assert forall i | 0 <= i < |front| :: all[i] == front[i] && all[i].Name() != all[|front|].Name();
      assert forall i, j | 0 <= i < j < |front| :: all[i].Name() != all[j].Name();
    }
    if f.Name() !in NameSet(front) {
      assert forall i | 0 <= i < |front| :: front[i] in front && front[i].Name() != f.Name();
    }
  }

  /** There are never more names than fields, and as many exactly when no name repeats. */
  lemma {:induction false} NameCount(fields: seq<Field>)
    ensures |NameSet(fields)| <= |fields|
    ensures |NameSet(fields)| == |fields| <==> DistinctNames(fields)
  {
    if fields != [] {
      var n := |fields| - 1;
      NameCount(fields[..n]);
      NamesSnoc(fields[..n], fields[n]);
      assert fields == fields[..n] + [fields[n]];
    }
  }

  lemma SupersetOfSameSize<T>(small: set<T>, big: set<T>)
    requires small <= big && |small| == |big|
    ensures small == big
  {
    assert |big - small| == |big| - |small|;
  }

  /** The counting test in terms of each side: the names the second side adds make up for the first side's repeats. */
  lemma NamesMatchCounted(one: seq<Field>, two: seq<Field>)
    ensures NamesMatch(one, two) <==> |one| == |two| && |one| - |NameSet(one)| == |NameSet(two) - NameSet(one)|
  {
    assert NameSet(one) + NameSet(two) == NameSet(one) + (NameSet(two) - NameSet(one));
  }

  /** The counting test agrees with equality of the two name sets exactly if equal sets come without repeats, and
      among different ones those that the second side adds never make up for the first side's repeats. */
  lemma NamesMatchIsSetEquality(one: seq<Field>, two: seq<Field>)
    ensures (NamesMatch(one, two) <==> NameSet(one) == NameSet(two))
       <==> if NameSet(one) == NameSet(two) then DistinctNames(one) && DistinctNames(two)
            else |one| != |two| || |one| - |NameSet(one)| != |NameSet(two) - NameSet(one)|
  {
    NameCount(one);
    NameCount(two);
    NamesMatchCounted(one, two);
    if NameSet(one) == NameSet(two) {
      assert NameSet(two) - NameSet(one) == {};
    }
  }

  /** So it does with distinct names on each side. */
  lemma DistinctNamesMatch(one: seq<Field>, two: seq<Field>)
    requires DistinctNames(one) && DistinctNames(two)
    ensures NamesMatch(one, two) <==> NameSet(one) == NameSet(two)
  {
    NameCount(one);
    NameCount(two);
    var union := NameSet(one) + NameSet(two);
    if NamesMatch(one, two) {
      SupersetOfSameSize(NameSet(one), union);
      SupersetOfSameSize(NameSet(two), union);
    }
    if NameSet(one) == NameSet(two) {
      assert union == NameSet(one);
    }
  }

  /** Repeated names break both directions of the documented "exact same set of names". */
  lemma RepeatedNamesMislead(a: Field, b: Field)
    requires a.Name() != b.Name()
    ensures !NamesMatch([a, a], [a, a]) && NameSet([a, a]) == NameSet([a, a])
    ensures NamesMatch([a, a], [a, b]) && NameSet([a, a]) != NameSet([a, b])
  {
    assert a in [a, b] && b in [a, b];
    assert NameSet([a, a]) == {a.Name()};
    assert NameSet([a, b]) == {a.Name(), b.Name()};
    assert NameSet([a, a]) + NameSet([a, a]) == {a.Name()};
    assert NameSet([a, a]) + NameSet([a, b]) == {a.Name(), b.Name()};
  }

  // ---------------------------------------------------------------- Request::Equals

  predicate SamePath(a: seq<Field>, b: seq<Field>) {
    |a| == |b| && forall i | 0 <= i < |a| :: a[i].Value() == b[i].Value()
  }

  /** Two requests for the same place with the same parameter names; values do not count. */
  predicate SameRequest(a: HttpRequest, b: HttpRequest) {
    && a.ssl == b.ssl && a.verb == b.verb && OrEmpty(a.host) == OrEmpty(b.host) && a.port == b.port
    && NamesMatch(a.param, b.param) && NamesMatch(a.bodyParam, b.bodyParam)
    && SamePath(a.path, b.path)
  }

  /** What tells requests apart: where they go and how, and the sets of their parameter names. */
  datatype Key = Key(place: Place, params: set<string>, bodyParams: set<string>)

  datatype Place = Place(ssl: bool, verb: Verb, host: string, port: int, path: seq<string>)

  function PlaceOf(r: HttpRequest): Place {
    Place(r.ssl, r.verb, OrEmpty(r.host), r.port, Values(r.path))
  }

  function KeyOf(r: HttpRequest): Key {
    Key(PlaceOf(r), NameSet(r.param), NameSet(r.bodyParam))
  }

  lemma SamePathIsSameValues(a: seq<Field>, b: seq<Field>)
    ensures SamePath(a, b) <==> Values(a) == Values(b)
  {
    if Values(a) == Values(b) {
      assert forall i | 0 <= i < |a| :: Values(a)[i] == Values(b)[i];
    }
  }

  /** Equal requests have one place, and requests with distinct parameter names are equal exactly if they have one key. */
  lemma SameRequestIsSameKey(a: HttpRequest, b: HttpRequest)
    ensures SameRequest(a, b) ==> PlaceOf(a) == PlaceOf(b)
    ensures SameRequest(a, b) <==> PlaceOf(a) == PlaceOf(b) && NamesMatch(a.param, b.param) && NamesMatch(a.bodyParam, b.bodyParam)
    ensures DistinctParams(a) && DistinctParams(b) ==> (SameRequest(a, b) <==> KeyOf(a) == KeyOf(b))
  {
    SamePathIsSameValues(a.path, b.path);
    if DistinctParams(a) && DistinctParams(b) {
      DistinctNamesMatch(a.param, b.param);
      DistinctNamesMatch(a.bodyParam, b.bodyParam);
    }
  }

  /** Equality of keys for requests that repeat no parameter name; never across places. */
  method Equals(a: HttpRequest, b: HttpRequest) returns (equal: bool)
    ensures equal == SameRequest(a, b)
    ensures equal ==> PlaceOf(a) == PlaceOf(b)
    ensures DistinctParams(a) && DistinctParams(b) ==> (equal <==> KeyOf(a) == KeyOf(b))
  {
    SameRequestIsSameKey(a, b);
    hide PlaceOf, KeyOf, DistinctParams, Values;
    if && a.ssl == b.ssl && a.verb == b.verb && OrEmpty(a.host) == OrEmpty(b.host) && a.port == b.port
       && |a.param| == |b.param| && |a.bodyParam| == |b.bodyParam| && |a.path| == |b.path|
    {
      var params := FieldNamesEqual(a.param, b.param);
      var bodyParams := FieldNamesEqual(a.bodyParam, b.bodyParam);
      if !params || !bodyParams {
        return false;
      }
      for i := 0 to |a.path|
        invariant forall j | 0 <= j < i :: a.path[j].Value() == b.path[j].Value()
      {
        if a.path[i].Value() != b.path[i].Value() {
          return false;
        }
      }
      return true;
    }
    return false;
  }

  predicate DistinctParams(r: HttpRequest) {
    DistinctNames(r.param) && DistinctNames(r.bodyParam)
  }

  lemma SameRequestSymmetric(a: HttpRequest, b: HttpRequest)
    ensures SameRequest(a, b) == SameRequest(b, a)
  {
    assert NameSet(a.param) + NameSet(b.param) == NameSet(b.param) + NameSet(a.param);
    assert NameSet(a.bodyParam) + NameSet(b.bodyParam) == NameSet(b.bodyParam) + NameSet(a.bodyParam);
  }

  /** A request equals itself exactly when no parameter name repeats. */
  lemma SameRequestReflexiveWhen(a: HttpRequest)
    ensures SameRequest(a, a) <==> DistinctParams(a)
  {
    NameCount(a.param);
    NameCount(a.bodyParam);
    assert NameSet(a.param) + NameSet(a.param) == NameSet(a.param);
    assert NameSet(a.bodyParam) + NameSet(a.bodyParam) == NameSet(a.bodyParam);
  }

  /** With distinct names on the first two lists, the match carries on to any third. */
  lemma NamesMatchTransitive(one: seq<Field>, two: seq<Field>, three: seq<Field>)
    requires DistinctNames(one) && DistinctNames(two) && NamesMatch(one, two) && NamesMatch(two, three)
    ensures NamesMatch(one, three)
  {
    DistinctNamesMatch(one, two);
  }

  lemma TransitiveOn(a: HttpRequest, b: HttpRequest, c: HttpRequest)
    requires DistinctParams(a) && DistinctParams(b) && SameRequest(a, b) && SameRequest(b, c)
    ensures SameRequest(a, c)
  {
    NamesMatchTransitive(a.param, b.param, c.param);
    NamesMatchTransitive(a.bodyParam, b.bodyParam, c.bodyParam);
  }

  /** Transitive if the first two requests, or by symmetry the last two, have distinct names. */
  lemma SameRequestTransitive(a: HttpRequest, b: HttpRequest, c: HttpRequest)
    requires DistinctParams(b) && (DistinctParams(a) || DistinctParams(c))
    requires SameRequest(a, b) && SameRequest(b, c)
    ensures SameRequest(a, c)
  {
    if DistinctParams(a) {
      TransitiveOn(a, b, c);
    } else {
      SameRequestSymmetric(a, b);
      SameRequestSymmetric(b, c);
      TransitiveOn(c, b, a);
      SameRequestSymmetric(a, c);
    }
  }

  lemma NamesOfTwo(x: Field, y: Field)
    ensures NameSet([x, y]) == {x.Name(), y.Name()}
    ensures DistinctNames([x, y]) <==> x.Name() != y.Name()
  {
    assert x in [x, y] && y in [x, y];
    assert [x, y][0] == x && [x, y][1] == y;
  }

  /** A repeated name in the middle breaks the chain, though the outer lists repeat none. */
  lemma MiddleNamesMatter(x: Field, y: Field, z: Field)
    requires x.Name() != y.Name() && y.Name() != z.Name() && x.Name() != z.Name()
    ensures DistinctNames([x, y]) && DistinctNames([x, z]) && !DistinctNames([x, x])
    ensures NamesMatch([x, y], [x, x]) && NamesMatch([x, x], [x, z]) && !NamesMatch([x, y], [x, z])
  {
    NamesOfTwo(x, y);
    NamesOfTwo(x, x);
    NamesOfTwo(x, z);
    assert NameSet([x, y]) + NameSet([x, x]) == {x.Name(), y.Name()};
    assert NameSet([x, x]) + NameSet([x, z]) == {x.Name(), z.Name()};
    assert NameSet([x, y]) + NameSet([x, z]) == {x.Name(), y.Name(), z.Name()};
  }

  /** So the comparison of requests is not transitive through a request with repeated names, */
  lemma MiddleRequestMatters(r: HttpRequest, x: Field, y: Field, z: Field)
    requires SameRequest(r, r) && x.Name() != y.Name() && y.Name() != z.Name() && x.Name() != z.Name()
    ensures var a, b, c := r.(param := [x, y]), r.(param := [x, x]), r.(param := [x, z]);
      SameRequest(a, b) && SameRequest(b, c) && !SameRequest(a, c)
  {
    MiddleNamesMatter(x, y, z);
  }

  /** Repeated names outside break it, too, though the middle list repeats none. */
  lemma OuterNamesMatter(x: Field, y: Field)
    requires x.Name() != y.Name()
    ensures DistinctNames([x, y]) && !DistinctNames([x, x])
    ensures NamesMatch([x, x], [x, y]) && NamesMatch([x, y], [x, x]) && !NamesMatch([x, x], [x, x])
  {
    NamesOfTwo(x, y);
    NamesOfTwo(x, x);
    assert NameSet([x, x]) + NameSet([x, y]) == {x.Name(), y.Name()} == NameSet([x, y]) + NameSet([x, x]);
    assert NameSet([x, x]) + NameSet([x, x]) == {x.Name()};
  }

  /** nor from and to one, through a request without. */
  lemma OuterRequestMatters(r: HttpRequest, x: Field, y: Field)
    requires SameRequest(r, r) && x.Name() != y.Name()
    ensures var a, b := r.(param := [x, x]), r.(param := [x, y]);
      DistinctParams(b) && SameRequest(a, b) && SameRequest(b, a) && !SameRequest(a, a)
  {
    OuterNamesMatter(x, y);
    SameRequestReflexiveWhen(r);
  }

  // ---------------------------------------------------------------- when the match carries on

  function Letters(n: nat): (s: string)
    ensures |s| == n
  {
    if n == 0 then "" else Letters(n - 1) + "x"
  }

  function FreshField(n: nat): Field {
    Field(Some(Letters(n)), None, false)
  }

  /** k fields with names that are longer than `length`, each of another length. */
  function FreshFields(length: nat, k: nat): (fields: seq<Field>)
    ensures |fields| == k && forall i | 0 <= i < k :: |fields[i].Name()| == length + 1 + i
  {
    if k == 0 then [] else FreshFields(length, k - 1) + [FreshField(length + k)]
  }

  lemma FreshNames(length: nat, k: nat)
    ensures DistinctNames(FreshFields(length, k)) && |NameSet(FreshFields(length, k))| == k
    ensures forall name | name in NameSet(FreshFields(length, k)) :: |name| > length
  {
    var fields := FreshFields(length, k);
    assert forall i, j | 0 <= i < j < k :: |fields[i].Name()| != |fields[j].Name()|;
    NameCount(fields);
  }

  function LongestName(fields: seq<Field>): (length: nat)
    ensures forall name | name in NameSet(fields) :: |name| <= length
  {
    if fields == [] then 0 else
      var n := |fields| - 1;
      var rest, last := LongestName(fields[..n]), |fields[n].Name()|;
      assert forall f | f in fields :: f in fields[..n] || f == fields[n];
      assert forall f | f in fields[..n] :: f.Name() in NameSet(fields[..n]);
      if rest < last then last else rest
  }

  /** The list with its first field repeated up to length n: no new names. */
  function Padded(fields: seq<Field>, n: nat): (r: seq<Field>)
    requires fields != [] && |fields| <= n
    ensures |r| == n && NameSet(r) == NameSet(fields)
    decreases n - |fields|
  {
    if |fields| == n then fields else
      assert forall f | f in [fields[0]] + fields :: f in fields;
      assert forall f | f in fields :: f in [fields[0]] + fields;
      Padded([fields[0]] + fields, n)
  }

  /** If the first list has no repeats and the second has, fresh names in place of the repeats break the chain. */
  lemma FreshBreaks(one: seq<Field>, two: seq<Field>) returns (three: seq<Field>)
    requires NamesMatch(one, two) && DistinctNames(one) && !DistinctNames(two)
    ensures NamesMatch(two, three) && !NamesMatch(one, three)
  {
    NameCount(one);
    NameCount(two);
    SupersetOfSameSize(NameSet(one), NameSet(one) + NameSet(two));
    var k := |two| - |NameSet(two)|;
    var added := FreshFields(LongestName(one), k);
    FreshNames(LongestName(one), k);
    three := Padded(added, |one|);
    assert NameSet(three) !! NameSet(one);
    assert NameSet(two) <= NameSet(one);
    UnionSize(NameSet(two), NameSet(three));
    UnionSize(NameSet(one), NameSet(three));
  }

  lemma UnionSize<T>(a: set<T>, b: set<T>)
    requires a !! b
    ensures |a + b| == |a| + |b|
  {
  }

  lemma ChainBreaks(one: seq<Field>, two: seq<Field>) returns (three: seq<Field>)
    requires NamesMatch(one, two) && !(DistinctNames(one) && DistinctNames(two))
    ensures NamesMatch(two, three) && !NamesMatch(one, three)
  {
    if DistinctNames(one) {
      three := FreshBreaks(one, two);
    } else {
      three := one;
      NamesMatchSymmetric(one, two);
      NameCount(one);
      assert NameSet(one) + NameSet(one) == NameSet(one);
    }
  }

  lemma NamesMatchSymmetric(one: seq<Field>, two: seq<Field>)
    ensures NamesMatch(one, two) == NamesMatch(two, one)
  {
    assert NameSet(one) + NameSet(two) == NameSet(two) + NameSet(one);
  }

  /** A match carries on to everything that the second list matches exactly if no name repeats in the two. */
  lemma NamesMatchCarriesOn(one: seq<Field>, two: seq<Field>)
    requires NamesMatch(one, two)
    ensures (forall three :: NamesMatch(two, three) ==> NamesMatch(one, three)) <==> DistinctNames(one) && DistinctNames(two)
  {
    if DistinctNames(one) && DistinctNames(two) {
      forall three | NamesMatch(two, three) ensures NamesMatch(one, three) {
        NamesMatchTransitive(one, two, three);
      }
    } else {
      var three := ChainBreaks(one, two);
    }
  }

  lemma SameRequestBreaks(a: HttpRequest, b: HttpRequest) returns (c: HttpRequest)
    requires SameRequest(a, b) && !(DistinctParams(a) && DistinctParams(b))
    ensures SameRequest(b, c) && !SameRequest(a, c)
  {
    SameRequestSymmetric(a, b);
    if DistinctNames(a.param) && DistinctNames(b.param) {
      var list := ChainBreaks(a.bodyParam, b.bodyParam);
      c := a.(bodyParam := list);
    } else {
      var list := ChainBreaks(a.param, b.param);
      c := a.(param := list);
    }
  }

  /** Two equal requests are equal to the same requests exactly if neither repeats a parameter name. */
  lemma SameRequestCarriesOn(a: HttpRequest, b: HttpRequest)
    requires SameRequest(a, b)
    ensures (forall c :: SameRequest(b, c) ==> SameRequest(a, c)) <==> DistinctParams(a) && DistinctParams(b)
  {
    if DistinctParams(a) && DistinctParams(b) {
      forall c | SameRequest(b, c) ensures SameRequest(a, c) {
        TransitiveOn(a, b, c);
      }
    } else {
      var c := SameRequestBreaks(a, b);
    }
  }

  // ---------------------------------------------------------------- setting fields

  function Named(fields: seq<Field>, name: string): set<nat> {
    set i: nat | i < |fields| && fields[i].Name() == name
  }

  /** The fields after ReplaceOrAddExistingField. */
  function Updated(fields: seq<Field>, name: string, value: string, replace: bool): seq<Field> {
    if Named(fields, name) == {} then fields + [Field(Some(name), Some(value), false)]
    else if replace then Overwritten(fields, name, value)
    else fields
  }

  function Overwritten(fields: seq<Field>, name: string, value: string): seq<Field> {
    seq(|fields|, i requires 0 <= i < |fields| =>
      if fields[i].Name() == name then fields[i].(value := Some(value)) else fields[i])
  }

  /** Sets the value of all fields of a name, or adds one; existing ones stay if asked so. */
  method ReplaceOrAddExistingField(fields: seq<Field>, name: string, value: string, replace: bool)
    returns (result: seq<Field>, updated: nat)
    ensures result == Updated(fields, name, value, replace)
    ensures updated == if Named(fields, name) == {} then 1 else if replace then |Named(fields, name)| else 0
  {
    result, updated := fields, 0;
    ghost var seen: set<nat> := {};
    for i := 0 to |fields|
      invariant |result| == |fields| && updated == |seen|
      invariant seen == set k: nat | k < i && fields[k].Name() == name
      invariant !replace ==> seen == {}
      invariant forall k | i <= k < |fields| :: result[k] == fields[k]
      invariant forall k | 0 <= k < i ::
                  result[k] == if fields[k].Name() == name then fields[k].(value := Some(value)) else fields[k]
    {
      if fields[i].Name() == name {
        if !replace {
          assert i in Named(fields, name);
          return fields, 0;
        }
        result := result[i := fields[i].(value := Some(value))];
        seen := seen + {i};
        updated := updated + 1;
      }
    }
    assert seen == Named(fields, name);
    if updated > 0 {
      return;
    }
    return fields + [Field(Some(name), Some(value), false)], 1;
  }

  /** What became of each field: one is added exactly if none had the name, those with the name have the new value
      exactly if they are to be replaced, and nothing else changes. */
  lemma UpdatedExactly(fields: seq<Field>, name: string, value: string, replace: bool)
    ensures var result := Updated(fields, name, value, replace);
      && (forall i | 0 <= i < |fields| :: result[i] ==
            if fields[i].Name() == name && replace then Field(fields[i].name, Some(value), fields[i].modified) else fields[i])
      && result[|fields|..] == if exists f | f in fields :: f.Name() == name then [] else [Field(Some(name), Some(value), false)]
  {
    if f :| f in fields && f.Name() == name {
      var i :| 0 <= i < |fields| && fields[i] == f;
      assert i in Named(fields, name);
    }
  }

  /** Setting a field and setting it again, with replacement, leaves the last value only. */
  lemma UpdatedTwice(fields: seq<Field>, name: string, first: string, second: string)
    ensures Updated(Updated(fields, name, first, true), name, second, true) == Updated(fields, name, second, true)
  {
    var once := Updated(fields, name, first, true);
    if Named(fields, name) == {} {
      assert once[|fields|].Name() == name;
      assert |fields| in Named(once, name);
      forall i | 0 <= i < |fields| ensures fields[i].Name() != name {
        assert i !in Named(fields, name);
      }
    } else {
      var i :| i in Named(fields, name);
      assert i in Named(once, name);
    }
  }
}
