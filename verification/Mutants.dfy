/** Where in the generator's output each request stands, and what it differs in from the base request. */
module Mutants {
  import opened Requests
  import opened Generators

  // ---------------------------------------------------------------- counting in mixed radix

  /** Where block n starts when every block has the given width: n × width, kept out of the way of the proofs. */
  function Start(width: nat, n: nat): (at: nat) {
    if n == 0 then 0 else Start(width, n - 1) + width
  }

  lemma {:induction false} StartIs(width: nat, n: nat)
    ensures Start(width, n) == n * width
  {
    if n > 0 {
      StartIs(width, n - 1);
      assert n * width == (n - 1) * width + width;
    }
  }

  lemma {:induction false} StartSum(width: nat, a: nat, b: nat)
    ensures Start(width, a + b) == Start(width, a) + Start(width, b)
  {
    if b > 0 {
      StartSum(width, a, b - 1);
    }
  }

  ghost predicate StandsAt<T>(s: seq<T>, at: nat, x: T) {
    at < |s| && s[at] == x
  }

  lemma InFront<T>(front: seq<T>, tail: seq<T>, at: nat, x: T)
    requires StandsAt(front, at, x)
    ensures StandsAt(front + tail, at, x)
  {
  }

  lemma Behind<T>(front: seq<T>, tail: seq<T>, at: nat, x: T)
    requires StandsAt(tail, at, x)
    ensures StandsAt(front + tail, |front| + at, x)
  {
  }

  // ---------------------------------------------------------------- payloads

  lemma {:induction false} ByArgumentCount(rule: Rule, original: string, m: InjectionMethod, e: Encoding, n: nat)
    requires n <= |rule.payloads|
    ensures |ByArgument(rule, original, m, e, n)| == n
  {
    if n > 0 {
      ByArgumentCount(rule, original, m, e, n - 1);
    }
  }

  lemma {:induction false} ByArgumentAt(rule: Rule, original: string, m: InjectionMethod, e: Encoding, n: nat, p: nat)
    requires p < n <= |rule.payloads|
    ensures StandsAt(ByArgument(rule, original, m, e, n), p, Payload(original, rule.payloads[p], m, e))
  {
    ByArgumentCount(rule, original, m, e, n - 1);
    if p < n - 1 {
      ByArgumentAt(rule, original, m, e, n - 1, p);
    }
  }

  lemma {:induction false} ByEncodingCount(rule: Rule, original: string, m: InjectionMethod, n: nat)
    requires n <= |rule.encodings|
    ensures |ByEncoding(rule, original, m, n)| == Start(|rule.payloads|, n)
  {
    if n > 0 {
      ByEncodingCount(rule, original, m, n - 1);
      ByArgumentCount(rule, original, m, rule.encodings[n - 1], |rule.payloads|);
    }
  }

  lemma {:induction false} ByEncodingAt(rule: Rule, original: string, m: InjectionMethod, n: nat, e: nat, q: nat, x: Payload)
    requires e < n <= |rule.encodings| && StandsAt(ByArgument(rule, original, m, rule.encodings[e], |rule.payloads|), q, x)
    ensures StandsAt(ByEncoding(rule, original, m, n), Start(|rule.payloads|, e) + q, x)
  {
    var front, last := ByEncoding(rule, original, m, n - 1), ByArgument(rule, original, m, rule.encodings[n - 1], |rule.payloads|);
    if e < n - 1 {
      ByEncodingAt(rule, original, m, n - 1, e, q, x);
      InFront(front, last, Start(|rule.payloads|, e) + q, x);
    } else {
      ByEncodingCount(rule, original, m, n - 1);
      Behind(front, last, q, x);
    }
  }

  /** How many payloads one method yields. */
  function PerMethod(rule: Rule): nat {
    Start(|rule.payloads|, |rule.encodings|)
  }

  lemma {:induction false} ByMethodCount(rule: Rule, original: string, n: nat)
    requires n <= |rule.methods|
    ensures |ByMethod(rule, original, n)| == Start(PerMethod(rule), n)
  {
    if n > 0 {
      ByMethodCount(rule, original, n - 1);
      ByEncodingCount(rule, original, rule.methods[n - 1], |rule.encodings|);
    }
  }

  lemma {:induction false} ByMethodAt(rule: Rule, original: string, n: nat, m: nat, q: nat, x: Payload)
    requires m < n <= |rule.methods| && StandsAt(ByEncoding(rule, original, rule.methods[m], |rule.encodings|), q, x)
    ensures StandsAt(ByMethod(rule, original, n), Start(PerMethod(rule), m) + q, x)
  {
    var front, last := ByMethod(rule, original, n - 1), ByEncoding(rule, original, rule.methods[n - 1], |rule.encodings|);
    if m < n - 1 {
      ByMethodAt(rule, original, n - 1, m, q, x);
      InFront(front, last, Start(PerMethod(rule), m) + q, x);
    } else {
      ByMethodCount(rule, original, n - 1);
      Behind(front, last, q, x);
    }
  }

  /** The place of a payload among those of its field. */
  function PayloadPlace(rule: Rule, m: nat, e: nat, p: nat): nat {
    Start(PerMethod(rule), m) + (Start(|rule.payloads|, e) + p)
  }

  /** One field gets its payloads by method, then by encoding, then by argument. */
  lemma PayloadAt(rule: Rule, f: Field, m: nat, e: nat, p: nat)
    requires m < |rule.methods| && e < |rule.encodings| && p < |rule.payloads|
    ensures StandsAt(AllPayloads(rule, f), PayloadPlace(rule, m, e, p),
                     Payload(f.Value(), rule.payloads[p], rule.methods[m], rule.encodings[e]))
  {
    var x := Payload(f.Value(), rule.payloads[p], rule.methods[m], rule.encodings[e]);
    ByArgumentAt(rule, f.Value(), rule.methods[m], rule.encodings[e], |rule.payloads|, p);
    ByEncodingAt(rule, f.Value(), rule.methods[m], |rule.encodings|, e, p, x);
    ByMethodAt(rule, f.Value(), |rule.methods|, m, Start(|rule.payloads|, e) + p, x);
  }

  // ---------------------------------------------------------------- fields

  /** Every field gets methods × encodings × arguments payloads. */
  function PerField(rule: Rule): nat {
    Start(PerMethod(rule), |rule.methods|)
  }

  lemma PerFieldIs(rule: Rule, f: Field)
    ensures |AllPayloads(rule, f)| == PerField(rule)
  {
    ByMethodCount(rule, f.Value(), |rule.methods|);
  }

  /** How many of the first n fields are injected into. */
  function EligibleAmong(target: Target, fields: seq<Field>, n: nat): nat
    requires n <= |fields|
  {
    if n == 0 then 0 else EligibleAmong(target, fields, n - 1) + if Eligible(target, fields[n - 1]) then 1 else 0
  }

  /** The fields when the turn comes to field i: those injected into before were restored. */
  function Swept(target: Target, fields: seq<Field>, i: nat): (r: seq<Field>)
    ensures |r| == |fields|
  {
    seq(|fields|, j requires 0 <= j < |fields| =>
      if j < i && Eligible(target, fields[j]) then Restored(fields[j]) else fields[j])
  }

  /** Field i of the given kind injected with a payload. */
  function Mutant(base: HttpRequest, kind: TargetKind, fields: seq<Field>, i: nat, payload: Payload, parent: int, agent: string): Generated
    requires i < |fields|
  {
    Generated(Prepared(WithFields(base, kind, fields[i := Injected(fields[i], payload.Text())]), agent), parent)
  }

  lemma {:induction false} ForFieldAt(base: HttpRequest, kind: TargetKind, fields: seq<Field>, i: nat, ps: seq<Payload>,
                                      parent: int, agent: string, r: nat, p: Payload)
    requires i < |fields| && StandsAt(ps, r, p)
    ensures StandsAt(ForField(base, kind, fields, i, ps, parent, agent), r, Mutant(base, kind, fields, i, p, parent, agent))
  {
    if r > 0 {
      ForFieldAt(base, kind, fields, i, ps[1..], parent, agent, r - 1, p);
    }
  }

  lemma SweptStep(rule: Rule, target: Target, fields: seq<Field>, i: nat)
    requires i < |fields| && PerField(rule) > 0
    ensures Swept(target, fields, i + 1)
         == if Eligible(target, fields[i]) then Swept(target, fields, i)[i := AfterTurn(rule, fields[i])] else Swept(target, fields, i)
  {
    PerFieldIs(rule, fields[i]);
  }

  /** The requests from field i on, with the fields as they are then. */
  function From(rule: Rule, base: HttpRequest, target: Target, fields: seq<Field>, i: nat, parent: int, agent: string): seq<Generated>
    requires i <= |fields|
  {
    ForFields(rule, base, target, Swept(target, fields, i), i, parent, agent)
  }

  lemma OwnTurn(rule: Rule, base: HttpRequest, target: Target, fields: seq<Field>, t: nat, parent: int, agent: string, r: nat, p: Payload)
    requires t < |fields| && Eligible(target, fields[t]) && StandsAt(AllPayloads(rule, fields[t]), r, p)
    ensures StandsAt(From(rule, base, target, fields, t, parent, agent), r,
                     Mutant(base, target.kind, Swept(target, fields, t), t, p, parent, agent))
  {
    var now, ps := Swept(target, fields, t), AllPayloads(rule, fields[t]);
    ForFieldAt(base, target.kind, now, t, ps, parent, agent, r, p);
    InFront(ForField(base, target.kind, now, t, ps, parent, agent),
            ForFields(rule, base, target, now[t := AfterTurn(rule, now[t])], t + 1, parent, agent), r,
            Mutant(base, target.kind, now, t, p, parent, agent));
  }

  /** How far the requests of field t are behind those of field i. */
  function Offset(target: Target, fields: seq<Field>, width: nat, i: nat, t: nat): nat
    requires i <= t <= |fields|
    decreases t - i
  {
    if i == t then 0 else (if Eligible(target, fields[i]) then width else 0) + Offset(target, fields, width, i + 1, t)
  }

  lemma {:induction false} OffsetIs(target: Target, fields: seq<Field>, width: nat, i: nat, t: nat)
    requires i <= t <= |fields|
    ensures Start(width, EligibleAmong(target, fields, t)) == Start(width, EligibleAmong(target, fields, i)) + Offset(target, fields, width, i, t)
    decreases t - i
  {
    if i < t {
      OffsetIs(target, fields, width, i + 1, t);
    }
  }

  /** The second output follows w requests of the first. */
  ghost predicate Follows(here: seq<Generated>, later: seq<Generated>, w: nat) {
    w <= |here| && here[w..] == later
  }

  lemma FieldFollows(rule: Rule, base: HttpRequest, target: Target, fields: seq<Field>, i: nat, parent: int, agent: string)
    requires i < |fields| && PerField(rule) > 0
    ensures Follows(From(rule, base, target, fields, i, parent, agent), From(rule, base, target, fields, i + 1, parent, agent),
                    if Eligible(target, fields[i]) then PerField(rule) else 0)
  {
    PerFieldIs(rule, fields[i]);
    SweptStep(rule, target, fields, i);
  }

  /** In a chain of outputs, what stands in one stands in the first behind all that comes before. */
  lemma {:induction false} ChainAt(outs: seq<seq<Generated>>, target: Target, fields: seq<Field>, width: nat, i: nat, t: nat, r: nat, x: Generated)
    requires i <= t < |fields| < |outs| && StandsAt(outs[t], r, x)
    requires forall k | i <= k < t :: Follows(outs[k], outs[k + 1], if Eligible(target, fields[k]) then width else 0)
    ensures StandsAt(outs[i], Offset(target, fields, width, i, t) + r, x)
    decreases t - i
  {
    if i < t {
      ChainAt(outs, target, fields, width, i + 1, t, r, x);
      var w := if Eligible(target, fields[i]) then width else 0;
      var at := Offset(target, fields, width, i + 1, t) + r;
      assert Follows(outs[i], outs[i + 1], w);
      assert outs[i][w..][at] == outs[i][w + at];
    }
  }

  lemma {:induction false} ChainLength(outs: seq<seq<Generated>>, target: Target, fields: seq<Field>, width: nat, i: nat)
    requires i <= |fields| < |outs| && outs[|fields|] == []
    requires forall k | i <= k < |fields| :: Follows(outs[k], outs[k + 1], if Eligible(target, fields[k]) then width else 0)
    ensures |outs[i]| == Offset(target, fields, width, i, |fields|)
    decreases |fields| - i
  {
    if i < |fields| {
      ChainLength(outs, target, fields, width, i + 1);
      assert Follows(outs[i], outs[i + 1], if Eligible(target, fields[i]) then width else 0);
    }
  }

  /** The outputs from each field on. */
  function Outputs(rule: Rule, base: HttpRequest, target: Target, fields: seq<Field>, parent: int, agent: string): (outs: seq<seq<Generated>>)
    ensures |outs| == |fields| + 1
    ensures forall k | 0 <= k <= |fields| :: outs[k] == From(rule, base, target, fields, k, parent, agent)
  {
    seq(|fields| + 1, k requires 0 <= k <= |fields| => From(rule, base, target, fields, k, parent, agent))
  }

  lemma OutputsFollow(rule: Rule, base: HttpRequest, target: Target, fields: seq<Field>, parent: int, agent: string, outs: seq<seq<Generated>>)
    requires PerField(rule) > 0 && outs == Outputs(rule, base, target, fields, parent, agent)
    ensures forall k | 0 <= k < |fields| :: Follows(outs[k], outs[k + 1], if Eligible(target, fields[k]) then PerField(rule) else 0)
  {
    forall k | 0 <= k < |fields| ensures Follows(outs[k], outs[k + 1], if Eligible(target, fields[k]) then PerField(rule) else 0) {
      FieldFollows(rule, base, target, fields, k, parent, agent);
    }
  }

  /** All eligible fields together. */
  lemma FieldsCount(rule: Rule, base: HttpRequest, target: Target, fields: seq<Field>, parent: int, agent: string)
    requires PerField(rule) > 0
    ensures |From(rule, base, target, fields, 0, parent, agent)| == Start(PerField(rule), EligibleAmong(target, fields, |fields|))
  {
    var outs := Outputs(rule, base, target, fields, parent, agent);
    OutputsFollow(rule, base, target, fields, parent, agent, outs);
    ChainLength(outs, target, fields, PerField(rule), 0);
    OffsetIs(target, fields, PerField(rule), 0, |fields|);
  }

  lemma FromAt(rule: Rule, base: HttpRequest, target: Target, fields: seq<Field>, i: nat, parent: int, agent: string,
               t: nat, r: nat, x: Generated)
    requires i <= t < |fields| && PerField(rule) > 0 && StandsAt(From(rule, base, target, fields, t, parent, agent), r, x)
    ensures StandsAt(From(rule, base, target, fields, i, parent, agent), Offset(target, fields, PerField(rule), i, t) + r, x)
  {
    var outs := Outputs(rule, base, target, fields, parent, agent);
    OutputsFollow(rule, base, target, fields, parent, agent, outs);
    ChainAt(outs, target, fields, PerField(rule), i, t, r, x);
  }

  lemma {:induction false} InForField(base: HttpRequest, kind: TargetKind, fields: seq<Field>, i: nat, ps: seq<Payload>,
                                      parent: int, agent: string, x: Generated) returns (p: Payload)
    requires i < |fields| && x in ForField(base, kind, fields, i, ps, parent, agent)
    ensures p in ps && x == Mutant(base, kind, fields, i, p, parent, agent)
  {
    if x == Mutant(base, kind, fields, i, ps[0], parent, agent) {
      p := ps[0];
    } else {
      p := InForField(base, kind, fields, i, ps[1..], parent, agent, x);
    }
  }

  /** Nothing but mutants of eligible fields is generated. */
  lemma {:induction false} InFrom(rule: Rule, base: HttpRequest, target: Target, fields: seq<Field>, i: nat, parent: int, agent: string,
                                  x: Generated) returns (t: nat, p: Payload)
    requires i <= |fields| && PerField(rule) > 0 && x in From(rule, base, target, fields, i, parent, agent)
    ensures t < |fields| && Eligible(target, fields[t]) && p in AllPayloads(rule, fields[t])
    ensures x == Mutant(base, target.kind, Swept(target, fields, t), t, p, parent, agent)
    decreases |fields| - i
  {
    SweptStep(rule, target, fields, i);
    var now, ps := Swept(target, fields, i), AllPayloads(rule, fields[i]);
    if Eligible(target, fields[i]) && x in ForField(base, target.kind, now, i, ps, parent, agent) {
      t := i;
      p := InForField(base, target.kind, now, i, ps, parent, agent, x);
    } else {
      t, p := InFrom(rule, base, target, fields, i + 1, parent, agent, x);
    }
  }

  // ---------------------------------------------------------------- targets

  /** How many fields of the base request a target injects into. */
  function Chosen(base: HttpRequest, target: Target): nat {
    var fields := FieldsOf(base, target.kind);
    if fields == [] then 0 else if target.lastOnly then 1 else EligibleAmong(target, fields, |fields|)
  }

  lemma SweptNothing(target: Target, fields: seq<Field>)
    ensures Swept(target, fields, 0) == fields
  {
  }

  lemma {:induction false} NothingToInject(rule: Rule, base: HttpRequest, target: Target, fields: seq<Field>, i: nat, parent: int, agent: string)
    requires i <= |fields| && PerField(rule) == 0
    ensures ForFields(rule, base, target, fields, i, parent, agent) == []
    decreases |fields| - i
  {
    if i < |fields| {
      PerFieldIs(rule, fields[i]);
      assert fields[i := fields[i]] == fields;
      NothingToInject(rule, base, target, fields, i + 1, parent, agent);
    }
  }

  /** The product formula for one target. */
  lemma TargetCount(rule: Rule, base: HttpRequest, target: Target, parent: int, agent: string)
    ensures |ForTarget(rule, base, target, parent, agent)| == Start(PerField(rule), Chosen(base, target))
  {
    var fields := FieldsOf(base, target.kind);
    if fields != [] {
      PerFieldIs(rule, fields[|fields| - 1]);
      SweptNothing(target, fields);
      if PerField(rule) == 0 {
        NothingToInject(rule, base, target, fields, 0, parent, agent);
        StartIs(0, Chosen(base, target));
      } else {
        FieldsCount(rule, base, target, fields, parent, agent);
      }
    }
  }

  lemma WholeTarget(rule: Rule, base: HttpRequest, target: Target, parent: int, agent: string)
    requires !target.lastOnly && FieldsOf(base, target.kind) != []
    ensures ForTarget(rule, base, target, parent, agent) == From(rule, base, target, FieldsOf(base, target.kind), 0, parent, agent)
  {
    SweptNothing(target, FieldsOf(base, target.kind));
  }

  lemma FieldAt(rule: Rule, base: HttpRequest, target: Target, fields: seq<Field>, parent: int, agent: string, t: nat, r: nat, x: Generated)
    requires t < |fields| && PerField(rule) > 0 && StandsAt(From(rule, base, target, fields, t, parent, agent), r, x)
    ensures StandsAt(From(rule, base, target, fields, 0, parent, agent), Start(PerField(rule), EligibleAmong(target, fields, t)) + r, x)
  {
    FromAt(rule, base, target, fields, 0, parent, agent, t, r, x);
    OffsetIs(target, fields, PerField(rule), 0, t);
  }

  /** Every position of a target's output: the eligible field t, and the r-th payload, it is for. */
  lemma TargetAt(rule: Rule, base: HttpRequest, target: Target, parent: int, agent: string, fields: seq<Field>, t: nat, r: nat, p: Payload)
    requires !target.lastOnly && PerField(rule) > 0 && fields == FieldsOf(base, target.kind)
    requires t < |fields| && Eligible(target, fields[t]) && StandsAt(AllPayloads(rule, fields[t]), r, p)
    ensures StandsAt(ForTarget(rule, base, target, parent, agent), Start(PerField(rule), EligibleAmong(target, fields, t)) + r,
                     Mutant(base, target.kind, Swept(target, fields, t), t, p, parent, agent))
  {
    var x := Mutant(base, target.kind, Swept(target, fields, t), t, p, parent, agent);
    OwnTurn(rule, base, target, fields, t, parent, agent, r, p);
    FieldAt(rule, base, target, fields, parent, agent, t, r, x);
    WholeTarget(rule, base, target, parent, agent);
  }

  lemma InTarget(rule: Rule, base: HttpRequest, target: Target, parent: int, agent: string, x: Generated) returns (t: nat, p: Payload)
    requires x in ForTarget(rule, base, target, parent, agent)
    ensures var fields := FieldsOf(base, target.kind);
      && t < |fields| && p in AllPayloads(rule, fields[t])
      && (if target.lastOnly then t == |fields| - 1 else Eligible(target, fields[t]))
      && x == Mutant(base, target.kind, if target.lastOnly then fields else Swept(target, fields, t), t, p, parent, agent)
  {
    var fields := FieldsOf(base, target.kind);
    if target.lastOnly {
      t := |fields| - 1;
      p := InForField(base, target.kind, fields, t, AllPayloads(rule, fields[t]), parent, agent, x);
    } else {
      WholeTarget(rule, base, target, parent, agent);
      SomethingToInject(rule, base, target, fields, parent, agent, x);
      t, p := InFrom(rule, base, target, fields, 0, parent, agent, x);
    }
  }

  lemma SomethingToInject(rule: Rule, base: HttpRequest, target: Target, fields: seq<Field>, parent: int, agent: string, x: Generated)
    requires x in From(rule, base, target, fields, 0, parent, agent)
    ensures PerField(rule) > 0
  {
    SweptNothing(target, fields);
    if PerField(rule) == 0 {
      NothingToInject(rule, base, target, fields, 0, parent, agent);
    }
  }

  lemma LastFieldAt(rule: Rule, base: HttpRequest, target: Target, parent: int, agent: string, r: nat, p: Payload)
    requires target.lastOnly && FieldsOf(base, target.kind) != []
    requires var fields := FieldsOf(base, target.kind); StandsAt(AllPayloads(rule, fields[|fields| - 1]), r, p)
    ensures var fields := FieldsOf(base, target.kind);
      StandsAt(ForTarget(rule, base, target, parent, agent), r, Mutant(base, target.kind, fields, |fields| - 1, p, parent, agent))
  {
    var fields := FieldsOf(base, target.kind);
    ForFieldAt(base, target.kind, fields, |fields| - 1, AllPayloads(rule, fields[|fields| - 1]), parent, agent, r, p);
  }

  function ChosenInAll(base: HttpRequest, targets: seq<Target>, n: nat): nat
    requires n <= |targets|
  {
    if n == 0 then 0 else ChosenInAll(base, targets, n - 1) + Chosen(base, targets[n - 1])
  }

  lemma {:induction false} TargetsCount(rule: Rule, base: HttpRequest, n: nat, parent: int, agent: string)
    requires n <= |rule.targets|
    ensures |ForTargets(rule, base, n, parent, agent)| == Start(PerField(rule), ChosenInAll(base, rule.targets, n))
  {
    if n > 0 {
      TargetsCount(rule, base, n - 1, parent, agent);
      TargetCount(rule, base, rule.targets[n - 1], parent, agent);
      StartSum(PerField(rule), ChosenInAll(base, rule.targets, n - 1), Chosen(base, rule.targets[n - 1]));
    }
  }

  /** The number of requests is (fields chosen by all targets) × methods × encodings × arguments. */
  lemma ProductFormula(rule: Rule, base: HttpRequest, parent: int, agent: string)
    ensures |ForTargets(rule, base, |rule.targets|, parent, agent)|
         == ChosenInAll(base, rule.targets, |rule.targets|) * (|rule.methods| * (|rule.encodings| * |rule.payloads|))
  {
    TargetsCount(rule, base, |rule.targets|, parent, agent);
    StartIs(|rule.payloads|, |rule.encodings|);
    StartIs(|rule.encodings| * |rule.payloads|, |rule.methods|);
    StartIs(PerField(rule), ChosenInAll(base, rule.targets, |rule.targets|));
  }

  // ---------------------------------------------------------------- what a generated request differs in

  /** The fields of a mutant before the headers are prepared. */
  function MutantFields(target: Target, fields: seq<Field>, i: nat, payload: string): (r: seq<Field>)
    requires i < |fields|
    ensures |r| == |fields|
  {
    Swept(target, fields, i)[i := Injected(fields[i], payload)]
  }

  /** Exactly one field carries the payload and the mark; every other keeps its name and value,
      and is untouched unless it was injected into before while unset or already marked. */
  lemma OneFieldDiffers(target: Target, fields: seq<Field>, i: nat, payload: string, j: nat)
    requires i < |fields| && j < |fields|
    ensures var f := MutantFields(target, fields, i, payload)[j];
      && f.name == fields[j].name
      && f.Value() == (if j == i then payload else fields[j].Value())
      && (j == i ==> f.modified)
      && (j != i ==> (f.modified <==> fields[j].modified && !(j < i && Eligible(target, fields[j]))))
      && (j != i ==> (f == fields[j] <==>
           !(j < i && Eligible(target, fields[j])) || (fields[j].value.Some? && !fields[j].modified)))
  {
  }

  /** On an unmarked request the mutant shows the base values with one replaced, and one mark. */
  lemma MutantShows(target: Target, fields: seq<Field>, i: nat, payload: string)
    requires i < |fields| && forall f | f in fields :: !f.modified
    ensures Values(MutantFields(target, fields, i, payload)) == Values(fields)[i := payload]
    ensures forall j | 0 <= j < |fields| :: MutantFields(target, fields, i, payload)[j].modified <==> j == i
  {
    forall j | 0 <= j < |fields|
      ensures MutantFields(target, fields, i, payload)[j].Value() == Values(fields)[i := payload][j]
      ensures MutantFields(target, fields, i, payload)[j].modified <==> j == i
    {
      OneFieldDiffers(target, fields, i, payload, j);
    }
  }

  // ---------------------------------------------------------------- every request of a rule

  lemma {:induction false} InTargets(rule: Rule, base: HttpRequest, n: nat, parent: int, agent: string, k: nat, q: nat, x: Generated)
    requires k < n <= |rule.targets| && StandsAt(ForTarget(rule, base, rule.targets[k], parent, agent), q, x)
    ensures StandsAt(ForTargets(rule, base, n, parent, agent), Start(PerField(rule), ChosenInAll(base, rule.targets, k)) + q, x)
  {
    var front, last := ForTargets(rule, base, n - 1, parent, agent), ForTarget(rule, base, rule.targets[n - 1], parent, agent);
    var at := Start(PerField(rule), ChosenInAll(base, rule.targets, k)) + q;
    if k < n - 1 {
      InTargets(rule, base, n - 1, parent, agent, k, q, x);
      InFront(front, last, at, x);
    } else {
      TargetsCount(rule, base, n - 1, parent, agent);
      Behind(front, last, q, x);
    }
  }

  /** The base fields with field t injected and marked, and nothing else that can be read changed but marks. */
  ghost predicate OnlyInjected(fields: seq<Field>, now: seq<Field>, t: nat, text: string) {
    && t < |now| == |fields|
    && (forall j | 0 <= j < |now| :: now[j].name == fields[j].name && now[j].Value() == if j == t then text else fields[j].Value())
    && now[t].modified && (forall j | 0 <= j < |now| && j != t :: now[j].modified ==> fields[j].modified)
  }

  lemma MutantOnlyInjects(target: Target, fields: seq<Field>, t: nat, text: string)
    requires t < |fields|
    ensures OnlyInjected(fields, MutantFields(target, fields, t, text), t, text)
  {
    forall j | 0 <= j < |fields|
      ensures MutantFields(target, fields, t, text)[j].Value() == if j == t then text else fields[j].Value()
    {
      OneFieldDiffers(target, fields, t, text, j);
    }
  }

  /** Where the requests for field t begin in the output of a target. */
  function FieldStart(rule: Rule, target: Target, fields: seq<Field>, t: nat): nat
    requires t <= |fields|
  {
    Start(PerField(rule), if target.lastOnly then 0 else EligibleAmong(target, fields, t))
  }

  /** The target injects into field t. */
  predicate Injects(target: Target, fields: seq<Field>, t: nat) {
    t < |fields| && if target.lastOnly then t == |fields| - 1 else Eligible(target, fields[t])
  }

  /** A request as it is made of the base request with other fields. */
  function WithOther(base: HttpRequest, kind: TargetKind, now: seq<Field>, parent: int, agent: string): Generated {
    Generated(Prepared(WithFields(base, kind, now), agent), parent)
  }

  /** The request holds `now` in the list that was `fields`, the one its kind names, and the other lists and all the
      rest of the base request; behind the headers comes the user agent, unless there is one already. */
  ghost predicate Carries(base: HttpRequest, kind: TargetKind, fields: seq<Field>, now: seq<Field>, agent: string, sent: HttpRequest) {
    var header := if kind == Headers then now else base.header;
    && fields == (match kind
                  case Headers => base.header
                  case UrlParams => base.param
                  case BodyParams => base.bodyParam
                  case PathElements => base.path
                  case UnknownTarget => [])
    && sent == base.(header := sent.header,
                     param := if kind == UrlParams then now else base.param,
                     bodyParam := if kind == BodyParams then now else base.bodyParam,
                     path := if kind == PathElements then now else base.path)
    && sent.header == if exists f | f in header :: f.Name() == "User-Agent" then header
                      else header + [Field(Some("User-Agent"), Some(agent), false)]
  }

  lemma OtherCarries(base: HttpRequest, kind: TargetKind, now: seq<Field>, parent: int, agent: string)
    ensures Carries(base, kind, FieldsOf(base, kind), now, agent, WithOther(base, kind, now, parent, agent).proto)
  {
    var header := if kind == Headers then now else base.header;
    if f :| f in header && f.Name() == "User-Agent" {
      var i :| 0 <= i < |header| && header[i] == f;
      assert i in Named(header, "User-Agent");
    }
  }

  lemma InTargetAt(rule: Rule, base: HttpRequest, target: Target, parent: int, agent: string, fields: seq<Field>, t: nat, r: nat, p: Payload)
    returns (now: seq<Field>)
    requires PerField(rule) > 0 && fields == FieldsOf(base, target.kind) && Injects(target, fields, t)
    requires StandsAt(AllPayloads(rule, fields[t]), r, p)
    ensures OnlyInjected(fields, now, t, p.Text())
    ensures StandsAt(ForTarget(rule, base, target, parent, agent), FieldStart(rule, target, fields, t) + r,
                     WithOther(base, target.kind, now, parent, agent))
  {
    if target.lastOnly {
      now := fields[t := Injected(fields[t], p.Text())];
      LastFieldAt(rule, base, target, parent, agent, r, p);
    } else {
      now := MutantFields(target, fields, t, p.Text());
      MutantOnlyInjects(target, fields, t, p.Text());
      TargetAt(rule, base, target, parent, agent, fields, t, r, p);
    }
  }

  lemma SomeArguments(rule: Rule, m: nat, e: nat, p: nat)
    requires m < |rule.methods| && e < |rule.encodings| && p < |rule.payloads|
    ensures PerField(rule) > 0
  {
    PayloadAt(rule, Field(None, None, false), m, e, p);
    PerFieldIs(rule, Field(None, None, false));
  }

  /** The request for target k, its field t, method m, encoding e and argument p: where it stands, and that it
      has that payload in that field and base values in all others. */
  lemma RequestAt(rule: Rule, base: HttpRequest, parent: int, agent: string, k: nat, fields: seq<Field>, t: nat, m: nat, e: nat, p: nat)
    returns (now: seq<Field>, sent: HttpRequest)
    requires m < |rule.methods| && e < |rule.encodings| && p < |rule.payloads|
    requires k < |rule.targets| && fields == FieldsOf(base, rule.targets[k].kind) && Injects(rule.targets[k], fields, t)
    ensures OnlyInjected(fields, now, t, Payload(fields[t].Value(), rule.payloads[p], rule.methods[m], rule.encodings[e]).Text())
    ensures StandsAt(ForTargets(rule, base, |rule.targets|, parent, agent),
                     Start(PerField(rule), ChosenInAll(base, rule.targets, k))
                     + (FieldStart(rule, rule.targets[k], fields, t) + PayloadPlace(rule, m, e, p)),
                     Generated(sent, parent))
    ensures Carries(base, rule.targets[k].kind, fields, now, agent, sent)
  {
    hide Carries, OnlyInjected, Prepared, WithFields, ForTargets, AllPayloads, StandsAt, Start, FieldStart, ChosenInAll, PerField;
    var payload := Payload(fields[t].Value(), rule.payloads[p], rule.methods[m], rule.encodings[e]);
    var r := PayloadPlace(rule, m, e, p);
    SomeArguments(rule, m, e, p);
    PayloadAt(rule, fields[t], m, e, p);
    now := InTargetAt(rule, base, rule.targets[k], parent, agent, fields, t, r, payload);
    sent := WithOther(base, rule.targets[k].kind, now, parent, agent).proto;
    OtherCarries(base, rule.targets[k].kind, now, parent, agent);
    InTargets(rule, base, |rule.targets|, parent, agent, k, FieldStart(rule, rule.targets[k], fields, t) + r,
              WithOther(base, rule.targets[k].kind, now, parent, agent));
  }
}
