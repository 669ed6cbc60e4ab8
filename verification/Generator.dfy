/**
 The request generator (audit/generic_generator.cc): for every target of a rule
 it injects payloads into the fields of one copy of the base request, in place,
 takes a snapshot for every payload, and puts the field back.
 */
module Generators {
  import opened Requests
  import opened Sequences
  import Escaping

  datatype TargetKind = UnknownTarget | Headers | UrlParams | BodyParams | PathElements
  datatype InjectionMethod = InvalidMethod | SetValue | AppendToValue | PrefixValue
  datatype Encoding = Auto | Raw | Url | Html

  datatype Target = Target(kind: TargetKind, names: seq<string>, lastOnly: bool)
  datatype Rule = Rule(methods: seq<InjectionMethod>, encodings: seq<Encoding>, targets: seq<Target>, payloads: seq<string>)

  // ---------------------------------------------------------------- payload strings (audit/util/audit_util.cc)

  function HexDigit(n: nat): char
    requires n < 16
  {
    "0123456789abcdef"[n]
  }

  function Hex(n: nat): string {
    if n < 16 then [HexDigit(n)] else Hex(n / 16) + [HexDigit(n % 16)]
  }

  predicate AlphaNumeric(c: char) {
    'a' <= c <= 'z' || 'A' <= c <= 'Z' || '0' <= c <= '9'
  }

  /** A byte above 127 is a negative char, widened to 32 bits before it is printed. */
  function UrlCode(c: char): string {
    if AlphaNumeric(c) || c in "&=;,!$?%" then [c]
    else "%" + Hex(if c as int < 128 then c as int else 0xFFFF_FF00 + c as int)
  }

  function UrlToken(s: string): string {
    if s == [] then [] else UrlCode(s[0]) + UrlToken(s[1..])
  }

  /** One injection: the text to put into a field that held `original`. */
  datatype Payload = Payload(original: string, argument: string, how: InjectionMethod, encoding: Encoding) {
    function Text(): string {
      var text := match how
        case AppendToValue => original + argument
        case PrefixValue => argument + original
        case _ => argument;
      match encoding
      case Url => UrlToken(text)
      case Html => Escaping.Encode(Escaping.NAMED, text)
      case _ => text
    }
  }

  // ---------------------------------------------------------------- what a payload reads as

  predicate IsHex(c: char) {
    '0' <= c <= '9' || 'a' <= c <= 'f'
  }

  function HexValue(c: char): nat
    requires IsHex(c)
  {
    if c <= '9' then c as int - '0' as int else c as int - 'a' as int + 10
  }

  /** Percent-decoding: a percent sign and two hexadecimal digits are one character (section 2.1 of RFC 3986). */
  function UrlDecoded(s: string): string {
    if s == "" then ""
    else if |s| >= 3 && s[0] == '%' && IsHex(s[1]) && IsHex(s[2]) then
      [(16 * HexValue(s[1]) + HexValue(s[2])) as char] + UrlDecoded(s[3..])
    else [s[0]] + UrlDecoded(s[1..])
  }

  lemma HexDigits(n: nat)
    requires 16 <= n < 256
    ensures Hex(n) == [HexDigit(n / 16), HexDigit(n % 16)]
  {
    assert Hex(n / 16) == [HexDigit(n / 16)];
  }

  lemma HexDigitReads(n: nat)
    requires n < 16
    ensures IsHex(HexDigit(n)) && HexValue(HexDigit(n)) == n
  {
  }

  lemma {:induction false} HexLong(n: nat)
    requires n >= 256
    ensures |Hex(n)| >= 3
  {
    if n / 16 >= 256 {
      HexLong(n / 16);
    } else {
      HexDigits(n / 16);
    }
  }

  /** A code that reads as its character does so in front of any text. */
  lemma CodeInFront(c: char, tail: string)
    requires 16 <= c as int < 128 && c != '%'
    ensures UrlDecoded(UrlCode(c) + tail) == [c] + UrlDecoded(tail)
  {
    var s := UrlCode(c) + tail;
    if UrlCode(c) == [c] {
      assert s[1..] == tail;
    } else {
      HexDigits(c as int);
      HexDigitReads(c as int / 16);
      HexDigitReads(c as int % 16);
      assert s[0] == '%' && s[1] == HexDigit(c as int / 16) && s[2] == HexDigit(c as int % 16) && s[3..] == tail;
    }
  }

  /** The code of a character reads as that character exactly if it has two hexadecimal digits and is no negative
      char: smaller ones are printed with one digit, and bytes above 127 with eight. */
  lemma UrlCodeReads(c: char)
    ensures UrlDecoded(UrlCode(c)) == [c] <==> 16 <= c as int < 128
  {
    var s := UrlCode(c);
    if s == [c] {
      assert s[1..] == "";
    } else if c as int < 16 {
      assert s == ['%', HexDigit(c as int)];
    } else if c as int < 128 {
      CodeInFront(c, "");
      assert s + "" == s;
    } else {
      HexLong(0xFFFF_FF00 + c as int);
      assert |s| >= 4;
      assert UrlDecoded(s[3..]) != "" && UrlDecoded(s[1..]) != "";
    }
  }

  lemma {:induction false} UrlTokenReads(s: string)
    requires forall c | c in s :: 16 <= c as int < 128 && c != '%'
    ensures UrlDecoded(UrlToken(s)) == s
  {
    if s != "" {
      assert s[0] in s && forall c | c in s[1..] :: c in s;
      UrlTokenReads(s[1..]);
      CodeInFront(s[0], UrlToken(s[1..]));
      assert s == [s[0]] + s[1..];
    }
  }

  /** The text of a payload: the argument, behind or in front of the original value if the method says so; HTML codes
      read back as that text exactly if it holds no named entity, and URL codes do without percent signs, bytes above
      127 and control characters below 16. */
  lemma PayloadReads(original: string, argument: string, how: InjectionMethod, encoding: Encoding)
    ensures var text := Payload(original, argument, how, encoding).Text();
      var plain := if how == AppendToValue then original + argument else if how == PrefixValue then argument + original else argument;
      && (encoding != Url && encoding != Html ==> text == plain)
      && (encoding == Html ==> (Escaping.Unescaped(text) == plain <==> Escaping.FreeOfNamed(plain)))
      && (encoding == Url && (forall c | c in plain :: 16 <= c as int < 128 && c != '%') ==> UrlDecoded(text) == plain)
  {
    var plain := Payload(original, argument, how, Raw).Text();
    Escaping.RoundTrip(plain);
    if forall c | c in plain :: 16 <= c as int < 128 && c != '%' {
      UrlTokenReads(plain);
    }
  }

  // ---------------------------------------------------------------- the order of payloads

  /** The payloads of the first n methods for a field value: by method, then by encoding, then by argument. */
  function ByMethod(rule: Rule, original: string, n: nat): seq<Payload>
    requires n <= |rule.methods|
  {
    if n == 0 then [] else ByMethod(rule, original, n - 1) + ByEncoding(rule, original, rule.methods[n - 1], |rule.encodings|)
  }

  function ByEncoding(rule: Rule, original: string, m: InjectionMethod, n: nat): seq<Payload>
    requires n <= |rule.encodings|
  {
    if n == 0 then [] else ByEncoding(rule, original, m, n - 1) + ByArgument(rule, original, m, rule.encodings[n - 1], |rule.payloads|)
  }

  function ByArgument(rule: Rule, original: string, m: InjectionMethod, e: Encoding, n: nat): seq<Payload>
    requires n <= |rule.payloads|
  {
    if n == 0 then [] else ByArgument(rule, original, m, e, n - 1) + [Payload(original, rule.payloads[n - 1], m, e)]
  }

  // ---------------------------------------------------------------- what is generated

  datatype Generated = Generated(proto: HttpRequest, parent: int)

  function FieldsOf(p: HttpRequest, kind: TargetKind): seq<Field> {
    match kind
    case Headers => p.header
    case UrlParams => p.param
    case BodyParams => p.bodyParam
    case PathElements => p.path
    case UnknownTarget => []
  }

  function WithFields(p: HttpRequest, kind: TargetKind, fields: seq<Field>): HttpRequest {
    match kind
    case Headers => p.(header := fields)
    case UrlParams => p.(param := fields)
    case BodyParams => p.(bodyParam := fields)
    case PathElements => p.(path := fields)
    case UnknownTarget => p
  }

  /** The Request constructor sets the User-Agent header, unless there is one. */
  function Prepared(p: HttpRequest, agent: string): HttpRequest {
    p.(header := Updated(p.header, "User-Agent", agent, false))
  }

  /** ShouldInjectInField: no names listed, or the name is one of them. */
  predicate Wanted(target: Target, name: string) {
    target.names == [] || exists i | 0 <= i < |target.names| :: SameIgnoringCase(target.names[i], name)
  }

  predicate Eligible(target: Target, f: Field) {
    f.name.Some? && Wanted(target, f.name.value)
  }

  /** A field once it was injected into and restored: the value is set now, and not modified. */
  function Restored(f: Field): Field {
    f.(value := Some(f.Value()), modified := false)
  }

  function Injected(f: Field, payload: string): Field {
    f.(value := Some(payload), modified := true)
  }

  /** The requests for one field: all else in them is as the fields are now. */
  function ForField(base: HttpRequest, kind: TargetKind, fields: seq<Field>, i: nat, ps: seq<Payload>,
                    parent: int, agent: string): (gs: seq<Generated>)
    requires i < |fields|
    ensures |gs| == |ps|
  {
    if ps == [] then [] else
      [Generated(Prepared(WithFields(base, kind, fields[i := Injected(fields[i], ps[0].Text())]), agent), parent)]
      + ForField(base, kind, fields, i, ps[1..], parent, agent)
  }

  function AllPayloads(rule: Rule, f: Field): seq<Payload> {
    ByMethod(rule, f.Value(), |rule.methods|)
  }

  /** The field after its turn; it is untouched only if there is nothing to inject. */
  function AfterTurn(rule: Rule, f: Field): Field {
    if AllPayloads(rule, f) == [] then f else Restored(f)
  }

  /** The requests for the eligible fields from position i on. */
  function ForFields(rule: Rule, base: HttpRequest, target: Target, fields: seq<Field>, i: nat,
                     parent: int, agent: string): seq<Generated>
    requires i <= |fields|
    decreases |fields| - i
  {
    if i == |fields| then []
    else if !Eligible(target, fields[i]) then ForFields(rule, base, target, fields, i + 1, parent, agent)
    else
      ForField(base, target.kind, fields, i, AllPayloads(rule, fields[i]), parent, agent)
      + ForFields(rule, base, target, fields[i := AfterTurn(rule, fields[i])], i + 1, parent, agent)
  }

  function ForTarget(rule: Rule, base: HttpRequest, target: Target, parent: int, agent: string): seq<Generated> {
    var fields := FieldsOf(base, target.kind);
    if fields == [] then []
    else if target.lastOnly then
      var last := |fields| - 1;
      ForField(base, target.kind, fields, last, AllPayloads(rule, fields[last]), parent, agent)
    else ForFields(rule, base, target, fields, 0, parent, agent)
  }

  /** The requests for the first n targets. */
  function ForTargets(rule: Rule, base: HttpRequest, n: nat, parent: int, agent: string): seq<Generated>
    requires n <= |rule.targets|
  {
    if n == 0 then [] else
      ForTargets(rule, base, n - 1, parent, agent) + ForTarget(rule, base, rule.targets[n - 1], parent, agent)
  }

  lemma {:induction false} ForFieldConcat(base: HttpRequest, kind: TargetKind, fields: seq<Field>, i: nat,
                                          a: seq<Payload>, b: seq<Payload>, parent: int, agent: string)
    requires i < |fields|
    ensures ForField(base, kind, fields, i, a + b, parent, agent)
         == ForField(base, kind, fields, i, a, parent, agent) + ForField(base, kind, fields, i, b, parent, agent)
  {
    if a == [] {
      assert a + b == b;
    } else {
      assert (a + b)[1..] == a[1..] + b;
      ForFieldConcat(base, kind, fields, i, a[1..], b, parent, agent);
    }
  }

  // ---------------------------------------------------------------- the generator

  /** A copy of a request whose fields are changed in place. */
  class ProtoCopy {
    const base: HttpRequest
    const header: array<Field>
    const param: array<Field>
    const bodyParam: array<Field>
    const path: array<Field>

    constructor (base: HttpRequest)
      ensures this.base == base && Separate() && Proto() == base
      ensures fresh(header) && fresh(param) && fresh(bodyParam) && fresh(path)
    {
      this.base := base;
      header := new Field[|base.header|](i requires 0 <= i < |base.header| => base.header[i]);
      param := new Field[|base.param|](i requires 0 <= i < |base.param| => base.param[i]);
      bodyParam := new Field[|base.bodyParam|](i requires 0 <= i < |base.bodyParam| => base.bodyParam[i]);
      path := new Field[|base.path|](i requires 0 <= i < |base.path| => base.path[i]);
    }

    ghost predicate Separate() {
      header != param && header != bodyParam && header != path && param != bodyParam && param != path && bodyParam != path
    }

    /** What a copy of the proto would hold now. */
    function Proto(): HttpRequest
      reads header, param, bodyParam, path
    {
      base.(header := header[..], param := param[..], bodyParam := bodyParam[..], path := path[..])
    }

    /** `fields` is the list of the given kind in this proto. */
    ghost predicate Holds(kind: TargetKind, fields: array<Field>) {
      match kind
      case Headers => fields == header
      case UrlParams => fields == param
      case BodyParams => fields == bodyParam
      case PathElements => fields == path
      case UnknownTarget => false
    }

    method GetMutableFieldsForType(kind: TargetKind) returns (fields: array?<Field>)
      ensures fields != null ==> Holds(kind, fields) && fields.Length > 0
      ensures fields == null <==> FieldsOf(Proto(), kind) == []
    {
      fields := match kind
        case UrlParams => param
        case BodyParams => bodyParam
        case Headers => header
        case PathElements => path
        case UnknownTarget => null;
      if fields != null && fields.Length == 0 {
        fields := null;
      }
    }
  }

  class GenericGenerator {
    const rule: Rule
    const agent: string

    constructor (rule: Rule, agent: string)
      ensures this.rule == rule && this.agent == agent
    {
      this.rule, this.agent := rule, agent;
    }

    /** The alias: `fields` belongs to `proto`, which else holds `base`, and agrees with f0 except
        that the value and mark of field i may have been reset. */
    ghost predicate InPlace(proto: ProtoCopy, kind: TargetKind, fields: array<Field>, base: HttpRequest, f0: seq<Field>, i: nat)
      reads proto.header, proto.param, proto.bodyParam, proto.path, fields
    {
      && proto.Separate() && proto.Holds(kind, fields) && i < |f0| == fields.Length
      && proto.Proto() == WithFields(base, kind, fields[..])
      && fields[..] == f0[i := fields[i]] && (fields[i] == f0[i] || fields[i] == Restored(f0[i]))
    }

    /** One payload: inject, snapshot, restore. */
    method InjectOne(parent: int, proto: ProtoCopy, kind: TargetKind, fields: array<Field>, i: nat, original: string,
                     payload: Payload, requests: seq<Generated>, ghost base: HttpRequest, ghost f0: seq<Field>)
      returns (result: seq<Generated>)
      requires InPlace(proto, kind, fields, base, f0, i) && original == f0[i].Value()
      modifies fields
      ensures InPlace(proto, kind, fields, base, f0, i) && fields[i] == Restored(f0[i])
      ensures result == requests + ForField(base, kind, f0, i, [payload], parent, agent)
    {
      fields[i] := fields[i].(value := Some(payload.Text()));
      fields[i] := fields[i].(modified := true);
      assert fields[..] == f0[i := Injected(f0[i], payload.Text())];
      assert proto.Proto() == WithFields(base, kind, fields[..]);
      var request := Generated(Prepared(proto.Proto(), agent), parent);
      result := requests + [request];
      fields[i] := fields[i].(value := Some(original));
      fields[i] := fields[i].(modified := false);
      assert fields[..] == f0[i := Restored(f0[i])];
    }

    /** What the injection loops keep, with `done` the payloads used so far. */
    ghost predicate Progress(proto: ProtoCopy, kind: TargetKind, fields: array<Field>, base: HttpRequest, f0: seq<Field>, i: nat,
                             parent: int, before: seq<Generated>, result: seq<Generated>, done: seq<Payload>)
      reads proto.header, proto.param, proto.bodyParam, proto.path, fields
    {
      && InPlace(proto, kind, fields, base, f0, i)
      && fields[i] == (if done == [] then f0[i] else Restored(f0[i]))
      && result == before + ForField(base, kind, f0, i, done, parent, agent)
    }

    method InjectPayloads(parent: int, proto: ProtoCopy, kind: TargetKind, fields: array<Field>, i: nat, original: string,
                          m: InjectionMethod, e: Encoding, requests: seq<Generated>, ghost before: seq<Generated>,
                          ghost base: HttpRequest, ghost f0: seq<Field>, ghost done: seq<Payload>)
      returns (result: seq<Generated>, count: nat)
      requires i < |f0| && original == f0[i].Value()
      requires Progress(proto, kind, fields, base, f0, i, parent, before, requests, done)
      modifies fields
      ensures Progress(proto, kind, fields, base, f0, i, parent, before, result, done + ByArgument(rule, original, m, e, |rule.payloads|))
      ensures count == |ByArgument(rule, original, m, e, |rule.payloads|)|
    {
      result, count := requests, 0;
      ghost var used := done;
      for p := 0 to |rule.payloads|
        invariant used == done + ByArgument(rule, original, m, e, p)
        invariant Progress(proto, kind, fields, base, f0, i, parent, before, result, used)
        invariant count == |ByArgument(rule, original, m, e, p)|
      {
        var payload := Payload(original, rule.payloads[p], m, e);
        Associate(done, ByArgument(rule, original, m, e, p), [payload]);
        result := InjectNext(parent, proto, kind, fields, i, original, payload, result, before, base, f0, used);
        used := used + [payload];
        count := count + 1;
      }
    }

    method InjectNext(parent: int, proto: ProtoCopy, kind: TargetKind, fields: array<Field>, i: nat, original: string,
                      payload: Payload, requests: seq<Generated>, ghost before: seq<Generated>,
                      ghost base: HttpRequest, ghost f0: seq<Field>, ghost done: seq<Payload>)
      returns (result: seq<Generated>)
      requires i < |f0| && original == f0[i].Value()
      requires Progress(proto, kind, fields, base, f0, i, parent, before, requests, done)
      modifies fields
      ensures Progress(proto, kind, fields, base, f0, i, parent, before, result, done + [payload])
    {
      ForFieldConcat(base, kind, f0, i, done, [payload], parent, agent);
      result := InjectOne(parent, proto, kind, fields, i, original, payload, requests, base, f0);
    }

    method InjectEncodings(parent: int, proto: ProtoCopy, kind: TargetKind, fields: array<Field>, i: nat, original: string,
                           m: InjectionMethod, requests: seq<Generated>, ghost before: seq<Generated>,
                           ghost base: HttpRequest, ghost f0: seq<Field>, ghost done: seq<Payload>)
      returns (result: seq<Generated>, count: nat)
      requires i < |f0| && original == f0[i].Value()
      requires Progress(proto, kind, fields, base, f0, i, parent, before, requests, done)
      modifies fields
      ensures Progress(proto, kind, fields, base, f0, i, parent, before, result, done + ByEncoding(rule, original, m, |rule.encodings|))
      ensures count == |ByEncoding(rule, original, m, |rule.encodings|)|
    {
      result, count := requests, 0;
      ghost var used := done;
      for e := 0 to |rule.encodings|
        invariant used == done + ByEncoding(rule, original, m, e)
        invariant Progress(proto, kind, fields, base, f0, i, parent, before, result, used)
        invariant count == |ByEncoding(rule, original, m, e)|
      {
        ghost var new_ := ByArgument(rule, original, m, rule.encodings[e], |rule.payloads|);
        Associate(done, ByEncoding(rule, original, m, e), new_);
        var more: nat;
        result, more := InjectPayloads(parent, proto, kind, fields, i, original, m, rule.encodings[e], result, before, base, f0, used);
        used := used + new_;
        count := count + more;
      }
    }

    method AppendSingleMutatedFieldRequest(parent: int, proto: ProtoCopy, kind: TargetKind, fields: array<Field>, i: nat,
                                           requests: seq<Generated>, ghost base: HttpRequest, ghost f0: seq<Field>)
      returns (result: seq<Generated>, count: nat)
      requires InPlace(proto, kind, fields, base, f0, i) && fields[..] == f0
      modifies fields
      ensures InPlace(proto, kind, fields, base, f0, i) && fields[i] == AfterTurn(rule, f0[i])
      ensures result == requests + ForField(base, kind, f0, i, AllPayloads(rule, f0[i]), parent, agent)
      ensures count == |AllPayloads(rule, f0[i])|
    {
      var original := fields[i].Value();
      result, count := requests, 0;
      for m := 0 to |rule.methods|
        invariant Progress(proto, kind, fields, base, f0, i, parent, requests, result, ByMethod(rule, original, m))
        invariant count == |ByMethod(rule, original, m)|
      {
        ghost var used := ByMethod(rule, original, m);
        var more: nat;
        result, more := InjectEncodings(parent, proto, kind, fields, i, original, rule.methods[m], result, requests, base, f0, used);
        count := count + more;
      }
    }

    method AppendMutatedFieldRequests(parent: int, proto: ProtoCopy, fields: array<Field>, target: Target,
                                      requests: seq<Generated>, ghost base: HttpRequest)
      returns (result: seq<Generated>, count: nat)
      requires proto.Separate() && proto.Holds(target.kind, fields) && fields.Length > 0
      requires proto.Proto() == base
      modifies fields
      ensures result == requests + ForTarget(rule, base, target, parent, agent)
      ensures count == |ForTarget(rule, base, target, parent, agent)|
    {
      ghost var kind, f0 := target.kind, fields[..];
      assert FieldsOf(base, kind) == f0 && WithFields(base, kind, f0) == base;
      if target.lastOnly && fields.Length > 0 {
        result, count := AppendSingleMutatedFieldRequest(parent, proto, target.kind, fields, fields.Length - 1, requests, base, f0);
        return;
      }
      result, count := requests, 0;
      for i := 0 to fields.Length
        invariant proto.Proto() == WithFields(base, kind, fields[..])
        invariant result + ForFields(rule, base, target, fields[..], i, parent, agent)
               == requests + ForTarget(rule, base, target, parent, agent)
        invariant count == |result| - |requests|
      {
        var more: nat;
        result, more := AppendForField(parent, proto, fields, i, target, result, base);
        count := count + more;
      }
    }

    /** The turn of field i, which may be skipped: what was to come is what was added and what is still to come. */
    method AppendForField(parent: int, proto: ProtoCopy, fields: array<Field>, i: nat, target: Target,
                          requests: seq<Generated>, ghost base: HttpRequest)
      returns (result: seq<Generated>, count: nat)
      requires proto.Separate() && proto.Holds(target.kind, fields) && i < fields.Length
      requires proto.Proto() == WithFields(base, target.kind, fields[..])
      modifies fields
      ensures proto.Proto() == WithFields(base, target.kind, fields[..])
      ensures result + ForFields(rule, base, target, fields[..], i + 1, parent, agent)
           == requests + ForFields(rule, base, target, old(fields[..]), i, parent, agent)
      ensures |result| == |requests| + count
    {
      result, count := requests, 0;
      if fields[i].name.Some? {
        var wanted := ShouldInjectInField(target, fields[i].name.value);
        if wanted {
          ghost var now := fields[..];
          result, count := AppendSingleMutatedFieldRequest(parent, proto, target.kind, fields, i, requests, base, now);
          assert fields[..] == now[i := AfterTurn(rule, now[i])];
        }
      }
    }

    static method ShouldInjectInField(target: Target, name: string) returns (wanted: bool)
      ensures wanted == Wanted(target, name)
    {
      if target.names == [] {
        return true;
      }
      for i := 0 to |target.names|
        invariant forall j | 0 <= j < i :: !SameIgnoringCase(target.names[j], name)
      {
        if SameIgnoringCase(target.names[i], name) {
          return true;
        }
      }
      return false;
    }

    /** The generated requests are appended in order, and the base request stays as it is. */
    method Generate(base: HttpRequest, parent: int, requests: seq<Generated>)
      returns (result: seq<Generated>, count: nat)
      ensures result == requests + ForTargets(rule, base, |rule.targets|, parent, agent)
      ensures count == |ForTargets(rule, base, |rule.targets|, parent, agent)|
    {
      result, count := requests, 0;
      for t := 0 to |rule.targets|
        invariant result == requests + ForTargets(rule, base, t, parent, agent)
        invariant count == |ForTargets(rule, base, t, parent, agent)|
      {
        ghost var done := ForTargets(rule, base, t, parent, agent);
        var proto := new ProtoCopy(base);
        var fields := proto.GetMutableFieldsForType(rule.targets[t].kind);
        if fields != null {
          var more: nat;
          result, more := AppendMutatedFieldRequests(parent, proto, fields, rule.targets[t], result, base);
          count := count + more;
        }
        Associate(requests, done, ForTarget(rule, base, rule.targets[t], parent, agent));
      }
    }
  }
}
