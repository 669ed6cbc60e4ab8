/** The path and query of a URL as request fields, and the URL built from them (request.cc). */
module UrlFields {
  import opened Requests
  import opened Splitting

  // ---------------------------------------------------------------- paths

  predicate EndsInSlash(path: string) {
    path != "" && path[|path| - 1] == '/'
  }

  /** The segments that are not empty, and an empty last one if there are none or the path ends in a slash. */
  function PathValues(path: string): seq<string> {
    WithLast(NonEmpty(Split(path, {'/'})), EndsInSlash(path))
  }

  function WithLast(values: seq<string>, ends: bool): seq<string> {
    if values == [] || ends then values + [""] else values
  }

  function PathField(value: string): Field {
    Field(Some("/"), Some(value), false)
  }

  function PathElements(values: seq<string>): (fields: seq<Field>)
    ensures |fields| == |values|
    ensures forall i | 0 <= i < |values| :: fields[i] == PathField(values[i])
  {
    if values == [] then [] else PathElements(values[..|values| - 1]) + [PathField(values[|values| - 1])]
  }

  lemma PathElementsSnoc(values: seq<string>, last: string)
    ensures PathElements(values + [last]) == PathElements(values) + [PathField(last)]
  {
    assert (values + [last])[..|values|] == values;
  }

  function PathFields(path: string): seq<Field> {
    PathElements(PathValues(path))
  }

  function PathText(fields: seq<Field>): string {
    if fields == [] then "" else PathText(fields[..|fields| - 1]) + fields[|fields| - 1].Name() + fields[|fields| - 1].Value()
  }

  function Slashed(values: seq<string>): string {
    if values == [] then "" else "/" + values[0] + Slashed(values[1..])
  }

  lemma {:induction false} SlashedConcat(a: seq<string>, b: seq<string>)
    ensures Slashed(a + b) == Slashed(a) + Slashed(b)
  {
    if a == [] {
      assert a + b == b;
    } else {
      assert (a + b)[1..] == a[1..] + b;
      SlashedConcat(a[1..], b);
    }
  }

  lemma {:induction false} ElementsText(values: seq<string>)
    ensures PathText(PathElements(values)) == Slashed(values)
  {
    if values != [] {
      var front, last := values[..|values| - 1], values[|values| - 1];
      ElementsText(front);
      assert PathElements(values)[..|values| - 1] == PathElements(front);
      assert values == front + [last];
      SlashedConcat(front, [last]);
      assert Slashed([last]) == "/" + last + Slashed([]);
    }
  }

  /** The text with every run of slashes made one. */
  function Squeeze(s: string): string {
    if |s| <= 1 then s
    else if s[0] == '/' && s[1] == '/' then Squeeze(s[1..])
    else [s[0]] + Squeeze(s[1..])
  }

  function Trail(path: string): string {
    if EndsInSlash(path) then "/" else ""
  }

  /** The first piece as it is, then the others that are not empty. */
  function Rejoined(path: string): string {
    var pieces := Split(path, {'/'});
    pieces[0] + Slashed(NonEmpty(pieces[1..])) + Trail(path)
  }

  lemma SplitSlash(q: string)
    ensures Split("/" + q, {'/'}) == [""] + Split(q, {'/'}) && ("/" + q)[1..] == q
    ensures Split("/" + q, {'/'})[1..] == Split(q, {'/'})
    ensures q != "" ==> Trail("/" + q) == Trail(q)
  {
    assert ("/" + q)[1..] == q;
  }

  lemma NonEmptyFirst(first: string, others: seq<string>)
    ensures NonEmpty([first] + others) == if first == "" then NonEmpty(others) else [first] + NonEmpty(others)
  {
    assert ([first] + others)[1..] == others;
  }

  lemma SlashedFirst(first: string, others: seq<string>)
    ensures Slashed([first] + others) == "/" + first + Slashed(others)
  {
    assert ([first] + others)[1..] == others;
  }

  lemma Regroup(first: string, others: string, trail: string)
    ensures "" + ("/" + first + others) + trail == "/" + (first + others + trail)
  {
  }

  /** The first piece and what is put behind it, in front of the trail. */
  lemma RejoinedParts(first: string, others: seq<string>, trail: string)
    ensures "" + Slashed(NonEmpty([first] + others)) + trail
         == if first == "" then "" + Slashed(NonEmpty(others)) + trail else "/" + (first + Slashed(NonEmpty(others)) + trail)
  {
    NonEmptyFirst(first, others);
    if first != "" {
      SlashedFirst(first, NonEmpty(others));
      Regroup(first, Slashed(NonEmpty(others)), trail);
    }
  }

  lemma RejoinedSlash(q: string)
    requires q != ""
    ensures Rejoined("/" + q) == if q[0] == '/' then Rejoined(q) else "/" + Rejoined(q)
  {
    var pieces := Split(q, {'/'});
    SplitSlash(q);
    assert pieces == [pieces[0]] + pieces[1..];
    RejoinedParts(pieces[0], pieces[1..], Trail(q));
  }

  lemma RejoinedPlain(c: char, q: string)
    requires c != '/'
    ensures Rejoined([c] + q) == [c] + Rejoined(q)
  {
    var pieces := Split(q, {'/'});
    assert ([c] + q)[1..] == q && Trail([c] + q) == Trail(q);
    assert Split([c] + q, {'/'}) == [[c] + pieces[0]] + pieces[1..];
  }

  lemma {:induction false} RejoinedIsSqueezed(q: string)
    ensures Rejoined(q) == Squeeze(q)
  {
    if q != "" {
      RejoinedIsSqueezed(q[1..]);
      assert q == [q[0]] + q[1..];
      if q[0] != '/' {
        RejoinedPlain(q[0], q[1..]);
      } else if |q| == 1 {
        assert Split(q, {'/'}) == ["", ""];
        assert NonEmpty([""]) == [];
      } else {
        RejoinedSlash(q[1..]);
      }
    }
  }

  /** If every segment is empty, the path is empty or ends in a slash. */
  lemma {:induction false} OnlyEmptySegments(path: string)
    requires NonEmpty(Split(path, {'/'})) == []
    ensures path == "" || EndsInSlash(path)
  {
    if path != "" && path[0] == '/' {
      assert ([""] + Split(path[1..], {'/'}))[1..] == Split(path[1..], {'/'});
      OnlyEmptySegments(path[1..]);
    }
  }

  lemma WithLastSlashed(values: seq<string>, ends: bool)
    ensures Slashed(WithLast(values, ends)) == Slashed(values) + if values == [] || ends then "/" else ""
  {
    if values == [] || ends {
      SlashedConcat(values, [""]);
      assert Slashed([""]) == "/" + "" + Slashed([]);
    } else {
      assert Slashed(values) + "" == Slashed(values);
    }
  }

  lemma PathValuesSlashed(path: string)
    ensures Slashed(PathValues(path)) == Slashed(NonEmpty(Split(path, {'/'}))) + Trail("/" + path)
  {
    var values := NonEmpty(Split(path, {'/'}));
    WithLastSlashed(values, EndsInSlash(path));
    TrailIs(path, values);
  }

  lemma TrailIs(path: string, values: seq<string>)
    requires values == NonEmpty(Split(path, {'/'}))
    ensures Trail("/" + path) == if values == [] || EndsInSlash(path) then "/" else ""
  {
    if values == [] {
      OnlyEmptySegments(path);
    }
    if path == "" {
      assert NonEmpty([""]) == NonEmpty([]);
    }
  }

  lemma RejoinedWhole(path: string)
    ensures Rejoined("/" + path) == Slashed(NonEmpty(Split(path, {'/'}))) + Trail("/" + path)
  {
    var whole, pieces := "/" + path, Split(path, {'/'});
    SplitFirst("", '/', path, {'/'});
    assert "" + ['/'] + path == whole;
    assert Split(whole, {'/'})[0] == "" && Split(whole, {'/'})[1..] == pieces;
  }

  /** Building from the parsed path puts a slash in front and squeezes the slashes. */
  lemma PathIsSqueezed(path: string)
    ensures PathText(PathFields(path)) == Squeeze("/" + path)
  {
    RejoinedIsSqueezed("/" + path);
    RejoinedWhole(path);
    ElementsText(PathValues(path));
    PathValuesSlashed(path);
  }

  predicate NoDoubleSlash(path: string) {
    forall i | 0 <= i < |path| - 1 :: !(path[i] == '/' && path[i + 1] == '/')
  }

  predicate StartsWithSlash(path: string) {
    path != "" && path[0] == '/'
  }

  /** Squeezing leaves no double slash, shortens a text that has one, and leaves any other alone. */
  lemma {:induction false} SqueezeProperties(s: string)
    ensures NoDoubleSlash(Squeeze(s)) && |Squeeze(s)| <= |s|
    ensures s != "" ==> Squeeze(s) != "" && Squeeze(s)[0] == s[0]
    ensures Squeeze(s) == s <==> NoDoubleSlash(s)
    ensures |Squeeze(s)| == |s| ==> Squeeze(s) == s
  {
    if |s| > 1 {
      SqueezeProperties(s[1..]);
      assert s == [s[0]] + s[1..];
    }
  }

  /** A path stays as it is exactly when it starts with a slash and no two slashes meet. */
  lemma PathIdentity(path: string)
    ensures PathText(PathFields(path)) == path <==> StartsWithSlash(path) && NoDoubleSlash(path)
  {
    PathIsSqueezed(path);
    SqueezeProperties("/" + path);
    SqueezeProperties(path);
    if StartsWithSlash(path) {
      assert ("/" + path)[1..] == path;
    }
  }

  /** A normal path is built again from its own fields. */
  lemma PathIdempotent(path: string)
    ensures var built := PathText(PathFields(path)); PathText(PathFields(built)) == built
  {
    PathIsSqueezed(path);
    SqueezeProperties("/" + path);
    PathIdentity(Squeeze("/" + path));
  }

  /** Values without slashes, of which only the last may be empty. */
  predicate NormalValues(values: seq<string>) {
    values != [] && AllFree(values, {'/'}) && forall i | 0 <= i < |values| - 1 :: values[i] != ""
  }

  lemma ParsedPathIsNormal(path: string)
    ensures NormalValues(PathValues(path))
  {
    PiecesAreFree(path, {'/'});
    NonEmptyAre(Split(path, {'/'}));
    var values := NonEmpty(Split(path, {'/'}));
    assert forall i | 0 <= i < |values| :: values[i] in values;
    assert forall p | p in values + [""] :: p in values || p == "";
  }

  lemma {:induction false} SplitSlashed(values: seq<string>)
    requires AllFree(values, {'/'})
    ensures Split(Slashed(values), {'/'}) == [""] + values
  {
    if values != [] {
      var tail := Slashed(values[1..]);
      SplitSlashed(values[1..]);
      assert Slashed(values) == [] + ['/'] + (values[0] + tail);
      SplitFirst("", '/', values[0] + tail, {'/'});
      SplitPlain(values[0], tail, {'/'});
      assert values[0] + "" == values[0];
    }
  }

  lemma {:induction false} SlashedEnd(values: seq<string>)
    requires NormalValues(values)
    ensures EndsInSlash(Slashed(values)) <==> values[|values| - 1] == ""
  {
    if |values| > 1 {
      SlashedEnd(values[1..]);
      assert Slashed(values[1..]) != "";
      assert values[1..][|values| - 2] == values[|values| - 1];
    } else {
      assert Slashed(values) == "/" + values[0] + Slashed([]);
      assert Slashed(values) == "/" + values[0] && values[0] in values;
      assert values[0] != "" ==> values[0][|values[0]| - 1] in values[0];
    }
  }

  lemma NonEmptySnoc(front: seq<string>, last: string)
    requires forall v | v in front :: v != ""
    ensures NonEmpty(front + [last]) == if last == "" then front else front + [last]
  {
    NonEmptyConcat(front, [last]);
    NonEmptyAre(front);
    assert NonEmpty([last]) == (if last == "" then [] else [last]) + NonEmpty([]);
  }

  lemma NonEmptyNormal(values: seq<string>)
    requires NormalValues(values)
    ensures NonEmpty([""] + values) == if values[|values| - 1] == "" then values[..|values| - 1] else values
  {
    var front, last := values[..|values| - 1], values[|values| - 1];
    NonEmptyFirst("", values);
    assert values == front + [last];
    NonEmptySnoc(front, last);
  }

  /** Parsing a built path gives back the fields it was built from. */
  lemma PathReparse(values: seq<string>)
    requires NormalValues(values)
    ensures PathFields(PathText(PathElements(values))) == PathElements(values)
  {
    ElementsText(values);
    ValuesBack(values);
  }

  lemma ValuesBack(values: seq<string>)
    requires NormalValues(values)
    ensures PathValues(Slashed(values)) == values
  {
    SplitSlashed(values);
    NonEmptyNormal(values);
    SlashedEnd(values);
    LastBack(values);
  }

  lemma LastBack(values: seq<string>)
    requires values != []
    ensures var last := values[|values| - 1];
      WithLast(if last == "" then values[..|values| - 1] else values, last == "") == values
  {
    assert values == values[..|values| - 1] + [values[|values| - 1]];
  }

  // ---------------------------------------------------------------- queries

  /** A component without '=' has no value, and neither has one with several. */
  function ParamField(component: string): Field {
    var pair := Split(component, {'='});
    Field(Some(pair[0]), if |pair| == 2 then Some(pair[1]) else None, false)
  }

  function ParamFields(components: seq<string>): (fields: seq<Field>)
    ensures |fields| == |components|
    ensures forall i | 0 <= i < |components| :: fields[i] == ParamField(components[i])
  {
    if components == [] then [] else
      ParamFields(components[..|components| - 1]) + [ParamField(components[|components| - 1])]
  }

  function QueryFields(query: string): seq<Field> {
    ParamFields(Split(query, {'&'}))
  }

  function ParamText(f: Field): string {
    if f.value.Some? then f.Name() + "=" + f.value.value else f.Name()
  }

  function QueryText(fields: seq<Field>): string {
    if fields == [] then "" else
      QueryText(fields[..|fields| - 1]) + (if |fields| == 1 then "?" else "&") + ParamText(fields[|fields| - 1])
  }

  function ParamTexts(fields: seq<Field>): (texts: seq<string>)
    ensures |texts| == |fields|
    ensures forall i | 0 <= i < |fields| :: texts[i] == ParamText(fields[i])
  {
    seq(|fields|, i requires 0 <= i < |fields| => ParamText(fields[i]))
  }

  lemma {:induction false} JoinSnoc(pieces: seq<string>, last: string, sep: string)
    requires |pieces| >= 1
    ensures Join(pieces + [last], sep) == Join(pieces, sep) + sep + last
  {
    assert (pieces + [last])[1..] == pieces[1..] + [last];
    if |pieces| > 1 {
      JoinSnoc(pieces[1..], last, sep);
    }
  }

  lemma {:induction false} QueryIsJoined(fields: seq<Field>)
    requires fields != []
    ensures QueryText(fields) == "?" + Join(ParamTexts(fields), "&")
  {
    var n := |fields| - 1;
    if n > 0 {
      QueryIsJoined(fields[..n]);
      assert ParamTexts(fields) == ParamTexts(fields[..n]) + [ParamText(fields[n])];
      JoinSnoc(ParamTexts(fields[..n]), ParamText(fields[n]), "&");
    }
  }

  /** How many times a character occurs. */
  function Occurrences(s: string, c: char): nat {
    if s == "" then 0 else (if s[0] == c then 1 else 0) + Occurrences(s[1..], c)
  }

  lemma {:induction false} PiecesCount(s: string, c: char)
    ensures |Split(s, {c})| == Occurrences(s, c) + 1
  {
    if s != "" {
      PiecesCount(s[1..], c);
    }
  }

  /** A component survives exactly if it has at most one '='. */
  lemma ComponentKept(component: string)
    ensures ParamText(ParamField(component)) == component <==> Occurrences(component, '=') <= 1
  {
    PiecesCount(component, '=');
    JoinedSplit(component, '=');
    PiecesAreFree(component, {'='});
    var pieces := Split(component, {'='});
    if |pieces| == 2 {
      assert Join(pieces, "=") == pieces[0] + "=" + Join(pieces[1..], "=");
    } else if |pieces| > 2 {
      SplitWhole(pieces[0], {'='});
    }
  }

  /** A component is its name up to the first '=', and the rest is its value unless it has another '='. */
  lemma ParamIs(name: string, rest: string)
    requires '=' !in name
    ensures ParamField(name) == Field(Some(name), None, false)
    ensures ParamField(name + "=" + rest) == Field(Some(name), if '=' in rest then None else Some(rest), false)
  {
    SplitWhole(name, {'='});
    SplitFirst(name, '=', rest, {'='});
    if '=' in rest {
      PiecesCount(rest, '=');
      SomeOccurrence(rest, '=');
    } else {
      SplitWhole(rest, {'='});
    }
  }

  lemma {:induction false} SomeOccurrence(s: string, c: char)
    requires c in s
    ensures Occurrences(s, c) > 0
  {
    if s[0] != c {
      assert s == [s[0]] + s[1..];
      SomeOccurrence(s[1..], c);
    }
  }

  lemma {:induction false} PiecesInherit(s: string, seps: set<char>, others: set<char>)
    requires FreeOf(s, others)
    ensures AllFree(Split(s, seps), others)
  {
    if s != "" {
      assert s[0] in s && FreeOf(s[1..], others);
      PiecesInherit(s[1..], seps, others);
      var rest := Split(s[1..], seps);
      assert rest[0] in rest && forall p | p in rest[1..] :: p in rest;
    }
  }

  lemma {:induction false} ComponentTextFree(component: string)
    requires FreeOf(component, {'&'})
    ensures FreeOf(ParamText(ParamField(component)), {'&'})
  {
    var pair := Split(component, {'='});
    PiecesInherit(component, {'='}, {'&'});
    assert pair[0] in pair;
    if |pair| == 2 {
      assert pair[1] in pair;
      ConcatFree(pair[0], "=", {'&'});
      ConcatFree(pair[0] + "=", pair[1], {'&'});
    }
  }

  lemma ComponentTextsFree(query: string)
    ensures AllFree(ParamTexts(QueryFields(query)), {'&'})
  {
    var components := Split(query, {'&'});
    PiecesAreFree(query, {'&'});
    forall i | 0 <= i < |components|
      ensures FreeOf(ParamTexts(QueryFields(query))[i], {'&'})
    {
      assert components[i] in components;
      ComponentTextFree(components[i]);
    }
  }

  lemma ComponentsKept(components: seq<string>)
    ensures ParamTexts(ParamFields(components)) == components <==> forall c | c in components :: Occurrences(c, '=') <= 1
  {
    var texts := ParamTexts(ParamFields(components));
    forall i | 0 <= i < |components|
      ensures texts[i] == components[i] <==> Occurrences(components[i], '=') <= 1
    {
      ComponentKept(components[i]);
    }
    if forall c | c in components :: Occurrences(c, '=') <= 1 {
      assert forall i | 0 <= i < |components| :: components[i] in components;
    }
  }

  /** A query stays as it is exactly when none of its components has more than one '='. */
  lemma {:induction false} QueryIdentity(query: string)
    ensures QueryText(QueryFields(query)) == "?" + query
       <==> forall c | c in Split(query, {'&'}) :: Occurrences(c, '=') <= 1
  {
    var texts := ParamTexts(QueryFields(query));
    QueryIsJoined(QueryFields(query));
    ComponentTextsFree(query);
    SplitJoined(texts, '&');
    JoinedSplit(query, '&');
    Unprefix(Join(texts, "&"), query);
    ComponentsKept(Split(query, {'&'}));
  }

  lemma Unprefix(a: string, b: string)
    ensures "?" + a == "?" + b <==> a == b
  {
    assert ("?" + a)[1..] == a && ("?" + b)[1..] == b;
  }

  /** A parameter as parsing makes it. */
  predicate NormalParam(f: Field) {
    && f.name.Some? && !f.modified && FreeOf(f.name.value, {'&', '='})
    && (f.value.Some? ==> FreeOf(f.value.value, {'&', '='}))
  }

  lemma FreeOfBoth(s: string)
    ensures FreeOf(s, {'&', '='}) <==> FreeOf(s, {'&'}) && FreeOf(s, {'='})
  {
  }

  lemma ParsedParamIsNormal(component: string)
    requires FreeOf(component, {'&'})
    ensures NormalParam(ParamField(component))
  {
    var pair := Split(component, {'='});
    PiecesAreFree(component, {'='});
    PiecesInherit(component, {'='}, {'&'});
    assert pair[0] in pair;
    FreeOfBoth(pair[0]);
    if |pair| == 2 {
      assert pair[1] in pair;
      FreeOfBoth(pair[1]);
    }
  }

  lemma ParsedQueryIsNormal(query: string)
    ensures forall f | f in QueryFields(query) :: NormalParam(f)
  {
    var components := Split(query, {'&'});
    PiecesAreFree(query, {'&'});
    forall i | 0 <= i < |components|
      ensures NormalParam(QueryFields(query)[i])
    {
      assert components[i] in components;
      ParsedParamIsNormal(components[i]);
    }
  }

  lemma ParamReparse(f: Field)
    requires NormalParam(f)
    ensures ParamField(ParamText(f)) == f && FreeOf(ParamText(f), {'&'})
  {
    FreeOfBoth(f.name.value);
    if f.value.Some? {
      FreeOfBoth(f.value.value);
      SplitFirst(f.name.value, '=', f.value.value, {'='});
      SplitWhole(f.value.value, {'='});
      ConcatFree(f.name.value, "=", {'&'});
      ConcatFree(f.name.value + "=", f.value.value, {'&'});
    } else {
      SplitWhole(f.name.value, {'='});
    }
  }

  /** Parsing a built query gives back the parameters it was built from. */
  lemma QueryReparse(fields: seq<Field>)
    requires fields != [] && forall f | f in fields :: NormalParam(f)
    ensures QueryText(fields) != "" && QueryFields(QueryText(fields)[1..]) == fields
  {
    QueryIsJoined(fields);
    var texts := ParamTexts(fields);
    forall i | 0 <= i < |fields|
      ensures ParamField(texts[i]) == fields[i] && FreeOf(texts[i], {'&'})
    {
      ParamReparse(fields[i]);
    }
    SplitJoined(texts, '&');
    assert QueryText(fields)[1..] == Join(texts, "&");
    assert ParamFields(texts) == fields;
  }

  lemma {:induction false} QueryIdempotent(query: string)
    ensures var built := QueryText(QueryFields(query));
      built != "" && QueryText(QueryFields(built[1..])) == built
  {
    ParsedQueryIsNormal(query);
    QueryReparse(QueryFields(query));
  }

  // ---------------------------------------------------------------- the request

  class Request {
    var path: seq<Field>
    var param: seq<Field>
    var url: string

    constructor ()
      ensures path == [] && param == []
    {
      path, param := [], [];
    }

    /** The fields are appended to those there are, and the URL is built from all of them. */
    method ParseUrl(pathText: string, query: Option<string>, origin: string, fragment: string)
      modifies this
      ensures path == old(path) + PathFields(pathText)
      ensures param == old(param) + (if query.Some? then QueryFields(query.value) else [])
      ensures url == origin + PathText(path) + QueryText(param) + fragment
    {
      ParsePath(pathText);
      if query.Some? {
        ParseQuery(query.value);
      }
      BuildUrl(origin, fragment);
    }

    method ParsePath(pathText: string)
      modifies this`path
      ensures path == old(path) + PathFields(pathText)
    {
      var values := NonEmpty(Split(pathText, {'/'}));
      AddElements(values);
      if values == [] || EndsInSlash(pathText) {
        PathElementsSnoc(values, "");
        AddElement("");
      }
    }

    method AddElement(value: string)
      modifies this`path
      ensures path == old(path) + [PathField(value)]
    {
      path := path + [Field(Some("/"), Some(value), false)];
    }

    method AddElements(values: seq<string>)
      modifies this`path
      ensures path == old(path) + PathElements(values)
    {
      for i := 0 to |values|
        invariant path == old(path) + PathElements(values[..i])
      {
        assert values[..i + 1] == values[..i] + [values[i]];
        PathElementsSnoc(values[..i], values[i]);
        AddElement(values[i]);
      }
      assert values[..|values|] == values;
    }

    method ParseQuery(query: string)
      modifies this`param
      ensures param == old(param) + QueryFields(query)
    {
      var components := Split(query, {'&'});
      for i := 0 to |components|
        invariant param == old(param) + ParamFields(components[..i])
      {
        assert components[..i + 1][..i] == components[..i];
        var pair := Split(components[i], {'='});
        var field := Field(Some(pair[0]), None, false);
        if |pair| == 2 {
          field := field.(value := Some(pair[1]));
        }
        param := param + [field];
      }
      assert components[..|components|] == components;
    }

    method Path() returns (text: string)
      ensures text == PathText(path)
    {
      text := "";
      for i := 0 to |path|
        invariant text == PathText(path[..i])
      {
        assert path[..i + 1][..i] == path[..i];
        text := text + path[i].Name();
        text := text + path[i].Value();
      }
      assert path[..|path|] == path;
    }

    method BuildUrl(origin: string, fragment: string)
      modifies this`url
      ensures url == origin + PathText(path) + QueryText(param) + fragment
    {
      url := origin;
      var text := Path();
      url := url + text;
      var tmp := "";
      for i := 0 to |param|
        invariant tmp == QueryText(param[..i])
        invariant tmp == "" <==> i == 0
      {
        assert param[..i + 1][..i] == param[..i];
        tmp := tmp + if tmp == "" then "?" else "&";
        tmp := tmp + ParamText(param[i]);
      }
      assert param[..|param|] == param;
      url := url + tmp;
      url := url + fragment;
    }
  }
}
