/**
 HTML escaping and unescaping (parsers/util/escaping.cc).

 `UnescapeHtml` removes one entity at a time, in the order of a sorted map, and
 for each entity restarts the search from the left until no occurrence is left.
 It therefore also unescapes entities that its own replacements create, which
 is why it undoes `EscapeHtml` on some texts only.
 */
module Escaping {
  import opened Sequences

  datatype Entity = Entity(name: string, glyph: char)

  /** The table of `UnescapeHtml`, in the byte order in which std::map walks it. */
  const ENTITIES: seq<Entity> := [
    Entity("&#34;", '\"'), Entity("&#38;", '&'), Entity("&#39;", '\''), Entity("&#60;", '<'), Entity("&#62;", '>'),
    Entity("&amp;", '&'), Entity("&apos;", '\''), Entity("&gt;", '>'), Entity("&lt;", '<'), Entity("&quot;", '\"')
  ]

  /** The first of the five named entities in `ENTITIES`; numeric ones come before. */
  const FIRST_NAMED: nat := 5

  predicate OccursAt(s: string, key: string, at: nat) {
    at + |key| <= |s| && forall i | 0 <= i < |key| :: s[at + i] == key[i]
  }

  ghost predicate Occurs(s: string, key: string) {
    exists at: nat :: OccursAt(s, key, at)
  }

  /** None of `&amp;` `&apos;` `&gt;` `&lt;` `&quot;` occurs in `s`. */
  ghost predicate FreeOfNamed(s: string) {
    forall k | FIRST_NAMED <= k < |ENTITIES| :: !Occurs(s, ENTITIES[k].name)
  }

  // ---------------------------------------------------------------- unescaping

  /** std::string::find: the leftmost occurrence, or npos (here |s| + 1). */
  method Find(s: string, key: string) returns (at: nat)
    ensures at == |s| + 1 ==> !Occurs(s, key)
    ensures at != |s| + 1 ==> OccursAt(s, key, at) && forall q: nat | q < at :: !OccursAt(s, key, q)
  {
    at := 0;
    while at <= |s|
      invariant at <= |s| + 1
      invariant forall q: nat | q < at :: !OccursAt(s, key, q)
    {
      if OccursAt(s, key, at) {
        return;
      }
      at := at + 1;
    }
  }

  /** The text with [at, at + len) replaced by the single character `c`. */
  function ReplaceAt(s: string, at: nat, len: nat, c: char): string
    requires at + len <= |s|
  {
    s[..at] + [c] + s[at + len..]
  }

  ghost function Leftmost(s: string, key: string): (at: nat)
    requires Occurs(s, key)
    ensures OccursAt(s, key, at) && forall q: nat | q < at :: !OccursAt(s, key, q)
  {
    var at: nat :| OccursAt(s, key, at);
    LeftmostUpTo(s, key, at)
  }

  ghost function LeftmostUpTo(s: string, key: string, at: nat): (r: nat)
    requires OccursAt(s, key, at)
    ensures OccursAt(s, key, r) && forall q: nat | q < r :: !OccursAt(s, key, q)
  {
    if q: nat :| q < at && OccursAt(s, key, q) then LeftmostUpTo(s, key, q) else at
  }

  lemma LeftmostIsUnique(s: string, key: string, at: nat)
    requires OccursAt(s, key, at) && forall q: nat | q < at :: !OccursAt(s, key, q)
    ensures Leftmost(s, key) == at
  {
  }

  /** Rewrite the leftmost occurrence of the entity until there is none. */
  ghost function Rewrite(s: string, e: Entity): string
    requires |e.name| > 1
    decreases |s|
  {
    if Occurs(s, e.name) then Rewrite(ReplaceAt(s, Leftmost(s, e.name), |e.name|, e.glyph), e) else s
  }

  /** Rewrite with the entities of the table from position `from` on, in order. */
  ghost function RewriteFrom(s: string, from: nat): string
    requires from <= |ENTITIES|
    decreases |ENTITIES| - from
  {
    if from == |ENTITIES| then s else RewriteFrom(Rewrite(s, ENTITIES[from]), from + 1)
  }

  ghost function Unescaped(s: string): string {
    RewriteFrom(s, 0)
  }

  method UnescapeHtml(escaped: string) returns (ret: string)
    ensures ret == Unescaped(escaped)
    ensures FreeOfNamed(ret)
  {
    ret := escaped;
    for i := 0 to |ENTITIES|
      invariant RewriteFrom(ret, i) == Unescaped(escaped)
    {
      var e := ENTITIES[i];
      while true
        invariant RewriteFrom(Rewrite(ret, e), i + 1) == Unescaped(escaped)
        decreases |ret|
      {
        var found := Find(ret, e.name);
        if found == |ret| + 1 {
          break;
        }
        LeftmostIsUnique(ret, e.name, found);
        ret := ReplaceAt(ret, found, |e.name|, e.glyph);
      }
    }
    UnescapedIsFreeOfNamed(escaped);
  }

  // ---------------------------------------------------------------- output of unescaping

  /** An occurrence of `key` after a replacement uses the new character or was there before. */
  lemma OccurrenceIsOldOrNew(s: string, at: nat, len: nat, c: char, key: string, q: nat)
    requires at + len <= |s| && len > 0 && |key| > 0
    requires OccursAt(ReplaceAt(s, at, len, c), key, q)
    ensures c in key || Occurs(s, key)
  {
    if at < q {
      assert OccursAt(s, key, q + len - 1);
    } else if q + |key| <= at {
      assert OccursAt(s, key, q);
    } else {
      assert key[at - q] == c;
    }
  }

  lemma {:induction false} RewriteCreatesNothing(s: string, e: Entity, key: string)
    requires |e.name| > 1 && e.glyph !in key && |key| > 0
    requires !Occurs(s, key)
    ensures !Occurs(Rewrite(s, e), key)
    decreases |s|
  {
    if Occurs(s, e.name) {
      var at := Leftmost(s, e.name);
      var t := ReplaceAt(s, at, |e.name|, e.glyph);
      forall q: nat ensures !OccursAt(t, key, q) {
        if OccursAt(t, key, q) {
          OccurrenceIsOldOrNew(s, at, |e.name|, e.glyph, key, q);
        }
      }
      RewriteCreatesNothing(t, e, key);
    }
  }

  lemma {:induction false} RewriteRemoves(s: string, e: Entity)
    requires |e.name| > 1
    ensures !Occurs(Rewrite(s, e), e.name)
    decreases |s|
  {
    if Occurs(s, e.name) {
      RewriteRemoves(ReplaceAt(s, Leftmost(s, e.name), |e.name|, e.glyph), e);
    }
  }

  /** Once the loop is past a named entity, that entity never comes back. */
  lemma {:induction false} NamedStaysAway(s: string, from: nat, k: nat)
    requires FIRST_NAMED <= k < |ENTITIES| && from <= |ENTITIES|
    requires from <= k || !Occurs(s, ENTITIES[k].name)
    ensures !Occurs(RewriteFrom(s, from), ENTITIES[k].name)
    decreases |ENTITIES| - from
  {
    if from < |ENTITIES| {
      if from == k {
        RewriteRemoves(s, ENTITIES[from]);
      } else if k < from {
        RewriteCreatesNothing(s, ENTITIES[from], ENTITIES[k].name);
      }
      NamedStaysAway(Rewrite(s, ENTITIES[from]), from + 1, k);
    }
  }

  /** For every input, none of the five named entities is left in the output. */
  lemma UnescapedIsFreeOfNamed(s: string)
    ensures FreeOfNamed(Unescaped(s))
  {
    forall k | FIRST_NAMED <= k < |ENTITIES| ensures !Occurs(Unescaped(s), ENTITIES[k].name) {
      NamedStaysAway(s, 0, k);
    }
  }

  lemma {:induction false} RewriteShrinks(s: string, e: Entity)
    requires |e.name| > 1
    ensures Rewrite(s, e) == s || |Rewrite(s, e)| < |s|
    ensures Occurs(s, e.name) ==> |Rewrite(s, e)| < |s|
    decreases |s|
  {
    if Occurs(s, e.name) {
      RewriteShrinks(ReplaceAt(s, Leftmost(s, e.name), |e.name|, e.glyph), e);
    }
  }

  lemma {:induction false} RewriteFromFixes(s: string, from: nat)
    requires from <= |ENTITIES|
    ensures RewriteFrom(s, from) == s || |RewriteFrom(s, from)| < |s|
    ensures RewriteFrom(s, from) == s <==> forall k | from <= k < |ENTITIES| :: !Occurs(s, ENTITIES[k].name)
    decreases |ENTITIES| - from
  {
    if from < |ENTITIES| {
      RewriteShrinks(s, ENTITIES[from]);
      RewriteFromFixes(Rewrite(s, ENTITIES[from]), from + 1);
    }
  }

  /** Unescaping leaves exactly the texts without any of the ten entities alone. Its own output
      need not be one of them: `&` is produced after `&#34;` was looked for. */
  lemma FixedPoints(s: string)
    ensures Unescaped(s) == s <==> forall k | 0 <= k < |ENTITIES| :: !Occurs(s, ENTITIES[k].name)
  {
    RewriteFromFixes(s, 0);
  }

  // ---------------------------------------------------------------- escaping

  /** A table from characters to the entities written for them. */
  type Codes = map<char, string>

  function EncodeChar(codes: Codes, c: char): string {
    if c in codes then codes[c] else [c]
  }

  function Encode(codes: Codes, s: string): string {
    if s == [] then [] else EncodeChar(codes, s[0]) + Encode(codes, s[1..])
  }

  /** What `EscapeHtml` writes. */
  const NAMED: Codes := map['&' := "&amp;", '\'' := "&apos;", '>' := "&gt;", '<' := "&lt;", '\"' := "&quot;"]

  /** The switch of `EscapeHtml`. */
  function HtmlCode(c: char): (code: string)
    ensures code == EncodeChar(NAMED, c)
  {
    match c
    case '<' => "&lt;"
    case '>' => "&gt;"
    case '&' => "&amp;"
    case '\"' => "&quot;"
    case '\'' => "&apos;"
    case _ => [c]
  }

  method EscapeHtml(unescaped: string) returns (buffer: string)
    ensures buffer == Encode(NAMED, unescaped)
  {
    buffer := "";
    for pos := 0 to |unescaped|
      invariant buffer == Encode(NAMED, unescaped[..pos])
    {
      EncodeSnoc(NAMED, unescaped[..pos], unescaped[pos]);
      assert unescaped[..pos + 1] == unescaped[..pos] + [unescaped[pos]];
      buffer := buffer + HtmlCode(unescaped[pos]);
    }
    assert unescaped[..|unescaped|] == unescaped;
  }

  /** What the proofs below need of a table: entities start with an ampersand, go on with
      characters that are not encoded themselves, and none is a prefix of another. */
  ghost predicate Decodable(codes: Codes) {
    && (forall c | c in codes :: |codes[c]| > 1 && codes[c][0] == '&')
    && (forall c, i | c in codes && 0 < i < |codes[c]| :: codes[c][i] != '&' && codes[c][i] !in codes)
    && (forall c, d | c in codes && d in codes && codes[c] <= codes[d] :: c == d)
  }

  lemma {:induction false} EncodeConcat(codes: Codes, a: string, b: string)
    ensures Encode(codes, a + b) == Encode(codes, a) + Encode(codes, b)
  {
    if a == [] {
      assert a + b == b;
    } else {
      assert (a + b)[1..] == a[1..] + b;
      EncodeConcat(codes, a[1..], b);
    }
  }

  lemma EncodeSnoc(codes: Codes, a: string, c: char)
    ensures Encode(codes, a + [c]) == Encode(codes, a) + EncodeChar(codes, c)
  {
    EncodeConcat(codes, a, [c]);
    assert Encode(codes, [c]) == EncodeChar(codes, c) + Encode(codes, []);
  }

  lemma {:induction false} EncodeNothing(s: string)
    ensures Encode(map[], s) == s
  {
    if s != [] {
      EncodeNothing(s[1..]);
    }
  }

  // ---------------------------------------------------------------- one pass over an encoded text

  /** A text decoded for `c` up to position i, and still encoded from there on. */
  function Half(c: char, codes: Codes, s: string, i: nat): string
    requires i <= |s|
  {
    Encode(codes - {c}, s[..i]) + Encode(codes, s[i..])
  }

  lemma NothingInFront(a: string)
    ensures [] + a == a
  {
  }

  /** The first character of two texts, and what is behind it. */
  lemma LeftStep(k1: Codes, a: string, k2: Codes, b: string)
    requires a != []
    ensures Encode(k1, a) + Encode(k2, b) == EncodeChar(k1, a[0]) + (Encode(k1, a[1..]) + Encode(k2, b))
  {
    Associate(EncodeChar(k1, a[0]), Encode(k1, a[1..]), Encode(k2, b));
  }

  lemma RightStep(k1: Codes, k2: Codes, b: string)
    requires b != []
    ensures Encode(k1, []) + Encode(k2, b) == EncodeChar(k2, b[0]) + (Encode(k1, []) + Encode(k2, b[1..]))
  {
    NothingInFront(Encode(k2, b));
    NothingInFront(Encode(k2, b[1..]));
  }

  lemma HeadAndTail(a: string, b: string)
    ensures a != [] ==> a + b == [a[0]] + (a[1..] + b)
    ensures a == [] && b != [] ==> a + b == [b[0]] + (a + b[1..])
  {
  }

  /** Characters the tables leave alone, at the front of an encoded text, stood there before. */
  lemma {:induction false} PlainPrefix(k1: Codes, a: string, k2: Codes, b: string, word: string)
    requires Decodable(k1) && Decodable(k2)
    requires forall d | d in word :: d != '&' && d !in k1 && d !in k2
    requires word <= Encode(k1, a) + Encode(k2, b)
    ensures word <= a + b
    decreases |word|
  {
    if word != [] && a + b != [] {
      var codes, x := if a != [] then k1 else k2, (a + b)[0];
      var a', b' := if a != [] then a[1..] else a, if a != [] then b else b[1..];
      var tail := Encode(k1, a') + Encode(k2, b');
      HeadAndTail(a, b);
      if a != [] {
        LeftStep(k1, a, k2, b);
      } else {
        RightStep(k1, k2, b);
      }
      assert word[0] in word;
      PlainFront(codes, x, tail, word);
      PlainPrefix(k1, a', k2, b', word[1..]);
    }
  }

  lemma PlainFront(codes: Codes, x: char, tail: string, word: string)
    requires Decodable(codes) && word != [] && word[0] != '&'
    requires word <= EncodeChar(codes, x) + tail
    ensures word[0] == x && word[1..] <= tail
    ensures forall d | d in word[1..] :: d in word
  {
    assert word[0] == EncodeChar(codes, x)[0];
    assert (EncodeChar(codes, x) + tail)[1..] == tail;
  }

  /** An entity found inside the code of one character is spelled out by it and its successors. */
  lemma EntityAtFront(codes: Codes, x: char, c: char, tail: string, at: nat)
    requires c in codes && Decodable(codes)
    requires var first := EncodeChar(codes - {c}, x); at < |first| && OccursAt(first + tail, codes[c], at)
    ensures at == 0 && x == '&' && x !in codes - {c} && codes[c][1..] <= tail
  {
    var key, first := codes[c], EncodeChar(codes - {c}, x);
    var text := first + tail;
    assert key[0] == '&' && text[at] == first[at] == '&';
    assert at == 0;
    FrontsComparable(first, tail, key);
    assert forall i | 0 <= i < |key| - 1 :: tail[i] == text[i + 1] == key[i + 1];
  }

  lemma FrontsComparable(first: string, tail: string, key: string)
    requires OccursAt(first + tail, key, 0)
    ensures key <= first || first <= key
  {
    var text := first + tail;
    assert forall i | 0 <= i < |key| :: text[0 + i] == key[i];
    assert forall i | 0 <= i < |first| :: text[i] == first[i];
  }

  lemma OccursInTail(front: string, tail: string, key: string, at: nat)
    requires |front| <= at
    ensures OccursAt(front + tail, key, at) <==> OccursAt(tail, key, at - |front|)
  {
    assert forall i | at <= i < |front + tail| :: (front + tail)[i] == tail[i - |front|];
  }

  lemma OccursOneOn(x: char, rest: string, key: string)
    requires Occurs(rest, key)
    ensures Occurs([x] + rest, key)
  {
    var q: nat :| OccursAt(rest, key, q);
    OccursInTail([x], rest, key, q + 1);
  }

  lemma OccursAtFront(rest: string, key: string)
    requires key != [] && key[1..] <= rest
    ensures Occurs([key[0]] + rest, key)
  {
    var text := [key[0]] + rest;
    assert forall i | 0 < i < |key| :: text[i] == rest[i - 1] == key[1..][i - 1];
    assert OccursAt(text, key, 0);
  }

  /** An entity in a half decoded text, left of the point reached, was already in the plain text, and ampersands
      are decoded by then. */
  lemma {:induction false} NoEarlyOccurrence(c: char, codes: Codes, a: string, b: string, at: nat)
    requires c in codes && Decodable(codes) && Decodable(codes - {c})
    requires at < |Encode(codes - {c}, a)|
    requires OccursAt(Encode(codes - {c}, a) + Encode(codes, b), codes[c], at)
    ensures '&' !in codes - {c} && Occurs(a + b, codes[c])
    decreases |a|
  {
    var key := codes[c];
    var first := EncodeChar(codes - {c}, a[0]);
    var tail := Encode(codes - {c}, a[1..]) + Encode(codes, b);
    LeftStep(codes - {c}, a, codes, b);
    HeadAndTail(a, b);
    if |first| <= at {
      OccursInTail(first, tail, key, at);
      NoEarlyOccurrence(c, codes, a[1..], b, at - |first|);
      OccursOneOn(a[0], a[1..] + b, key);
    } else {
      EntityAtFront(codes, a[0], c, tail, at);
      PlainPrefix(codes - {c}, a[1..], codes, b, key[1..]);
      OccursAtFront(a[1..] + b, key);
    }
  }

  /** The next replacement of the pass, if it is due at position i, moves it to i + 1. */
  lemma HalfStep(c: char, codes: Codes, s: string, i: nat)
    requires c in codes && i < |s|
    ensures s[i] != c ==> Half(c, codes, s, i) == Half(c, codes, s, i + 1)
    ensures s[i] == c ==> var at := |Encode(codes - {c}, s[..i])|;
                          && OccursAt(Half(c, codes, s, i), codes[c], at)
                          && ReplaceAt(Half(c, codes, s, i), at, |codes[c]|, c) == Half(c, codes, s, i + 1)
  {
    var rest := codes - {c};
    HalfSplit(c, codes, s, i);
    if s[i] == c {
      ReplaceInMiddle(Encode(rest, s[..i]), codes[c], Encode(codes, s[i + 1..]), c);
    }
  }

  lemma HalfSplit(c: char, codes: Codes, s: string, i: nat)
    requires i < |s|
    ensures Half(c, codes, s, i) == Encode(codes - {c}, s[..i]) + (EncodeChar(codes, s[i]) + Encode(codes, s[i + 1..]))
    ensures Half(c, codes, s, i + 1) == Encode(codes - {c}, s[..i]) + (EncodeChar(codes - {c}, s[i]) + Encode(codes, s[i + 1..]))
  {
    var rest := codes - {c};
    assert s[i..][1..] == s[i + 1..];
    assert s[..i + 1] == s[..i] + [s[i]];
    EncodeSnoc(rest, s[..i], s[i]);
    Associate(Encode(rest, s[..i]), EncodeChar(rest, s[i]), Encode(codes, s[i + 1..]));
  }

  lemma ReplaceInMiddle(front: string, key: string, tail: string, c: char)
    ensures OccursAt(front + (key + tail), key, |front|)
    ensures ReplaceAt(front + (key + tail), |front|, |key|, c) == front + ([c] + tail)
  {
  }

  lemma NoneBefore(c: char, codes: Codes, s: string, i: nat, q: nat)
    requires c in codes && Decodable(codes) && Decodable(codes - {c}) && i <= |s|
    requires !Occurs(s, codes[c]) || '&' in codes - {c}
    requires q < |Encode(codes - {c}, s[..i])|
    ensures !OccursAt(Half(c, codes, s, i), codes[c], q)
  {
    assert s[..i] + s[i..] == s;
    if OccursAt(Half(c, codes, s, i), codes[c], q) {
      NoEarlyOccurrence(c, codes, s[..i], s[i..], q);
    }
  }

  /** One pass of the loop decodes exactly its own character, whatever else is still encoded, if the plain text does
      not hold the entity, or the ampersand is still encoded. */
  lemma {:induction false} PassDecodes(c: char, codes: Codes, s: string, i: nat)
    requires c in codes && Decodable(codes) && Decodable(codes - {c})
    requires i <= |s| && (!Occurs(s, codes[c]) || '&' in codes - {c})
    ensures Rewrite(Half(c, codes, s, i), Entity(codes[c], c)) == Encode(codes - {c}, s)
    decreases |s| - i
  {
    if i == |s| {
      PassEnds(c, codes, s);
    } else {
      PassStep(c, codes, s, i);
      PassDecodes(c, codes, s, i + 1);
    }
  }

  lemma PassEnds(c: char, codes: Codes, s: string)
    requires c in codes && Decodable(codes) && Decodable(codes - {c})
    requires !Occurs(s, codes[c]) || '&' in codes - {c}
    ensures Rewrite(Half(c, codes, s, |s|), Entity(codes[c], c)) == Encode(codes - {c}, s)
  {
    var done := Encode(codes - {c}, s);
    assert s[..|s|] == s && s[|s|..] == [];
    assert Half(c, codes, s, |s|) == done;
    forall q: nat ensures !OccursAt(done, codes[c], q) {
      if q < |done| {
        NoneBefore(c, codes, s, |s|, q);
      }
    }
  }

  lemma RewriteLeftmost(s: string, e: Entity, at: nat)
    requires |e.name| > 1 && OccursAt(s, e.name, at) && forall q: nat | q < at :: !OccursAt(s, e.name, q)
    ensures Rewrite(s, e) == Rewrite(ReplaceAt(s, at, |e.name|, e.glyph), e)
  {
    LeftmostIsUnique(s, e.name, at);
  }

  lemma PassStep(c: char, codes: Codes, s: string, i: nat)
    requires c in codes && Decodable(codes) && Decodable(codes - {c}) && i < |s|
    requires !Occurs(s, codes[c]) || '&' in codes - {c}
    ensures Rewrite(Half(c, codes, s, i), Entity(codes[c], c)) == Rewrite(Half(c, codes, s, i + 1), Entity(codes[c], c))
  {
    HalfStep(c, codes, s, i);
    if s[i] == c {
      var done := Encode(codes - {c}, s[..i]);
      forall q: nat | q < |done| ensures !OccursAt(Half(c, codes, s, i), codes[c], q) {
        NoneBefore(c, codes, s, i, q);
      }
      RewriteLeftmost(Half(c, codes, s, i), Entity(codes[c], c), |done|);
    }
  }

  // ---------------------------------------------------------------- round trip

  /** The characters still encoded before pass k of the loop. */
  function StillEncoded(k: nat): (codes: Codes)
    requires FIRST_NAMED <= k <= |ENTITIES|
  {
    match k
    case 5 => NAMED
    case 6 => NAMED - {'&'}
    case 7 => NAMED - {'&', '\''}
    case 8 => NAMED - {'&', '\'', '>'}
    case 9 => map['\"' := "&quot;"]
    case _ => map[]
  }

  lemma StillEncodedStep(k: nat)
    requires FIRST_NAMED <= k < |ENTITIES|
    ensures var e := ENTITIES[k]; var codes := StillEncoded(k);
            && e.glyph in codes && codes[e.glyph] == e.name
            && StillEncoded(k + 1) == codes - {e.glyph}
  {
  }

  lemma NamedPrefixFree(c: char, d: char)
    requires c in NAMED && d in NAMED && HtmlCode(c) <= HtmlCode(d)
    ensures c == d
  {
    assert HtmlCode(c)[1] == HtmlCode(d)[1] && HtmlCode(c)[2] == HtmlCode(d)[2];
  }

  lemma NamedSpelling(c: char)
    requires c in NAMED
    ensures |HtmlCode(c)| > 1 && HtmlCode(c)[0] == '&'
    ensures forall i | 0 < i < |HtmlCode(c)| :: HtmlCode(c)[i] != '&' && HtmlCode(c)[i] !in NAMED
  {
  }

  lemma NamedDecodable()
    ensures Decodable(NAMED)
  {
    forall c | c in NAMED
      ensures |NAMED[c]| > 1 && NAMED[c][0] == '&'
      ensures forall i | 0 < i < |NAMED[c]| :: NAMED[c][i] != '&' && NAMED[c][i] !in NAMED
    {
      NamedSpelling(c);
    }
    forall c, d | c in NAMED && d in NAMED && NAMED[c] <= NAMED[d] ensures c == d {
      NamedPrefixFree(c, d);
    }
  }

  lemma SubtableDecodable(codes: Codes, c: char)
    requires Decodable(codes)
    ensures Decodable(codes - {c})
  {
  }

  lemma {:induction false} FreeTextDecodes(s: string, k: nat)
    requires FreeOfNamed(s) && FIRST_NAMED <= k <= |ENTITIES|
    requires Decodable(StillEncoded(k))
    ensures RewriteFrom(Encode(StillEncoded(k), s), k) == s
    decreases |ENTITIES| - k
  {
    if k == |ENTITIES| {
      EncodeNothing(s);
    } else {
      var c, codes := ENTITIES[k].glyph, StillEncoded(k);
      StillEncodedStep(k);
      SubtableDecodable(codes, c);
      PassDecodes(c, codes, s, 0);
      assert s[..0] == [] && s[0..] == s;
      assert Half(c, codes, s, 0) == Encode(codes, s);
      FreeTextDecodes(s, k + 1);
    }
  }

  /** In an escaped text every `&` starts a named entity, so numeric entities do not occur. */
  lemma {:induction false} EscapedHasNoNumeric(s: string, at: nat)
    ensures var t := Encode(NAMED, s); at < |t| && t[at] == '&' ==> at + 1 < |t| && t[at + 1] != '#'
    decreases |s|
  {
    if s != [] {
      var first := EncodeChar(NAMED, s[0]);
      assert Encode(NAMED, s) == first + Encode(NAMED, s[1..]);
      if |first| <= at {
        EscapedHasNoNumeric(s[1..], at - |first|);
      }
    }
  }

  lemma {:induction false} NumericPassesIdle(s: string, from: nat)
    requires from <= FIRST_NAMED
    ensures RewriteFrom(Encode(NAMED, s), from) == RewriteFrom(Encode(NAMED, s), FIRST_NAMED)
    decreases FIRST_NAMED - from
  {
    if from < FIRST_NAMED {
      var t, key := Encode(NAMED, s), ENTITIES[from].name;
      assert key[0] == '&' && key[1] == '#';
      forall q: nat ensures !OccursAt(t, key, q) {
        EscapedHasNoNumeric(s, q);
      }
      NumericPassesIdle(s, from + 1);
    }
  }

  /** Unescaping undoes escaping exactly on the texts that hold no named entity. */
  lemma RoundTrip(s: string)
    ensures Unescaped(Encode(NAMED, s)) == s <==> FreeOfNamed(s)
  {
    UnescapedIsFreeOfNamed(Encode(NAMED, s));
    if FreeOfNamed(s) {
      NumericPassesIdle(s, 0);
      NamedDecodable();
      FreeTextDecodes(s, FIRST_NAMED);
    }
  }
}
