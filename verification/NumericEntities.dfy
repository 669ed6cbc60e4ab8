/**
 Unescaping numeric character references: the table of `UnescapeHtml` against an encoder that writes the
 code point of a character in decimal digits and knows nothing of that table.
 */
module NumericEntities {
  import opened Escaping
  import opened SecondPass
  import opened Numerals

  /** A decimal character reference: "&#60;" for "<". */
  function Reference(c: char): string {
    "&#" + (Decimal(c as int) + ";")
  }

  const SPECIAL: set<char> := {'\"', '&', '\'', '<', '>'}

  const NUMERIC: Codes := map c | c in SPECIAL :: Reference(c)

  /** Every entity that is looked for after the ampersands have been decoded. */
  const LATER: seq<string> := ["&#38;", "&#39;", "&#60;", "&#62;", "&amp;", "&apos;", "&gt;", "&lt;", "&quot;"]

  lemma LaterNames(k: nat)
    requires 1 <= k < |ENTITIES|
    ensures LATER[k - 1] == ENTITIES[k].name
  {
  }

  lemma TwoDigits(n: nat)
    requires 10 <= n < 100
    ensures Decimal(n) == [Digit(n / 10), Digit(n % 10)]
  {
    assert Decimal(n / 10) == [Digit(n / 10)];
  }

  lemma ReferenceText(c: char)
    requires 10 <= c as int < 100
    ensures Reference(c) == ['&', '#', Digit(c as int / 10), Digit(c as int % 10), ';']
  {
    TwoDigits(c as int);
  }

  lemma TableIs()
    ensures NUMERIC == map['\"' := "&#34;", '&' := "&#38;", '\'' := "&#39;", '<' := "&#60;", '>' := "&#62;"]
  {
    ReferenceText('\"');
    ReferenceText('&');
    ReferenceText('\'');
    ReferenceText('<');
    ReferenceText('>');
  }

  lemma ReferenceShape(c: char)
    requires c in SPECIAL
    ensures c in NUMERIC && NUMERIC[c] == Reference(c) && |Reference(c)| == 5
    ensures var r := Reference(c);
      r[0] == '&' && r[1] == '#' && IsDigit(r[2]) && IsDigit(r[3]) && r[4] == ';' && Number([r[2], r[3]]) == c as int
  {
    ReferenceText(c);
    TwoDigits(c as int);
    NumberOfDecimal(c as int);
  }

  lemma NumericDecodable()
    ensures Decodable(NUMERIC)
  {
    forall c | c in NUMERIC
      ensures |NUMERIC[c]| > 1 && NUMERIC[c][0] == '&'
      ensures forall i | 0 < i < |NUMERIC[c]| :: NUMERIC[c][i] != '&' && NUMERIC[c][i] !in NUMERIC
    {
      ReferenceShape(c);
    }
    forall c, d | c in NUMERIC && d in NUMERIC && NUMERIC[c] <= NUMERIC[d] ensures c == d {
      ReferenceShape(c);
      ReferenceShape(d);
      assert NUMERIC[c][2] == NUMERIC[d][2] && NUMERIC[c][3] == NUMERIC[d][3];
    }
  }

  // ---------------------------------------------------------------- decoding

  /** The characters still encoded before pass k of the loop. */
  function StillNumeric(k: nat): Codes
    requires k <= FIRST_NAMED
  {
    match k
    case 0 => NUMERIC
    case 1 => NUMERIC - {'\"'}
    case 2 => NUMERIC - {'\"', '&'}
    case 3 => NUMERIC - {'\"', '&', '\''}
    case 4 => NUMERIC - {'\"', '&', '\'', '<'}
    case _ => map[]
  }

  lemma StillNumericStep(k: nat)
    requires k < FIRST_NAMED
    ensures var e := ENTITIES[k]; var codes := StillNumeric(k);
            && e.glyph in codes && codes[e.glyph] == e.name
            && StillNumeric(k + 1) == codes - {e.glyph}
    ensures k == 0 ==> '&' in StillNumeric(1)
  {
    TableIs();
    hide NUMERIC;
    if k == 4 {
      assert StillNumeric(4).Keys == {'>'};
    }
  }

  /** The numeric passes decode the text, if none of their entities from "&#38;" on is in it. */
  lemma {:induction false} NumericPassesDecode(s: string, k: nat)
    requires k <= FIRST_NAMED && forall j | 1 <= j < FIRST_NAMED :: !Occurs(s, ENTITIES[j].name)
    requires Decodable(StillNumeric(k))
    ensures RewriteFrom(Encode(StillNumeric(k), s), k) == RewriteFrom(s, FIRST_NAMED)
    decreases FIRST_NAMED - k
  {
    if k == FIRST_NAMED {
      EncodeNothing(s);
    } else {
      var c, codes := ENTITIES[k].glyph, StillNumeric(k);
      StillNumericStep(k);
      SubtableDecodable(codes, c);
      PassDecodes(c, codes, s, 0);
      assert s[..0] == [] && s[0..] == s;
      assert Half(c, codes, s, 0) == Encode(codes, s);
      NumericPassesDecode(s, k + 1);
    }
  }

  // ---------------------------------------------------------------- counting replacements

  /** Semicolons less number signs: a numeric replacement removes one of each, a named one only a semicolon. */
  function Balance(s: string): int {
    multiset(s)[';'] as int - multiset(s)['#'] as int
  }

  lemma BalanceConcat(a: string, b: string)
    ensures Balance(a + b) == Balance(a) + Balance(b)
  {
  }

  lemma BalanceOfText(s: string)
    requires ';' !in s && '#' !in s
    ensures Balance(s) == 0
  {
  }

  lemma BalanceOfMarks()
    ensures Balance("#") == -1 && Balance(";") == 1 && Balance("&") == 0
  {
  }

  /** An ampersand, a number sign, a plain text and a semicolon. */
  lemma BalanceOfReference(digits: string)
    requires ';' !in digits && '#' !in digits
    ensures Balance("&" + ("#" + (digits + ";"))) == 0
  {
    BalanceOfMarks();
    BalanceOfText(digits);
    BalanceConcat("&", "#" + (digits + ";"));
    BalanceConcat("#", digits + ";");
    BalanceConcat(digits, ";");
    hide Balance;
  }

  lemma NamedSpelled(k: nat)
    requires FIRST_NAMED <= k < |ENTITIES|
    ensures var name := ENTITIES[k].name; |name| > 1 && name[|name| - 1] == ';'
    ensures var name := ENTITIES[k].name; forall i | 0 <= i < |name| - 1 :: name[i] != ';' && name[i] != '#'
  {
  }

  lemma BalanceOfNumber(k: nat)
    requires k < FIRST_NAMED
    ensures Balance(ENTITIES[k].name) == 0
  {
    NumericName(k);
    hide Balance;
    var name := ENTITIES[k].name;
    assert name == "&" + ("#" + ([name[2], name[3]] + ";"));
    BalanceOfReference([name[2], name[3]]);
  }

  lemma BalanceOfWord(k: nat)
    requires FIRST_NAMED <= k < |ENTITIES|
    ensures Balance(ENTITIES[k].name) == 1
  {
    NamedSpelled(k);
    BalanceOfMarks();
    hide Balance, ENTITIES;
    var name := ENTITIES[k].name;
    var n := |name| - 1;
    assert name == name[..n] + ";";
    BalanceConcat(name[..n], ";");
    BalanceOfText(name[..n]);
  }

  lemma BalanceOfNames(k: nat)
    requires k < |ENTITIES|
    ensures Balance(ENTITIES[k].name) == (if k < FIRST_NAMED then 0 else 1) && Balance([ENTITIES[k].glyph]) == 0
  {
    GlyphIsText(k);
    hide Balance, ENTITIES;
    if k < FIRST_NAMED { BalanceOfNumber(k); } else { BalanceOfWord(k); }
  }

  lemma GlyphIsText(k: nat)
    requires k < |ENTITIES|
    ensures Balance([ENTITIES[k].glyph]) == 0
  {
    assert ENTITIES[k].glyph != ';' && ENTITIES[k].glyph != '#';
    BalanceOfText([ENTITIES[k].glyph]);
  }

  lemma BalanceStep(s: string, k: nat, at: nat)
    requires k < |ENTITIES| && OccursAt(s, ENTITIES[k].name, at)
    ensures var e := ENTITIES[k]; Balance(ReplaceAt(s, at, |e.name|, e.glyph)) == Balance(s) - Balance(e.name)
  {
    var e := ENTITIES[k];
    GlyphIsText(k);
    BalanceReplaced(s, e.name, e.glyph, at);
  }

  lemma BalanceReplaced(s: string, key: string, c: char, at: nat)
    requires OccursAt(s, key, at)
    ensures Balance(ReplaceAt(s, at, |key|, c)) == Balance(s) - Balance(key) + Balance([c])
  {
    hide Balance;
    var front, tail := s[..at], s[at + |key|..];
    assert s[at..at + |key|] == key;
    assert s == front + key + tail;
    BalanceConcat(front + key, tail);
    BalanceConcat(front, key);
    BalanceConcat(front + [c], tail);
    BalanceConcat(front, [c]);
  }

  lemma {:induction false} BalanceOfPass(s: string, k: nat)
    requires k < |ENTITIES|
    ensures Balance(Rewrite(s, ENTITIES[k])) <= Balance(s)
    ensures k < FIRST_NAMED ==> Balance(Rewrite(s, ENTITIES[k])) == Balance(s)
    ensures k >= FIRST_NAMED && Occurs(s, ENTITIES[k].name) ==> Balance(Rewrite(s, ENTITIES[k])) < Balance(s)
    decreases |s|
  {
    var e := ENTITIES[k];
    if Occurs(s, e.name) {
      var at := Leftmost(s, e.name);
      BalanceStep(s, k, at);
      BalanceOfNames(k);
      BalanceOfPass(ReplaceAt(s, at, |e.name|, e.glyph), k);
    }
  }

  lemma {:induction false} BalanceAfter(s: string, n: nat)
    requires n <= FIRST_NAMED
    ensures Balance(After(s, n)) == Balance(s)
  {
    if n > 0 {
      BalanceAfter(s, n - 1);
      BalanceOfPass(After(s, n - 1), n - 1);
    }
  }

  lemma {:induction false} BalanceFalls(s: string, from: nat)
    requires from <= |ENTITIES|
    ensures Balance(RewriteFrom(s, from)) <= Balance(s)
    decreases |ENTITIES| - from
  {
    if from < |ENTITIES| {
      BalanceOfPass(s, from);
      BalanceFalls(Rewrite(s, ENTITIES[from]), from + 1);
    }
  }

  lemma BalanceOfChar(c: char)
    ensures Balance(EncodeChar(NUMERIC, c)) == Balance([c])
  {
    if c in NUMERIC {
      hide Balance;
      ReferenceShape(c);
      var r := Reference(c);
      assert r == "&" + ("#" + ([r[2], r[3]] + ";"));
      BalanceOfReference([r[2], r[3]]);
      BalanceOfText([c]);
    }
  }

  lemma {:induction false} BalanceOfEncoded(s: string)
    ensures Balance(Encode(NUMERIC, s)) == Balance(s)
  {
    if s != [] {
      hide Balance;
      BalanceOfChar(s[0]);
      BalanceOfEncoded(s[1..]);
      BalanceConcat(EncodeChar(NUMERIC, s[0]), Encode(NUMERIC, s[1..]));
      BalanceConcat([s[0]], s[1..]);
      assert s == [s[0]] + s[1..];
    }
  }

  /** A numeric entity in the output, other than "&#34;", costs a replacement of "&amp;". */
  lemma LeftOverCosts(s: string, k: nat)
    requires 1 <= k < FIRST_NAMED && Occurs(Unescaped(s), ENTITIES[k].name)
    ensures Balance(Unescaped(s)) < Balance(s)
  {
    AfterAll(s, |ENTITIES|);
    LastPasses(s, |ENTITIES|, k);
    AmpPass(s, k);
    TailFacts(k);
    var j: nat :| Occurs(After(s, FIRST_AMP), "&" + AmpBody(j, k));
    GoneAfterPass(s, FIRST_AMP, k);
    AmpBodyFacts(j, k);
    AmpBodyLonger(j - 1, k);
    LongerOccurs(After(s, FIRST_AMP), "&" + AMP, AmpBody(j - 1, k));
    WordFacts();
    BalanceAfter(s, FIRST_AMP);
    AfterAll(s, FIRST_AMP);
    BalanceOfPass(After(s, FIRST_AMP), FIRST_AMP);
    BalanceFalls(Rewrite(After(s, FIRST_AMP), ENTITIES[FIRST_AMP]), FIRST_AMP + 1);
  }

  lemma LongerOccurs(s: string, front: string, tail: string)
    requires front != "" && Occurs(s, front[..1] + (front[1..] + tail))
    ensures Occurs(s, front)
  {
    var key := front[..1] + (front[1..] + tail);
    var q: nat :| OccursAt(s, key, q);
    assert forall i | 0 <= i < |front| :: key[i] == front[i];
    assert OccursAt(s, front, q);
  }

  // ---------------------------------------------------------------- round trip

  lemma KeptWithoutLater(s: string)
    requires forall k | 1 <= k < |ENTITIES| :: !Occurs(s, ENTITIES[k].name)
    ensures Unescaped(Encode(NUMERIC, s)) == s
  {
    NumericDecodable();
    NumericPassesDecode(s, 0);
    RewriteFromFixes(s, FIRST_NAMED);
  }

  lemma LostWithLater(s: string, k: nat)
    requires 1 <= k < |ENTITIES| && Occurs(s, ENTITIES[k].name)
    ensures Unescaped(Encode(NUMERIC, s)) != s
  {
    var t := Encode(NUMERIC, s);
    UnescapedIsFreeOfNamed(t);
    BalanceOfEncoded(s);
    if Unescaped(t) == s && k < FIRST_NAMED {
      LeftOverCosts(t, k);
    }
  }

  /** Unescaping gives the characters back whose code points were written, exactly on the texts that hold no entity
      but possibly "&#34;", which is looked for while the ampersands are still encoded. */
  lemma NumericRoundTrip(s: string)
    ensures Unescaped(Encode(NUMERIC, s)) == s <==> forall name | name in LATER :: !Occurs(s, name)
  {
    forall k | 1 <= k < |ENTITIES| ensures ENTITIES[k].name in LATER {
      LaterNames(k);
    }
    if forall k | 1 <= k < |ENTITIES| :: !Occurs(s, ENTITIES[k].name) {
      KeptWithoutLater(s);
      forall name | name in LATER ensures !Occurs(s, name) {
        var i :| 0 <= i < |LATER| && LATER[i] == name;
        LaterNames(i + 1);
      }
    } else {
      var k: nat :| 1 <= k < |ENTITIES| && Occurs(s, ENTITIES[k].name);
      LostWithLater(s, k);
    }
  }

  lemma ShortIsFree(s: string)
    requires |s| < 4
    ensures FreeOfNamed(s) && forall name | name in LATER :: !Occurs(s, name)
  {
    forall k | 1 <= k < |ENTITIES| ensures |ENTITIES[k].name| >= 4 && LATER[k - 1] == ENTITIES[k].name {
      NamesAreLone(k);
      LaterNames(k);
    }
    forall name | name in LATER ensures |name| >= 4 {
      var i :| 0 <= i < |LATER| && LATER[i] == name;
      LaterNames(i + 1);
    }
  }

  lemma OneChar(codes: Codes, c: char)
    ensures Encode(codes, [c]) == EncodeChar(codes, c)
  {
    assert [c][1..] == [];
    assert Encode(codes, [c]) == EncodeChar(codes, c) + Encode(codes, []);
  }

  /** What each of the ten entities stands for. */
  lemma EachMeaning()
    ensures Unescaped("&#34;") == "\"" && Unescaped("&#38;") == "&" && Unescaped("&#39;") == "'"
    ensures Unescaped("&#60;") == "<" && Unescaped("&#62;") == ">"
    ensures Unescaped("&quot;") == "\"" && Unescaped("&amp;") == "&" && Unescaped("&apos;") == "'"
    ensures Unescaped("&lt;") == "<" && Unescaped("&gt;") == ">"
  {
    TableIs();
    forall c | c in SPECIAL ensures Unescaped(NUMERIC[c]) == [c] && c in NAMED && Unescaped(NAMED[c]) == [c] {
      ShortIsFree([c]);
      OneChar(NUMERIC, c);
      OneChar(NAMED, c);
      NumericRoundTrip([c]);
      RoundTrip([c]);
    }
    assert '\"' in SPECIAL && '&' in SPECIAL && '\'' in SPECIAL && '<' in SPECIAL && '>' in SPECIAL;
  }
}
