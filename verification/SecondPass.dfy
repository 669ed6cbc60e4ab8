/**
 What a second `UnescapeHtml` does to the output of the first: it changes nothing exactly if the
 text never spelled a numeric entity behind a chain of ampersand entities.
 */
module SecondPass {
  import opened Escaping

  // ---------------------------------------------------------------- keys

  /** An ampersand in front and nowhere else. */
  predicate Lone(key: string) {
    |key| > 1 && key[0] == '&' && forall p | 0 < p < |key| :: key[p] != '&'
  }

  /** At some place the two spell different characters, so they never stand at one place of a text. */
  ghost predicate Differ(a: string, b: string) {
    exists p: nat :: p < |a| && p < |b| && a[p] != b[p]
  }

  lemma ReplacedChar(s: string, at: nat, len: nat, c: char, p: nat)
    requires at + len <= |s| && len > 0 && p < |ReplaceAt(s, at, len, c)|
    ensures ReplaceAt(s, at, len, c)[p] == if p < at then s[p] else if p == at then c else s[p + len - 1]
  {
  }

  /** An occurrence left or right of the replaced piece is there before and after. */
  lemma OccursBeside(s: string, at: nat, len: nat, c: char, key: string, q: nat)
    requires at + len <= |s| && len > 0
    ensures q + |key| <= at ==> (OccursAt(s, key, q) <==> OccursAt(ReplaceAt(s, at, len, c), key, q))
    ensures at < q ==> (OccursAt(s, key, q + len - 1) <==> OccursAt(ReplaceAt(s, at, len, c), key, q))
  {
  }

  lemma AmpersandsIn(s: string, key: string, at: nat, p: nat)
    requires Lone(key) && OccursAt(s, key, at) && at <= p < at + |key|
    ensures s[p] == '&' <==> p == at
  {
    assert s[at + (p - at)] == key[p - at];
  }

  /** Two lone keys that stand at overlapping places stand at the same place. */
  lemma LoneKeysDoNotOverlap(s: string, a: string, at: nat, b: string, q: nat)
    requires Lone(a) && Lone(b) && OccursAt(s, a, at) && OccursAt(s, b, q)
    ensures at == q || at + |a| <= q || q + |b| <= at
  {
    AmpersandsIn(s, a, at, at);
    AmpersandsIn(s, b, q, q);
    if at < q < at + |a| {
      AmpersandsIn(s, a, at, q);
    }
    if q < at < q + |b| {
      AmpersandsIn(s, b, q, at);
    }
  }

  lemma DifferentKeys(s: string, a: string, b: string, at: nat)
    requires Differ(a, b) && OccursAt(s, a, at)
    ensures !OccursAt(s, b, at)
  {
    var p: nat :| p < |a| && p < |b| && a[p] != b[p];
    assert s[at + p] == a[p];
  }

  // ---------------------------------------------------------------- passes that leave a key alone

  lemma StepKeeps(s: string, e: Entity, key: string, at: nat)
    requires Lone(e.name) && Lone(key) && Differ(e.name, key) && OccursAt(s, e.name, at) && Occurs(s, key)
    ensures Occurs(ReplaceAt(s, at, |e.name|, e.glyph), key)
  {
    var q: nat :| OccursAt(s, key, q);
    DifferentKeys(s, e.name, key, at);
    LoneKeysDoNotOverlap(s, e.name, at, key, q);
    if q + |key| <= at {
      OccursBeside(s, at, |e.name|, e.glyph, key, q);
    } else {
      OccursBeside(s, at, |e.name|, e.glyph, key, q - |e.name| + 1);
    }
  }

  lemma {:induction false} PassKeeps(s: string, e: Entity, key: string)
    requires Lone(e.name) && Lone(key) && Differ(e.name, key) && Occurs(s, key)
    ensures Occurs(Rewrite(s, e), key)
    decreases |s|
  {
    if Occurs(s, e.name) {
      var at := Leftmost(s, e.name);
      StepKeeps(s, e, key, at);
      PassKeeps(ReplaceAt(s, at, |e.name|, e.glyph), e, key);
    }
  }

  /** A pass for another entity, whose character is not part of the key, neither makes nor removes the key. */
  lemma PassNeutral(s: string, e: Entity, key: string)
    requires Lone(e.name) && Lone(key) && Differ(e.name, key) && e.glyph !in key
    ensures Occurs(Rewrite(s, e), key) <==> Occurs(s, key)
  {
    if Occurs(s, key) {
      PassKeeps(s, e, key);
    } else {
      RewriteCreatesNothing(s, e, key);
    }
  }

  // ---------------------------------------------------------------- passes that shorten chains

  function Repeat(w: string, n: nat): string {
    if n == 0 then "" else w + Repeat(w, n - 1)
  }

  /** An ampersand, a word n times, and a tail. */
  function Chain(w: string, n: nat, tail: string): string {
    "&" + (Repeat(w, n) + tail)
  }

  ghost predicate HasChain(s: string, w: string, tail: string) {
    exists n: nat :: Occurs(s, Chain(w, n, tail))
  }

  predicate NoAmp(w: string) {
    forall c | c in w :: c != '&'
  }

  lemma {:induction false} RepeatNoAmp(w: string, n: nat)
    requires NoAmp(w)
    ensures NoAmp(Repeat(w, n))
  {
    if n > 0 {
      RepeatNoAmp(w, n - 1);
    }
  }

  lemma ChainLone(w: string, n: nat, tail: string)
    requires NoAmp(w) && NoAmp(tail) && tail != ""
    ensures Lone(Chain(w, n, tail))
  {
    RepeatNoAmp(w, n);
    var body := Repeat(w, n) + tail;
    assert forall p | 0 < p < |"&" + body| :: ("&" + body)[p] == body[p - 1];
    assert forall p | 0 <= p < |body| :: body[p] in Repeat(w, n) || body[p] in tail;
  }

  lemma ChainLonger(w: string, n: nat, tail: string)
    ensures Chain(w, n + 1, tail) == "&" + (w + (Repeat(w, n) + tail))
  {
    assert w + Repeat(w, n) + tail == w + (Repeat(w, n) + tail);
  }

  lemma OccursAsPrefix(s: string, key: string, at: nat)
    requires at <= |s|
    ensures OccursAt(s, key, at) <==> key <= s[at..]
  {
    if key <= s[at..] {
      assert forall i | 0 <= i < |key| :: s[at..][i] == key[i];
    }
  }

  lemma CommonFront(front: string, a: string, b: string)
    ensures front + a <= front + b <==> a <= b
  {
    if front + a <= front + b {
      assert forall i | 0 <= i < |a| :: (front + a)[|front| + i] == a[i] && (front + b)[|front| + i] == b[i];
    }
  }

  /** What stands behind the ampersand at `at` after "&w" became "&" stood behind "&w" before. */
  lemma ChainAtStep(s: string, w: string, n: nat, tail: string, at: nat)
    requires OccursAt(s, "&" + w, at)
    ensures OccursAt(ReplaceAt(s, at, |w| + 1, '&'), Chain(w, n, tail), at) <==> OccursAt(s, Chain(w, n + 1, tail), at)
  {
    var body, rest, t := Repeat(w, n) + tail, s[at + |w| + 1..], ReplaceAt(s, at, |w| + 1, '&');
    ChainLonger(w, n, tail);
    OccursAsPrefix(s, "&" + w, at);
    OccursAsPrefix(s, Chain(w, n + 1, tail), at);
    OccursAsPrefix(t, Chain(w, n, tail), at);
    assert t[at..] == "&" + rest;
    assert s[at..] == "&" + w + rest;
    CommonFront("&", body, rest);
    CommonFront("&" + w, body, rest);
    assert "&" + w + body == "&" + (w + body);
  }

  /** The words for which a pass that turns "&w" into "&" can be traced through chains before a tail. */
  ghost predicate Traceable(w: string, tail: string) {
    w != "" && tail != "" && NoAmp(w) && NoAmp(tail) && Differ("&" + w, "&" + tail)
  }

  lemma ChainForward(s: string, w: string, tail: string, at: nat, n: nat, q: nat)
    requires Traceable(w, tail) && OccursAt(s, "&" + w, at) && OccursAt(s, Chain(w, n, tail), q)
    ensures HasChain(ReplaceAt(s, at, |w| + 1, '&'), w, tail)
  {
    var key := Chain(w, n, tail);
    ChainLone(w, n, tail);
    ChainLone("", 0, w);
    assert Chain("", 0, w) == "&" + w;
    LoneKeysDoNotOverlap(s, "&" + w, at, key, q);
    if q == at {
      assert Chain(w, 0, tail) == "&" + tail;
      DifferentKeys(s, "&" + w, "&" + tail, at);
      ChainAtStep(s, w, n - 1, tail, at);
      assert Occurs(ReplaceAt(s, at, |w| + 1, '&'), Chain(w, n - 1, tail));
    } else {
      var q' := if q < at then q else q - |w|;
      OccursBeside(s, at, |w| + 1, '&', key, q');
      assert Occurs(ReplaceAt(s, at, |w| + 1, '&'), key);
    }
  }

  lemma ChainBackward(s: string, w: string, tail: string, at: nat, n: nat, q: nat)
    requires Traceable(w, tail) && OccursAt(s, "&" + w, at)
    requires OccursAt(ReplaceAt(s, at, |w| + 1, '&'), Chain(w, n, tail), q)
    ensures HasChain(s, w, tail)
  {
    var key, t := Chain(w, n, tail), ReplaceAt(s, at, |w| + 1, '&');
    ChainLone(w, n, tail);
    ReplacedChar(s, at, |w| + 1, '&', at);
    if q == at {
      ChainAtStep(s, w, n, tail, at);
      assert Occurs(s, Chain(w, n + 1, tail));
    } else {
      if q < at < q + |key| {
        AmpersandsIn(t, key, q, at);
      }
      OccursBeside(s, at, |w| + 1, '&', key, q);
      assert Occurs(s, key);
    }
  }

  lemma StepKeepsChains(s: string, w: string, tail: string, at: nat)
    requires Traceable(w, tail) && OccursAt(s, "&" + w, at)
    ensures HasChain(ReplaceAt(s, at, |w| + 1, '&'), w, tail) <==> HasChain(s, w, tail)
  {
    var t := ReplaceAt(s, at, |w| + 1, '&');
    if HasChain(s, w, tail) {
      var n: nat :| Occurs(s, Chain(w, n, tail));
      var q: nat :| OccursAt(s, Chain(w, n, tail), q);
      ChainForward(s, w, tail, at, n, q);
    }
    if HasChain(t, w, tail) {
      var n: nat :| Occurs(t, Chain(w, n, tail));
      var q: nat :| OccursAt(t, Chain(w, n, tail), q);
      ChainBackward(s, w, tail, at, n, q);
    }
  }

  lemma {:induction false} PassKeepsChains(s: string, e: Entity, w: string, tail: string)
    requires e == Entity("&" + w, '&') && Traceable(w, tail)
    ensures HasChain(Rewrite(s, e), w, tail) <==> HasChain(s, w, tail)
    decreases |s|
  {
    if Occurs(s, e.name) {
      var at := Leftmost(s, e.name);
      StepKeepsChains(s, w, tail, at);
      PassKeepsChains(ReplaceAt(s, at, |e.name|, e.glyph), e, w, tail);
    }
  }

  lemma LongChainHasWord(s: string, w: string, n: nat, tail: string)
    requires n > 0 && Occurs(s, Chain(w, n, tail))
    ensures Occurs(s, "&" + w)
  {
    ChainLonger(w, n - 1, tail);
    var q: nat :| OccursAt(s, Chain(w, n, tail), q);
    OccursAsPrefix(s, Chain(w, n, tail), q);
    OccursAsPrefix(s, "&" + w, q);
    assert "&" + w + (Repeat(w, n - 1) + tail) == "&" + (w + (Repeat(w, n - 1) + tail));
  }

  /** After the pass the tail stands right behind an ampersand exactly if before it stood behind a chain. */
  lemma PassShortens(s: string, e: Entity, w: string, tail: string)
    requires e == Entity("&" + w, '&') && Traceable(w, tail)
    ensures Occurs(Rewrite(s, e), "&" + tail) <==> HasChain(s, w, tail)
  {
    var t := Rewrite(s, e);
    PassKeepsChains(s, e, w, tail);
    RewriteRemoves(s, e);
    assert Chain(w, 0, tail) == "&" + tail;
    if HasChain(t, w, tail) {
      var n: nat :| Occurs(t, Chain(w, n, tail));
      if n > 0 {
        LongChainHasWord(t, w, n, tail);
      }
    }
  }

  // ---------------------------------------------------------------- the ten passes

  const AMP: string := "amp;"
  const NUM: string := "#38;"
  const FIRST_AMP: nat := 5 // the pass for "&amp;"; the one for "&#38;" is pass 1

  /** The text after the first n passes. */
  ghost function After(s: string, n: nat): string
    requires n <= |ENTITIES|
  {
    if n == 0 then s else Rewrite(After(s, n - 1), ENTITIES[n - 1])
  }

  lemma {:induction false} AfterAll(s: string, n: nat)
    requires n <= |ENTITIES|
    ensures RewriteFrom(After(s, n), n) == Unescaped(s)
  {
    if n > 0 {
      AfterAll(s, n - 1);
    }
  }

  lemma NamesAreLone(k: nat)
    requires k < |ENTITIES|
    ensures Lone(ENTITIES[k].name) && |ENTITIES[k].name| >= 4
  {
  }

  lemma Glyphs(k: nat)
    requires k < |ENTITIES| && k != 1 && k != FIRST_AMP
    ensures ENTITIES[k].glyph in "\"'<>"
  {
  }

  lemma NamesDiffer(j: nat, k: nat)
    requires j < FIRST_NAMED && k < |ENTITIES| && j != k
    ensures Differ(ENTITIES[k].name, ENTITIES[j].name)
  {
    NamesAreLone(j);
    NamesAreLone(k);
    var a, b := ENTITIES[k].name, ENTITIES[j].name;
    assert a[1] != b[1] || a[2] != b[2] || a[3] != b[3];
  }

  /** None of the characters that entities stand for. */
  predicate Clean(t: string) {
    forall c | c in t :: c !in "&\"'<>"
  }

  lemma {:induction false} CleanRepeat(w: string, n: nat)
    requires Clean(w)
    ensures Clean(Repeat(w, n))
  {
    if n > 0 {
      CleanRepeat(w, n - 1);
    }
  }

  lemma CleanConcat(a: string, b: string)
    requires Clean(a) && Clean(b)
    ensures Clean(a + b)
  {
  }

  /** A pass for another entity leaves a key alone that is clean behind its ampersand. */
  lemma NeutralPass(s: string, n: nat, body: string)
    requires n < |ENTITIES| && n != 1 && n != FIRST_AMP && body != "" && Clean(body) && Differ(ENTITIES[n].name, "&" + body)
    ensures Occurs(After(s, n + 1), "&" + body) <==> Occurs(After(s, n), "&" + body)
  {
    NamesAreLone(n);
    Glyphs(n);
    CleanKey(body);
    assert ENTITIES[n].glyph !in "&" + body;
    PassNeutral(After(s, n), ENTITIES[n], "&" + body);
  }

  lemma CleanKey(body: string)
    requires body != "" && Clean(body)
    ensures Lone("&" + body) && NoAmp(body)
  {
    assert forall p | 0 < p < |"&" + body| :: ("&" + body)[p] == body[p - 1] && body[p - 1] in body;
  }

  /** What follows the ampersand in the numeric entity k. */
  function Tail(k: nat): string
    requires k < FIRST_NAMED
  {
    ENTITIES[k].name[1..]
  }

  lemma NumericName(k: nat)
    requires k < FIRST_NAMED
    ensures var name := ENTITIES[k].name; |name| == 5 && name[0] == '&' && name[1] == '#' && name[4] == ';'
    ensures var name := ENTITIES[k].name; '0' <= name[2] <= '9' && '0' <= name[3] <= '9'
  {
  }

  lemma TailFacts(k: nat)
    requires k < FIRST_NAMED
    ensures |Tail(k)| == 4 && Clean(Tail(k)) && Tail(k)[0] == '#' && "&" + Tail(k) == ENTITIES[k].name
  {
    NumericName(k);
    var name := ENTITIES[k].name;
    assert Tail(k) == [name[1], name[2], name[3], name[4]];
  }

  lemma WordsAreClean()
    ensures Clean(AMP) && Clean(NUM)
  {
    assert AMP == ['a', 'm', 'p', ';'] && NUM == ['#', '3', '8', ';'];
  }

  lemma WordFacts()
    ensures ENTITIES[FIRST_AMP] == Entity("&" + AMP, '&') && ENTITIES[1] == Entity("&" + NUM, '&')
  {
  }

  /** A chain of "amp;" in front of a numeric tail. */
  function AmpBody(j: nat, k: nat): string
    requires k < FIRST_NAMED
  {
    Repeat(AMP, j) + Tail(k)
  }

  lemma AmpBodyFacts(j: nat, k: nat)
    requires k < FIRST_NAMED
    ensures AmpBody(j, k) != "" && Clean(AmpBody(j, k)) && |AmpBody(j, k)| >= 4
    ensures j > 0 ==> AmpBody(j, k)[0] == 'a'
    ensures j == 0 ==> AmpBody(j, k) == Tail(k)
  {
    TailFacts(k);
    WordsAreClean();
    CleanRepeat(AMP, j);
    CleanConcat(Repeat(AMP, j), Tail(k));
  }

  /** "&", a chain of "#38;", a chain of "amp;", and a numeric tail. */
  function Spelling(i: nat, j: nat, k: nat): string
    requires k < FIRST_NAMED
  {
    Chain(NUM, i, AmpBody(j, k))
  }

  lemma SpellingFacts(i: nat, j: nat, k: nat)
    requires k < FIRST_NAMED
    ensures var body := Repeat(NUM, i) + AmpBody(j, k); Spelling(i, j, k) == "&" + body && body != "" && Clean(body)
    ensures i > 0 ==> |Spelling(i, j, k)| > 3 && Spelling(i, j, k)[3] == '8'
    ensures |Spelling(i, j, k)| > 1 && (Spelling(i, j, k)[1] == '#' <==> i > 0 || j == 0)
    ensures i == 0 ==> Spelling(i, j, k) == "&" + AmpBody(j, k)
  {
    AmpBodyFacts(j, k);
    WordsAreClean();
    CleanRepeat(NUM, i);
    CleanConcat(Repeat(NUM, i), AmpBody(j, k));
    if i > 0 {
      ChainLonger(NUM, i - 1, AmpBody(j, k));
      var long := "&" + (NUM + (Repeat(NUM, i - 1) + AmpBody(j, k)));
      assert long[1] == NUM[0] && long[3] == NUM[2];
    } else {
      TailFacts(k);
      assert ("&" + AmpBody(j, k))[1] == AmpBody(j, k)[0];
    }
  }

  // ---------------------------------------------------------------- tracing a numeric entity back through the passes

  /** Passes 6 to 9 do not touch it. */
  lemma {:induction false} LastPasses(s: string, n: nat, k: nat)
    requires FIRST_AMP < n <= |ENTITIES| && k < FIRST_NAMED
    ensures Occurs(After(s, n), "&" + Tail(k)) <==> Occurs(After(s, FIRST_AMP + 1), "&" + Tail(k))
  {
    if n > FIRST_AMP + 1 {
      LastPasses(s, n - 1, k);
      TailFacts(k);
      NamesDiffer(k, n - 1);
      NeutralPass(s, n - 1, Tail(k));
    }
  }

  /** Pass 5 takes the chain of "amp;" away. */
  lemma AmpPass(s: string, k: nat)
    requires k < FIRST_NAMED
    ensures Occurs(After(s, FIRST_AMP + 1), "&" + Tail(k)) <==> exists j: nat :: Occurs(After(s, FIRST_AMP), "&" + AmpBody(j, k))
  {
    WordFacts();
    WordsAreClean();
    TailFacts(k);
    assert ("&" + AMP)[1] != ("&" + Tail(k))[1];
    PassShortens(After(s, FIRST_AMP), ENTITIES[FIRST_AMP], AMP, Tail(k));
    assert forall j: nat :: Chain(AMP, j, Tail(k)) == "&" + AmpBody(j, k);
  }

  /** Which chains of "amp;" get through passes 2 to 4: a bare tail other than that of "&#34;" was replaced. */
  predicate Survives(j: nat, k: nat) {
    j > 0 || k == 0
  }

  lemma AmpKeyDiffers(j: nat, k: nat, n: nat)
    requires k < FIRST_NAMED && n < FIRST_NAMED && Survives(j, k) && (j > 0 || n > 0)
    ensures Differ(ENTITIES[n].name, "&" + AmpBody(j, k))
  {
    AmpBodyFacts(j, k);
    if j > 0 {
      NumericName(n);
      assert ENTITIES[n].name[1] != ("&" + AmpBody(j, k))[1];
    } else {
      TailFacts(k);
      NamesDiffer(k, n);
    }
  }

  lemma {:induction false} MiddlePasses(s: string, n: nat, j: nat, k: nat)
    requires 2 <= n <= FIRST_AMP && k < FIRST_NAMED && Survives(j, k)
    ensures Occurs(After(s, n), "&" + AmpBody(j, k)) <==> Occurs(After(s, 2), "&" + AmpBody(j, k))
  {
    if n > 2 {
      MiddlePasses(s, n - 1, j, k);
      AmpBodyFacts(j, k);
      AmpKeyDiffers(j, k, n - 1);
      NeutralPass(s, n - 1, AmpBody(j, k));
    }
  }

  /** A numeric entity is gone after its own pass, up to the pass for "&amp;". */
  lemma {:induction false} GoneAfterPass(s: string, n: nat, k: nat)
    requires 0 < k < FIRST_NAMED && k < n <= FIRST_AMP
    ensures !Occurs(After(s, n), ENTITIES[k].name)
  {
    TailFacts(k);
    if n == k + 1 {
      RewriteRemoves(After(s, k), ENTITIES[k]);
    } else {
      GoneAfterPass(s, n - 1, k);
      NamesDiffer(k, n - 1);
      NeutralPass(s, n - 1, Tail(k));
    }
  }

  /** Pass 1 takes the chain of "#38;" away. */
  lemma NumPass(s: string, j: nat, k: nat)
    requires k < FIRST_NAMED && Survives(j, k)
    ensures Occurs(After(s, 2), "&" + AmpBody(j, k)) <==> exists i: nat :: Occurs(After(s, 1), Spelling(i, j, k))
  {
    WordFacts();
    WordsAreClean();
    AmpBodyFacts(j, k);
    AmpKeyDiffers(j, k, 1);
    PassShortens(After(s, 1), ENTITIES[1], NUM, AmpBody(j, k));
    if HasChain(After(s, 1), NUM, AmpBody(j, k)) {
      var i: nat :| Occurs(After(s, 1), Chain(NUM, i, AmpBody(j, k)));
      assert Occurs(After(s, 1), Spelling(i, j, k));
    }
  }

  /** Pass 0 leaves alone what has a chain, and a bare "&#34;" is gone. */
  lemma FirstPass(s: string, i: nat, j: nat, k: nat)
    requires k < FIRST_NAMED && Survives(j, k)
    ensures Occurs(After(s, 1), Spelling(i, j, k)) <==> i + j > 0 && Occurs(s, Spelling(i, j, k))
  {
    SpellingFacts(i, j, k);
    if i + j == 0 {
      AmpBodyFacts(j, k);
      TailFacts(0);
      RewriteRemoves(s, ENTITIES[0]);
    } else {
      var key := Spelling(i, j, k);
      if i > 0 {
        assert ENTITIES[0].name[3] != key[3];
      } else {
        AmpKeyDiffers(j, k, 0);
      }
      NeutralPass(s, 0, Repeat(NUM, i) + AmpBody(j, k));
    }
  }

  /** The spellings that turn into the numeric entity k: any chain before "#34;", and for the other four
      one with at least one "amp;", since "&#38;" alone is decoded before them. */
  predicate Delayed(i: nat, j: nat, k: nat) {
    k < FIRST_NAMED && i + j > 0 && Survives(j, k)
  }

  /** A numeric entity is left over exactly if the text spelled it behind such a chain. */
  lemma LeftOver(s: string, k: nat)
    requires k < FIRST_NAMED
    ensures Occurs(Unescaped(s), ENTITIES[k].name)
       <==> exists i: nat, j: nat :: Delayed(i, j, k) && Occurs(s, Spelling(i, j, k))
  {
    AfterAll(s, |ENTITIES|);
    LastPasses(s, |ENTITIES|, k);
    AmpPass(s, k);
    TailFacts(k);
    if Occurs(Unescaped(s), ENTITIES[k].name) {
      var j: nat :| Occurs(After(s, FIRST_AMP), "&" + AmpBody(j, k));
      AmpBodyFacts(j, k);
      if k > 0 {
        GoneAfterPass(s, FIRST_AMP, k);
      }
      MiddlePasses(s, FIRST_AMP, j, k);
      NumPass(s, j, k);
      var i: nat :| Occurs(After(s, 1), Spelling(i, j, k));
      FirstPass(s, i, j, k);
      assert Delayed(i, j, k);
    }
    if i: nat, j: nat :| Delayed(i, j, k) && Occurs(s, Spelling(i, j, k)) {
      FirstPass(s, i, j, k);
      NumPass(s, j, k);
      MiddlePasses(s, FIRST_AMP, j, k);
    }
  }

  /** A second unescaping changes nothing exactly if the text spells no delayed entity. */
  lemma IdempotentExactly(s: string)
    ensures Unescaped(Unescaped(s)) == Unescaped(s)
       <==> !exists i: nat, j: nat, k: nat :: Delayed(i, j, k) && Occurs(s, Spelling(i, j, k))
  {
    FixedPoints(Unescaped(s));
    UnescapedIsFreeOfNamed(s);
    forall k: nat | k < FIRST_NAMED
      ensures Occurs(Unescaped(s), ENTITIES[k].name)
         <==> exists i: nat, j: nat :: Delayed(i, j, k) && Occurs(s, Spelling(i, j, k))
    {
      LeftOver(s, k);
    }
  }

  /** The shortest text with such a spelling. */
  lemma NotIdempotent()
    ensures var s := "&amp;#34;"; Unescaped(Unescaped(s)) != Unescaped(s)
  {
    var s := "&amp;#34;";
    SpellingFacts(0, 1, 0);
    assert Repeat(AMP, 1) == AMP + Repeat(AMP, 0);
    assert OccursAt(s, Spelling(0, 1, 0), 0);
    assert Delayed(0, 1, 0);
    IdempotentExactly(s);
  }

  // ---------------------------------------------------------------- escaped texts

  lemma CleanIsNotCoded(c: char)
    requires c !in "&\"'<>"
    ensures c !in NAMED && EncodeChar(NAMED, c) == [c]
  {
  }

  /** Clean text is escaped to itself. */
  lemma {:induction false} CleanStays(body: string, r: string)
    requires Clean(body) && body <= r
    ensures body <= Encode(NAMED, r)
  {
    if body != "" {
      assert body[0] in body && forall c | c in body[1..] :: c in body;
      CleanIsNotCoded(r[0]);
      CleanStays(body[1..], r[1..]);
      CommonFront([r[0]], body[1..], Encode(NAMED, r[1..]));
      assert body == [r[0]] + body[1..];
    }
  }

  lemma CleanWas(body: string, r: string)
    requires Clean(body) && body <= Encode(NAMED, r)
    ensures body <= r
  {
    NamedDecodable();
    forall d | d in body ensures d !in NAMED {
      CleanIsNotCoded(d);
    }
    assert Encode(NAMED, r) + Encode(NAMED, "") == Encode(NAMED, r) && r + "" == r;
    PlainPrefix(NAMED, r, NAMED, "", body);
  }

  /** What the code of a character can have in common with an escaped ampersand. */
  lemma CodeOfAmp(c: char, rest: string, body: string, q: nat)
    requires var first := HtmlCode(c); q < |first| && OccursAt(first + rest, "&" + (AMP + body), q)
    ensures q == 0 && c == '&' && body <= rest
  {
    var first, key := HtmlCode(c), "&" + (AMP + body);
    assert (first + rest)[q + 0] == key[0] == '&' && (first + rest)[q] == first[q];
    if c in NAMED {
      NamedSpelling(c);
    }
    assert q == 0;
    assert forall i | 0 <= i < |first| && i < |key| :: (first + rest)[0 + i] == first[i] && key[i] == first[i];
    assert key[1] == 'a' && key[2] == 'm';
    assert c == '&';
    OccursAsPrefix(first + rest, key, 0);
    assert (first + rest)[0..] == first + rest;
    assert key == first + body;
    CommonFront(first, body, rest);
  }

  lemma {:induction false} EscapedBack(s: string, body: string, q: nat)
    requires Clean(body) && OccursAt(Encode(NAMED, s), "&" + (AMP + body), q)
    ensures Occurs(s, "&" + body)
    decreases |s|
  {
    var key, first, tail := "&" + (AMP + body), HtmlCode(s[0]), Encode(NAMED, s[1..]);
    assert Encode(NAMED, s) == first + tail;
    assert s == [s[0]] + s[1..];
    if |first| <= q {
      OccursInTail(first, tail, key, q);
      EscapedBack(s[1..], body, q - |first|);
      OccursOneOn(s[0], s[1..], "&" + body);
    } else {
      CodeOfAmp(s[0], tail, body, q);
      CleanWas(body, s[1..]);
      assert ("&" + body)[1..] == body;
      OccursAtFront(s[1..], "&" + body);
    }
  }

  lemma {:induction false} EscapedForth(s: string, body: string, q: nat)
    requires Clean(body) && OccursAt(s, "&" + body, q)
    ensures Occurs(Encode(NAMED, s), "&" + (AMP + body))
    decreases |s|
  {
    var key, first, tail := "&" + (AMP + body), HtmlCode(s[0]), Encode(NAMED, s[1..]);
    assert Encode(NAMED, s) == first + tail;
    assert s == [s[0]] + s[1..];
    if q > 0 {
      OccursInTail([s[0]], s[1..], "&" + body, q);
      EscapedForth(s[1..], body, q - 1);
      var p: nat :| OccursAt(tail, key, p);
      OccursInTail(first, tail, key, |first| + p);
    } else {
      OccursAsPrefix(s, "&" + body, 0);
      assert s[0..] == s && s[0] == ("&" + body)[0];
      CommonFront("&", body, s[1..]);
      CleanStays(body, s[1..]);
      AmpInFront(tail, body);
    }
  }

  lemma AmpInFront(tail: string, body: string)
    requires body <= tail
    ensures OccursAt(HtmlCode('&') + tail, "&" + (AMP + body), 0)
  {
    var first, key := HtmlCode('&'), "&" + (AMP + body);
    assert key == first + body;
    CommonFront(first, body, tail);
    OccursAsPrefix(first + tail, key, 0);
    assert (first + tail)[0..] == first + tail;
  }

  /** Escaped text has no "&#", so only chains of "amp;" count. */
  lemma NoNumInEscaped(s: string, i: nat, j: nat, k: nat)
    requires k < FIRST_NAMED && Occurs(Encode(NAMED, s), Spelling(i, j, k))
    ensures i == 0 && j > 0
  {
    var q: nat :| OccursAt(Encode(NAMED, s), Spelling(i, j, k), q);
    var key := Spelling(i, j, k);
    SpellingFacts(i, j, k);
    assert Encode(NAMED, s)[q + 0] == key[0] && Encode(NAMED, s)[q + 1] == key[1];
    EscapedHasNoNumeric(s, q);
  }

  lemma DelayedInEscaped(s: string, i: nat, j: nat, k: nat)
    requires Delayed(i, j, k) && Occurs(Encode(NAMED, s), Spelling(i, j, k))
    ensures j > 0 && Occurs(s, "&" + AmpBody(j - 1, k))
  {
    NoNumInEscaped(s, i, j, k);
    SpellingFacts(i, j, k);
    AmpBodyFacts(j - 1, k);
    AmpBodyLonger(j - 1, k);
    var q: nat :| OccursAt(Encode(NAMED, s), Spelling(i, j, k), q);
    EscapedBack(s, AmpBody(j - 1, k), q);
  }

  lemma DelayedByEscaping(s: string, j: nat, k: nat)
    requires k < FIRST_NAMED && Occurs(s, "&" + AmpBody(j, k))
    ensures Delayed(0, j + 1, k) && Occurs(Encode(NAMED, s), Spelling(0, j + 1, k))
  {
    AmpBodyFacts(j, k);
    AmpBodyLonger(j, k);
    SpellingFacts(0, j + 1, k);
    var q: nat :| OccursAt(s, "&" + AmpBody(j, k), q);
    EscapedForth(s, AmpBody(j, k), q);
  }

  /** Unescaping an escaped text a second time changes it again exactly if the text itself spelled a numeric
      entity, or one behind a chain of "amp;". */
  lemma SecondUnescape(s: string)
    ensures var once := Unescaped(Encode(NAMED, s));
      Unescaped(once) == once <==> !exists j: nat, k: nat :: k < FIRST_NAMED && Occurs(s, "&" + AmpBody(j, k))
  {
    var e := Encode(NAMED, s);
    IdempotentExactly(e);
    if i: nat, j: nat, k: nat :| Delayed(i, j, k) && Occurs(e, Spelling(i, j, k)) {
      DelayedInEscaped(s, i, j, k);
    }
    if j: nat, k: nat :| k < FIRST_NAMED && Occurs(s, "&" + AmpBody(j, k)) {
      DelayedByEscaping(s, j, k);
    }
  }

  lemma AmpBodyLonger(j: nat, k: nat)
    requires k < FIRST_NAMED
    ensures AmpBody(j + 1, k) == AMP + AmpBody(j, k)
  {
    assert AMP + Repeat(AMP, j) + Tail(k) == AMP + (Repeat(AMP, j) + Tail(k));
  }
}
