/** The word-length fingerprint of a page (util/html_fingerprint.cc), and the set of those of missing pages (datastore.cc). */
module Fingerprints {
  import opened Splitting
  import opened Numerals

  const SIZE: nat := 16
  const BUCKET_DIFF: nat := 5
  const TOTAL_DIFF: nat := 3
  const BUCKET_FAILS: nat := 3
  const WORD: nat := 0x1_0000_0000

  // ---------------------------------------------------------------- counting

  predicate Counters(c: seq<nat>) {
    |c| == SIZE && forall i | 0 <= i < |c| :: c[i] < WORD
  }

  function Bucket(word: string): nat {
    |word| % SIZE
  }

  /** The counters are 32 bits wide and wrap around. */
  function AfterWord(c: seq<nat>, word: string): (r: seq<nat>)
    requires Counters(c)
    ensures Counters(r)
  {
    c[Bucket(word) := (c[Bucket(word)] + 1) % WORD]
  }

  function Counted(words: seq<string>): (c: seq<nat>)
    ensures Counters(c)
  {
    if words == [] then seq(SIZE, _ => 0) else AfterWord(Counted(words[..|words| - 1]), words[|words| - 1])
  }

  function Buckets(words: seq<string>): seq<nat> {
    if words == [] then [] else Buckets(words[..|words| - 1]) + [Bucket(words[|words| - 1])]
  }

  lemma WrapNext(n: nat)
    ensures (n % WORD + 1) % WORD == (n + 1) % WORD
  {
  }

  lemma CountNext(bs: seq<nat>, x: nat, b: nat)
    ensures multiset(bs + [x])[b] == multiset(bs)[b] + if x == b then 1 else 0
  {
  }

  /** Counter b holds the number of words whose length is b modulo 16, whatever their order. */
  lemma {:induction false} CountersAreMultiplicities(words: seq<string>, b: nat)
    requires b < SIZE
    ensures Counted(words)[b] == multiset(Buckets(words))[b] % WORD
  {
    if words != [] {
      var front, word := words[..|words| - 1], words[|words| - 1];
      CountersAreMultiplicities(front, b);
      CountNext(Buckets(front), Bucket(word), b);
      WrapNext(multiset(Buckets(front))[b]);
    }
  }

  /** The words whose length is b modulo 16. */
  ghost function OfLength(words: seq<string>, b: nat): set<nat> {
    set i: nat | i < |words| && |words[i]| % 16 == b
  }

  /** Counter b is the number of those words modulo 2^32. */
  lemma {:induction false} CountersCountLengths(words: seq<string>, b: nat)
    requires b < 16
    ensures Counted(words)[b] == |OfLength(words, b)| % 0x1_0000_0000
  {
    if words != [] {
      var n := |words| - 1;
      CountersCountLengths(words[..n], b);
      assert OfLength(words, b) == OfLength(words[..n], b) + if |words[n]| % 16 == b then {n} else {};
      WrapNext(|OfLength(words[..n], b)|);
    }
  }

  lemma OrderDoesNotMatter(v: seq<string>, w: seq<string>)
    requires multiset(Buckets(v)) == multiset(Buckets(w))
    ensures Counted(v) == Counted(w)
  {
    forall b | 0 <= b < SIZE
      ensures Counted(v)[b] == Counted(w)[b]
    {
      CountersAreMultiplicities(v, b);
      CountersAreMultiplicities(w, b);
    }
  }

  // ---------------------------------------------------------------- printing

  function Printed(c: seq<nat>): string {
    if c == [] then "" else Printed(c[..|c| - 1]) + Decimal(c[|c| - 1]) + " "
  }

  function Decimals(c: seq<nat>): (r: seq<string>)
    ensures |r| == |c| && forall i | 0 <= i < |c| :: r[i] == Decimal(c[i])
  {
    seq(|c|, i requires 0 <= i < |c| => Decimal(c[i]))
  }

  lemma PrintedSnoc(c: seq<nat>, x: nat, tail: string)
    ensures Printed(c + [x]) + tail == Printed(c) + (Decimal(x) + [' '] + tail)
  {
    assert (c + [x])[..|c|] == c;
  }

  lemma DecimalsSnoc(c: seq<nat>, x: nat, tail: seq<string>)
    ensures Decimals(c + [x]) + tail == Decimals(c) + ([Decimal(x)] + tail)
  {
  }

  lemma NumeralFirst(x: nat, tail: string)
    ensures Split(Decimal(x) + [' '] + tail, {' '}) == [Decimal(x)] + Split(tail, {' '})
  {
    SplitFirst(Decimal(x), ' ', tail, {' '});
  }

  lemma {:induction false} PrintedPieces(c: seq<nat>, tail: string)
    ensures Split(Printed(c) + tail, {' '}) == Decimals(c) + Split(tail, {' '})
  {
    if c == [] {
      assert Printed(c) + tail == tail;
      assert Decimals(c) + Split(tail, {' '}) == Split(tail, {' '});
    } else {
      var front, x := c[..|c| - 1], c[|c| - 1];
      assert c == front + [x];
      PrintedSnoc(front, x, tail);
      PrintedPieces(front, Decimal(x) + [' '] + tail);
      NumeralFirst(x, tail);
      DecimalsSnoc(front, x, Split(tail, {' '}));
    }
  }

  /** Different counters print differently. */
  lemma PrintedIsInjective(c: seq<nat>, d: seq<nat>)
    requires Printed(c) == Printed(d)
    ensures c == d
  {
    PrintedPieces(c, "");
    PrintedPieces(d, "");
    var nc, nd := Decimals(c), Decimals(d);
    assert nc == (nc + [""])[..|nc + [""]| - 1] && nd == (nd + [""])[..|nd + [""]| - 1];
    forall i | 0 <= i < |c|
      ensures c[i] == d[i]
    {
      assert nc[i] == nd[i];
      NumberOfDecimal(c[i]);
      NumberOfDecimal(d[i]);
    }
  }

  // ---------------------------------------------------------------- comparing

  /** |int32(a - b)| in 32-bit arithmetic. */
  function Diff(a: nat, b: nat): (d: nat)
    ensures d < WORD
  {
    var d := (a - b) % WORD;
    if d < WORD / 2 then d else WORD - d
  }

  function Scale(a: nat, b: nat): (s: nat)
    ensures s < WORD
  {
    (a + b) % WORD
  }

  function Percent(scale: nat, percentage: nat): nat {
    (scale * percentage) % WORD / 100
  }

  predicate BucketFails(a: nat, b: nat) {
    Diff(a, b) >= 1 + Percent(Scale(a, b), BUCKET_DIFF)
  }

  function FailedAmong(c: seq<nat>, d: seq<nat>, n: nat): nat
    requires n <= |c| && n <= |d|
  {
    if n == 0 then 0 else FailedAmong(c, d, n - 1) + if BucketFails(c[n - 1], d[n - 1]) then 1 else 0
  }

  function TotalDiff(c: seq<nat>, d: seq<nat>, n: nat): (t: nat)
    requires n <= |c| && n <= |d|
    ensures t < WORD
  {
    if n == 0 then 0 else (TotalDiff(c, d, n - 1) + Diff(c[n - 1], d[n - 1])) % WORD
  }

  function TotalScale(c: seq<nat>, d: seq<nat>, n: nat): (t: nat)
    requires n <= |c| && n <= |d|
    ensures t < WORD
  {
    if n == 0 then 0 else (TotalScale(c, d, n - 1) + Scale(c[n - 1], d[n - 1])) % WORD
  }

  predicate Similar(c: seq<nat>, d: seq<nat>)
    requires |c| == |d|
  {
    && FailedAmong(c, d, |c|) <= BUCKET_FAILS
    && TotalDiff(c, d, |c|) < 1 + Percent(TotalScale(c, d, |c|), TOTAL_DIFF)
  }

  lemma {:induction false} FailuresGrow(c: seq<nat>, d: seq<nat>, n: nat, m: nat)
    requires n <= m <= |c| && |c| == |d|
    ensures FailedAmong(c, d, n) <= FailedAmong(c, d, m)
  {
    if n < m {
      FailuresGrow(c, d, n, m - 1);
    }
  }

  lemma {:induction false} SelfTotals(c: seq<nat>, n: nat)
    requires n <= |c|
    ensures FailedAmong(c, c, n) == 0 && TotalDiff(c, c, n) == 0
  {
    if n > 0 {
      SelfTotals(c, n - 1);
      assert Diff(c[n - 1], c[n - 1]) == 0;
    }
  }

  lemma SimilarReflexive(c: seq<nat>)
    ensures Similar(c, c)
  {
    SelfTotals(c, |c|);
  }

  lemma DiffSymmetric(a: nat, b: nat)
    ensures Diff(a, b) == Diff(b, a) && Scale(a, b) == Scale(b, a)
  {
    var d, e := (a - b) % WORD, (b - a) % WORD;
    assert a - b == (a - b) / WORD * WORD + d && b - a == (b - a) / WORD * WORD + e;
  }

  lemma {:induction false} TotalsSymmetric(c: seq<nat>, d: seq<nat>, n: nat)
    requires n <= |c| && |c| == |d|
    ensures FailedAmong(c, d, n) == FailedAmong(d, c, n)
    ensures TotalDiff(c, d, n) == TotalDiff(d, c, n) && TotalScale(c, d, n) == TotalScale(d, c, n)
  {
    if n > 0 {
      TotalsSymmetric(c, d, n - 1);
      DiffSymmetric(c[n - 1], d[n - 1]);
    }
  }

  lemma SimilarSymmetric(c: seq<nat>, d: seq<nat>)
    requires |c| == |d|
    ensures Similar(c, d) <==> Similar(d, c)
  {
    TotalsSymmetric(c, d, |c|);
  }

  // ---------------------------------------------------------------- without wrap-around

  function Apart(a: nat, b: nat): nat {
    if a < b then b - a else a - b
  }

  function Words(c: seq<nat>, n: nat): nat
    requires n <= |c|
  {
    if n == 0 then 0 else Words(c, n - 1) + c[n - 1]
  }

  function Distance(c: seq<nat>, d: seq<nat>, n: nat): nat
    requires n <= |c| && n <= |d|
  {
    if n == 0 then 0 else Distance(c, d, n - 1) + Apart(c[n - 1], d[n - 1])
  }

  /** How many buckets differ by more than a twentieth of their sum. */
  function FarApart(c: seq<nat>, d: seq<nat>, n: nat): nat
    requires n <= |c| && n <= |d|
  {
    if n == 0 then 0 else FarApart(c, d, n - 1) + if 20 * Apart(c[n - 1], d[n - 1]) > c[n - 1] + d[n - 1] then 1 else 0
  }

  lemma SmallBucket(a: nat, b: nat)
    requires 5 * (a + b) < WORD
    ensures Diff(a, b) == Apart(a, b) && Scale(a, b) == a + b
    ensures BucketFails(a, b) <==> 20 * Apart(a, b) > a + b
  {
    SmallDifference(a, b);
    SmallPercent(a + b, 5);
  }

  lemma SmallDifference(a: nat, b: nat)
    requires a + b < WORD / 2
    ensures Diff(a, b) == Apart(a, b)
  {
    if a < b {
      assert (a - b) % WORD == a - b + WORD;
    }
  }

  lemma SmallPercent(s: nat, p: nat)
    requires s * p < WORD
    ensures Percent(s, p) == s * p / 100
  {
  }

  lemma {:induction false} SmallFailures(c: seq<nat>, d: seq<nat>, n: nat)
    requires n <= |c| && |c| == |d| && 5 * (Words(c, n) + Words(d, n)) < WORD
    ensures FailedAmong(c, d, n) == FarApart(c, d, n)
  {
    if n > 0 {
      SmallFailures(c, d, n - 1);
      SmallBucket(c[n - 1], d[n - 1]);
    }
  }

  lemma SmallSum(total: nat, more: nat)
    requires total + more < WORD
    ensures (total + more) % WORD == total + more
  {
  }

  lemma {:induction false} DistanceBound(c: seq<nat>, d: seq<nat>, n: nat)
    requires n <= |c| && |c| == |d|
    ensures Distance(c, d, n) <= Words(c, n) + Words(d, n)
  {
    if n > 0 {
      DistanceBound(c, d, n - 1);
    }
  }

  lemma {:induction false} SmallTotalDiff(c: seq<nat>, d: seq<nat>, n: nat)
    requires n <= |c| && |c| == |d| && 5 * (Words(c, n) + Words(d, n)) < WORD
    ensures TotalDiff(c, d, n) == Distance(c, d, n)
  {
    if n > 0 {
      SmallTotalDiff(c, d, n - 1);
      SmallDifference(c[n - 1], d[n - 1]);
      DistanceBound(c, d, n);
      SmallSum(Distance(c, d, n - 1), Apart(c[n - 1], d[n - 1]));
    }
  }

  lemma {:induction false} SmallTotalScale(c: seq<nat>, d: seq<nat>, n: nat)
    requires n <= |c| && |c| == |d| && Words(c, n) + Words(d, n) < WORD
    ensures TotalScale(c, d, n) == Words(c, n) + Words(d, n)
  {
    if n > 0 {
      SmallTotalScale(c, d, n - 1);
      SmallSum(c[n - 1], d[n - 1]);
      SmallSum(Words(c, n - 1) + Words(d, n - 1), c[n - 1] + d[n - 1]);
    }
  }

  lemma {:induction false} TotalsApart(c: seq<nat>, d: seq<nat>, n: nat)
    requires n <= |c| && |c| == |d|
    ensures Apart(Words(c, n), Words(d, n)) <= Distance(c, d, n)
  {
    if n > 0 {
      TotalsApart(c, d, n - 1);
    }
  }

  /** As long as nothing wraps, the comparison means: at most three buckets differ by more than five percent
      of their sum, and the differences together are at most three percent of all words. */
  lemma {:induction false} SimilarMeaning(c: seq<nat>, d: seq<nat>)
    requires |c| == |d| && 5 * (Words(c, |c|) + Words(d, |d|)) < WORD
    ensures Similar(c, d) <==>
      FarApart(c, d, |c|) <= 3 && 100 * Distance(c, d, |c|) <= 3 * (Words(c, |c|) + Words(d, |d|))
  {
    SmallFailures(c, d, |c|);
    SmallTotalDiff(c, d, |c|);
    SmallTotalScale(c, d, |c|);
    SmallPercent(Words(c, |c|) + Words(d, |d|), 3);
  }

  lemma SimilarTotals(c: seq<nat>, d: seq<nat>)
    requires |c| == |d| && 5 * (Words(c, |c|) + Words(d, |d|)) < WORD && Similar(c, d)
    ensures 100 * Apart(Words(c, |c|), Words(d, |d|)) <= 3 * (Words(c, |c|) + Words(d, |d|))
  {
    SimilarMeaning(c, d);
    TotalsApart(c, d, |c|);
  }

  // ---------------------------------------------------------------- the classes

  class HtmlFingerprint {
    const counts: array<nat>

    ghost predicate Valid()
      reads counts
    {
      counts.Length == SIZE && Counters(counts[..])
    }

    constructor ()
      ensures Valid() && fresh(counts) && counts[..] == Counted([])
    {
      counts := new nat[SIZE](_ => 0);
      new;
      assert counts[..] == Counted([]);
    }

    /** If the counters held those of some words, they hold those of one more. */
    method AddWord(word: string)
      requires Valid()
      modifies counts
      ensures Valid() && counts[..] == AfterWord(old(counts[..]), word)
      ensures forall words :: old(counts[..]) == Counted(words) ==> counts[..] == Counted(words + [word])
    {
      ghost var before := counts[..];
      counts[|word| % SIZE] := (counts[|word| % SIZE] + 1) % WORD;
      assert counts[..] == AfterWord(before, word);
      forall words | before == Counted(words)
        ensures AfterWord(before, word) == Counted(words + [word])
      {
        assert (words + [word])[..|words|] == words;
      }
    }

    method ToString(output: string) returns (output': string)
      requires Valid()
      ensures output' == output + Printed(counts[..])
    {
      output' := output;
      for i := 0 to SIZE
        invariant output' == output + Printed(counts[..i])
      {
        assert counts[..i + 1][..i] == counts[..i];
        output' := output' + (Decimal(counts[i]) + " ");
      }
      assert counts[..SIZE] == counts[..];
    }

    /** The early return agrees with counting all failures. */
    method Equals(fp: HtmlFingerprint) returns (equal: bool)
      requires Valid() && fp.Valid()
      ensures equal == Similar(counts[..], fp.counts[..])
    {
      ghost var c, d := counts[..], fp.counts[..];
      var failed, totalDiff, totalScale := 0, 0, 0;
      for i := 0 to SIZE
        invariant failed == FailedAmong(c, d, i) <= BUCKET_FAILS
        invariant totalDiff == TotalDiff(c, d, i) && totalScale == TotalScale(c, d, i)
      {
        var diff := Diff(counts[i], fp.counts[i]);
        var scale := Scale(counts[i], fp.counts[i]);
        if diff >= 1 + Percent(scale, BUCKET_DIFF) {
          failed := failed + 1;
          if failed > BUCKET_FAILS {
            FailuresGrow(c, d, i + 1, SIZE);
            return false;
          }
        }
        totalDiff := (totalDiff + diff) % WORD;
        totalScale := (totalScale + scale) % WORD;
      }
      return totalDiff < 1 + Percent(totalScale, TOTAL_DIFF);
    }
  }

  class NotFoundPages {
    var fingerprints: set<string>
    ghost var known: set<seq<nat>>

    ghost predicate Valid()
      reads this
    {
      fingerprints == set c | c in known :: Printed(c)
    }

    constructor ()
      ensures Valid() && known == {}
    {
      fingerprints, known := {}, {};
    }

    method AddFileNotFoundHtmlFingerprint(fp: HtmlFingerprint)
      requires Valid() && fp.Valid()
      modifies this
      ensures Valid() && known == old(known) + {fp.counts[..]}
    {
      var text := fp.ToString("");
      assert "" + Printed(fp.counts[..]) == Printed(fp.counts[..]);
      fingerprints := fingerprints + {text};
      known := known + {fp.counts[..]};
    }

    /** The printed set knows a fingerprint exactly if one with the same counters was stored. */
    method IsFileNotFoundHtmlFingerprint(fp: HtmlFingerprint?) returns (found: bool)
      requires Valid() && (fp != null ==> fp.Valid())
      ensures found <==> fp != null && fp.counts[..] in known
    {
      if fp == null {
        return false;
      }
      var text := fp.ToString("");
      assert "" + Printed(fp.counts[..]) == Printed(fp.counts[..]);
      found := text in fingerprints;
      if found {
        ghost var c :| c in known && Printed(c) == text;
        PrintedIsInjective(c, fp.counts[..]);
      }
    }
  }
}
