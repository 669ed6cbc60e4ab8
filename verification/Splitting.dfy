/** Splitting text at separators (absl::StrSplit), and putting it together again. */
module Splitting {

  function Split(s: string, seps: set<char>): (pieces: seq<string>)
    ensures |pieces| >= 1
  {
    if s == "" then [""] else
      var rest := Split(s[1..], seps);
      if s[0] in seps then [""] + rest else [[s[0]] + rest[0]] + rest[1..]
  }

  function Join(pieces: seq<string>, sep: string): string
    requires |pieces| >= 1
  {
    if |pieces| == 1 then pieces[0] else pieces[0] + sep + Join(pieces[1..], sep)
  }

  /** The SkipEmpty filter. */
  function NonEmpty(pieces: seq<string>): seq<string> {
    if pieces == [] then [] else (if pieces[0] == "" then [] else [pieces[0]]) + NonEmpty(pieces[1..])
  }

  /** substr(at, size), which stops at the end of the text. */
  function Substr(s: string, at: nat, size: nat): string
    requires at <= |s|
  {
    s[at..if at + size <= |s| then at + size else |s|]
  }

  predicate FreeOf(s: string, seps: set<char>) {
    forall c | c in s :: c !in seps
  }

  predicate AllFree(pieces: seq<string>, seps: set<char>) {
    forall p | p in pieces :: FreeOf(p, seps)
  }

  lemma {:induction false} PiecesAreFree(s: string, seps: set<char>)
    ensures AllFree(Split(s, seps), seps)
  {
    if s != "" {
      PiecesAreFree(s[1..], seps);
      var rest := Split(s[1..], seps);
      assert rest[0] in rest && forall p | p in rest[1..] :: p in rest;
    }
  }

  lemma {:induction false} SplitPlain(plain: string, tail: string, seps: set<char>)
    requires FreeOf(plain, seps)
    ensures Split(plain + tail, seps) == [plain + Split(tail, seps)[0]] + Split(tail, seps)[1..]
  {
    if plain == "" {
      assert plain + tail == tail && plain + Split(tail, seps)[0] == Split(tail, seps)[0];
    } else {
      assert (plain + tail)[1..] == plain[1..] + tail;
      SplitPlain(plain[1..], tail, seps);
      assert plain[0] in plain;
      assert [plain[0]] + (plain[1..] + Split(tail, seps)[0]) == plain + Split(tail, seps)[0];
    }
  }

  lemma SplitWhole(plain: string, seps: set<char>)
    requires FreeOf(plain, seps)
    ensures Split(plain, seps) == [plain]
  {
    SplitPlain(plain, "", seps);
    assert plain + "" == plain;
  }

  /** A piece, a separator, and the rest. */
  lemma SplitFirst(piece: string, c: char, tail: string, seps: set<char>)
    requires FreeOf(piece, seps) && c in seps
    ensures Split(piece + [c] + tail, seps) == [piece] + Split(tail, seps)
  {
    assert ([c] + tail)[1..] == tail;
    assert piece + [c] + tail == piece + ([c] + tail);
    SplitPlain(piece, [c] + tail, seps);
    assert piece + "" == piece;
    assert Split([c] + tail, seps) == [""] + Split(tail, seps);
  }

  lemma {:induction false} SplitJoined(pieces: seq<string>, sep: char)
    requires |pieces| >= 1 && AllFree(pieces, {sep})
    ensures Split(Join(pieces, [sep]), {sep}) == pieces
  {
    if |pieces| == 1 {
      SplitWhole(pieces[0], {sep});
    } else {
      SplitJoined(pieces[1..], sep);
      SplitFirst(pieces[0], sep, Join(pieces[1..], [sep]), {sep});
    }
  }

  lemma JoinPrefixed(c: char, pieces: seq<string>, sep: string)
    requires |pieces| >= 1
    ensures Join([[c] + pieces[0]] + pieces[1..], sep) == [c] + Join(pieces, sep)
  {
  }

  lemma {:induction false} JoinedSplit(s: string, sep: char)
    ensures Join(Split(s, {sep}), [sep]) == s
  {
    if s != "" {
      JoinedSplit(s[1..], sep);
      var rest := Split(s[1..], {sep});
      if s[0] == sep {
        assert ([""] + rest)[1..] == rest;
      } else {
        JoinPrefixed(s[0], rest, [sep]);
      }
    }
  }

  lemma ConcatFree(a: string, b: string, seps: set<char>)
    requires FreeOf(a, seps) && FreeOf(b, seps)
    ensures FreeOf(a + b, seps)
  {
  }

  lemma {:induction false} NonEmptyConcat(a: seq<string>, b: seq<string>)
    ensures NonEmpty(a + b) == NonEmpty(a) + NonEmpty(b)
  {
    if a == [] {
      assert a + b == b;
    } else {
      assert (a + b)[1..] == a[1..] + b;
      NonEmptyConcat(a[1..], b);
    }
  }

  lemma {:induction false} NonEmptyAre(pieces: seq<string>)
    ensures forall p | p in NonEmpty(pieces) :: p in pieces && p != ""
    ensures (forall p | p in pieces :: p != "") ==> NonEmpty(pieces) == pieces
  {
    if pieces != [] {
      NonEmptyAre(pieces[1..]);
      assert pieces == [pieces[0]] + pieces[1..];
      assert pieces[0] in pieces && forall p | p in pieces[1..] :: p in pieces;
    }
  }
}
