/** The JavaScript quote scanner (parsers/util/scrape_util.cc). */
module Scraping {
  import opened Requests
  import Splitting

  predicate IsQuote(c: char) {
    c == '\'' || c == '"'
  }

  // ---------------------------------------------------------------- quoted text

  /** How many backslashes stand directly before p, not looking at `open` or before it. */
  function Backslashes(s: string, open: nat, p: nat): nat
    requires p <= |s|
  {
    if p <= open + 1 || s[p - 1] != '\\' then 0 else Backslashes(s, open, p - 1) + 1
  }

  /** p holds the same quote as `open`, and an even number of backslashes before it. */
  predicate Closes(s: string, open: nat, p: nat) {
    open < p < |s| && s[p] == s[open] && Backslashes(s, open, p) % 2 == 0
  }

  /** The first closing quote at or after p, or the end of the text. */
  function ClosingFrom(s: string, open: nat, p: nat): (end: nat)
    requires open < p <= |s|
    ensures p <= end <= |s|
    ensures end < |s| ==> Closes(s, open, end)
    ensures forall q | p <= q < end :: !Closes(s, open, q)
    decreases |s| - p
  {
    if p == |s| || Closes(s, open, p) then p else ClosingFrom(s, open, p + 1)
  }

  function TextEnd(s: string, open: nat): (end: nat)
    requires open < |s|
    ensures open < end <= |s|
  {
    ClosingFrom(s, open, open + 1)
  }

  lemma {:induction false} ClosingIsFirst(s: string, open: nat, p: nat, end: nat)
    requires open < p <= end <= |s|
    requires end < |s| ==> Closes(s, open, end)
    requires forall q | p <= q < end :: !Closes(s, open, q)
    ensures ClosingFrom(s, open, p) == end
    decreases |s| - p
  {
    if p < end {
      ClosingIsFirst(s, open, p + 1, end);
    }
  }

  /** Skipping whatever follows a backslash finds the first quote that an even number of backslashes precedes.
      Without such a quote the size is one more than the text that is left. */
  method GetQuotedTextSize(content: string, offset: nat) returns (size: nat)
    requires offset < |content| && IsQuote(content[offset])
    ensures var end := TextEnd(content, offset);
      size == if end < |content| then end - offset - 1 else |content| - offset
  {
    var quote := content[offset];
    var index := 1;
    while index < |content| - offset
      invariant 1 <= index <= |content| - offset + 1
      invariant index <= |content| - offset ==> Backslashes(content, offset, offset + index) % 2 == 0
      invariant forall q | offset + 1 <= q < offset + index :: !Closes(content, offset, q)
    {
      if content[offset + index] == '\\' {
        index := index + 1;
      } else if content[offset + index] == quote {
        ClosingIsFirst(content, offset, offset + 1, offset + index);
        return index - 1;
      }
      index := index + 1;
    }
    ClosingIsFirst(content, offset, offset + 1, |content|);
    return |content| - offset;
  }

  // ---------------------------------------------------------------- the quoted regions of a script

  datatype Region = Region(open: nat, end: nat)

  /** The quoted regions at or after i: a region ends at its closing quote, and the next one starts behind it. */
  function Regions(s: string, i: nat): seq<Region>
    decreases |s| - i
  {
    if i >= |s| then []
    else if IsQuote(s[i]) then [Region(i, TextEnd(s, i))] + Regions(s, TextEnd(s, i) + 1)
    else Regions(s, i + 1)
  }

  function Text(s: string, r: Region): string
    requires r.open < r.end <= |s|
  {
    s[r.open + 1..r.end]
  }

  ghost predicate Quoted(s: string, r: Region) {
    && r.open < r.end <= |s| && IsQuote(s[r.open])
    && (r.end < |s| ==> Closes(s, r.open, r.end))
    && forall q | r.open < q < r.end :: !Closes(s, r.open, q)
  }

  /** Regions run from a quote to the first quote that closes it, and are apart from each other. */
  lemma {:induction false} RegionsAreApart(s: string, i: nat)
    ensures forall r | r in Regions(s, i) :: Quoted(s, r) && i <= r.open
    ensures forall a, b | 0 <= a < b < |Regions(s, i)| :: Regions(s, i)[a].end < Regions(s, i)[b].open
    decreases |s| - i
  {
    if i < |s| {
      if IsQuote(s[i]) {
        RegionsAreApart(s, TextEnd(s, i) + 1);
      } else {
        RegionsAreApart(s, i + 1);
      }
    }
  }

  /** No quote is outside of them. */
  lemma {:induction false} EveryQuoteIsCovered(s: string, i: nat, p: nat)
    requires i <= p < |s| && IsQuote(s[p])
    ensures exists r :: r in Regions(s, i) && r.open <= p <= r.end
    decreases |s| - i
  {
    if !IsQuote(s[i]) {
      EveryQuoteIsCovered(s, i + 1, p);
    } else if p <= TextEnd(s, i) {
      assert Region(i, TextEnd(s, i)) in Regions(s, i);
    } else {
      EveryQuoteIsCovered(s, TextEnd(s, i) + 1, p);
      var r :| r in Regions(s, TextEnd(s, i) + 1) && r.open <= p <= r.end;
      assert r in Regions(s, i);
    }
  }

  // ---------------------------------------------------------------- scraping

  /** The regular expressions: text shaped like a URL, and a keyword that is an XSS payload of some request. */
  datatype Patterns = Patterns(url: string -> bool, payload: string -> Option<int>)

  const SUFFIXES: seq<string> := [".href", ".src", ".action", "location", "location.assign", "window.open"]

  predicate EndsWith(s: string, suffix: string) {
    |suffix| <= |s| && s[|s| - |suffix|..] == suffix
  }

  predicate JsKeywordSuffixMatch(keyword: string) {
    exists suffix | suffix in SUFFIXES :: EndsWith(keyword, suffix)
  }

  predicate KeywordChar(c: char) {
    'a' <= c <= 'z' || 'A' <= c <= 'Z' || '0' <= c <= '9' || c == '.'
  }

  /** The scanner's variables: where a keyword began (-1 for nowhere), the last one, and what was found. */
  datatype Scan = Scan(start: int, keyword: string, anchors: set<string>, issues: seq<int>)

  predicate Sound(st: Scan, i: nat) {
    -1 <= st.start <= i
  }

  /** The text goes in if a keyword asks for it, or if it looks like a URL. */
  function AfterQuote(re: Patterns, st: Scan, size: nat, text: string): Scan {
    if st.keyword == "" || size == 0 then st
    else if JsKeywordSuffixMatch(st.keyword) && text != "" then st.(anchors := st.anchors + {text}, keyword := "")
    else if re.url(text) then st.(anchors := st.anchors + {text})
    else st
  }

  function AfterChar(re: Patterns, st: Scan, s: string, i: nat): Scan
    requires i < |s| && Sound(st, i)
  {
    if KeywordChar(s[i]) then if st.start == -1 then st.(start := i) else st
    else if st.start == -1 then st
    else
      var keyword := s[st.start..i];
      var st' := st.(start := -1, keyword := keyword);
      if re.payload(keyword).Some? then st'.(issues := st'.issues + [re.payload(keyword).value]) else st'
  }

  function RegionSize(s: string, r: Region): nat
    requires r.open < r.end <= |s|
  {
    if r.end < |s| then r.end - r.open - 1 else |s| - r.open
  }

  function ScanFrom(re: Patterns, s: string, i: nat, st: Scan): Scan
    requires Sound(st, i)
    decreases |s| - i
  {
    if i >= |s| then st
    else if IsQuote(s[i]) then
      var r := Region(i, TextEnd(s, i));
      ScanFrom(re, s, r.end + 1, AfterQuote(re, st, RegionSize(s, r), Text(s, r)))
    else ScanFrom(re, s, i + 1, AfterChar(re, st, s, i))
  }

  function Begin(anchors: set<string>, issues: seq<int>): Scan {
    Scan(0, "", anchors, issues)
  }

  function Scrape(re: Patterns, s: string): Scan {
    ScanFrom(re, s, 0, Begin({}, []))
  }

  method ScrapeJs(re: Patterns, content: string, anchors: set<string>, issues: seq<int>) returns (anchors': set<string>, issues': seq<int>)
    ensures var st := ScanFrom(re, content, 0, Begin(anchors, issues)); anchors' == st.anchors && issues' == st.issues
  {
    anchors', issues' := anchors, issues;
    var lastKeywordStart, lastKeyword := 0, "";
    var index := 0;
    ghost var want := ScanFrom(re, content, 0, Begin(anchors, issues));
    while index < |content|
      invariant -1 <= lastKeywordStart <= index
      invariant ScanFrom(re, content, index, Scan(lastKeywordStart, lastKeyword, anchors', issues')) == want
      decreases |content| - index
    {
      if IsQuote(content[index]) {
        var size := GetQuotedTextSize(content, index);
        ghost var st := Scan(lastKeywordStart, lastKeyword, anchors', issues');
        ghost var r := Region(index, TextEnd(content, index));
        var quotedText := Splitting.Substr(content, index + 1, size);
        assert quotedText == Text(content, r) && size == RegionSize(content, r);
        if lastKeyword != "" && size != 0 {
          if JsKeywordSuffixMatch(lastKeyword) && quotedText != "" {
            anchors' := anchors' + {quotedText};
            lastKeyword := "";
          } else if re.url(quotedText) {
            anchors' := anchors' + {quotedText};
          }
        }
        assert Scan(lastKeywordStart, lastKeyword, anchors', issues') == AfterQuote(re, st, size, quotedText);
        index := index + size + 1;
      } else if KeywordChar(content[index]) {
        if lastKeywordStart == -1 {
          lastKeywordStart := index;
        }
      } else if lastKeywordStart != -1 {
        lastKeyword := content[lastKeywordStart..index];
        lastKeywordStart := -1;
        var found := re.payload(lastKeyword);
        if found.Some? {
          issues' := issues' + [found.value];
        }
      }
      index := index + 1;
    }
  }

  ghost predicate RegionText(s: string, i: nat, a: string) {
    exists r :: r in Regions(s, i) && Quoted(s, r) && a == Text(s, r)
  }

  /** The regions further on are regions from here, too. */
  lemma LaterRegions(s: string, i: nat, a: string)
    requires i < |s| && RegionText(s, if IsQuote(s[i]) then TextEnd(s, i) + 1 else i + 1, a)
    ensures RegionText(s, i, a)
  {
    var r :| r in Regions(s, if IsQuote(s[i]) then TextEnd(s, i) + 1 else i + 1) && Quoted(s, r) && a == Text(s, r);
    assert r in Regions(s, i);
  }

  lemma RegionHere(s: string, i: nat)
    requires i < |s| && IsQuote(s[i])
    ensures RegionText(s, i, Text(s, Region(i, TextEnd(s, i))))
  {
    RegionsAreApart(s, i);
    assert Region(i, TextEnd(s, i)) in Regions(s, i);
  }

  /** Everything found is the text of a quoted region. */
  lemma {:induction false} FoundInRegions(re: Patterns, s: string, i: nat, st: Scan, a: string)
    requires Sound(st, i) && a in ScanFrom(re, s, i, st).anchors
    ensures a in st.anchors || RegionText(s, i, a)
    decreases |s| - i
  {
    if i < |s| {
      if IsQuote(s[i]) {
        var r := Region(i, TextEnd(s, i));
        RegionHere(s, i);
        FoundInRegions(re, s, r.end + 1, AfterQuote(re, st, RegionSize(s, r), Text(s, r)), a);
      } else {
        FoundInRegions(re, s, i + 1, AfterChar(re, st, s, i), a);
      }
      if RegionText(s, if IsQuote(s[i]) then TextEnd(s, i) + 1 else i + 1, a) {
        LaterRegions(s, i, a);
      }
    }
  }

  /** What was found before stays. */
  lemma {:induction false} FoundStays(re: Patterns, s: string, i: nat, st: Scan)
    requires Sound(st, i)
    ensures st.anchors <= ScanFrom(re, s, i, st).anchors
    decreases |s| - i
  {
    if i < |s| {
      if IsQuote(s[i]) {
        var r := Region(i, TextEnd(s, i));
        FoundStays(re, s, r.end + 1, AfterQuote(re, st, RegionSize(s, r), Text(s, r)));
      } else {
        FoundStays(re, s, i + 1, AfterChar(re, st, s, i));
      }
    }
  }

  /** A scraped anchor is shorter than the script: its opening quote is not part of it. */
  lemma AnchorsAreShorter(re: Patterns, s: string)
    ensures forall a | a in Scrape(re, s).anchors :: |a| < |s|
  {
    forall a | a in Scrape(re, s).anchors ensures |a| < |s| {
      FoundInRegions(re, s, 0, Begin({}, []), a);
    }
  }
}
