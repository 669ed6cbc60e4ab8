/**
 What the JavaScript scanner finds (parsers/util/scrape_util.cc), said of the text and its quoted regions alone:
 which runs of characters are keywords, which of them is in force at a quoted text, and what it makes of it.
 */
module Found {
  import opened Requests
  import opened Scraping

  // ---------------------------------------------------------------- keywords

  /** Not in a quoted region. */
  ghost predicate Outside(s: string, p: nat) {
    p < |s| && forall r | r in Regions(s, 0) :: p < r.open || r.end < p
  }

  /** A character outside the regions that ends a keyword. */
  ghost predicate Break(s: string, p: nat) {
    Outside(s, p) && !KeywordChar(s[p])
  }

  ghost predicate NoBreak(s: string, from: nat, to: nat) {
    forall q: nat | from <= q < to :: !Break(s, q)
  }

  /** Between the break at p and position a there is nothing but quoted regions. */
  ghost predicate Behind(s: string, p: nat, a: nat) {
    p < a && Break(s, p) && forall q: nat | p < q < a :: !Outside(s, q)
  }

  /** A keyword starts with the first keyword character outside the regions behind a break. */
  ghost predicate Starts(s: string, a: nat) {
    Outside(s, a) && KeywordChar(s[a]) && exists p: nat :: Behind(s, p, a)
  }

  /** From a to i runs a keyword that has not ended yet; the first one of a text starts at its front, whatever is
      there. Quoted regions do not end a keyword, and are part of it then. */
  ghost predicate Pending(s: string, a: nat, i: nat) {
    a <= i && NoBreak(s, a, i) && (a == 0 || (a < i && Starts(s, a)))
  }

  ghost predicate Word(s: string, a: nat, b: nat) {
    Break(s, b) && Pending(s, a, b)
  }

  /** The last keyword that ended before position i. */
  ghost predicate LastWord(s: string, i: nat, a: nat, b: nat) {
    b < i && Word(s, a, b) && forall c: nat, d: nat | d < i && Word(s, c, d) :: d <= b
  }

  ghost predicate Filled(s: string, r: Region) {
    r.open < r.end <= |s| && Text(s, r) != ""
  }

  /** A keyword that asks for its argument is done with once it got one. */
  ghost predicate Used(s: string, b: nat, i: nat, keyword: string) {
    JsKeywordSuffixMatch(keyword) && exists r | r in Regions(s, 0) :: b < r.open < i && Filled(s, r)
  }

  // ---------------------------------------------------------------- what is found

  /** The keyword in force takes a text if it asks for arguments and the text is not empty, or if the text is shaped
      like a URL; an empty text only counts where its quote is the last character. */
  predicate Takes(re: Patterns, keyword: string, text: string, closed: bool) {
    || (JsKeywordSuffixMatch(keyword) && text != "")
    || (keyword != "" && re.url(text) && (text != "" || !closed))
  }

  ghost predicate Wanted(re: Patterns, s: string, r: Region, a: nat, b: nat) {
    && LastWord(s, r.open, a, b) && a <= b <= |s| && r.open < r.end <= |s|
    && !Used(s, b, r.open, s[a..b]) && Takes(re, s[a..b], Text(s, r), r.end < |s|)
  }

  /** Some quoted region before i holds the text, and the keyword in force there takes it. */
  ghost predicate FoundBy(re: Patterns, s: string, i: nat, text: string) {
    exists r, a: nat, b: nat :: r in Regions(s, 0) && r.open < i && Wanted(re, s, r, a, b) && text == Text(s, r)
  }

  ghost predicate IsFound(re: Patterns, s: string, text: string) {
    FoundBy(re, s, |s|, text)
  }

  /** A keyword that ended before i is the payload of a request. */
  ghost predicate ReportedBy(re: Patterns, s: string, i: nat, id: int) {
    exists a: nat, b: nat :: b < i && Word(s, a, b) && a <= b <= |s| && re.payload(s[a..b]) == Some(id)
  }

  ghost predicate IsReported(re: Patterns, s: string, id: int) {
    ReportedBy(re, s, |s|, id)
  }

  // ---------------------------------------------------------------- what the scanner's variables mean at position i

  /** Where a keyword began that has not ended, or -1 directly behind a break. */
  ghost predicate Tracks(s: string, i: nat, start: int) {
    if start == -1 then exists p: nat :: Behind(s, p, i) else 0 <= start <= i && Pending(s, start, i)
  }

  ghost predicate Remembers(s: string, i: nat, a: nat, b: nat, keyword: string) {
    && LastWord(s, i, a, b) && a <= b <= |s|
    && keyword == if Used(s, b, i, s[a..b]) then "" else s[a..b]
  }

  ghost predicate Recalls(s: string, i: nat, keyword: string) {
    || (keyword == "" && forall c: nat, d: nat | d < i :: !Word(s, c, d))
    || exists a: nat, b: nat :: Remembers(s, i, a, b, keyword)
  }

  ghost predicate Collected(re: Patterns, s: string, i: nat, before: set<string>, anchors: set<string>) {
    forall t :: t in anchors <==> t in before || FoundBy(re, s, i, t)
  }

  ghost predicate Reported(re: Patterns, s: string, i: nat, before: seq<int>, issues: seq<int>) {
    forall id :: id in issues <==> id in before || ReportedBy(re, s, i, id)
  }

  /** Position i is not inside a region, and the regions from there on are those of the whole text. */
  ghost predicate Aligned(s: string, i: nat) {
    && (forall r | r in Regions(s, i) :: r in Regions(s, 0))
    && (forall r | r in Regions(s, 0) :: r.end < i || r in Regions(s, i))
  }

  // ---------------------------------------------------------------- facts

  lemma Apart(s: string)
    ensures forall r | r in Regions(s, 0) :: Quoted(s, r)
  {
    RegionsAreApart(s, 0);
  }

  lemma AlignedSides(s: string, i: nat)
    requires Aligned(s, i)
    ensures forall r | r in Regions(s, 0) :: r.end < i || (i <= r.open && r in Regions(s, i))
  {
    RegionsAreApart(s, i);
  }

  /** Behind a quote at i come its region and then the others. */
  lemma RegionsHere(s: string, i: nat, r: Region)
    requires i < |s| && IsQuote(s[i]) && Aligned(s, i) && r in Regions(s, 0)
    ensures r.end < i || r == Region(i, TextEnd(s, i)) || (r in Regions(s, TextEnd(s, i) + 1) && TextEnd(s, i) < r.open)
    ensures r.open < r.end
  {
    Apart(s);
    RegionsAreApart(s, TextEnd(s, i) + 1);
  }

  lemma AlignedQuote(s: string, i: nat)
    requires i < |s| && IsQuote(s[i]) && Aligned(s, i)
    ensures Region(i, TextEnd(s, i)) in Regions(s, 0) && Aligned(s, TextEnd(s, i) + 1)
    ensures forall q: nat | i <= q <= TextEnd(s, i) :: !Outside(s, q)
    ensures forall r | r in Regions(s, 0) :: r.open < TextEnd(s, i) + 1 <==> r.open < i || r == Region(i, TextEnd(s, i))
  {
    var here := Region(i, TextEnd(s, i));
    assert here in Regions(s, i);
    forall r | r in Regions(s, TextEnd(s, i) + 1) ensures r in Regions(s, 0) {
      assert r in Regions(s, i);
    }
    forall r | r in Regions(s, 0)
      ensures r.end < TextEnd(s, i) + 1 || r in Regions(s, TextEnd(s, i) + 1)
      ensures r.open < TextEnd(s, i) + 1 <==> r.open < i || r == here
    {
      RegionsHere(s, i, r);
    }
  }

  lemma AlignedOther(s: string, i: nat)
    requires i < |s| && !IsQuote(s[i]) && Aligned(s, i)
    ensures Outside(s, i) && Aligned(s, i + 1)
    ensures forall r | r in Regions(s, 0) :: r.open < i + 1 <==> r.open < i
  {
    AlignedSides(s, i);
    Apart(s);
  }

  lemma PendingUnique(s: string, i: nat, a: nat, c: nat)
    requires Pending(s, a, i) && Pending(s, c, i)
    ensures a == c
  {
  }

  lemma NonePending(s: string, i: nat, p: nat)
    requires Behind(s, p, i)
    ensures forall a: nat :: !Pending(s, a, i)
  {
  }

  // ---------------------------------------------------------------- over a quoted region

  lemma WordsOverQuote(s: string, i: nat, j: nat)
    requires i < j && forall q: nat | i <= q < j :: !Outside(s, q)
    ensures forall a: nat, b: nat :: LastWord(s, j, a, b) <==> LastWord(s, i, a, b)
    ensures forall c: nat, d: nat :: d < j && Word(s, c, d) <==> d < i && Word(s, c, d)
  {
    assert forall c: nat, d: nat | i <= d < j :: !Word(s, c, d);
  }

  lemma TracksOverQuote(s: string, i: nat, j: nat, start: int)
    requires i < j && (forall q: nat | i <= q < j :: !Outside(s, q)) && Tracks(s, i, start)
    ensures Tracks(s, j, start)
  {
    if start == -1 {
      var p: nat :| Behind(s, p, i);
      assert Behind(s, p, j);
    }
  }

  /** What the quoted text does to the keyword in force. */
  lemma KeywordOverQuote(re: Patterns, s: string, i: nat, st: Scan)
    requires i < |s| && IsQuote(s[i]) && Aligned(s, i) && Recalls(s, i, st.keyword)
    ensures var r := Region(i, TextEnd(s, i));
            Recalls(s, r.end + 1, AfterQuote(re, st, RegionSize(s, r), Text(s, r)).keyword)
  {
    AlignedQuote(s, i);
    WordsOverQuote(s, i, TextEnd(s, i) + 1);
    if a: nat, b: nat :| Remembers(s, i, a, b, st.keyword) {
      RememberedOverQuote(re, s, i, st, a, b);
    }
  }

  lemma RememberedOverQuote(re: Patterns, s: string, i: nat, st: Scan, a: nat, b: nat)
    requires i < |s| && IsQuote(s[i]) && Aligned(s, i) && Remembers(s, i, a, b, st.keyword)
    ensures var r := Region(i, TextEnd(s, i));
            Remembers(s, r.end + 1, a, b, AfterQuote(re, st, RegionSize(s, r), Text(s, r)).keyword)
  {
    AlignedQuote(s, i);
    WordsOverQuote(s, i, TextEnd(s, i) + 1);
    UsedHere(s, i, b, s[a..b]);
    NoEmptySuffix();
    hide Used, JsKeywordSuffixMatch, LastWord, Aligned;
  }

  lemma UsedHere(s: string, i: nat, b: nat, keyword: string)
    requires i < |s| && IsQuote(s[i]) && Aligned(s, i) && b < i
    ensures var r := Region(i, TextEnd(s, i));
            Used(s, b, r.end + 1, keyword) <==> Used(s, b, i, keyword) || (JsKeywordSuffixMatch(keyword) && Filled(s, r))
  {
    AlignedQuote(s, i);
  }

  lemma NoEmptySuffix()
    ensures !JsKeywordSuffixMatch("")
  {
  }

  /** The scanner takes the text exactly if the keyword in force does. */
  lemma TakenExactly(re: Patterns, s: string, i: nat, st: Scan)
    requires i < |s| && IsQuote(s[i]) && Aligned(s, i) && Recalls(s, i, st.keyword)
    ensures var r := Region(i, TextEnd(s, i));
            AfterQuote(re, st, RegionSize(s, r), Text(s, r)).anchors
            == if exists a: nat, b: nat :: Wanted(re, s, r, a, b) then st.anchors + {Text(s, r)} else st.anchors
  {
    var r := Region(i, TextEnd(s, i));
    AlignedQuote(s, i);
    NoEmptySuffix();
    if a: nat, b: nat :| Remembers(s, i, a, b, st.keyword) {
      forall c: nat, d: nat | LastWord(s, i, c, d) ensures c == a && d == b {
        assert Word(s, a, b) && Word(s, c, d);
        PendingUnique(s, b, a, c);
      }
      if exists c: nat, d: nat :: Wanted(re, s, r, c, d) {
        assert Wanted(re, s, r, a, b);
      } else {
        assert !Wanted(re, s, r, a, b);
      }
    } else {
      forall c: nat, d: nat ensures !Wanted(re, s, r, c, d) {
        assert !LastWord(s, i, c, d);
      }
    }
  }

  lemma CollectedOverQuote(re: Patterns, s: string, i: nat, before: set<string>, st: Scan)
    requires i < |s| && IsQuote(s[i]) && Aligned(s, i) && Recalls(s, i, st.keyword) && Collected(re, s, i, before, st.anchors)
    ensures var r := Region(i, TextEnd(s, i));
            Collected(re, s, r.end + 1, before, AfterQuote(re, st, RegionSize(s, r), Text(s, r)).anchors)
  {
    var r := Region(i, TextEnd(s, i));
    TakenExactly(re, s, i, st);
    AlignedQuote(s, i);
    forall t
      ensures FoundBy(re, s, r.end + 1, t) <==>
              FoundBy(re, s, i, t) || ((exists a: nat, b: nat :: Wanted(re, s, r, a, b)) && t == Text(s, r))
    {
    }
  }

  // ---------------------------------------------------------------- over a character outside

  lemma TracksOverChar(re: Patterns, s: string, i: nat, st: Scan)
    requires i < |s| && !IsQuote(s[i]) && Aligned(s, i) && Tracks(s, i, st.start)
    ensures Sound(st, i) && Sound(AfterChar(re, st, s, i), i + 1) && Tracks(s, i + 1, AfterChar(re, st, s, i).start)
  {
    AlignedOther(s, i);
    if st.start == -1 {
      var p: nat :| Behind(s, p, i);
      if KeywordChar(s[i]) {
        assert Starts(s, i);
      } else {
        assert Behind(s, i, i + 1);
      }
    } else if !KeywordChar(s[i]) {
      assert Behind(s, i, i + 1);
    }
  }

  /** A word ends at i exactly if one was running and i is a break. */
  lemma WordAt(s: string, i: nat, start: int, a: nat)
    requires i < |s| && !IsQuote(s[i]) && Aligned(s, i) && Tracks(s, i, start)
    ensures Word(s, a, i) <==> !KeywordChar(s[i]) && start == a
  {
    AlignedOther(s, i);
    if start == -1 {
      var p: nat :| Behind(s, p, i);
      NonePending(s, i, p);
    } else if Pending(s, a, i) {
      PendingUnique(s, i, a, start);
    }
  }

  lemma KeywordOverChar(re: Patterns, s: string, i: nat, st: Scan)
    requires i < |s| && !IsQuote(s[i]) && Aligned(s, i) && Tracks(s, i, st.start) && Sound(st, i) && Recalls(s, i, st.keyword)
    ensures Recalls(s, i + 1, AfterChar(re, st, s, i).keyword)
  {
    AlignedOther(s, i);
    forall a: nat ensures Word(s, a, i) <==> !KeywordChar(s[i]) && st.start == a {
      WordAt(s, i, st.start, a);
    }
    hide Aligned, Word, Tracks;
    if !KeywordChar(s[i]) && st.start != -1 {
      assert LastWord(s, i + 1, st.start, i);
      assert Remembers(s, i + 1, st.start, i, s[st.start..i]);
    } else if a: nat, b: nat :| Remembers(s, i, a, b, st.keyword) {
      assert LastWord(s, i + 1, a, b);
      assert Remembers(s, i + 1, a, b, st.keyword);
    }
  }

  lemma CollectedOverChar(re: Patterns, s: string, i: nat, before: set<string>, st: Scan)
    requires i < |s| && !IsQuote(s[i]) && Aligned(s, i) && Sound(st, i) && Collected(re, s, i, before, st.anchors)
    ensures Collected(re, s, i + 1, before, AfterChar(re, st, s, i).anchors)
  {
    AlignedOther(s, i);
    forall t ensures FoundBy(re, s, i + 1, t) <==> FoundBy(re, s, i, t) {
    }
  }

  lemma ReportedOverChar(re: Patterns, s: string, i: nat, before: seq<int>, st: Scan)
    requires i < |s| && !IsQuote(s[i]) && Aligned(s, i) && Tracks(s, i, st.start) && Sound(st, i) && Reported(re, s, i, before, st.issues)
    ensures Reported(re, s, i + 1, before, AfterChar(re, st, s, i).issues)
  {
    forall a: nat ensures Word(s, a, i) <==> !KeywordChar(s[i]) && st.start == a {
      WordAt(s, i, st.start, a);
    }
    forall id
      ensures ReportedBy(re, s, i + 1, id) <==>
              ReportedBy(re, s, i, id) ||
              (!KeywordChar(s[i]) && st.start != -1 && re.payload(s[st.start..i]) == Some(id))
    {
      if !KeywordChar(s[i]) && st.start != -1 {
        assert Word(s, st.start, i);
      }
    }
  }

  lemma ReportedOverQuote(re: Patterns, s: string, i: nat, j: nat, before: seq<int>, issues: seq<int>)
    requires i < j && (forall q: nat | i <= q < j :: !Outside(s, q)) && Reported(re, s, i, before, issues)
    ensures Reported(re, s, j, before, issues)
  {
    WordsOverQuote(s, i, j);
    forall id ensures ReportedBy(re, s, j, id) <==> ReportedBy(re, s, i, id) {
    }
  }

  // ---------------------------------------------------------------- the scan

  ghost predicate Knows(re: Patterns, s: string, i: nat, anchors: set<string>, issues: seq<int>, st: Scan) {
    && Tracks(s, i, st.start) && Recalls(s, i, st.keyword)
    && Collected(re, s, i, anchors, st.anchors) && Reported(re, s, i, issues, st.issues)
  }

  lemma {:induction false} ScanKnows(re: Patterns, s: string, i: nat, anchors: set<string>, issues: seq<int>, st: Scan)
    requires Aligned(s, i) && Sound(st, i) && Knows(re, s, i, anchors, issues, st)
    ensures var end := ScanFrom(re, s, i, st); forall t :: t in end.anchors <==> t in anchors || IsFound(re, s, t)
    ensures var end := ScanFrom(re, s, i, st); forall id :: id in end.issues <==> id in issues || IsReported(re, s, id)
    decreases |s| - i
  {
    hide Tracks, Recalls, Collected, Reported, Aligned, AfterChar;
    if i >= |s| {
      AtEnd(re, s, i, anchors, issues, st);
    } else if IsQuote(s[i]) {
      var r := Region(i, TextEnd(s, i));
      var next := AfterQuote(re, st, RegionSize(s, r), Text(s, r));
      AlignedQuote(s, i);
      TracksOverQuote(s, i, r.end + 1, st.start);
      KeywordOverQuote(re, s, i, st);
      CollectedOverQuote(re, s, i, anchors, st);
      ReportedOverQuote(re, s, i, r.end + 1, issues, st.issues);
      ScanKnows(re, s, r.end + 1, anchors, issues, next);
    } else {
      AlignedOther(s, i);
      TracksOverChar(re, s, i, st);
      KeywordOverChar(re, s, i, st);
      CollectedOverChar(re, s, i, anchors, st);
      ReportedOverChar(re, s, i, issues, st);
      ScanKnows(re, s, i + 1, anchors, issues, AfterChar(re, st, s, i));
    }
  }

  lemma AtEnd(re: Patterns, s: string, i: nat, anchors: set<string>, issues: seq<int>, st: Scan)
    requires |s| <= i && Knows(re, s, i, anchors, issues, st)
    ensures forall t :: t in st.anchors <==> t in anchors || IsFound(re, s, t)
    ensures forall id :: id in st.issues <==> id in issues || IsReported(re, s, id)
  {
    Apart(s);
    forall t ensures FoundBy(re, s, i, t) <==> IsFound(re, s, t) {
    }
    forall id ensures ReportedBy(re, s, i, id) <==> IsReported(re, s, id) {
    }
  }

  /** The scanner adds exactly the texts that the keyword in force takes, and reports exactly the payloads among the
      keywords. */
  lemma FoundExactly(re: Patterns, s: string, anchors: set<string>, issues: seq<int>)
    ensures var end := ScanFrom(re, s, 0, Begin(anchors, issues));
      && (forall t :: t in end.anchors <==> t in anchors || IsFound(re, s, t))
      && (forall id :: id in end.issues <==> id in issues || IsReported(re, s, id))
  {
    AtStart(s, re, anchors, issues);
    ScanKnows(re, s, 0, anchors, issues, Begin(anchors, issues));
  }

  lemma AtStart(s: string, re: Patterns, anchors: set<string>, issues: seq<int>)
    ensures Aligned(s, 0) && Knows(re, s, 0, anchors, issues, Begin(anchors, issues))
  {
    assert Pending(s, 0, 0);
  }

  // ---------------------------------------------------------------- the keywords that ask for an argument

  lemma {:induction false} KeywordRuns(re: Patterns, s: string, i: nat, j: nat, st: Scan)
    requires i <= j <= |s| && Sound(st, i) && st.start != -1 && forall p | i <= p < j :: KeywordChar(s[p])
    ensures ScanFrom(re, s, i, st) == ScanFrom(re, s, j, st)
    decreases j - i
  {
    if i < j {
      assert KeywordChar(s[i]);
      KeywordRuns(re, s, i + 1, j, st);
    }
  }

  lemma PlainTextEnds(s: string, open: nat, end: nat)
    requires open + 1 < end < |s| && s[open] == s[end] == '"'
    requires forall p | open < p < end :: s[p] != '"' && s[p] != '\\'
    ensures TextEnd(s, open) == end
  {
    assert Backslashes(s, open, end) == 0;
    ClosingIsFirst(s, open, open + 1, end);
  }

  /** A keyword from the front of the text, one other character, and a quoted text up to the end. */
  ghost predicate OneArgument(s: string, j: nat) {
    var end := |s| - 1;
    && j + 2 < end && (forall p | 0 <= p < j :: KeywordChar(s[p])) && !KeywordChar(s[j]) && !IsQuote(s[j])
    && s[j + 1] == s[end] == '"' && forall p | j + 1 < p < end :: s[p] != '"' && s[p] != '\\'
  }

  lemma ArgumentFound(re: Patterns, s: string, j: nat)
    requires OneArgument(s, j)
    ensures var t := s[j + 2..|s| - 1];
      Scrape(re, s).anchors == if JsKeywordSuffixMatch(s[..j]) || (j > 0 && re.url(t)) then {t} else {}
  {
    var end := |s| - 1;
    PlainTextEnds(s, j + 1, end);
    KeywordRuns(re, s, 0, j, Begin({}, []));
    NoEmptySuffix();
    var st := AfterChar(re, Begin({}, []), s, j);
    assert st.keyword == s[..j] && st.anchors == {};
    assert ScanFrom(re, s, j, Begin({}, [])) == ScanFrom(re, s, j + 1, st);
    var r := Region(j + 1, end);
    var after := AfterQuote(re, st, RegionSize(s, r), Text(s, r));
    assert ScanFrom(re, s, j + 1, st) == ScanFrom(re, s, end + 1, after);
  }

  const ASKING: seq<string> := [".href", ".src", ".action", "location", "location.assign", "window.open"]

  /** Nothing but letters, digits and dots. */
  predicate Dotted(k: string) {
    forall c | c in k :: 'a' <= c <= 'z' || 'A' <= c <= 'Z' || '0' <= c <= '9' || c == '.'
  }

  lemma AskingIsDotted(i: nat)
    requires i < |ASKING|
    ensures Dotted(ASKING[i])
  {
    match i {
      case 0 => assert Dotted(".href");
      case 1 => assert Dotted(".src");
      case 2 => assert Dotted(".action");
      case 3 => assert Dotted("location");
      case 4 => assert Dotted("location.assign");
      case _ => assert Dotted("window.open");
    }
  }

  lemma AsksExactly(k: string)
    ensures JsKeywordSuffixMatch(k) <==> exists front, ask :: ask in ASKING && k == front + ask
  {
    if JsKeywordSuffixMatch(k) {
      var ask :| ask in SUFFIXES && EndsWith(k, ask);
      assert ask in ASKING && k == k[..|k| - |ask|] + ask;
    }
    if front, ask :| ask in ASKING && k == front + ask {
      assert ask in SUFFIXES && EndsWith(k, ask);
    }
  }

  /** A keyword, an equals sign and a text in quotes. */
  function Setting(k: string, t: string): string {
    k + ("=\"" + (t + "\""))
  }

  lemma SettingIs(k: string, t: string)
    requires (forall p | 0 <= p < |k| :: KeywordChar(k[p])) && t != "" && forall c | c in t :: c != '"' && c != '\\'
    ensures var s := Setting(k, t); OneArgument(s, |k|) && s[..|k|] == k && s[|k| + 2..|s| - 1] == t
  {
    var s, tail := Setting(k, t), "=\"" + (t + "\"");
    assert forall p | 0 <= p < |k| :: s[p] == k[p];
    assert forall p | 0 <= p < |tail| :: s[|k| + p] == tail[p];
    assert forall p | 0 <= p < |t| :: tail[p + 2] == t[p] && t[p] in t;
    assert s[|k|] == tail[0] && s[|k| + 1] == tail[1] && s[|s| - 1] == tail[|tail| - 1];
    forall p | |k| + 1 < p < |s| - 1 ensures s[p] == t[p - |k| - 2] {
      assert s[|k| + (p - |k|)] == tail[p - |k|];
    }
  }

  /** Of a keyword, an equals sign and a text in quotes exactly the text is found, and that if the keyword ends in one
      of the six words, or the text is shaped like a URL. */
  lemma KeywordTakesArgument(re: Patterns, k: string, t: string)
    requires Dotted(k) && t != "" && forall c | c in t :: c != '"' && c != '\\'
    ensures Scrape(re, Setting(k, t)).anchors ==
            if (exists front, ask :: ask in ASKING && k == front + ask) || (k != "" && re.url(t)) then {t} else {}
  {
    AsksExactly(k);
    forall p | 0 <= p < |k| ensures KeywordChar(k[p]) {
      assert k[p] in k;
    }
    hide Setting, ScanFrom, OneArgument, JsKeywordSuffixMatch, KeywordChar, Dotted;
    SettingIs(k, t);
    ArgumentFound(re, Setting(k, t), |k|);
  }
}
