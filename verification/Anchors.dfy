/** Collecting the links of a page (parsers/gumbo_url_filter.cc): script URLs are scraped, and so on for what is found. */
module Anchors {
  import opened Scraping
  import opened Found
  import opened Sequences

  const JAVASCRIPT: string := "javascript:"
  const VBSCRIPT: string := "vbscript:"

  predicate StartsWithIgnoreCase(s: string, prefix: string) {
    |prefix| <= |s| && SameIgnoringCase(s[..|prefix|], prefix)
  }

  predicate IsScript(s: string) {
    StartsWithIgnoreCase(s, JAVASCRIPT) || StartsWithIgnoreCase(s, VBSCRIPT)
  }

  /** What follows the scheme. */
  function Body(s: string): (body: string)
    requires IsScript(s)
    ensures |body| < |s|
  {
    s[if StartsWithIgnoreCase(s, JAVASCRIPT) then |JAVASCRIPT| else |VBSCRIPT|..]
  }

  function Inner(re: Patterns, s: string): (inner: set<string>)
    requires IsScript(s)
    ensures forall a | a in inner :: |a| < |Body(s)|
  {
    AnchorsAreShorter(re, Body(s));
    Scrape(re, Body(s)).anchors
  }

  function Raised(re: Patterns, s: string): seq<int>
    requires IsScript(s)
  {
    Scrape(re, Body(s)).issues
  }

  // ---------------------------------------------------------------- what an anchor stands for

  /** The links an anchor stands for: itself, or those of the strings in its script. A script URL
      that the list held from the start is not looked at again. */
  ghost function Links(re: Patterns, known: set<string>, s: string): set<string>
    decreases |s|
  {
    if !IsScript(s) then {s}
    else if s in known then {}
    else set a, link | a in Inner(re, s) && link in Links(re, known, a) :: link
  }

  /** The requests whose payload turned up in one of those scripts. */
  ghost function Alarms(re: Patterns, known: set<string>, s: string): set<int>
    decreases |s|
  {
    if !IsScript(s) || s in known then {}
    else Members(Raised(re, s)) + set a, id | a in Inner(re, s) && id in Alarms(re, known, a) :: id
  }

  ghost function LinksOf(re: Patterns, known: set<string>, anchors: set<string>): set<string> {
    set a, link | a in anchors && link in Links(re, known, a) :: link
  }

  ghost function AlarmsOf(re: Patterns, known: set<string>, anchors: set<string>): set<int> {
    set a, id | a in anchors && id in Alarms(re, known, a) :: id
  }

  lemma {:induction false} LinksAreNoScripts(re: Patterns, known: set<string>, s: string)
    ensures forall link | link in Links(re, known, s) :: !IsScript(link)
    decreases |s|
  {
    if IsScript(s) && s !in known {
      forall a | a in Inner(re, s)
        ensures forall link | link in Links(re, known, a) :: !IsScript(link)
      {
        LinksAreNoScripts(re, known, a);
      }
    }
  }

  /** From one text to the next: each but the last is a script URL that the list did not hold from the start, and the
      scanner finds the next one in its body. */
  ghost predicate Trail(re: Patterns, known: set<string>, texts: seq<string>) {
    && texts != []
    && forall i | 0 <= i < |texts| - 1 ::
         IsScript(texts[i]) && texts[i] !in known && IsFound(re, Body(texts[i]), texts[i + 1])
  }

  ghost predicate Leads(re: Patterns, known: set<string>, texts: seq<string>, from: string, to: string) {
    Trail(re, known, texts) && texts[0] == from && texts[|texts| - 1] == to
  }

  lemma InnerIsFound(re: Patterns, s: string, a: string)
    requires IsScript(s)
    ensures a in Inner(re, s) <==> IsFound(re, Body(s), a)
  {
    FoundExactly(re, Body(s), {}, []);
  }

  lemma TrailLonger(re: Patterns, known: set<string>, s: string, rest: seq<string>)
    requires IsScript(s) && s !in known && Trail(re, known, rest) && IsFound(re, Body(s), rest[0])
    ensures Trail(re, known, [s] + rest)
  {
    var texts := [s] + rest;
    forall i | 0 <= i < |texts| - 1
      ensures IsScript(texts[i]) && texts[i] !in known && IsFound(re, Body(texts[i]), texts[i + 1])
    {
      if i > 0 {
        assert texts[i] == rest[i - 1] && texts[i + 1] == rest[i - 1 + 1];
      }
    }
  }

  lemma TrailShorter(re: Patterns, known: set<string>, texts: seq<string>)
    requires Trail(re, known, texts) && |texts| > 1
    ensures Trail(re, known, texts[1..])
  {
    var rest := texts[1..];
    forall i | 0 <= i < |rest| - 1
      ensures IsScript(rest[i]) && rest[i] !in known && IsFound(re, Body(rest[i]), rest[i + 1])
    {
      assert rest[i] == texts[i + 1] && rest[i + 1] == texts[i + 1 + 1];
    }
  }

  lemma {:induction false} TrailOf(re: Patterns, known: set<string>, s: string, link: string) returns (texts: seq<string>)
    requires link in Links(re, known, s)
    ensures Leads(re, known, texts, s, link)
    decreases |s|
  {
    if !IsScript(s) {
      texts := [s];
    } else {
      var a :| a in Inner(re, s) && link in Links(re, known, a);
      InnerIsFound(re, s, a);
      var rest := TrailOf(re, known, a, link);
      TrailLonger(re, known, s, rest);
      texts := [s] + rest;
    }
  }

  lemma {:induction false} TrailLinks(re: Patterns, known: set<string>, texts: seq<string>)
    requires Trail(re, known, texts) && !IsScript(texts[|texts| - 1])
    ensures texts[|texts| - 1] in Links(re, known, texts[0])
  {
    if |texts| > 1 {
      var rest := texts[1..];
      TrailShorter(re, known, texts);
      TrailLinks(re, known, rest);
      InnerIsFound(re, texts[0], texts[1]);
    }
  }

  /** An anchor stands for exactly the texts that are no script URLs and that a trail of scripts leads to. */
  lemma LinksAreLedTo(re: Patterns, known: set<string>, s: string, link: string)
    ensures link in Links(re, known, s) <==> !IsScript(link) && exists texts :: Leads(re, known, texts, s, link)
  {
    LinksAreNoScripts(re, known, s);
    if link in Links(re, known, s) {
      var texts := TrailOf(re, known, s, link);
    }
    if texts :| !IsScript(link) && Leads(re, known, texts, s, link) {
      TrailLinks(re, known, texts);
    }
  }

  /** A trail leads to a script with a keyword that is the payload of a request. */
  ghost predicate Raises(re: Patterns, known: set<string>, texts: seq<string>, from: string, id: int) {
    && Trail(re, known, texts) && texts[0] == from
    && var last := texts[|texts| - 1]; IsScript(last) && last !in known && IsReported(re, Body(last), id)
  }

  lemma RaisedIsReported(re: Patterns, s: string, id: int)
    requires IsScript(s)
    ensures id in Raised(re, s) <==> IsReported(re, Body(s), id)
  {
    FoundExactly(re, Body(s), {}, []);
  }

  lemma {:induction false} TrailOfAlarm(re: Patterns, known: set<string>, s: string, id: int) returns (texts: seq<string>)
    requires id in Alarms(re, known, s)
    ensures Raises(re, known, texts, s, id)
    decreases |s|
  {
    RaisedIsReported(re, s, id);
    if id in Raised(re, s) {
      texts := [s];
    } else {
      var a :| a in Inner(re, s) && id in Alarms(re, known, a);
      InnerIsFound(re, s, a);
      var rest := TrailOfAlarm(re, known, a, id);
      TrailLonger(re, known, s, rest);
      texts := [s] + rest;
    }
  }

  lemma {:induction false} TrailAlarms(re: Patterns, known: set<string>, texts: seq<string>, id: int)
    requires texts != [] && Raises(re, known, texts, texts[0], id)
    ensures id in Alarms(re, known, texts[0])
  {
    RaisedIsReported(re, texts[0], id);
    if |texts| > 1 {
      TrailShorter(re, known, texts);
      TrailAlarms(re, known, texts[1..], id);
      InnerIsFound(re, texts[0], texts[1]);
    }
  }

  /** And it raises the alarm for exactly the requests whose payload is a keyword of such a script. */
  lemma AlarmsAreLedTo(re: Patterns, known: set<string>, s: string, id: int)
    ensures id in Alarms(re, known, s) <==> exists texts :: Raises(re, known, texts, s, id)
  {
    if id in Alarms(re, known, s) {
      var texts := TrailOfAlarm(re, known, s, id);
    }
    if texts :| Raises(re, known, texts, s, id) {
      TrailAlarms(re, known, texts, id);
    }
  }

  lemma BodyBehindScheme(scheme: string, body: string)
    requires SameIgnoringCase(scheme, "javascript:") || SameIgnoringCase(scheme, "vbscript:")
    ensures IsScript(scheme + body) && Body(scheme + body) == body
  {
    var s := scheme + body;
    assert s[..|scheme|] == scheme && s[|scheme|..] == body;
    assert |scheme| == |VBSCRIPT| ==> s[0] == scheme[0] && Lower(scheme[0]) == VBSCRIPT[0];
  }

  lemma ArgumentIsInner(re: Patterns, i: nat, t: string)
    requires i < |ASKING| && t != "" && forall c | c in t :: c != '"' && c != '\\'
    ensures Scrape(re, Setting(ASKING[i], t)).anchors == {t}
  {
    AskingIsDotted(i);
    KeywordTakesArgument(re, ASKING[i], t);
    assert ASKING[i] == "" + ASKING[i];
  }

  /** The links of a script that sets one of the six keywords, in any spelling of the two schemes. */
  lemma ScriptLeadsToArgument(re: Patterns, scheme: string, i: nat, t: string)
    requires SameIgnoringCase(scheme, "javascript:") || SameIgnoringCase(scheme, "vbscript:")
    requires i < |ASKING| && t != "" && forall c | c in t :: c != '"' && c != '\\'
    ensures Links(re, {}, scheme + Setting(ASKING[i], t)) ==
            if (|t| >= 11 && SameIgnoringCase(t[..11], "javascript:")) || (|t| >= 9 && SameIgnoringCase(t[..9], "vbscript:"))
            then Links(re, {}, t) else {t}
  {
    BodyBehindScheme(scheme, Setting(ASKING[i], t));
    ArgumentIsInner(re, i, t);
    hide Setting, Scrape, Body;
    assert forall link :: link in Links(re, {}, scheme + Setting(ASKING[i], t)) <==> link in Links(re, {}, t);
  }

  // ---------------------------------------------------------------- the list of anchors

  ghost function Members<T>(s: seq<T>): set<T> {
    set a | a in s
  }

  ghost function Scripts(s: seq<string>): set<string> {
    set a | a in s && IsScript(a)
  }

  /** A list after some links were added to it: those that were not there, once each, behind the old ones. */
  ghost predicate Extended(before: seq<string>, after: seq<string>, links: set<string>) {
    && |before| <= |after| && before == after[..|before|]
    && (NoRepeats(before) ==> NoRepeats(after))
    && Members(after) == Members(before) + links
    && (forall i | |before| <= i < |after| :: !IsScript(after[i]))
  }

  lemma ExtendedTwice(a: seq<string>, b: seq<string>, c: seq<string>, more: set<string>, yet: set<string>)
    requires Extended(a, b, more) && Extended(b, c, yet)
    ensures Extended(a, c, more + yet)
  {
    assert c[..|a|] == b[..|a|];
  }

  lemma ExtendedByNothing(a: seq<string>, links: set<string>)
    requires links <= Members(a)
    ensures Extended(a, a, links)
  {
    assert a[..|a|] == a;
  }

  lemma ExtendedByOne(a: seq<string>, link: string)
    requires link !in a && !IsScript(link)
    ensures Extended(a, a + [link], {link})
  {
    assert (a + [link])[..|a|] == a;
  }

  lemma ScriptsStay(before: seq<string>, after: seq<string>, links: set<string>)
    requires Extended(before, after, links)
    ensures Scripts(after) == Scripts(before)
  {
    forall a | a in after && IsScript(a)
      ensures a in before
    {
      var i :| 0 <= i < |after| && after[i] == a;
      assert i < |before|;
    }
    forall a | a in before
      ensures a in after
    {
      assert a in after[..|before|];
    }
  }

  lemma OneMore(re: Patterns, known: set<string>, done: set<string>, a: string)
    ensures LinksOf(re, known, done + {a}) == LinksOf(re, known, done) + Links(re, known, a)
  {
  }

  lemma OneMoreAlarm(re: Patterns, known: set<string>, done: set<string>, a: string)
    ensures AlarmsOf(re, known, done + {a}) == AlarmsOf(re, known, done) + Alarms(re, known, a)
  {
    forall id
      ensures id in AlarmsOf(re, known, done + {a}) <==> id in AlarmsOf(re, known, done) || id in Alarms(re, known, a)
    {
      if id in Alarms(re, known, a) {
        assert a in done + {a};
      }
    }
  }

  class GumboUrlFilter {
    const re: Patterns
    const collects: bool // whether there is a list to add to
    var anchors: seq<string>
    var issues: seq<int>

    constructor (re: Patterns, collects: bool, anchors: seq<string>, issues: seq<int>)
      ensures this.re == re && this.collects == collects && this.anchors == anchors && this.issues == issues
    {
      this.re, this.collects, this.anchors, this.issues := re, collects, anchors, issues;
    }

    /** In whatever order the set is walked, the list ends up with the same links. */
    method AddAnchorsSet(set_: set<string>, ghost bound: nat)
      requires forall a | a in set_ :: |a| < bound
      modifies this
      ensures collects ==> Extended(old(anchors), anchors, LinksOf(re, Scripts(old(anchors)), set_))
      ensures collects ==> Members(issues) == Members(old(issues)) + AlarmsOf(re, Scripts(old(anchors)), set_)
      ensures !collects ==> anchors == old(anchors) && issues == old(issues)
      decreases bound
    {
      var rest := set_;
      ghost var done: set<string> := {};
      ghost var known := Scripts(anchors);
      if collects {
        ExtendedByNothing(anchors, {});
      }
      while rest != {}
        invariant done + rest == set_ && done !! rest
        invariant collects ==> Extended(old(anchors), anchors, LinksOf(re, known, done))
        invariant collects ==> Members(issues) == Members(old(issues)) + AlarmsOf(re, known, done)
        invariant !collects ==> anchors == old(anchors) && issues == old(issues)
        decreases rest
      {
        var anchor :| anchor in rest;
        ghost var before := anchors;
        if collects {
          ScriptsStay(old(anchors), anchors, LinksOf(re, known, done));
        }
        AddAnchor(anchor);
        OneMore(re, known, done, anchor);
        OneMoreAlarm(re, known, done, anchor);
        if collects {
          ExtendedTwice(old(anchors), before, anchors, LinksOf(re, known, done), Links(re, known, anchor));
        }
        done, rest := done + {anchor}, rest - {anchor};
      }
      assert done == set_;
    }

    method AddAnchor(newAnchor: string)
      modifies this
      ensures collects ==> Extended(old(anchors), anchors, Links(re, Scripts(old(anchors)), newAnchor))
      ensures collects ==> Members(issues) == Members(old(issues)) + Alarms(re, Scripts(old(anchors)), newAnchor)
      ensures !collects ==> anchors == old(anchors) && issues == old(issues)
      decreases |newAnchor|
    {
      if !collects {
        return;
      }
      if newAnchor in anchors {
        ExtendedByNothing(anchors, Links(re, Scripts(anchors), newAnchor));
        return;
      }
      if IsScript(newAnchor) {
        AddScript(newAnchor);
        return;
      }
      ExtendedByOne(anchors, newAnchor);
      anchors := anchors + [newAnchor];
    }

    /** Both kinds of script URL are scraped as JavaScript. */
    method AddScript(newAnchor: string)
      requires collects && IsScript(newAnchor) && newAnchor !in anchors
      modifies this
      ensures Extended(old(anchors), anchors, Links(re, Scripts(old(anchors)), newAnchor))
      ensures Members(issues) == Members(old(issues)) + Alarms(re, Scripts(old(anchors)), newAnchor)
      decreases |newAnchor|, 0
    {
      var body := newAnchor[if StartsWithIgnoreCase(newAnchor, JAVASCRIPT) then |JAVASCRIPT| else |VBSCRIPT|..];
      var inlineAnchors, found := ScrapeJs(re, body, {}, []);
      issues := issues + found;
      ghost var known := Scripts(anchors);
      assert inlineAnchors == Inner(re, newAnchor);
      AddAnchorsSet(inlineAnchors, |body|);
      assert LinksOf(re, known, inlineAnchors) == Links(re, known, newAnchor);
    }
  }
}
