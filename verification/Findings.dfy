/**
 The issues of a scan as one log, in the order in which the store accepted them
 (datastore.cc, AddIssueDetails). Every index of the store is a projection of it.
 */
module Findings {
  import opened Requests
  import opened Sequences
  import Forests

  type IssueType = int

  datatype Severity = Unknown | Minimal | Low | Moderate | High | Critical

  datatype Issue = Issue(kind: IssueType, severity: Severity, name: string, request: HttpRequest, extra: string)

  datatype Finding = Finding(id: int, issue: Issue)

  type Log = seq<Finding>

  /** The issues of one kind on one request. */
  function Of(log: Log, id: int, kind: IssueType): seq<Issue> {
    if log == [] then [] else
      var front, last := Of(log[..|log| - 1], id, kind), log[|log| - 1];
      if last.id == id && last.issue.kind == kind then front + [last.issue] else front
  }

  function CountKind(log: Log, kind: IssueType): nat {
    if log == [] then 0 else
      CountKind(log[..|log| - 1], kind) + if log[|log| - 1].issue.kind == kind then 1 else 0
  }

  function CountSeverity(log: Log, severity: Severity): nat {
    if log == [] then 0 else
      CountSeverity(log[..|log| - 1], severity) + if log[|log| - 1].issue.severity == severity then 1 else 0
  }

  function KindsOn(log: Log, id: int): set<IssueType> {
    set f | f in log && f.id == id :: f.issue.kind
  }

  function AllOn(log: Log, id: int): set<Finding> {
    set f | f in log && f.id == id
  }

  // ---------------------------------------------------------------- the three limits

  datatype IssueLimits = IssueLimits(perUrl: int, perCheckPerUrl: int, perCheck: int)

  /** When `AddIssueDetails` accepts. The limits are tested for equality, and the last two only
      once the request or the kind has an issue already. */
  predicate Admits(log: Log, known: bool, f: Finding, limits: IssueLimits) {
    && known
    && |KindsOn(log, f.id)| != limits.perUrl
    && f !in log
    && (KindsOn(log, f.id) != {} ==> |Of(log, f.id, f.issue.kind)| != limits.perCheckPerUrl)
    && (CountKind(log, f.issue.kind) != 0 ==> CountKind(log, f.issue.kind) != limits.perCheck)
  }

  function Accounted(log: Log, known: bool, f: Finding, limits: IssueLimits): Log {
    if Admits(log, known, f, limits) then log + [f] else log
  }

  lemma Snoc(log: Log, f: Finding, id: int, kind: IssueType, severity: Severity)
    ensures Of(log + [f], id, kind) == Of(log, id, kind) + if f.id == id && f.issue.kind == kind then [f.issue] else []
    ensures CountKind(log + [f], kind) == CountKind(log, kind) + if f.issue.kind == kind then 1 else 0
    ensures CountSeverity(log + [f], severity)
         == CountSeverity(log, severity) + if f.issue.severity == severity then 1 else 0
    ensures KindsOn(log + [f], id) == KindsOn(log, id) + if f.id == id then {f.issue.kind} else {}
  {
    assert (log + [f])[..|log|] == log;
    assert f in log + [f];
  }

  /** Lookup by request and kind finds exactly the logged issues. */
  lemma {:induction false} OfMember(log: Log, id: int, kind: IssueType, issue: Issue)
    ensures issue in Of(log, id, kind) <==> Finding(id, issue) in log && issue.kind == kind
    ensures Of(log, id, kind) != [] <==> kind in KindsOn(log, id)
  {
    if log != [] {
      var n := |log| - 1;
      assert log == log[..n] + [log[n]];
      Snoc(log[..n], log[n], id, kind, Unknown);
      OfMember(log[..n], id, kind, issue);
    }
  }

  lemma {:induction false} OfNoRepeats(log: Log, id: int, kind: IssueType)
    requires NoRepeats(log)
    ensures forall i, j | 0 <= i < j < |Of(log, id, kind)| :: Of(log, id, kind)[i] != Of(log, id, kind)[j]
  {
    if log != [] {
      var n := |log| - 1;
      OfNoRepeats(log[..n], id, kind);
      var last := log[n];
      assert last !in log[..n];
      OfMember(log[..n], id, kind, last.issue);
    }
  }

  // ---------------------------------------------------------------- what the limits guarantee

  /** The caps that `==` tests can enforce. */
  predicate Enforceable(limits: IssueLimits) {
    limits.perUrl >= 0 && limits.perCheckPerUrl >= 1 && limits.perCheck >= 1
  }

  ghost predicate Capped(log: Log, limits: IssueLimits) {
    && (forall id :: |KindsOn(log, id)| <= limits.perUrl)
    && (forall id, kind :: |Of(log, id, kind)| <= limits.perCheckPerUrl)
    && (forall kind :: CountKind(log, kind) <= limits.perCheck)
  }

  lemma EmptyIsCapped(limits: IssueLimits)
    requires Enforceable(limits)
    ensures Capped([], limits)
  {
  }

  /** The caps are kept: sizes grow by one, so they meet the limit before they could pass it. */
  lemma CapsKept(log: Log, known: bool, f: Finding, limits: IssueLimits)
    requires Enforceable(limits) && Capped(log, limits) && NoRepeats(log)
    ensures Capped(Accounted(log, known, f, limits), limits) && NoRepeats(Accounted(log, known, f, limits))
  {
    if Admits(log, known, f, limits) {
      var kind := f.issue.kind;
      OfMember(log, f.id, kind, f.issue);
      forall id ensures |KindsOn(log + [f], id)| <= limits.perUrl {
        Snoc(log, f, id, kind, Unknown);
      }
      forall id, k ensures |Of(log + [f], id, k)| <= limits.perCheckPerUrl {
        Snoc(log, f, id, k, Unknown);
      }
      forall k ensures CountKind(log + [f], k) <= limits.perCheck {
        Snoc(log, f, 0, k, Unknown);
      }
    }
  }

  /** A limit of zero per check, or per check and URL, is passed by the first issue already. */
  lemma ZeroLimitsAreNotCaps(f: Finding, limits: IssueLimits)
    requires limits.perUrl != 0 && (limits.perCheckPerUrl == 0 || limits.perCheck == 0)
    ensures Accounted([], true, f, limits) == [f] && !Capped([f], limits)
  {
    assert KindsOn([], f.id) == {};
    Snoc([], f, f.id, f.issue.kind, Unknown);
    assert [] + [f] == [f];
    assert |Of([f], f.id, f.issue.kind)| == 1 && CountKind([f], f.issue.kind) == 1;
  }

  /** The log after a run of reported findings, the first n of them. */
  function LogAfter(reports: seq<Finding>, n: nat, limits: IssueLimits): Log
    requires n <= |reports|
  {
    if n == 0 then [] else Accounted(LogAfter(reports, n - 1, limits), true, reports[n - 1], limits)
  }

  lemma {:induction false} RunsAreCapped(reports: seq<Finding>, n: nat, limits: IssueLimits)
    requires Enforceable(limits) && n <= |reports|
    ensures Capped(LogAfter(reports, n, limits), limits) && NoRepeats(LogAfter(reports, n, limits))
  {
    if n == 0 {
      EmptyIsCapped(limits);
    } else {
      RunsAreCapped(reports, n - 1, limits);
      CapsKept(LogAfter(reports, n - 1, limits), true, reports[n - 1], limits);
    }
  }

  /** The findings of one kind on one request, as a set. */
  ghost function OnOf(log: Log, id: int, kind: IssueType): set<Finding> {
    set g | g in log && g.id == id && g.issue.kind == kind
  }

  lemma OnOfSnoc(log: Log, f: Finding, id: int, kind: IssueType)
    ensures OnOf(log + [f], id, kind) == OnOf(log, id, kind) + if f.id == id && f.issue.kind == kind then {f} else {}
  {
    forall g ensures g in log + [f] <==> g in log || g == f {
    }
  }

  /** One of the three caps is reached for the finding. */
  ghost predicate Full(log: Log, f: Finding, limits: IssueLimits) {
    || |set g | g in log && g.id == f.id :: g.issue.kind| == limits.perUrl
    || |OnOf(log, f.id, f.issue.kind)| == limits.perCheckPerUrl
    || |set g | g in log && g.issue.kind == f.issue.kind| == limits.perCheck
  }

  /** Without repeats, the issues of a kind on a request are as many as the findings. */
  lemma {:induction false} OfIsSize(log: Log, id: int, kind: IssueType)
    requires NoRepeats(log)
    ensures |Of(log, id, kind)| == |OnOf(log, id, kind)|
  {
    if log == [] {
      assert OnOf(log, id, kind) == {};
    } else {
      var front, last := log[..|log| - 1], log[|log| - 1];
      OfIsSize(front, id, kind);
      OnOfSnoc(front, last, id, kind);
      assert log == front + [last] && last !in front && last !in OnOf(front, id, kind);
    }
  }

  lemma FullIs(log: Log, f: Finding, limits: IssueLimits)
    requires NoRepeats(log)
    ensures Full(log, f, limits) <==>
      || |KindsOn(log, f.id)| == limits.perUrl || |Of(log, f.id, f.issue.kind)| == limits.perCheckPerUrl
      || CountKind(log, f.issue.kind) == limits.perCheck
  {
    OfIsSize(log, f.id, f.issue.kind);
    CountKindIsSize(log, f.issue.kind);
    assert OfKind(Logged(log), f.issue.kind) == set g | g in log && g.issue.kind == f.issue.kind;
  }

  /** Under enforceable limits a finding on a known request is refused exactly if it is logged or a cap is reached. */
  lemma AdmitsExactly(log: Log, f: Finding, limits: IssueLimits)
    requires Enforceable(limits) && NoRepeats(log)
    ensures Admits(log, true, f, limits) <==> f !in log && !Full(log, f, limits)
  {
    FullIs(log, f, limits);
    OfMember(log, f.id, f.issue.kind, f.issue);
  }

  lemma SizesGrow(log: Log, known: bool, f: Finding, g: Finding, limits: IssueLimits)
    ensures var after := Accounted(log, known, f, limits);
            && (g in log ==> g in after) && |KindsOn(log, g.id)| <= |KindsOn(after, g.id)|
            && |Of(log, g.id, g.issue.kind)| <= |Of(after, g.id, g.issue.kind)|
            && CountKind(log, g.issue.kind) <= CountKind(after, g.issue.kind)
  {
    Snoc(log, f, g.id, g.issue.kind, Unknown);
    var more := KindsOn(log + [f], g.id);
    assert KindsOn(log, g.id) <= more;
    Forests.SubsetSize(KindsOn(log, g.id), more);
  }

  lemma FullStays(log: Log, g: Finding, f: Finding, limits: IssueLimits)
    requires Enforceable(limits) && Capped(log, limits) && NoRepeats(log) && Full(log, f, limits)
    ensures Full(Accounted(log, true, g, limits), f, limits)
  {
    var after := Accounted(log, true, g, limits);
    FullIs(log, f, limits);
    CapsKept(log, true, g, limits);
    assert |KindsOn(after, f.id)| <= limits.perUrl && |Of(after, f.id, f.issue.kind)| <= limits.perCheckPerUrl;
    assert CountKind(after, f.issue.kind) <= limits.perCheck;
    hide *;
    FullIs(after, f, limits);
    SizesGrow(log, true, g, f, limits);
  }

  /** In every run under enforceable limits, what was reported and is not stored in the end was refused by a cap
      that is reached in the end. */
  lemma {:induction false} NoneRefusedInVain(reports: seq<Finding>, n: nat, i: nat, limits: IssueLimits)
    requires Enforceable(limits) && i < n <= |reports|
    ensures var log := LogAfter(reports, n, limits); reports[i] in log || Full(log, reports[i], limits)
  {
    hide Capped, Admits, Full, NoRepeats, Enforceable;
    var before, last, f := LogAfter(reports, n - 1, limits), reports[n - 1], reports[i];
    RunsAreCapped(reports, n - 1, limits);
    SizesGrow(before, true, last, f, limits);
    if i < n - 1 {
      NoneRefusedInVain(reports, n - 1, i, limits);
    } else {
      AdmitsExactly(before, f, limits);
    }
    if Full(before, f, limits) {
      FullStays(before, last, f, limits);
    }
  }

  /** No kinds allowed on a URL: nothing is ever accepted. */
  lemma {:induction false} ClosedRuns(reports: seq<Finding>, n: nat, limits: IssueLimits)
    requires limits.perUrl == 0 && n <= |reports|
    ensures LogAfter(reports, n, limits) == []
  {
    if n > 0 {
      ClosedRuns(reports, n - 1, limits);
      assert KindsOn([], reports[n - 1].id) == {};
    }
  }

  /** The three limits are caps in every run exactly if they are enforceable, or nothing is accepted at all. */
  lemma CapsHoldExactly(limits: IssueLimits, f: Finding)
    ensures (forall reports: seq<Finding> :: Capped(LogAfter(reports, |reports|, limits), limits))
       <==> Enforceable(limits) || (limits.perUrl == 0 && limits.perCheckPerUrl >= 0 && limits.perCheck >= 0)
  {
    if Enforceable(limits) {
      forall reports: seq<Finding> ensures Capped(LogAfter(reports, |reports|, limits), limits) {
        RunsAreCapped(reports, |reports|, limits);
      }
    } else if limits.perUrl == 0 && limits.perCheckPerUrl >= 0 && limits.perCheck >= 0 {
      forall reports: seq<Finding> ensures Capped(LogAfter(reports, |reports|, limits), limits) {
        ClosedRuns(reports, |reports|, limits);
      }
    } else if limits.perUrl < 0 || limits.perCheckPerUrl < 0 || limits.perCheck < 0 {
      var none: seq<Finding> := [];
      assert |KindsOn([], 0)| >= 0 && |Of([], 0, 0)| >= 0 && CountKind([], 0) >= 0;
      assert !Capped(LogAfter(none, |none|, limits), limits);
    } else {
      ZeroLimitsAreNotCaps(f, limits);
      var one := [f];
      assert LogAfter(one, 0, limits) == [];
      assert !Capped(LogAfter(one, |one|, limits), limits);
    }
  }

  lemma {:induction false} KindFibre(log: Log, id: int, kind: IssueType)
    ensures |OnOf(log, id, kind)| <= |Of(log, id, kind)|
  {
    if log == [] {
      assert OnOf(log, id, kind) == {};
    } else {
      var front, last := log[..|log| - 1], log[|log| - 1];
      KindFibre(front, id, kind);
      OnOfSnoc(front, last, id, kind);
      assert log == front + [last];
    }
  }

  /** Issues stored for one request: at most kinds per URL x issues per kind and URL. */
  lemma PerRequestBound(log: Log, id: int, limits: IssueLimits)
    requires Enforceable(limits) && Capped(log, limits)
    ensures |AllOn(log, id)| <= limits.perCheckPerUrl * limits.perUrl
  {
    var kindOf := map f | f in AllOn(log, id) :: f.issue.kind;
    forall kind | kind in KindsOn(log, id) ensures |Forests.Fibre(kindOf, kind)| <= limits.perCheckPerUrl {
      KindFibre(log, id, kind);
      assert Forests.Fibre(kindOf, kind) == OnOf(log, id, kind);
    }
    Forests.FibreBound(kindOf, KindsOn(log, id), limits.perCheckPerUrl);
    assert kindOf.Keys == AllOn(log, id);
    Forests.Monotone(limits.perCheckPerUrl, |KindsOn(log, id)|, limits.perUrl);
  }

  // ---------------------------------------------------------------- sums over all requests

  /** Stored issues of a kind, summed over the requests 1..n. */
  function SumOverRequests(log: Log, kind: IssueType, n: nat): nat {
    if n == 0 then 0 else SumOverRequests(log, kind, n - 1) + |Of(log, n, kind)|
  }

  lemma {:induction false} SumSnoc(log: Log, f: Finding, kind: IssueType, n: nat)
    ensures SumOverRequests(log + [f], kind, n)
         == SumOverRequests(log, kind, n) + if f.issue.kind == kind && 1 <= f.id <= n then 1 else 0
  {
    if n > 0 {
      SumSnoc(log, f, kind, n - 1);
      Snoc(log, f, n, kind, Unknown);
    }
  }

  /** The global counter of a kind is the sum of the per-request sizes. */
  lemma {:induction false} CountIsSum(log: Log, kind: IssueType, n: nat)
    requires forall f | f in log :: 1 <= f.id <= n
    ensures CountKind(log, kind) == SumOverRequests(log, kind, n)
    decreases |log|
  {
    if log == [] {
      EmptySum(kind, n);
    } else {
      var front, last := log[..|log| - 1], log[|log| - 1];
      assert log == front + [last];
      CountIsSum(front, kind, n);
      SumSnoc(front, last, kind, n);
    }
  }

  // ---------------------------------------------------------------- counting stored issues

  ghost function Logged(log: Log): set<Finding> {
    set f | f in log
  }

  ghost function OfKind(fs: set<Finding>, kind: IssueType): set<Finding> {
    set f | f in fs && f.issue.kind == kind
  }

  ghost function OfSeverity(fs: set<Finding>, severity: Severity): set<Finding> {
    set f | f in fs && f.issue.severity == severity
  }

  lemma LoggedSnoc(log: Log, f: Finding, kind: IssueType, severity: Severity)
    ensures OfKind(Logged(log + [f]), kind) == OfKind(Logged(log), kind) + if f.issue.kind == kind then {f} else {}
    ensures OfSeverity(Logged(log + [f]), severity)
         == OfSeverity(Logged(log), severity) + if f.issue.severity == severity then {f} else {}
    ensures f !in log ==> f !in OfKind(Logged(log), kind) && f !in OfSeverity(Logged(log), severity)
  {
    assert Logged(log + [f]) == Logged(log) + {f};
  }

  /** Without repeats, counting the log is counting a set. */
  lemma {:induction false} CountKindIsSize(log: Log, kind: IssueType)
    requires NoRepeats(log)
    ensures CountKind(log, kind) == |OfKind(Logged(log), kind)|
  {
    if log == [] {
      assert OfKind(Logged(log), kind) == {};
    } else {
      var front, last := log[..|log| - 1], log[|log| - 1];
      CountKindIsSize(front, kind);
      assert log == front + [last] && last !in front;
      hide OfKind, Logged;
      LoggedSnoc(front, last, kind, Unknown);
    }
  }

  lemma {:induction false} CountSeverityIsSize(log: Log, severity: Severity)
    requires NoRepeats(log)
    ensures CountSeverity(log, severity) == |OfSeverity(Logged(log), severity)|
  {
    if log == [] {
      assert OfSeverity(Logged(log), severity) == {};
    } else {
      var front, last := log[..|log| - 1], log[|log| - 1];
      CountSeverityIsSize(front, severity);
      assert log == front + [last] && last !in front;
      hide OfSeverity, Logged;
      LoggedSnoc(front, last, last.issue.kind, severity);
    }
  }

  lemma {:induction false} EmptySum(kind: IssueType, n: nat)
    ensures SumOverRequests([], kind, n) == 0
  {
    if n > 0 {
      EmptySum(kind, n - 1);
    }
  }
}
