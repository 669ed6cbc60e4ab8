/** The issue indexes and counters of the store (datastore.cc, AddIssueDetails). */
module Issues {
  import opened Sequences
  import opened Findings
  import opened Sites

  type PerId = map<int, map<IssueType, seq<Issue>>>

  /** operator[] of the nested maps reads what is missing as empty. */
  function KindMap(m: PerId, id: int): map<IssueType, seq<Issue>> {
    if id in m then m[id] else map[]
  }

  function Counter(m: map<IssueType, int>, kind: IssueType): int {
    if kind in m then m[kind] else 0
  }

  /** The index by request and kind is the log, up to empty sets left by refused issues. */
  ghost predicate IndexOk(perId: PerId, log: Log) {
    && (forall id, kind {:trigger Of(log, id, kind)} :: IssuesOf(KindMap(perId, id), kind) == Of(log, id, kind))
    && (forall id {:trigger KindsOn(log, id)} :: id in perId <==> KindsOn(log, id) != {})
  }

  ghost predicate CountersOk(counters: map<IssueType, int>, log: Log) {
    forall kind {:trigger CountKind(log, kind)} ::
      && Counter(counters, kind) == CountKind(log, kind)
      && (kind in counters <==> CountKind(log, kind) != 0)
  }

  ghost predicate SeveritiesOk(severities: map<Severity, nat>, log: Log) {
    forall s {:trigger CountSeverity(log, s)} :: s in severities && severities[s] == CountSeverity(log, s)
  }

  /** The issue map kept in a request has exactly the logged issues of that request. */
  ghost predicate Mirrors(issues: map<IssueType, seq<Issue>>, log: Log, id: int) {
    && (forall kind {:trigger Of(log, id, kind)} :: IssuesOf(issues, kind) == Of(log, id, kind))
    && issues.Keys == KindsOn(log, id)
  }

  lemma IndexSnoc(perId: PerId, log: Log, f: Finding, perId': PerId)
    requires IndexOk(perId, log)
    requires var m := KindMap(perId, f.id);
             perId' == perId[f.id := m[f.issue.kind := IssuesOf(m, f.issue.kind) + [f.issue]]]
    ensures IndexOk(perId', log + [f])
  {
    forall id, kind ensures IssuesOf(KindMap(perId', id), kind) == Of(log + [f], id, kind) {
      Snoc(log, f, id, kind, Unknown);
    }
    forall id ensures id in perId' <==> KindsOn(log + [f], id) != {} {
      Snoc(log, f, id, f.issue.kind, Unknown);
    }
  }

  lemma CountersSnoc(counters: map<IssueType, int>, log: Log, f: Finding, counters': map<IssueType, int>)
    requires CountersOk(counters, log) && counters' == counters[f.issue.kind := Counter(counters, f.issue.kind) + 1]
    ensures CountersOk(counters', log + [f])
  {
    forall kind ensures CountKind(log + [f], kind) == CountKind(log, kind) + if f.issue.kind == kind then 1 else 0 {
      Snoc(log, f, f.id, kind, Unknown);
    }
  }

  lemma SeveritiesSnoc(severities: map<Severity, nat>, log: Log, f: Finding)
    requires SeveritiesOk(severities, log)
    ensures f.issue.severity in severities
    ensures SeveritiesOk(severities[f.issue.severity := severities[f.issue.severity] + 1], log + [f])
  {
    assert CountSeverity(log, f.issue.severity) >= 0;
    var severities' := severities[f.issue.severity := severities[f.issue.severity] + 1];
    forall s ensures s in severities' && severities'[s] == CountSeverity(log + [f], s) {
      Snoc(log, f, f.id, f.issue.kind, s);
      assert CountSeverity(log, s) >= 0;
    }
  }

  lemma MirrorsSnoc(issues: map<IssueType, seq<Issue>>, log: Log, f: Finding, id: int)
    requires Mirrors(issues, log, id)
    ensures Mirrors(if f.id == id then issues[f.issue.kind := IssuesOf(issues, f.issue.kind) + [f.issue]] else issues,
                    log + [f], id)
  {
    forall kind ensures Of(log + [f], id, kind)
                     == Of(log, id, kind) + if f.id == id && f.issue.kind == kind then [f.issue] else [] {
      Snoc(log, f, id, kind, Unknown);
    }
    Snoc(log, f, id, f.issue.kind, Unknown);
  }

  /** An issue of another request does not touch what a request mirrors. */
  lemma StillMirrors(issues: map<IssueType, seq<Issue>>, log: Log, log': Log, f: Finding, id: int)
    requires Mirrors(issues, log, id) && f.id != id
    requires log' == log || log' == log + [f]
    ensures Mirrors(issues, log', id)
  {
    MirrorsSnoc(issues, log, f, id);
  }

  // ---------------------------------------------------------------- what is stored

  /** The issues in the index, each with the request it is stored for. */
  ghost function StoredIssues(perId: PerId): set<Finding> {
    set id, kind, issue | id in perId && kind in perId[id] && issue in perId[id][kind] :: Finding(id, issue)
  }

  ghost function HeldIn(id: int, issues: map<IssueType, seq<Issue>>): set<Finding> {
    set kind, issue | kind in issues && issue in issues[kind] :: Finding(id, issue)
  }

  lemma StoredIsLogged(perId: PerId, log: Log)
    requires IndexOk(perId, log)
    ensures StoredIssues(perId) == Logged(log)
  {
    forall id, kind, issue | id in perId && kind in perId[id] && issue in perId[id][kind]
      ensures Finding(id, issue) in log
    {
      assert issue in IssuesOf(KindMap(perId, id), kind);
      OfMember(log, id, kind, issue);
    }
    forall f | f in log
      ensures f in StoredIssues(perId)
    {
      OfMember(log, f.id, f.issue.kind, f.issue);
      assert f.issue in IssuesOf(KindMap(perId, f.id), f.issue.kind);
    }
  }

  /** A request that mirrors the log holds exactly its own issues. */
  lemma HeldIsLogged(id: int, issues: map<IssueType, seq<Issue>>, log: Log)
    requires Mirrors(issues, log, id)
    ensures HeldIn(id, issues) == AllOn(log, id)
  {
    forall kind, issue | kind in issues && issue in issues[kind]
      ensures Finding(id, issue) in log
    {
      assert issue in IssuesOf(issues, kind);
      OfMember(log, id, kind, issue);
    }
    forall f | f in log && f.id == id
      ensures f in HeldIn(id, issues)
    {
      OfMember(log, id, f.issue.kind, f.issue);
      assert f.issue in IssuesOf(issues, f.issue.kind);
    }
  }

  lemma NoRepeatsSnoc(log: Log, f: Finding)
    requires NoRepeats(log) && f !in log
    ensures NoRepeats(log + [f])
  {
  }

  class IssueBook {
    const limits: IssueLimits
    var perId: PerId
    var severityCount: map<Severity, nat>
    var checkCounters: map<IssueType, int>
    ghost var log: Log

    ghost predicate Valid()
      reads this
    {
      BookOk(perId, checkCounters, severityCount, log, limits)
    }

    constructor (limits: IssueLimits)
      ensures Valid() && this.limits == limits && log == []
    {
      this.limits := limits;
      perId, checkCounters, log := map[], map[], [];
      severityCount := map[Critical := 0, High := 0, Moderate := 0, Low := 0, Minimal := 0, Unknown := 0];
      new;
      forall s ensures s in severityCount && severityCount[s] == CountSeverity([], s) {
        match s
        case Unknown =>
        case Minimal =>
        case Low =>
        case Moderate =>
        case High =>
        case Critical =>
      }
      if Enforceable(limits) {
        EmptyIsCapped(limits);
      }
    }

    method CheckAndUpdateIssueCounters(kind: IssueType) returns (ok: bool)
      modifies this`checkCounters
      ensures ok <==> !(kind in old(checkCounters) && old(checkCounters)[kind] == limits.perCheck)
      ensures checkCounters ==
              if ok then old(checkCounters)[kind := Counter(old(checkCounters), kind) + 1] else old(checkCounters)
    {
      if kind !in checkCounters {
        checkCounters := checkCounters[kind := 1];
        return true;
      }
      if checkCounters[kind] == limits.perCheck {
        return false;
      }
      checkCounters := checkCounters[kind := checkCounters[kind] + 1];
      return true;
    }

    /** The tests against the issues already stored for the request. Reading the set of a kind
        without issues creates an empty one. */
    method HasRoomFor(id: int, issue: Issue) returns (ok: bool)
      requires Valid()
      modifies this`perId
      ensures Valid()
      ensures ok <==> && Finding(id, issue) !in log
                      && (KindsOn(log, id) != {} ==> |Of(log, id, issue.kind)| != limits.perCheckPerUrl)
    {
      ghost var stored := Of(log, id, issue.kind);
      OfMember(log, id, issue.kind, issue);
      assert id in perId <==> KindsOn(log, id) != {};
      assert IssuesOf(KindMap(perId, id), issue.kind) == stored;
      if id !in perId {
        return true;
      }
      var issueMap := perId[id];
      if issue.kind in issueMap {
        var entries := issueMap[issue.kind];
        for i := 0 to |entries|
          invariant perId == old(perId)
          invariant forall j | 0 <= j < i :: entries[j] != issue
        {
          if entries[i] == issue {
            return false;
          }
        }
      }
      perId := perId[id := issueMap[issue.kind := IssuesOf(issueMap, issue.kind)]];
      return |perId[id][issue.kind]| != limits.perCheckPerUrl;
    }

    /** AddIssueDetails for a known request. */
    method Register(req: Request, issue: Issue) returns (added: bool)
      requires Valid() && Mirrors(req.issues, log, req.id)
      modifies this, req`issues
      ensures Valid() && Mirrors(req.issues, log, req.id)
      ensures added <==> Admits(old(log), true, Finding(req.id, issue), limits)
      ensures log == Accounted(old(log), true, Finding(req.id, issue), limits)
    {
      if |req.issues| == limits.perUrl {
        return false;
      }
      added := HasRoomFor(req.id, issue);
      if !added {
        return;
      }
      assert CountKind(log, issue.kind) >= 0;
      ghost var before := checkCounters;
      added := CheckAndUpdateIssueCounters(issue.kind);
      if !added {
        return;
      }
      Enter(req, issue, before);
    }

    /** The accepted issue goes into every index. */
    method Enter(req: Request, issue: Issue, ghost before: map<IssueType, int>)
      requires BookOk(perId, before, severityCount, log, limits) && Admits(log, true, Finding(req.id, issue), limits)
      requires checkCounters == before[issue.kind := Counter(before, issue.kind) + 1]
      requires Mirrors(req.issues, log, req.id)
      modifies this, req`issues
      ensures Valid() && Mirrors(req.issues, log, req.id) && log == old(log) + [Finding(req.id, issue)]
    {
      MirrorsSnoc(req.issues, log, Finding(req.id, issue), req.id);
      req.AddIssue(issue);
      EnterBook(req.id, issue, before);
    }

    method EnterBook(id: int, issue: Issue, ghost before: map<IssueType, int>)
      requires BookOk(perId, before, severityCount, log, limits) && Admits(log, true, Finding(id, issue), limits)
      requires checkCounters == before[issue.kind := Counter(before, issue.kind) + 1]
      modifies this`severityCount, this`perId, this`log
      ensures Valid() && log == old(log) + [Finding(id, issue)]
    {
      BookSnoc(perId, before, severityCount, log, limits, id, issue);
      severityCount := severityCount[issue.severity := severityCount[issue.severity] + 1];
      perId := Entered(perId, id, issue);
      log := log + [Finding(id, issue)];
    }
  }

  /** issue_per_id_[id][type].emplace(issue) */
  function Entered(perId: PerId, id: int, issue: Issue): PerId {
    var m := KindMap(perId, id);
    perId[id := m[issue.kind := IssuesOf(m, issue.kind) + [issue]]]
  }

  /** Every index is a projection of the log, without repeats and within the caps. */
  ghost predicate BookOk(perId: PerId, counters: map<IssueType, int>, severities: map<Severity, nat>, log: Log, limits: IssueLimits) {
    && IndexOk(perId, log) && CountersOk(counters, log) && SeveritiesOk(severities, log)
    && NoRepeats(log) && (Enforceable(limits) ==> Capped(log, limits))
  }

  lemma BookSnoc(perId: PerId, counters: map<IssueType, int>, severities: map<Severity, nat>, log: Log, limits: IssueLimits,
                 id: int, issue: Issue)
    requires BookOk(perId, counters, severities, log, limits) && Admits(log, true, Finding(id, issue), limits)
    ensures issue.severity in severities
    ensures BookOk(Entered(perId, id, issue), counters[issue.kind := Counter(counters, issue.kind) + 1],
                   severities[issue.severity := severities[issue.severity] + 1], log + [Finding(id, issue)], limits)
  {
    var f := Finding(id, issue);
    NoRepeatsSnoc(log, f);
    SeveritiesSnoc(severities, log, f);
    IndexSnoc(perId, log, f, Entered(perId, f.id, f.issue));
    CountersSnoc(counters, log, f, counters[f.issue.kind := Counter(counters, f.issue.kind) + 1]);
    if Enforceable(limits) {
      CapsKept(log, true, f, limits);
    }
  }
}
