# Plusfish, verified

Plusfish is a single-threaded web scanner: requests are stored in a tree of
pivots, probed, crawled and audited through one HTTP client, until the queues
are empty or the scan is shut down. This project models its store, its scan
protocol, its request generator and its text transformations in Dafny 4.11,
and proves what holds over all inputs, all runs and all orders of delivery.

    dafny verify dfyconfig.toml

## How it is built

Code that changes state is modelled by classes and loops with the state of the
original, and each method is tied to a function or predicate on values, about
which the theorems are proved.

| files | what they model |
|---|---|
| `Requests`, `Forest`, `SiteTree` | request comparison, pivots, the site tree and where requests sit in it |
| `Findings`, `IssueBook`, `DataStore` | the issue indexes and their limits, the id map and the three queues |
| `RateLimiter`, `HttpClient` | the rate limiter and the bookkeeping of the client |
| `Shutdown`, `Scanner` | signals, the shutdown check and the main loop |
| `Auditor` | the chain of security checks and the runners that walk it |
| `Generator`, `Mutants` | in-place generation of requests, and which request stands where in the output |
| `Escaping`, `SecondPass`, `NumericEntities` | HTML entities: named and numeric round trips, and what unescaping twice does |
| `Scraping`, `Found`, `Anchors` | the JavaScript quote scanner, exactly what it finds, the list of anchors |
| `Sequences`, `Splitting`, `Numerals`, `UrlFields`, `Responses`, `Fingerprints` | paths and queries, responses, word-length fingerprints |

The issues of a store are one ghost log, and every index (`issue_per_id_`, the
counters, the map inside each request) is proved to be a projection of it. The
pivots form a forest from addresses (host, then path values) to samples, and
the descent of `AddRequestToPivot` is a walk in it.

Where the code and its own documentation differ, the model follows the code:

- `FieldNamesEqual` is documented as equality of name sets. It counts instead, and
  `Requests.NamesMatchIsSetEquality` says exactly when the two agree. So a request equals
  itself exactly when no parameter name repeats (`Requests.SameRequestReflexiveWhen`), and
  two equal requests are equal to the same requests exactly when no parameter name repeats
  in either (`Requests.SameRequestCarriesOn`): repeated names break transitivity in the
  middle (`Requests.MiddleRequestMatters`) and outside (`Requests.OuterRequestMatters`). A
  copy of a stored request with a repeated name is stored again
  (`Store.DataStore.CopyHasPlace`).
- `max_issues_per_url` limits the kinds of issues on a URL, not the issues.
- All issue limits are tests for equality, and the per-check ones apply from the
  second issue on. `Findings.CapsHoldExactly` says for which limits they are caps.
- A pivot limit of zero lets refused requests leave new pivots behind;
  `Forests.RefusalIsAtomicUnless` says exactly when. A negative limit becomes a
  huge unsigned number in the code and is never reached.
- `UnescapeHtml` replaces key by key in the order of its map (numeric entities first) and is
  not idempotent: `&amp;#34;` needs two passes (`SecondPass.NotIdempotent`).
  `SecondPass.IdempotentExactly` says for every text when a second pass changes nothing, and
  `Escaping.RoundTrip` when unescaping undoes `EscapeHtml`. Numeric references read back on texts
  without any of the nine entities that are looked for after `&#34;` (`NumericEntities.NumericRoundTrip`).
- The scanner forgets a keyword only where it was used for its argument. A keyword runs on
  over quoted regions, and the first one of a script starts at its front whatever is there;
  `Found.FoundExactly` says what that makes of every script.
- `encode_url_token` prints codes below 16 with one digit and bytes above 127 with eight, which do not
  read back (`Generators.UrlCodeReads`).
- A turn in which requests wait may start none: the handle count that libcurl left may be at the
  limit, or the second may have had all its calls. `Scanner.Plusfish.Run` counts those turns, and
  a scan that gets nothing new ends within a bound given by its queues and that count.
- A response with nothing but line ends before its first blank line, such as two line feeds,
  makes the code read the first of no lines. The model gives that outcome a name and
  `Responses.UndefinedExactly` says when it comes about.
- A request may be counted in a later second than its slot was granted in, so that the
  count can pass the rate by one (`RateLimits.OneMoreIsNeeded`,
  `HttpClients.CurlHttpClient.RateHolds`).
- `KeepRunningOrShutdown` reads the clock a second time when it starts a drain.
- Restoring a field after an injection sets its value where there was none, and
  clears its mark; `Mutants.OneFieldDiffers` says exactly which fields that touches.
- A parameter with more than one `=` loses all but its name, and a path loses its
  empty segments; `UrlFields.QueryIdentity` and `UrlFields.PathIdentity` are
  equivalences.

## Model

| member | source | states |
|---|---|---|
| `Requests.FieldNamesEqual` | request.cc:42-57 | the loops decide whether both sides together have as many names as one side has fields |
| `Requests.NameCount` | request.cc:42-57 | there are as many distinct names as fields exactly when no name repeats |
| `Requests.NamesMatchCounted` | request.cc:42-57 | the test holds if and only if both sides have as many fields and the names the second adds make up for the repeats of the first |
| `Requests.NamesMatchIsSetEquality` | request.cc:42-57 | the test agrees with equality of the name sets if and only if equal sets come without repeats, and among different ones the added names do not make up for the repeats |
| `Requests.DistinctNamesMatch` | request.cc:42-57 | with distinct names on each side the test is equality of the two name sets |
| `Requests.RepeatedNamesMislead` | request.cc:42-57 | with repeated names both directions fail: `[a,a]` against itself, and against `[a,b]` |
| `Requests.Equals` | request.cc:229-257 | decides equality of scheme, verb, host, port, path values and parameter names; equal requests have the same place, and without repeated parameter names two requests are equal if and only if their keys are |
| `Requests.SameRequestIsSameKey` | request.cc:229-257 | equality is that of scheme, verb, host, port and path values with the counting test on the names; without repeated names it is equality of those and of the two sets of names |
| `Requests.SameRequestSymmetric` | request.cc:229-257 | the comparison is symmetric for all requests |
| `Requests.SameRequestReflexiveWhen` | request.cc:229-257 | a request equals itself if and only if no parameter name repeats |
| `Requests.NamesMatchCarriesOn` | request.cc:42-57 | for matching lists, everything the second matches is matched by the first if and only if no name repeats in either |
| `Requests.SameRequestCarriesOn` | request.cc:229-257 | for equal requests, everything equal to the second is equal to the first if and only if no parameter name repeats in either |
| `Requests.SameRequestTransitive` | request.cc:229-257 | a given chain also holds if the middle request and one of the others have distinct parameter names |
| `Requests.MiddleNamesMatter` | request.cc:42-57 | a repeated name in the middle list breaks transitivity, though the outer lists repeat none |
| `Requests.MiddleRequestMatters` | request.cc:229-257 | the comparison fails to carry on through a request with repeated names |
| `Requests.OuterNamesMatter` | request.cc:42-57 | it fails from and to a list with repeated names, though the middle list has none |
| `Requests.OuterRequestMatters` | request.cc:229-257 | the same for requests |
| `Requests.ReplaceOrAddExistingField` | request.cc:259-285 | all fields of the name are set, or one is added, or nothing changes; the count is exact |
| `Requests.UpdatedTwice` | request.cc:259-285 | setting a field twice with replacement is setting it once to the last value |
| `Requests.UpdatedExactly` | request.cc:259-285 | one field is added exactly if none has the name; those with the name get the value exactly if they are to be replaced; all others stay |
| `Forests.RefusalIsAtomicUnless` | datastore.cc:122-159 | a refused request leaves the forest unchanged if and only if it is not one of two cases with a limit of zero |
| `Forests.StepDown` | datastore.cc:134-149 | one turn of the descent is stopped by a full pivot exactly where the walk stops |
| `Forests.ReachesExactly` | datastore.cc:134-149 | the descent reaches the leaf if and only if the parent of every missing pivot on the way has fewer children than the limit, a negative limit being none |
| `Forests.StoredTree` | datastore.cc:122-159 | after any attempt to store a request every pivot still has its parent |
| `Forests.LevelBound` | pivot.cc:75-91 | with at most c children each, level d below h hosts has at most h·c^d pivots |
| `Forests.PivotBound` | pivot.cc:75-91 | pivots up to depth d number at most h·(1 + c + … + c^d) |
| `Forests.SampleBound` | pivot.cc:55-91 | samples up to depth d number at most s·h·(1 + c + … + c^d) |
| `Sites.Pivot.AddRequest` | pivot.cc:55-73 | refuses at the sample limit or for an equal sample, else appends |
| `Sites.Pivot.AddChildPivot` | pivot.cc:75-91 | refuses at the child limit or for a known name, else adds the child |
| `Sites.SiteTree.HostPivot` | datastore.cc:126-133 | finds or creates the pivot of a host, and changes nothing else in the forest |
| `Sites.SiteTree.ChildPivot` | datastore.cc:135-148 | finds or creates a child, and fails exactly at the child limit |
| `Sites.SiteTree.Descend` | datastore.cc:126-149 | creates exactly the pivots down to where the walk stops, and reaches the leaf unless a pivot is full |
| `Sites.SiteTree.AddRequest` | datastore.cc:122-157 | the forest after the call is the forest of the specification, and a request is returned exactly when it fits |
| `Sites.AttemptedIs` | datastore.cc:122-159 | the forest after an attempt has the pivots down to where the walk stops, and the request behind the samples of its leaf exactly if it fits |
| `Sites.RoomExactly` | datastore.cc:126-157 | there is room for a request if and only if the parents of missing pivots have fewer children than the limit and its leaf fewer samples |
| `Sites.OtherPlaceFits` | pivot.cc:55-73 | given room, a request that differs in scheme, verb or port from every sample of its pivot is stored |
| `Sites.PlaceableByKey` | pivot.cc:55-73 | with host names and without repeated parameter names, a request is stored if and only if there is room and no stored request anywhere has its key |
| `Sites.KeysAreDistinct` | pivot.cc:61-65 | then no two stored requests have the same key |
| `Sites.NoPlaceAfter` | datastore.cc:122-159 | a request with distinct parameter names that was tried has no place afterwards |
| `Sites.NoPlaceStays` | datastore.cc:122-159 | a request without a place never gets one, whatever is tried later |
| `Sites.PlacedKept` | datastore.cc:122-159 | storing keeps every request at the pivot of its host and path values, once, and no pivot has two equal ones |
| `Sites.GloballyDistinct` | pivot.cc:61-65 | no two stored requests for one host, or with host names set, are equal, although only one leaf is compared |
| `Sites.SameRequestSameAddress` | request.cc:126-128 | equal requests go to one pivot, and so are compared, if and only if they name one host |
| `Sites.HostlessTwins` | request.cc:126-128 | without host names, equal requests with different IP addresses go to different pivots |
| `Sites.HostlessTwinsFit` | datastore.cc:122-159 | on two new hosts the tree has room for both |
| `Forests.NewHostFits` | datastore.cc:122-159 | a request for a new host always fits, under limits that are not zero |
| `Sites.LimitsKept` | pivot.cc:55-91 | no pivot ever exceeds its sample or child limit |
| `Sites.StoreBound` | pivot.cc:55-91 | stored requests of path length at most d number at most samples·hosts·(1 + c + … + c^d) |
| `Findings.OfMember` | datastore.cc:240-252 | lookup by request and kind finds exactly the logged issues |
| `Findings.OfNoRepeats` | datastore.cc:240-252 | no two issues under one request and kind are equal |
| `Findings.CapsKept` | datastore.cc:236-270 | an accepted issue keeps all three caps, because sizes meet a limit before they pass it |
| `Findings.ZeroLimitsAreNotCaps` | datastore.cc:212-219 | with a limit of zero per check, or per check and URL, the first issue already passes it |
| `Findings.CapsHoldExactly` | datastore.cc:210-277 | the limits are caps in every run if and only if they are enforceable, or admit nothing |
| `Findings.AdmitsExactly` | datastore.cc:236-270 | under enforceable limits an issue on a known request is refused if and only if it is stored or one of the three sets it counts in is at its limit |
| `Findings.NoneRefusedInVain` | datastore.cc:225-277 | in every run an issue that was reported and is not stored in the end counts in a set that is at its limit in the end |
| `Findings.PerRequestBound` | datastore.cc:236-262 | issues of one request number at most kinds per URL times issues per kind and URL |
| `Findings.CountIsSum` | datastore.cc:210-223 | the global count of a kind is the sum of the sizes over all requests |
| `Findings.CountSeverityIsSize` | datastore.cc:273-275 | the count of a severity is the number of distinct issues of that severity |
| `Issues.StoredIsLogged` | datastore.cc:273-275 | the index holds exactly the accepted issues |
| `Issues.HeldIsLogged` | request.cc:340-342 | the map of a request holds exactly the accepted issues of that request |
| `Issues.IssueBook.CheckAndUpdateIssueCounters` | datastore.cc:210-223 | refuses exactly at the limit of a kind that has issues, else counts up |
| `Issues.IssueBook.HasRoomFor` | datastore.cc:241-262 | refuses exactly for an equal issue or at the limit per kind and URL, and keeps the index though an empty set may appear |
| `Issues.IssueBook.Register` | datastore.cc:235-277 | accepts exactly what the limits admit; all indexes stay projections of the log |
| `Issues.StillMirrors` | request.cc:340-342 | an issue of one request does not touch what another request mirrors |
| `Store.DataStore.AddHost` | datastore.cc:60-63 | the host is allowed from then on |
| `Store.DataStore.AddRequest` | datastore.cc:90-120 | accepts exactly requests in scope that fit; a refusal leaves id map, queue and store, and unless it litters the forest, as they were; the forest afterwards is given in any case; nothing out of scope is stored; all invariants are kept |
| `Store.DataStore.AddRequestToPivot` | datastore.cc:122-159 | the request is stored under the next id exactly when it fits |
| `Store.DataStore.AddRequestToIdMap` | datastore.cc:161-170 | ids stay 1..n, the id map stays a bijection, and the request is queued for probing |
| `Store.DataStore.AddIssueDetails` | datastore.cc:225-277 | accepts exactly what the limits admit on a known request; all invariants are kept |
| `Store.DataStore.AccountsBalance` | datastore.cc:210-277 | in every reachable store the index and the maps inside the requests hold the same issues, none twice, and each kind counter and each severity counter is the number of issues of it stored there |
| `Store.DataStore.CopyHasPlace` | pivot.cc:55-73 | a copy of a stored request has no place if and only if its parameter names are distinct or its pivot is full |
| `Store.DataStore.OtherVerbHasPlace` | pivot.cc:55-73 | given room, a request that differs in scheme, verb or port from every sample of its pivot has a place |
| `Store.DataStore.HasPlaceByKey` | datastore.cc:90-159 | in every reachable store of requests with host names and without repeated parameter names, a request has a place if and only if there is room and no stored request has its scheme, verb, host, port, path values and sets of parameter names |
| `Store.DataStore.GetRequestFromAuditQueue` | datastore.cc:352-361 | takes the oldest request, or nothing |
| `Store.DataStore.GetRequestFromProbeQueue` | datastore.cc:374-383 | takes the oldest request, or nothing |
| `Store.DataStore.GetRequestFromCrawlQueue` | datastore.cc:363-372 | takes the oldest request, or nothing |
| `RateLimits.BucketMeaning` | util/simpleratelimiter.cc:44-57 | the bucket holds min(calls in the last second, rate) and ends one period later |
| `RateLimits.GrantsPerSecond` | util/simpleratelimiter.cc:44-57 | for any non-decreasing times the grants of second t are min(calls at t, rate) |
| `RateLimits.GrantedExactly` | util/simpleratelimiter.cc:44-57 | for non-decreasing times a call is granted if and only if its second had fewer than maxRate calls before it |
| `RateLimits.WindowBound` | util/simpleratelimiter.cc:44-57 | a bound per second gives n times the bound over n seconds |
| `RateLimits.SimpleRateLimiter.TakeRateSlotWithTime` | util/simpleratelimiter.cc:44-57 | grants as the specification of the bucket does, for times in any order |
| `HttpClients.CurlHttpClient.Schedule` | curl_http_client.cc:256-265 | queues a request exactly when the client is enabled |
| `HttpClients.CurlHttpClient.StartNewRequests` | curl_http_client.cc:365-419 | the call takes a prefix of the queue in order; each request of it runs now and is counted, or is the last one, failed, and made the answer false; with the client on it stops only at the connection limit, with an empty queue, or at a call to the limiter whose second had all its calls; with a free connection and a free slot a non-empty queue gets shorter |
| `HttpClients.CurlHttpClient.StartFirst` | curl_http_client.cc:383-417 | the oldest request goes from the queue to the running ones, or fails |
| `RateLimits.CountsInWindow` | curl_http_client.cc:382-414 | with each count between its grant and the next one, a window has at most one count more than grants |
| `RateLimits.CountsWithoutStraddle` | curl_http_client.cc:382-414 | and none more unless a grant from before the window is counted in it or later |
| `RateLimits.OneMoreIsNeeded` | curl_http_client.cc:382-414 | with a rate of one, a slot of second 0 counted in second 1 makes two counts there |
| `HttpClients.CurlHttpClient.GrantsHold` | curl_http_client.cc:380-417 | of the slots granted in any n seconds at most n times the rate are used up |
| `HttpClients.CurlHttpClient.RateHolds` | curl_http_client.cc:380-417 | over any n seconds requests_performed_ rises by at most n times the rate, and one more for a slot granted before |
| `Shutdowns.OnlyForward` | plusfish.cc:99-162 | any interleaving of signals and checks only moves through running, draining, stopped, and never switches the client on |
| `Shutdowns.DeadlineIsFinal` | plusfish.cc:140-150 | once the client is off the deadline never changes |
| `Shutdowns.DeadlineSetOnce` | plusfish.cc:118-150 | the deadline of a drain was set by the one event that started it, the grace period ahead |
| `Shutdowns.ChecksStopAfterDeadline` | plusfish.cc:99-116 | from the deadline on every check says stop and stops |
| `Shutdowns.TwoChecksEnd` | plusfish.cc:99-116 | two checks the grace period apart end a scan whose deadline has passed |
| `Shutdowns.StaysStopped` | plusfish.cc:152-162 | a stopped scanner stays stopped |
| `Shutdowns.RunsExactly` | plusfish.cc:99-138 | a running scan keeps running if and only if nothing came but other signals and checks ahead of the deadline |
| `Shutdowns.StoppedExactly` | plusfish.cc:99-162 | a scan that ran is stopped if and only if SIGTERM came, or something else ended its running and then came an interrupt or a check at the deadline of the drain |
| `Shutdowns.SignalsCount` | plusfish.cc:118-138 | from any state: no client is on after an interrupt, no scanner after SIGTERM or two interrupts |
| `Scanner.Plusfish.ShutdownGraceful` | plusfish.cc:140-150 | takes the step of the protocol at a time the clock shows |
| `Scanner.Plusfish.Shutdown` | plusfish.cc:152-162 | takes the step of the protocol |
| `Scanner.Plusfish.SignalHandler` | plusfish.cc:118-138 | takes the step of the protocol for the signal |
| `Scanner.Plusfish.KeepRunningOrShutdown` | plusfish.cc:99-116 | answers and steps as the protocol does, for times between call and return |
| `Scanner.Plusfish.ProbeStep` | plusfish.cc:241-254 | the oldest request goes from the probe queue to the crawl queue and its probes to the client, exactly; without one nothing happens |
| `Scanner.Plusfish.CrawlStep` | plusfish.cc:256-261 | the oldest request of the crawl queue is crawled and passed to the client, in the order of ids; without one nothing happens |
| `Scanner.Plusfish.AddLink` | crawler.cc:170-174 | a link in scope that has a place is stored last, as a new request to probe, and any other changes neither; what was offered before stays covered, and this link is covered now |
| `Scanner.Plusfish.AddLinks` | crawler.cc:170-174 | after any links each one in scope without repeated parameter names is stored, equal to something stored, or has no room; nothing out of scope is stored |
| `Scanner.Plusfish.CrawledInScope` | datastore.cc:90-120 | in every reachable state whatever was crawled has an allowed host and a valid URL in scope |
| `Scanner.Plusfish.StartRequests` | plusfish.cc:207-216 | with the client on and something waiting the queue gets shorter, or there is a reason: all connections in use, or a call to the limiter whose second had all its calls |
| `Scanner.Plusfish.Conclude` | plusfish.cc:241-285 | the loop goes on if and only if the scanner is on and something runs or waits; what the turn feeds to the client is counted; if the loop ends with scanner and client on, nothing is left to probe |
| `Scanner.Plusfish.HandleSignals` | plusfish.cc:118-138 | exactly these signals become events of the shutdown protocol, in order and in the order of the clock; they only switch off, and leave a deadline alone once the client is off |
| `Scanner.Plusfish.CheckDeadline` | plusfish.cc:99-116 | a check becomes one event, answers whether the scanner is on afterwards, and says stop with the client off and the deadline behind it |
| `Scanner.Plusfish.DeadlineOfRun` | plusfish.cc:140-150 | while a run drains, its deadline lies the grace period after the one event that started the drain |
| `Scanner.Plusfish.SignalsSinceObeyed` | plusfish.cc:118-138 | a part of a run with SIGTERM or two interrupts in it leaves the scanner off, and with one interrupt the client |
| `Scanner.Plusfish.OneTurn` | plusfish.cc:207-286 | the turn goes on if and only if the scanner is on and something runs or waits; its signals and one check are recorded; a quiet turn that completes what runs leaves less work or one more reason to wait; one that starts with the client off and the deadline behind it ends the loop |
| `Scanner.Plusfish.Run` | plusfish.cc:207-286 | in every run crawled ++ crawl queue ++ probe queue are the stored requests in order, every link offered is covered, the signals and checks of the turns taken are its events, and the flags are what the protocol makes of them; it returns only when the scanner is off or nothing runs or waits, and with both enabled all were crawled once; a quiet run returns within twice the probe queue, the client queue and the turns that had to wait; nothing is accepted or started with the client off |
| `Auditor.SecurityCheckRunner.Run` | audit/security_check_runner.cc:36-61 | says exactly when the check is scheduled, and which requests are outstanding then |
| `Auditor.SecurityCheckRunner.SetNextCheck` | audit/security_check_runner.cc:63-74 | moves to the next check of the chain and clears the state, or changes nothing |
| `Auditor.SecurityCheckRunner.CountResponse` | audit/security_check_runner.cc:76-98 | a check is done exactly with its last response, and a batch is evaluated then and only then |
| `Auditor.SelectiveAuditor.AddSecurityCheck` | audit/selective_auditor.cc:61-68 | the chain stays linked in the order of insertion, also under running runners |
| `Auditor.SelectiveAuditor.ScheduleNextCheck` | audit/selective_auditor.cc:118-129 | tries the checks in chain order until one is scheduled, or all were tried |
| `Auditor.SelectiveAuditor.ScheduleFirst` | audit/selective_auditor.cc:97-116 | a runner is listed exactly if one of its checks was scheduled, else it tried the whole chain |
| `Auditor.SelectiveAuditor.FinishedCheckCb` | audit/selective_auditor.cc:131-154 | the runner goes on to a later check, or is erased after the whole chain; other runners are untouched, and fewer checks are left |
| `Auditor.SelectiveAuditor.Answer` | audit/security_check_runner.cc:76-98 | one delivery keeps all invariants; a runner leaves the list only after the whole chain; the work left falls |
| `Auditor.SelectiveAuditor.IdleRunners` | audit/security_check_runner.cc:47-58 | a listed runner that waits for nothing had requests refused, or made none |
| `Auditor.SelectiveAuditor.AwaitsSome` | audit/security_check_runner.cc:36-61 | with the client on and checks that make requests if any, a listed runner waits for a response |
| `Auditor.SelectiveAuditor.NoneLeft` | audit/selective_auditor.cc:131-154 | then no runner is left when nothing is outstanding |
| `Auditor.SelectiveAuditor.WalkedIsComplete` | audit/security_check_runner.cc:76-98 | with the client on, a runner that walked the chain got all answers to exactly the checks that apply, and evaluated exactly the batches among them, each once |
| `Auditor.SelectiveAuditor.Drain` | audit/selective_auditor.cc:97-154 | answering in any order ends with no runner left: every runner tried the whole chain in order, no check twice, exactly the checks that apply were answered in full, and exactly the batches among them evaluated, each once |
| `Auditor.SelectiveAuditor.Session` | audit/selective_auditor.cc:97-154 | in any mix of new tests, deliveries and switching off no runner is lost: the requests tested are those of listed runners and of those that left; each of these tried the whole chain, and was completely answered and evaluated if it left before the client was switched off; none is listed when nothing is outstanding, the client is on and checks are productive |
| `Generators.GenericGenerator.InjectOne` | audit/generic_generator.cc:151-163 | one payload through the alias: the snapshot has it, and afterwards the field is restored |
| `Generators.GenericGenerator.AppendSingleMutatedFieldRequest` | audit/generic_generator.cc:135-168 | one snapshot per method, encoding and payload in order, and the field restored |
| `Generators.GenericGenerator.AppendMutatedFieldRequests` | audit/generic_generator.cc:107-133 | the requests of the last field only, or of all eligible fields in order; the count is the number appended |
| `Generators.GenericGenerator.ShouldInjectInField` | audit/generic_generator.cc:29-42 | no names listed, or the name is one of them ignoring case |
| `Generators.GenericGenerator.Generate` | audit/generic_generator.cc:83-105 | the old list, then the requests of all targets in order; the count is the number appended |
| `Mutants.PayloadAt` | audit/generic_generator.cc:147-155 | payload (m, e, p) of a field stands at position m·E·P + e·P + p |
| `Mutants.TargetAt` | audit/generic_generator.cc:121-131 | payload r of an eligible field stands behind all payloads of the eligible fields before it |
| `Mutants.LastFieldAt` | audit/generic_generator.cc:115-119 | with last_field_only the output is the last field's payloads in order |
| `Mutants.InTarget` | audit/generic_generator.cc:107-133 | every request generated is the base request with one payload in one chosen field |
| `Mutants.TargetCount` | audit/generic_generator.cc:107-133 | a target yields fields chosen × payloads per field requests |
| `Mutants.ProductFormula` | audit/generic_generator.cc:83-105 | the number of requests is fields chosen by all targets × methods × encodings × arguments |
| `Mutants.RequestAt` | audit/generic_generator.cc:83-168 | the request for target k, field t, method m, encoding e and argument p stands behind those of earlier targets, fields and payloads; that field has the payload and the mark, all others name and value of the base request; the list is the one the kind of the target names, and the other lists and all else are those of the base request, with the user agent behind the headers unless there is one |
| `Mutants.OneFieldDiffers` | audit/generic_generator.cc:156-162 | only field i has the payload and the new mark; others keep name and value, and are identical exactly unless restored while unset or marked |
| `Mutants.MutantShows` | audit/generic_generator.cc:156-162 | on an unmarked request the values are the base values with one replaced, and one field is marked |
| `Generators.PayloadReads` | audit/util/audit_util.cc:54-75 | a payload is the argument, behind or in front of the original value as the method says; HTML codes read back as that if and only if it has no named entity, and URL codes do without percent signs, bytes above 127 and codes below 16 |
| `Generators.UrlCodeReads` | audit/util/audit_util.cc:31-48 | the URL code of a character reads back if and only if the character is at least 16 and below 128 |
| `Generators.UrlTokenReads` | audit/util/audit_util.cc:31-48 | a text of such characters without percent signs reads back (section 2.1 of RFC 3986) |
| `Escaping.UnescapeHtml` | parsers/util/escaping.cc:27-46 | ends, computes the passes of the specification, and leaves no named entity; what the ten entities stand for is `NumericEntities.EachMeaning` |
| `Escaping.EscapeHtml` | parsers/util/escaping.cc:50-76 | writes the entity of each special character |
| `Escaping.NamedStaysAway` | parsers/util/escaping.cc:36-43 | once the loop is past a named entity, no later replacement brings it back |
| `Escaping.UnescapedIsFreeOfNamed` | parsers/util/escaping.cc:27-46 | for every input the output has none of the five named entities |
| `Escaping.FixedPoints` | parsers/util/escaping.cc:27-46 | exactly the texts without any of the ten entities stay as they are |
| `Escaping.PassDecodes` | parsers/util/escaping.cc:36-43 | one pass decodes its own character and nothing else, for any table whose text cannot spell the entity, or with the ampersand still encoded |
| `Escaping.RoundTrip` | parsers/util/escaping.cc:27-76 | unescaping undoes escaping if and only if the text has no named entity |
| `NumericEntities.NumericRoundTrip` | parsers/util/escaping.cc:27-46 | unescaping undoes an encoder that writes decimal code points and knows no table if and only if the text has none of the nine entities other than `&#34;` |
| `NumericEntities.EachMeaning` | parsers/util/escaping.cc:29-33 | each of the ten entities stands for its character |
| `SecondPass.PassNeutral` | parsers/util/escaping.cc:36-43 | a pass neither makes nor removes an entity it is not for, unless it produces its ampersand |
| `SecondPass.PassShortens` | parsers/util/escaping.cc:36-43 | after a pass for an ampersand entity a tail follows an ampersand if and only if before it followed an ampersand and a chain of that entity's words |
| `SecondPass.LeftOver` | parsers/util/escaping.cc:27-46 | a numeric entity is left over if and only if the text spelled it as an ampersand, words `#38;`, words `amp;` and its own tail, with at least one word, or for four of the five at least one `amp;` |
| `SecondPass.IdempotentExactly` | parsers/util/escaping.cc:27-46 | for every text, unescaping twice is unescaping once if and only if the text has no such spelling |
| `SecondPass.NotIdempotent` | parsers/util/escaping.cc:27-46 | `&amp;#34;` has one |
| `SecondPass.SecondUnescape` | parsers/util/escaping.cc:27-76 | for every text, unescaping its escaped form twice is unescaping it once if and only if the text has no numeric entity, bare or with words `amp;` after its ampersand |
| `Scraping.GetQuotedTextSize` | parsers/util/scrape_util.cc:40-54 | the size ends at the first same quote with an even number of backslashes before it, or passes the end |
| `Scraping.RegionsAreApart` | parsers/util/scrape_util.cc:160-186 | quoted regions end at their first closing quote and do not meet |
| `Scraping.EveryQuoteIsCovered` | parsers/util/scrape_util.cc:160-186 | no quote character lies outside of the regions |
| `Scraping.ScrapeJs` | parsers/util/scrape_util.cc:153-210 | the index loop computes the scan of the specification, which `Found.FoundExactly` gives in terms of the text alone |
| `Found.FoundExactly` | parsers/util/scrape_util.cc:153-210 | from any sets, exactly the texts of quoted regions are added that the keyword in force takes, because it ends in one of the suffixes and was not used, or because the text is shaped like a URL; and exactly the payloads among the keywords are reported |
| `Found.KeywordTakesArgument` | parsers/util/scrape_util.cc:160-180 | of letters, digits and dots, an equals sign and a text in quotes exactly the text is found, and that if and only if the former end in one of six literal words, or are not empty and the text is shaped like a URL |
| `Scraping.FoundInRegions` | parsers/util/scrape_util.cc:160-186 | every anchor found is the text of a quoted region |
| `Scraping.FoundStays` | parsers/util/scrape_util.cc:153-186 | anchors found before stay |
| `Scraping.AnchorsAreShorter` | parsers/util/scrape_util.cc:160-186 | every anchor found is strictly shorter than the script |
| `Anchors.GumboUrlFilter.AddAnchor` | parsers/gumbo_url_filter.cc:101-136 | ends on every input; the old list is a prefix, no repeats arise, new entries are no script URLs, and the links added are exactly those the anchor stands for |
| `Anchors.GumboUrlFilter.AddAnchorsSet` | parsers/gumbo_url_filter.cc:56-61 | the same for a set, whatever order it is walked in |
| `Anchors.LinksAreLedTo` | parsers/gumbo_url_filter.cc:101-136 | an anchor stands for exactly the texts that are no script URLs and that a chain of scripts leads to, each found in the one before |
| `Anchors.AlarmsAreLedTo` | parsers/gumbo_url_filter.cc:101-136 | the alarm is raised for exactly the requests whose payload is a keyword of a script on such a chain |
| `Anchors.ScriptLeadsToArgument` | parsers/gumbo_url_filter.cc:108-131 | a script URL with either scheme in any case that sets one of the six words to a text stands for that text, or for what that stands for if it is a script URL itself |
| `Anchors.LinksAreNoScripts` | parsers/gumbo_url_filter.cc:108-131 | what an anchor stands for never starts with a script scheme, ignoring case |
| `UrlFields.Request.ParseUrl` | request.cc:192-226 | appends the fields of path and query and builds the URL from all fields |
| `UrlFields.Request.ParsePath` | request.cc:192-208 | appends the path fields of the specification |
| `UrlFields.Request.ParseQuery` | request.cc:210-224 | appends one parameter per component |
| `UrlFields.Request.Path` | request.cc:130-137 | joins names and values of the path fields |
| `UrlFields.Request.BuildUrl` | request.cc:139-163 | origin, path, query and fragment in a row |
| `UrlFields.PathIsSqueezed` | request.cc:130-137 | building from a parsed path puts a slash in front and makes every run of slashes one |
| `UrlFields.PathIdentity` | request.cc:192-208 | a path stays as it is if and only if it starts with a slash and no two slashes meet |
| `UrlFields.PathIdempotent` | request.cc:192-208 | building from parsed fields is idempotent for every path |
| `UrlFields.ParsedPathIsNormal` | request.cc:192-208 | parsed values have no slash, and only the last may be empty |
| `UrlFields.PathReparse` | request.cc:130-137 | parsing a built path gives back its fields |
| `UrlFields.QueryIsJoined` | request.cc:145-156 | the query is `?` and the components joined by `&` |
| `UrlFields.ComponentKept` | request.cc:214-222 | a component survives if and only if it has at most one `=` |
| `UrlFields.ParamIs` | request.cc:214-222 | a component is its name up to the first `=`, with what follows as value, or none if that has another `=` |
| `UrlFields.QueryIdentity` | request.cc:210-224 | a query stays as it is if and only if no component has more than one `=` |
| `UrlFields.QueryIdempotent` | request.cc:210-224 | building from parsed fields is idempotent for every query |
| `UrlFields.ParsedQueryIsNormal` | request.cc:210-224 | parsed names and values have neither `&` nor `=` |
| `UrlFields.QueryReparse` | request.cc:145-156 | parsing a built query gives back its parameters |
| `Responses.Response.Parse` | response.cc:91-120 | splits at the earliest blank line; code and headers change only for a status line in order, the body in any case; a head without lines has no outcome |
| `Responses.Response.ParseHeaders` | response.cc:128-167 | code from the status line, one header per later line with a colon; a head without lines has no outcome |
| `Responses.NoLines` | response.cc:129-131 | a head has no line if and only if it is made of line ends only |
| `Responses.UndefinedExactly` | response.cc:91-131 | parsing has no outcome if and only if only line ends stand before the first blank line |
| `Responses.BareBlankLine` | response.cc:91-131 | two line feeds are such a response |
| `Responses.SplitsAtHead` | response.cc:91-112 | whatever the body holds, a printed message is split where its head ends |
| `Responses.LinesAreRead` | response.cc:129-130 | the lines of a head are read back, with either line end |
| `Responses.HeadersAreRead` | response.cc:151-165 | printed headers are read back, unset values included |
| `Responses.HeaderIs` | response.cc:151-165 | a header line is its name up to the first colon and what follows, less one space; nothing left is no value |
| `Responses.HeaderPerColon` | response.cc:151-165 | each line with a colon adds its header, and no other line does |
| `Responses.ParsedHeadersAreNormal` | response.cc:151-165 | headers from any head can be printed and read back |
| `Responses.StatusIsRead` | response.cc:131-148 | a printed status line gives its code |
| `Responses.StatusExactly` | response.cc:131-148 | a code is taken from a line if and only if it is a version that starts with HTTP, a number that is a known code, and the rest |
| `Responses.RoundTrip` | response.cc:91-167 | printing and parsing gives back code, header list and body (sections 2.1, 4 and 5 of RFC 9112) |
| `Fingerprints.HtmlFingerprint.AddWord` | util/html_fingerprint.cc:33-35 | the counters of some words become those of one word more |
| `Fingerprints.HtmlFingerprint.ToString` | util/html_fingerprint.cc:37-41 | appends the printed counters |
| `Fingerprints.HtmlFingerprint.Equals` | util/html_fingerprint.cc:43-70 | the early return agrees with counting all failed buckets, in 32-bit arithmetic |
| `Fingerprints.CountersAreMultiplicities` | util/html_fingerprint.cc:33-35 | counter b is the number of words of length b modulo 16, modulo 2^32 |
| `Fingerprints.CountersCountLengths` | util/html_fingerprint.cc:33-35 | counter b is the number of words whose length modulo 16 is b, modulo 2^32 |
| `Fingerprints.OrderDoesNotMatter` | util/html_fingerprint.cc:33-35 | the counters depend only on the multiset of lengths modulo 16 |
| `Fingerprints.PrintedIsInjective` | util/html_fingerprint.cc:37-41 | different counters print differently |
| `Fingerprints.SimilarReflexive` | util/html_fingerprint.cc:43-70 | the comparison is reflexive, with wrap-around too |
| `Fingerprints.SimilarSymmetric` | util/html_fingerprint.cc:43-70 | the comparison is symmetric, with wrap-around too |
| `Fingerprints.SimilarMeaning` | util/html_fingerprint.cc:43-70 | without wrap-around: at most three buckets differ by more than 5 percent of their sum, and all differences are at most 3 percent of all words |
| `Fingerprints.SimilarTotals` | util/html_fingerprint.cc:64-67 | without wrap-around the totals of similar pages differ by at most 3 percent of their sum |
| `Fingerprints.NotFoundPages.AddFileNotFoundHtmlFingerprint` | datastore.cc:317-322 | the counters are known from then on |
| `Fingerprints.NotFoundPages.IsFileNotFoundHtmlFingerprint` | datastore.cc:324-332 | a fingerprint is recognised if and only if one with the same counters was stored |

## Left out

- libcurl handles, sockets and timeouts: a handle is a number, setting it up may fail, and transfers complete in any order.
- GURL, RE2, gumbo and protobuf: URL validity and scope, URL-shaped text and XSS payloads are parameters; path and query arrive already cut apart, without NUL characters.
- Mutexes: the scanner is single-threaded, and signals arrive between the actions of a turn, not inside one.
- Reporters, configuration, command line and console output, and the recursive walk of `Pivot::Report`.
- Matchers, MIME types, XSRF heuristics and snippets: one-branch facts. `Responses.Response.Parse` does not set the MIME type.
- The internals of `HiddenObjectsFinder` and `NotFoundDetector`: in a turn they are some number of scheduled requests, as are the requests of the auditor, in callbacks or not.
- `AddIssue` and `AddIssueById`, which only fill in an issue before `AddIssueDetails`, request metadata, and white- and blacklist management.
- `ParseMeta`, `ParseElement` and the unescaping variant of `AddAnchorsSet`, which only choose what to pass to `AddAnchor`.
- The audit queue is filled by the crawler and emptied by the main loop; only its operations are modelled.
- Scanner.Plusfish.Run: covers every finite part of a run, with what the environment does in each turn as a parameter, because an unbounded loop has no termination measure. Issues that callbacks report touch no queue; `Store.DataStore.AddIssueDetails` keeps the store for them.
- Auditor.SelectiveAuditor.Drain: is the environment that answers every request once, not a loop of the source; `DoneCb` makes no callback for an empty or unparseable response, so that assumption is needed.
- Auditor.SelectiveAuditor.FinishedCheckCb: does not call the scraping callback of the crawler, nor the issue callbacks of the runner, which do not change the auditor.
- Auditor.SecurityCheckRunner.CountResponse: is `RequestCallback` up to the finished callback; the verdicts of evaluations are not modelled, only when batches are evaluated; a serial check is evaluated with each of its responses.
- Sites.GloballyDistinct: says nothing of two requests without a host name and with different IP addresses, which go to different pivots and are never compared (`Sites.HostlessTwins`, `Sites.HostlessTwinsFit`). Only the URL check of `AddRequest` keeps them out: `ParseUrl` always sets the host, and a request made without one has a URL without one. `set_ip` on stored requests is not part of this model.
- Scanner.Plusfish.AddLinks: says nothing of links that repeat a parameter name, which are not equal to themselves (`Requests.SameRequestReflexiveWhen`).
- Scanner.Plusfish.StartRequests: the handle count that libcurl reports back is any number, so that waiting for a connection has no bound of its own.
- Store.DataStore.AddRequest: takes a request that is not stored yet and has no issues, as its caller owns it; the severity counters are unbounded numbers.
- Anchors.GumboUrlFilter.AddScript: is the part of `AddAnchor` for both script schemes, whose bodies are the same.
- Responses.Response.Parse: says nothing about the state after reading the first of no lines, which the code does not define.
- Fingerprints.HtmlFingerprint.Equals: takes the absolute value of a difference of exactly 2^31 as 2^31, where the result of `abs` is undefined.
- Generators.GenericGenerator.Generate: the headers of a generated request get the user agent, as its constructor does; its URL string is not modelled here.
