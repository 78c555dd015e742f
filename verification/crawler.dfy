/** The bookkeeping of the current crawler (pkg/webCrawler.go), taken out of
    its goroutines: the metrics, the depth gate on scraped URLs, the
    processor that drops empty and visited URLs, the monitor of in-flight
    URLs, and a sequential schedule of a whole crawl. */
module Crawler {
  import opened Outcomes
  import opened Rules

  // ---------------------------------------------------------------------
  // Sums of deltas

  function Sum(xs: seq<int>): int
    decreases |xs|
  {
    if |xs| == 0 then 0 else xs[0] + Sum(xs[1..])
  }

  /** `n` copies of +1. */
  function Ones(n: nat): (r: seq<int>)
    ensures |r| == n && Sum(r) == n
    ensures forall m :: 0 <= m <= n ==> Sum(r[..m]) == m
    decreases n
  {
    if n == 0 then []
    else
      var rest := Ones(n - 1);
      var r := [1] + rest;
      assert r[1..] == rest;
      assert forall m :: 1 <= m <= n ==> r[..m][1..] == rest[..m - 1];
      r
  }

  lemma {:induction false} SumConcat(a: seq<int>, b: seq<int>)
    ensures Sum(a + b) == Sum(a) + Sum(b)
    decreases |a|
  {
    if |a| == 0 {
      assert a + b == b;
    } else {
      assert (a + b)[1..] == a[1..] + b;
      SumConcat(a[1..], b);
    }
  }

  /** Every non-empty proper prefix of `t` has a positive sum. */
  predicate PositivePrefixes(t: seq<int>) {
    forall j :: 1 <= j < |t| ==> Sum(t[..j]) > 0
  }

  /** Appending deltas to a trace whose sum is positive, where no proper
      prefix of the appended part brings the sum to 0, keeps every proper
      prefix positive. */
  lemma {:induction false} AppendKeepsPositive(t: seq<int>, ext: seq<int>)
    requires PositivePrefixes(t) && Sum(t) > 0
    requires forall m :: 1 <= m < |ext| ==> Sum(t) + Sum(ext[..m]) > 0
    ensures PositivePrefixes(t + ext)
  {
    var u := t + ext;
    forall j | 1 <= j < |u| ensures Sum(u[..j]) > 0 {
      if j < |t| {
        assert u[..j] == t[..j];
      } else if j == |t| {
        assert u[..j] == t;
      } else {
        assert u[..j] == t + ext[..j - |t|];
        SumConcat(t, ext[..j - |t|]);
      }
    }
  }

  // ---------------------------------------------------------------------
  // Metrics

  /** Metrics */
  datatype Metrics = Metrics(url: string, duplicatedUrlsFound: int, urlsFound: int, urlsVisited: int, itemsFound: int)

  const NoMetrics: Metrics := Metrics("", 0, 0, 0, 0)

  /** incrementMetrics: each counter grows by its delta (a zero delta
      leaves it alone), and the URL is replaced only by a non-empty one. */
  function IncrementMetrics(m: Metrics, d: Metrics): (r: Metrics)
    ensures r.duplicatedUrlsFound == m.duplicatedUrlsFound + d.duplicatedUrlsFound
    ensures r.urlsFound == m.urlsFound + d.urlsFound
    ensures r.urlsVisited == m.urlsVisited + d.urlsVisited
    ensures r.itemsFound == m.itemsFound + d.itemsFound
    ensures d.url != "" ==> r.url == d.url
    ensures d.url == "" ==> r.url == m.url
  {
    Metrics(
      if d.url != "" then d.url else m.url,
      if d.duplicatedUrlsFound != 0 then m.duplicatedUrlsFound + d.duplicatedUrlsFound else m.duplicatedUrlsFound,
      if d.urlsFound != 0 then m.urlsFound + d.urlsFound else m.urlsFound,
      if d.urlsVisited != 0 then m.urlsVisited + d.urlsVisited else m.urlsVisited,
      if d.itemsFound != 0 then m.itemsFound + d.itemsFound else m.itemsFound)
  }

  /** The order in which two workers report does not matter to the
      counters; the URL is that of the later non-empty report. */
  lemma {:induction false} IncrementOrderIrrelevant(m: Metrics, a: Metrics, b: Metrics)
    ensures var ab := IncrementMetrics(IncrementMetrics(m, a), b);
            var ba := IncrementMetrics(IncrementMetrics(m, b), a);
            && ab.(url := "") == ba.(url := "")
            && ab.url == (if b.url != "" then b.url else if a.url != "" then a.url else m.url)
  {
  }

  // ---------------------------------------------------------------------
  // The depth gate

  /** A message of processScrapedUrls: a URL sent on to the processor, or
      a delta for the monitor. */
  datatype Signal = Forward(target: Target) | Delta(d: int)

  function Forwards(ss: seq<Signal>): seq<Target>
    decreases |ss|
  {
    if |ss| == 0 then []
    else (if ss[0].Forward? then [ss[0].target] else []) + Forwards(ss[1..])
  }

  function Deltas(ss: seq<Signal>): seq<int>
    decreases |ss|
  {
    if |ss| == 0 then []
    else (if ss[0].Delta? then [ss[0].d] else []) + Deltas(ss[1..])
  }

  /** Every URL in order, each followed by a +1 delta. */
  function Announce(urls: seq<Target>): (r: seq<Signal>)
    ensures |r| == 2 * |urls|
    ensures Forwards(r) == urls && Deltas(r) == Ones(|urls|)
    decreases |urls|
  {
    if |urls| == 0 then []
    else
      var rest := Announce(urls[1..]);
      var r := [Forward(urls[0]), Delta(1)] + rest;
      assert r[1..] == [Delta(1)] + rest && r[1..][1..] == rest;
      assert [urls[0]] + urls[1..] == urls;
      r
  }

  /** In an announcement each URL is immediately followed by its delta. */
  lemma {:induction false} AnnounceInterleaves(urls: seq<Target>, i: nat)
    requires i < |urls|
    ensures Announce(urls)[2 * i] == Forward(urls[i]) && Announce(urls)[2 * i + 1] == Delta(1)
    decreases i
  {
    if i > 0 {
      AnnounceInterleaves(urls[1..], i - 1);
      assert Announce(urls)[2..] == Announce(urls[1..]);
    }
  }

  /** processScrapedUrls: nothing for an empty list or when the first URL
      is deeper than the limit (the others are not looked at); otherwise
      every URL, in order, each followed by a +1 delta. */
  function ProcessScrapedUrls(urls: seq<Target>, maxDepth: int): (r: seq<Signal>)
    ensures |urls| == 0 || urls[0].currentDepth > maxDepth ==> r == []
    ensures |urls| > 0 && urls[0].currentDepth <= maxDepth ==>
              |r| == 2 * |urls| && Forwards(r) == urls && Deltas(r) == Ones(|urls|)
  {
    if |urls| == 0 then []
    else if urls[0].currentDepth <= maxDepth then Announce(urls)
    else []
  }

  // ---------------------------------------------------------------------
  // The processor of pending URLs

  /** Whether the processor sends a URL on to the workers: it is not empty
      and not visited yet. */
  predicate Admit(u: Target, visited: set<string>) {
    u.currentURL != "" && u.currentURL !in visited
  }

  function URLsOf(us: seq<Target>): set<string> {
    set i | 0 <= i < |us| :: us[i].currentURL
  }

  /** No two targets share a URL. */
  predicate DistinctURLs(us: seq<Target>) {
    forall i, j :: 0 <= i < j < |us| ==> us[i].currentURL != us[j].currentURL
  }

  datatype Dedup = Dedup(dispatched: seq<Target>, visited: set<string>, duplicates: nat, deltas: seq<int>)

  lemma URLsOfCons(u: Target, us: seq<Target>)
    ensures URLsOf([u] + us) == {u.currentURL} + URLsOf(us)
  {
    var s := [u] + us;
    forall x | x in URLsOf(us) ensures x in URLsOf(s) {
      var i :| 0 <= i < |us| && us[i].currentURL == x;
      assert s[i + 1] == us[i];
    }
    forall x | x in URLsOf(s) ensures x in {u.currentURL} + URLsOf(us) {
      var i :| 0 <= i < |s| && s[i].currentURL == x;
      if i > 0 {
        assert s[i] == us[i - 1];
      }
    }
    assert s[0] == u;
  }

  /** processCrawledUrls as a fold over the targets arriving in order:
      each arrival is either sent on (an admitted URL, which becomes
      visited) or counted as a duplicate with a -1 delta. */
  function ProcessCrawledUrls(arrivals: seq<Target>, visited: set<string>): (r: Dedup)
    ensures |r.dispatched| + r.duplicates == |arrivals|
    ensures r.deltas == Repeat(-1, r.duplicates)
    decreases |arrivals|
  {
    if |arrivals| == 0 then Dedup([], visited, 0, [])
    else
      var u := arrivals[0];
      if Admit(u, visited) then
        var r := ProcessCrawledUrls(arrivals[1..], visited + {u.currentURL});
        Dedup([u] + r.dispatched, r.visited, r.duplicates, r.deltas)
      else
        var r := ProcessCrawledUrls(arrivals[1..], visited);
        Dedup(r.dispatched, r.visited, r.duplicates + 1, [-1] + r.deltas)
  }

  /** Every target of `ds` is admitted and among the arrivals. */
  predicate AllAdmitted(ds: seq<Target>, visited: set<string>, arrivals: seq<Target>) {
    forall i :: 0 <= i < |ds| ==> Admit(ds[i], visited) && ds[i] in arrivals
  }

  /** The processor sends on only admitted arrivals. */
  lemma {:induction false} DispatchedAreAdmitted(arrivals: seq<Target>, visited: set<string>)
    ensures AllAdmitted(ProcessCrawledUrls(arrivals, visited).dispatched, visited, arrivals)
    decreases |arrivals|
  {
    if |arrivals| > 0 {
      var u := arrivals[0];
      var tail := arrivals[1..];
      assert forall t :: t in tail ==> t in arrivals;
      if Admit(u, visited) {
        var v' := visited + {u.currentURL};
        DispatchedAreAdmitted(tail, v');
        var r := ProcessCrawledUrls(tail, v');
        assert AllAdmitted(r.dispatched, v', tail);
        var d := [u] + r.dispatched;
        assert ProcessCrawledUrls(arrivals, visited).dispatched == d;
        forall i | 1 <= i < |d| ensures Admit(d[i], visited) && d[i] in arrivals {
          assert d[i] == r.dispatched[i - 1];
        }
      } else {
        DispatchedAreAdmitted(tail, visited);
      }
    }
  }

  /** A target whose URL the others lack keeps the URLs distinct. */
  lemma DistinctCons(u: Target, ds: seq<Target>)
    requires DistinctURLs(ds) && u.currentURL !in URLsOf(ds)
    ensures DistinctURLs([u] + ds)
  {
    var d := [u] + ds;
    forall i, j | 0 <= i < j < |d|
      ensures d[i].currentURL != d[j].currentURL
    {
      assert d[j] == ds[j - 1];
      if i > 0 {
        assert d[i] == ds[i - 1];
      }
    }
  }

  /** The processor sends each URL on at most once. */
  lemma {:induction false} DispatchedDistinct(arrivals: seq<Target>, visited: set<string>)
    ensures DistinctURLs(ProcessCrawledUrls(arrivals, visited).dispatched)
    decreases |arrivals|
  {
    if |arrivals| > 0 {
      var u := arrivals[0];
      var tail := arrivals[1..];
      if Admit(u, visited) {
        var v' := visited + {u.currentURL};
        DispatchedDistinct(tail, v');
        DispatchedAreAdmitted(tail, v');
        var ds := ProcessCrawledUrls(tail, v').dispatched;
        assert u.currentURL !in URLsOf(ds) by {
          assert forall i :: 0 <= i < |ds| ==> Admit(ds[i], v');
        }
        DistinctCons(u, ds);
      } else {
        DispatchedDistinct(tail, visited);
      }
    }
  }

  /** What the processor knows as visited afterwards is what it knew plus
      the URLs it sent on. */
  lemma {:induction false} VisitedAddsDispatched(arrivals: seq<Target>, visited: set<string>)
    ensures var r := ProcessCrawledUrls(arrivals, visited);
            r.visited == visited + URLsOf(r.dispatched)
    decreases |arrivals|
  {
    if |arrivals| > 0 {
      var u := arrivals[0];
      var tail := arrivals[1..];
      if Admit(u, visited) {
        var v' := visited + {u.currentURL};
        VisitedAddsDispatched(tail, v');
        URLsOfCons(u, ProcessCrawledUrls(tail, v').dispatched);
      } else {
        VisitedAddsDispatched(tail, visited);
      }
    }
  }

  /** The processor sends each URL on at most once, and what it knows as
      visited afterwards is what it knew plus the URLs it sent on. */
  lemma DispatchedOnce(arrivals: seq<Target>, visited: set<string>)
    ensures var r := ProcessCrawledUrls(arrivals, visited);
            DistinctURLs(r.dispatched) && r.visited == visited + URLsOf(r.dispatched)
  {
    DispatchedDistinct(arrivals, visited);
    VisitedAddsDispatched(arrivals, visited);
  }

  /** Afterwards every non-empty URL that arrived is known as visited. */
  lemma {:induction false} ArrivalsBecomeVisited(arrivals: seq<Target>, visited: set<string>)
    ensures var r := ProcessCrawledUrls(arrivals, visited);
            visited <= r.visited
            && forall i :: 0 <= i < |arrivals| && arrivals[i].currentURL != "" ==> arrivals[i].currentURL in r.visited
    decreases |arrivals|
  {
    if |arrivals| > 0 {
      var u := arrivals[0];
      var tail := arrivals[1..];
      assert forall i :: 1 <= i < |arrivals| ==> arrivals[i] == tail[i - 1];
      var v' := if Admit(u, visited) then visited + {u.currentURL} else visited;
      ArrivalsBecomeVisited(tail, v');
    }
  }

  /** `n` copies of `x`. */
  function Repeat(x: int, n: nat): (r: seq<int>)
    ensures |r| == n && forall i :: 0 <= i < n ==> r[i] == x
    decreases n
  {
    if n == 0 then [] else [x] + Repeat(x, n - 1)
  }

  // ---------------------------------------------------------------------
  // The monitor

  /** The count of the monitor, started at `c`, after the delta of index
      `j`. */
  function CountAfter(deltas: seq<int>, c: int, j: nat): int
    requires j < |deltas|
  {
    c + Sum(deltas[..j + 1])
  }

  lemma CountShift(deltas: seq<int>, c: int, j: nat)
    requires j + 1 < |deltas|
    ensures CountAfter(deltas, c, j + 1) == CountAfter(deltas[1..], c + deltas[0], j)
  {
    assert deltas[..j + 2][1..] == deltas[1..][..j + 1];
  }

  lemma CountShiftAll(deltas: seq<int>, c: int)
    requires |deltas| > 0
    ensures forall j :: 1 <= j < |deltas| ==> CountAfter(deltas, c, j) == CountAfter(deltas[1..], c + deltas[0], j - 1)
  {
    forall j | 1 <= j < |deltas|
      ensures CountAfter(deltas, c, j) == CountAfter(deltas[1..], c + deltas[0], j - 1)
    {
      CountShift(deltas, c, j - 1);
    }
  }

  /** monitorCrawling as a fold over the deltas it receives, from the count
      `c`: the index of the delta at which the count first reaches 0, when
      the crawl is shut down; `None` when it never does. */
  function Monitor(deltas: seq<int>, c: int): (r: Option<nat>)
    ensures r.Some? ==> r.value < |deltas| && CountAfter(deltas, c, r.value) == 0
    ensures r.Some? ==> forall j :: 0 <= j < r.value ==> CountAfter(deltas, c, j) != 0
    ensures r.None? ==> forall j :: 0 <= j < |deltas| ==> CountAfter(deltas, c, j) != 0
    decreases |deltas|
  {
    if |deltas| == 0 then None
    else
      var first := deltas[..1];
      assert first[0] == deltas[0] && first[1..] == [];
      assert Sum(first) == first[0] + Sum(first[1..]);
      assert CountAfter(deltas, c, 0) == c + deltas[0];
      CountShiftAll(deltas, c);
      if c + deltas[0] == 0 then Some(0)
      else
        match Monitor(deltas[1..], c + deltas[0])
        case None => None
        case Some(k) => Some(k + 1)
  }

  /** A trace whose proper prefixes all have positive sums and whose full
      sum is 0 shuts the crawl down exactly at its last delta. */
  lemma {:induction false} MonitorFiresAtEnd(t: seq<int>)
    requires |t| >= 1 && PositivePrefixes(t) && Sum(t) == 0
    ensures Monitor(t, 0) == Some(|t| - 1)
  {
    assert t[..|t|] == t;
    var r := Monitor(t, 0);
    assert CountAfter(t, 0, |t| - 1) == 0;
  }

  /** A trace whose prefixes all have positive sums never shuts the crawl
      down. */
  lemma {:induction false} MonitorNeverFires(t: seq<int>)
    requires PositivePrefixes(t) && Sum(t) > 0
    ensures Monitor(t, 0) == None
  {
    assert t[..|t|] == t;
    assert forall j :: 0 <= j < |t| ==> CountAfter(t, 0, j) > 0;
  }

  // ---------------------------------------------------------------------
  // A sequential crawl

  /** What a worker's scrape of a target yields: the targets found on the
      page, the number of items, and whether the scrape returned an error. */
  datatype Found = Found(urls: seq<Target>, items: nat, failed: bool)

  /** The state of a crawl: the pending targets in arrival order, the
      visited URLs, the targets dispatched to workers, the metrics, and all
      deltas sent to the monitor so far. */
  datatype Crawl = Crawl(queue: seq<Target>, visited: set<string>, dispatched: seq<Target>, metrics: Metrics, trace: seq<int>)

  /** Every target dispatched has a distinct, non-empty URL, the visited
      set holds exactly their URLs, and the visit counter counts them. */
  predicate Consistent(st: Crawl) {
    && DistinctURLs(st.dispatched)
    && (forall i :: 0 <= i < |st.dispatched| ==> st.dispatched[i].currentURL != "")
    && st.visited == URLsOf(st.dispatched)
    && st.metrics.urlsVisited == |st.dispatched|
  }

  /** No more targets were scraped than MaxVisitedUrls allows. */
  predicate WithinCap(st: Crawl, maxVisited: int) {
    |st.dispatched| == 0 || |st.dispatched| <= maxVisited
  }

  /** The count of the monitor equals the number of pending targets and
      has not reached 0 before. */
  predicate Balanced(st: Crawl) {
    |st.trace| >= 1 && Sum(st.trace) == |st.queue| && PositivePrefixes(st.trace)
  }

  lemma DispatchKeepsConsistent(st: Crawl, u: Target, m: Metrics)
    requires Consistent(st) && Admit(u, st.visited) && m.urlsVisited == st.metrics.urlsVisited + 1
    ensures Consistent(Crawl(st.queue, st.visited + {u.currentURL}, st.dispatched + [u], m, st.trace))
  {
    var d := st.dispatched + [u];
    assert forall i :: 0 <= i < |st.dispatched| ==> d[i] == st.dispatched[i];
    assert URLsOf(d) == URLsOf(st.dispatched) + {u.currentURL} by {
      assert d[|d| - 1] == u;
      assert forall x :: x in URLsOf(st.dispatched) ==> x in URLsOf(d) by {
        forall x | x in URLsOf(st.dispatched) ensures x in URLsOf(d) {
          var i :| 0 <= i < |st.dispatched| && st.dispatched[i].currentURL == x;
          assert d[i] == st.dispatched[i];
        }
      }
    }
  }

  /** One step of the schedule once the worker has passed its checks: the
      processor takes the first pending target. An empty or visited URL
      counts as a duplicate with a -1 delta. Otherwise the URL is marked
      visited and a worker scrapes the target: the metrics take its counts,
      the targets found go through the depth gate, each with a +1 delta, and
      the worker sends its -1. */
  function CrawlStep(st: Crawl, maxDepth: int, discover: Target -> Found): (r: Crawl)
    requires |st.queue| > 0 && Consistent(st) && Balanced(st)
    ensures Consistent(r) && Balanced(r)
    ensures |st.dispatched| <= |r.dispatched| <= |st.dispatched| + 1 && r.dispatched[..|st.dispatched|] == st.dispatched
    ensures |r.dispatched| == |st.dispatched| + 1 <==> Admit(st.queue[0], st.visited)
  {
    var u := st.queue[0];
    var queue := st.queue[1..];
    if !Admit(u, st.visited) then
      var trace := st.trace + [-1];
      AppendKeepsPositive(st.trace, [-1]);
      SumConcat(st.trace, [-1]);
      assert Sum([-1]) == -1;
      assert st.dispatched[..|st.dispatched|] == st.dispatched;
      Crawl(queue, st.visited, st.dispatched, IncrementMetrics(st.metrics, NoMetrics.(duplicatedUrlsFound := 1)), trace)
    else
      var found := discover(u);
      var m := IncrementMetrics(st.metrics, Metrics(u.rootURL, 0, |found.urls|, 1, found.items));
      DispatchKeepsConsistent(st, u, m);
      var signals := ProcessScrapedUrls(found.urls, maxDepth);
      var fwd := Forwards(signals);
      var ext := Deltas(signals) + [-1];
      assert Deltas(signals) == Ones(|fwd|);
      assert forall k :: 1 <= k < |ext| ==> ext[..k] == Ones(|fwd|)[..k];
      AppendKeepsPositive(st.trace, ext);
      SumConcat(st.trace, ext);
      SumConcat(Ones(|fwd|), [-1]);
      assert Sum([-1]) == -1;
      var d := st.dispatched + [u];
      assert d[..|st.dispatched|] == st.dispatched;
      Crawl(queue + fwd, st.visited + {u.currentURL}, d, m, st.trace + ext)
  }

  /** The outcome of a crawl: it ran out of pending targets; a worker
      stopped at MaxVisitedUrls; a scrape returned an error, which ends the
      crawl; it took more steps than the fuel allows; or a negative depth
      limit was rejected. */
  datatype Outcome = Finished(state: Crawl) | Capped(state: Crawl) | Aborted(state: Crawl) | OutOfFuel | DepthError

  /** Whether the worker handed the first pending target stops instead of
      scraping it: the visit counter has reached MaxVisitedUrls. */
  predicate WorkerStops(st: Crawl, maxVisited: int)
    requires |st.queue| > 0
  {
    Admit(st.queue[0], st.visited) && maxVisited <= st.metrics.urlsVisited
  }

  /** The schedule run until no target is pending, a worker stops, or a
      scrape fails. */
  function CrawlLoop(st: Crawl, maxDepth: int, maxVisited: int, discover: Target -> Found, fuel: nat): (r: Outcome)
    requires Consistent(st) && Balanced(st) && WithinCap(st, maxVisited)
    ensures r.Finished? || r.Capped? || r.Aborted? ==> Consistent(r.state) && Balanced(r.state) && WithinCap(r.state, maxVisited)
    ensures r.Finished? ==> |r.state.queue| == 0
    ensures r.Capped? ==> |r.state.queue| > 0 && WorkerStops(r.state, maxVisited)
    ensures r.Aborted? ==> |r.state.queue| > 0 && Admit(r.state.queue[0], r.state.visited) && discover(r.state.queue[0]).failed
    ensures r.Finished? || r.Capped? || r.Aborted? ==>
              |st.dispatched| <= |r.state.dispatched| && r.state.dispatched[..|st.dispatched|] == st.dispatched
    ensures !r.DepthError?
    decreases fuel
  {
    if |st.queue| == 0 then
      assert st.dispatched[..|st.dispatched|] == st.dispatched;
      Finished(st)
    else if fuel == 0 then OutOfFuel
    else if WorkerStops(st, maxVisited) then
      assert st.dispatched[..|st.dispatched|] == st.dispatched;
      Capped(st)
    else if Admit(st.queue[0], st.visited) && discover(st.queue[0]).failed then
      assert st.dispatched[..|st.dispatched|] == st.dispatched;
      Aborted(st)
    else
      var next := CrawlStep(st, maxDepth, discover);
      var r := CrawlLoop(next, maxDepth, maxVisited, discover, fuel - 1);
      if r.Finished? || r.Capped? || r.Aborted? then
        assert r.state.dispatched[..|st.dispatched|] == r.state.dispatched[..|next.dispatched|][..|st.dispatched|];
        r
      else r
  }

  /** The target a crawl starts from. */
  function Root(url: string, maxDepth: int): Target {
    Target(url, "", url, 0, maxDepth)
  }

  /** The state before the first step: the root announced with a +1. */
  function Start(url: string, maxDepth: int): Crawl {
    Crawl([Root(url, maxDepth)], {}, [], NoMetrics, [1])
  }

  /** Crawl, sequentialised: a negative depth limit is an error; otherwise
      the root URL is announced with a +1 delta and the schedule runs. A
      crawl that finishes scraped the root first, every URL at most once
      and no more than MaxVisitedUrls of them, and the monitor shut it down
      exactly at the last delta. */
  function CrawlFrom(url: string, maxDepth: int, maxVisited: int, discover: Target -> Found, fuel: nat): (r: Outcome)
    ensures r.DepthError? <==> maxDepth < 0
    ensures r.Finished? || r.Capped? || r.Aborted? ==>
              DistinctURLs(r.state.dispatched) && r.state.metrics.urlsVisited == |r.state.dispatched|
              && (maxVisited >= 0 ==> |r.state.dispatched| <= maxVisited)
    ensures r.Finished? && url != "" ==> |r.state.dispatched| >= 1 && r.state.dispatched[0] == Root(url, maxDepth)
    ensures r.Finished? ==> Monitor(r.state.trace, 0) == Some(|r.state.trace| - 1)
  {
    if maxDepth < 0 then DepthError
    else
      var signals := ProcessScrapedUrls([Root(url, maxDepth)], maxDepth);
      assert Ones(1) == [1];
      var st := Crawl(Forwards(signals), {}, [], NoMetrics, Deltas(signals));
      assert st == Start(url, maxDepth);
      assert URLsOf([]) == {};
      var r := CrawlLoop(st, maxDepth, maxVisited, discover, fuel);
      if r.Finished? then
        MonitorFiresAtEnd(r.state.trace);
        if url != "" then RootScrapedFirst(url, maxDepth, maxVisited, discover, fuel); r else r
      else r
  }

  lemma RootScrapedFirst(url: string, maxDepth: int, maxVisited: int, discover: Target -> Found, fuel: nat)
    requires url != "" && maxDepth >= 0
    requires Consistent(Start(url, maxDepth)) && Balanced(Start(url, maxDepth))
    requires CrawlLoop(Start(url, maxDepth), maxDepth, maxVisited, discover, fuel).Finished?
    ensures var d := CrawlLoop(Start(url, maxDepth), maxDepth, maxVisited, discover, fuel).state.dispatched;
            |d| >= 1 && d[0] == Root(url, maxDepth)
  {
    var st := Start(url, maxDepth);
    var next := CrawlStep(st, maxDepth, discover);
    assert next.dispatched == [Root(url, maxDepth)];
    var r := CrawlLoop(next, maxDepth, maxVisited, discover, fuel - 1);
    assert r.state.dispatched[..1] == [Root(url, maxDepth)];
  }

  /** readinessCheck: the crawler is ready when exactly the configured
      number of workers has registered. */
  function ReadinessCheck(registered: set<int>, workerCount: int): (r: Status)
    ensures r.Nil? <==> |registered| == workerCount
  {
    if |registered| != workerCount then Failed(Unnamed) else Nil
  }

  /** The numbers of `n` deployed workers. */
  function Deployed(n: nat): (r: set<int>)
    ensures forall i :: i in r <==> 0 <= i < n
    ensures |r| == n
  {
    if n == 0 then {} else Deployed(n - 1) + {n - 1}
  }

  /** The check passes when every deployed worker has registered, and
      fails when one of them has not. */
  lemma {:induction false} ReadinessOfWorkers(n: nat, registered: set<int>)
    requires forall i :: i in registered ==> 0 <= i < n
    ensures ReadinessCheck(registered, n).Nil? <==> forall i :: 0 <= i < n ==> i in registered
  {
    var all := Deployed(n);
    assert registered <= all;
    if forall i :: 0 <= i < n ==> i in registered {
      assert registered == all;
    } else {
      var k :| 0 <= k < n && k !in registered;
      var missing := all - registered;
      assert k in missing;
      assert all == registered + missing && registered * missing == {};
      assert |missing| >= 1;
    }
  }
}

/** The bookkeeping of the legacy crawler (webCrawler/webCrawler.go): the
    depth gate sits in the worker, and the processor drops empty and
    visited URLs without telling the monitor. */
module LegacyCrawler {
  import opened Outcomes
  import opened Rules
  import opened Crawler

  /** Metrics of the legacy crawler: no URL and no duplicate count. */
  datatype LegacyMetrics = LegacyMetrics(urlsFound: int, urlsVisited: int, itemsFound: int)

  /** incrementMetrics: each counter grows by its delta. */
  function LegacyIncrementMetrics(m: LegacyMetrics, d: LegacyMetrics): (r: LegacyMetrics)
    ensures r.urlsFound == m.urlsFound + d.urlsFound
    ensures r.urlsVisited == m.urlsVisited + d.urlsVisited
    ensures r.itemsFound == m.itemsFound + d.itemsFound
  {
    LegacyMetrics(
      if d.urlsFound != 0 then m.urlsFound + d.urlsFound else m.urlsFound,
      if d.urlsVisited != 0 then m.urlsVisited + d.urlsVisited else m.urlsVisited,
      if d.itemsFound != 0 then m.itemsFound + d.itemsFound else m.itemsFound)
  }

  /** The legacy counters move exactly as the current ones do. */
  lemma {:induction false} LegacyMetricsAgree(m: Metrics, d: Metrics)
    ensures var r := IncrementMetrics(m, d);
            LegacyIncrementMetrics(LegacyMetrics(m.urlsFound, m.urlsVisited, m.itemsFound), LegacyMetrics(d.urlsFound, d.urlsVisited, d.itemsFound))
            == LegacyMetrics(r.urlsFound, r.urlsVisited, r.itemsFound)
  {
  }

  /** processScrapedUrls: every URL, in order, each followed by a +1
      delta; no depth check. */
  function LegacyProcessScrapedUrls(urls: seq<Target>): (r: seq<Signal>)
    ensures Forwards(r) == urls && Deltas(r) == Ones(|urls|)
  {
    Announce(urls)
  }

  /** The check in the worker: the found URLs are passed on only when
      there are some and the first is within the depth limit. */
  function LegacyWorkerForwards(found: seq<Target>, maxDepth: int): (r: seq<Signal>)
    ensures |found| == 0 || found[0].currentDepth > maxDepth ==> r == []
    ensures |found| > 0 && found[0].currentDepth <= maxDepth ==> Forwards(r) == found
  {
    if |found| != 0 && found[0].currentDepth <= maxDepth then LegacyProcessScrapedUrls(found) else []
  }

  /** Moving the depth check from the worker into processScrapedUrls
      changed nothing for the URLs a worker finds. */
  lemma {:induction false} DepthGateMoved(found: seq<Target>, maxDepth: int)
    ensures LegacyWorkerForwards(found, maxDepth) == ProcessScrapedUrls(found, maxDepth)
  {
  }

  datatype LegacyDedup = LegacyDedup(dispatched: seq<Target>, visited: set<string>)

  /** processCrawledLinks as a fold over the arriving targets: an empty or
      visited URL is skipped without a word; any other is marked visited
      and sent on. */
  function LegacyProcessCrawledLinks(arrivals: seq<Target>, visited: set<string>): (r: LegacyDedup)
    ensures |r.dispatched| <= |arrivals|
    decreases |arrivals|
  {
    if |arrivals| == 0 then LegacyDedup([], visited)
    else
      var u := arrivals[0];
      if u.currentURL == "" then LegacyProcessCrawledLinks(arrivals[1..], visited)
      else if u.currentURL in visited then LegacyProcessCrawledLinks(arrivals[1..], visited)
      else
        var r := LegacyProcessCrawledLinks(arrivals[1..], visited + {u.currentURL});
        LegacyDedup([u] + r.dispatched, r.visited)
  }

  /** Both processors send on the same targets and end with the same
      visited set; only the current one reports what it drops. */
  lemma {:induction false} ProcessorsAgree(arrivals: seq<Target>, visited: set<string>)
    ensures var l := LegacyProcessCrawledLinks(arrivals, visited);
            var c := ProcessCrawledUrls(arrivals, visited);
            l.dispatched == c.dispatched && l.visited == c.visited
            && |arrivals| - |l.dispatched| == c.duplicates
    decreases |arrivals|
  {
    if |arrivals| > 0 {
      var u := arrivals[0];
      if Admit(u, visited) {
        ProcessorsAgree(arrivals[1..], visited + {u.currentURL});
      } else {
        ProcessorsAgree(arrivals[1..], visited);
      }
    }
  }

  // ---------------------------------------------------------------------
  // A sequential crawl

  /** The state of a legacy crawl; `dropped` counts the arrivals the
      processor skipped. */
  datatype LegacyCrawl = LegacyCrawl(queue: seq<Target>, visited: set<string>, dispatched: seq<Target>, metrics: LegacyMetrics, trace: seq<int>, dropped: nat)

  predicate LegacyConsistent(st: LegacyCrawl) {
    && DistinctURLs(st.dispatched)
    && (forall i :: 0 <= i < |st.dispatched| ==> st.dispatched[i].currentURL != "")
    && st.visited == URLsOf(st.dispatched)
    && st.metrics.urlsVisited == |st.dispatched|
  }

  /** The count of the monitor exceeds the number of pending targets by
      the number of skipped arrivals, and has not reached 0 before. */
  predicate LegacyBalanced(st: LegacyCrawl) {
    |st.trace| >= 1 && Sum(st.trace) == |st.queue| + st.dropped && PositivePrefixes(st.trace)
  }

  lemma LegacyDispatchKeepsConsistent(st: LegacyCrawl, u: Target, m: LegacyMetrics)
    requires LegacyConsistent(st) && Admit(u, st.visited) && m.urlsVisited == st.metrics.urlsVisited + 1
    ensures LegacyConsistent(LegacyCrawl(st.queue, st.visited + {u.currentURL}, st.dispatched + [u], m, st.trace, st.dropped))
  {
    DispatchKeepsConsistent(Crawl(st.queue, st.visited, st.dispatched, NoMetrics.(urlsVisited := |st.dispatched|), st.trace), u, NoMetrics.(urlsVisited := |st.dispatched| + 1));
  }

  /** One step: the processor takes the first pending target and skips it
      silently, or marks it visited; a worker scrapes it, the metrics take
      its counts, its URLs pass the depth check of the worker, each with a
      +1 delta, and it sends its -1. */
  function LegacyCrawlStep(st: LegacyCrawl, maxDepth: int, discover: Target -> Found): (r: LegacyCrawl)
    requires |st.queue| > 0 && LegacyConsistent(st) && LegacyBalanced(st)
    ensures LegacyConsistent(r) && LegacyBalanced(r)
    ensures r.dropped == st.dropped + (if Admit(st.queue[0], st.visited) then 0 else 1)
  {
    var u := st.queue[0];
    var queue := st.queue[1..];
    if !Admit(u, st.visited) then
      LegacyCrawl(queue, st.visited, st.dispatched, st.metrics, st.trace, st.dropped + 1)
    else
      var found := discover(u);
      var m := LegacyIncrementMetrics(st.metrics, LegacyMetrics(|found.urls|, 1, found.items));
      LegacyDispatchKeepsConsistent(st, u, m);
      var signals := LegacyWorkerForwards(found.urls, maxDepth);
      var fwd := Forwards(signals);
      assert Deltas(signals) == Ones(|fwd|);
      var ext := Ones(|fwd|) + [-1];
      assert forall k :: 1 <= k < |ext| ==> ext[..k] == Ones(|fwd|)[..k];
      AppendKeepsPositive(st.trace, ext);
      SumConcat(st.trace, ext);
      SumConcat(Ones(|fwd|), [-1]);
      assert Sum([-1]) == -1;
      LegacyCrawl(queue + fwd, st.visited + {u.currentURL}, st.dispatched + [u], m, st.trace + ext, st.dropped)
  }

  datatype LegacyOutcome = LegacyFinished(state: LegacyCrawl) | LegacyCapped(state: LegacyCrawl) | LegacyOutOfFuel | LegacyDepthError

  /** The schedule run until no target is pending or a worker stops at
      MaxVisitedUrls; scrape errors are ignored. */
  function LegacyCrawlLoop(st: LegacyCrawl, maxDepth: int, maxVisited: int, discover: Target -> Found, fuel: nat): (r: LegacyOutcome)
    requires LegacyConsistent(st) && LegacyBalanced(st)
    ensures r.LegacyFinished? || r.LegacyCapped? ==> LegacyConsistent(r.state) && LegacyBalanced(r.state) && r.state.dropped >= st.dropped
    ensures r.LegacyFinished? ==> |r.state.queue| == 0
    ensures !r.LegacyDepthError?
    decreases fuel
  {
    if |st.queue| == 0 then LegacyFinished(st)
    else if fuel == 0 then LegacyOutOfFuel
    else if Admit(st.queue[0], st.visited) && maxVisited <= st.metrics.urlsVisited then LegacyCapped(st)
    else LegacyCrawlLoop(LegacyCrawlStep(st, maxDepth, discover), maxDepth, maxVisited, discover, fuel - 1)
  }

  function LegacyStart(url: string, maxDepth: int): LegacyCrawl {
    LegacyCrawl([Root(url, maxDepth)], {}, [], LegacyMetrics(0, 0, 0), [1], 0)
  }

  /** Crawl, sequentialised: the root URL is announced, a negative depth
      limit is an error, and the schedule runs. A crawl that ran out of
      targets is shut down by the monitor at its last delta when nothing
      was skipped, and never when something was: the count stays at the
      number of skipped arrivals. */
  function LegacyCrawlFrom(url: string, maxDepth: int, maxVisited: int, discover: Target -> Found, fuel: nat): (r: LegacyOutcome)
    ensures r.LegacyDepthError? <==> maxDepth < 0
    ensures r.LegacyFinished? || r.LegacyCapped? ==> DistinctURLs(r.state.dispatched)
    ensures r.LegacyFinished? ==> Sum(r.state.trace) == r.state.dropped
    ensures r.LegacyFinished? && r.state.dropped == 0 ==> Monitor(r.state.trace, 0) == Some(|r.state.trace| - 1)
    ensures r.LegacyFinished? && r.state.dropped > 0 ==> Monitor(r.state.trace, 0) == None
  {
    var st := LegacyStart(url, maxDepth);
    assert LegacyProcessScrapedUrls([Root(url, maxDepth)]) == Announce([Root(url, maxDepth)]);
    assert Ones(1) == [1];
    if maxDepth < 0 then LegacyDepthError
    else
      assert URLsOf([]) == {};
      var r := LegacyCrawlLoop(st, maxDepth, maxVisited, discover, fuel);
      if r.LegacyFinished? then
        if r.state.dropped == 0 then MonitorFiresAtEnd(r.state.trace); r
        else MonitorNeverFires(r.state.trace); r
      else r
  }

  // ---------------------------------------------------------------------
  // A page that links to itself

  /** The scrape of a page that links only to itself, one level down. */
  function SelfLink(t: Target): Found {
    Found([Target(t.currentURL, t.currentURL, t.rootURL, t.currentDepth + 1, t.maxDepth)], 0, false)
  }

  /** With a depth limit of 1, the legacy crawl of a page linking to
      itself skips the second arrival of its URL and then never shuts
      down. */
  lemma LegacySelfLinkNeverShutsDown(url: string)
    requires url == "r"
    ensures var r := LegacyCrawlFrom(url, 1, 10, SelfLink, 3);
            r.LegacyFinished? && r.state.dropped == 1 && Monitor(r.state.trace, 0) == None
  {
    var st0 := LegacyStart(url, 1);
    assert URLsOf([]) == {};
    var st1 := LegacyCrawlStep(st0, 1, SelfLink);
    assert st1.queue == [Target(url, url, url, 1, 1)] && st1.visited == {url};
    var st2 := LegacyCrawlStep(st1, 1, SelfLink);
    assert st2.queue == [] && st2.dropped == 1;
    assert LegacyCrawlLoop(st2, 1, 10, SelfLink, 1) == LegacyFinished(st2);
    assert LegacyCrawlLoop(st1, 1, 10, SelfLink, 2) == LegacyFinished(st2);
    assert LegacyCrawlLoop(st0, 1, 10, SelfLink, 3) == LegacyFinished(st2);
  }

  /** The current crawl of the same page counts the second arrival as a
      duplicate, sends its -1, and is shut down at the last delta. */
  lemma SelfLinkShutsDown(url: string)
    requires url == "r"
    ensures var r := CrawlFrom(url, 1, 10, SelfLink, 3);
            r.Finished? && r.state.metrics.duplicatedUrlsFound == 1 && Monitor(r.state.trace, 0) == Some(|r.state.trace| - 1)
  {
    var st0 := Start(url, 1);
    assert Ones(1) == [1];
    assert URLsOf([]) == {};
    var st1 := CrawlStep(st0, 1, SelfLink);
    assert st1.queue == [Target(url, url, url, 1, 1)] && st1.visited == {url} && st1.metrics.duplicatedUrlsFound == 0;
    var st2 := CrawlStep(st1, 1, SelfLink);
    assert st2.queue == [] && st2.metrics.duplicatedUrlsFound == 1;
    assert CrawlLoop(st2, 1, 10, SelfLink, 1) == Finished(st2);
    assert CrawlLoop(st1, 1, 10, SelfLink, 2) == Finished(st2);
    assert CrawlLoop(st0, 1, 10, SelfLink, 3) == Finished(st2);
  }
}
