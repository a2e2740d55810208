/** The sliding-window rate limiter of core/rate_limiter.py.

    Each request runs four commands on one Redis sorted set (add, prune, count, set expiry) and is
    admitted when the count does not exceed the maximum.  Times are reals: rounding is not modelled. */
module RateLimiter {
  import opened Base

  /** The set member `str(current_time)`.  Distinct numbers print differently, equal ones alike. */
  datatype Member = Text(of: real)

  /** A sorted set with its scores, and the instant from which Redis may drop the key. */
  datatype Entry = Entry(members: map<Member, real>, deadline: real)

  /** A request on one key: the clock it read, and whether Redis had dropped the key by then.
      A key past its deadline may or may not have been dropped: no result depends on it. */
  datatype Request = Request(at: real, dropped: bool)

  const ABSENT := Entry(map[], 0.0)

  // ---------- The question the limiter is meant to answer, asked of the whole history ----------

  /** Clocks are never negative and never run backwards; a key is dropped only once the expiry set
      by the request before has passed. */
  ghost predicate WellFormed(h: seq<Request>, window: real) {
    && (forall i :: 0 <= i < |h| ==> 0.0 <= h[i].at)
    && (forall i, j :: 0 <= i < j < |h| ==> h[i].at <= h[j].at)
    && (forall i, j :: 0 <= i < j < |h| && h[j].dropped ==> h[i].at + window <= h[j].at)
  }

  /** The distinct timestamps in (t - window, t] of all requests so far, rejected ones included,
      where t is the time of the last one. */
  ghost function Live(h: seq<Request>, window: real): set<real>
    requires h != []
  {
    set q | q in h && h[|h| - 1].at - window < q.at :: q.at
  }

  // ---------- The fast form ----------

  /** What a request finds under its key. */
  function Seen(e: Entry, dropped: bool): Entry {
    if dropped then ABSENT else e
  }

  function WithMember(e: Entry, member: Member, score: real): Entry {
    e.(members := e.members[member := score])
  }

  function WithoutScores(e: Entry, low: real, high: real): Entry {
    e.(members := map m | m in e.members && !(low <= e.members[m] <= high) :: e.members[m])
  }

  /** The pipeline on one entry: add, prune, (count,) set the expiry. */
  function Touch(e: Entry, q: Request, window: real): Entry {
    WithoutScores(WithMember(Seen(e, q.dropped), Text(q.at), q.at), 0.0, q.at - window).(deadline := q.at + window)
  }

  function After(h: seq<Request>, window: real): Entry {
    if h == [] then ABSENT else Touch(After(h[..|h| - 1], window), h[|h| - 1], window)
  }

  /** Whether request `i` of the history was let through. */
  predicate Admitted(h: seq<Request>, max: int, window: real, i: int)
    requires 0 <= i < |h|
  {
    |After(h[..i + 1], window).members| <= max
  }

  // ---------- Refinement ----------

  ghost predicate Holds(z: map<Member, real>, times: set<real>) {
    && (forall m :: m in z ==> z[m] == m.of && m.of in times)
    && (forall x :: x in times ==> Text(x) in z)
  }

  lemma {:induction false} HoldsSize(z: map<Member, real>, times: set<real>)
    requires Holds(z, times)
    ensures |z| == |times|
  {
    var f := (m: Member) => m.of;
    forall x | x in times ensures exists m :: m in z.Keys && f(m) == x {
      assert f(Text(x)) == x;
    }
    SameSize(f, z.Keys, times);
  }

  lemma WellFormedPrefix(h: seq<Request>, window: real, n: nat)
    requires WellFormed(h, window) && n <= |h|
    ensures WellFormed(h[..n], window)
  {}

  lemma AfterExtends(before: seq<Request>, q: Request, window: real)
    ensures After(before + [q], window) == Touch(After(before, window), q, window)
  {}

  /** What the window keeps when one more request arrives. */
  ghost function Slide(times: set<real>, at: real, window: real): set<real> {
    set x | x in times + {at} && at - window < x
  }

  lemma TouchHolds(e: Entry, q: Request, window: real, times: set<real>)
    requires Holds(Seen(e, q.dropped).members, times)
    requires 0.0 <= q.at && forall x :: x in times ==> 0.0 <= x
    ensures Holds(Touch(e, q, window).members, Slide(times, q.at, window))
  {}

  lemma LiveSlides(before: seq<Request>, q: Request, window: real)
    requires WellFormed(before + [q], window)
    ensures Live(before + [q], window)
         == Slide(Remembered(before, q.dropped, window), q.at, window)
  {
    var h, n := before + [q], |before|;
    assert h[n] == q && (n > 0 ==> h[n - 1] == before[n - 1]);
    var slid := Slide(Remembered(before, q.dropped, window), q.at, window);
    forall x | x in Live(h, window) ensures x in slid {
      var i :| 0 <= i < |h| && h[i].at == x && q.at - window < h[i].at;
      if i < n && x != q.at {
        assert before[i] == h[i];
        assert h[i].at <= h[n - 1].at <= h[n].at;
        assert x in Live(before, window);
      }
    }
    forall x | x in slid ensures x in Live(h, window) {
      if x == q.at {
        assert q in h;
      } else {
        var i :| 0 <= i < n && before[i].at == x;
        assert h[i] == before[i] && h[i] in h;
      }
    }
  }

  /** What is live before a request that may have found its key dropped. */
  ghost function Remembered(before: seq<Request>, dropped: bool, window: real): set<real> {
    if before == [] || dropped then {} else Live(before, window)
  }

  lemma RememberedTimes(before: seq<Request>, q: Request, window: real)
    requires WellFormed(before + [q], window)
    ensures WellFormed(before, window) && 0.0 <= q.at
    ensures forall x :: x in Remembered(before, q.dropped, window) ==> 0.0 <= x
  {
    assert (before + [q])[..|before|] == before;
    WellFormedPrefix(before + [q], window, |before|);
    assert (before + [q])[|before|] == q;
    forall x | x in Remembered(before, q.dropped, window) ensures 0.0 <= x {
      var i :| 0 <= i < |before| && before[i].at == x;
    }
  }

  lemma HoldsNext(e: Entry, before: seq<Request>, q: Request, window: real)
    requires WellFormed(before + [q], window)
    requires if before == [] then e == ABSENT else Holds(e.members, Live(before, window))
    ensures Holds(Touch(e, q, window).members, Live(before + [q], window))
  {
    RememberedTimes(before, q, window);
    TouchHolds(e, q, window, Remembered(before, q.dropped, window));
    LiveSlides(before, q, window);
  }

  lemma {:induction false} HoldsAlways(h: seq<Request>, window: real)
    requires WellFormed(h, window) && h != []
    ensures Holds(After(h, window).members, Live(h, window))
    decreases |h|
  {
    var before, q := h[..|h| - 1], h[|h| - 1];
    assert h == before + [q];
    if before != [] {
      WellFormedPrefix(h, window, |h| - 1);
      HoldsAlways(before, window);
    }
    HoldsNext(After(before, window), before, q, window);
    AfterExtends(before, q, window);
  }

  /** The pruned, expiring sorted set is exactly the set of live timestamps. */
  lemma {:induction false} SetIsLive(h: seq<Request>, window: real)
    requires WellFormed(h, window) && h != []
    ensures Holds(After(h, window).members, Live(h, window))
    ensures |After(h, window).members| == |Live(h, window)|
  {
    HoldsAlways(h, window);
    HoldsSize(After(h, window).members, Live(h, window));
  }

  /** A request is admitted exactly when the distinct timestamps in its window number at most `max`. */
  lemma AdmittedExactly(h: seq<Request>, max: int, window: real, i: int)
    requires WellFormed(h, window) && 0 <= i < |h|
    ensures Admitted(h, max, window, i) <==> |Live(h[..i + 1], window)| <= max
  {
    WellFormedPrefix(h, window, i + 1);
    SetIsLive(h[..i + 1], window);
  }

  /** Key expiry never changes a decision: histories that differ only in what Redis dropped agree. */
  lemma ExpiryNeverDecides(h: seq<Request>, h': seq<Request>, max: int, window: real, i: int)
    requires WellFormed(h, window) && WellFormed(h', window)
    requires |h| == |h'| && forall k :: 0 <= k < |h| ==> h[k].at == h'[k].at
    requires 0 <= i < |h|
    ensures Admitted(h, max, window, i) <==> Admitted(h', max, window, i)
  {
    AdmittedExactly(h, max, window, i);
    AdmittedExactly(h', max, window, i);
    LiveByTimes(h[..i + 1], h'[..i + 1], window);
    LiveByTimes(h'[..i + 1], h[..i + 1], window);
    assert Live(h[..i + 1], window) == Live(h'[..i + 1], window);
  }

  lemma LiveByTimes(h: seq<Request>, h': seq<Request>, window: real)
    requires h != [] && |h| == |h'| && forall k :: 0 <= k < |h| ==> h[k].at == h'[k].at
    ensures Live(h, window) <= Live(h', window)
  {}

  // ---------- The bound a rate limiter promises ----------

  /** The indices of the requests admitted in (a, a + window]. */
  ghost function AdmittedIn(h: seq<Request>, max: int, window: real, a: real): set<int> {
    set i | 0 <= i < |h| && Admitted(h, max, window, i) && a < h[i].at <= a + window
  }

  ghost function Times(h: seq<Request>, indices: set<int>): set<real> {
    set i | i in indices && 0 <= i < |h| :: h[i].at
  }

  lemma AdmittedInPrefix(h: seq<Request>, max: int, window: real, a: real)
    requires h != []
    ensures AdmittedIn(h, max, window, a) - {|h| - 1} == AdmittedIn(h[..|h| - 1], max, window, a)
  {
    var p := h[..|h| - 1];
    forall i | 0 <= i < |p| ensures Admitted(h, max, window, i) <==> Admitted(p, max, window, i) {
      assert h[..i + 1] == p[..i + 1];
    }
  }

  /** In any interval (a, a + window], for every a and every run, the admitted requests carry at
      most `max` distinct timestamps (none at all when `max` is negative). */
  lemma {:induction false} WindowBound(h: seq<Request>, max: int, window: real, a: real)
    requires WellFormed(h, window)
    ensures |Times(h, AdmittedIn(h, max, window, a))| <= if max < 0 then 0 else max
    decreases |h|
  {
    var admitted := AdmittedIn(h, max, window, a);
    if h == [] {
      assert Times(h, admitted) == {};
    } else if |h| - 1 in admitted {
      AdmittedAreLive(h, max, window, a);
    } else {
      var p := h[..|h| - 1];
      AdmittedInPrefix(h, max, window, a);
      WellFormedPrefix(h, window, |h| - 1);
      WindowBound(p, max, window, a);
      assert admitted == AdmittedIn(p, max, window, a);
      SameTimes(h, admitted);
    }
  }

  lemma SameTimes(h: seq<Request>, indices: set<int>)
    requires h != [] && forall i :: i in indices ==> 0 <= i < |h| - 1
    ensures Times(h, indices) == Times(h[..|h| - 1], indices)
  {}

  /** Once the last request is admitted, every admitted time of the interval is among the live ones it counted. */
  lemma AdmittedAreLive(h: seq<Request>, max: int, window: real, a: real)
    requires WellFormed(h, window) && h != [] && |h| - 1 in AdmittedIn(h, max, window, a)
    ensures |Times(h, AdmittedIn(h, max, window, a))| <= max
  {
    var n := |h| - 1;
    var times := Times(h, AdmittedIn(h, max, window, a));
    AdmittedExactly(h, max, window, n);
    assert h[..n + 1] == h;
    forall x | x in times ensures x in Live(h, window) {
      var i :| 0 <= i < |h| && a < h[i].at && h[i].at == x;
      assert h[i].at <= h[n].at;
      InLive(h, window, i);
    }
    SubsetSize(times, Live(h, window));
  }

  lemma InLive(h: seq<Request>, window: real, i: nat)
    requires i < |h| && h[|h| - 1].at - window < h[i].at
    ensures h[i].at in Live(h, window)
  {}

  ghost predicate DistinctTimes(h: seq<Request>) {
    forall i, j :: 0 <= i < j < |h| ==> h[i].at != h[j].at
  }

  lemma DistinctTimesSize(h: seq<Request>, indices: set<int>)
    requires DistinctTimes(h) && forall i :: i in indices ==> 0 <= i < |h|
    ensures |Times(h, indices)| == |indices|
  {
    SameSize((i: int) => if 0 <= i < |h| then h[i].at else 0.0, indices, Times(h, indices));
  }

  /** Hence at most `max` requests get through when no two of them share a timestamp. */
  lemma RequestBound(h: seq<Request>, max: int, window: real, a: real)
    requires WellFormed(h, window)
    requires DistinctTimes(h)
    ensures |AdmittedIn(h, max, window, a)| <= if max < 0 then 0 else max
  {
    var admitted := AdmittedIn(h, max, window, a);
    WindowBound(h, max, window, a);
    DistinctTimesSize(h, admitted);
  }

  /** A client that sends `n` requests at one instant. */
  ghost function Burst(n: nat, at: real): (h: seq<Request>)
    ensures |h| == n && forall i :: 0 <= i < n ==> h[i] == Request(at, false)
  {
    seq(n, _ => Request(at, false))
  }

  lemma BurstAdmitted(n: nat, at: real, max: int, window: real, i: nat)
    requires 1 <= max && 0.0 < window && 0.0 <= at && i < n
    ensures Admitted(Burst(n, at), max, window, i)
  {
    var p := Burst(n, at)[..i + 1];
    assert p[0] in p;
    assert Live(p, window) == {at};
    AdmittedExactly(Burst(n, at), max, window, i);
  }

  /** The multiplicity can be anything: a burst of any size at one instant is admitted whole. */
  lemma SameInstantIsUnbounded(n: nat, at: real, max: int, window: real)
    requires 1 <= max && 0.0 < window && 0.0 <= at
    ensures WellFormed(Burst(n, at), window)
    ensures |AdmittedIn(Burst(n, at), max, window, at - window)| == n
  {
    var admitted := AdmittedIn(Burst(n, at), max, window, at - window);
    forall i | 0 <= i < n ensures i in admitted {
      BurstAdmitted(n, at, max, window, i);
    }
    assert admitted == Below(n);
  }

  ghost function Below(n: nat): (s: set<int>)
    ensures |s| == n && forall i :: i in s <==> 0 <= i < n
  {
    if n == 0 then {} else Below(n - 1) + {n - 1}
  }

  // ---------- Requests that share a timestamp ----------

  /** The same window read off the indices of the history. */
  ghost function LiveAt(h: seq<Request>, i: int, window: real): set<real>
    requires 0 <= i < |h|
  {
    set k | 0 <= k <= i && h[i].at - window < h[k].at :: h[k].at
  }

  lemma LiveAtIsLive(h: seq<Request>, i: int, window: real)
    requires 0 <= i < |h|
    ensures Live(h[..i + 1], window) == LiveAt(h, i, window)
  {
    var p := h[..i + 1];
    forall x | x in Live(p, window) ensures x in LiveAt(h, i, window) {
      var k :| 0 <= k < |p| && p[k].at == x;
      assert h[k] == p[k];
    }
    forall x | x in LiveAt(h, i, window) ensures x in Live(p, window) {
      var k :| 0 <= k <= i && h[k].at == x;
      assert h[k] == p[k] && p[k] in p;
    }
  }

  lemma AdmittedAt(h: seq<Request>, max: int, window: real, i: int)
    requires WellFormed(h, window) && 0 <= i < |h|
    ensures Admitted(h, max, window, i) <==> |LiveAt(h, i, window)| <= max
  {
    AdmittedExactly(h, max, window, i);
    LiveAtIsLive(h, i, window);
  }

  ghost predicate Ordered(h: seq<Request>) {
    forall i, j :: 0 <= i < j < |h| ==> h[i].at <= h[j].at
  }

  lemma SharedWindow(h: seq<Request>, window: real, i: int, j: int)
    requires Ordered(h) && 0 <= i < j < |h| && h[i].at == h[j].at
    ensures LiveAt(h, i, window) == LiveAt(h, j, window)
  {
    forall k | i < k <= j ensures h[k].at == h[i].at {
      assert h[i].at <= h[k].at && (k < j ==> h[k].at <= h[j].at);
    }
  }

  /** Equal timestamps collapse into one member, so requests that share one are admitted or refused together. */
  lemma SharedTimestampSharesVerdict(h: seq<Request>, max: int, window: real, i: int, j: int)
    requires WellFormed(h, window) && 0 <= i < j < |h| && h[i].at == h[j].at
    ensures Admitted(h, max, window, i) <==> Admitted(h, max, window, j)
  {
    AdmittedAt(h, max, window, i);
    AdmittedAt(h, max, window, j);
    SharedWindow(h, window, i, j);
  }

  /** The requests that carry the timestamp `x`. */
  ghost function Sharing(h: seq<Request>, x: real): set<int> {
    set i | 0 <= i < |h| && h[i].at == x
  }

  lemma ProductStep(n: nat, most: nat)
    ensures (n + 1) * most == n * most + most
  {}

  lemma ProductMonotone(n: nat, max: nat, most: nat)
    requires n <= max
    ensures n * most <= max * most
  {}

  lemma TimesWithout(h: seq<Request>, indices: set<int>, x: real)
    requires x in Times(h, indices)
    ensures |Times(h, indices)| == |Times(h, indices - Sharing(h, x))| + 1
  {
    assert Times(h, indices - Sharing(h, x)) == Times(h, indices) - {x};
  }

  lemma {:induction false} SharingBound(h: seq<Request>, indices: set<int>, most: nat)
    requires forall i :: i in indices ==> 0 <= i < |h|
    requires forall x :: |Sharing(h, x)| <= most
    ensures |indices| <= |Times(h, indices)| * most
    decreases |indices|
  {
    if indices != {} {
      var k := Pick(indices);
      var x := h[k].at;
      var shared, rest := indices * Sharing(h, x), indices - Sharing(h, x);
      assert k in shared && indices == rest + shared;
      SubsetSize(shared, Sharing(h, x));
      assert |indices| == |rest| + |shared|;
      SharingBound(h, rest, most);
      TimesWithout(h, indices, x);
      ProductStep(|Times(h, rest)|, most);
    }
  }

  /** When at most `most` requests share any one timestamp, at most `max * most` get through per window. */
  lemma MultiplicityBound(h: seq<Request>, max: nat, window: real, a: real, most: nat)
    requires WellFormed(h, window) && forall x :: |Sharing(h, x)| <= most
    ensures |AdmittedIn(h, max, window, a)| <= max * most
  {
    var admitted := AdmittedIn(h, max, window, a);
    WindowBound(h, max, window, a);
    SharingBound(h, admitted, most);
    ProductMonotone(|Times(h, admitted)|, max, most);
  }

  /** What the limiter is meant to guarantee for one setting: at most `max` requests in any window. */
  ghost predicate Bounded(h: seq<Request>, max: int, window: int) {
    forall a :: |AdmittedIn(h, max, Seconds(window), a)| <= max
  }

  function Seconds(window: int): real { window as real }

  lemma {:induction false} TimesSize(h: seq<Request>, indices: set<int>)
    ensures |Times(h, indices)| <= |indices|
    decreases |indices|
  {
    if indices == {} {
      assert Times(h, indices) == {};
    } else {
      var k := Pick(indices);
      TimesSize(h, indices - {k});
      var here := if 0 <= k < |h| then {h[k].at} else {};
      assert Times(h, indices) == Times(h, indices - {k}) + here;
    }
  }

  /** A shared timestamp leaves fewer distinct timestamps than requests. */
  lemma SharedTimesFewer(h: seq<Request>, i: int, j: int)
    requires 0 <= i < j < |h| && h[i].at == h[j].at
    ensures |Times(h, Below(|h|))| < |h|
  {
    var rest := Below(|h|) - {j};
    forall x | x in Times(h, Below(|h|)) ensures x in Times(h, rest) {
      var k :| 0 <= k < |h| && h[k].at == x;
      assert (if k == j then i else k) in rest;
    }
    assert Times(h, Below(|h|)) == Times(h, rest);
    TimesSize(h, rest);
  }

  /** With `max` the number of distinct timestamps, a window that covers the whole history admits it all. */
  lemma AllAdmitted(h: seq<Request>, window: real, a: real)
    requires WellFormed(h, window)
    requires forall i :: 0 <= i < |h| ==> a < h[i].at <= a + window
    ensures AdmittedIn(h, |Times(h, Below(|h|))|, window, a) == Below(|h|)
  {
    var max := |Times(h, Below(|h|))|;
    forall i | 0 <= i < |h| ensures Admitted(h, max, window, i) {
      AdmittedAt(h, max, window, i);
      LiveAtFew(h, window, i);
    }
  }

  lemma LiveAtFew(h: seq<Request>, window: real, i: int)
    requires 0 <= i < |h|
    ensures |LiveAt(h, i, window)| <= |Times(h, Below(|h|))|
  {
    assert forall k :: 0 <= k < |h| ==> k in Below(|h|);
    SubsetSize(LiveAt(h, i, window), Times(h, Below(|h|)));
  }

  lemma DistinctIsBounded(h: seq<Request>, max: int, window: int)
    requires WellFormed(h, Seconds(window)) && DistinctTimes(h) && 0 <= max
    ensures Bounded(h, max, window)
  {
    forall a ensures |AdmittedIn(h, max, Seconds(window), a)| <= max {
      RequestBound(h, max, Seconds(window), a);
    }
  }

  /** The limit and the window that a history with a shared timestamp breaks. */
  lemma SharedIsUnbounded(h: seq<Request>, i: int, j: int) returns (max: int, window: int)
    requires Ordered(h) && 0 <= i < j < |h| && h[i].at == h[j].at
    requires forall k :: 0 <= k < |h| ==> 0.0 <= h[k].at && !h[k].dropped
    ensures 1 <= max && 1 <= window && !Bounded(h, max, window)
  {
    window := h[|h| - 1].at.Floor + 2;
    max := |Times(h, Below(|h|))|;
    SharedTimesFewer(h, i, j);
    assert i in Below(|h|) && h[i].at in Times(h, Below(|h|));
    forall k | 0 <= k < |h| ensures -1.0 < h[k].at <= -1.0 + Seconds(window) {
      assert k < |h| - 1 ==> h[k].at <= h[|h| - 1].at;
    }
    AllAdmitted(h, Seconds(window), -1.0);
    assert |AdmittedIn(h, max, Seconds(window), -1.0)| > max;
  }

  /** Exactly when the promise holds: a history of requests keeps within every limit, for every positive
      maximum and every positive number of seconds, if and only if no two requests share a timestamp.
      (What Redis drops is irrelevant by ExpiryNeverDecides.) */
  lemma BoundedExactly(h: seq<Request>)
    requires Ordered(h) && forall i :: 0 <= i < |h| ==> 0.0 <= h[i].at && !h[i].dropped
    ensures (forall max: int, window: int :: 1 <= max && 1 <= window ==> Bounded(h, max, window)) <==> DistinctTimes(h)
  {
    if DistinctTimes(h) {
      forall max: int, window: int | 1 <= max && 1 <= window ensures Bounded(h, max, window) {
        DistinctIsBounded(h, max, window);
      }
    } else {
      var i, j :| 0 <= i < j < |h| && h[i].at == h[j].at;
      var max, window := SharedIsUnbounded(h, i, j);
    }
  }

  // ---------- Sustained load ----------

  /** The indices of the `n` requests up to `i`. */
  ghost function Recent(i: int, n: nat): (s: set<int>)
    ensures |s| == n && forall j :: j in s <==> i - n < j <= i
  {
    if n == 0 then {} else Recent(i, n - 1) + {i - n + 1}
  }

  lemma CrowdedWindow(h: seq<Request>, max: nat, window: real, i: nat)
    requires Ordered(h) && DistinctTimes(h) && max <= i < |h| && h[i].at - window < h[i - max].at
    ensures |LiveAt(h, i, window)| > max
  {
    var crowd := Recent(i, max + 1);
    DistinctTimesSize(h, crowd);
    forall x | x in Times(h, crowd) ensures x in LiveAt(h, i, window) {
      var j :| j in crowd && 0 <= j < |h| && h[j].at == x;
      assert h[i - max].at <= h[j].at;
    }
    SubsetSize(Times(h, crowd), LiveAt(h, i, window));
  }

  lemma ClearedWindow(h: seq<Request>, max: nat, window: real, i: nat)
    requires Ordered(h) && i < |h| && (max <= i ==> h[i - max].at <= h[i].at - window)
    ensures 0.0 < window ==> |LiveAt(h, i, window)| <= max
  {
    var recent := Recent(i, max);
    forall j | 0 <= j <= i && h[i].at - window < h[j].at ensures 0.0 < window ==> j in recent {}
    if 0.0 < window {
      SubsetSize(LiveAt(h, i, window), Times(h, recent));
      TimesSize(h, recent);
    }
  }

  /** With distinct timestamps the limiter compares each request with the one `max` places before it, whether
      that one was admitted or not: the request gets through exactly when that one has left the window. */
  lemma AdmittedByDistance(h: seq<Request>, max: nat, window: real, i: nat)
    requires WellFormed(h, window) && DistinctTimes(h) && 0.0 < window && i < |h|
    ensures Admitted(h, max, window, i) <==> i < max || h[i - max].at <= h[i].at - window
  {
    AdmittedAt(h, max, window, i);
    if max <= i && h[i].at - window < h[i - max].at {
      CrowdedWindow(h, max, window, i);
    } else {
      ClearedWindow(h, max, window, i);
    }
  }

  /** Lockout: refused requests count like any other, so a client whose requests never thin out, each coming
      less than a window after the one `max` places before, gets its first `max` requests and no more. */
  lemma Lockout(h: seq<Request>, max: nat, window: real)
    requires WellFormed(h, window) && DistinctTimes(h) && 0.0 < window
    requires forall i :: max <= i < |h| ==> h[i].at - window < h[i - max].at
    ensures forall i :: 0 <= i < |h| ==> (Admitted(h, max, window, i) <==> i < max)
  {
    forall i | 0 <= i < |h| ensures Admitted(h, max, window, i) <==> i < max {
      AdmittedByDistance(h, max, window, i);
    }
  }

  // ---------- The wrapper itself ----------

  /** The entry is what the history of its key left behind. */
  ghost predicate Records(e: Entry, h: seq<Request>, window: real) {
    h != [] && WellFormed(h, window) && e == After(h, window)
  }

  lemma RecordsNext(e: Entry, before: seq<Request>, q: Request, window: real)
    requires if before == [] then e == ABSENT else Records(e, before, window)
    requires WellFormed(before + [q], window)
    ensures Records(Touch(e, q, window), before + [q], window)
    ensures |Touch(e, q, window).members| == |Live(before + [q], window)|
  {
    AfterExtends(before, q, window);
    SetIsLive(before + [q], window);
  }

  /** Redis drops a key no earlier than the deadline the last request set. */
  lemma DropIsLate(e: Entry, before: seq<Request>, q: Request, window: real)
    requires if before == [] then e == ABSENT else Records(e, before, window)
    requires 0.0 <= q.at && (before != [] ==> before[|before| - 1].at <= q.at)
    requires q.dropped ==> e.deadline <= q.at
    ensures WellFormed(before + [q], window)
  {
    var h := before + [q];
    forall i | 0 <= i < |before| ensures h[i] == before[i] && before[i].at <= q.at {}
  }

  /** The Redis key of one client on one decorated endpoint.  `log` is its history, kept for the
      specification alone. */
  class Limiter {
    const max: int
    const window: int
    var entry: Entry
    ghost var log: seq<Request>

    function Window(): real { window as real }

    ghost predicate Valid()
      reads this
    {
      if log == [] then entry == ABSENT else Records(entry, log, Window())
    }

    constructor (max: int, window: int)
      ensures Valid() && this.max == max && this.window == window && log == []
    {
      this.max, this.window := max, window;
      entry, log := ABSENT, [];
    }

    method Zadd(member: Member, score: real)
      modifies `entry
      ensures entry == WithMember(old(entry), member, score)
    {
      entry := entry.(members := entry.members[member := score]);
    }

    method Zremrangebyscore(low: real, high: real)
      modifies `entry
      ensures entry == WithoutScores(old(entry), low, high)
    {
      entry := WithoutScores(entry, low, high);
    }

    method Zcard() returns (count: int)
      ensures count == |entry.members|
    {
      count := |entry.members|;
    }

    method Expire(deadline: real)
      modifies `entry
      ensures entry == old(entry).(deadline := deadline)
    {
      entry := entry.(deadline := deadline);
    }

    /** The four commands of the pipeline, in order; `count` is the third reply. */
    method Pipeline(now: real, dropped: bool) returns (count: int)
      modifies `entry
      ensures entry == Touch(old(entry), Request(now, dropped), Window())
      ensures count == |entry.members|
    {
      if dropped {
        entry := ABSENT;
      }
      Zadd(Text(now), now);
      Zremrangebyscore(0.0, now - Window());
      count := Zcard();
      Expire(now + Window());
    }

    /** The pipeline and the test after it.  `dropped` says whether Redis has removed the expired key.
        A request is admitted exactly when the distinct timestamps of its window number at most `max`. */
    method Check(now: real, dropped: bool) returns (admitted: bool)
      requires Valid()
      requires 0.0 <= now && (log != [] ==> log[|log| - 1].at <= now)
      requires dropped ==> entry.deadline <= now
      modifies this
      ensures Valid()
      ensures log == old(log) + [Request(now, dropped)]
      ensures admitted <==> |Live(log, Window())| <= max
    {
      DropIsLate(entry, log, Request(now, dropped), Window());
      RecordsNext(entry, log, Request(now, dropped), Window());
      var count := Pipeline(now, dropped);
      log := log + [Request(now, dropped)];
      admitted := !(count > max);
    }
  }
}
