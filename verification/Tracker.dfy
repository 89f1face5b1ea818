/** The two tracepoint handlers of internal/ebpf/block_latency.c, each taken as one atomic step,
    over every run of issues and completions. */
module Tracker {
  import opened Words
  import opened Buckets

  const MAX_ENTRIES: nat := 10240

  /** A block request, with the key the handlers compute for it. It knows when it was really issued,
      whether or not the tracker saw that. */
  datatype Request = Request(id: nat, dev: bv32, sector: bv64, key: Key, issued: U64)

  /** The request's key is the one pack_key makes. Most of what follows holds for any keys at all. */
  predicate Packed(r: Request) {
    r.key == PackKey(r.dev, r.sector)
  }

  /** One firing of a tracepoint. The clock read by the issue handler is the request's issue time. */
  datatype Event = Issue(req: Request) | Complete(req: Request, now: U64) {
    function Time(): U64 {
      if Issue? then req.issued else now
    }
    function Key(): Key {
      req.key
    }
  }

  /** The contents of the maps start_times and io_latency_hist. */
  datatype Kernel = Kernel(start: map<Key, U64>, hist: seq<U64>)

  /** Both maps are empty when the programs are attached; array maps start zeroed. */
  function Attached(): Kernel {
    Kernel(map[], Zeros())
  }

  /** bpf_map_update_elem with BPF_ANY on a hash map of at most MAX_ENTRIES entries. */
  function Update(start: map<Key, U64>, key: Key, ts: U64): map<Key, U64> {
    if Accepts(start, key) then start[key := ts] else start
  }

  predicate Accepts(start: map<Key, U64>, key: Key) {
    key in start || |start| < MAX_ENTRIES
  }

  function Bump(hist: seq<U64>, b: nat): (r: seq<U64>)
    ensures |r| == |hist|
  {
    if b < |hist| then hist[b := Add64(hist[b], 1)] else hist
  }

  /** The latency in nanoseconds that the handlers add to the histogram for event e, if any. */
  function Sample(start: map<Key, U64>, e: Event): seq<U64> {
    if e.Complete? && e.Key() in start then [Sub64(e.now, start[e.Key()])] else []
  }

  /** What an event does to start_times. */
  function Touch(start: map<Key, U64>, e: Event): map<Key, U64> {
    match e
    case Issue(r) => Update(start, r.key, r.issued)
    case Complete(r, now) => if r.key in start then start - {r.key} else start
  }

  function Step(k: Kernel, e: Event): Kernel {
    var sample := Sample(k.start, e);
    Kernel(Touch(k.start, e), if sample == [] then k.hist else Bump(k.hist, BucketOfNs(sample[0])))
  }

  /** The maps after a run that began when the programs were attached. */
  function Run(es: seq<Event>): (k: Kernel)
    ensures |k.hist| == HIST_BUCKETS
  {
    if es == [] then Attached() else Step(Run(es[..|es| - 1]), es[|es| - 1])
  }

  /** The latencies a run records, in order. */
  function Recorded(es: seq<Event>): seq<U64> {
    if es == [] then [] else
      var before := es[..|es| - 1];
      Recorded(before) + Sample(Run(before).start, es[|es| - 1])
  }

  /** How many latencies (in nanoseconds) fall in bucket b. */
  function CountIn(latencies: seq<int>, b: Slot): nat {
    if latencies == [] then 0 else
      var last := latencies[|latencies| - 1];
      CountIn(latencies[..|latencies| - 1], b) + (if last >= 0 && BucketOfNs(last) == b then 1 else 0)
  }

  /** The clock is monotone: bpf_ktime_get_ns never goes back. */
  ghost predicate Timed(es: seq<Event>) {
    forall i, j :: 0 <= i < j < |es| ==> es[i].Time() <= es[j].Time()
  }

  lemma {:induction false} RunSnoc(es: seq<Event>, e: Event)
    ensures Run(es + [e]) == Step(Run(es), e)
    ensures Recorded(es + [e]) == Recorded(es) + Sample(Run(es).start, e)
  {
    var all := es + [e];
    assert all[..|all| - 1] == es && all[|all| - 1] == e;
    assert Recorded(all) == Recorded(es) + Sample(Run(es).start, e);
  }

  lemma TimedUpTo(es: seq<Event>, i: nat, e: Event)
    requires Timed(es + [e]) && i < |es|
    ensures es[i].Time() <= e.Time()
    ensures forall j :: i <= j < |es| ==> es[i].Time() <= es[j].Time()
  {
    var all := es + [e];
    assert all[i].Time() <= all[|es|].Time();
    assert forall j :: i <= j < |es| ==> all[j] == es[j];
  }

  lemma TimedPrefix(es: seq<Event>)
    requires Timed(es) && es != []
    ensures Timed(es[..|es| - 1]) && Timed(es[..|es| - 1] + [es[|es| - 1]])
  {
    assert es[..|es| - 1] + [es[|es| - 1]] == es;
  }

  // ----- what a stored timestamp is -----

  /** Every entry of start_times was written by the last event that touched its key. */
  lemma {:induction false} EntryIsLastTouch(es: seq<Event>, key: Key) returns (i: nat)
    requires key in Run(es).start
    ensures i < |es| && es[i].Issue? && es[i].Key() == key && Run(es).start[key] == es[i].req.issued
    ensures forall j :: i < j < |es| ==> es[j].Key() != key
  {
    var n := |es| - 1;
    if es[n].Key() == key {
      i := n;
    } else {
      i := EntryIsLastTouch(es[..n], key);
    }
  }

  /** Events on other keys leave an entry alone. */
  lemma {:induction false} Untouched(es: seq<Event>, i: nat, key: Key)
    requires i <= |es|
    requires forall j :: i <= j < |es| ==> es[j].Key() != key
    ensures key in Run(es).start <==> key in Run(es[..i]).start
    ensures key in Run(es).start ==> Run(es).start[key] == Run(es[..i]).start[key]
  {
    if i == |es| {
      assert es[..i] == es;
    } else {
      var before := es[..|es| - 1];
      assert before[..i] == es[..i];
      assert forall j :: i <= j < |before| ==> before[j] == es[j];
      Untouched(before, i, key);
      assert es[|es| - 1].Key() != key;
    }
  }

  ghost predicate NoneAfter(start: map<Key, U64>, now: U64) {
    forall key :: key in start ==> start[key] <= now
  }

  /** Stored timestamps never lie in the future, so the handler's u64 subtraction never wraps. */
  lemma {:induction false} ClockInvariant(es: seq<Event>, e: Event)
    requires Timed(es + [e])
    ensures NoneAfter(Run(es).start, e.Time())
    ensures e.Complete? && e.Key() in Run(es).start ==>
              Sample(Run(es).start, e) == [e.now - Run(es).start[e.Key()]]
  {
    forall key | key in Run(es).start ensures Run(es).start[key] <= e.Time() {
      var i := EntryIsLastTouch(es, key);
      TimedUpTo(es, i, e);
    }
  }

  // ----- aliasing -----

  /** r was really issued before the run's next event: either the run contains its issue, or it was
      in flight when the tracker attached, before everything in the run. */
  ghost predicate IssuedBefore(es: seq<Event>, r: Request) {
    Issue(r) in es || forall e :: e in es ==> r.issued <= e.Time()
  }

  /** With colliding keys and a full map alike, a completion records the time since the last issue
      on its key, which is never more than the true latency of the completing request. */
  lemma AliasingUnderReports(es: seq<Event>, r: Request, now: U64) returns (i: nat)
    requires Timed(es + [Complete(r, now)])
    requires IssuedBefore(es, r)
    requires r.key in Run(es).start
    ensures i < |es| && es[i].Issue? && es[i].Key() == r.key
    ensures forall j :: i < j < |es| ==> es[j].Key() != r.key
    ensures Sample(Run(es).start, Complete(r, now)) == [now - es[i].req.issued]
    ensures now - es[i].req.issued <= now - r.issued
  {
    ClockInvariant(es, Complete(r, now));
    i := EntryIsLastTouch(es, r.key);
    assert es[i] in es;
    if Issue(r) in es {
      var j :| 0 <= j < |es| && es[j] == Issue(r);
      assert es[j].Key() == r.key;
      TimedUpTo(es, j, Complete(r, now));
    }
  }

  /** The true latencies of all completed requests, whether or not the tracker saw their issue. */
  function TrueLatencies(es: seq<Event>): seq<int> {
    if es == [] then [] else TrueLatencies(es[..|es| - 1]) + TrueLatency(es[|es| - 1])
  }

  function TrueLatency(e: Event): seq<int> {
    if e.Complete? then [e.now - e.req.issued] else []
  }

  /** No completion comes before the request was issued. */
  ghost predicate Causal(es: seq<Event>) {
    forall i :: 0 <= i < |es| && es[i].Complete? ==> IssuedBefore(es[..i], es[i].req)
  }

  /** How many latencies are at least t nanoseconds. */
  function AtLeast(latencies: seq<int>, t: int): nat {
    if latencies == [] then 0
    else AtLeast(latencies[..|latencies| - 1], t) + (if latencies[|latencies| - 1] >= t then 1 else 0)
  }

  lemma {:induction false} AtLeastAppends(latencies: seq<int>, more: seq<int>, t: int)
    requires |more| <= 1
    ensures AtLeast(latencies + more, t) == AtLeast(latencies, t) + (if more != [] && more[0] >= t then 1 else 0)
  {
    var all := latencies + more;
    if more == [] {
      assert all == latencies;
    } else {
      assert all[..|all| - 1] == latencies && all[|all| - 1] == more[0];
    }
  }

  lemma {:induction false} AppendsAtMost(a: seq<int>, x: seq<int>, b: seq<int>, y: seq<int>, t: int)
    requires AtLeast(a, t) <= AtLeast(b, t)
    requires |x| <= |y| <= 1 && (x != [] ==> x[0] <= y[0])
    ensures AtLeast(a + x, t) <= AtLeast(b + y, t)
  {
    AtLeastAppends(a, x, t);
    AtLeastAppends(b, y, t);
  }

  lemma CausalPrefix(es: seq<Event>)
    requires Causal(es) && es != []
    ensures Causal(es[..|es| - 1])
    ensures es[|es| - 1].Complete? ==> IssuedBefore(es[..|es| - 1], es[|es| - 1].req)
  {
    var before := es[..|es| - 1];
    forall i | 0 <= i < |before| && before[i].Complete? ensures IssuedBefore(before[..i], before[i].req) {
      assert before[..i] == es[..i] && before[i] == es[i];
    }
  }

  lemma {:induction false} SampleUnderReports(es: seq<Event>, e: Event)
    requires Timed(es + [e])
    requires e.Complete? ==> IssuedBefore(es, e.req)
    ensures var sample := Sample(Run(es).start, e);
            |sample| <= |TrueLatency(e)| && (sample != [] ==> sample[0] <= TrueLatency(e)[0])
  {
    if e.Complete? && e.Key() in Run(es).start {
      var _ := AliasingUnderReports(es, e.req, e.now);
    }
  }

  /** Whatever collides and however full the map is, a run never records more slow requests than there
      were: for every threshold, at most as many samples reach it as true latencies do. */
  lemma {:induction false} AliasingOnlyHides(es: seq<Event>, t: int)
    requires Timed(es) && Causal(es)
    ensures AtLeast(Recorded(es), t) <= AtLeast(TrueLatencies(es), t)
  {
    if es == [] {
    } else {
      var before, e := es[..|es| - 1], es[|es| - 1];
      TimedPrefix(es);
      CausalPrefix(es);
      AliasingOnlyHides(before, t);
      SampleUnderReports(before, e);
      AppendsAtMost(Recorded(before), Sample(Run(before).start, e), TrueLatencies(before), TrueLatency(e), t);
    }
  }

  /** How many latencies fall in bucket b or a higher one. */
  function CountFrom(latencies: seq<int>, b: Slot): nat {
    if latencies == [] then 0 else
      var last := latencies[|latencies| - 1];
      CountFrom(latencies[..|latencies| - 1], b) + (if last >= 0 && BucketOfNs(last) >= b then 1 else 0)
  }

  lemma {:induction false} CountFromIsAtLeast(latencies: seq<int>, b: Slot)
    ensures CountFrom(latencies, b) == AtLeast(latencies, BucketFloor(b))
  {
    if latencies == [] {
    } else {
      CountFromIsAtLeast(latencies[..|latencies| - 1], b);
      if latencies[|latencies| - 1] >= 0 {
        ReachesBucketIff(latencies[|latencies| - 1], b);
      }
    }
  }

  /** In buckets: no tail of the recorded histogram is heavier than that of the true one. */
  lemma {:induction false} NoTailIsOverstated(es: seq<Event>, b: Slot)
    requires Timed(es) && Causal(es)
    ensures CountFrom(Recorded(es), b) <= CountFrom(TrueLatencies(es), b)
  {
    CountFromIsAtLeast(Recorded(es), b);
    CountFromIsAtLeast(TrueLatencies(es), b);
    AliasingOnlyHides(es, BucketFloor(b));
  }

  /** No event after position j touches the key of event j. */
  ghost predicate LastOnItsKey(es: seq<Event>, j: nat)
    requires j < |es|
  {
    forall i :: j < i < |es| ==> es[i].Key() != es[j].Key()
  }

  /** No later issue on the key of event j got the same timestamp. */
  ghost predicate ClockSeparates(es: seq<Event>, j: nat)
    requires j < |es|
  {
    forall i :: j < i < |es| && es[i].Issue? && es[i].Key() == es[j].Key() ==> es[j].Time() < es[i].Time()
  }

  lemma {:induction false} LastIssueStays(es: seq<Event>, j: nat)
    requires j < |es| && es[j].Issue? && LastOnItsKey(es, j)
    ensures es[j].Key() in Run(es).start <==> Accepts(Run(es[..j]).start, es[j].Key())
    ensures es[j].Key() in Run(es).start ==> Run(es).start[es[j].Key()] == es[j].req.issued
  {
    assert es[..j + 1] == es[..j] + [es[j]];
    RunSnoc(es[..j], es[j]);
    Untouched(es, j + 1, es[j].Key());
  }

  /** Event i is an accepted issue at time t on this key, and nothing touched the key after it. */
  ghost predicate Provides(es: seq<Event>, i: nat, key: Key, t: U64) {
    && i < |es| && es[i].Issue? && es[i].Key() == key && es[i].Time() == t
    && Accepts(Run(es[..i]).start, key) && LastOnItsKey(es, i)
  }

  lemma {:induction false} EntryIffProvided(es: seq<Event>, key: Key, t: U64)
    ensures key in Run(es).start && Run(es).start[key] == t <==> exists i: nat :: Provides(es, i, key, t)
  {
    if key in Run(es).start && Run(es).start[key] == t {
      var i := EntryIsLastTouch(es, key);
      LastIssueStays(es, i);
      assert Provides(es, i, key, t);
    }
    if i: nat :| Provides(es, i, key, t) {
      LastIssueStays(es, i);
    }
  }

  lemma SampleIs(start: map<Key, U64>, r: Request, now: U64, since: U64)
    requires NoneAfter(start, now) && since <= now
    ensures Sample(start, Complete(r, now)) == [now - since] <==> r.key in start && start[r.key] == since
  {
  }

  /** A completion records its request's own latency exactly when the last event on the key was an
      issue with the request's own timestamp, and the map accepted it. */
  lemma {:induction false} ExactSampleIff(es: seq<Event>, r: Request, now: U64)
    requires Timed(es + [Complete(r, now)]) && r.issued <= now
    ensures Sample(Run(es).start, Complete(r, now)) == [now - r.issued]
       <==> exists i: nat :: Provides(es, i, r.key, r.issued)
  {
    ClockInvariant(es, Complete(r, now));
    SampleIs(Run(es).start, r, now, r.issued);
    EntryIffProvided(es, r.key, r.issued);
  }

  /** Event i is an accepted issue at another time than the request's on the request's key, and nothing
      touched the key after it. */
  ghost predicate Misleads(es: seq<Event>, i: nat, r: Request) {
    i < |es| && es[i].Time() != r.issued && Provides(es, i, r.key, es[i].Time())
  }

  /** When the promise holds that a completion gives a missed sample rather than incorrect data: exactly
      when the last event on its key is not an accepted issue at another time. The request may have
      been in flight when the tracker attached. */
  lemma {:induction false} NoFalseSampleIff(es: seq<Event>, r: Request, now: U64)
    requires Timed(es + [Complete(r, now)]) && r.issued <= now
    ensures Sample(Run(es).start, Complete(r, now)) in {[], [now - r.issued]} <==> !exists i: nat :: Misleads(es, i, r)
  {
    ClockInvariant(es, Complete(r, now));
    SampleIsFalse(Run(es).start, r, now);
    StaleIffMisled(es, r);
  }

  lemma SampleIsFalse(start: map<Key, U64>, r: Request, now: U64)
    requires NoneAfter(start, now) && r.issued <= now
    ensures Sample(start, Complete(r, now)) in {[], [now - r.issued]} <==> !(r.key in start && start[r.key] != r.issued)
  {
    if r.key in start {
      SampleIs(start, r, now, start[r.key]);
    }
  }

  lemma {:induction false} StaleIffMisled(es: seq<Event>, r: Request)
    ensures r.key in Run(es).start && Run(es).start[r.key] != r.issued <==> exists i: nat :: Misleads(es, i, r)
  {
    if r.key in Run(es).start && Run(es).start[r.key] != r.issued {
      EntryIffProvided(es, r.key, Run(es).start[r.key]);
      var i: nat :| Provides(es, i, r.key, Run(es).start[r.key]);
      assert Misleads(es, i, r);
    }
    if i: nat :| Misleads(es, i, r) {
      EntryIffProvided(es, r.key, es[i].Time());
    }
  }

  /** When the run has the request's issue, and the clock gave no later issue on the key the same
      timestamp, the sample is right exactly when the map accepted that issue and the key was left alone
      since. */
  lemma {:induction false} ExactSampleIffLeftAlone(es: seq<Event>, j: nat, r: Request, now: U64)
    requires Timed(es + [Complete(r, now)])
    requires j < |es| && es[j] == Issue(r) && ClockSeparates(es, j)
    ensures Sample(Run(es).start, Complete(r, now)) == [now - r.issued]
       <==> Accepts(Run(es[..j]).start, r.key) && LastOnItsKey(es, j)
  {
    TimedUpTo(es, j, Complete(r, now));
    ExactSampleIff(es, r, now);
    OnlyOwnProvides(es, j, r);
  }

  lemma OnlyOwnProvides(es: seq<Event>, j: nat, r: Request)
    requires j < |es| && es[j] == Issue(r) && ClockSeparates(es, j)
    ensures (exists i: nat :: Provides(es, i, r.key, r.issued))
       <==> Accepts(Run(es[..j]).start, r.key) && LastOnItsKey(es, j)
  {
    if Accepts(Run(es[..j]).start, r.key) && LastOnItsKey(es, j) {
      assert Provides(es, j, r.key, r.issued);
    }
    if i: nat :| Provides(es, i, r.key, r.issued) {
      assert i >= j;
    }
  }

  const FIRST: Request := Request(0, 8, 4096, PackKey(8, 4096), 0)
  const SECOND: Request := Request(1, 8, 4096, PackKey(8, 4096), 100_000)

  const ALIASED_RUN: seq<Event> :=
    [Issue(FIRST), Issue(SECOND), Complete(FIRST, 100_500), Complete(SECOND, 200_000)]

  /** Aliasing does more than lose a sample: here two requests of 100 microseconds each leave a
      single sample of 500 ns, a latency that neither of them had. */
  lemma AliasingRecordsAFalseLatency()
    ensures Timed(ALIASED_RUN)
    ensures Recorded(ALIASED_RUN) == [500]
    ensures 500 != 100_500 - FIRST.issued && 500 != 200_000 - SECOND.issued
    ensures Run(ALIASED_RUN).hist[0] == 1
    ensures BucketOfNs(100_500) != 0 && BucketOfNs(100_000) != 0
  {
    var e0, e1, e2, e3 := ALIASED_RUN[0], ALIASED_RUN[1], ALIASED_RUN[2], ALIASED_RUN[3];
    var key := FIRST.key;
    var r2, r3 := [e0, e1], [e0, e1, e2];
    assert [e0] == [] + [e0] && r2 == [e0] + [e1] && r3 == r2 + [e2] && ALIASED_RUN == r3 + [e3];
    RunSnoc([], e0);
    RunSnoc([e0], e1);
    assert Run(r2).start == map[key := 100_000];
    RunSnoc(r2, e2);
    assert Run(r3).start == map[];
    RunSnoc(r3, e3);
    HistogramCountsRecorded(ALIASED_RUN, 0);
    BitLengthAtLeast(0, 1);
    BitLengthAtLeast(100, 1);
    CountSnoc([], 500, 0);
    assert [] + [500] == [500];
  }

  /** The same happens to a request that was in flight at attach, when a request that aliases it is
      issued before it completes: FIRST, issued before the run, leaves 500 ns. */
  lemma AttachRecordsAFalseLatency()
    ensures Timed([Issue(SECOND), Complete(FIRST, 100_500)])
    ensures Recorded([Issue(SECOND), Complete(FIRST, 100_500)]) == [500]
  {
    var e0, e1 := Issue(SECOND), Complete(FIRST, 100_500);
    RunSnoc([], e0);
    assert [] + [e0] == [e0] && [e0] + [e1] == [e0, e1];
    SampleOfOther(Run([e0]).start, FIRST.key);
    RunSnoc([e0], e1);
    assert Recorded([e0]) == [];
  }

  lemma SampleOfOther(start: map<Key, U64>, key: Key)
    requires start == map[key := 100_000] && key == FIRST.key
    ensures Sample(start, Complete(FIRST, 100_500)) == [500]
  {
  }

  // ----- accounting -----

  /** How many steps of a run satisfy p, seen from the state each step starts in. */
  function CountSteps(es: seq<Event>, p: (map<Key, U64>, Event) -> bool): nat {
    if es == [] then 0 else
      var before := es[..|es| - 1];
      CountSteps(before, p) + (if p(Run(before).start, es[|es| - 1]) then 1 else 0)
  }

  const IS_ISSUE := (start: map<Key, U64>, e: Event) => e.Issue?
  const IS_OVERWRITE := (start: map<Key, U64>, e: Event) => e.Issue? && e.Key() in start
  const IS_REFUSED := (start: map<Key, U64>, e: Event) => e.Issue? && !Accepts(start, e.Key())

  lemma {:induction false} IssueAccounting(es: seq<Event>)
    ensures CountSteps(es, IS_ISSUE)
         == |Recorded(es)| + CountSteps(es, IS_OVERWRITE) + CountSteps(es, IS_REFUSED) + |Run(es).start|
    ensures |Run(es).start| <= MAX_ENTRIES
  {
    if es == [] {
    } else {
      var before, e := es[..|es| - 1], es[|es| - 1];
      IssueAccounting(before);
      var start := Run(before).start;
      if e.Complete? && e.Key() in start {
        assert Run(es).start.Keys == start.Keys - {e.Key()};
        assert |Run(es).start.Keys| == |start.Keys| - 1;
      } else if e.Issue? && Accepts(start, e.Key()) {
        assert Run(es).start.Keys == start.Keys + {e.Key()};
      }
    }
  }

  function IssuedKeys(es: seq<Event>): set<Key> {
    set e | e in es && e.Issue? :: e.Key()
  }

  lemma {:induction false} EntriesWereIssued(es: seq<Event>)
    ensures Run(es).start.Keys <= IssuedKeys(es)
  {
    forall key | key in Run(es).start ensures key in IssuedKeys(es) {
      var i := EntryIsLastTouch(es, key);
      assert es[i] in es;
    }
  }

  lemma SmallerSet<T>(a: set<T>, b: set<T>)
    requires a <= b
    ensures |a| <= |b|
  {
    assert b == a + (b - a);
  }

  /** As long as the requests seen have no more than 10240 different keys, nothing is refused. */
  lemma {:induction false} FewKeysNeverRefused(es: seq<Event>)
    requires |IssuedKeys(es)| <= 10240
    ensures CountSteps(es, IS_REFUSED) == 0
  {
    if es == [] {
    } else {
      var before, e := es[..|es| - 1], es[|es| - 1];
      SmallerSet(IssuedKeys(before), IssuedKeys(es));
      FewKeysNeverRefused(before);
      EntriesWereIssued(before);
      var keys := Run(before).start.Keys;
      if e.Issue? && e.Key() !in keys {
        assert e in es;
        SmallerSet(keys + {e.Key()}, IssuedKeys(es));
        assert |keys + {e.Key()}| == |keys| + 1;
      }
    }
  }

  /** An issue leaves no entry exactly when its key is new and the map holds 10240 entries. */
  lemma {:induction false} RefusedIff(es: seq<Event>, r: Request)
    ensures r.key !in Run(es + [Issue(r)]).start <==> r.key !in Run(es).start && |Run(es).start| == 10240
  {
    RunSnoc(es, Issue(r));
    IssueAccounting(es);
  }

  lemma {:induction false} CountSnoc(latencies: seq<int>, l: int, b: Slot)
    ensures CountIn(latencies + [l], b) == CountIn(latencies, b) + (if l >= 0 && BucketOfNs(l) == b then 1 else 0)
  {
    var all := latencies + [l];
    assert all[..|all| - 1] == latencies && all[|all| - 1] == l;
  }

  lemma BumpCounts(hist: seq<U64>, slot: Slot, n: nat, b: Slot)
    requires |hist| == HIST_BUCKETS && hist[b] == Wrap(n)
    ensures Bump(hist, slot)[b] == Wrap(n + if slot == b then 1 else 0)
  {
    AddWraps(n, 1);
  }

  /** Each histogram slot counts the recorded latencies of its bucket, modulo 2^64. */
  lemma {:induction false} HistogramCountsRecorded(es: seq<Event>, b: Slot)
    ensures Run(es).hist[b] == Wrap(CountIn(Recorded(es), b))
    ensures CountIn(Recorded(es), b) <= |Recorded(es)| <= |es|
  {
    if es == [] {
    } else {
      var before, e := es[..|es| - 1], es[|es| - 1];
      HistogramCountsRecorded(before, b);
      var sample := Sample(Run(before).start, e);
      if sample != [] {
        CountSnoc(Recorded(before), sample[0], b);
        BumpCounts(Run(before).hist, BucketOfNs(sample[0]), CountIn(Recorded(before), b), b);
        assert Recorded(es) == Recorded(before) + [sample[0]];
      } else {
        assert Recorded(es) == Recorded(before);
      }
    }
  }

  // ----- refinement to the plain list of latencies -----

  /** The reference: for every completion of a request issued since attach, its own latency. */
  function Latencies(es: seq<Event>): seq<int> {
    if es == [] then [] else
      var before := es[..|es| - 1];
      Latencies(before) + OwnLatency(before, es[|es| - 1])
  }

  function OwnLatency(before: seq<Event>, e: Event): seq<int> {
    if e.Complete? && Issue(e.req) in before then [e.now - e.req.issued] else []
  }

  /** The requests in flight after a run, from those that were in flight at its start. */
  function InFlight(es: seq<Event>, atStart: set<Request>): set<Request> {
    if es == [] then atStart else
      var before, e := es[..|es| - 1], es[|es| - 1];
      if e.Issue? then InFlight(before, atStart) + {e.req} else InFlight(before, atStart) - {e.req}
  }

  /** The situation the tracker is made for. Requests complete after they were issued and only once;
      no two requests in flight collide; and at most MAX_ENTRIES of those issued since attach are in
      flight at once. */
  ghost predicate Orderly(es: seq<Event>, atStart: set<Request>) {
    if es == [] then NoneCollide(atStart) else
      var before, e := es[..|es| - 1], es[|es| - 1];
      && Orderly(before, atStart)
      && (e.Issue? ==> Issue(e.req) !in before && e.req !in atStart)
      && (e.Complete? ==> e.req in InFlight(before, atStart))
      && NoneCollide(InFlight(es, atStart))
      && |InFlight(es, {})| <= MAX_ENTRIES
  }

  ghost predicate NoneCollide(s: set<Request>) {
    && (forall r :: r in s ==> Packed(r))
    && (forall r, r' :: r in s && r' in s && r != r' ==> !Confused(r.dev, r.sector, r'.dev, r'.sector))
  }

  function Issued(es: seq<Event>): set<Request> {
    set e | e in es && e.Issue? :: e.req
  }

  /** Each request is issued once and completes at most once, after it was issued. */
  ghost predicate OnceEach(es: seq<Event>, atStart: set<Request>) {
    && (forall i :: 0 <= i < |es| && es[i].Issue? ==> es[i].req !in atStart && es[i] !in es[..i])
    && (forall i :: 0 <= i < |es| && es[i].Complete? ==>
          && (es[i].req in atStart || Issue(es[i].req) in es[..i])
          && forall j :: 0 <= j < i && es[j].Complete? ==> es[j].req != es[i].req)
  }

  lemma {:induction false} StillFlying(es: seq<Event>, atStart: set<Request>, r: Request)
    requires r in atStart || Issue(r) in es
    requires forall j :: 0 <= j < |es| && es[j].Complete? ==> es[j].req != r
    ensures r in InFlight(es, atStart)
  {
    if es == [] {
    } else {
      var before, e := es[..|es| - 1], es[|es| - 1];
      if e != Issue(r) {
        StillFlying(before, atStart, r);
      }
    }
  }

  lemma {:induction false} FlyingWereIssued(es: seq<Event>, atStart: set<Request>)
    ensures InFlight(es, atStart) <= Issued(es) + atStart
  {
    if es == [] {
    } else {
      var before, e := es[..|es| - 1], es[|es| - 1];
      FlyingWereIssued(before, atStart);
      assert e in es && Issued(before) <= Issued(es);
    }
  }

  lemma OncePrefix(es: seq<Event>, atStart: set<Request>)
    requires OnceEach(es, atStart) && es != []
    ensures OnceEach(es[..|es| - 1], atStart)
  {
    var before := es[..|es| - 1];
    forall i | 0 <= i < |before| ensures before[i] == es[i] && before[..i] == es[..i] {
    }
  }

  /** Any run of at most 10240 requests, no two of which agree in device and low sector bits, is such a
      situation. */
  lemma {:induction false} OrderlyWhenApart(es: seq<Event>, atStart: set<Request>, all: set<Request>)
    requires OnceEach(es, atStart) && Issued(es) + atStart <= all
    requires NoneCollide(all) && |Issued(es)| <= 10240
    ensures Orderly(es, atStart)
  {
    if es == [] {
      NoneCollideIn(atStart, all);
    } else {
      var before := es[..|es| - 1];
      OncePrefix(es, atStart);
      assert Issued(before) <= Issued(es);
      SmallerSet(Issued(before), Issued(es));
      OrderlyWhenApart(before, atStart, all);
      OrderlyNext(es, atStart, all);
    }
  }

  lemma {:induction false} OrderlyNext(es: seq<Event>, atStart: set<Request>, all: set<Request>)
    requires es != [] && Orderly(es[..|es| - 1], atStart)
    requires OnceEach(es, atStart) && Issued(es) + atStart <= all
    requires NoneCollide(all) && |Issued(es)| <= 10240
    ensures Orderly(es, atStart)
  {
    var n := |es| - 1;
    FlyingWereIssued(es, atStart);
    FlyingWereIssued(es, {});
    SmallerSet(InFlight(es, {}), Issued(es));
    NoneCollideIn(InFlight(es, atStart), all);
    if es[n].Complete? {
      StillFlying(es[..n], atStart, es[n].req);
    }
  }

  /** And it is causal, if the requests in flight at attach were issued before everything in the run. */
  lemma CausalWhenOnceEach(es: seq<Event>, atStart: set<Request>)
    requires OnceEach(es, atStart)
    requires forall r, e :: r in atStart && e in es ==> r.issued <= e.Time()
    ensures Causal(es)
  {
    forall i | 0 <= i < |es| && es[i].Complete? ensures IssuedBefore(es[..i], es[i].req) {
      assert forall e :: e in es[..i] ==> e in es;
    }
  }

  lemma NoneCollideIn(s: set<Request>, all: set<Request>)
    requires NoneCollide(all) && s <= all
    ensures NoneCollide(s)
  {
  }

  ghost predicate DistinctKeys(s: set<Request>) {
    forall r, r' :: r in s && r' in s && r != r' ==> r.key != r'.key
  }

  /** start_times holds exactly the requests issued since attach that are still in flight. */
  ghost predicate Tracks(start: map<Key, U64>, s: set<Request>) {
    && start.Keys == (set r | r in s :: r.key)
    && (forall r :: r in s ==> r.key in start && start[r.key] == r.issued)
  }

  lemma KeysDistinct(s: set<Request>)
    requires NoneCollide(s)
    ensures DistinctKeys(s)
  {
    forall r, r' | r in s && r' in s && r != r' ensures r.key != r'.key {
      PackKeyIff(r.dev, r.sector, r'.dev, r'.sector);
    }
  }

  lemma {:induction false} KeysAtMost(s: set<Request>)
    ensures |set r | r in s :: r.key| <= |s|
  {
    if s == {} {
    } else {
      var q :| q in s;
      KeysAtMost(s - {q});
      assert (set r | r in s :: r.key) == (set r | r in s - {q} :: r.key) + {q.key};
    }
  }

  lemma {:induction false} InFlightSplit(es: seq<Event>, atStart: set<Request>)
    requires Orderly(es, atStart)
    ensures InFlight(es, {}) <= InFlight(es, atStart) <= InFlight(es, {}) + atStart
    ensures forall r :: r in InFlight(es, {}) ==> Issue(r) in es
    ensures forall r :: r in atStart ==> Issue(r) !in es
  {
    if es == [] {
    } else {
      InFlightSplit(es[..|es| - 1], atStart);
    }
  }

  /** In an orderly run the lossy, bounded map behaves like perfect bookkeeping. */
  lemma {:induction false} OrderlyRunsTrack(es: seq<Event>, atStart: set<Request>)
    requires Orderly(es, atStart)
    ensures Tracks(Run(es).start, InFlight(es, {}))
  {
    if es == [] {
    } else {
      var before, e := es[..|es| - 1], es[|es| - 1];
      OrderlyRunsTrack(before, atStart);
      InFlightSplit(before, atStart);
      InFlightSplit(es, atStart);
      OrderlyKeysDistinct(before, atStart);
      OrderlyKeysDistinct(es, atStart);
      StepKeepsTracking(Run(before), e, InFlight(before, {}), InFlight(before, atStart));
    }
  }

  /** What such a run records is the plain list of latencies; requests that were in flight at attach
      contribute nothing. */
  lemma {:induction false} OrderlyRunsAreExact(es: seq<Event>, atStart: set<Request>)
    requires Timed(es)
    requires Orderly(es, atStart)
    ensures Recorded(es) == Latencies(es)
  {
    if es == [] {
    } else {
      var before, e := es[..|es| - 1], es[|es| - 1];
      TimedPrefix(es);
      OrderlyRunsAreExact(before, atStart);
      SampleIsOwnLatency(before, e, atStart);
    }
  }

  lemma {:induction false} SampleIsOwnLatency(before: seq<Event>, e: Event, atStart: set<Request>)
    requires Timed(before + [e])
    requires Orderly(before, atStart)
    requires e.Complete? ==> e.req in InFlight(before, atStart)
    ensures Sample(Run(before).start, e) == OwnLatency(before, e)
  {
    ClockInvariant(before, e);
    if e.Complete? {
      EntryIffIssued(before, e.req, atStart);
    }
    SampleOfOwnEntry(Run(before).start, e, before);
  }

  lemma SampleOfOwnEntry(start: map<Key, U64>, e: Event, before: seq<Event>)
    requires NoneAfter(start, e.Time())
    requires e.Complete? ==> (e.Key() in start <==> Issue(e.req) in before)
    requires e.Complete? && e.Key() in start ==> start[e.Key()] == e.req.issued
    ensures Sample(start, e) == OwnLatency(before, e)
  {
  }

  lemma {:induction false} EntryIffIssued(es: seq<Event>, r: Request, atStart: set<Request>)
    requires Orderly(es, atStart) && r in InFlight(es, atStart)
    ensures r.key in Run(es).start <==> Issue(r) in es
    ensures r.key in Run(es).start ==> Run(es).start[r.key] == r.issued
  {
    var start, tracked, flying := Run(es).start, InFlight(es, {}), InFlight(es, atStart);
    OrderlyRunsTrack(es, atStart);
    OrderlyKeysDistinct(es, atStart);
    InFlightSplit(es, atStart);
    CompleteKeepsTracking(start, tracked, flying, r);
  }

  lemma {:induction false} OrderlyKeysDistinct(es: seq<Event>, atStart: set<Request>)
    requires Orderly(es, atStart)
    ensures DistinctKeys(InFlight(es, atStart))
  {
    KeysDistinct(InFlight(es, atStart));
  }

  lemma StepKeepsTracking(k: Kernel, e: Event, tracked: set<Request>, flying: set<Request>)
    requires Tracks(k.start, tracked) && tracked <= flying && DistinctKeys(flying)
    requires e.Issue? ==> e.req !in tracked && |tracked + {e.req}| <= MAX_ENTRIES && DistinctKeys(flying + {e.req})
    requires e.Complete? ==> e.req in flying
    ensures Tracks(Step(k, e).start, if e.Issue? then tracked + {e.req} else tracked - {e.req})
  {
    if e.Issue? {
      IssueKeepsTracking(k.start, tracked, e.req);
    } else {
      CompleteKeepsTracking(k.start, tracked, flying, e.req);
      assert e.Key() !in k.start ==> k.start - {e.Key()} == k.start;
    }
  }

  lemma IssueKeepsTracking(start: map<Key, U64>, tracked: set<Request>, r: Request)
    requires Tracks(start, tracked)
    requires r !in tracked && |tracked + {r}| <= MAX_ENTRIES
    requires DistinctKeys(tracked + {r})
    ensures Tracks(Update(start, r.key, r.issued), tracked + {r})
  {
    KeysAtMost(tracked);
    assert |start| == |start.Keys|;
    assert |tracked + {r}| == |tracked| + 1;
    var next := Update(start, r.key, r.issued);
    forall q | q in tracked + {r} ensures q.key in next && next[q.key] == q.issued {
      assert q == r || q in tracked;
    }
  }

  lemma CompleteKeepsTracking(start: map<Key, U64>, tracked: set<Request>, flying: set<Request>, r: Request)
    requires Tracks(start, tracked)
    requires r in flying && tracked <= flying && DistinctKeys(flying)
    ensures r.key in start <==> r in tracked
    ensures Tracks(start - {r.key}, tracked - {r})
  {
    var next := start - {r.key};
    forall q | q in tracked - {r} ensures q.key in next && next[q.key] == q.issued {
      assert q in flying && q.key != r.key;
    }
  }

  /** The histogram of an orderly run: bucket b counts the completed requests issued since attach
      whose own latency falls in bucket b. */
  lemma {:induction false} HistogramIsExact(es: seq<Event>, atStart: set<Request>, b: Slot)
    requires Timed(es)
    requires Orderly(es, atStart)
    ensures forall l :: l in Latencies(es) ==> 0 <= l < TWO_64
    ensures Run(es).hist[b] == Wrap(CountIn(Latencies(es), b))
    ensures |es| < TWO_64 ==> Run(es).hist[b] == CountIn(Latencies(es), b)
  {
    OrderlyRunsAreExact(es, atStart);
    var recorded := Recorded(es);
    assert forall l :: l in recorded ==> 0 <= l < TWO_64;
    HistogramCountsRecorded(es, b);
    var n := CountIn(recorded, b);
    if |es| < TWO_64 {
      WrapIs(n, 0, n);
    }
  }

  // ----- the handlers -----

  class BlockLatency {
    var startTimes: map<Key, U64>
    var ioLatencyHist: array<U64>
    ghost var history: seq<Event>

    ghost predicate Valid()
      reads this, ioLatencyHist
    {
      Kernel(startTimes, ioLatencyHist[..]) == Run(history)
    }

    constructor ()
      ensures Valid() && history == [] && fresh(ioLatencyHist)
    {
      startTimes := map[];
      ioLatencyHist := new U64[HIST_BUCKETS](_ => 0);
      history := [];
      new;
      assert ioLatencyHist[..] == Attached().hist;
    }

    method TraceRqIssue(dev: bv32, sector: bv64, ts: U64, ghost id: nat)
      requires Valid()
      modifies this`startTimes, this`history
      ensures Valid()
      ensures history == old(history) + [Issue(Request(id, dev, sector, PackKey(dev, sector), ts))]
    {
      var key := PackKey(dev, sector);
      ghost var e := Issue(Request(id, dev, sector, key, ts));
      RunSnoc(history, e);
      startTimes := Update(startTimes, key, ts);
      history := history + [e];
    }

    method TraceRqComplete(dev: bv32, sector: bv64, now: U64, ghost r: Request)
      requires Valid()
      requires Packed(r) && r.dev == dev && r.sector == sector
      modifies this`startTimes, this`history, ioLatencyHist
      ensures Valid() && history == old(history) + [Complete(r, now)]
    {
      RunSnoc(history, Complete(r, now));
      ghost var before := ioLatencyHist[..];
      history := history + [Complete(r, now)];
      var key := PackKey(dev, sector);
      if key !in startTimes {
        return; // no matching issue event
      }
      var deltaNs := Sub64(now, startTimes[key]);
      startTimes := startTimes - {key};
      var deltaUs := deltaNs / 1000;
      var bucket := BucketFor(deltaUs);
      if bucket < ioLatencyHist.Length {
        ioLatencyHist[bucket] := Add64(ioLatencyHist[bucket], 1);
      }
      assert ioLatencyHist[..] == Bump(before, bucket);
    }
  }
}
