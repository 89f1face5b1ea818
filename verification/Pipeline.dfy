/** The whole path of a latency, from the tracepoints to the terminal: the handlers of
    internal/ebpf/block_latency.c and the tick loop of cmd/sysmon/main.go as one system. */
module Pipeline {
  import opened Words
  import opened Buckets
  import T = Tracker
  import R = Race

  /** A handler runs, up to its increment of the histogram; or one of the increments that handlers have
      yet to carry out lands; or the loop performs one operation on the histogram. */
  datatype Step = Handler(event: T.Event) | Land(slot: Slot) | Loop(operation: R.Event)

  /** start_times, the increments that handlers have yet to carry out, and the histogram with the loop
      that reads it. */
  datatype System = System(start: map<Key, U64>, pending: multiset<Slot>, race: R.State)

  /** The increments a handler is going to carry out: at most one. */
  function Due(start: map<Key, U64>, e: T.Event): multiset<Slot> {
    var sample := T.Sample(start, e);
    if sample == [] then multiset{} else multiset{BucketOfNs(sample[0])}
  }

  /** A step that is not possible in a state changes nothing. */
  predicate Enabled(s: System, step: Step) {
    match step
    case Handler(_) => true
    case Land(b) => b in s.pending
    case Loop(e) => !e.Increment?
  }

  function Next(s: System, step: Step): (s': System)
    requires s.race.Valid()
    ensures s'.race.Valid()
  {
    if !Enabled(s, step) then s else
      match step
      case Handler(e) => s.(start := T.Touch(s.start, e), pending := s.pending + Due(s.start, e))
      case Land(b) => s.(pending := s.pending - multiset{b}, race := R.Step(s.race, R.Increment(b)))
      case Loop(e) => s.(race := R.Step(s.race, e))
  }

  /** The state after a run that began when the programs were attached. */
  function Run(steps: seq<Step>): (s: System)
    ensures s.race.Valid()
  {
    if steps == [] then System(map[], multiset{}, R.Run([]))
    else Next(Run(steps[..|steps| - 1]), steps[|steps| - 1])
  }

  /** What the handlers saw. */
  function Handled(steps: seq<Step>): seq<T.Event> {
    if steps == [] then [] else
      var last := steps[|steps| - 1];
      Handled(steps[..|steps| - 1]) + (if last.Handler? then [last.event] else [])
  }

  /** The operations on the histogram, as far as they were possible. */
  function Traced(steps: seq<Step>): seq<R.Event> {
    if steps == [] then [] else
      var before, last := steps[..|steps| - 1], steps[|steps| - 1];
      Traced(before) + (if Enabled(Run(before), last) then OperationOf(last) else [])
  }

  function OperationOf(step: Step): seq<R.Event> {
    match step
    case Handler(_) => []
    case Land(b) => [R.Increment(b)]
    case Loop(e) => [e]
  }

  // ----- the system is made of the two models -----

  lemma {:induction false} HandlersRun(steps: seq<Step>)
    ensures Run(steps).start == T.Run(Handled(steps)).start
  {
    if steps == [] {
    } else {
      var before, last := steps[..|steps| - 1], steps[|steps| - 1];
      HandlersRun(before);
      if last.Handler? {
        T.RunSnoc(Handled(before), last.event);
      } else {
        assert Handled(steps) == Handled(before);
      }
    }
  }

  lemma {:induction false} LoopRuns(steps: seq<Step>)
    ensures Run(steps).race == R.Run(Traced(steps))
  {
    if steps == [] {
    } else {
      var before, last := steps[..|steps| - 1], steps[|steps| - 1];
      LoopRuns(before);
      if !Enabled(Run(before), last) || last.Handler? {
        assert Traced(steps) == Traced(before);
      } else {
        R.RunSnoc(Traced(before), OperationOf(last)[0], 0);
      }
    }
  }

  lemma {:induction false} HandlerKeepsCount(before: seq<Step>, e: T.Event, b: Slot)
    ensures T.CountIn(T.Recorded(Handled(before) + [e]), b)
         == T.CountIn(T.Recorded(Handled(before)), b)
            + Next(Run(before), Handler(e)).pending[b] - Run(before).pending[b]
  {
    HandlersRun(before);
    SampleIsDue(Handled(before), e, b);
  }

  lemma {:induction false} OperationKeepsCount(before: seq<Step>, step: Step, b: Slot)
    requires Enabled(Run(before), step) && !step.Handler?
    ensures R.Landed(Traced(before) + OperationOf(step), b) + Next(Run(before), step).pending[b]
         == R.Landed(Traced(before), b) + Run(before).pending[b]
  {
    R.RunSnoc(Traced(before), OperationOf(step)[0], b);
  }

  /** Every sample taken has landed or is about to. */
  lemma {:induction false} SamplesLand(steps: seq<Step>, b: Slot)
    ensures T.CountIn(T.Recorded(Handled(steps)), b) == R.Landed(Traced(steps), b) + Run(steps).pending[b]
  {
    if steps == [] {
    } else {
      var before, last := steps[..|steps| - 1], steps[|steps| - 1];
      SamplesLand(before, b);
      if last.Handler? {
        assert Traced(steps) == Traced(before);
        HandlerKeepsCount(before, last.event, b);
      } else {
        assert Handled(steps) == Handled(before);
        if Enabled(Run(before), last) {
          OperationKeepsCount(before, last, b);
        } else {
          assert Traced(steps) == Traced(before);
        }
      }
    }
  }

  lemma {:induction false} SampleIsDue(es: seq<T.Event>, e: T.Event, b: Slot)
    ensures T.CountIn(T.Recorded(es + [e]), b) == T.CountIn(T.Recorded(es), b) + Due(T.Run(es).start, e)[b]
  {
    T.RunSnoc(es, e);
    var sample := T.Sample(T.Run(es).start, e);
    if sample == [] {
      assert T.Recorded(es) + sample == T.Recorded(es);
    } else {
      T.CountSnoc(T.Recorded(es), sample[0], b);
      assert sample == [sample[0]];
    }
  }

  // ----- progress -----

  /** At any moment a handler can run, any operation of the loop can be carried out, and an increment
      that is owed can land, which adds 1 to its slot and to no other. */
  lemma {:induction false} StepsHappen(steps: seq<Step>, e: T.Event, operation: R.Event, b: Slot)
    ensures Run(steps + [Handler(e)]).start == T.Touch(Run(steps).start, e)
    ensures !operation.Increment? ==> Run(steps + [Loop(operation)]).race == R.Step(Run(steps).race, operation)
    ensures Run(steps).pending[b] > 0 ==>
              && Run(steps + [Land(b)]).pending == Run(steps).pending - multiset{b}
              && Run(steps + [Land(b)]).race.hist == Run(steps).race.hist[b := Add64(Run(steps).race.hist[b], 1)]
              && Run(steps + [Land(b)]).race.phase == Run(steps).race.phase
              && Run(steps + [Land(b)]).race.displays == Run(steps).race.displays
  {
    RunSnoc(steps, Handler(e));
    RunSnoc(steps, Loop(operation));
    RunSnoc(steps, Land(b));
  }

  lemma {:induction false} RunSnoc(steps: seq<Step>, step: Step)
    ensures Run(steps + [step]) == Next(Run(steps), step)
    ensures Handled(steps + [step]) == Handled(steps) + (if step.Handler? then [step.event] else [])
    ensures Traced(steps + [step]) == Traced(steps) + (if Enabled(Run(steps), step) then OperationOf(step) else [])
  {
    var all := steps + [step];
    assert all[..|all| - 1] == steps && all[|all| - 1] == step;
  }

  predicate AllLand(more: seq<Step>) {
    forall step :: step in more ==> step.Land?
  }

  lemma {:induction false} LandHappens(steps: seq<Step>, b: Slot)
    requires b in Run(steps).pending
    ensures Run(steps + [Land(b)]).pending == Run(steps).pending - multiset{b}
    ensures |Run(steps + [Land(b)]).pending| < |Run(steps).pending|
    ensures Run(steps + [Land(b)]).race.phase == Run(steps).race.phase
    ensures Run(steps + [Land(b)]).race.displays == Run(steps).race.displays
    ensures Handled(steps + [Land(b)]) == Handled(steps)
  {
    RunSnoc(steps, Land(b));
  }

  lemma PrependAssoc<T>(a: seq<T>, x: T, b: seq<T>)
    ensures a + ([x] + b) == a + [x] + b
  {
  }

  /** From every state some landings, and nothing else, lead to one in which nothing is owed. */
  lemma {:induction false} EverySampleCanLand(steps: seq<Step>) returns (more: seq<Step>)
    ensures AllLand(more) && Run(steps + more).pending == multiset{}
    ensures Handled(steps + more) == Handled(steps)
    ensures Run(steps + more).race.phase == Run(steps).race.phase
    ensures Run(steps + more).race.displays == Run(steps).race.displays
    decreases |Run(steps).pending|
  {
    if Run(steps).pending == multiset{} {
      more := [];
      assert steps + [] == steps;
    } else {
      var b :| b in Run(steps).pending;
      LandHappens(steps, b);
      var rest := EverySampleCanLand(steps + [Land(b)]);
      more := [Land(b)] + rest;
      PrependAssoc(steps, Land(b), rest);
    }
  }

  lemma {:induction false} LoopHappens(steps: seq<Step>, operation: R.Event)
    requires !operation.Increment?
    ensures Traced(steps + [Loop(operation)]) == Traced(steps) + [operation]
  {
    RunSnoc(steps, Loop(operation));
  }

  /** The loop carries out an operation n times. */
  function Loops(n: nat, operation: R.Event): seq<Step> {
    R.Times(n, Loop(operation))
  }

  lemma {:induction false} Repeats<A(!new), B>(f: seq<A> -> seq<B>, s: seq<A>, n: nat, x: A, y: B)
    requires forall t: seq<A> :: f(t + [x]) == f(t) + [y]
    ensures f(s + R.Times(n, x)) == f(s) + R.Times(n, y)
  {
    if n == 0 {
      assert s + [] == s && f(s) + [] == f(s);
    } else {
      Repeats(f, s, n - 1, x, y);
      R.AppendAssoc(s, R.Times(n - 1, x), x);
      R.AppendAssoc(f(s), R.Times(n - 1, y), y);
    }
  }

  lemma {:induction false} LoopsRun(steps: seq<Step>, n: nat, operation: R.Event)
    requires !operation.Increment?
    ensures Traced(steps + Loops(n, operation)) == Traced(steps) + R.Times(n, operation)
  {
    forall t: seq<Step> ensures Traced(t + [Loop(operation)]) == Traced(t) + [operation] {
      LoopHappens(t, operation);
    }
    Repeats((t: seq<Step>) => Traced(t), steps, n, Loop(operation), operation);
  }

  function Handlers(es: seq<T.Event>): seq<Step> {
    if es == [] then [] else Handlers(es[..|es| - 1]) + [Handler(es[|es| - 1])]
  }

  lemma {:induction false} HandlersOnly(es: seq<T.Event>)
    ensures Handled(Handlers(es)) == es && Traced(Handlers(es)) == []
  {
    if es == [] {
    } else {
      var init, last := es[..|es| - 1], es[|es| - 1];
      HandlersOnly(init);
      RunSnoc(Handlers(init), Handler(last));
      Rejoin(es);
    }
  }

  lemma Rejoin<T>(s: seq<T>)
    requires s != []
    ensures s[..|s| - 1] + [s[|s| - 1]] == s
  {
  }

  lemma {:induction false} NoLoops(es: seq<T.Event>)
    ensures forall step :: step in Handlers(es) ==> !step.Loop?
  {
    if es == [] {
    } else {
      NoLoops(es[..|es| - 1]);
    }
  }

  lemma {:induction false} TracedLast(before: seq<Step>, last: Step, e: R.Event)
    requires e in Traced(before + [last]) && !e.Increment?
    ensures e in Traced(before) || last == Loop(e)
  {
    RunSnoc(before, last);
  }

  /** What the loop is said to have done it did. */
  lemma {:induction false} LoopDid(steps: seq<Step>, e: R.Event)
    requires e in Traced(steps) && !e.Increment?
    ensures Loop(e) in steps
  {
    var before, last := steps[..|steps| - 1], steps[|steps| - 1];
    Rejoin(steps);
    TracedLast(before, last, e);
    if e in Traced(before) {
      LoopDid(before, e);
    } else {
      assert last in steps;
    }
  }

  lemma {:induction false} OnlyIncrementsLand(steps: seq<Step>)
    requires forall step :: step in steps ==> !step.Loop?
    ensures forall e :: e in Traced(steps) ==> e.Increment?
  {
    forall e | e in Traced(steps) ensures e.Increment? {
      if !e.Increment? {
        LoopDid(steps, e);
      }
    }
  }

  lemma {:induction false} NoneFails(steps: seq<Step>)
    requires Loop(R.PutFails) !in steps
    ensures R.PutFails !in Traced(steps)
  {
    if R.PutFails in Traced(steps) {
      LoopDid(steps, R.PutFails);
    }
  }

  /** Exactness: whatever the handlers have seen, once their increments have landed an undisturbed read
      displays exactly the samples they took, and the reset after it leaves nothing behind. */
  lemma QuietDisplayIsExact(es: seq<T.Event>) returns (more: seq<Step>)
    ensures AllLand(more)
    ensures var displays := Run(Handlers(es) + more + Loops(24, R.Lookup)).race.displays;
            && |displays| == 1 && |displays[0]| == 24
            && forall b: Slot :: displays[0][b] == Wrap(T.CountIn(T.Recorded(es), b))
    ensures var s := Run(Handlers(es) + more + Loops(24, R.Lookup) + Loops(24, R.Put));
            s.race.hist == Zeros() && s.race.phase == R.Reading([])
  {
    HandlersOnly(es);
    NoLoops(es);
    LoopRuns(Handlers(es));
    more := EverySampleCanLand(Handlers(es));
    LandedCount(es, Handlers(es) + more);
    QuietTick(Handlers(es) + more);
  }

  /** In an orderly run these are the requests' own latencies. */
  lemma OrderlyDisplayIsExact(es: seq<T.Event>, atStart: set<T.Request>) returns (more: seq<Step>)
    requires T.Timed(es) && T.Orderly(es, atStart)
    ensures AllLand(more)
    ensures var displays := Run(Handlers(es) + more + Loops(24, R.Lookup)).race.displays;
            && |displays| == 1 && |displays[0]| == 24
            && forall b: Slot :: displays[0][b] == Wrap(T.CountIn(T.Latencies(es), b))
  {
    T.OrderlyRunsAreExact(es, atStart);
    more := QuietDisplayIsExact(es);
  }

  lemma {:induction false} LandedCount(es: seq<T.Event>, landed: seq<Step>)
    requires Handled(landed) == es && Run(landed).pending == multiset{}
    requires forall step :: step in landed ==> !step.Loop?
    ensures forall b: Slot :: Run(landed).race.hist[b] == Wrap(T.CountIn(T.Recorded(es), b))
  {
    LoopRuns(landed);
    OnlyIncrementsLand(landed);
    forall b: Slot ensures Run(landed).race.hist[b] == Wrap(T.CountIn(T.Recorded(es), b)) {
      SamplesLand(landed, b);
      R.OnlyIncrements(Traced(landed), b);
    }
  }

  lemma {:induction false} QuietTick(steps: seq<Step>)
    requires Run(steps).race.phase == R.Reading([])
    ensures Run(steps + Loops(24, R.Lookup)).race.displays == Run(steps).race.displays + [Run(steps).race.hist]
    ensures Run(steps + Loops(24, R.Lookup) + Loops(24, R.Put)).race
         == R.State(Zeros(), R.Reading([]), Run(steps).race.displays + [Run(steps).race.hist])
  {
    var read := steps + Loops(24, R.Lookup);
    LoopRuns(steps);
    LoopsRun(steps, 24, R.Lookup);
    R.QuietRead(Traced(steps), Run(steps).race, 24);
    LoopRuns(read);
    LoopsRun(read, 24, R.Put);
    R.QuietReset(Traced(read), Run(read).race, 24);
    LoopRuns(read + Loops(24, R.Put));
  }

  // ----- what becomes of a sample -----

  /** What became of the samples for bucket b: displayed, or lost, or in the map and not displayed yet,
      or about to land. */
  function Fate(steps: seq<Step>, b: Slot): nat {
    R.Shown(Run(steps).race.displays, b) + R.Lost(Traced(steps), b) + R.Unshown(Traced(steps), b)
    + Run(steps).pending[b]
  }

  /** Whatever collides, overflows, races or fails, at every moment, each sample taken for bucket b has one
      of these fates; counting apart what was displayed again and what wrapped. */
  lemma {:induction false} EverySampleIsAccountedFor(steps: seq<Step>, b: Slot)
    ensures T.CountIn(T.Recorded(Handled(steps)), b) + R.Books(Traced(steps), b).again
         == Fate(steps, b) + TWO_64 * R.Books(Traced(steps), b).over
  {
    SamplesLand(steps, b);
    LoopRuns(steps);
    R.Conservation(Traced(steps), b);
  }

  /** No Put has failed, and the run is short enough for its numbers to fit in 64 bits. */
  predicate Smooth(steps: seq<Step>) {
    Loop(R.PutFails) !in steps && |steps| < TWO_64
  }

  lemma {:induction false} HandledAtMost(steps: seq<Step>)
    ensures |Handled(steps)| <= |steps|
  {
    if steps == [] {
    } else {
      HandledAtMost(steps[..|steps| - 1]);
    }
  }

  lemma {:induction false} SamplesHaveAFate(steps: seq<Step>, b: Slot)
    requires Smooth(steps)
    ensures T.CountIn(T.Recorded(Handled(steps)), b) == Fate(steps, b)
    ensures R.Landed(Traced(steps), b) < TWO_64
  {
    NoneFails(steps);
    HandledAtMost(steps);
    SamplesLand(steps, b);
    LoopRuns(steps);
    T.HistogramCountsRecorded(Handled(steps), b);
    R.ConservationInTick(Traced(steps), b);
  }

  /** And if what the handlers saw was orderly, these samples are the requests' own latencies: all the
      requests that completed with a latency in bucket b are accounted for one by one. Between two ticks
      those not displayed yet are what the map holds. */
  lemma {:induction false} EveryLatencyIsAccountedFor(steps: seq<Step>, atStart: set<T.Request>, b: Slot)
    requires Smooth(steps) && T.Timed(Handled(steps)) && T.Orderly(Handled(steps), atStart)
    ensures T.CountIn(T.Latencies(Handled(steps)), b) == Fate(steps, b)
    ensures Run(steps).race.phase.Reading? ==> R.Unshown(Traced(steps), b) == Run(steps).race.hist[b]
  {
    T.OrderlyRunsAreExact(Handled(steps), atStart);
    SamplesHaveAFate(steps, b);
    NoneFails(steps);
    LoopRuns(steps);
    if Run(steps).race.phase.Reading? {
      R.UnshownIsInTheMap(Traced(steps), b);
    }
  }

  // ----- all buckets together -----

  function Total(counts: seq<nat>): nat {
    if counts == [] then 0 else Total(counts[..|counts| - 1]) + counts[|counts| - 1]
  }

  lemma {:induction false} TotalOfZeros(counts: seq<nat>)
    requires forall b :: 0 <= b < |counts| ==> counts[b] == 0
    ensures Total(counts) == 0
  {
    if counts == [] {
    } else {
      TotalOfZeros(counts[..|counts| - 1]);
    }
  }

  lemma {:induction false} TotalWithOneMore(counts: seq<nat>, k: nat)
    requires k < |counts|
    ensures Total(counts[k := counts[k] + 1]) == Total(counts) + 1
  {
    var n := |counts| - 1;
    var more := counts[k := counts[k] + 1];
    if k == n {
      assert more[..n] == counts[..n];
    } else {
      TotalWithOneMore(counts[..n], k);
      assert more[..n] == counts[..n][k := counts[k] + 1];
    }
  }

  /** Every sample is in one of the buckets. */
  lemma {:induction false} BucketsCoverAll(latencies: seq<U64>) returns (counts: seq<nat>)
    ensures |counts| == HIST_BUCKETS && forall b: Slot :: counts[b] == T.CountIn(latencies, b)
    ensures Total(counts) == |latencies|
  {
    if latencies == [] {
      counts := Zeros();
      TotalOfZeros(counts);
    } else {
      var init, last := latencies[..|latencies| - 1], latencies[|latencies| - 1];
      var before := BucketsCoverAll(init);
      var k := BucketOfNs(last);
      counts := before[k := before[k] + 1];
      TotalWithOneMore(before, k);
      Rejoin(latencies);
      forall b: Slot ensures counts[b] == T.CountIn(latencies, b) {
        T.CountSnoc(init, last, b);
      }
    }
  }

  /** One account for the whole program, at every moment of a run in which no Put failed: each request
      whose issue the tracker saw is displayed, or lost in a reset, or waiting in the histogram or to
      land there, or still in start_times, or its timestamp was overwritten or refused. */
  lemma EveryIssueIsAccountedFor(steps: seq<Step>) returns (fates: seq<nat>)
    requires Smooth(steps)
    ensures |fates| == HIST_BUCKETS && forall b: Slot :: fates[b] == Fate(steps, b)
    ensures T.CountSteps(Handled(steps), T.IS_ISSUE)
         == Total(fates) + |Run(steps).start|
            + T.CountSteps(Handled(steps), T.IS_OVERWRITE) + T.CountSteps(Handled(steps), T.IS_REFUSED)
  {
    T.IssueAccounting(Handled(steps));
    HandlersRun(steps);
    fates := BucketsCoverAll(T.Recorded(Handled(steps)));
    forall b: Slot ensures fates[b] == Fate(steps, b) {
      SamplesHaveAFate(steps, b);
    }
  }

  // ----- what the display shows of slow requests -----

  /** All the counts displayed for bucket b and higher ones. */
  function ShownFrom(displays: seq<seq<U64>>, b: nat): nat
    requires forall d :: d in displays ==> |d| == HIST_BUCKETS
    decreases HIST_BUCKETS - b
  {
    if b >= HIST_BUCKETS then 0 else R.Shown(displays, b) + ShownFrom(displays, b + 1)
  }

  lemma {:induction false} CountFromSplits(latencies: seq<int>, b: Slot)
    ensures T.CountFrom(latencies, b)
         == T.CountIn(latencies, b) + if b + 1 < HIST_BUCKETS then T.CountFrom(latencies, b + 1) else 0
  {
    if latencies == [] {
    } else {
      CountFromSplits(latencies[..|latencies| - 1], b);
    }
  }

  lemma {:induction false} ShownAtMost(displays: seq<seq<U64>>, latencies: seq<int>, b: Slot)
    requires forall d :: d in displays ==> |d| == HIST_BUCKETS
    requires forall c: Slot :: R.Shown(displays, c) <= T.CountIn(latencies, c)
    ensures ShownFrom(displays, b) <= T.CountFrom(latencies, b)
    decreases HIST_BUCKETS - b
  {
    CountFromSplits(latencies, b);
    if b + 1 == HIST_BUCKETS {
      assert ShownFrom(displays, b + 1) == 0;
    } else {
      ShownAtMost(displays, latencies, b + 1);
    }
  }

  /** End to end, with any collisions, a full map, races and failing reads: as long as no Put fails, the
      displays together never show more requests in bucket b and higher than truly took that long. */
  lemma {:induction false} DisplaysNeverOverstate(steps: seq<Step>, b: Slot)
    requires Loop(R.PutFails) !in steps
    requires T.Timed(Handled(steps)) && T.Causal(Handled(steps))
    ensures ShownFrom(Run(steps).race.displays, b) <= T.CountFrom(T.TrueLatencies(Handled(steps)), b)
  {
    NoneFails(steps);
    LoopRuns(steps);
    forall c: Slot ensures R.Shown(Run(steps).race.displays, c) <= T.CountIn(T.Recorded(Handled(steps)), c) {
      R.NeverOverReports(Traced(steps), c);
      SamplesLand(steps, c);
    }
    ShownAtMost(Run(steps).race.displays, T.Recorded(Handled(steps)), b);
    T.NoTailIsOverstated(Handled(steps), b);
  }
}
