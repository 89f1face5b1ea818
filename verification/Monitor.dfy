/** The sampling loop of cmd/sysmon/main.go: every report compares the newest sample with the one
    before it. */
module Monitor {
  import opened Options
  import opened Words
  import opened Reals
  import opened Join
  import C = Cpu
  import N = Net

  /** What one round of readings yields; at is the clock in seconds. */
  datatype Sample = Sample(cpu: seq<C.CPUTimes>, net: seq<N.NetIO>, at: real)

  datatype Report = Report(cpu: map<string, real>, net: map<string, N.NetThroughput>)

  function ReportOf(prev: Sample, cur: Sample): Report {
    Report(C.Percents(prev.cpu, cur.cpu), N.Throughputs(prev.net, cur.net, cur.at - prev.at))
  }

  /** Report k compares sample k + 1 with sample k. */
  function Reports(samples: seq<Sample>): (r: seq<Report>)
    ensures |r| == if samples == [] then 0 else |samples| - 1
  {
    Neighbours(samples, ReportOf)
  }

  /** The readings up to the first round in which something could not be read. */
  function Readable(readings: seq<Option<Sample>>): seq<Sample> {
    if readings == [] || readings[0].None? then [] else [readings[0].value] + Readable(readings[1..])
  }

  lemma {:induction false} ReadableIs(readings: seq<Option<Sample>>)
    ensures |Readable(readings)| <= |readings|
    ensures forall k :: 0 <= k < |Readable(readings)| ==> readings[k] == Some(Readable(readings)[k])
    ensures |Readable(readings)| < |readings| ==> readings[|Readable(readings)|].None?
  {
    if readings != [] && readings[0].Some? {
      ReadableIs(readings[1..]);
    }
  }

  lemma {:induction false} NextReading(readings: seq<Option<Sample>>, i: nat)
    requires i < |readings| && i <= |Readable(readings)|
    ensures readings[i].Some? ==> i < |Readable(readings)| && Readable(readings)[i] == readings[i].value
    ensures readings[i].None? ==> i == |Readable(readings)|
  {
    ReadableIs(readings);
  }

  /** The loop, for as many ticks as there are readings. It stops at the first error. */
  method Run(readings: seq<Option<Sample>>) returns (reports: seq<Report>, failed: bool)
    ensures reports == Reports(Readable(readings))
    ensures failed <==> |Readable(readings)| < |readings|
  {
    if readings == [] {
      return [], false;
    }
    ghost var good := Readable(readings);
    ReadableIs(readings);
    NextReading(readings, 0);
    if readings[0].None? {
      return [], true;
    }
    var first := readings[0].value;
    var prevCPU, prevNet, lastSample := first.cpu, first.net, first.at;
    reports := [];
    var i := 1;
    while i < |readings|
      invariant 1 <= i <= |readings| && i <= |good|
      invariant Sample(prevCPU, prevNet, lastSample) == good[i - 1]
      invariant reports == Reports(good[..i])
    {
      NextReading(readings, i);
      if readings[i].None? {
        assert good[..i] == good;
        return reports, true;
      }
      var cur := readings[i].value;
      NeighboursSnoc(good, ReportOf, i);
      var report := Tick(prevCPU, prevNet, lastSample, cur);
      reports := reports + [report];
      prevCPU, prevNet, lastSample := cur.cpu, cur.net, cur.at;
      i := i + 1;
    }
    assert good[..i] == good;
    failed := false;
  }

  method Tick(prevCPU: seq<C.CPUTimes>, prevNet: seq<N.NetIO>, lastSample: real, cur: Sample) returns (report: Report)
    ensures report == ReportOf(Sample(prevCPU, prevNet, lastSample), cur)
  {
    var elapsed := cur.at - lastSample;
    var cpuPct := C.CPUPercent(prevCPU, cur.cpu);
    var netRates := N.ComputeNetThroughput(prevNet, cur.net, elapsed);
    report := Report(cpuPct, netRates);
    ReportIs(Sample(prevCPU, prevNet, lastSample), cur, cpuPct, netRates);
  }

  lemma ReportIs(prev: Sample, cur: Sample, cpu: map<string, real>, net: map<string, N.NetThroughput>)
    requires cpu == C.Percents(prev.cpu, cur.cpu)
    requires net == N.Throughputs(prev.net, cur.net, cur.at - prev.at)
    ensures Report(cpu, net) == ReportOf(prev, cur)
  {
  }

  // ----- telescoping -----

  ghost predicate Steady(gs: seq<C.Counters>) {
    forall k :: 0 <= k < |gs| - 1 ==> gs[k].UpTo(gs[k + 1]) && gs[k + 1].Total() - gs[k].Total() < TWO_64
  }

  function CpuShares(reports: seq<Report>, name: string): (r: seq<real>)
    requires forall r :: r in reports ==> name in r.cpu
    ensures |r| == |reports|
  {
    seq(|reports|, (k: int) requires 0 <= k < |reports| => reports[k].cpu[name])
  }

  /** The jiffies between neighbouring samples. */
  function Intervals(gs: seq<C.Counters>): (r: seq<real>)
    requires gs != []
    ensures |r| == |gs| - 1
  {
    seq(|gs| - 1, (k: int) requires 0 <= k < |gs| - 1 => (gs[k + 1].Total() - gs[k].Total()) as real)
  }

  lemma CpuReportsShow(samples: seq<Sample>, name: string, gs: seq<C.Counters>)
    requires |samples| == |gs| > 0 && Steady(gs)
    requires forall k :: 0 <= k < |samples| ==> C.Shows(samples[k].cpu, name, gs[k])
    ensures forall k :: 0 <= k < |samples| - 1 ==>
              name in Reports(samples)[k].cpu && Reports(samples)[k].cpu[name] == C.TrueShare(gs[k], gs[k + 1])
  {
    forall k | 0 <= k < |samples| - 1
      ensures name in Reports(samples)[k].cpu && Reports(samples)[k].cpu[name] == C.TrueShare(gs[k], gs[k + 1])
    {
      CpuReportShows(samples[k], samples[k + 1], name, gs[k], gs[k + 1]);
      NeighboursAt(samples, ReportOf, k);
    }
  }

  lemma CpuReportShows(prev: Sample, cur: Sample, name: string, g: C.Counters, h: C.Counters)
    requires C.Shows(prev.cpu, name, g) && C.Shows(cur.cpu, name, h)
    requires g.UpTo(h) && h.Total() - g.Total() < TWO_64
    ensures name in ReportOf(prev, cur).cpu && ReportOf(prev, cur).cpu[name] == C.TrueShare(g, h)
  {
    C.ShownShare(prev.cpu, cur.cpu, name, g, h);
  }

  lemma {:induction false} SharesTelescope(shares: seq<real>, gs: seq<C.Counters>)
    requires |gs| == |shares| + 1 && Steady(gs)
    requires forall k :: 0 <= k < |shares| ==> shares[k] == C.TrueShare(gs[k], gs[k + 1])
    ensures Dot(shares, Intervals(gs)) == (gs[|shares|].Busy() - gs[0].Busy()) as real * 100.0
  {
    var busy := BusyMarks(gs);
    forall k | 0 <= k < |shares| ensures IsStep(shares[k], Intervals(gs)[k], busy[k], busy[k + 1]) {
      ShareIsBusyStep(shares[k], gs, k);
    }
    DotTelescopes(shares, Intervals(gs), busy);
  }

  function BusyMarks(gs: seq<C.Counters>): (r: seq<real>)
    ensures |r| == |gs|
  {
    seq(|gs|, (k: int) requires 0 <= k < |gs| => gs[k].Busy() as real * 100.0)
  }

  lemma ShareIsBusyStep(share: real, gs: seq<C.Counters>, k: nat)
    requires k + 1 < |gs| && gs[k].UpTo(gs[k + 1]) && share == C.TrueShare(gs[k], gs[k + 1])
    ensures IsStep(share, Intervals(gs)[k], BusyMarks(gs)[k], BusyMarks(gs)[k + 1])
  {
    C.ShareTimesTotal(gs[k], gs[k + 1]);
  }

  /** Over any number of ticks, the displayed percentages of a CPU, weighted by the jiffies of their
      intervals, add up to exactly the busy time between the first and the last sample. */
  lemma CpuReportsTelescope(samples: seq<Sample>, name: string, gs: seq<C.Counters>)
    requires |samples| == |gs| > 0 && Steady(gs)
    requires forall k :: 0 <= k < |samples| ==> C.Shows(samples[k].cpu, name, gs[k])
    ensures forall r :: r in Reports(samples) ==> name in r.cpu
    ensures Dot(CpuShares(Reports(samples), name), Intervals(gs))
         == (gs[|gs| - 1].Busy() - gs[0].Busy()) as real * 100.0
  {
    CpuReportsShow(samples, name, gs);
    SharesTelescope(CpuShares(Reports(samples), name), gs);
  }

  function Rates(reports: seq<Report>, iface: string, d: N.Direction): (r: seq<real>)
    requires forall r :: r in reports ==> iface in r.net
    ensures |r| == |reports|
  {
    seq(|reports|, (k: int) requires 0 <= k < |reports| => reports[k].net[iface].Bps(d))
  }

  function Gaps(samples: seq<Sample>): (r: seq<real>)
    requires samples != []
    ensures |r| == |samples| - 1
  {
    seq(|samples| - 1, (k: int) requires 0 <= k < |samples| - 1 => samples[k + 1].at - samples[k].at)
  }

  ghost predicate ClockRuns(samples: seq<Sample>) {
    forall k :: 0 <= k < |samples| - 1 ==> samples[k].at < samples[k + 1].at
  }

  lemma NetReportsShow(samples: seq<Sample>, iface: string, d: N.Direction, readings: seq<U64>)
    requires |samples| == |readings| > 0 && ClockRuns(samples)
    requires forall k :: 0 <= k < |samples| ==> N.Shows(samples[k].net, iface, d, readings[k])
    ensures forall k :: 0 <= k < |samples| - 1 ==>
              && iface in Reports(samples)[k].net
              && Reports(samples)[k].net[iface].Bps(d) == RateBetween(samples, readings, k)
  {
    forall k | 0 <= k < |samples| - 1
      ensures iface in Reports(samples)[k].net
      ensures Reports(samples)[k].net[iface].Bps(d) == RateBetween(samples, readings, k)
    {
      NetReportShows(samples, iface, d, readings, k);
      NeighboursAt(samples, ReportOf, k);
    }
  }

  lemma NetReportShows(samples: seq<Sample>, iface: string, d: N.Direction,
                                          readings: seq<U64>, k: nat)
    requires k + 1 < |samples| == |readings| && samples[k].at < samples[k + 1].at
    requires N.Shows(samples[k].net, iface, d, readings[k])
    requires N.Shows(samples[k + 1].net, iface, d, readings[k + 1])
    ensures iface in ReportOf(samples[k], samples[k + 1]).net
    ensures ReportOf(samples[k], samples[k + 1]).net[iface].Bps(d) == RateBetween(samples, readings, k)
  {
    N.ShownRate(samples[k].net, samples[k + 1].net, samples[k + 1].at - samples[k].at, iface, d,
                readings[k], readings[k + 1]);
  }

  function RateBetween(samples: seq<Sample>, readings: seq<U64>, k: nat): real
    requires k + 1 < |samples| == |readings| && samples[k].at < samples[k + 1].at
  {
    N.PerSecond(N.Delta(readings[k], readings[k + 1]), samples[k + 1].at - samples[k].at)
  }

  function MovedMarks(readings: seq<U64>): (r: seq<real>)
    ensures |r| == |readings|
  {
    seq(|readings|, (k: int) requires 0 <= k < |readings| => N.Moved(readings[..k + 1]) as real)
  }

  lemma RateIsMovedStep(samples: seq<Sample>, readings: seq<U64>, k: nat)
    requires k + 1 < |samples| == |readings| && samples[k].at < samples[k + 1].at
    ensures IsStep(RateBetween(samples, readings, k), Gaps(samples)[k],
                   MovedMarks(readings)[k], MovedMarks(readings)[k + 1])
  {
    N.PerSecondTimes(N.Delta(readings[k], readings[k + 1]), samples[k + 1].at - samples[k].at);
    assert readings[..k + 2][..k + 1] == readings[..k + 1];
  }

  lemma {:induction false} RatesTelescope(rates: seq<real>, samples: seq<Sample>, readings: seq<U64>)
    requires |samples| == |readings| == |rates| + 1 && ClockRuns(samples)
    requires forall k :: 0 <= k < |rates| ==> rates[k] == RateBetween(samples, readings, k)
    ensures Dot(rates, Gaps(samples)) == N.Moved(readings) as real
  {
    var moved := MovedMarks(readings);
    forall k | 0 <= k < |rates| ensures IsStep(rates[k], Gaps(samples)[k], moved[k], moved[k + 1]) {
      RateIsMovedStep(samples, readings, k);
    }
    DotTelescopes(rates, Gaps(samples), moved);
    assert readings[..|rates| + 1] == readings;
  }

  /** Over any number of ticks, the displayed rates of an interface, times the time they cover, amount
      to what its counter grew by from the first sample to the last, plus all that it fell by on the way;
      and so to exactly its growth iff the counter never fell. */
  lemma {:induction false} NetReportsTelescope(samples: seq<Sample>, iface: string, d: N.Direction, readings: seq<U64>)
    requires |samples| == |readings| > 0 && ClockRuns(samples)
    requires forall k :: 0 <= k < |samples| ==> N.Shows(samples[k].net, iface, d, readings[k])
    ensures forall r :: r in Reports(samples) ==> iface in r.net
    ensures Dot(Rates(Reports(samples), iface, d), Gaps(samples)) == (N.Growth(readings) + N.Falls(readings)) as real
    ensures Dot(Rates(Reports(samples), iface, d), Gaps(samples)) == N.Growth(readings) as real
       <==> N.NeverFalls(readings)
  {
    NetReportsShow(samples, iface, d, readings);
    RatesTelescope(Rates(Reports(samples), iface, d), samples, readings);
    N.MovedIs(readings);
    N.MovedAtLeast(readings);
  }
}
