/** Busy percentages from two samples of /proc/stat: the arithmetic of internal/stats/cpu.go. */
module Cpu {
  import opened Words
  import opened Reals
  import opened Join

  /** One cpu line of /proc/stat, in jiffies. */
  datatype CPUTimes = CPUTimes(name: string, user: U64, nice: U64, system: U64, idle: U64, iowait: U64,
                               irq: U64, softirq: U64, steal: U64, guest: U64, guestNice: U64) {
    function Total(): U64 {
      Add64(Add64(Add64(Add64(Add64(Add64(Add64(user, nice), system), idle), iowait), irq), softirq), steal)
    }

    function IdleTotal(): U64 {
      Add64(idle, iowait)
    }
  }

  const NAME_OF := (c: CPUTimes) => c.name

  function PercentOf(totalDelta: U64, idleDelta: U64): real {
    if totalDelta <= 0 then 0.0 else Percent((totalDelta - idleDelta) as real, totalDelta as real)
  }

  /** The body of the loop in CPUPercent; all its subtractions are unsigned. */
  function BusyPercent(p: CPUTimes, c: CPUTimes): real {
    PercentOf(Sub64(c.Total(), p.Total()), Sub64(c.IdleTotal(), p.IdleTotal()))
  }

  function Percents(prev: seq<CPUTimes>, cur: seq<CPUTimes>): map<string, real> {
    Joined(prev, cur, NAME_OF, BusyPercent)
  }

  method CPUPercent(prev: seq<CPUTimes>, cur: seq<CPUTimes>) returns (result: map<string, real>)
    ensures result == Percents(prev, cur)
  {
    var prevByName: map<string, CPUTimes> := map[];
    var i := 0;
    while i < |prev|
      invariant i <= |prev| && prevByName == ByName(prev[..i], NAME_OF)
    {
      ByNameSnoc(prev, i, NAME_OF);
      prevByName := prevByName[prev[i].name := prev[i]];
      i := i + 1;
    }
    assert prev[..i] == prev;

    result := map[];
    i := 0;
    while i < |cur|
      invariant i <= |cur| && result == Joined(prev, cur[..i], NAME_OF, BusyPercent)
    {
      var c := cur[i];
      JoinedSnoc(prev, cur, i, NAME_OF, BusyPercent);
      if c.name in prevByName {
        result := result[c.name := BusyPercent(prevByName[c.name], c)];
      }
      i := i + 1;
    }
    assert cur[..i] == cur;
  }

  /** Entry i is the last one called name. */
  ghost predicate IsLastNamed(sample: seq<CPUTimes>, name: string, i: nat) {
    i < |sample| && sample[i].name == name && forall j :: i < j < |sample| ==> sample[j].name != name
  }

  /** Exactly the names on the lines of both samples get a percentage. */
  lemma PercentedNames(prev: seq<CPUTimes>, cur: seq<CPUTimes>, n: string)
    ensures n in Percents(prev, cur)
       <==> (exists p :: p in prev && p.name == n) && (exists c :: c in cur && c.name == n)
  {
    JoinedUsesLast(prev, cur, NAME_OF, BusyPercent, n);
    if p :| p in prev && p.name == n {
      assert NAME_OF(p) == n;
    }
    if c :| c in cur && c.name == n {
      assert NAME_OF(c) == n;
    }
    if n in Percents(prev, cur) {
      var p :| p in prev && NAME_OF(p) == n;
      var c :| c in cur && NAME_OF(c) == n;
    }
  }

  /** And it is that of the last line of the name in each sample. */
  lemma PercentOfLast(prev: seq<CPUTimes>, cur: seq<CPUTimes>, n: string, i: nat, j: nat)
    requires IsLastNamed(prev, n, i) && IsLastNamed(cur, n, j)
    ensures n in Percents(prev, cur) && Percents(prev, cur)[n] == BusyPercent(prev[i], cur[j])
  {
    ByNameAt(prev, NAME_OF, i);
    ByNameAt(cur, NAME_OF, j);
  }

  lemma PercentsIgnoreOrder(prev: seq<CPUTimes>, cur: seq<CPUTimes>,
                                               prev': seq<CPUTimes>, cur': seq<CPUTimes>)
    requires multiset(prev) == multiset(prev') && multiset(cur) == multiset(cur')
    requires UniqueNames(prev, NAME_OF) && UniqueNames(cur, NAME_OF)
    ensures Percents(prev, cur) == Percents(prev', cur')
  {
    JoinedIgnoresOrder(prev, cur, prev', cur', NAME_OF, BusyPercent);
  }

  // ----- the real counters behind the 64-bit ones -----

  /** The true counts of one CPU, which the kernel reports modulo 2^64. */
  datatype Counters = Counters(user: nat, nice: nat, system: nat, idle: nat, iowait: nat,
                               irq: nat, softirq: nat, steal: nat, guest: nat, guestNice: nat) {
    function Total(): nat {
      user + nice + system + idle + iowait + irq + softirq + steal
    }

    function Idle(): nat {
      idle + iowait
    }

    function Busy(): nat {
      user + nice + system + irq + softirq + steal
    }

    function Reported(name: string): CPUTimes {
      CPUTimes(name, Wrap(user), Wrap(nice), Wrap(system), Wrap(idle), Wrap(iowait),
               Wrap(irq), Wrap(softirq), Wrap(steal), Wrap(guest), Wrap(guestNice))
    }

    predicate UpTo(c: Counters) {
      && user <= c.user && nice <= c.nice && system <= c.system && idle <= c.idle && iowait <= c.iowait
      && irq <= c.irq && softirq <= c.softirq && steal <= c.steal
    }
  }

  lemma FourWrap(a: int, b: int, c: int, d: int)
    ensures Add64(Add64(Add64(Wrap(a), Wrap(b)), Wrap(c)), Wrap(d)) == Wrap(a + b + c + d)
  {
    AddWraps(a, b);
    AddWraps(a + b, c);
    AddWraps(a + b + c, d);
  }

  lemma FiveWrap(a: int, b: int, c: int, d: int, e: int)
    ensures Add64(Add64(Add64(Add64(Wrap(a), Wrap(b)), Wrap(c)), Wrap(d)), Wrap(e)) == Wrap(a + b + c + d + e)
  {
    FourWrap(a, b, c, d);
    AddWraps(a + b + c + d, e);
  }

  lemma ReportedTotals(g: Counters, name: string)
    ensures g.Reported(name).Total() == Wrap(g.Total())
    ensures g.Reported(name).IdleTotal() == Wrap(g.Idle())
  {
    var five := g.user + g.nice + g.system + g.idle + g.iowait;
    FiveWrap(g.user, g.nice, g.system, g.idle, g.iowait);
    FourWrap(five, g.irq, g.softirq, g.steal);
    AddWraps(g.idle, g.iowait);
  }

  /** The busy share of the time between two true samples. */
  function TrueShare(g: Counters, h: Counters): real {
    if h.Total() <= g.Total() then 0.0
    else Percent((h.Busy() - g.Busy()) as real, (h.Total() - g.Total()) as real)
  }

  lemma PercentOfInRangeIff(totalDelta: U64, idleDelta: U64)
    ensures 0.0 <= PercentOf(totalDelta, idleDelta) <= 100.0 <==> totalDelta == 0 || idleDelta <= totalDelta
  {
    if totalDelta > 0 {
      var part, whole := (totalDelta - idleDelta) as real, totalDelta as real;
      ScaledIff(part, whole, 100.0, 0.0);
      ScaledIff(part, whole, 100.0, 100.0);
    }
  }

  lemma ReportedDeltas(g: Counters, h: Counters, name: string)
    ensures BusyPercent(g.Reported(name), h.Reported(name))
         == PercentOf(Wrap(h.Total() - g.Total()), Wrap(h.Idle() - g.Idle()))
  {
    ReportedTotals(g, name);
    ReportedTotals(h, name);
    SubWraps(h.Total(), g.Total());
    SubWraps(h.Idle(), g.Idle());
  }

  lemma TrueShareIs(g: Counters, h: Counters)
    requires g.UpTo(h) && h.Total() - g.Total() < TWO_64
    ensures TrueShare(g, h) == PercentOf(h.Total() - g.Total(), h.Idle() - g.Idle())
    ensures 0.0 <= TrueShare(g, h) <= 100.0
  {
    var total, idle := h.Total() - g.Total(), h.Idle() - g.Idle();
    assert total - idle == h.Busy() - g.Busy();
    PercentOfInRangeIff(total, idle);
  }

  /** However often single counters or their sum have wrapped, the percentage is the true busy share,
      as long as fewer than 2^64 jiffies have passed. */
  lemma PercentIsTrueShare(g: Counters, h: Counters, name: string)
    requires g.UpTo(h) && h.Total() - g.Total() < TWO_64
    ensures BusyPercent(g.Reported(name), h.Reported(name)) == TrueShare(g, h)
    ensures 0.0 <= TrueShare(g, h) <= 100.0
  {
    ReportedDeltas(g, h, name);
    WrapIs(h.Total() - g.Total(), 0, h.Total() - g.Total());
    WrapIs(h.Idle() - g.Idle(), 0, h.Idle() - g.Idle());
    TrueShareIs(g, h);
  }

  /** When the percentage makes sense for samples that are not monotone, as when iowait falls. */
  lemma PercentInRangeIff(g: Counters, h: Counters, name: string)
    requires g.Total() < TWO_64 && h.Total() < TWO_64
    ensures 0.0 <= BusyPercent(g.Reported(name), h.Reported(name)) <= 100.0 <==>
            || g.Total() == h.Total()
            || (g.Total() < h.Total() && g.Idle() <= h.Idle() && g.Busy() <= h.Busy())
            || (g.Total() > h.Total() && (g.Idle() <= h.Idle() || g.Busy() <= h.Busy()))
  {
    ReportedDeltas(g, h, name);
    PercentOfInRangeIff(Wrap(h.Total() - g.Total()), Wrap(h.Idle() - g.Idle()));
    WrappedDeltas(g.Busy(), g.Idle(), h.Busy(), h.Idle());
  }

  /** The percentage of a CPU that was busy while iowait fell, as the kernel lets it, is no percentage. */
  lemma PercentCanLeaveRange(name: string)
    ensures var g, h := Counters(100, 0, 0, 100, 10, 0, 0, 0, 0, 0), Counters(200, 0, 0, 100, 5, 0, 0, 0, 0, 0);
            !(0.0 <= BusyPercent(g.Reported(name), h.Reported(name)) <= 100.0)
  {
    var g, h := Counters(100, 0, 0, 100, 10, 0, 0, 0, 0, 0), Counters(200, 0, 0, 100, 5, 0, 0, 0, 0, 0);
    PercentInRangeIff(g, h, name);
  }

  lemma WrappedDeltas(b: nat, i: nat, b': nat, i': nat)
    requires b + i < TWO_64 && b' + i' < TWO_64
    ensures var total, idle := Wrap(b' + i' - b - i), Wrap(i' - i);
            (total == 0 || idle <= total) <==>
              || b + i == b' + i'
              || (b + i < b' + i' && i <= i' && b <= b')
              || (b + i > b' + i' && (i <= i' || b <= b'))
  {
    SmallDelta(b + i, b' + i');
    SmallDelta(i, i');
  }

  lemma SmallDelta(x: int, y: int)
    requires 0 <= x < TWO_64 && 0 <= y < TWO_64
    ensures Wrap(y - x) == if y >= x then y - x else y - x + TWO_64
  {
  }

  /** The last entry called name in a sample reports the true counts g. */
  ghost predicate Shows(sample: seq<CPUTimes>, name: string, g: Counters) {
    exists i: nat :: IsLastNamed(sample, name, i) && sample[i] == g.Reported(name)
  }

  lemma ShownShare(prev: seq<CPUTimes>, cur: seq<CPUTimes>, name: string, g: Counters, h: Counters)
    requires Shows(prev, name, g) && Shows(cur, name, h)
    requires g.UpTo(h) && h.Total() - g.Total() < TWO_64
    ensures name in Percents(prev, cur) && Percents(prev, cur)[name] == TrueShare(g, h)
  {
    var i: nat :| IsLastNamed(prev, name, i) && prev[i] == g.Reported(name);
    var j: nat :| IsLastNamed(cur, name, j) && cur[j] == h.Reported(name);
    PercentOfLast(prev, cur, name, i, j);
    PercentIsTrueShare(g, h, name);
  }

  // ----- the aggregate line -----

  function Plus(g: Counters, h: Counters): Counters {
    Counters(g.user + h.user, g.nice + h.nice, g.system + h.system, g.idle + h.idle, g.iowait + h.iowait,
             g.irq + h.irq, g.softirq + h.softirq, g.steal + h.steal, g.guest + h.guest, g.guestNice + h.guestNice)
  }

  function SumOf(gs: seq<Counters>): Counters {
    if gs == [] then Counters(0, 0, 0, 0, 0, 0, 0, 0, 0, 0) else Plus(SumOf(gs[..|gs| - 1]), gs[|gs| - 1])
  }

  /** The share of busy in total, multiplied out so that it also speaks about a CPU that stood still. */
  ghost predicate ShareWithin(busy: int, total: int, lo: real, hi: real) {
    lo * total as real <= busy as real * 100.0 <= hi * total as real
  }

  lemma ShareWithinIff(g: Counters, h: Counters, lo: real, hi: real)
    requires g.UpTo(h)
    ensures lo <= TrueShare(g, h) <= hi ==> ShareWithin(h.Busy() - g.Busy(), h.Total() - g.Total(), lo, hi)
    ensures h.Total() > g.Total() && ShareWithin(h.Busy() - g.Busy(), h.Total() - g.Total(), lo, hi) ==>
              lo <= TrueShare(g, h) <= hi
  {
    if h.Total() > g.Total() {
      PercentWithinIff(h.Busy() - g.Busy(), h.Total() - g.Total(), lo, hi);
    } else {
      assert h.Busy() - g.Busy() == 0 && h.Total() - g.Total() == 0;
      ZeroWithin(lo, hi);
    }
  }

  lemma PercentWithinIff(busy: int, total: int, lo: real, hi: real)
    requires total > 0
    ensures lo <= Percent(busy as real, total as real) <= hi <==> ShareWithin(busy, total, lo, hi)
  {
    ScaledIff(busy as real, total as real, 100.0, lo);
    ScaledIff(busy as real, total as real, 100.0, hi);
  }

  lemma ZeroWithin(lo: real, hi: real)
    ensures ShareWithin(0, 0, lo, hi)
  {
    assert lo * 0.0 == 0.0 && hi * 0.0 == 0.0;
  }

  lemma MediantWithin(b: int, t: int, b': int, t': int, lo: real, hi: real)
    requires ShareWithin(b, t, lo, hi) && ShareWithin(b', t', lo, hi)
    ensures ShareWithin(b + b', t + t', lo, hi)
  {
    var x, y := t as real, t' as real;
    assert (t + t') as real == x + y && (b + b') as real == b as real + b' as real;
    assert lo * (x + y) == lo * x + lo * y;
    assert hi * (x + y) == hi * x + hi * y;
  }

  function TotalOver(gs: seq<Counters>, hs: seq<Counters>): int {
    SumOf(hs).Total() - SumOf(gs).Total()
  }

  lemma {:induction false} SumsSplit(gs: seq<Counters>, hs: seq<Counters>)
    requires |gs| == |hs| > 0
    ensures var n := |gs| - 1;
            && TotalOver(gs, hs) == TotalOver(gs[..n], hs[..n]) + (hs[n].Total() - gs[n].Total())
            && (SumOf(gs[..n]).UpTo(SumOf(hs[..n])) && gs[n].UpTo(hs[n]) ==> SumOf(gs).UpTo(SumOf(hs)))
  {
  }

  lemma {:induction false} SumMonotone(gs: seq<Counters>, hs: seq<Counters>)
    requires |gs| == |hs| && forall k :: 0 <= k < |gs| ==> gs[k].UpTo(hs[k])
    ensures SumOf(gs).UpTo(SumOf(hs))
    ensures TotalOver(gs, hs) == 0 ==> forall k :: 0 <= k < |gs| ==> gs[k].Total() == hs[k].Total()
  {
    if gs == [] {
    } else {
      var n := |gs| - 1;
      SumMonotone(gs[..n], hs[..n]);
      SumsSplit(gs, hs);
      assert gs[n].UpTo(hs[n]);
      assert TotalOver(gs[..n], hs[..n]) >= 0 && hs[n].Total() >= gs[n].Total();
    }
  }

  /** What holds of no CPUs at all, and passes from two pairs of samples to their sums, passes from the
      cores to the aggregate. */
  lemma {:induction false} SumInherits(gs: seq<Counters>, hs: seq<Counters>, p: (Counters, Counters) -> bool)
    requires |gs| == |hs| && p(SumOf([]), SumOf([]))
    requires forall g, h, g', h' :: p(g, h) && p(g', h') ==> p(Plus(g, g'), Plus(h, h'))
    requires forall k :: 0 <= k < |gs| ==> p(gs[k], hs[k])
    ensures p(SumOf(gs), SumOf(hs))
  {
    if gs == [] {
    } else {
      var n := |gs| - 1;
      SumInherits(gs[..n], hs[..n], p);
      assert p(gs[n], hs[n]);
    }
  }

  ghost predicate Within(g: Counters, h: Counters, lo: real, hi: real) {
    ShareWithin(h.Busy() - g.Busy(), h.Total() - g.Total(), lo, hi)
  }

  lemma PlusWithin(g: Counters, h: Counters, g': Counters, h': Counters, lo: real, hi: real)
    requires Within(g, h, lo, hi) && Within(g', h', lo, hi)
    ensures Within(Plus(g, g'), Plus(h, h'), lo, hi)
  {
    MediantWithin(h.Busy() - g.Busy(), h.Total() - g.Total(), h'.Busy() - g'.Busy(), h'.Total() - g'.Total(), lo, hi);
  }

  lemma {:induction false} SumWithin(gs: seq<Counters>, hs: seq<Counters>, lo: real, hi: real)
    requires |gs| == |hs|
    requires forall k :: 0 <= k < |gs| ==> Within(gs[k], hs[k], lo, hi)
    ensures Within(SumOf(gs), SumOf(hs), lo, hi)
  {
    ZeroWithin(lo, hi);
    forall g, h, g', h' | Within(g, h, lo, hi) && Within(g', h', lo, hi)
      ensures Within(Plus(g, g'), Plus(h, h'), lo, hi)
    {
      PlusWithin(g, h, g', h', lo, hi);
    }
    SumInherits(gs, hs, (g, h) => Within(g, h, lo, hi));
  }

  lemma CoresWithin(gs: seq<Counters>, hs: seq<Counters>, lo: real, hi: real)
    requires |gs| == |hs|
    requires forall k :: 0 <= k < |gs| ==> gs[k].UpTo(hs[k]) && lo <= TrueShare(gs[k], hs[k]) <= hi
    ensures forall k :: 0 <= k < |gs| ==> Within(gs[k], hs[k], lo, hi)
  {
    forall k | 0 <= k < |gs| ensures Within(gs[k], hs[k], lo, hi) {
      ShareWithinIff(gs[k], hs[k], lo, hi);
    }
  }

  lemma {:induction false} AggregateShare(gs: seq<Counters>, hs: seq<Counters>, lo: real, hi: real)
    requires |gs| == |hs| > 0
    requires forall k :: 0 <= k < |gs| ==> gs[k].UpTo(hs[k]) && lo <= TrueShare(gs[k], hs[k]) <= hi
    ensures SumOf(gs).UpTo(SumOf(hs))
    ensures lo <= TrueShare(SumOf(gs), SumOf(hs)) <= hi
  {
    CoresWithin(gs, hs, lo, hi);
    SumMonotone(gs, hs);
    SumWithin(gs, hs, lo, hi);
    ShareFromWithin(SumOf(gs), SumOf(hs), gs[0], hs[0], lo, hi);
  }

  lemma ShareFromWithin(g: Counters, h: Counters, core: Counters, core': Counters, lo: real, hi: real)
    requires g.UpTo(h) && Within(g, h, lo, hi)
    requires lo <= TrueShare(core, core') <= hi
    requires h.Total() == g.Total() ==> core.Total() == core'.Total()
    ensures lo <= TrueShare(g, h) <= hi
  {
    if h.Total() > g.Total() {
      ShareWithinIff(g, h, lo, hi);
    }
  }

  /** The aggregate percentage lies between the smallest and the largest core percentage, idle cores
      and cores whose counters stood still included. */
  lemma {:induction false} AggregateBetweenCores(prev: seq<CPUTimes>, cur: seq<CPUTimes>, names: seq<string>,
                              gs: seq<Counters>, hs: seq<Counters>, lo: real, hi: real)
    requires |names| == |gs| == |hs| > 0
    requires forall k :: 0 <= k < |names| ==> Shows(prev, names[k], gs[k]) && Shows(cur, names[k], hs[k])
    requires Shows(prev, "cpu", SumOf(gs)) && Shows(cur, "cpu", SumOf(hs))
    requires forall k :: 0 <= k < |gs| ==> gs[k].UpTo(hs[k]) && hs[k].Total() - gs[k].Total() < TWO_64
    requires SumOf(hs).Total() - SumOf(gs).Total() < TWO_64
    requires forall k :: 0 <= k < |names| ==>
               names[k] in Percents(prev, cur) && lo <= Percents(prev, cur)[names[k]] <= hi
    ensures "cpu" in Percents(prev, cur) && lo <= Percents(prev, cur)["cpu"] <= hi
  {
    forall k | 0 <= k < |gs| ensures lo <= TrueShare(gs[k], hs[k]) <= hi {
      ShownShare(prev, cur, names[k], gs[k], hs[k]);
    }
    AggregateShare(gs, hs, lo, hi);
    ShownShare(prev, cur, "cpu", SumOf(gs), SumOf(hs));
  }

  // ----- one interval -----

  /** Percentage times elapsed jiffies is the busy jiffies, even when nothing elapsed. */
  lemma ShareTimesTotal(g: Counters, h: Counters)
    requires g.UpTo(h)
    ensures TrueShare(g, h) * (h.Total() - g.Total()) as real == (h.Busy() - g.Busy()) as real * 100.0
  {
    if h.Total() > g.Total() {
      ScaledTimes((h.Busy() - g.Busy()) as real, (h.Total() - g.Total()) as real, 100.0);
    } else {
      assert h.Busy() == g.Busy() && h.Total() == g.Total();
    }
  }
}
