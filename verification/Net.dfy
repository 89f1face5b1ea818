/** Network rates from two samples of /proc/net/dev: the arithmetic of internal/stats/net.go. */
module Net {
  import opened Words
  import opened Join

  datatype NetIO = NetIO(iface: string, rxBytes: U64, rxPackets: U64, txBytes: U64, txPackets: U64) {
    function Bytes(d: Direction): U64 {
      if d.Rx? then rxBytes else txBytes
    }
  }

  datatype Direction = Rx | Tx

  datatype NetThroughput = NetThroughput(rxBps: real, txBps: real) {
    function Bps(d: Direction): real {
      if d.Rx? then rxBps else txBps
    }
  }

  const IFACE_OF := (n: NetIO) => n.iface

  /** The bytes an interface is credited with between two readings: nothing when its counter fell. */
  function Delta(before: U64, after: U64): U64 {
    if after >= before then after - before else 0
  }

  function PerSecond(bytes: U64, elapsed: real): real
    requires elapsed > 0.0
  {
    bytes as real / elapsed
  }

  lemma PerSecondTimes(bytes: U64, elapsed: real)
    requires elapsed > 0.0
    ensures PerSecond(bytes, elapsed) * elapsed == bytes as real
  {
  }

  datatype Credit = Credit(rx: U64, tx: U64)

  function CreditOf(p: NetIO, c: NetIO): Credit {
    Credit(Delta(p.rxBytes, c.rxBytes), Delta(p.txBytes, c.txBytes))
  }

  function RateOf(credit: Credit, elapsed: real): NetThroughput
    requires elapsed > 0.0
  {
    NetThroughput(PerSecond(credit.rx, elapsed), PerSecond(credit.tx, elapsed))
  }

  function RatesOf(credits: map<string, Credit>, elapsed: real): map<string, NetThroughput>
    requires elapsed > 0.0
  {
    map n | n in credits :: RateOf(credits[n], elapsed)
  }

  lemma RatesSnoc(credits: map<string, Credit>, n: string, credit: Credit, elapsed: real)
    requires elapsed > 0.0
    ensures RatesOf(credits[n := credit], elapsed) == RatesOf(credits, elapsed)[n := RateOf(credit, elapsed)]
  {
  }

  function Throughputs(prev: seq<NetIO>, cur: seq<NetIO>, elapsed: real): map<string, NetThroughput> {
    if elapsed <= 0.0 then map[] else RatesOf(Joined(prev, cur, IFACE_OF, CreditOf), elapsed)
  }

  method ComputeNetThroughput(prev: seq<NetIO>, cur: seq<NetIO>, elapsedSeconds: real)
    returns (result: map<string, NetThroughput>)
    ensures result == Throughputs(prev, cur, elapsedSeconds)
  {
    var prevByName: map<string, NetIO> := map[];
    var i := 0;
    while i < |prev|
      invariant i <= |prev| && prevByName == ByName(prev[..i], IFACE_OF)
    {
      ByNameSnoc(prev, i, IFACE_OF);
      prevByName := prevByName[prev[i].iface := prev[i]];
      i := i + 1;
    }
    assert prev[..i] == prev;

    result := map[];
    if elapsedSeconds <= 0.0 {
      return;
    }
    i := 0;
    while i < |cur|
      invariant i <= |cur| && result == RatesOf(Joined(prev, cur[..i], IFACE_OF, CreditOf), elapsedSeconds)
    {
      var c := cur[i];
      JoinedSnoc(prev, cur, i, IFACE_OF, CreditOf);
      if c.iface in prevByName {
        RatesSnoc(Joined(prev, cur[..i], IFACE_OF, CreditOf), c.iface, CreditOf(prevByName[c.iface], c),
                  elapsedSeconds);
        result := result[c.iface := RateOf(CreditOf(prevByName[c.iface], c), elapsedSeconds)];
      }
      i := i + 1;
    }
    assert cur[..i] == cur;
  }

  lemma ThroughputsIgnoreOrder(prev: seq<NetIO>, cur: seq<NetIO>,
                                                  prev': seq<NetIO>, cur': seq<NetIO>, elapsed: real)
    requires multiset(prev) == multiset(prev') && multiset(cur) == multiset(cur')
    requires UniqueNames(prev, IFACE_OF) && UniqueNames(cur, IFACE_OF)
    ensures Throughputs(prev, cur, elapsed) == Throughputs(prev', cur', elapsed)
  {
    JoinedIgnoresOrder(prev, cur, prev', cur', IFACE_OF, CreditOf);
  }

  lemma RatedInterfaces(prev: seq<NetIO>, cur: seq<NetIO>, elapsed: real, iface: string)
    ensures iface in Throughputs(prev, cur, elapsed)
       <==> elapsed > 0.0 && (exists p :: p in prev && p.iface == iface) && (exists c :: c in cur && c.iface == iface)
  {
    JoinedUsesLast(prev, cur, IFACE_OF, CreditOf, iface);
    if p :| p in prev && p.iface == iface {
      assert IFACE_OF(p) == iface;
    }
    if c :| c in cur && c.iface == iface {
      assert IFACE_OF(c) == iface;
    }
    if elapsed > 0.0 && iface in Throughputs(prev, cur, elapsed) {
      var p :| p in prev && IFACE_OF(p) == iface;
      var c :| c in cur && IFACE_OF(c) == iface;
    }
  }

  /** The last entry for an interface in a sample has this byte counter. */
  ghost predicate Shows(sample: seq<NetIO>, iface: string, d: Direction, bytes: U64) {
    exists i: nat :: IsLastNamed(sample, iface, i) && sample[i].Bytes(d) == bytes
  }

  ghost predicate IsLastNamed(sample: seq<NetIO>, iface: string, i: nat) {
    i < |sample| && sample[i].iface == iface && forall j :: i < j < |sample| ==> sample[j].iface != iface
  }

  /** The rate comes from the last entry of the interface in each sample. */
  lemma RateOfLast(prev: seq<NetIO>, cur: seq<NetIO>, elapsed: real, iface: string, i: nat, j: nat)
    requires elapsed > 0.0 && IsLastNamed(prev, iface, i) && IsLastNamed(cur, iface, j)
    ensures iface in Throughputs(prev, cur, elapsed)
    ensures Throughputs(prev, cur, elapsed)[iface] == RateOf(CreditOf(prev[i], cur[j]), elapsed)
  {
    ByNameAt(prev, IFACE_OF, i);
    ByNameAt(cur, IFACE_OF, j);
  }

  lemma ShownRate(prev: seq<NetIO>, cur: seq<NetIO>, elapsed: real, iface: string, d: Direction, b: U64, b': U64)
    requires elapsed > 0.0 && Shows(prev, iface, d, b) && Shows(cur, iface, d, b')
    ensures iface in Throughputs(prev, cur, elapsed)
    ensures Throughputs(prev, cur, elapsed)[iface].Bps(d) == PerSecond(Delta(b, b'), elapsed)
  {
    var i: nat :| IsLastNamed(prev, iface, i) && prev[i].Bytes(d) == b;
    var j: nat :| IsLastNamed(cur, iface, j) && cur[j].Bytes(d) == b';
    RateOfLast(prev, cur, elapsed, iface, i, j);
  }

  /** A rate is the growth of the counter per second, and 0 when the counter fell. */
  lemma RateIsGrowth(prev: seq<NetIO>, cur: seq<NetIO>, elapsed: real, iface: string, d: Direction, b: U64, b': U64)
    requires elapsed > 0.0 && Shows(prev, iface, d, b) && Shows(cur, iface, d, b')
    ensures iface in Throughputs(prev, cur, elapsed)
    ensures b <= b' ==> Throughputs(prev, cur, elapsed)[iface].Bps(d) == PerSecond(b' - b, elapsed)
    ensures b >= b' ==> Throughputs(prev, cur, elapsed)[iface].Bps(d) == 0.0
  {
    ShownRate(prev, cur, elapsed, iface, d, b, b');
    PerSecondOfDelta(b, b', elapsed);
  }

  lemma PerSecondOfDelta(b: U64, b': U64, elapsed: real)
    requires elapsed > 0.0
    ensures b <= b' ==> PerSecond(Delta(b, b'), elapsed) == PerSecond(b' - b, elapsed)
    ensures b >= b' ==> PerSecond(Delta(b, b'), elapsed) == 0.0
  {
  }

  /** The sum of the credited differences along a list of readings. */
  function Moved(readings: seq<U64>): nat {
    if |readings| <= 1 then 0 else
      var n := |readings| - 1;
      Moved(readings[..n]) + Delta(readings[n - 1], readings[n])
  }

  function Growth(readings: seq<U64>): int
    requires readings != []
  {
    readings[|readings| - 1] as int - readings[0] as int
  }

  ghost predicate NeverFalls(readings: seq<U64>) {
    forall k :: 0 <= k < |readings| - 1 ==> readings[k] <= readings[k + 1]
  }

  /** By how much the counter fell, in all, between neighbouring readings. */
  function Falls(readings: seq<U64>): nat {
    if |readings| <= 1 then 0 else
      var n := |readings| - 1;
      Falls(readings[..n]) + if readings[n] < readings[n - 1] then readings[n - 1] - readings[n] else 0
  }

  /** Over any number of readings, what is credited is the end-to-end growth and, on top, exactly the
      falls, which are not held against it. */
  lemma {:induction false} MovedIs(readings: seq<U64>)
    requires readings != []
    ensures Moved(readings) == Growth(readings) + Falls(readings)
  {
    var n := |readings| - 1;
    if n == 0 {
    } else {
      MovedIs(readings[..n]);
    }
  }

  /** Over any number of readings nothing that moved is missed; more than the end-to-end growth is
      credited exactly when the counter fell on the way. */
  lemma {:induction false} MovedAtLeast(readings: seq<U64>)
    requires readings != []
    ensures Moved(readings) >= Growth(readings)
    ensures Moved(readings) == Growth(readings) <==> NeverFalls(readings)
  {
    var n := |readings| - 1;
    if n == 0 {
    } else {
      MovedAtLeast(readings[..n]);
      if NeverFalls(readings[..n]) && readings[n - 1] <= readings[n] {
        assert forall k :: 0 <= k < n - 1 ==> readings[..n][k] <= readings[..n][k + 1];
      }
      if NeverFalls(readings) {
        assert readings[n - 1] <= readings[n - 1 + 1];
      }
    }
  }
}
