/** Latency bucketing and request keys: the pure part of internal/ebpf/block_latency.c,
    and the labels internal/ebpf/loader.go puts on the buckets. */
module Buckets {
  import opened Words

  const HIST_BUCKETS: nat := 24

  type Slot = b: nat | b < HIST_BUCKETS

  /** A histogram with every count zero. */
  function Zeros(): (h: seq<U64>)
    ensures |h| == HIST_BUCKETS && forall b :: 0 <= b < HIST_BUCKETS ==> h[b] == 0
  {
    seq(HIST_BUCKETS, i => 0)
  }

  // ----- the ladder -----

  /** The right-shift loop: how many times v can be halved before it is zero. */
  function BitLength(v: nat): nat {
    if v == 0 then 0 else 1 + BitLength(v / 2)
  }

  /** The bucket of a latency in microseconds: its bit length, saturating at the last bucket. */
  function Bucket(us: nat): Slot {
    Clamp(BitLength(us))
  }

  function Clamp(b: nat): Slot {
    if b < HIST_BUCKETS then b else HIST_BUCKETS - 1
  }

  /** The bucket of a latency in nanoseconds. */
  function BucketOfNs(ns: nat): Slot {
    Bucket(ns / 1000)
  }

  lemma {:induction false} BitLengthAtLeast(v: nat, k: nat)
    requires k >= 1
    ensures BitLength(v) >= k <==> v >= Pow2(k - 1)
  {
    if k > 1 && v > 0 {
      BitLengthAtLeast(v / 2, k - 1);
    } else if k > 1 {
      Pow2Monotone(0, k - 1);
    }
  }

  /** The ladder's thresholds, in order. */
  const RUNGS: seq<nat> := [1, 2, 4, 8, 16, 32, 64, 128, 256, 512, 1024, 2048, 4096, 8192, 16384, 32768, 65536,
                            131072, 262144, 524288, 1048576, 2097152, 4194304]

  lemma {:induction false} RungsArePowers(k: nat)
    requires k < 23
    ensures RUNGS[k] == Pow2(k)
  {
    if k == 0 {
    } else {
      RungsArePowers(k - 1);
      assert RUNGS[k] == 2 * RUNGS[k - 1];
    }
  }

  lemma RungsSeparate(v: nat, b: nat)
    requires b < 24
    requires b > 0 ==> v >= RUNGS[b - 1]
    requires b < 23 ==> v < RUNGS[b]
    ensures b == Bucket(v)
  {
    if b > 0 {
      RungsArePowers(b - 1);
      BitLengthAtLeast(v, b);
    }
    if b < 23 {
      RungsArePowers(b);
      BitLengthAtLeast(v, b + 1);
    }
  }

  method BucketFor(latencyUs: U64) returns (bucket: Slot)
    ensures bucket == Bucket(latencyUs)
  {
    var val := latencyUs;
    var b := 0;
    if val >= 1 { b := 1; }
    if val >= 2 { b := 2; }
    if val >= 4 { b := 3; }
    if val >= 8 { b := 4; }
    if val >= 16 { b := 5; }
    if val >= 32 { b := 6; }
    if val >= 64 { b := 7; }
    if val >= 128 { b := 8; }
    if val >= 256 { b := 9; }
    if val >= 512 { b := 10; }
    if val >= 1024 { b := 11; }
    if val >= 2048 { b := 12; }
    if val >= 4096 { b := 13; }
    if val >= 8192 { b := 14; }
    if val >= 16384 { b := 15; }
    if val >= 32768 { b := 16; }
    if val >= 65536 { b := 17; }
    if val >= 131072 { b := 18; }
    if val >= 262144 { b := 19; }
    if val >= 524288 { b := 20; }
    if val >= 1048576 { b := 21; }
    if val >= 2097152 { b := 22; }
    if val >= 4194304 { b := 23; }
    bucket := Clamp(b);

    assert b < 24 && (b > 0 ==> val >= RUNGS[b - 1]) && (b < 23 ==> val < RUNGS[b]);
    RungsSeparate(val, b);
  }

  lemma BucketMonotone(a: nat, b: nat)
    requires a <= b
    ensures Bucket(a) <= Bucket(b)
  {
    if a > 0 {
      BitLengthAtLeast(a, BitLength(a));
      BitLengthAtLeast(b, BitLength(a));
    }
  }

  // ----- the labels -----

  /** What bucketLabel prints: "<1 µs", or a lower and an upper bound in microseconds. */
  datatype Label = UnderOne | Between(lo: U64, hi: U64)

  function BucketLabel(i: nat): Label {
    if i == 0 then UnderOne
    else
      var lo := Wrap(Pow2(i - 1));
      Between(lo, Mul64(lo, 2))
  }

  /** What a reader of the label understands it to promise. */
  predicate Promises(l: Label, ns: nat) {
    match l
    case UnderOne => ns < 1000
    case Between(lo, hi) => lo * 1000 <= ns < hi * 1000
  }

  /** A label tells the truth about exactly the samples in its bucket, as long as they are below
      2^23 microseconds. From there on the last bucket still collects samples, although the upper
      bound on its label excludes them. */
  lemma LabelIffBucket(ns: nat, i: Slot)
    ensures Promises(BucketLabel(i), ns) <==> BucketOfNs(ns) == i && ns < Pow2(23) * 1000
  {
    var us := ns / 1000;
    BitLengthAtLeast(us, i + 1);
    BitLengthAtLeast(us, 24);
    Pow2Monotone(i, 23);
    if i > 0 {
      BitLengthAtLeast(us, i);
      LabelBounds(i);
    }
  }

  lemma LabelBounds(i: Slot)
    requires i > 0
    ensures BucketLabel(i).Between? && BucketLabel(i).lo == Pow2(i - 1) && BucketLabel(i).hi == Pow2(i)
  {
    RungsArePowers(22);
    Pow2Monotone(i - 1, 22);
    WrapIs(Pow2(i - 1), 0, Pow2(i - 1));
    WrapIs(2 * Pow2(i - 1), 0, 2 * Pow2(i - 1));
  }

  /** The least latency in nanoseconds that reaches bucket b. */
  function BucketFloor(b: Slot): nat {
    if b == 0 then 0 else Pow2(b - 1) * 1000
  }

  lemma ReachesBucketIff(ns: nat, b: Slot)
    ensures BucketOfNs(ns) >= b <==> ns >= BucketFloor(b)
  {
    if b > 0 {
      BitLengthAtLeast(ns / 1000, b);
    }
  }

  lemma SaturatesIff(ns: nat)
    ensures BucketOfNs(ns) == 23 <==> ns >= Pow2(22) * 1000
  {
    ReachesBucketIff(ns, 23);
  }

  /** Ten seconds are counted in the last bucket, whose label says less than 8.4 seconds. */
  lemma LastLabelCanBeWrong()
    ensures BucketOfNs(10_000_000_000) == 23
    ensures BucketLabel(23) == Between(4_194_304, 8_388_608) && !Promises(BucketLabel(23), 10_000_000_000)
  {
    RungsArePowers(22);
    SaturatesIff(10_000_000_000);
    LabelBounds(23);
  }

  // ----- the key -----

  const LOW_32: bv64 := 0xFFFF_FFFF

  function Low(sector: bv64): bv64 {
    sector & LOW_32
  }

  lemma LowIsMod(s: bv64)
    ensures Low(s) == s % 0x1_0000_0000
  {
  }

  /** A u64 key of the start_times map. */
  datatype Key = Key(bits: bv64)

  function PackKey(dev: bv32, sector: bv64): Key {
    Key(((dev as bv64) << 32) | Low(sector))
  }

  /** Same device, same sector modulo 2^32. */
  predicate Confused(d: bv32, s: bv64, d': bv32, s': bv64) {
    d == d' && Low(s) == Low(s')
  }

  /** A key gives back the device and the low half of the sector, and nothing else. */
  lemma PackKeyIff(d: bv32, s: bv64, d': bv32, s': bv64)
    ensures PackKey(d, s) == PackKey(d', s') <==> Confused(d, s, d', s')
  {
    if PackKey(d, s) == PackKey(d', s') {
      PackKeyInjective(d, s, d', s');
    } else if Confused(d, s, d', s') {
      PackKeyForgets(d, s, s');
    }
  }

  lemma PackKeyForgets(d: bv32, s: bv64, s': bv64)
    requires Low(s) == Low(s')
    ensures PackKey(d, s) == PackKey(d, s')
  {
  }

  lemma PackKeyInjective(d: bv32, s: bv64, d': bv32, s': bv64)
    requires PackKey(d, s) == PackKey(d', s')
    ensures Confused(d, s, d', s')
  {
    PackKeyRecovers(d, s);
    PackKeyRecovers(d', s');
    Widen(d, d');
  }

  lemma Widen(d: bv32, d': bv32)
    requires d as bv64 == d' as bv64
    ensures d == d'
  {
  }

  lemma PackKeyRecovers(d: bv32, s: bv64)
    ensures PackKey(d, s).bits >> 32 == d as bv64
    ensures Low(PackKey(d, s).bits) == Low(s)
  {
  }
}
