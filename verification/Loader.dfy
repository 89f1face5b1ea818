/** The loops of internal/ebpf/loader.go over the shared histogram, as the tick loop of
    cmd/sysmon/main.go drives them. */
module Loader {
  import opened Options
  import opened Words
  import opened Buckets
  import opened Race

  datatype LatencyBucket = LatencyBucket(caption: Label, count: U64)

  function Counts(buckets: seq<LatencyBucket>): seq<U64> {
    seq(|buckets|, (i: int) requires 0 <= i < |buckets| => buckets[i].count)
  }

  lemma CountsSnoc(buckets: seq<LatencyBucket>, bucket: LatencyBucket)
    ensures Counts(buckets + [bucket]) == Counts(buckets) + [bucket.count]
  {
  }

  lemma SumSnoc(buckets: seq<LatencyBucket>, bucket: LatencyBucket)
    ensures Sum(Counts(buckets + [bucket])) == Sum(Counts(buckets)) + bucket.count
  {
    CountsSnoc(buckets, bucket);
    var all := Counts(buckets) + [bucket.count];
    assert all[..|all| - 1] == Counts(buckets) && all[|all| - 1] == bucket.count;
  }

  // ----- the environment -----

  /** What the environment has in store for one turn of a loop: the completions on other CPUs whose
      increments land first, and how the loop's own operation ends. */
  datatype Turn = Turn(landing: seq<Slot>, operation: Event)

  /** The turns of ReadHistogram's loop, and of ResetHistogram's. */
  predicate AreLookups(turns: seq<Turn>) {
    |turns| == HIST_BUCKETS && forall i :: 0 <= i < |turns| ==> turns[i].operation in {Lookup, LookupMiss, LookupFails}
  }

  predicate ArePuts(turns: seq<Turn>) {
    |turns| == HIST_BUCKETS && forall i :: 0 <= i < |turns| ==> turns[i].operation in {Put, PutFails}
  }

  predicate AllFound(turns: seq<Turn>) {
    forall i :: 0 <= i < |turns| ==> turns[i].operation == Lookup
  }

  predicate Stops(e: Event) {
    e.LookupFails? || e.PutFails?
  }

  /** The loop is left before its last turn, or with it. */
  predicate SomeStops(turns: seq<Turn>) {
    exists i :: 0 <= i < |turns| && Stops(turns[i].operation)
  }

  function Landings(slots: seq<Slot>): seq<Event> {
    if slots == [] then [] else Landings(slots[..|slots| - 1]) + [Increment(slots[|slots| - 1])]
  }

  function TurnEvents(turn: Turn): seq<Event> {
    Landings(turn.landing) + [turn.operation]
  }

  /** What happens in a loop with these turns, up to the first that stops it. */
  function EventsOf(turns: seq<Turn>): seq<Event> {
    if turns == [] then [] else
      var before := turns[..|turns| - 1];
      if SomeStops(before) then EventsOf(before) else EventsOf(before) + TurnEvents(turns[|turns| - 1])
  }

  lemma EventsSnoc(turns: seq<Turn>, i: nat)
    requires i < |turns| && !SomeStops(turns[..i])
    ensures EventsOf(turns[..i + 1]) == EventsOf(turns[..i]) + TurnEvents(turns[i])
    ensures SomeStops(turns[..i + 1]) <==> Stops(turns[i].operation)
  {
    var next := turns[..i + 1];
    assert next[..i] == turns[..i] && next[i] == turns[i];
    forall k | 0 <= k < i ensures !Stops(next[k].operation) {
      assert !Stops(turns[..i][k].operation);
    }
  }

  lemma {:induction false} NothingAfterStop(turns: seq<Turn>, i: nat)
    requires i <= |turns| && SomeStops(turns[..i])
    ensures SomeStops(turns) && EventsOf(turns) == EventsOf(turns[..i])
  {
    if i == |turns| {
      assert turns[..i] == turns;
    } else {
      var before := turns[..|turns| - 1];
      assert before[..i] == turns[..i];
      NothingAfterStop(before, i);
      var k :| 0 <= k < |before| && Stops(before[k].operation);
      assert Stops(turns[k].operation);
    }
  }

  lemma {:induction false} AllHits(turns: seq<Turn>)
    requires AllFound(turns)
    ensures Undisturbed(EventsOf(turns))
  {
    if turns == [] {
    } else {
      AllHits(turns[..|turns| - 1]);
      LandingsIncrement(turns[|turns| - 1].landing);
    }
  }

  lemma {:induction false} LandingsIncrement(slots: seq<Slot>)
    ensures forall e :: e in Landings(slots) ==> e.Increment?
  {
    if slots == [] {
    } else {
      LandingsIncrement(slots[..|slots| - 1]);
    }
  }

  // ----- what a read has done so far -----

  /** ReadHistogram has the counts got, and had displayed shown before it began. */
  ghost predicate HasRead(s: State, shown: seq<seq<U64>>, got: seq<U64>) {
    if |got| < HIST_BUCKETS then s.phase == Reading(got) && s.displays == shown
    else s.phase == Resetting(Some(got), 0) && s.displays == shown + [got]
  }

  ghost predicate Labelled(buckets: seq<LatencyBucket>) {
    forall k :: 0 <= k < |buckets| ==> buckets[k].caption == BucketLabel(k)
  }

  /** Slot by slot, counts lie between what the map held after from and what it holds after trace. */
  ghost predicate IsSnapshot(from: seq<Event>, trace: seq<Event>, counts: seq<U64>) {
    |counts| == HIST_BUCKETS && forall b: Slot :: HeldBetween(Held(from, b), counts[b], Held(trace, b))
  }

  lemma {:induction false} ReadIsBetween(from: seq<Event>, turns: seq<Turn>, counts: seq<U64>)
    requires AllFound(turns)
    requires Run(from).phase == Reading([]) && Run(from + EventsOf(turns)).phase == Resetting(Some(counts), 0)
    ensures IsSnapshot(from, from + EventsOf(turns), counts)
  {
    AllHits(turns);
    forall b: Slot
      ensures |counts| == HIST_BUCKETS && HeldBetween(Held(from, b), counts[b], Held(from + EventsOf(turns), b))
    {
      SnapshotSound(from, EventsOf(turns), b);
    }
  }

  /** In state s, after i turns since from, none of which stopped it, ReadHistogram holds buckets. */
  ghost predicate ReadTo(from: seq<Event>, trace: seq<Event>, s: State, turns: seq<Turn>, i: nat,
                         shown: seq<seq<U64>>, buckets: seq<LatencyBucket>) {
    && i <= |turns| && !SomeStops(turns[..i]) && trace == from + EventsOf(turns[..i])
    && |buckets| == i && Labelled(buckets) && HasRead(s, shown, Counts(buckets))
  }

  lemma NoTurnYet(from: seq<Event>, s: State, turns: seq<Turn>)
    requires s.phase == Reading([])
    ensures ReadTo(from, from, s, turns, 0, s.displays, [])
  {
    assert from + [] == from;
  }

  lemma ReadOneMore(from: seq<Event>, trace: seq<Event>, s: State, s': State, turns: seq<Turn>,
                                       i: nat, shown: seq<seq<U64>>, buckets: seq<LatencyBucket>, count: U64)
    requires ReadTo(from, trace, s, turns, i, shown, buckets) && i < |turns| && !Stops(turns[i].operation)
    requires HasRead(s', shown, Counts(buckets) + [count])
    ensures ReadTo(from, trace + TurnEvents(turns[i]), s', turns, i + 1, shown,
                   buckets + [LatencyBucket(BucketLabel(i), count)])
  {
    TraceGrows(from, trace, turns, i);
    CountsSnoc(buckets, LatencyBucket(BucketLabel(i), count));
  }

  lemma TraceGrows(from: seq<Event>, trace: seq<Event>, turns: seq<Turn>, i: nat)
    requires i < |turns| && !SomeStops(turns[..i]) && !Stops(turns[i].operation)
    requires trace == from + EventsOf(turns[..i])
    ensures !SomeStops(turns[..i + 1]) && trace + TurnEvents(turns[i]) == from + EventsOf(turns[..i + 1])
  {
    EventsSnoc(turns, i);
    Extend(from, EventsOf(turns[..i]), TurnEvents(turns[i]));
  }

  lemma {:induction false} TurnStopped(from: seq<Event>, turns: seq<Turn>, i: nat)
    requires i < |turns| && !SomeStops(turns[..i]) && Stops(turns[i].operation)
    ensures SomeStops(turns) && from + EventsOf(turns[..i]) + TurnEvents(turns[i]) == from + EventsOf(turns)
  {
    EventsSnoc(turns, i);
    NothingAfterStop(turns, i + 1);
    Extend(from, EventsOf(turns[..i]), TurnEvents(turns[i]));
  }

  lemma {:induction false} ReadDone(from: seq<Event>, trace: seq<Event>, turns: seq<Turn>, buckets: seq<LatencyBucket>)
    requires ReadTo(from, trace, Run(trace), turns, HIST_BUCKETS, Run(from).displays, buckets)
    requires |turns| == HIST_BUCKETS && Run(from).phase == Reading([])
    ensures !SomeStops(turns) && trace == from + EventsOf(turns)
    ensures Run(trace).phase == Resetting(Some(Counts(buckets)), 0)
    ensures Run(trace).displays == Run(from).displays + [Counts(buckets)]
    ensures AllFound(turns) ==> IsSnapshot(from, trace, Counts(buckets))
  {
    assert turns[..HIST_BUCKETS] == turns;
    if AllFound(turns) {
      ReadIsBetween(from, turns, Counts(buckets));
    }
  }

  class Collector {
    var ioLatencyHist: array<U64>
    ghost var trace: seq<Event>

    ghost predicate Valid()
      reads this, ioLatencyHist
    {
      ioLatencyHist[..] == Run(trace).hist
    }

    constructor ()
      ensures Valid() && trace == [] && fresh(ioLatencyHist)
    {
      ioLatencyHist := new U64[HIST_BUCKETS](_ => 0);
      trace := [];
      new;
      assert ioLatencyHist[..] == Zeros();
    }

    /** Completions on other CPUs, which the loop cannot hold off. */
    method Interference(slots: seq<Slot>)
      requires Valid()
      modifies this`trace, ioLatencyHist
      ensures Valid() && trace == old(trace) + Landings(slots)
      ensures Run(trace).phase == old(Run(trace).phase) && Run(trace).displays == old(Run(trace).displays)
    {
      ghost var from := trace;
      assert trace == from + [];
      for i := 0 to |slots|
        invariant Valid() && trace == from + Landings(slots[..i])
        invariant Run(trace).phase == old(Run(trace).phase) && Run(trace).displays == old(Run(trace).displays)
      {
        var b := slots[i];
        RunSnoc(trace, Increment(b), 0);
        assert slots[..i + 1][..i] == slots[..i];
        AppendAssoc(from, Landings(slots[..i]), Increment(b));
        ioLatencyHist[b] := Add64(ioLatencyHist[b], 1);
        trace := trace + [Increment(b)];
      }
      assert slots[..|slots|] == slots;
    }

    /** One Lookup(i), which can find the slot, miss the key, or fail. */
    method LookupSlot(i: Slot, operation: Event) returns (count: U64)
      requires Valid() && Run(trace).phase.Reading? && |Run(trace).phase.got| == i
      requires operation in {Lookup, LookupMiss, LookupFails}
      modifies this`trace
      ensures Valid() && trace == old(trace) + [operation]
      ensures Run(trace) == Step(old(Run(trace)), operation)
      ensures count == if operation.Lookup? then ioLatencyHist[i] else 0
    {
      count := if operation.Lookup? then ioLatencyHist[i] else 0;
      RunSnoc(trace, operation, 0);
      trace := trace + [operation];
    }

    /** The loop body of ReadHistogram. */
    method ReadSlot(i: Slot, turn: Turn, ghost shown: seq<seq<U64>>, ghost got: seq<U64>) returns (count: U64)
      requires Valid() && HasRead(Run(trace), shown, got) && |got| == i
      requires turn.operation in {Lookup, LookupMiss, LookupFails}
      modifies this`trace, ioLatencyHist
      ensures Valid() && trace == old(trace) + TurnEvents(turn)
      ensures Stops(turn.operation) ==> Run(trace).phase == Resetting(None, 0) && Run(trace).displays == shown
      ensures !Stops(turn.operation) ==> HasRead(Run(trace), shown, got + [count])
    {
      ghost var from := trace;
      Interference(turn.landing);
      AppendAssoc(from, Landings(turn.landing), turn.operation);
      count := LookupSlot(i, turn.operation);
    }

    /** Turn i of ReadHistogram's loop. */
    method ReadTurn(i: Slot, turns: seq<Turn>, ghost from: seq<Event>, ghost shown: seq<seq<U64>>,
                    buckets: seq<LatencyBucket>)
      returns (buckets': Option<seq<LatencyBucket>>)
      requires Valid() && AreLookups(turns) && ReadTo(from, trace, Run(trace), turns, i, shown, buckets)
      modifies this`trace, ioLatencyHist
      ensures Valid()
      ensures buckets'.Some? ==> ReadTo(from, trace, Run(trace), turns, i + 1, shown, buckets'.value)
      ensures buckets'.None? ==> SomeStops(turns) && trace == from + EventsOf(turns)
      ensures buckets'.None? ==> Run(trace).phase == Resetting(None, 0) && Run(trace).displays == shown
    {
      ghost var before := trace;
      var count := ReadSlot(i, turns[i], shown, Counts(buckets));
      if Stops(turns[i].operation) {
        TurnStopped(from, turns, i);
        return None;
      }
      ReadOneMore(from, before, Run(before), Run(trace), turns, i, shown, buckets, count);
      buckets' := Some(buckets + [LatencyBucket(BucketLabel(i), count)]);
    }

    /** Returns a count for every slot, with its label; or nothing, as soon as a lookup fails. */
    method ReadHistogram(turns: seq<Turn>) returns (r: Option<seq<LatencyBucket>>)
      requires Valid() && Run(trace).phase == Reading([])
      requires AreLookups(turns)
      modifies this`trace, ioLatencyHist
      ensures Valid() && trace == old(trace) + EventsOf(turns)
      ensures r.Some? <==> !SomeStops(turns)
      ensures r.Some? ==> |r.value| == HIST_BUCKETS && Labelled(r.value)
      ensures Run(trace).phase == Resetting(if r.Some? then Some(Counts(r.value)) else None, 0)
      ensures Run(trace).displays == old(Run(trace).displays) + (if r.Some? then [Counts(r.value)] else [])
      ensures AllFound(turns) ==> r.Some? && IsSnapshot(old(trace), trace, Counts(r.value))
    {
      ghost var from, shown := trace, Run(trace).displays;
      var buckets: seq<LatencyBucket> := [];
      var i := 0;
      NoTurnYet(from, Run(from), turns);
      while i < HIST_BUCKETS
        invariant i <= HIST_BUCKETS
        invariant Valid() && ReadTo(from, trace, Run(trace), turns, i, shown, buckets)
      {
        var more := ReadTurn(i, turns, from, shown, buckets);
        if more.None? {
          return None;
        }
        buckets := more.value;
        i := i + 1;
      }
      r := Some(buckets);
      ReadDone(from, trace, turns, buckets);
    }

    /** One Put(i, 0), which can fail. */
    method PutOne(i: Slot, operation: Event)
      requires Valid() && Run(trace).phase.Resetting? && Run(trace).phase.next == i
      requires operation in {Put, PutFails}
      modifies this`trace, ioLatencyHist
      ensures Valid() && trace == old(trace) + [operation]
      ensures Run(trace) == Step(old(Run(trace)), operation)
    {
      RunSnoc(trace, operation, 0);
      trace := trace + [operation];
      if operation.Put? {
        ioLatencyHist[i] := 0;
      }
    }

    /** The loop body of ResetHistogram. */
    method PutSlot(i: Slot, turn: Turn, ghost display: Option<seq<U64>>)
      requires Valid() && Run(trace).phase == Resetting(display, i) && turn.operation in {Put, PutFails}
      modifies this`trace, ioLatencyHist
      ensures Valid() && trace == old(trace) + TurnEvents(turn)
      ensures Run(trace).phase
           == if !Stops(turn.operation) && i + 1 < HIST_BUCKETS then Resetting(display, i + 1) else Reading([])
      ensures Run(trace).displays == old(Run(trace).displays)
    {
      ghost var from := trace;
      Interference(turn.landing);
      AppendAssoc(from, Landings(turn.landing), turn.operation);
      PutOne(i, turn.operation);
    }

    /** Zeroes the slots one by one; gives up at the first Put that fails. */
    method ResetHistogram(turns: seq<Turn>) returns (ok: bool)
      requires Valid() && Run(trace).phase.Resetting? && Run(trace).phase.next == 0
      requires ArePuts(turns)
      modifies this`trace, ioLatencyHist
      ensures Valid() && trace == old(trace) + EventsOf(turns)
      ensures ok <==> !SomeStops(turns)
      ensures Run(trace).phase == Reading([])
      ensures Run(trace).displays == old(Run(trace).displays)
    {
      ghost var from, display := trace, Run(trace).phase.display;
      var i := 0;
      assert trace == from + [];
      while i < HIST_BUCKETS
        invariant i <= HIST_BUCKETS
        invariant Valid() && !SomeStops(turns[..i]) && trace == from + EventsOf(turns[..i])
        invariant Run(trace).phase == if i < HIST_BUCKETS then Resetting(display, i) else Reading([])
        invariant Run(trace).displays == old(Run(trace).displays)
      {
        ghost var before := trace;
        PutSlot(i, turns[i], display);
        if Stops(turns[i].operation) {
          TurnStopped(from, turns, i);
          return false;
        }
        TraceGrows(from, before, turns, i);
        i := i + 1;
      }
      assert turns[..i] == turns;
      ok := true;
    }

    /** The histogram's part of one tick: read, then reset, both errors ignored. What is handed to the
        display is empty when the read failed. */
    method Tick(lookups: seq<Turn>, puts: seq<Turn>) returns (latencyBuckets: seq<LatencyBucket>)
      requires Valid() && Run(trace).phase == Reading([])
      requires AreLookups(lookups) && ArePuts(puts)
      modifies this`trace, ioLatencyHist
      ensures Valid() && Run(trace).phase == Reading([])
      ensures trace == old(trace) + EventsOf(lookups) + EventsOf(puts)
      ensures |latencyBuckets| == (if SomeStops(lookups) then 0 else HIST_BUCKETS) && Labelled(latencyBuckets)
      ensures Run(trace).displays
           == old(Run(trace).displays) + (if SomeStops(lookups) then [] else [Counts(latencyBuckets)])
      ensures PutFails !in trace ==> forall b: Slot :: Landed(trace, b) < TWO_64 ==>
                Landed(trace, b) == Shown(Run(trace).displays, b) + Lost(trace, b) + ioLatencyHist[b]
    {
      var r := ReadHistogram(lookups);
      latencyBuckets := if r.Some? then r.value else [];
      var _ := ResetHistogram(puts);
      if PutFails !in trace {
        forall b: Slot | Landed(trace, b) < TWO_64
          ensures Landed(trace, b) == Shown(Run(trace).displays, b) + Lost(trace, b) + ioLatencyHist[b]
        {
          ConservationBetweenTicks(trace, b);
        }
      }
    }
  }

  lemma Extend<T>(a: seq<T>, b: seq<T>, c: seq<T>)
    ensures a + (b + c) == a + b + c
  {
  }
}
