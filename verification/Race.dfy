/** The histogram shared without a lock: atomic increments by the completion handlers against the
    bucket-by-bucket reads and resets of internal/ebpf/loader.go, one map operation a step, as the
    tick loop of cmd/sysmon/main.go drives them. */
module Race {
  import opened Options
  import opened Words
  import opened Buckets

  /** One operation on the map io_latency_hist. LookupMiss is a lookup that reports a missing key,
      LookupFails one that reports any other error. */
  datatype Event = Increment(slot: Slot) | Lookup | LookupMiss | LookupFails | Put | PutFails

  /** Where the tick loop is: in ReadHistogram, holding the counts read so far, or in ResetHistogram,
      about to zero slot next, holding what ReadHistogram returned. The time between two ticks is
      Reading([]). */
  datatype Phase = Reading(got: seq<U64>) | Resetting(display: Option<seq<U64>>, next: nat)

  /** displays lists every array ReadHistogram has returned. */
  datatype State = State(hist: seq<U64>, phase: Phase, displays: seq<seq<U64>>) {
    ghost predicate Valid() {
      && |hist| == HIST_BUCKETS
      && (forall d :: d in displays ==> |d| == HIST_BUCKETS)
      && match phase
         case Reading(got) => |got| < HIST_BUCKETS
         case Resetting(display, next) => next < HIST_BUCKETS && (display.Some? ==> |display.value| == HIST_BUCKETS)
    }
  }

  function Look(s: State, got: seq<U64>, count: U64): State {
    var got' := got + [count];
    if |got'| < HIST_BUCKETS then s.(phase := Reading(got'))
    else s.(phase := Resetting(Some(got'), 0), displays := s.displays + [got'])
  }

  /** One step. An event that the phase rules out changes nothing. */
  function Step(s: State, e: Event): (s': State)
    requires s.Valid()
    ensures s'.Valid()
  {
    match e
    case Increment(b) => s.(hist := s.hist[b := Add64(s.hist[b], 1)])
    case Lookup => if s.phase.Reading? then Look(s, s.phase.got, s.hist[|s.phase.got|]) else s
    case LookupMiss => if s.phase.Reading? then Look(s, s.phase.got, 0) else s
    case LookupFails => if s.phase.Reading? then s.(phase := Resetting(None, 0)) else s
    case Put =>
      if s.phase.Reading? then s else
        s.(hist := s.hist[s.phase.next := 0],
           phase := if s.phase.next + 1 < HIST_BUCKETS then s.phase.(next := s.phase.next + 1) else Reading([]))
    case PutFails => if s.phase.Reading? then s else s.(phase := Reading([]))
  }

  function Run(es: seq<Event>): (s: State)
    ensures s.Valid()
  {
    if es == [] then State(Zeros(), Reading([]), []) else Step(Run(es[..|es| - 1]), es[|es| - 1])
  }

  // ----- what can be seen from outside -----

  /** Samples that have landed in bucket b. */
  function Landed(es: seq<Event>, b: Slot): nat {
    if es == [] then 0 else Landed(es[..|es| - 1], b) + (if es[|es| - 1] == Increment(b) then 1 else 0)
  }

  /** The sum of the counts displayed for bucket b. */
  function Shown(displays: seq<seq<U64>>, b: Slot): nat
    requires forall d :: d in displays ==> |d| == HIST_BUCKETS
  {
    if displays == [] then 0 else Shown(displays[..|displays| - 1], b) + displays[|displays| - 1][b]
  }

  /** In phase p, event e is ReadHistogram's lookup of bucket b. */
  predicate LooksUp(p: Phase, e: Event, b: Slot) {
    (e.Lookup? || e.LookupMiss?) && p.Reading? && |p.got| == b
  }

  /** In phase p, event e is the Put that zeroes bucket b. */
  predicate Wipes(p: Phase, e: Event, b: Slot) {
    e.Put? && p.Resetting? && p.next == b
  }

  /** Samples that have landed in bucket b since it was last zeroed: what its slot holds, not wrapped
      to 64 bits. */
  function Held(es: seq<Event>, b: Slot): nat {
    if es == [] then 0 else
      var before, e := es[..|es| - 1], es[|es| - 1];
      if Wipes(Run(before).phase, e, b) then 0 else Held(before, b) + (if e == Increment(b) then 1 else 0)
  }

  /** Samples that have landed in bucket b since it was last looked up. */
  function SinceLook(es: seq<Event>, b: Slot): nat {
    if es == [] then 0 else
      var before, e := es[..|es| - 1], es[|es| - 1];
      if LooksUp(Run(before).phase, e, b) then 0 else SinceLook(before, b) + (if e == Increment(b) then 1 else 0)
  }

  /** The last lookup of bucket b found the slot. */
  predicate Found(es: seq<Event>, b: Slot) {
    if es == [] then false else
      var before, e := es[..|es| - 1], es[|es| - 1];
      if LooksUp(Run(before).phase, e, b) then e.Lookup? else Found(before, b)
  }

  /** Samples that have landed in bucket b since it was last zeroed, and are in no display so far. A
      display has those that had landed when the lookup found them. */
  function Unshown(es: seq<Event>, b: Slot): nat {
    if es == [] then 0 else
      var before, e := es[..|es| - 1], es[|es| - 1];
      if Wipes(Run(before).phase, e, b) then 0
      else if LooksUp(Run(before).phase, e, HIST_BUCKETS - 1) && Found(es, b) then SinceLook(es, b)
      else Unshown(before, b) + (if e == Increment(b) then 1 else 0)
  }

  /** Why a Put can lose samples: they landed after this tick's lookup of the bucket; or that lookup
      did not find the slot; or this tick's read failed. */
  datatype Cause = Late | Missed | ReadFailed

  function CauseOf(p: Phase, found: bool): Cause
    requires p.Resetting?
  {
    if p.display.None? then ReadFailed else if found then Late else Missed
  }

  /** The samples lost from bucket b for one cause, summed over all Puts: for Late, those of the
      window between the lookup and the Put; otherwise all that are in no display. */
  function LostTo(es: seq<Event>, b: Slot, cause: Cause): nat {
    if es == [] then 0 else
      var before, e := es[..|es| - 1], es[|es| - 1];
      LostTo(before, b, cause) +
      if !Wipes(Run(before).phase, e, b) || CauseOf(Run(before).phase, Found(before, b)) != cause then 0
      else if cause == Late then SinceLook(before, b) else Unshown(before, b)
  }

  function Lost(es: seq<Event>, b: Slot): nat {
    LostTo(es, b, Late) + LostTo(es, b, Missed) + LostTo(es, b, ReadFailed)
  }

  // ----- the books kept on one bucket -----

  /** Samples are numbered in the order they land in the bucket; each mark counts a prefix of them.
      landed: all of them. cleared: those already wiped by a Put. looked: those counted by this
      tick's lookup, when that was a hit. covered: those that are wiped or were in a display.
      lost: those wiped without ever being displayed. again: how many displayed samples had been
      displayed before. over: how often a displayed count had wrapped around. */
  datatype Book = Book(landed: int, cleared: int, looked: int, hit: bool, covered: int,
                       lost: int, again: int, over: int)

  /** ReadHistogram returns its array. */
  function Returned(k: Book): Book {
    if k.hit then
      k.(again := k.again + (k.covered - k.cleared),
         over := k.over + (k.looked - k.cleared) / TWO_64,
         covered := k.looked)
    else k
  }

  function BookLook(k: Book, at: nat, found: bool, b: Slot): Book {
    var k' := if at == b then k.(looked := k.landed, hit := found) else k;
    if at + 1 == HIST_BUCKETS then Returned(k') else k'
  }

  function BookStep(k: Book, s: State, e: Event, b: Slot): Book {
    match e
    case Increment(c) => if c == b then k.(landed := k.landed + 1) else k
    case Lookup => if s.phase.Reading? then BookLook(k, |s.phase.got|, true, b) else k
    case LookupMiss => if s.phase.Reading? then BookLook(k, |s.phase.got|, false, b) else k
    case LookupFails => k
    case Put =>
      if s.phase.Resetting? && s.phase.next == b then
        k.(lost := k.lost + (k.landed - k.covered), covered := k.landed, cleared := k.landed)
      else k
    case PutFails => k
  }

  function Books(es: seq<Event>, b: Slot): Book {
    if es == [] then Book(0, 0, 0, false, 0, 0, 0, 0)
    else BookStep(Books(es[..|es| - 1], b), Run(es[..|es| - 1]), es[|es| - 1], b)
  }

  /** The books describe the count that this tick's lookup took from the bucket. */
  ghost predicate CountAgrees(k: Book, count: U64) {
    if k.hit then k.covered <= k.looked <= k.landed && count == Wrap(k.looked - k.cleared) else count == 0
  }

  ghost predicate Balanced(k: Book, shown: int) {
    && 0 <= k.cleared <= k.covered <= k.landed
    && 0 <= k.lost && 0 <= k.again && 0 <= k.over
    && k.covered + k.again == shown + TWO_64 * k.over + k.lost
  }

  /** The books describe the map and the counts read so far. */
  ghost predicate Agree(k: Book, s: State, b: Slot)
    requires s.Valid()
  {
    && Balanced(k, Shown(s.displays, b))
    && s.hist[b] == Wrap(k.landed - k.cleared)
    && (s.phase.Reading? && |s.phase.got| > b ==> CountAgrees(k, s.phase.got[b]))
  }

  lemma {:induction false} ShownSnoc(displays: seq<seq<U64>>, d: seq<U64>, b: Slot)
    requires |d| == HIST_BUCKETS && forall x :: x in displays ==> |x| == HIST_BUCKETS
    ensures forall x :: x in displays + [d] ==> |x| == HIST_BUCKETS
    ensures Shown(displays + [d], b) == Shown(displays, b) + d[b]
  {
    var all := displays + [d];
    assert all[..|all| - 1] == displays && all[|all| - 1] == d;
  }

  lemma ReturnedBalances(k: Book, shown: int, count: U64)
    requires Balanced(k, shown) && CountAgrees(k, count)
    ensures Balanced(Returned(k), shown + count)
    ensures Returned(k).landed == k.landed && Returned(k).cleared == k.cleared
  {
  }

  /** ReadHistogram returns after reading the last slot. */
  lemma {:induction false} ReturnAgrees(k: Book, s: State, count: U64, b: Slot)
    requires s.Valid() && s.phase.Reading? && |s.phase.got| + 1 == HIST_BUCKETS
    requires Balanced(k, Shown(s.displays, b)) && s.hist[b] == Wrap(k.landed - k.cleared)
    requires CountAgrees(k, (s.phase.got + [count])[b])
    ensures Look(s, s.phase.got, count).Valid()
    ensures Agree(Returned(k), Look(s, s.phase.got, count), b)
  {
    var got := s.phase.got + [count];
    ReturnedBalances(k, Shown(s.displays, b), got[b]);
    ShownSnoc(s.displays, got, b);
  }

  lemma LookedAgrees(k: Book, s: State, found: bool, b: Slot)
    requires s.Valid() && Agree(k, s, b) && s.phase.Reading? && |s.phase.got| >= b
    ensures var got := s.phase.got + [if found then s.hist[|s.phase.got|] else 0];
            CountAgrees(if |s.phase.got| == b then k.(looked := k.landed, hit := found) else k, got[b])
  {
  }

  lemma LookAgrees(k: Book, s: State, found: bool, b: Slot)
    requires s.Valid() && Agree(k, s, b) && s.phase.Reading?
    ensures Agree(BookLook(k, |s.phase.got|, found, b), Step(s, if found then Lookup else LookupMiss), b)
  {
    var at := |s.phase.got|;
    if at >= b {
      LookedAgrees(k, s, found, b);
    }
    if at + 1 == HIST_BUCKETS {
      var k' := if at == b then k.(looked := k.landed, hit := found) else k;
      ReturnAgrees(k', s, if found then s.hist[at] else 0, b);
    }
  }

  lemma StepAgrees(k: Book, s: State, e: Event, b: Slot)
    requires s.Valid() && Agree(k, s, b)
    ensures Agree(BookStep(k, s, e, b), Step(s, e), b)
  {
    match e
    case Increment(c) => AddWraps(k.landed - k.cleared, 1);
    case Lookup => if s.phase.Reading? { LookAgrees(k, s, true, b); }
    case LookupMiss => if s.phase.Reading? { LookAgrees(k, s, false, b); }
    case LookupFails =>
    case Put =>
    case PutFails =>
  }

  lemma {:induction false} BooksCountLandings(es: seq<Event>, b: Slot)
    ensures Books(es, b).landed == Landed(es, b)
  {
    if es == [] {
    } else {
      BooksCountLandings(es[..|es| - 1], b);
    }
  }

  lemma {:induction false} BooksAgree(es: seq<Event>, b: Slot)
    ensures Agree(Books(es, b), Run(es), b)
    ensures Books(es, b).landed == Landed(es, b)
  {
    if es == [] {
    } else {
      var before, e := es[..|es| - 1], es[|es| - 1];
      BooksAgree(before, b);
      StepAgrees(Books(before, b), Run(before), e, b);
    }
    BooksCountLandings(es, b);
  }

  lemma {:induction false} RunSnoc(es: seq<Event>, e: Event, b: Slot)
    ensures Run(es + [e]) == Step(Run(es), e)
    ensures Books(es + [e], b) == BookStep(Books(es, b), Run(es), e, b)
    ensures Landed(es + [e], b) == Landed(es, b) + (if e == Increment(b) then 1 else 0)
  {
    var all := es + [e];
    assert all[..|all| - 1] == es && all[|all| - 1] == e;
  }

  // ----- conservation -----

  /** The books know what the run says. */
  ghost predicate Knows(k: Book, held: nat, sinceLook: nat, found: bool, unshown: nat) {
    && k.landed - k.cleared == held && k.landed - k.looked == sinceLook && k.landed - k.covered == unshown
    && k.hit == found
  }

  lemma StepKnows(k: Book, s: State, e: Event, b: Slot)
    ensures var k', inc := BookStep(k, s, e, b), if e == Increment(b) then 1 else 0;
            && k'.landed == k.landed + inc
            && k'.cleared == (if Wipes(s.phase, e, b) then k.landed else k.cleared)
            && k'.looked == (if LooksUp(s.phase, e, b) then k.landed else k.looked)
            && k'.hit == (if LooksUp(s.phase, e, b) then e.Lookup? else k.hit)
            && k'.covered == if Wipes(s.phase, e, b) then k.landed
                             else if LooksUp(s.phase, e, HIST_BUCKETS - 1) && k'.hit then k'.looked else k.covered
  {
  }

  lemma {:induction false} BooksKnow(es: seq<Event>, b: Slot)
    ensures Knows(Books(es, b), Held(es, b), SinceLook(es, b), Found(es, b), Unshown(es, b))
  {
    if es == [] {
    } else {
      var before := es[..|es| - 1];
      BooksKnow(before, b);
      StepKnows(Books(before, b), Run(before), es[|es| - 1], b);
    }
  }

  /** Between its lookup and its reset a bucket that was found is covered up to that lookup. */
  ghost predicate CoveredWhenFound(k: Book, phase: Phase, b: Slot) {
    phase.Resetting? && phase.display.Some? && phase.next <= b && k.hit ==> k.covered == k.looked
  }

  lemma StepCovers(k: Book, s: State, e: Event, b: Slot)
    requires s.Valid() && CoveredWhenFound(k, s.phase, b)
    ensures CoveredWhenFound(BookStep(k, s, e, b), Step(s, e).phase, b)
  {
  }

  lemma {:induction false} BooksCover(es: seq<Event>, b: Slot)
    ensures CoveredWhenFound(Books(es, b), Run(es).phase, b)
  {
    if es == [] {
    } else {
      var before := es[..|es| - 1];
      BooksCover(before, b);
      StepCovers(Books(before, b), Run(before), es[|es| - 1], b);
    }
  }

  lemma StepLoses(k: Book, s: State, e: Event, b: Slot)
    requires CoveredWhenFound(k, s.phase, b)
    ensures BookStep(k, s, e, b).lost == k.lost +
            if !Wipes(s.phase, e, b) then 0
            else if CauseOf(s.phase, k.hit) == Late then k.landed - k.looked else k.landed - k.covered
  {
  }

  /** In every interleaving, whatever fails: all that is ever lost from a bucket landed between a
      tick's lookup of the bucket and its Put, or was wiped undisplayed after a lookup that missed the
      slot or a read that failed; and all of that is lost. */
  lemma {:induction false} LossIs(es: seq<Event>, b: Slot)
    ensures Books(es, b).lost == Lost(es, b)
  {
    if es == [] {
    } else {
      var before, e := es[..|es| - 1], es[|es| - 1];
      LossIs(before, b);
      BooksKnow(before, b);
      BooksCover(before, b);
      StepLoses(Books(before, b), Run(before), e, b);
    }
  }

  /** Displayed samples are still in their slot only while its reset is due, and none came twice. */
  ghost predicate ShownOnce(k: Book, s: State, b: Slot) {
    && k.again == 0
    && (s.phase.Reading? || s.phase.next > b || s.phase.display.None? || !k.hit ==> k.covered == k.cleared)
  }

  lemma StepShowsOnce(k: Book, s: State, e: Event, b: Slot)
    requires s.Valid() && ShownOnce(k, s, b) && e != PutFails
    ensures ShownOnce(BookStep(k, s, e, b), Step(s, e), b)
  {
  }

  lemma {:induction false} NothingShownTwice(es: seq<Event>, b: Slot)
    requires PutFails !in es
    ensures ShownOnce(Books(es, b), Run(es), b)
  {
    if es == [] {
    } else {
      var before, e := es[..|es| - 1], es[|es| - 1];
      assert e in es;
      NothingShownTwice(before, b);
      StepShowsOnce(Books(before, b), Run(before), e, b);
    }
  }

  /** A displayed count is exact until 2^64 samples have landed in its bucket. */
  lemma {:induction false} NoCountWraps(es: seq<Event>, b: Slot)
    requires Landed(es, b) < TWO_64
    ensures Books(es, b).over == 0
  {
    if es == [] {
    } else {
      var before := es[..|es| - 1];
      NoCountWraps(before, b);
      BooksAgree(before, b);
    }
  }

  /** In every interleaving, whatever fails: each sample that landed was displayed, or lost, or is in
      the map and not displayed yet; counting apart what was displayed again and what wrapped. */
  lemma {:induction false} Conservation(es: seq<Event>, b: Slot)
    ensures Landed(es, b) + Books(es, b).again
         == Shown(Run(es).displays, b) + TWO_64 * Books(es, b).over + Lost(es, b) + Unshown(es, b)
    ensures Run(es).hist[b] == Wrap(Held(es, b))
  {
    BooksAgree(es, b);
    BooksKnow(es, b);
    LossIs(es, b);
  }

  /** As long as no Put fails, no sample is displayed twice, and the displays never add up to more than
      what has landed. */
  lemma {:induction false} NeverOverReports(es: seq<Event>, b: Slot)
    requires PutFails !in es
    ensures Books(es, b).again == 0
    ensures Shown(Run(es).displays, b) <= Landed(es, b)
  {
    Conservation(es, b);
    NothingShownTwice(es, b);
    BooksAgree(es, b);
  }

  /** At any moment of a run in which no Put failed: landed = displayed + lost + not displayed yet. */
  lemma {:induction false} ConservationInTick(es: seq<Event>, b: Slot)
    requires PutFails !in es
    requires Landed(es, b) < TWO_64
    ensures Landed(es, b) == Shown(Run(es).displays, b) + Lost(es, b) + Unshown(es, b)
  {
    Conservation(es, b);
    NothingShownTwice(es, b);
    NoCountWraps(es, b);
  }

  lemma {:induction false} HeldAtMostLanded(es: seq<Event>, b: Slot)
    ensures Held(es, b) <= Landed(es, b)
  {
    if es == [] {
    } else {
      HeldAtMostLanded(es[..|es| - 1], b);
    }
  }

  /** Between two ticks of such a run, what is not displayed yet is what the map holds. */
  lemma {:induction false} UnshownIsInTheMap(es: seq<Event>, b: Slot)
    requires PutFails !in es
    requires Landed(es, b) < TWO_64
    requires Run(es).phase.Reading?
    ensures Unshown(es, b) == Run(es).hist[b]
  {
    NothingShownTwice(es, b);
    BooksKnow(es, b);
    SlotHolds(es, b);
    HeldAtMostLanded(es, b);
  }

  /** So between two ticks: landed = displayed + lost + still in the map. */
  lemma {:induction false} ConservationBetweenTicks(es: seq<Event>, b: Slot)
    requires PutFails !in es
    requires Landed(es, b) < TWO_64
    requires Run(es).phase.Reading?
    ensures Landed(es, b) == Shown(Run(es).displays, b) + Lost(es, b) + Run(es).hist[b]
  {
    ConservationInTick(es, b);
    UnshownIsInTheMap(es, b);
  }

  // ----- what can be lost -----

  /** In this tick bucket b has been looked up, and the read has not failed. */
  predicate LookedUp(phase: Phase, b: Slot) {
    match phase
    case Reading(got) => |got| > b
    case Resetting(display, next) => display.Some?
  }

  /** The lookup that opened the window: position i of the run is this tick's lookup of bucket b. */
  ghost predicate OpensWindow(es: seq<Event>, i: nat, b: Slot) {
    && i < |es| && LooksUp(Run(es[..i]).phase, es[i], b)
    && forall j :: i < j <= |es| ==> LookedUp(Run(es[..j]).phase, b)
  }

  lemma StepLooksUp(s: State, e: Event, b: Slot)
    requires s.Valid() && LookedUp(Step(s, e).phase, b)
    ensures LooksUp(s.phase, e, b) || LookedUp(s.phase, b)
  {
  }

  lemma {:induction false} WindowOpensHere(es: seq<Event>, b: Slot)
    requires es != [] && LookedUp(Run(es).phase, b)
    requires LooksUp(Run(es[..|es| - 1]).phase, es[|es| - 1], b)
    ensures OpensWindow(es, |es| - 1, b)
  {
    assert es[..|es|] == es;
  }

  lemma {:induction false} WindowOpened(es: seq<Event>, b: Slot) returns (i: nat)
    requires LookedUp(Run(es).phase, b)
    ensures OpensWindow(es, i, b)
    ensures Found(es, b) <==> es[i].Lookup?
    ensures SinceLook(es, b) == Landed(es[i + 1..], b)
  {
    var n := |es| - 1;
    if LooksUp(Run(es[..n]).phase, es[n], b) {
      i := n;
      WindowOpensHere(es, b);
      assert es[n + 1..] == [];
    } else {
      StepLooksUp(Run(es[..n]), es[n], b);
      i := WindowOpened(es[..n], b);
      WindowGrows(es, i, b);
      WindowCounts(es, i, b);
    }
  }

  lemma {:induction false} WindowGrows(es: seq<Event>, i: nat, b: Slot)
    requires es != [] && OpensWindow(es[..|es| - 1], i, b) && LookedUp(Run(es).phase, b)
    ensures OpensWindow(es, i, b)
  {
    var n := |es| - 1;
    assert es[..n][..i] == es[..i];
    forall j | i < j <= |es| ensures LookedUp(Run(es[..j]).phase, b) {
      if j <= n {
        assert es[..n][..j] == es[..j];
      } else {
        assert es[..j] == es;
      }
    }
  }

  lemma {:induction false} WindowCounts(es: seq<Event>, i: nat, b: Slot)
    requires i + 1 < |es|
    ensures Landed(es[i + 1..], b)
         == Landed(es[..|es| - 1][i + 1..], b) + (if es[|es| - 1] == Increment(b) then 1 else 0)
  {
    var window := es[i + 1..];
    assert window[..|window| - 1] == es[..|es| - 1][i + 1..] && window[|window| - 1] == es[|es| - 1];
  }

  /** Whenever a tick's read has succeeded and the reset of a bucket is due, the run contains this
      tick's lookup of the bucket; if that found the slot, the Put loses exactly the samples that
      landed after it. */
  lemma LossIsTheRaceWindow(es: seq<Event>, b: Slot) returns (i: nat)
    requires Run(es).phase.Resetting? && Run(es).phase.next == b && Run(es).phase.display.Some?
    ensures OpensWindow(es, i, b)
    ensures Lost(es + [Put], b) - Lost(es, b)
         == if es[i].Lookup? then Landed(es[i + 1..], b) else Unshown(es, b)
  {
    i := WindowOpened(es, b);
    LostSnoc(es, b);
  }

  /** The reset of a bucket loses what CauseOf says. */
  lemma {:induction false} LostSnoc(es: seq<Event>, b: Slot)
    requires Run(es).phase.Resetting? && Run(es).phase.next == b
    ensures Lost(es + [Put], b) - Lost(es, b)
         == if CauseOf(Run(es).phase, Found(es, b)) == Late then SinceLook(es, b) else Unshown(es, b)
  {
    var all := es + [Put];
    assert all[..|all| - 1] == es && all[|all| - 1] == Put;
  }

  /** When no Put has failed, a tick whose read failed, or whose lookup of the bucket missed, loses all
      that the slot holds. */
  lemma {:induction false} BlindResetLosesTheSlot(es: seq<Event>, b: Slot)
    requires PutFails !in es
    requires Run(es).phase.Resetting? && Run(es).phase.next == b && CauseOf(Run(es).phase, Found(es, b)) != Late
    ensures Lost(es + [Put], b) == Lost(es, b) + Held(es, b)
  {
    LostSnoc(es, b);
    BooksKnow(es, b);
    NothingShownTwice(es, b);
  }

  // ----- a read is a snapshot within bounds -----

  predicate Undisturbed(mid: seq<Event>) {
    forall e :: e in mid ==> e.Increment? || e.Lookup?
  }

  ghost predicate HeldBetween(lo: int, count: U64, hi: int) {
    exists n :: lo <= n <= hi && count == Wrap(n)
  }

  /** The state of a read that began with held samples in slot b, the last Put on it at mark cleared. */
  ghost predicate InRead(k: Book, s: State, cleared: int, held: int, b: Slot)
    requires s.Valid()
  {
    && k.cleared == cleared && held <= k.landed - cleared
    && match s.phase
       case Reading(got) => |got| > b ==> HeldBetween(held, got[b], k.landed - cleared)
       case Resetting(display, next) =>
         next == 0 && display.Some? && HeldBetween(held, display.value[b], k.landed - cleared)
  }

  lemma StepInRead(k: Book, s: State, e: Event, cleared: int, held: int, b: Slot)
    requires s.Valid() && InRead(k, s, cleared, held, b) && Agree(k, s, b)
    requires e.Increment? || e.Lookup?
    ensures InRead(BookStep(k, s, e, b), Step(s, e), cleared, held, b)
  {
  }

  lemma {:induction false} ReadInProgress(es: seq<Event>, mid: seq<Event>, b: Slot)
    requires Run(es).phase == Reading([]) && Undisturbed(mid)
    ensures InRead(Books(es + mid, b), Run(es + mid), Books(es, b).cleared, Held(es, b), b)
  {
    if mid == [] {
      assert es + mid == es;
      BooksKnow(es, b);
    } else {
      var before, e := mid[..|mid| - 1], mid[|mid| - 1];
      assert e in mid;
      assert es + mid == es + before + [e];
      ReadInProgress(es, before, b);
      RunSnoc(es + before, e, b);
      BooksAgree(es + before, b);
      StepInRead(Books(es + before, b), Run(es + before), e, Books(es, b).cleared, Held(es, b), b);
    }
  }

  lemma {:induction false} ReadIsSnapshot(es: seq<Event>, mid: seq<Event>, b: Slot)
    requires Run(es).phase == Reading([]) && Undisturbed(mid)
    requires Run(es + mid).phase.Resetting?
    ensures Run(es + mid).phase.display.Some?
    ensures HeldBetween(Held(es, b), Run(es + mid).phase.display.value[b], Held(es + mid, b))
  {
    ReadInProgress(es, mid, b);
    BooksKnow(es + mid, b);
  }

  /** Every count a non-atomic read returns was held by its slot, at most wrapped, at some moment
      between the start and the end of the read. */
  lemma {:induction false} SnapshotSound(es: seq<Event>, mid: seq<Event>, b: Slot)
    requires Run(es).phase == Reading([]) && Undisturbed(mid)
    requires Run(es + mid).phase.Resetting?
    ensures Run(es + mid).phase.display.Some?
    ensures HeldBetween(Held(es, b), Run(es + mid).phase.display.value[b], Held(es + mid, b))
    ensures Held(es + mid, b) < TWO_64 ==>
              Run(es).hist[b] <= Run(es + mid).phase.display.value[b] <= Run(es + mid).hist[b]
  {
    ReadIsSnapshot(es, mid, b);
    SlotHolds(es, b);
    SlotHolds(es + mid, b);
    if Held(es + mid, b) < TWO_64 {
      UnwrappedBetween(Held(es, b), Run(es + mid).phase.display.value[b], Held(es + mid, b));
    }
  }

  function Sum(counts: seq<U64>): nat {
    if counts == [] then 0 else Sum(counts[..|counts| - 1]) + counts[|counts| - 1]
  }

  lemma {:induction false} SumMonotone(a: seq<U64>, b: seq<U64>)
    requires |a| == |b| && forall i :: 0 <= i < |a| ==> a[i] <= b[i]
    ensures Sum(a) <= Sum(b)
  {
    if a == [] {
    } else {
      SumMonotone(a[..|a| - 1], b[..|b| - 1]);
    }
  }

  /** And so is the total of such a read. */
  lemma {:induction false} SnapshotTotals(es: seq<Event>, mid: seq<Event>)
    requires Run(es).phase == Reading([]) && Undisturbed(mid)
    requires Run(es + mid).phase.Resetting?
    requires forall b: Slot :: Held(es + mid, b) < TWO_64
    ensures Run(es + mid).phase.display.Some?
    ensures Sum(Run(es).hist) <= Sum(Run(es + mid).phase.display.value) <= Sum(Run(es + mid).hist)
  {
    SnapshotSound(es, mid, 0);
    var got := Run(es + mid).phase.display.value;
    forall b: Slot ensures Run(es).hist[b] <= got[b] <= Run(es + mid).hist[b] {
      SnapshotSound(es, mid, b);
    }
    SumMonotone(Run(es).hist, got);
    SumMonotone(got, Run(es + mid).hist);
  }

  lemma {:induction false} SlotHolds(es: seq<Event>, b: Slot)
    ensures 0 <= Held(es, b)
    ensures Held(es, b) < TWO_64 ==> Run(es).hist[b] == Held(es, b)
  {
    BooksAgree(es, b);
    BooksKnow(es, b);
    if Held(es, b) < TWO_64 {
      WrapIs(Held(es, b), 0, Held(es, b));
    }
  }

  lemma UnwrappedBetween(lo: int, count: U64, hi: int)
    requires HeldBetween(lo, count, hi) && 0 <= lo && hi < TWO_64
    ensures lo <= count <= hi
  {
    var n :| lo <= n <= hi && count == Wrap(n);
    WrapIs(n, 0, n);
  }

  // ----- an undisturbed tick -----

  lemma {:induction false} OnlyIncrements(es: seq<Event>, b: Slot)
    requires forall e :: e in es ==> e.Increment?
    ensures Run(es).hist[b] == Wrap(Landed(es, b))
  {
    Conservation(es, b);
    NothingWiped(es, b);
  }

  lemma {:induction false} NothingWiped(es: seq<Event>, b: Slot)
    requires forall e :: e in es ==> e.Increment?
    ensures Held(es, b) == Landed(es, b)
  {
    if es == [] {
    } else {
      assert es[|es| - 1] in es;
      NothingWiped(es[..|es| - 1], b);
    }
  }

  function Times<T>(n: nat, x: T): seq<T> {
    if n == 0 then [] else Times(n - 1, x) + [x]
  }

  lemma AppendAssoc<T>(a: seq<T>, b: seq<T>, x: T)
    ensures a + (b + [x]) == a + b + [x]
  {
  }

  /** What every repetition of x takes from k to k + 1 is n after n of them. */
  lemma {:induction false} Repeated<E(!new), S>(run: seq<E> -> S, es: seq<E>, n: nat, x: E, reached: (S, nat) -> bool)
    requires reached(run(es), 0)
    requires forall t: seq<E>, k: nat :: k < n && reached(run(t), k) ==> reached(run(t + [x]), k + 1)
    ensures reached(run(es + Times(n, x)), n)
  {
    if n == 0 {
      assert es + [] == es;
    } else {
      Repeated(run, es, n - 1, x, reached);
      AppendAssoc(es, Times(n - 1, x), x);
    }
  }

  /** s is what n undisturbed lookups have made of s0. */
  ghost predicate ReadSoFar(s0: State, s: State, n: nat)
    requires s0.Valid() && n <= HIST_BUCKETS
  {
    if n < HIST_BUCKETS then s == s0.(phase := Reading(s0.hist[..n]))
    else s == State(s0.hist, Resetting(Some(s0.hist), 0), s0.displays + [s0.hist])
  }

  lemma NextLookup(s0: State, s: State, n: nat)
    requires s0.Valid() && s.Valid() && n < HIST_BUCKETS && ReadSoFar(s0, s, n)
    ensures ReadSoFar(s0, Step(s, Lookup), n + 1)
  {
    assert s0.hist[..n] + [s0.hist[n]] == s0.hist[..n + 1];
    assert s0.hist[..HIST_BUCKETS] == s0.hist;
  }

  lemma NoLookups(s: State)
    requires s.Valid() && s.phase == Reading([])
    ensures ReadSoFar(s, s, 0)
  {
  }

  /** Lookups that nothing disturbs read what the map holds. */
  lemma {:induction false} QuietRead(es: seq<Event>, s: State, n: nat)
    requires Run(es) == s && s.phase == Reading([]) && n <= HIST_BUCKETS
    ensures ReadSoFar(s, Run(es + Times(n, Lookup)), n)
  {
    NoLookups(s);
    forall t: seq<Event>, k: nat | k < n && ReadSoFar(s, Run(t), k) ensures ReadSoFar(s, Run(t + [Lookup]), k + 1) {
      RunSnoc(t, Lookup, 0);
      NextLookup(s, Run(t), k);
    }
    Repeated((t: seq<Event>) => Run(t), es, n, Lookup, (r: State, k: nat) => k <= n && ReadSoFar(s, r, k));
  }

  /** s is what n undisturbed Puts have made of s0. */
  ghost predicate ResetSoFar(s0: State, s: State, n: nat)
    requires s0.Valid() && n <= HIST_BUCKETS
  {
    && s0.phase.Resetting? && |s.hist| == HIST_BUCKETS && s.displays == s0.displays
    && s.phase == (if n < HIST_BUCKETS then s0.phase.(next := n) else Reading([]))
    && forall b: Slot :: s.hist[b] == if b < n then 0 else s0.hist[b]
  }

  lemma NextPut(s0: State, s: State, n: nat)
    requires s0.Valid() && s.Valid() && n < HIST_BUCKETS && ResetSoFar(s0, s, n)
    ensures ResetSoFar(s0, Step(s, Put), n + 1)
  {
  }

  /** Puts that nothing disturbs leave every slot zero. */
  lemma {:induction false} QuietReset(es: seq<Event>, s: State, n: nat)
    requires Run(es) == s && s.phase.Resetting? && s.phase.next == 0 && n <= HIST_BUCKETS
    ensures ResetSoFar(s, Run(es + Times(n, Put)), n)
  {
    forall t: seq<Event>, k: nat | k < n && ResetSoFar(s, Run(t), k) ensures ResetSoFar(s, Run(t + [Put]), k + 1) {
      RunSnoc(t, Put, 0);
      NextPut(s, Run(t), k);
    }
    Repeated((t: seq<Event>) => Run(t), es, n, Put, (r: State, k: nat) => k <= n && ResetSoFar(s, r, k));
  }
}
