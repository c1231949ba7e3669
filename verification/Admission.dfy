/** The counting sink (gpu/sink.go): two token buckets on one clock, over exact reals.
    Anchors are the events others are joined to; data is the rest. */
module Admission {
  import opened Machine

  datatype Class = Anchor | Data

  /** outstanding counts reservations delegated downstream and not yet settled. */
  datatype Bucket = Bucket(unbounded: bool, burst: real, tokens: real, outstanding: nat)

  datatype Buckets = Buckets(anchor: Bucket, data: Bucket, lastRefill: real)

  /** What a stretch of time is worth in tokens, at a rate per unit of time. */
  function Rate(rate: real): real -> real { (elapsed: real) => elapsed * rate }

  ghost predicate AddsUp(worth: real -> real, a: real, b: real) {
    a >= 0.0 && b >= 0.0 ==> worth(a) + worth(b) == worth(a + b)
  }

  ghost predicate OneSign(worth: real -> real, a: real) {
    a >= 0.0 ==> if worth(1.0) < 0.0 then worth(a) <= 0.0 else worth(a) >= 0.0
  }

  /** What the proofs use of a rate: gains add up, and all have the sign of one unit's. */
  ghost predicate Linear(worth: real -> real) {
    && worth(0.0) == 0.0
    && (forall a, b :: AddsUp(worth, a, b))
    && (forall a :: OneSign(worth, a))
  }

  lemma SignOfProduct(a: real, rate: real)
    requires a >= 0.0
    ensures if rate < 0.0 then a * rate <= 0.0 else a * rate >= 0.0
  {
  }

  lemma RateLinear(rate: real)
    ensures Linear(Rate(rate))
  {
    forall a, b ensures AddsUp(Rate(rate), a, b) {
      assert (a + b) * rate == a * rate + b * rate;
    }
    forall a ensures OneSign(Rate(rate), a) {
      if a >= 0.0 {
        SignOfProduct(a, rate);
      }
    }
  }

  function Least(a: real, b: real): real { if a > b then b else a }

  function Topped(b: Bucket, add: real): Bucket {
    if b.unbounded then b else b.(tokens := Least(b.tokens + add, b.burst))
  }

  function Refilled(worth: real -> real, s: Buckets, now: real): Buckets {
    if now - s.lastRefill <= 0.0 then s
    else
      var add := worth(now - s.lastRefill);
      Buckets(Topped(s.anchor, add), Topped(s.data, add), now)
  }

  function Of(s: Buckets, class_: Class): Bucket { if class_ == Anchor then s.anchor else s.data }

  function With(s: Buckets, class_: Class, b: Bucket): Buckets {
    if class_ == Anchor then s.(anchor := b) else s.(data := b)
  }

  /** One reservation: whether it is granted, and the buckets after. */
  function Reserved(worth: real -> real, s: Buckets, class_: Class, now: real): (Buckets, bool) {
    var b := Of(s, class_);
    if b.unbounded then (With(s, class_, b.(outstanding := b.outstanding + 1)), true)
    else
      var t := Refilled(worth, s, now);
      var c := Of(t, class_);
      if c.tokens < 1.0 then (t, false)
      else (With(t, class_, c.(tokens := c.tokens - 1.0, outstanding := c.outstanding + 1)), true)
  }

  /** One outstanding reservation settled; a refused delivery gives its token back. */
  function Settled(s: Buckets, class_: Class, accepted: bool): Buckets {
    var b := Of(s, class_);
    if b.outstanding == 0 then s
    else
      var tokens := if accepted || b.unbounded then b.tokens else Least(b.tokens + 1.0, b.burst);
      With(s, class_, b.(tokens := tokens, outstanding := b.outstanding - 1))
  }

  // ----- Whole runs.

  datatype Event =
    | Reserve(class_: Class, at: real)
    | Settle(class_: Class, accepted: bool)

  function Next(worth: real -> real, s: Buckets, e: Event): Buckets {
    match e
    case Reserve(c, at) => Reserved(worth, s, c, at).0
    case Settle(c, accepted) => Settled(s, c, accepted)
  }

  function Run(worth: real -> real, s: Buckets, es: seq<Event>): Buckets {
    if es == [] then s else Next(worth, Run(worth, s, es[..|es| - 1]), es[|es| - 1])
  }

  /** What each anchor reservation was told, in order. */
  function Granted(worth: real -> real, s: Buckets, es: seq<Event>): seq<bool> {
    if es == [] then []
    else
      var before, e := es[..|es| - 1], es[|es| - 1];
      Granted(worth, s, before)
      + if e.Reserve? && e.class_ == Anchor then [Reserved(worth, Run(worth, s, before), Anchor, e.at).1] else []
  }

  function Anchors(es: seq<Event>): seq<Event> {
    if es == [] then []
    else Anchors(es[..|es| - 1]) + if es[|es| - 1].class_ == Anchor then [es[|es| - 1]] else []
  }

  /** The clock never runs backwards. */
  ghost predicate Monotone(start: real, es: seq<Event>) {
    forall i :: 0 <= i < |es| && es[i].Reserve? ==> Clock(start, es[..i]) <= es[i].at
  }

  function Clock(start: real, es: seq<Event>): real {
    if es == [] then start
    else if es[|es| - 1].Reserve? then es[|es| - 1].at
    else Clock(start, es[..|es| - 1])
  }

  /** A bucket at rest: never over its burst, and with a falling rate not even counting
      what is outstanding. */
  ghost predicate Sane(worth: real -> real, b: Bucket) {
    && b.tokens <= b.burst
    && (worth(1.0) < 0.0 ==> b.tokens + b.outstanding as real <= b.burst)
  }

  /** The anchors' bucket is where it would be with no data traffic, but for how far the
      clock was read. */
  ghost predicate Tracks(worth: real -> real, s: Buckets, t: Buckets) {
    && t.lastRefill <= s.lastRefill
    && s.anchor.unbounded == t.anchor.unbounded
    && s.anchor.burst == t.anchor.burst
    && s.anchor.outstanding == t.anchor.outstanding
    && (!s.anchor.unbounded ==>
          && Sane(worth, s.anchor) && Sane(worth, t.anchor)
          && s.anchor.tokens == Topped(t.anchor, worth(s.lastRefill - t.lastRefill)).tokens)
  }

  /** Topping up twice by gains of one sign is topping up once by both. */
  lemma TopTwice(tokens: real, burst: real, a: real, b: real)
    requires tokens <= burst && ((a >= 0.0 && b >= 0.0) || (a <= 0.0 && b <= 0.0))
    ensures Least(Least(tokens + a, burst) + b, burst) == Least(tokens + (a + b), burst)
  {
  }

  /** Refilling for a data event moves the anchors' bucket only as time alone would. */
  lemma RefillTracks(worth: real -> real, s: Buckets, t: Buckets, now: real)
    requires Linear(worth) && Tracks(worth, s, t)
    ensures Tracks(worth, Refilled(worth, s, now), t)
  {
    if now - s.lastRefill > 0.0 && !s.anchor.unbounded {
      var d, more := s.lastRefill - t.lastRefill, now - s.lastRefill;
      assert AddsUp(worth, d, more) && OneSign(worth, d) && OneSign(worth, more);
      assert d + more == now - t.lastRefill;
      TopTwice(t.anchor.tokens, t.anchor.burst, worth(d), worth(more));
    }
  }

  lemma DataTracks(worth: real -> real, s: Buckets, t: Buckets, e: Event)
    requires Linear(worth) && Tracks(worth, s, t) && e.class_ == Data
    ensures Tracks(worth, Next(worth, s, e), t)
  {
    if e.Reserve? && !s.data.unbounded {
      RefillTracks(worth, s, t, e.at);
    }
  }

  /** An anchor finds the same tokens in both. */
  lemma SameTokens(worth: real -> real, s: Buckets, t: Buckets, now: real)
    requires Linear(worth) && Tracks(worth, s, t) && s.lastRefill <= now && !s.anchor.unbounded
    ensures var a, b := Refilled(worth, s, now).anchor, Refilled(worth, t, now).anchor;
      a.tokens == b.tokens && Sane(worth, a) && Sane(worth, b)
    ensures Refilled(worth, s, now).lastRefill == Refilled(worth, t, now).lastRefill == now
  {
    RefillTracks(worth, s, t, now);
    assert OneSign(worth, now - t.lastRefill);
  }

  lemma ReserveTracks(worth: real -> real, s: Buckets, t: Buckets, now: real)
    requires Linear(worth) && Tracks(worth, s, t) && s.lastRefill <= now
    ensures Reserved(worth, s, Anchor, now).1 == Reserved(worth, t, Anchor, now).1
    ensures Tracks(worth, Reserved(worth, s, Anchor, now).0, Reserved(worth, t, Anchor, now).0)
  {
    if !s.anchor.unbounded {
      SameTokens(worth, s, t, now);
      assert now - now == 0.0;
    }
  }

  lemma SettleTracks(worth: real -> real, s: Buckets, t: Buckets, accepted: bool)
    requires Linear(worth) && Tracks(worth, s, t)
    ensures Tracks(worth, Settled(s, Anchor, accepted), Settled(t, Anchor, accepted))
  {
    assert OneSign(worth, s.lastRefill - t.lastRefill);
  }

  lemma {:induction false} RefillBehindClock(worth: real -> real, s: Buckets, es: seq<Event>)
    requires Monotone(s.lastRefill, es)
    ensures Run(worth, s, es).lastRefill <= Clock(s.lastRefill, es)
  {
    if es != [] {
      var n := |es| - 1;
      MonotonePrefix(s.lastRefill, es);
      RefillBehindClock(worth, s, es[..n]);
      assert es[n].Reserve? ==> Clock(s.lastRefill, es[..n]) <= es[n].at;
    }
  }

  lemma MonotonePrefix(start: real, es: seq<Event>)
    requires es != [] && Monotone(start, es)
    ensures Monotone(start, es[..|es| - 1])
  {
    forall i | 0 <= i < |es| - 1 && es[..|es| - 1][i].Reserve? ensures Clock(start, es[..|es| - 1][..i]) <= es[i].at {
      assert es[..|es| - 1][..i] == es[..i];
    }
  }

  lemma AnchorTracks(worth: real -> real, s: Buckets, t: Buckets, e: Event)
    requires Linear(worth) && Tracks(worth, s, t) && e.class_ == Anchor && (e.Reserve? ==> s.lastRefill <= e.at)
    ensures Tracks(worth, Next(worth, s, e), Next(worth, t, e))
    ensures e.Reserve? ==> Reserved(worth, s, Anchor, e.at).1 == Reserved(worth, t, Anchor, e.at).1
  {
    if e.Reserve? {
      ReserveTracks(worth, s, t, e.at);
    } else {
      SettleTracks(worth, s, t, e.accepted);
    }
  }

  ghost predicate AtRest(worth: real -> real, s: Buckets) { !s.anchor.unbounded ==> Sane(worth, s.anchor) }

  lemma {:induction false} AnchorsUndisturbed(worth: real -> real, s: Buckets, es: seq<Event>)
    requires Linear(worth) && AtRest(worth, s) && Monotone(s.lastRefill, es)
    ensures Tracks(worth, Run(worth, s, es), Run(worth, s, Anchors(es)))
    ensures Granted(worth, s, es) == Granted(worth, s, Anchors(es))
  {
    if es == [] {
      assert s.lastRefill - s.lastRefill == 0.0;
    } else {
      var before, e := es[..|es| - 1], es[|es| - 1];
      MonotonePrefix(s.lastRefill, es);
      AnchorsUndisturbed(worth, s, before);
      RefillBehindClock(worth, s, before);
      assert e.Reserve? ==> Clock(s.lastRefill, es[..|es| - 1]) <= e.at;
      if e.class_ == Data {
        DataTracks(worth, Run(worth, s, before), Run(worth, s, Anchors(before)), e);
        assert Anchors(es) == Anchors(before);
      } else {
        AnchorTracks(worth, Run(worth, s, before), Run(worth, s, Anchors(before)), e);
        assert Anchors(es)[..|Anchors(es)| - 1] == Anchors(before);
      }
    }
  }

  /** Two runs with the same anchor events and outcomes admit the same anchors, whatever
      the data traffic and whatever the refill rate. */
  lemma SameAnchorsSameFate(rate: real, s: Buckets, es: seq<Event>, fs: seq<Event>)
    requires AtRest(Rate(rate), s) && Monotone(s.lastRefill, es) && Monotone(s.lastRefill, fs)
    requires Anchors(es) == Anchors(fs)
    ensures Granted(Rate(rate), s, es) == Granted(Rate(rate), s, fs)
  {
    RateLinear(rate);
    AnchorsUndisturbed(Rate(rate), s, es);
    AnchorsUndisturbed(Rate(rate), s, fs);
  }

  // ----- How much is let through.

  /** Reservations of a class delivered so far, by the settlements that found one outstanding. */
  function Delivered(worth: real -> real, s: Buckets, es: seq<Event>, c: Class): nat {
    if es == [] then 0
    else
      var before, e := es[..|es| - 1], es[|es| - 1];
      Delivered(worth, s, before, c)
      + if e.Settle? && e.class_ == c && e.accepted && Of(Run(worth, s, before), c).outstanding > 0 then 1 else 0
  }

  /** A bucket begins full and empty-handed. */
  ghost predicate Fresh(b: Bucket) { !b.unbounded && b.tokens == b.burst && b.burst >= 0.0 && b.outstanding == 0 }

  /** Tokens left and grants standing, delivered or outstanding, come to what the bucket
      began with at least, and at most to that and all the time since was worth. */
  ghost predicate Metered(worth: real -> real, s: Buckets, t: Buckets, c: Class, delivered: nat) {
    var b := Of(t, c);
    var sum := b.tokens + (delivered + b.outstanding) as real;
    && !b.unbounded && b.burst == Of(s, c).burst && 0.0 <= b.tokens <= b.burst
    && s.lastRefill <= t.lastRefill
    && b.burst <= sum <= b.burst + worth(t.lastRefill - s.lastRefill)
  }

  lemma RefillMetered(worth: real -> real, s: Buckets, t: Buckets, c: Class, delivered: nat, now: real)
    requires Linear(worth) && worth(1.0) >= 0.0 && Metered(worth, s, t, c, delivered)
    ensures Metered(worth, s, Refilled(worth, t, now), c, delivered)
  {
    if now - t.lastRefill > 0.0 {
      var gone, more := t.lastRefill - s.lastRefill, now - t.lastRefill;
      assert AddsUp(worth, gone, more) && OneSign(worth, more);
      assert gone + more == now - s.lastRefill;
    }
  }

  lemma ReserveMetered(worth: real -> real, s: Buckets, t: Buckets, c: Class, delivered: nat, e: Event)
    requires Linear(worth) && worth(1.0) >= 0.0 && Metered(worth, s, t, c, delivered) && e.Reserve?
    ensures Metered(worth, s, Next(worth, t, e), c, delivered)
  {
    if !Of(t, e.class_).unbounded {
      RefillMetered(worth, s, t, c, delivered, e.at);
    }
  }

  lemma SettleMetered(worth: real -> real, s: Buckets, t: Buckets, c: Class, delivered: nat, e: Event)
    requires Metered(worth, s, t, c, delivered) && e.Settle?
    ensures Metered(worth, s, Next(worth, t, e), c,
                    delivered + if e.class_ == c && e.accepted && Of(t, c).outstanding > 0 then 1 else 0)
  {
  }

  lemma {:induction false} RunMetered(worth: real -> real, s: Buckets, es: seq<Event>, c: Class)
    requires Linear(worth) && worth(1.0) >= 0.0 && Fresh(Of(s, c))
    ensures Metered(worth, s, Run(worth, s, es), c, Delivered(worth, s, es, c))
  {
    if es == [] {
      assert s.lastRefill - s.lastRefill == 0.0;
    } else {
      var before, e := es[..|es| - 1], es[|es| - 1];
      RunMetered(worth, s, before, c);
      if e.Reserve? {
        ReserveMetered(worth, s, Run(worth, s, before), c, Delivered(worth, s, before, c), e);
      } else {
        SettleMetered(worth, s, Run(worth, s, before), c, Delivered(worth, s, before, c), e);
      }
    }
  }

  /** Refused means less than one token is left, however much time is worth. */
  lemma RefusedSpent(worth: real -> real, s: Buckets, t: Buckets, c: Class, delivered: nat, now: real)
    requires Linear(worth) && worth(1.0) >= 0.0 && Metered(worth, s, t, c, delivered)
    requires !Reserved(worth, t, c, now).1
    ensures (delivered + Of(t, c).outstanding) as real > Of(s, c).burst - 1.0
  {
    RefillMetered(worth, s, t, c, delivered, now);
  }

  lemma MeteredBound(worth: real -> real, s: Buckets, t: Buckets, c: Class, delivered: nat, standing: nat, now: real)
    requires Linear(worth) && worth(1.0) >= 0.0
    requires Metered(worth, s, t, c, delivered) && standing == delivered + Of(t, c).outstanding
    ensures s.lastRefill <= t.lastRefill
    ensures standing as real <= Of(s, c).burst + worth(t.lastRefill - s.lastRefill)
    ensures !Reserved(worth, t, c, now).1 ==> standing as real > Of(s, c).burst - 1.0
  {
    if !Reserved(worth, t, c, now).1 {
      RefusedSpent(worth, s, t, c, delivered, now);
    }
  }

  /** Over every run that gains with time, what a bounded class has delivered or in flight
      never exceeds its burst and what the time gone by was worth; and a reservation is
      refused only when less than one place of its burst is free. Both classes alike. */
  lemma RateKept(worth: real -> real, s: Buckets, es: seq<Event>, c: Class, now: real, t: Buckets, standing: nat)
    requires Linear(worth) && worth(1.0) >= 0.0 && Fresh(Of(s, c))
    requires t == Run(worth, s, es) && standing == Delivered(worth, s, es, c) + Of(t, c).outstanding
    ensures s.lastRefill <= t.lastRefill
    ensures standing as real <= Of(s, c).burst + worth(t.lastRefill - s.lastRefill)
    ensures !Reserved(worth, t, c, now).1 ==> standing as real > Of(s, c).burst - 1.0
  {
    RunMetered(worth, s, es, c);
    MeteredBound(worth, s, t, c, standing - Of(t, c).outstanding, standing, now);
  }

  /** Time is worth the rate for every unit of it, and gains if the rate does. */
  lemma RateWorth(rate: real, elapsed: real)
    ensures Linear(Rate(rate)) && Rate(rate)(elapsed) == elapsed * rate && Rate(rate)(1.0) == rate
  {
    RateLinear(rate);
  }

  /** A bucket that can hold a token at all has one again after a time worth one, whatever
      the run before. */
  lemma GrantedAgain(worth: real -> real, s: Buckets, es: seq<Event>, c: Class, now: real, t: Buckets)
    requires Linear(worth) && worth(1.0) >= 0.0 && Fresh(Of(s, c)) && Of(s, c).burst >= 1.0
    requires t == Run(worth, s, es) && now > t.lastRefill && worth(now - t.lastRefill) >= 1.0
    ensures Reserved(worth, t, c, now).1
  {
    RunMetered(worth, s, es, c);
  }

  /** An unbounded class is refused nothing. */
  lemma UnboundedGrants(rate: real, s: Buckets, c: Class, now: real)
    requires Of(s, c).unbounded
    ensures Reserved(Rate(rate), s, c, now).1
  {
  }

  // ----- The imperative sink.

  datatype EventKind = Launches | Execs | PcSamples | Modules | TimelineEvents | SamplingWindows

  function ClassOf(k: EventKind): Class {
    match k
    case Launches => Anchor
    case Modules => Anchor
    case SamplingWindows => Anchor
    case _ => Data
  }

  /** Modules and sampling windows carry no clock domain to refuse. */
  predicate Dated(k: EventKind) { k != Modules && k != SamplingWindows }

  datatype KindStats = KindStats(accepted: nat, droppedFull: nat, droppedInvalid: nat, droppedDownstream: nat)
  {
    function Total(): nat { accepted + droppedFull + droppedInvalid + droppedDownstream }
  }

  /** One kind's counters, with the emits begun and those still delegated downstream. */
  datatype Book = Book(begun: nat, inFlight: nat, stats: KindStats)
  {
    /** Every event is accepted, dropped for one stated reason, or in flight. */
    predicate Balanced() { begun == stats.Total() + inFlight }
  }

  const EMPTY_BOOK := Book(0, 0, KindStats(0, 0, 0, 0))

  function BeginBook(b: Book, granted: bool, supported: bool): (r: Book)
    ensures b.Balanced() ==> r.Balanced()
    ensures r.stats.droppedFull - b.stats.droppedFull == (if !granted && supported then 1 else 0)
    ensures r.stats.droppedInvalid - b.stats.droppedInvalid == (if !granted && !supported then 1 else 0)
    ensures r.inFlight - b.inFlight == (if granted then 1 else 0)
  {
    var st := b.stats;
    if granted then Book(b.begun + 1, b.inFlight + 1, st)
    else if supported then Book(b.begun + 1, b.inFlight, st.(droppedFull := st.droppedFull + 1))
    else Book(b.begun + 1, b.inFlight, st.(droppedInvalid := st.droppedInvalid + 1))
  }

  function EndBook(b: Book, accepted: bool): (r: Book)
    requires b.inFlight > 0
    ensures b.Balanced() ==> r.Balanced()
    ensures r.stats.accepted - b.stats.accepted == (if accepted then 1 else 0)
    ensures r.stats.droppedDownstream - b.stats.droppedDownstream == (if accepted then 0 else 1)
  {
    var st := b.stats;
    if accepted then Book(b.begun, b.inFlight - 1, st.(accepted := st.accepted + 1))
    else Book(b.begun, b.inFlight - 1, st.(droppedDownstream := st.droppedDownstream + 1))
  }

  function Find(books: map<EventKind, Book>, k: EventKind): Book {
    if k in books then books[k] else EMPTY_BOOK
  }

  /** Emits in flight over the kinds of a class. */
  function Flights(books: map<EventKind, Book>, c: Class): nat {
    match c
    case Anchor =>
      Find(books, Launches).inFlight + Find(books, Modules).inFlight + Find(books, SamplingWindows).inFlight
    case Data => Find(books, Execs).inFlight + Find(books, PcSamples).inFlight + Find(books, TimelineEvents).inFlight
  }

  lemma FlightsKept(books: map<EventKind, Book>, k: EventKind, b: Book, c: Class)
    ensures Flights(books[k := b], c)
      == Flights(books, c) + if ClassOf(k) == c then b.inFlight - Find(books, k).inFlight else 0
    ensures ClassOf(k) == c ==> Find(books, k).inFlight <= Flights(books, c)
  {
    assert forall j :: j != k ==> Find(books[k := b], j) == Find(books, j);
  }

  function Asked(worth: real -> real, s: Buckets, k: EventKind, supported: bool, now: real): (Buckets, bool) {
    if Dated(k) && !supported then (s, false) else Reserved(worth, s, ClassOf(k), now)
  }

  /** Only a granted reservation is outstanding, and only in its own class. */
  lemma AskedOutstanding(worth: real -> real, s: Buckets, k: EventKind, supported: bool, now: real)
    ensures var (t, granted) := Asked(worth, s, k, supported, now);
      && t.anchor.outstanding == s.anchor.outstanding + (if granted && ClassOf(k) == Anchor then 1 else 0)
      && t.data.outstanding == s.data.outstanding + (if granted && ClassOf(k) == Data then 1 else 0)
  {
  }

  /** Launches, modules and windows draw on the anchors' bucket, the rest on the data's; and
      only modules and windows pass in whatever clock domain they came. */
  lemma AskedExact(worth: real -> real, s: Buckets, k: EventKind, supported: bool, now: real)
    ensures var asked := Asked(worth, s, k, supported, now);
      if !supported && k !in {Modules, SamplingWindows} then asked == (s, false)
      else asked == Reserved(worth, s, if k in {Launches, Modules, SamplingWindows} then Anchor else Data, now)
  {
  }

  class CountingSink {
    const worth: real -> real
    var anchor: Bucket
    var data: Bucket
    var lastRefill: real
    var books: map<EventKind, Book>

    ghost function Model(): Buckets
      reads this`anchor, this`data, this`lastRefill
    {
      Buckets(anchor, data, lastRefill)
    }

    function BookOf(k: EventKind): Book
      reads this`books
    {
      Find(books, k)
    }

    ghost predicate Accounted()
      reads this`books
    {
      forall k :: k in books ==> books[k].Balanced()
    }

    /** Each bucket's outstanding reservations are its kinds' emits in flight. */
    ghost predicate Matched()
      reads this`books, this`anchor, this`data
    {
      anchor.outstanding == Flights(books, Anchor) && data.outstanding == Flights(books, Data)
    }

    constructor (capacity: int, rate: real, now: real)
      ensures Matched() && Accounted() && worth == Rate(rate) && AtRest(worth, Model())
      ensures var b := Bucket(capacity <= 0, Max(capacity, 0) as real, Max(capacity, 0) as real, 0);
        Model() == Buckets(b, b, now)
    {
      worth := Rate(rate);
      var b := Bucket(capacity <= 0, Max(capacity, 0) as real, Max(capacity, 0) as real, 0);
      anchor, data, lastRefill := b, b, now;
      books := map[];
    }

    method Refill(now: real)
      modifies this`anchor, this`data, this`lastRefill
      ensures Model() == Refilled(worth, old(Model()), now)
    {
      var elapsed := now - lastRefill;
      if elapsed <= 0.0 {
        return;
      }
      lastRefill := now;
      var add := worth(elapsed);
      anchor := Topped(anchor, add);
      data := Topped(data, add);
    }

    method AdmitCapacity(c: Class, now: real) returns (granted: bool)
      modifies this`anchor, this`data, this`lastRefill
      ensures Model() == Reserved(worth, old(Model()), c, now).0
      ensures granted == Reserved(worth, old(Model()), c, now).1
    {
      if Of(Buckets(anchor, data, lastRefill), c).unbounded {
        Take(c, 0.0);
        return true;
      }
      Refill(now);
      if Of(Buckets(anchor, data, lastRefill), c).tokens < 1.0 {
        return false;
      }
      Take(c, 1.0);
      granted := true;
    }

    method Take(c: Class, tokens: real)
      modifies this`anchor, this`data
      ensures var b := Of(old(Model()), c);
        Model() == With(old(Model()), c, b.(tokens := b.tokens - tokens, outstanding := b.outstanding + 1))
    {
      if c == Anchor {
        anchor := anchor.(tokens := anchor.tokens - tokens, outstanding := anchor.outstanding + 1);
      } else {
        data := data.(tokens := data.tokens - tokens, outstanding := data.outstanding + 1);
      }
    }

    /** Refused for its clock domain before any bucket is looked at, or asked of its class's. */
    method Admit(k: EventKind, supported: bool, now: real) returns (granted: bool)
      modifies this`anchor, this`data, this`lastRefill
      ensures Model() == Asked(worth, old(Model()), k, supported, now).0
      ensures granted == Asked(worth, old(Model()), k, supported, now).1
    {
      if Dated(k) && !supported {
        return false;
      }
      granted := AdmitCapacity(ClassOf(k), now);
    }

    /** The half of an emit before the event is delegated. */
    method Begin(k: EventKind, supported: bool, now: real) returns (granted: bool)
      requires Accounted() && Matched()
      modifies this
      ensures Accounted() && Matched()
      ensures Model() == Asked(worth, old(Model()), k, supported, now).0
      ensures granted == Asked(worth, old(Model()), k, supported, now).1
      ensures books == old(books)[k := BeginBook(old(BookOf(k)), granted, supported || !Dated(k))]
    {
      AskedOutstanding(worth, Model(), k, supported, now);
      granted := Admit(k, supported, now);
      NoteBegun(k, granted, supported);
    }

    method NoteBegun(k: EventKind, granted: bool, supported: bool)
      requires Accounted()
      modifies this`books
      ensures Accounted()
      ensures books == old(books)[k := BeginBook(old(BookOf(k)), granted, supported || !Dated(k))]
      ensures Flights(books, Anchor) == old(Flights(books, Anchor)) + if granted && ClassOf(k) == Anchor then 1 else 0
      ensures Flights(books, Data) == old(Flights(books, Data)) + if granted && ClassOf(k) == Data then 1 else 0
    {
      var b := BookOf(k);
      assert b.Balanced();
      var next := BeginBook(b, granted, supported || !Dated(k));
      FlightsKept(books, k, next, Anchor);
      FlightsKept(books, k, next, Data);
      Keep(k, next);
    }

    method Keep(k: EventKind, b: Book)
      requires Accounted() && b.Balanced()
      modifies this`books
      ensures Accounted() && books == old(books)[k := b]
    {
      books := books[k := b];
    }

    /** The half after: delivered, or refused downstream and its token given back. */
    method End(k: EventKind, accepted: bool)
      requires Accounted() && Matched() && BookOf(k).inFlight > 0
      modifies this
      ensures Accounted() && Matched() && Model() == Settled(old(Model()), ClassOf(k), accepted)
      ensures books == old(books)[k := EndBook(old(BookOf(k)), accepted)]
    {
      var b := BookOf(k);
      assert b.Balanced();
      FlightsKept(books, k, EndBook(b, accepted), Anchor);
      FlightsKept(books, k, EndBook(b, accepted), Data);
      Release(ClassOf(k), if accepted then 0.0 else 1.0);
      Keep(k, EndBook(b, accepted));
    }

    /** Settles one reservation, returning its token if there is one to return. */
    method Release(c: Class, tokens: real)
      requires tokens == 0.0 || tokens == 1.0
      requires Of(Model(), c).outstanding > 0
      modifies this`anchor, this`data
      ensures Model() == Settled(old(Model()), c, tokens == 0.0)
    {
      var b := if c == Anchor then anchor else data;
      var left := if b.unbounded || tokens == 0.0 then b.tokens else Least(b.tokens + 1.0, b.burst);
      if c == Anchor {
        anchor := b.(tokens := left, outstanding := b.outstanding - 1);
      } else {
        data := b.(tokens := left, outstanding := b.outstanding - 1);
      }
    }
  }
}
