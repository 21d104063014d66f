/** One channel of the DSM501 dust-sensor engine as a value: the pulse-timing state
    machine driven by polled pin levels, and the closure of a measurement window that
    feeds the sliding-average ring buffer. The class in module Dsm501 keeps these
    fields in per-channel arrays and is proved against the functions here. */
module Dsm501Channel {
  import opened Bits

  /** `_mS_By_S(x)`: seconds to milliseconds. */
  function MsBySec(x: nat): nat
  {
    x * 1000
  }

  /** Shortest and longest low pulse that counts (ms); shorter or longer ones are
      taken as noise. */
  const MinSigSpan: nat := 10
  const MaxSigSpan: nat := 90

  /** Length of one measurement window (ms). */
  const MinWinSpan: nat := MsBySec(60)

  /** Channel indices: PM10 first, PM2.5 second. */
  const Pm10Idx: nat := 0
  const Pm25Idx: nat := 1

  /** Number of windows the sliding-average filter spans. */
  const SafWinMax: nat := 10

  /** The two states of a channel's pulse timer. */
  datatype State = Idle | Start

  /** A level read from a digital input. */
  datatype Level = Low | High

  /** A `double` as the engine uses it: NaN before the first window closes, and
      otherwise a finite value (IEEE rounding is not modelled). */
  datatype Double = NaN | Finite(value: real)

  /** The fields one channel index selects from the engine's per-channel arrays. */
  datatype Channel = Channel(
    state: State,
    lowTotal: U32,
    winStart: U32,
    sigStart: U32,
    safSum: U32,
    safEnt: seq<U32>,
    safIdx: U32,
    lastLowRatio: Double)

  /** The channel state the constructor establishes. */
  function InitialChannel(): (c: Channel)
    ensures ChannelOk(c)
  {
    Channel(Idle, 0, 0, 0, 0, seq(SafWinMax, _ => 0), 0, NaN)
  }

  /** Structural facts every reachable channel satisfies: the ring buffer has its
      ten slots, and an idle timer has no recorded start. */
  predicate ChannelOk(c: Channel)
  {
    |c.safEnt| == SafWinMax && (c.state == Idle ==> c.sigStart == 0)
  }

  /* ------------------------------------------------------------ pulse timing */

  /** A pulse width the filter accepts. */
  predicate Accepted(width: U32)
  {
    MinSigSpan <= width <= MaxSigSpan
  }

  /** What a pulse ending at `now` adds to the window total: its wrap-tolerant width
      when a start was recorded and the width is plausible, otherwise nothing. */
  function Contribution(c: Channel, now: U32): U32
  {
    var width := Sub32(now, c.sigStart);
    if c.sigStart != 0 && Accepted(width) then width else 0
  }

  /** `signal_begin`: a falling edge starts timing, unless it comes before the
      current window started. */
  function SignalBegin(c: Channel, now: U32): (r: Channel)
    ensures now >= c.winStart ==> r.state == Start && r.sigStart == now
    ensures now < c.winStart ==> r == c
    ensures r.(state := c.state, sigStart := c.sigStart) == c
    ensures ChannelOk(c) ==> ChannelOk(r)
  {
    if now >= c.winStart then c.(sigStart := now, state := Start) else c
  }

  /** `signal_end`: a rising edge stops timing and adds the pulse to the window
      total when it is plausible. */
  function SignalEnd(c: Channel, now: U32): (r: Channel)
    ensures r.state == Idle && r.sigStart == 0
    ensures Sub32(r.lowTotal, c.lowTotal) == Contribution(c, now)
    ensures Contribution(c, now) == 0 ==> r.lowTotal == c.lowTotal
    ensures r.(state := c.state, sigStart := c.sigStart, lowTotal := c.lowTotal) == c
    ensures ChannelOk(c) ==> ChannelOk(r)
  {
    var total :=
      if c.sigStart != 0 && Accepted(Sub32(now, c.sigStart))
      then Add32(c.lowTotal, Sub32(now, c.sigStart))
      else c.lowTotal;
    SubAfterAdd32(c.lowTotal, Contribution(c, now));
    c.(lowTotal := total, sigStart := 0, state := Idle)
  }

  /** One channel's branch of `update`: begin on a low level while idle, end on a
      high level while timing, otherwise leave the channel alone. */
  function Poll(c: Channel, level: Level, now: U32): (r: Channel)
    ensures c.state == Idle && level == High ==> r == c
    ensures c.state == Start && level == Low ==> r == c
    ensures r.(state := c.state, sigStart := c.sigStart, lowTotal := c.lowTotal) == c
    ensures ChannelOk(c) ==> ChannelOk(r)
  {
    if c.state == Idle && level == Low then SignalBegin(c, now)
    else if c.state == Start && level == High then SignalEnd(c, now)
    else c
  }

  /** A whole low pulse seen by two polls, from an idle channel: it is added to the
      window total exactly when its wrap-tolerant width is plausible, provided it
      started at a non-zero time no earlier than the window. */
  lemma PulseMeasured(c: Channel, t0: U32, t1: U32)
    requires ChannelOk(c) && c.state == Idle
    requires c.winStart <= t0 && t0 != 0
    ensures var r := Poll(Poll(c, Low, t0), High, t1);
      r.state == Idle && r.sigStart == 0 &&
      r.lowTotal == (if Accepted(Sub32(t1, t0)) then Add32(c.lowTotal, Sub32(t1, t0))
                     else c.lowTotal)
  {
  }

  /** A pulse whose start was stamped at time 0 is never counted: 0 doubles as
      "no start recorded". */
  lemma PulseAtZeroLost(c: Channel, t1: U32)
    requires ChannelOk(c) && c.state == Idle && c.winStart == 0
    ensures Poll(Poll(c, Low, 0), High, t1).lowTotal == c.lowTotal
  {
  }

  /* ------------------------------------------------------------ window closure */

  /** `getLowRatio`'s closing test: the window has run its full length, or the
      clock has wrapped below the window start. */
  predicate WindowElapsed(c: Channel, now: U32)
  {
    var span := if now < c.winStart then MinWinSpan else Sub32(now, c.winStart);
    span >= MinWinSpan
  }

  /** The number of windows the average runs over after closure number `idx`. */
  function Depth(idx: nat): nat
  {
    if idx < SafWinMax then idx else SafWinMax
  }

  /** Window closure: push the window total into the ring (the pre-incremented
      counter picks the slot), adjust the running sum, store the new average
      ratio, restart the window. */
  function CloseWindow(c: Channel, now: U32): (r: Channel)
    requires |c.safEnt| == SafWinMax && c.safIdx < Modulus32 - 1
    ensures r.winStart == now && r.lowTotal == 0 && r.safIdx == c.safIdx + 1
    ensures |r.safEnt| == SafWinMax && r.safEnt[r.safIdx % SafWinMax] == c.lowTotal
    ensures forall j :: 0 <= j < SafWinMax && j != r.safIdx % SafWinMax ==>
      r.safEnt[j] == c.safEnt[j]
    ensures r.(safIdx := c.safIdx, safSum := c.safSum, safEnt := c.safEnt,
               lastLowRatio := c.lastLowRatio, winStart := c.winStart,
               lowTotal := c.lowTotal) == c
    ensures ChannelOk(c) ==> ChannelOk(r)
  {
    var idx := c.safIdx + 1;
    var slot := idx % SafWinMax;
    var sum := Add32(Sub32(c.safSum, c.safEnt[slot]), c.lowTotal);
    var ratio := Finite((sum as real) * 100.0 / ((MinWinSpan * Depth(idx)) as real));
    c.(safIdx := idx, safSum := sum, safEnt := c.safEnt[slot := c.lowTotal],
       lastLowRatio := ratio, winStart := now, lowTotal := 0)
  }

  /** The channel after `getLowRatio`: closed if the window elapsed, else as it was. */
  function ReadRatio(c: Channel, now: U32): Channel
    requires |c.safEnt| == SafWinMax && c.safIdx < Modulus32 - 1
  {
    if WindowElapsed(c, now) then CloseWindow(c, now) else c
  }

  /** Within a running window (no wrap, less than a window length elapsed) a read
      changes nothing. */
  lemma ReadWithinWindow(c: Channel, now: U32)
    requires |c.safEnt| == SafWinMax && c.safIdx < Modulus32 - 1
    requires c.winStart <= now && now - c.winStart < MinWinSpan
    ensures ReadRatio(c, now) == c
  {
  }

  /** A read once a window length has elapsed, or after the clock wrapped below the
      window start, always closes the window. */
  lemma ReadClosesElapsed(c: Channel, now: U32)
    requires |c.safEnt| == SafWinMax && c.safIdx < Modulus32 - 1
    requires now < c.winStart || now - c.winStart >= MinWinSpan
    ensures ReadRatio(c, now) == CloseWindow(c, now)
    ensures ReadRatio(c, now).winStart == now
  {
  }

  /** The value `getLowRatio` returns: the stored ratio divided by the calibration
      coefficient (NaN stays NaN). */
  function Scaled(ratio: Double, coeff: Byte): (r: Double)
    requires coeff >= 1
    ensures r.NaN? <==> ratio.NaN?
    ensures r.Finite? ==> r.value * (coeff as real) == ratio.value
  {
    match ratio
    case NaN => NaN
    case Finite(x) => Finite(x / (coeff as real))
  }

  /* ------------------------------------------------------------ running sum */

  function Sum(s: seq<U32>): nat
  {
    if s == [] then 0 else Sum(s[..|s| - 1]) + s[|s| - 1]
  }

  lemma {:induction false} SumConcat(a: seq<U32>, b: seq<U32>)
    ensures Sum(a + b) == Sum(a) + Sum(b)
  {
    if b != [] {
      assert (a + b)[..|a + b| - 1] == a + b[..|b| - 1];
      SumConcat(a, b[..|b| - 1]);
    } else {
      assert a + b == a;
    }
  }

  lemma SumFirst(s: seq<U32>)
    requires s != []
    ensures Sum(s) == s[0] + Sum(s[1..])
  {
    assert s == [s[0]] + s[1..];
    SumConcat([s[0]], s[1..]);
    assert [s[0]][..0] == [];
  }

  /** Overwriting one slot changes the sum by the difference. */
  lemma SumUpdate(s: seq<U32>, i: nat, v: U32)
    requires i < |s|
    ensures Sum(s[i := v]) + s[i] == Sum(s) + v
  {
    assert s == s[..i] + [s[i]] + s[i + 1..];
    assert s[i := v] == s[..i] + [v] + s[i + 1..];
    SumConcat(s[..i] + [s[i]], s[i + 1..]);
    SumConcat(s[..i], [s[i]]);
    SumConcat(s[..i] + [v], s[i + 1..]);
    SumConcat(s[..i], [v]);
    assert Sum([s[i]]) == s[i] && Sum([v]) == v by {
      assert [s[i]][..0] == [] && [v][..0] == [];
    }
  }

  lemma {:induction false} SumZeros(n: nat)
    ensures Sum(seq(n, _ => 0)) == 0
  {
    if n > 0 {
      assert seq(n, _ => 0)[..n - 1] == seq(n - 1, _ => 0);
      SumZeros(n - 1);
    }
  }

  /** Arithmetic of the running-sum update on `uint32_t`. */
  lemma WrapSubAdd(a: int, b: U32, t: U32)
    ensures Add32(Sub32(a % Modulus32, b), t) == (a - b + t) % Modulus32
  {
    var m := Modulus32;
    var x := (a % m - b) % m;
    assert x == (a - b) % m by { ModShift(a - b, a % m - b, a / m); }
    ModShift(a - b + t, x + t, (a - b) / m);
  }

  /** Residues agree for numbers that differ by a multiple of the modulus. */
  lemma ModShift(x: int, y: int, q: int)
    requires x == y + q * Modulus32
    ensures x % Modulus32 == y % Modulus32
  {
    var m := Modulus32;
    var r := y % m;
    var s := y / m;
    assert y == m * s + r;
    assert x == m * (s + q) + r;
    DivModUnique(x, m, s + q, r);
  }

  /** Closing a window keeps the running sum equal to the sum of the ring's slots,
      modulo 2^32. */
  lemma CloseKeepsSlotSum(c: Channel, now: U32)
    requires |c.safEnt| == SafWinMax && c.safIdx < Modulus32 - 1
    requires c.safSum == Sum(c.safEnt) % Modulus32
    ensures CloseWindow(c, now).safSum == Sum(CloseWindow(c, now).safEnt) % Modulus32
  {
    var slot := (c.safIdx + 1) % SafWinMax;
    SumUpdate(c.safEnt, slot, c.lowTotal);
    WrapSubAdd(Sum(c.safEnt), c.safEnt[slot], c.lowTotal);
  }

  /* ------------------------------------------------------------ sliding average */

  /** The window totals, preceded by the ten zero slots the ring starts with. */
  function Padded(hist: seq<U32>): (p: seq<U32>)
    ensures |p| == |hist| + SafWinMax
  {
    seq(SafWinMax, _ => 0) + hist
  }

  /** The slot j of the ring after the closures of `hist`: the latest total written
      there (closure q, counted from 1, writes slot q % 10), or 0 if none was. */
  function SlotValue(hist: seq<U32>, j: nat): U32
    requires j < SafWinMax
  {
    var k := |hist|;
    Padded(hist)[SafWinMax - 1 + k - (k - j) % SafWinMax]
  }

  /** The last ten totals, zero-filled before there are ten. */
  function Recent(hist: seq<U32>): (r: seq<U32>)
    ensures |r| == SafWinMax
  {
    Padded(hist)[|hist|..]
  }

  /** The totals the average runs over: the last min(k, 10) of k windows. */
  function Last(hist: seq<U32>): seq<U32>
  {
    hist[|hist| - Depth(|hist|)..]
  }

  /** The sliding average of the window totals as a percentage of low time, with the
      sum taken on `uint32_t`. */
  function MovingAverage(hist: seq<U32>): real
    requires |hist| >= 1
  {
    var n := Depth(|hist|);
    ((Sum(Last(hist)) % Modulus32) as real) * 100.0 / ((MinWinSpan * n) as real)
  }

  /** The ring buffer, its running sum, counter and stored ratio are those of a
      channel that has closed windows with the totals `hist`, in order. */
  predicate FilterMatches(c: Channel, hist: seq<U32>)
  {
    |c.safEnt| == SafWinMax && c.safIdx == |hist| &&
    (forall j :: 0 <= j < SafWinMax ==> c.safEnt[j] == SlotValue(hist, j)) &&
    c.safSum == Sum(Recent(hist)) % Modulus32 &&
    c.lastLowRatio == Average(hist)
  }

  /** The ratio a channel holds after closing windows with the totals `hist`: NaN
      before the first closure, the sliding average after. */
  function Average(hist: seq<U32>): Double
  {
    if |hist| == 0 then NaN else Finite(MovingAverage(hist))
  }

  /** The window totals after a read at `now`: extended by the running total exactly
      when the read closes the window. */
  function Closed(hist: seq<U32>, c: Channel, now: U32): seq<U32>
  {
    if WindowElapsed(c, now) then hist + [c.lowTotal] else hist
  }

  /** A steady low time `t` in every window gives the ratio t / 600 percent whatever
      the number of windows closed so far, as long as ten totals fit in `uint32_t`. */
  lemma SteadyAverage(t: U32, k: nat)
    requires k >= 1 && t * SafWinMax < Modulus32
    ensures Average(seq(k, _ => t)) == Finite((t as real) * 100.0 / (MinWinSpan as real))
  {
    var h := seq(k, _ => t);
    var n := Depth(k);
    assert Sum(Last(h)) == n * t by {
      assert Last(h) == seq(n, _ => t);
      SumConst(t, n);
    }
    assert (n * t) % Modulus32 == n * t by {
      MulMono(n, SafWinMax, t);
    }
    SteadyRatio(n, t);
  }

  lemma MulMono(a: nat, b: nat, t: nat)
    requires a <= b
    ensures a * t <= b * t
  {
    assert b * t == a * t + (b - a) * t;
  }

  lemma SteadyRatio(n: nat, t: U32)
    requires n >= 1
    ensures ((n * t) as real) * 100.0 / ((MinWinSpan * n) as real)
         == (t as real) * 100.0 / (MinWinSpan as real)
  {
    assert ((n * t) as real) == (n as real) * (t as real);
    assert ((MinWinSpan * n) as real) == 60000.0 * (n as real);
    RatioCancel(n as real, t as real);
  }

  lemma RatioCancel(n: real, t: real)
    requires n > 0.0
    ensures n * t * 100.0 / (60000.0 * n) == t * 100.0 / 60000.0
  {
    var y := t * 100.0 / 60000.0;
    assert n * t * 100.0 == y * (60000.0 * n);
  }

  lemma {:induction false} SumConst(t: U32, n: nat)
    ensures Sum(seq(n, _ => t)) == n * t
  {
    if n > 0 {
      SumConst(t, n - 1);
      assert seq(n, _ => t)[..n - 1] == seq(n - 1, _ => t);
    }
  }

  /** Slot 0 stays zero through the first nine closures and holds the tenth window's
      total after the tenth: the counter advances before it selects a slot, so the
      first closure writes slot 1. */
  lemma SlotZeroFirstWritten(hist: seq<U32>)
    ensures |hist| < SafWinMax ==> SlotValue(hist, 0) == 0
    ensures |hist| == SafWinMax ==> SlotValue(hist, 0) == hist[SafWinMax - 1]
    ensures 1 <= |hist| < SafWinMax ==> SlotValue(hist, 1) == hist[0]
  {
  }

  /** The fresh channel matches the empty history. */
  lemma InitialMatches()
    ensures FilterMatches(InitialChannel(), [])
  {
    SumZeros(SafWinMax);
    assert Padded([]) == seq(SafWinMax, _ => 0);
    assert Recent([]) == seq(SafWinMax, _ => 0);
    forall j | 0 <= j < SafWinMax
      ensures SlotValue([], j) == 0
    {
      SlotIndex(0, j);
    }
  }

  /** The position SlotValue reads is inside the padded history. */
  lemma SlotIndex(k: nat, j: nat)
    requires j < SafWinMax
    ensures 0 <= SafWinMax - 1 + k - (k - j) % SafWinMax < k + SafWinMax
  {
  }

  lemma {:induction false} RecentSum(hist: seq<U32>)
    ensures Sum(Recent(hist)) == Sum(Last(hist))
  {
    var k := |hist|;
    if k >= SafWinMax {
      assert Recent(hist) == Last(hist);
    } else {
      assert Recent(hist) == seq(SafWinMax - k, _ => 0) + hist;
      SumConcat(seq(SafWinMax - k, _ => 0), hist);
      SumZeros(SafWinMax - k);
    }
  }

  /** The slot a closure overwrites held the total that drops out of the window. */
  lemma SlotStep(k: nat, j: nat)
    requires j < SafWinMax
    ensures j == (k + 1) % SafWinMax ==> (k - j) % SafWinMax == SafWinMax - 1
    ensures j == (k + 1) % SafWinMax ==> (k + 1 - j) % SafWinMax == 0
    ensures j != (k + 1) % SafWinMax ==> (k + 1 - j) % SafWinMax == (k - j) % SafWinMax + 1
  {
  }

  /** Closing a window moves a matching channel to the history extended by the
      closed window's total. */
  lemma CloseKeepsFilter(c: Channel, hist: seq<U32>, now: U32)
    requires FilterMatches(c, hist) && c.safIdx < Modulus32 - 1
    ensures FilterMatches(CloseWindow(c, now), hist + [c.lowTotal])
  {
    var h2 := hist + [c.lowTotal];
    var r := CloseWindow(c, now);
    CloseKeepsSlots(c, hist, now);
    CloseKeepsRecentSum(c, hist, now);
    RecentSum(h2);
    assert r.lastLowRatio == Finite(MovingAverage(h2));
  }

  /** A read keeps the ring in step with the window totals, and the ratio it leaves
      is their sliding average. */
  lemma ReadKeepsFilter(c: Channel, hist: seq<U32>, now: U32)
    requires FilterMatches(c, hist) && c.safIdx < Modulus32 - 1
    ensures FilterMatches(ReadRatio(c, now), Closed(hist, c, now))
    ensures ReadRatio(c, now).lastLowRatio == Average(Closed(hist, c, now))
  {
    if WindowElapsed(c, now) {
      CloseKeepsFilter(c, hist, now);
    }
  }

  /** What the engine's public operations do to one channel: a poll of its pin, a
      read of its ratio, or a restart of its window (`begin`, `reset`). */
  datatype Event = Polled(level: Level, at: U32) | Read(at: U32) | Restarted(at: U32)

  function Step(c: Channel, e: Event): (r: Channel)
    requires |c.safEnt| == SafWinMax && c.safIdx < Modulus32 - 1
    ensures ChannelOk(c) ==> ChannelOk(r)
  {
    match e
    case Polled(level, t) => Poll(c, level, t)
    case Read(t) => ReadRatio(c, t)
    case Restarted(t) => c.(winStart := t)
  }

  /** A channel matching `hist` after the events `events`, with the totals of the
      windows they closed appended to `hist`: whatever the interleaving, the ring
      holds the last ten totals and the stored ratio is their average. */
  function Run(c: Channel, hist: seq<U32>, events: seq<Event>): (r: (Channel, seq<U32>))
    requires FilterMatches(c, hist) && |hist| + |events| < Modulus32 - 1
    ensures FilterMatches(r.0, r.1) && r.0.lastLowRatio == Average(r.1)
    ensures hist <= r.1 && |r.1| <= |hist| + |events|
    ensures ChannelOk(c) ==> ChannelOk(r.0)
    decreases |events|
  {
    if events == [] then (c, hist)
    else
      var e := events[0];
      var h1 := if e.Read? then Closed(hist, c, e.at) else hist;
      ReadKeepsFilter(c, hist, e.at);
      Run(Step(c, e), h1, events[1..])
  }

  /** From the constructor's state, any run of fewer than 2^32 - 1 events leaves a
      well-formed channel whose ratio is NaN until a window closes and the sliding
      average of the closed windows' totals after. */
  lemma RunFromStart(events: seq<Event>)
    requires |events| < Modulus32 - 1
    ensures FilterMatches(InitialChannel(), [])
    ensures var r := Run(InitialChannel(), [], events);
      ChannelOk(r.0) && r.0.lastLowRatio == Average(r.1) && |r.1| <= |events|
  {
    InitialMatches();
  }

  lemma CloseKeepsSlots(c: Channel, hist: seq<U32>, now: U32)
    requires FilterMatches(c, hist) && c.safIdx < Modulus32 - 1
    ensures forall j :: 0 <= j < SafWinMax ==>
      CloseWindow(c, now).safEnt[j] == SlotValue(hist + [c.lowTotal], j)
  {
    var k := |hist|;
    var h2 := hist + [c.lowTotal];
    var r := CloseWindow(c, now);
    assert Padded(h2) == Padded(hist) + [c.lowTotal];
    forall j | 0 <= j < SafWinMax
      ensures r.safEnt[j] == SlotValue(h2, j)
    {
      SlotStep(k, j);
    }
  }

  lemma CloseKeepsRecentSum(c: Channel, hist: seq<U32>, now: U32)
    requires FilterMatches(c, hist) && c.safIdx < Modulus32 - 1
    ensures CloseWindow(c, now).safSum == Sum(Recent(hist + [c.lowTotal])) % Modulus32
  {
    var k := |hist|;
    var t := c.lowTotal;
    var h2 := hist + [t];
    var slot := (k + 1) % SafWinMax;
    SlotStep(k, slot);
    assert c.safEnt[slot] == Padded(hist)[k];
    assert Padded(h2) == Padded(hist) + [t];
    assert Recent(h2) == Recent(hist)[1..] + [t];
    SumFirst(Recent(hist));
    SumConcat(Recent(hist)[1..], [t]);
    assert Sum([t]) == t by { assert [t][..0] == []; }
    WrapSubAdd(Sum(Recent(hist)), c.safEnt[slot], t);
  }
}
