/**
  The observed-channel table of pybricks/common/pb_type_ble.c: the RSSI filter in wrapping
  arithmetic, and the marker that makes stale data disappear.
 */
module BleChannel {
  import opened Common
  import opened BleCodec

  const U32: nat := 0x1_0000_0000

  const WINDOW: nat := 512

  const TIMEOUT: nat := 1000

  /** INT8_MIN, the marker for no data. */
  const MARKER: int := -128

  datatype Channel = Channel(timestamp: nat, channel: byte, rssi: int, size: byte, data: seq<byte>)

  predicate Int8(x: int) { -128 <= x < 128 }

  // ---------- The filter, as C evaluates it ----------

  function ToInt8(x: nat): int {
    if x % 256 < 128 then x % 256 else x % 256 - 256
  }

  /** One filter step: the signed values are converted to uint32_t, and so is every result. */
  function Filtered(previous: int, sample: int, diff: nat): int
    requires diff <= WINDOW
  {
    var left := ((previous % U32) * (WINDOW - diff)) % U32;
    var right := ((sample % U32) * diff) % U32;
    ToInt8(((left + right) % U32) / WINDOW)
  }

  lemma ModShift(x: int, k: int)
    ensures (x + k * U32) % U32 == x % U32
  {
    var q := x / U32;
    assert x + k * U32 == (q + k) * U32 + x % U32;
  }

  lemma WrappedFactor(x: int, y: nat)
    ensures ((x % U32) * y) % U32 == (x * y) % U32
  {
    var q := x / U32;
    assert (x % U32) * y == x * y + (-q * y) * U32 by {
      assert x % U32 == x - q * U32;
      assert (x - q * U32) * y == x * y - q * U32 * y;
    }
    ModShift(x * y, -q * y);
  }

  lemma WrappedSum(x: int, y: int)
    ensures (x % U32 + y % U32) % U32 == (x + y) % U32
  {
    ModShift(x % U32 + y % U32, x / U32 + y / U32);
  }

  /** Cutting to int8_t forgets multiples of 2^23. */
  lemma CutToInt8(q: int)
    requires Int8(q)
    ensures q >= 0 ==> ToInt8(q) == q
    ensures q < 0 ==> ToInt8(q + 0x80_0000) == q
  {
    if q < 0 {
      assert q + 0x80_0000 == 256 * 0x7FFF + (q + 256);
    }
  }

  /** Reducing to 32 bits, dividing unsigned and cutting to int8_t is floor division, in this range. */
  lemma WrapThenDivide(x: int)
    requires -128 * WINDOW <= x <= 127 * WINDOW
    ensures ToInt8((x % U32) / WINDOW) == x / WINDOW && Int8(x / WINDOW)
  {
    CutToInt8(x / WINDOW);
    if x < 0 {
      ModShift(x, 1);
      assert x % U32 == x + U32;
      assert (x + U32) / WINDOW == x / WINDOW + 0x80_0000;
    }
  }

  /** The wrapping computation gives the floor of the true weighted average. */
  lemma FilterIsFloor(previous: int, sample: int, diff: nat)
    requires Int8(previous) && Int8(sample) && diff <= WINDOW
    ensures Filtered(previous, sample, diff) == (previous * (WINDOW - diff) + sample * diff) / WINDOW
    ensures Int8(Filtered(previous, sample, diff))
  {
    FilterUnwraps(previous, WINDOW - diff, sample, diff);
    AverageInRange(previous, sample, diff, -128, 127);
    WrapThenDivide(previous * (WINDOW - diff) + sample * diff);
  }

  lemma FilterUnwraps(x: int, w: nat, y: int, v: nat)
    ensures (((x % U32) * w) % U32 + ((y % U32) * v) % U32) % U32 == (x * w + y * v) % U32
  {
    WrappedFactor(x, w);
    WrappedFactor(y, v);
    WrappedSum(x * w, y * v);
  }

  lemma AverageInRange(previous: int, sample: int, diff: nat, lo: int, hi: int)
    requires lo <= previous <= hi && lo <= sample <= hi && diff <= WINDOW
    ensures lo * WINDOW <= previous * (WINDOW - diff) + sample * diff <= hi * WINDOW
  {
    MulBounds(previous, WINDOW - diff, lo, hi);
    MulBounds(sample, diff, lo, hi);
    assert lo * (WINDOW - diff) + lo * diff == lo * WINDOW;
    assert hi * (WINDOW - diff) + hi * diff == hi * WINDOW;
  }

  lemma MulBounds(x: int, w: nat, lo: int, hi: int)
    requires lo <= x <= hi
    ensures lo * w <= x * w <= hi * w
  {
    assert (x - lo) * w >= 0 && (hi - x) * w >= 0;
  }

  /** The filtered value lies between any bounds that hold of both inputs. */
  lemma FilterStaysBetween(previous: int, sample: int, diff: nat, lo: int, hi: int)
    requires Int8(previous) && Int8(sample) && diff <= WINDOW
    requires lo <= previous <= hi && lo <= sample <= hi
    ensures lo <= Filtered(previous, sample, diff) <= hi
    ensures diff == WINDOW ==> Filtered(previous, sample, diff) == sample
    ensures diff == 0 ==> Filtered(previous, sample, diff) == previous
  {
    FilterIsFloor(previous, sample, diff);
    AverageInRange(previous, sample, diff, lo, hi);
  }

  // ---------- One channel ----------

  /** The elapsed ticks between two readings of the wrapping clock. */
  function Elapsed(now: nat, since: nat): nat {
    (now - since) % U32
  }

  /** The entry after an advertisement with this RSSI, at clock reading `now`. */
  function Sampled(ch: Channel, size: byte, data: seq<byte>, rssi: int, now: nat): Channel {
    var diff := Elapsed(now, ch.timestamp);
    ch.(timestamp := (ch.timestamp + diff) % U32,
        rssi := Filtered(ch.rssi, rssi, if diff > WINDOW then WINDOW else diff),
        size := size, data := data)
  }

  /** The entry after a look at it: too old data is reset. */
  function Refreshed(ch: Channel, now: nat): Channel {
    if Elapsed(now, ch.timestamp) > TIMEOUT then ch.(size := 0, rssi := MARKER) else ch
  }

  /** The length byte counts the payload and four more bytes. */
  function RecordedSize(length: byte): byte {
    var n: int := length;
    (n - 4) % 256
  }

  function Fresh(channel: byte, now: nat): Channel {
    Channel((now - WINDOW - TIMEOUT) % U32, channel, MARKER, 0, seq(MAX_SIZE, _ => 0))
  }

  // ---------- Runs of one channel ----------

  /** Events at real times, counted in milliseconds without end. */
  datatype Event = Sample(at: nat, rssi: int) | Look(at: nat)

  /** What the proofs remember: the last sample or virtual sample, and bounds of all samples. */
  datatype Run = Run(ch: Channel, now: nat, last: int, received: bool, lo: int, hi: int)

  function Start(channel: byte, now: nat): Run {
    Run(Fresh(channel, now % U32), now, now - WINDOW - TIMEOUT, false, 127, -127)
  }

  /** Time does not run backwards, and a sample is a signal strength and not the marker. */
  ghost predicate Possible(r: Run, e: Event) {
    r.now <= e.at && (e.Sample? ==> -127 <= e.rssi <= 127)
  }

  /**
    The 32-bit clock hides nothing that matters: a first sample is seen to be far behind the virtual
    sample, and data that is too old is seen to be so.
   */
  ghost predicate InTime(r: Run, e: Event) {
    && Possible(r, e)
    && (e.Sample? && r.ch.rssi == MARKER ==> (e.at - r.last) % U32 >= WINDOW)
    && (e.Look? && r.ch.rssi != MARKER ==> SeenAsOldIffOld(e.at - r.last))
  }

  predicate SeenAsOldIffOld(gap: int) {
    gap <= TIMEOUT || gap % U32 > TIMEOUT
  }

  function Next(r: Run, e: Event): Run {
    match e
    case Sample(at, rssi) =>
      Run(Sampled(r.ch, r.ch.size, r.ch.data, rssi, at % U32), at, at, true,
          if rssi < r.lo then rssi else r.lo, if rssi > r.hi then rssi else r.hi)
    case Look(at) => r.(ch := Refreshed(r.ch, at % U32), now := at)
  }

  ghost predicate Consistent(r: Run) {
    && r.last <= r.now
    && r.ch.timestamp == r.last % U32
    && (!r.received ==> r.ch.rssi == MARKER)
    && (r.ch.rssi == MARKER ==> r.now - r.last > TIMEOUT)
    && (r.ch.rssi != MARKER ==> -127 <= r.lo <= r.ch.rssi <= r.hi <= 127)
    && -127 <= r.lo && r.hi <= 127
  }

  lemma ElapsedWraps(now: nat, last: int)
    requires last <= now
    ensures Elapsed(now % U32, last % U32) == (now - last) % U32
    ensures (last % U32 + (now - last) % U32) % U32 == now % U32
  {
    WrappedSum(last, now - last);
    WrappedDifference(now, last);
  }

  lemma WrappedDifference(x: int, y: int)
    ensures (x % U32 - y % U32) % U32 == (x - y) % U32
  {
    ModShift(x % U32 - y % U32, x / U32 - y / U32);
  }

  lemma StartIsConsistent(channel: byte, now: nat)
    ensures Consistent(Start(channel, now))
  {
    ModShift(now % U32 - WINDOW - TIMEOUT, now / U32);
  }

  /** Gaps below 2^32 ms are always in time, and measured correctly. */
  lemma ShortGapsAreInTime(r: Run, e: Event)
    requires Consistent(r) && Possible(r, e) && e.at - r.last < 0x1_0000_0000
    ensures InTime(r, e) && Measured(r, e)
  {
  }

  /** Averaging a sample with the marker. */
  lemma FilterOfMarker(sample: int, diff: nat)
    requires MARKER < sample < 128 && diff <= WINDOW
    ensures Filtered(MARKER, sample, diff) == sample <==> diff == WINDOW
    ensures Filtered(MARKER, sample, diff) == MARKER <==> (sample - MARKER) * diff < WINDOW
  {
    FilterIsFloor(MARKER, sample, diff);
    var rise := sample - MARKER;
    assert MARKER * (WINDOW - diff) + sample * diff == MARKER * WINDOW + rise * diff;
    PartOfRise(rise, diff);
    DivideRise(rise, rise * diff);
  }

  lemma PartOfRise(rise: nat, diff: nat)
    requires rise > 0 && diff <= WINDOW
    ensures 0 <= rise * diff <= rise * WINDOW
    ensures rise * diff == rise * WINDOW <==> diff == WINDOW
  {
    var left := WINDOW - diff;
    assert rise * diff == rise * WINDOW - rise * left;
    assert left > 0 ==> rise * left > 0;
  }

  lemma DivideRise(rise: nat, part: nat)
    requires part <= rise * WINDOW
    ensures (MARKER * WINDOW + part) / WINDOW == MARKER + part / WINDOW
    ensures part / WINDOW == rise <==> part == rise * WINDOW
    ensures part / WINDOW == 0 <==> part < WINDOW
  {
  }

  /** A marked channel stores the next sample unchanged exactly if the sample is in time. */
  lemma FirstSampleUnchanged(r: Run, at: nat, rssi: int)
    requires Consistent(r) && Possible(r, Sample(at, rssi)) && r.ch.rssi == MARKER
    ensures Next(r, Sample(at, rssi)).ch.rssi == rssi <==> InTime(r, Sample(at, rssi))
  {
    ElapsedWraps(at, r.last);
    var diff := (at - r.last) % U32;
    FilterOfMarker(rssi, if diff > WINDOW then WINDOW else diff);
  }

  lemma SampleKeepsConsistent(r: Run, at: nat, rssi: int)
    requires Consistent(r) && InTime(r, Sample(at, rssi))
    ensures Consistent(Next(r, Sample(at, rssi)))
  {
    var next := Next(r, Sample(at, rssi));
    ElapsedWraps(at, r.last);
    var diff := (at - r.last) % U32;
    if r.ch.rssi == MARKER {
      FirstSampleUnchanged(r, at, rssi);
    } else {
      FilterStaysBetween(r.ch.rssi, rssi, if diff > WINDOW then WINDOW else diff, next.lo, next.hi);
    }
  }

  lemma LookKeepsConsistent(r: Run, at: nat)
    requires Consistent(r) && InTime(r, Look(at))
    ensures Consistent(Next(r, Look(at)))
    ensures Next(r, Look(at)).ch.rssi == MARKER <==> at - r.last > TIMEOUT
  {
    ElapsedWraps(at, r.last);
  }

  function After(r: Run, es: seq<Event>): Run
    decreases |es|
  {
    if es == [] then r else Next(After(r, es[..|es| - 1]), es[|es| - 1])
  }

  ghost predicate AllPossible(r: Run, es: seq<Event>)
    decreases |es|
  {
    es != [] ==>
      var before := es[..|es| - 1];
      AllPossible(r, before) && Possible(After(r, before), es[|es| - 1])
  }

  ghost predicate AllInTime(r: Run, es: seq<Event>)
    decreases |es|
  {
    es != [] ==>
      var before := es[..|es| - 1];
      AllInTime(r, before) && InTime(After(r, before), es[|es| - 1])
  }

  lemma {:induction false} RunsStayConsistent(channel: byte, start: nat, es: seq<Event>)
    requires AllInTime(Start(channel, start), es)
    ensures Consistent(After(Start(channel, start), es))
    decreases |es|
  {
    var r := Start(channel, start);
    if es == [] {
      StartIsConsistent(channel, start);
    } else {
      var before := es[..|es| - 1];
      RunsStayConsistent(channel, start, before);
      match es[|es| - 1]
      case Sample(at, rssi) => SampleKeepsConsistent(After(r, before), at, rssi);
      case Look(at) => LookKeepsConsistent(After(r, before), at);
    }
  }

  /** The time of the last sample in a run, or none. */
  function LastSample(es: seq<Event>): Option<nat>
    decreases |es|
  {
    if es == [] then None
    else if es[|es| - 1].Sample? then Some(es[|es| - 1].at)
    else LastSample(es[..|es| - 1])
  }

  lemma {:induction false} LastIsLastSample(r: Run, es: seq<Event>)
    ensures After(r, es).last == if LastSample(es).Some? then LastSample(es).value else r.last
    ensures After(r, es).received == (r.received || LastSample(es).Some?)
    decreases |es|
  {
    if es != [] {
      LastIsLastSample(r, es[..|es| - 1]);
    }
  }

  lemma {:induction false} TimeGoesOn(r: Run, es: seq<Event>)
    requires AllPossible(r, es)
    ensures r.now <= After(r, es).now
    decreases |es|
  {
    if es != [] {
      TimeGoesOn(r, es[..|es| - 1]);
    }
  }

  lemma {:induction false} InTimeIsPossible(r: Run, es: seq<Event>)
    requires AllInTime(r, es)
    ensures AllPossible(r, es)
    decreases |es|
  {
    if es != [] {
      InTimeIsPossible(r, es[..|es| - 1]);
    }
  }

  /**
    Staleness, over every run. A look at the channel finds the marker, so that observe() returns
    None, exactly if there was no sample in the last 1000 milliseconds. Otherwise the RSSI it finds
    lies within the range of the samples received.
   */
  lemma NoneIffStale(channel: byte, start: nat, es: seq<Event>, at: nat)
    requires AllInTime(Start(channel, start), es)
    requires InTime(After(Start(channel, start), es), Look(at))
    ensures var seen := Next(After(Start(channel, start), es), Look(at)).ch.rssi;
            && (seen == -128 <==> (LastSample(es).None? || at - LastSample(es).value > 1000))
            && (seen != MARKER ==> After(Start(channel, start), es).lo <= seen <= After(Start(channel, start), es).hi)
  {
    var r := Start(channel, start);
    RunsStayConsistent(channel, start, es);
    LookKeepsConsistent(After(r, es), at);
    LastIsLastSample(r, es);
    InTimeIsPossible(r, es);
    TimeGoesOn(r, es);
  }

  // ---------- The average in real time ----------

  function Weight(gap: int): int {
    if gap < 512 then gap else 512
  }

  lemma WeightOnClock(gap: nat)
    requires gap < 512 || gap % 0x1_0000_0000 >= 512
    ensures (if gap % U32 > WINDOW then WINDOW else gap % U32) == Weight(gap)
  {
  }

  lemma SampledIsFiltered(ch: Channel, size: byte, data: seq<byte>, rssi: int, last: int, now: nat)
    requires ch.timestamp == last % 0x1_0000_0000
    requires last <= now && (now - last < 512 || (now - last) % 0x1_0000_0000 >= 512)
    ensures Sampled(ch, size, data, rssi, now % 0x1_0000_0000).rssi == Filtered(ch.rssi, rssi, Weight(now - last))
    ensures Sampled(ch, size, data, rssi, now % 0x1_0000_0000).timestamp == now % 0x1_0000_0000
  {
    var diff := Elapsed(now % U32, last % U32);
    ElapsedWraps(now, last);
    WeightOnClock(now - last);
    assert (if diff > WINDOW then WINDOW else diff) == Weight(now - last);
  }

  /** A sample is weighed by the time since the one before it, at most 512 ms, on a clock that wraps. */
  lemma WeighedByElapsedTime(ch: Channel, size: byte, data: seq<byte>, rssi: int, last: int, now: nat)
    requires Int8(ch.rssi) && Int8(rssi) && ch.timestamp == last % 0x1_0000_0000
    requires last <= now && (now - last < 512 || (now - last) % 0x1_0000_0000 >= 512)
    ensures var d := if now - last < 512 then now - last else 512;
            Sampled(ch, size, data, rssi, now % 0x1_0000_0000).rssi == (ch.rssi * (512 - d) + rssi * d) / 512
    ensures Sampled(ch, size, data, rssi, now % 0x1_0000_0000).timestamp == now % 0x1_0000_0000
  {
    SampledIsFiltered(ch, size, data, rssi, last, now);
    FilterIsFloor(ch.rssi, rssi, Weight(now - last));
  }

  /** What the channel should be: the average of the samples, and the time of the last one. */
  datatype Average = Average(value: Option<int>, last: int)

  function Averaged(a: Average, e: Event): Average {
    match e
    case Sample(at, rssi) =>
      var d := if at - a.last < 512 then at - a.last else 512;
      Average(Some(if a.value.None? then rssi else (a.value.value * (512 - d) + rssi * d) / 512), at)
    case Look(at) => if at - a.last > 1000 then a.(value := None) else a
  }

  function AverageOf(start: nat, es: seq<Event>): Average
    decreases |es|
  {
    if es == [] then Average(None, start - 1512)
    else Averaged(AverageOf(start, es[..|es| - 1]), es[|es| - 1])
  }

  /** The clock shows the weight of each sample and the age of data correctly. */
  ghost predicate Measured(r: Run, e: Event) {
    && Possible(r, e)
    && (e.Sample? ==> e.at - r.last < 512 || (e.at - r.last) % 0x1_0000_0000 >= 512)
    && (e.Look? && r.ch.rssi != MARKER ==> SeenAsOldIffOld(e.at - r.last))
  }

  ghost predicate AllMeasured(r: Run, es: seq<Event>)
    decreases |es|
  {
    es != [] ==>
      var before := es[..|es| - 1];
      AllMeasured(r, before) && Measured(After(r, before), es[|es| - 1])
  }

  ghost predicate Shows(r: Run, a: Average) {
    && Consistent(r) && r.last == a.last
    && r.ch.rssi == (if a.value.None? then -128 else a.value.value)
    && (a.value.Some? ==> -127 <= a.value.value <= 127)
  }

  lemma StepShowsAverage(r: Run, a: Average, e: Event)
    requires Shows(r, a) && Measured(r, e)
    ensures Shows(Next(r, e), Averaged(a, e))
  {
    match e
    case Sample(at, rssi) =>
      SampleKeepsConsistent(r, at, rssi);
      if r.ch.rssi == MARKER {
        FirstSampleUnchanged(r, at, rssi);
      } else {
        WeighedByElapsedTime(r.ch, r.ch.size, r.ch.data, rssi, r.last, at);
      }
    case Look(at) =>
      LookKeepsConsistent(r, at);
  }

  /**
    Over every run that the clock measures correctly, the channel holds exactly the average of its
    samples, weighed by the real time between them, or the marker while there is none.
   */
  lemma {:induction false} RunsShowAverage(channel: byte, start: nat, es: seq<Event>)
    requires AllMeasured(Start(channel, start), es)
    ensures After(Start(channel, start), es).ch.rssi ==
            match AverageOf(start, es).value { case None => -128 case Some(v) => v }
    ensures Shows(After(Start(channel, start), es), AverageOf(start, es))
    decreases |es|
  {
    if es == [] {
      StartIsConsistent(channel, start);
    } else {
      var before := es[..|es| - 1];
      RunsShowAverage(channel, start, before);
      StepShowsAverage(After(Start(channel, start), before), AverageOf(start, before), es[|es| - 1]);
    }
  }

  // ---------- Exactly when staleness is right ----------

  /** The marker is there exactly if the last sample, or the virtual one, is too old. */
  ghost predicate Right(r: Run) {
    r.ch.rssi == MARKER <==> r.now - r.last > TIMEOUT
  }

  predicate RoundsToMarker(sample: int, diff: nat) {
    diff < WINDOW && (sample - MARKER) * diff < WINDOW
  }

  /**
    What the 32-bit clock must not do: let the average of a first sample and the marker round to the
    marker, or let data that is too old look new.
   */
  ghost predicate Undisturbed(r: Run, e: Event) {
    var gap := e.at - r.last;
    if e.Sample? then r.ch.rssi == MARKER ==> !RoundsToMarker(e.rssi, gap % U32)
    else r.ch.rssi != MARKER ==> SeenAsOldIffOld(gap)
  }

  ghost predicate Clocked(r: Run) {
    r.last <= r.now && r.ch.timestamp == r.last % U32 && Int8(r.ch.rssi)
  }

  lemma StepIsRightIff(r: Run, e: Event)
    requires Clocked(r) && Right(r) && Possible(r, e)
    ensures Clocked(Next(r, e))
    ensures Right(Next(r, e)) <==> Undisturbed(r, e)
  {
    ElapsedWraps(e.at, r.last);
    match e
    case Sample(at, rssi) => SampleIsRightIff(r, at, rssi);
    case Look(at) =>
  }

  lemma SampleIsRightIff(r: Run, at: nat, rssi: int)
    requires Clocked(r) && Possible(r, Sample(at, rssi))
    ensures Clocked(Next(r, Sample(at, rssi)))
    ensures Right(Next(r, Sample(at, rssi))) <==> Undisturbed(r, Sample(at, rssi))
  {
    var gap := (at - r.last) % U32;
    ElapsedWraps(at, r.last);
    UnmarkedBySample(r.ch.rssi, rssi, gap);
  }

  lemma UnmarkedBySample(previous: int, sample: int, diff: nat)
    requires Int8(previous) && MARKER < sample < 128
    ensures var stored := Filtered(previous, sample, if diff > WINDOW then WINDOW else diff);
            && Int8(stored)
            && (stored == MARKER <==> previous == MARKER && RoundsToMarker(sample, diff))
  {
    var weight := if diff > WINDOW then WINDOW else diff;
    FilterIsFloor(previous, sample, weight);
    if previous == MARKER {
      FilterOfMarker(sample, weight);
      assert weight == WINDOW ==> (sample - MARKER) * weight >= WINDOW;
    } else {
      FilterStaysBetween(previous, sample, weight, -127, 127);
    }
  }

  ghost predicate AllUndisturbed(r: Run, es: seq<Event>)
    decreases |es|
  {
    es != [] ==>
      var before := es[..|es| - 1];
      AllUndisturbed(r, before) && Undisturbed(After(r, before), es[|es| - 1])
  }

  /** After each event, the marker is there exactly if there was no sample in the last 1000 milliseconds. */
  ghost predicate AlwaysStaleIffOld(r: Run, es: seq<Event>)
    decreases |es|
  {
    && (es != [] ==> AlwaysStaleIffOld(r, es[..|es| - 1]))
    && (After(r, es).ch.rssi == MARKER <==>
        (LastSample(es).None? || After(r, es).now - LastSample(es).value > TIMEOUT))
  }

  /** For every run, gaps of any length included: staleness is always right exactly if no step is disturbed. */
  lemma {:induction false} StaleIffOldIffUndisturbed(channel: byte, start: nat, es: seq<Event>)
    requires AllPossible(Start(channel, start), es)
    ensures AlwaysStaleIffOld(Start(channel, start), es) <==> AllUndisturbed(Start(channel, start), es)
    ensures AlwaysStaleIffOld(Start(channel, start), es) ==> Clocked(After(Start(channel, start), es))
    decreases |es|
  {
    var r := Start(channel, start);
    RightMeansStaleIffOld(channel, start, es);
    if es == [] {
      StartIsConsistent(channel, start);
    } else {
      var before := es[..|es| - 1];
      StaleIffOldIffUndisturbed(channel, start, before);
      RightMeansStaleIffOld(channel, start, before);
      if AlwaysStaleIffOld(r, before) {
        StepIsRightIff(After(r, before), es[|es| - 1]);
      }
    }
  }

  lemma RightMeansStaleIffOld(channel: byte, start: nat, es: seq<Event>)
    requires AllPossible(Start(channel, start), es)
    ensures var r := After(Start(channel, start), es);
            Right(r) <==>
              (r.ch.rssi == MARKER <==> (LastSample(es).None? || r.now - LastSample(es).value > TIMEOUT))
  {
    LastIsLastSample(Start(channel, start), es);
    TimeGoesOn(Start(channel, start), es);
  }

  /** A look at unmarked data is right exactly for these gaps. */
  lemma LookIsRightIff(r: Run, at: nat)
    requires Clocked(r) && r.now <= at && r.ch.rssi != MARKER
    ensures (Next(r, Look(at)).ch.rssi == MARKER <==> at - r.last > TIMEOUT) <==> SeenAsOldIffOld(at - r.last)
  {
    ElapsedWraps(at, r.last);
  }

  /** For example, after 2^32 ms without a sample old data looks new. */
  lemma LongGapLooksFresh(channel: byte)
    ensures var r := Next(Start(channel, 0), Sample(0, -50));
            Next(r, Look(U32)).ch.rssi == -50
  {
    var r := Start(channel, 0);
    StartIsConsistent(channel, 0);
    FirstSampleUnchanged(r, 0, -50);
    SampleKeepsConsistent(r, 0, -50);
  }

  // ---------- The table ----------

  class Table {
    var entries: array<Channel>

    /** The index of the first entry for a channel. */
    ghost predicate IsFirst(channel: byte, i: nat)
      reads this, entries
    {
      && i < entries.Length && entries[i].channel == channel
      && forall j | 0 <= j < i :: entries[j].channel != channel
    }

    ghost predicate Configured(channel: byte)
      reads this, entries
    {
      exists i | 0 <= i < entries.Length :: entries[i].channel == channel
    }

    constructor (channels: seq<byte>, now: nat)
      ensures fresh(entries) && entries.Length == |channels|
      ensures forall i | 0 <= i < |channels| :: entries[i] == Fresh(channels[i], now)
    {
      entries := new Channel[|channels|](i requires 0 <= i < |channels| => Fresh(channels[i], now));
    }

    method Lookup(channel: byte) returns (r: Option<nat>)
      ensures r.None? <==> !Configured(channel)
      ensures r.Some? ==> IsFirst(channel, r.value)
    {
      var i := 0;
      while i < entries.Length
        invariant i <= entries.Length
        invariant forall j | 0 <= j < i :: entries[j].channel != channel
      {
        if entries[i].channel == channel {
          return Some(i);
        }
        i := i + 1;
      }
      r := None;
    }

    /**
      The event of the radio driver. `data` is its buffer, of which the first `length` bytes are the
      advertisement; the fixed-size copy takes along whatever lies behind.
     */
    method HandleObserveEvent(data: seq<byte>, length: byte, rssi: int, now: nat)
      requires length as nat <= |data| && OVERHEAD + MAX_SIZE <= |data| && Int8(rssi)
      modifies entries
      ensures length < 5 || data[1] != MFG_SPECIFIC || data[2..4] != LEGO_CID || !Configured(data[4]) ==>
                entries[..] == old(entries[..])
      ensures length >= 5 && data[1] == MFG_SPECIFIC && data[2..4] == LEGO_CID ==>
                forall i | 0 <= i < entries.Length && old(IsFirst(data[4], i)) ::
                  entries[..] == old(entries[..])[i :=
                    Sampled(old(entries[i]), RecordedSize(data[0]), data[OVERHEAD..OVERHEAD + MAX_SIZE], rssi, now)]
    {
      if length >= 5 && data[1] == MFG_SPECIFIC && data[2..4] == LEGO_CID {
        var found := Lookup(data[4]);
        if found.None? {
          return;
        }
        var ch := entries[found.value];
        ghost var sampled := Sampled(ch, RecordedSize(data[0]), data[OVERHEAD..OVERHEAD + MAX_SIZE], rssi, now);
        var diff := Elapsed(now, ch.timestamp);
        ch := ch.(timestamp := (ch.timestamp + diff) % U32);
        if diff > WINDOW {
          diff := WINDOW;
        }
        ch := ch.(rssi := Filtered(ch.rssi, rssi, diff));
        ch := ch.(size := RecordedSize(data[0]), data := data[OVERHEAD..OVERHEAD + MAX_SIZE]);
        assert ch == sampled;
        entries[found.value] := ch;
      }
    }

    /** Looks a channel up and resets its data if it is too old. The channel number is cut to a byte. */
    method GetChannelData(channel: int, now: nat) returns (r: Result<Channel>)
      modifies entries
      ensures r.Err? <==> !old(Configured(channel % 256))
      ensures r.Err? ==> r.error == ValueError && entries[..] == old(entries[..])
      ensures r.Ok? ==> exists i ::
                          && 0 <= i < entries.Length && old(IsFirst(channel % 256, i))
                          && r.value == Refreshed(old(entries[i]), now)
                          && entries[..] == old(entries[..])[i := r.value]
    {
      var found := Lookup(channel % 256);
      if found.None? {
        return Err(ValueError);
      }
      var ch := entries[found.value];
      if Elapsed(now, ch.timestamp) > TIMEOUT {
        ch := ch.(size := 0, rssi := MARKER);
      }
      entries[found.value] := ch;
      r := Ok(ch);
    }

    /**
      observe(): None for stale data, and else what the recorded payload says. Behind the copy of the
      entry lies other memory.
     */
    method Observe(channel: int, now: nat, behind: seq<byte>) returns (r: Result<Message>)
      requires REACH <= |behind|
      modifies entries
      ensures !old(Configured(channel % 256)) ==> r == Err(ValueError)
      ensures forall i | 0 <= i < entries.Length && old(IsFirst(channel % 256, i)) ::
                r == Observed(Refreshed(old(entries[i]), now), behind)
    {
      var found := GetChannelData(channel, now);
      if found.Err? {
        return Err(found.error);
      }
      var ch := found.value;
      if ch.rssi == MARKER {
        return Ok(Nothing);
      }
      r := DecodeMessage(ch.data + behind, ch.size);
    }
  }

  /** BLE(): checks the channel numbers, then makes the table. */
  method NewTable(broadcast: Option<int>, channels: seq<int>, now: nat) returns (r: Result<Table>)
    ensures r.Ok? <==>
              && (broadcast.Some? ==> 0 <= broadcast.value < 256)
              && |channels| < 256 && forall i | 0 <= i < |channels| :: 0 <= channels[i] < 256
    ensures r.Err? ==> r.error == ValueError
    ensures r.Ok? ==> fresh(r.value) && fresh(r.value.entries) && r.value.entries.Length == |channels|
    ensures r.Ok? ==> forall i | 0 <= i < |channels| :: r.value.entries[i] == Fresh(channels[i], now)
  {
    if broadcast.Some? && (broadcast.value < 0 || broadcast.value > 255) {
      return Err(ValueError);
    }
    if |channels| > 255 {
      return Err(ValueError);
    }
    var checked: seq<byte> := [];
    for i := 0 to |channels|
      invariant |checked| == i
      invariant forall j | 0 <= j < i :: checked[j] == channels[j]
    {
      if channels[i] < 0 || channels[i] > 255 {
        return Err(ValueError);
      }
      checked := checked + [channels[i]];
    }
    var table := new Table(checked, now);
    r := Ok(table);
  }

  lemma FirstOf(channels: seq<int>, channel: int) returns (i: nat)
    requires channel in channels
    ensures i < |channels| && channels[i] == channel
    ensures forall j | 0 <= j < i :: channels[j] != channel
  {
    if channels[0] == channel {
      i := 0;
    } else {
      i := FirstOf(channels[1..], channel);
      i := i + 1;
    }
  }

  lemma CutToByte(channel: byte, k: int)
    ensures (channel + k * 256) % 256 == channel
  {
  }

  /**
    Numbers that are out of range by a multiple of 256 are accepted: with channel 1 configured,
    observe(257) gives None like observe(1), and not a ValueError.
   */
  method ObserveOutOfRange(channels: seq<int>, channel: byte, k: int, now: nat, behind: seq<byte>)
    returns (r: Result<Message>)
    requires |channels| < 256 && channel in channels && REACH <= |behind|
    requires forall i | 0 <= i < |channels| :: 0 <= channels[i] < 256
    ensures r == Ok(Nothing)
  {
    var made := NewTable(None, channels, now);
    var table := made.value;
    ghost var first := FirstOf(channels, channel);
    assert table.entries[first].channel == channel;
    assert table.IsFirst(channel, first);
    CutToByte(channel, k);
    r := table.Observe(channel + k * 256, now, behind);
  }

  /** What observe() makes of an entry it has refreshed. */
  function Observed(ch: Channel, behind: seq<byte>): Result<Message>
    requires REACH <= |behind|
  {
    if ch.rssi == MARKER then Ok(Nothing) else DecodePayload(ch.data + behind, ch.size)
  }

  /**
    From broadcast() to observe(). Whatever was in the entry before, and whatever lies behind the
    advertisement in the buffer of the receiver, a message that fits is observed as it was sent.
   */
  lemma SentIsObserved(msg: Message, channel: byte, buffer: seq<byte>, behind: seq<byte>, ch: Channel, rssi: int,
                      sent: nat, looked: nat)
    requires !msg.Nothing? && AllEncodable(Values(msg)) && |Payload(msg)| <= MAX_SIZE
    requires OVERHEAD + MAX_SIZE <= |buffer| && Packet(Payload(msg), channel) <= buffer
    requires Int8(ch.rssi) && -127 <= rssi <= 127 && sent < U32 && looked < U32 && ch.timestamp < U32
    requires Elapsed(looked, sent) <= TIMEOUT && REACH <= |behind|
    requires ch.rssi == MARKER ==> Elapsed(sent, ch.timestamp) >= WINDOW
    ensures buffer[1] == MFG_SPECIFIC && buffer[2..4] == LEGO_CID && buffer[4] == channel
    ensures var got := Sampled(ch, RecordedSize(buffer[0]), buffer[OVERHEAD..OVERHEAD + MAX_SIZE], rssi, sent);
            && Refreshed(got, looked) == got
            && Observed(got, behind) == Ok(msg)
  {
    PacketInBuffer(Payload(msg), channel, buffer);
    CopyDecodes(msg, buffer[OVERHEAD..OVERHEAD + MAX_SIZE], behind);
    SampledIsFresh(ch, RecordedSize(buffer[0]), buffer[OVERHEAD..OVERHEAD + MAX_SIZE], rssi, sent, looked);
  }

  lemma CopyDecodes(msg: Message, data: seq<byte>, behind: seq<byte>)
    requires !msg.Nothing? && AllEncodable(Values(msg)) && |Payload(msg)| <= MAX_SIZE == |data|
    requires data[..|Payload(msg)|] == Payload(msg) && REACH <= |behind|
    ensures DecodePayload(data + behind, |Payload(msg)|) == Ok(msg)
  {
    assert (data + behind)[..|Payload(msg)|] == data[..|Payload(msg)|];
    PayloadRoundTrip(msg, data + behind);
  }

  lemma SampledIsFresh(ch: Channel, size: byte, data: seq<byte>, rssi: int, sent: nat, looked: nat)
    requires Int8(ch.rssi) && -127 <= rssi <= 127 && sent < U32 && looked < U32 && ch.timestamp < U32
    requires Elapsed(looked, sent) <= TIMEOUT
    requires ch.rssi == MARKER ==> Elapsed(sent, ch.timestamp) >= WINDOW
    ensures var got := Sampled(ch, size, data, rssi, sent);
            got.rssi != MARKER && Refreshed(got, looked) == got
  {
    SampleTimestamp(ch.timestamp, sent);
    UnmarkedBySample(ch.rssi, rssi, Elapsed(sent, ch.timestamp));
  }

  lemma PacketInBuffer(payload: seq<byte>, channel: byte, buffer: seq<byte>)
    requires |payload| <= MAX_SIZE && OVERHEAD + MAX_SIZE <= |buffer| && Packet(payload, channel) <= buffer
    ensures RecordedSize(buffer[0]) == |payload|
    ensures buffer[1] == MFG_SPECIFIC && buffer[2..4] == LEGO_CID && buffer[4] == channel
    ensures buffer[OVERHEAD..OVERHEAD + MAX_SIZE][..|payload|] == payload
  {
    var packet := Packet(payload, channel);
    assert buffer[..|packet|] == packet;
    assert buffer[0] == packet[0] && buffer[1] == packet[1] && buffer[4] == packet[4];
    assert buffer[2..4] == packet[2..4] == LEGO_CID;
    assert buffer[OVERHEAD..OVERHEAD + MAX_SIZE][..|payload|] == buffer[..|packet|][OVERHEAD..];
    assert packet[OVERHEAD..] == payload;
  }

  /** Adding the elapsed ticks to the timestamp gives the reading of the clock. */
  lemma SampleTimestamp(timestamp: nat, now: nat)
    requires timestamp < U32 && now < U32
    ensures (timestamp + Elapsed(now, timestamp)) % U32 == now
  {
  }
}
