/** daynightd.c: brightness estimation, the ten-sample window, hysteresis, forced changes and the transition delay. */
module DayNight {
  import opened Options

  datatype Mode =
    | Day
    | Night
    | Unknown

  /** BRIGHTNESS_SAMPLES. */
  const SAMPLES: nat := 10

  /** The fixed part of `daynight_config_t`. */
  datatype Config = Config(low: real, high: real, hysteresis: real, delay: int)

  // ---- one brightness sample ----

  /** What the ISP file holds; absent numbers are -1. */
  datatype Isp = Isp(integration: int, maxIntegration: int, analogGain: int, digitalGain: int, setting: int,
                     mode: string)

  /** The three sources of a sample. */
  datatype Reading = Reading(isp: Option<Isp>, script: Option<Mode>, hour: nat)

  function Clamp(b: real): real {
    if b < 0.0 then 0.0 else if b > 100.0 then 100.0 else b
  }

  /** `calculate_brightness_from_isp`; negative when it yields nothing. */
  function FromIsp(isp: Option<Isp>): real {
    match isp
    case None => -1.0
    case Some(i) =>
      if i.integration >= 0 && i.maxIntegration > 0 then
        var open := (1.0 - i.integration as real / i.maxIntegration as real) * 100.0;
        var b := if i.analogGain >= 0 then open / (1.0 + i.analogGain as real / 160.0) else open;
        Clamp(if i.digitalGain > 0 then b / (1.0 + i.digitalGain as real / 80.0) else b)
      else if i.setting >= 0 then i.setting as real / 255.0 * 100.0
      else if i.mode == "Day" then 75.0
      else if i.mode == "Night" then 25.0
      else -1.0
  }

  /** `calculate_brightness_thingino` up to the window: the ISP, then the script, then the hour. */
  function Estimate(r: Reading): real {
    var b := FromIsp(r.isp);
    if b >= 0.0 then b
    else
      match r.script
      case Some(Day) => 80.0
      case Some(Night) => 20.0
      case _ => if 6 <= r.hour <= 18 then 70.0 else 25.0
  }

  /** The estimate falls back on the raw ISP setting. */
  predicate UsesSetting(r: Reading) {
    r.isp.Some? && !(r.isp.value.integration >= 0 && r.isp.value.maxIntegration > 0) && r.isp.value.setting >= 0
  }

  /** An estimate is never negative, and a percentage except where a raw setting exceeds one byte. */
  lemma EstimateIsPercentage(r: Reading)
    ensures Estimate(r) >= 0.0
    ensures Estimate(r) <= 100.0 <==> !(UsesSetting(r) && r.isp.value.setting > 255)
  {
    if UsesSetting(r) {
      var n := r.isp.value.setting;
      assert n > 255 <==> n as real > 255.0;
    }
  }

  /** What a gain divides by. */
  function Factor(gain: int, full: real): (f: real)
    requires full > 0.0
    ensures f >= 1.0
  {
    1.0 + (if gain > 0 then gain as real / full else 0.0)
  }

  /**
   With exposure data, the estimate times both gain factors is the unused share of the longest exposure, in percent:
   the darker the scene, the longer the exposure and the higher the gains, and the lower the estimate.
   */
  lemma EstimateOfExposure(i: Isp)
    requires 0 <= i.integration <= i.maxIntegration && i.maxIntegration > 0
    ensures FromIsp(Some(i)) * Factor(i.digitalGain, 80.0) * Factor(i.analogGain, 160.0) * i.maxIntegration as real
         == 100.0 * (i.maxIntegration - i.integration) as real
  {
    var n, m := i.integration as real, i.maxIntegration as real;
    var f, g := Factor(i.analogGain, 160.0), Factor(i.digitalGain, 80.0);
    var open := (1.0 - n / m) * 100.0;
    ShareOf(n, m);
    QuotientTimes(open, f);
    QuotientTimes(open / f, g);
    QuotientBounds(open, f);
    QuotientBounds(open / f, g);
    assert FromIsp(Some(i)) == open / f / g;
  }

  lemma QuotientFalls(a: real, b: real, f: real, g: real)
    requires a >= b >= 0.0 && 1.0 <= f <= g
    ensures a / f >= b / g >= 0.0
  {
    var p, q := a / f, b / g;
    QuotientTimes(a, f);
    QuotientTimes(b, g);
    NotNegative(p, f, a);
    NotNegative(q, g, b);
    if p < q {
      ProductsGrow(p, q, f, g);
    }
  }

  lemma NotNegative(p: real, f: real, a: real)
    requires f >= 1.0 && p * f == a && a >= 0.0
    ensures p >= 0.0
  {
  }

  lemma ProductsGrow(p: real, q: real, f: real, g: real)
    requires 0.0 <= p < q && 1.0 <= f <= g
    ensures p * f < q * g
  {
    assert p * f <= p * g;
    assert p * g < q * g;
  }

  /** The exposure before any gain is taken off. */
  function Unused(i: Isp): real
    requires i.maxIntegration > 0
  {
    (1.0 - i.integration as real / i.maxIntegration as real) * 100.0
  }

  lemma FromIspIs(i: Isp)
    requires i.integration >= 0 && i.maxIntegration > 0
    ensures FromIsp(Some(i)) == Clamp(Unused(i) / Factor(i.analogGain, 160.0) / Factor(i.digitalGain, 80.0))
  {
  }

  lemma NegativeQuotient(a: real, f: real)
    requires a < 0.0 && f >= 1.0
    ensures a / f < 0.0
  {
  }

  /** A longer exposure or a higher gain never raises the estimate. */
  lemma EstimateFalls(a: Isp, b: Isp)
    requires 0 <= a.integration <= b.integration && a.maxIntegration == b.maxIntegration > 0
    requires a.analogGain <= b.analogGain && a.digitalGain <= b.digitalGain
    ensures FromIsp(Some(a)) >= FromIsp(Some(b))
  {
    hide FromIsp, Unused, Factor;
    FromIspIs(a);
    FromIspIs(b);
    UnusedFalls(a, b);
    FactorRises(a.analogGain, b.analogGain, 160.0);
    FactorRises(a.digitalGain, b.digitalGain, 80.0);
    var f, g := Factor(a.analogGain, 160.0), Factor(b.analogGain, 160.0);
    if Unused(b) < 0.0 {
      NegativeQuotient(Unused(b), g);
      NegativeQuotient(Unused(b) / g, Factor(b.digitalGain, 80.0));
    } else {
      QuotientFalls(Unused(a), Unused(b), f, g);
      QuotientFalls(Unused(a) / f, Unused(b) / g, Factor(a.digitalGain, 80.0), Factor(b.digitalGain, 80.0));
    }
  }

  lemma UnusedFalls(a: Isp, b: Isp)
    requires a.integration <= b.integration && a.maxIntegration == b.maxIntegration > 0
    ensures Unused(a) >= Unused(b)
  {
    var m := a.maxIntegration as real;
    assert a.integration as real / m <= b.integration as real / m;
  }

  lemma FactorRises(g: int, h: int, full: real)
    requires g <= h && full > 0.0
    ensures 1.0 <= Factor(g, full) <= Factor(h, full)
  {
    assert g > 0 ==> g as real / full <= h as real / full;
  }

  lemma ShareOf(n: real, m: real)
    requires 0.0 <= n <= m && m > 0.0
    ensures (1.0 - n / m) * 100.0 * m == 100.0 * (m - n) && 0.0 <= (1.0 - n / m) * 100.0 <= 100.0
  {
    var q := n / m;
    assert q * m == n;
    assert 0.0 <= q <= 1.0;
  }

  lemma QuotientTimes(a: real, b: real)
    requires b >= 1.0
    ensures a / b * b == a
  {
  }

  lemma QuotientBounds(a: real, b: real)
    requires 0.0 <= a <= 100.0 && b >= 1.0
    ensures 0.0 <= a / b <= 100.0
  {
  }

  /** What the coarser answers stand for. */
  lemma AnswersStandFor(r: Reading, i: Isp)
    requires i.integration < 0 && i.setting < 0
    ensures i.mode == "Day" ==> Estimate(r.(isp := Some(i))) == 75.0
    ensures i.mode == "Night" ==> Estimate(r.(isp := Some(i))) == 25.0
    ensures r.isp == None && r.script == Some(Day) ==> Estimate(r) == 80.0
    ensures r.isp == None && r.script == Some(Night) ==> Estimate(r) == 20.0
    ensures r.isp == None && r.script == None ==> Estimate(r) == if 6 <= r.hour <= 18 then 70.0 else 25.0
  {
  }

  // ---- the window ----

  function Sum(s: seq<real>): real {
    if s == [] then 0.0 else s[0] + Sum(s[1..])
  }

  lemma {:induction false} SumAppends(a: seq<real>, b: seq<real>)
    ensures Sum(a + b) == Sum(a) + Sum(b)
  {
    if a == [] {
      assert a + b == b;
    } else {
      assert (a + b)[1..] == a[1..] + b;
      SumAppends(a[1..], b);
    }
  }

  /** The mean of the last ten samples. */
  function Mean(seen: seq<real>): real
    requires |seen| >= SAMPLES
  {
    Sum(seen[|seen| - SAMPLES..]) / 10.0
  }

  predicate Percentages(s: seq<real>) {
    forall i | 0 <= i < |s| :: 0.0 <= s[i] <= 100.0
  }

  /** One more sample moves the mean by at most a tenth of the range. */
  lemma MeanMovesSlowly(seen: seq<real>, sample: real)
    requires |seen| >= SAMPLES && Percentages(seen) && 0.0 <= sample <= 100.0
    ensures -10.0 <= Mean(seen + [sample]) - Mean(seen) <= 10.0
  {
    var n := |seen| - SAMPLES;
    var kept := seen[n + 1..];
    assert seen[n..] == [seen[n]] + kept && (seen + [sample])[n + 1..] == kept + [sample];
    SumAppends([seen[n]], kept);
    SumAppends(kept, [sample]);
    SumOne(seen[n]);
    SumOne(sample);
  }

  lemma SumOne(x: real)
    ensures Sum([x]) == x
  {
    assert [x][1..] == [];
  }

  /** A ring holds the same ten samples as the end of the history, only rotated. */
  predicate Rotated(ring: seq<real>, index: nat, seen: seq<real>) {
    && |ring| == SAMPLES && index < SAMPLES && |seen| >= SAMPLES
    && seen[|seen| - SAMPLES..] == ring[index..] + ring[..index]
  }

  lemma RotatedMean(ring: seq<real>, index: nat, seen: seq<real>)
    requires Rotated(ring, index, seen)
    ensures Sum(ring) / 10.0 == Mean(seen)
  {
    SumAppends(ring[index..], ring[..index]);
    SumAppends(ring[..index], ring[index..]);
    assert ring == ring[..index] + ring[index..];
  }

  /** Overwriting the oldest slot keeps that relation. */
  lemma RotatedWrite(ring: seq<real>, index: nat, seen: seq<real>, sample: real)
    requires Rotated(ring, index, seen)
    ensures Rotated(ring[index := sample], (index + 1) % SAMPLES, seen + [sample])
  {
    var ring', next, seen' := ring[index := sample], (index + 1) % SAMPLES, seen + [sample];
    var last := seen'[|seen'| - SAMPLES..];
    assert last == seen[|seen| - SAMPLES..][1..] + [sample];
    if next == 0 {
      assert ring'[next..] + ring'[..next] == ring[..index] + [sample];
    } else {
      assert ring'[next..] + ring'[..next] == ring[index + 1..] + ring[..index] + [sample];
      assert (ring[index..] + ring[..index])[1..] == ring[index + 1..] + ring[..index];
    }
  }

  // ---- one turn of the main loop, on values ----

  /** All of the daemon's state; `seen` begins with the neutral samples of start-up. `last` is in microseconds. */
  datatype State = State(mode: Mode, pending: Mode, last: int, seen: seq<real>)

  /** What one turn meets: a sample, a signal that came in before it, the clock, and whether the script works. */
  datatype Input = Input(reading: Reading, signal: Mode, now: int, works: bool)

  const MICROS: int := 1_000_000

  /** The whole seconds that `timersub` leaves. */
  function Seconds(now: int, last: int): int {
    (now - last) / MICROS
  }

  /** A number of whole seconds has passed exactly if as many millions of microseconds have. */
  lemma SecondsExactly(now: int, last: int, delay: int)
    ensures Seconds(now, last) >= delay <==> now - last >= delay * 1_000_000
  {
  }

  function Target(cfg: Config, mode: Mode, mean: real): Mode {
    var range := (cfg.high - cfg.low) * cfg.hysteresis;
    match mode
    case Day => if mean < cfg.low then Night else Day
    case Night => if mean > cfg.high then Day else Night
    case Unknown => if mean < cfg.low + range then Night else if mean > cfg.high - range then Day else Unknown
  }

  /** Whether a change to `target` goes through. */
  predicate Allowed(cfg: Config, s: State, target: Mode, i: Input) {
    && target != s.mode && target != Unknown && i.works
    && (s.mode == Unknown || Seconds(i.now, s.last) >= cfg.delay)
  }

  function Pending(s: State, i: Input): Mode {
    if i.signal != Unknown then i.signal else s.pending
  }

  function Next(cfg: Config, s: State, i: Input): State
    requires |s.seen| >= SAMPLES
  {
    var seen := s.seen + [Estimate(i.reading)];
    var forced := Pending(s, i);
    var target := if forced != Unknown then forced else Target(cfg, s.mode, Mean(seen));
    if Allowed(cfg, s, target, i) then State(target, Unknown, i.now, seen) else State(s.mode, Unknown, s.last, seen)
  }

  const NEUTRAL: State := State(Unknown, Unknown, 0, [50.0, 50.0, 50.0, 50.0, 50.0, 50.0, 50.0, 50.0, 50.0, 50.0])

  /** The state after the first `n` turns. */
  function After(cfg: Config, inputs: seq<Input>, n: nat): (s: State)
    requires n <= |inputs|
    ensures |s.seen| == SAMPLES + n
  {
    if n == 0 then NEUTRAL else Next(cfg, After(cfg, inputs, n - 1), inputs[n - 1])
  }

  /** Turn `n` changes the mode. */
  predicate Switches(cfg: Config, inputs: seq<Input>, n: nat)
    requires n < |inputs|
  {
    After(cfg, inputs, n + 1).mode != After(cfg, inputs, n).mode
  }

  /** Turn `n` changes the mode from `a` to `b` without a signal. */
  predicate SwitchesUnforced(cfg: Config, inputs: seq<Input>, n: nat, a: Mode, b: Mode)
    requires n < |inputs|
  {
    After(cfg, inputs, n).mode == a && After(cfg, inputs, n + 1).mode == b && a != b
    && Pending(After(cfg, inputs, n), inputs[n]) == Unknown
  }

  predicate Monotone(inputs: seq<Input>) {
    forall i, j | 0 <= i <= j < |inputs| :: inputs[i].now <= inputs[j].now
  }

  // ---- dwell times ----

  /** After a switch the mode stays known, and the recorded time is that of this switch or a later one. */
  lemma {:induction false} LastIsRecent(cfg: Config, inputs: seq<Input>, i: nat, n: nat)
    requires Monotone(inputs) && i < n <= |inputs| && Switches(cfg, inputs, i)
    ensures After(cfg, inputs, n).mode != Unknown
    ensures After(cfg, inputs, n).last >= inputs[i].now
    decreases n
  {
    hide Estimate, Target, Mean;
    if n > i + 1 {
      LastIsRecent(cfg, inputs, i, n - 1);
    }
  }

  /** Any two switches, forced or not, are at least the transition delay apart. */
  lemma SwitchesKeepDelay(cfg: Config, inputs: seq<Input>, i: nat, j: nat)
    requires Monotone(inputs) && i < j < |inputs|
    requires Switches(cfg, inputs, i) && Switches(cfg, inputs, j)
    ensures inputs[j].now - inputs[i].now >= cfg.delay * 1_000_000
  {
    hide Estimate, Target, Mean;
    LastIsRecent(cfg, inputs, i, j);
  }

  lemma {:induction false} SeenArePercentages(cfg: Config, inputs: seq<Input>, n: nat)
    requires n <= |inputs| && forall k | 0 <= k < |inputs| :: Estimate(inputs[k].reading) <= 100.0
    ensures Percentages(After(cfg, inputs, n).seen)
  {
    hide Estimate, Target, Mean;
    if n > 0 {
      SeenArePercentages(cfg, inputs, n - 1);
      EstimateIsPercentage(inputs[n - 1].reading);
    }
  }

  lemma {:induction false} MeanDrift(cfg: Config, inputs: seq<Input>, i: nat, j: nat)
    requires i <= j <= |inputs| && forall k | 0 <= k < |inputs| :: Estimate(inputs[k].reading) <= 100.0
    ensures Mean(After(cfg, inputs, j).seen) - Mean(After(cfg, inputs, i).seen) <= 10.0 * (j - i) as real
    ensures Mean(After(cfg, inputs, i).seen) - Mean(After(cfg, inputs, j).seen) <= 10.0 * (j - i) as real
    decreases j
  {
    hide Estimate, Target, Mean;
    if i < j {
      MeanDrift(cfg, inputs, i, j - 1);
      SeenArePercentages(cfg, inputs, j - 1);
      EstimateIsPercentage(inputs[j - 1].reading);
      MeanMovesSlowly(After(cfg, inputs, j - 1).seen, Estimate(inputs[j - 1].reading));
    }
  }

  /** Light alone cannot bring the day back, or end it again, faster than the window lets the mean cross the gap. */
  lemma UnforcedSwitchesAreApart(cfg: Config, inputs: seq<Input>, i: nat, j: nat, a: Mode, b: Mode)
    requires forall k | 0 <= k < |inputs| :: Estimate(inputs[k].reading) <= 100.0
    requires i < j < |inputs| && a != Unknown && b != Unknown
    requires SwitchesUnforced(cfg, inputs, i, a, b) && SwitchesUnforced(cfg, inputs, j, b, a)
    ensures (j - i) as real > (cfg.high - cfg.low) / 10.0
  {
    hide Estimate, Mean;
    MeanDrift(cfg, inputs, i + 1, j + 1);
  }

  // ---- response ----

  lemma {:induction false} SeenAt(cfg: Config, inputs: seq<Input>, n: nat, k: nat)
    requires k < n <= |inputs|
    ensures After(cfg, inputs, n).seen[SAMPLES + k] == Estimate(inputs[k].reading)
    decreases n
  {
    hide Estimate, Target, Mean;
    if k < n - 1 {
      SeenAt(cfg, inputs, n - 1, k);
    }
  }

  lemma {:induction false} SumAbove(s: seq<real>, bound: real)
    requires s != [] && forall k | 0 <= k < |s| :: s[k] > bound
    ensures Sum(s) > bound * |s| as real
  {
    if |s| > 1 {
      SumAbove(s[1..], bound);
    } else {
      SumOne(s[0]);
      assert s == [s[0]];
    }
  }

  lemma {:induction false} SumBelow(s: seq<real>, bound: real)
    requires s != [] && forall k | 0 <= k < |s| :: s[k] < bound
    ensures Sum(s) < bound * |s| as real
  {
    if |s| > 1 {
      SumBelow(s[1..], bound);
    } else {
      SumOne(s[0]);
      assert s == [s[0]];
    }
  }

  /** Ten dark samples in a row end the day, once the delay has passed and the script works. */
  lemma TenDarkSamplesEndTheDay(cfg: Config, inputs: seq<Input>, n: nat)
    requires SAMPLES <= n + 1 <= |inputs|
    requires forall k | n + 1 - SAMPLES <= k <= n :: Estimate(inputs[k].reading) < cfg.low
    requires var s := After(cfg, inputs, n);
             s.mode == Day && Pending(s, inputs[n]) == Unknown && inputs[n].works
             && inputs[n].now - s.last >= cfg.delay * 1_000_000
    ensures After(cfg, inputs, n + 1).mode == Night
  {
    hide Estimate, Seconds;
    SecondsExactly(inputs[n].now, After(cfg, inputs, n).last, cfg.delay);
    var seen := After(cfg, inputs, n + 1).seen;
    var last := seen[n + 1..];
    forall k | 0 <= k < SAMPLES ensures last[k] < cfg.low {
      SeenAt(cfg, inputs, n + 1, n + 1 - SAMPLES + k);
    }
    SumBelow(last, cfg.low);
  }

  /** Ten bright samples in a row end the night, under the same conditions. */
  lemma TenBrightSamplesEndTheNight(cfg: Config, inputs: seq<Input>, n: nat)
    requires SAMPLES <= n + 1 <= |inputs|
    requires forall k | n + 1 - SAMPLES <= k <= n :: Estimate(inputs[k].reading) > cfg.high
    requires var s := After(cfg, inputs, n);
             s.mode == Night && Pending(s, inputs[n]) == Unknown && inputs[n].works
             && inputs[n].now - s.last >= cfg.delay * 1_000_000
    ensures After(cfg, inputs, n + 1).mode == Day
  {
    hide Estimate, Seconds;
    SecondsExactly(inputs[n].now, After(cfg, inputs, n).last, cfg.delay);
    var seen := After(cfg, inputs, n + 1).seen;
    var last := seen[n + 1..];
    forall k | 0 <= k < SAMPLES ensures last[k] > cfg.high {
      SeenAt(cfg, inputs, n + 1, n + 1 - SAMPLES + k);
    }
    SumAbove(last, cfg.high);
  }

  /**
   The first mode, with margins that do not cross: night exactly if the mean is nearer to the low threshold than the
   margin allows or below it, and day likewise at the high one.
   */
  lemma FirstMode(cfg: Config, inputs: seq<Input>, n: nat)
    requires n < |inputs| && inputs[n].signal == Unknown && inputs[n].works
    requires After(cfg, inputs, n).mode == Unknown && cfg.low < cfg.high && 0.0 <= cfg.hysteresis <= 0.5
    ensures var mean := Mean(After(cfg, inputs, n + 1).seen);
            var margin := (cfg.high - cfg.low) * cfg.hysteresis;
            && (After(cfg, inputs, n + 1).mode == Night <==> mean - cfg.low < margin)
            && (After(cfg, inputs, n + 1).mode == Day <==> cfg.high - mean < margin)
  {
    hide Estimate, Mean;
    NothingWaits(cfg, inputs, n);
    var margin := (cfg.high - cfg.low) * cfg.hysteresis;
    assert margin + margin <= cfg.high - cfg.low;
  }

  /**
   The later modes: with no signal, a working script and the delay over, day ends exactly if the mean is below the low
   threshold, and night exactly if it is above the high one.
   */
  lemma ThresholdsExactly(cfg: Config, inputs: seq<Input>, n: nat)
    requires n < |inputs| && inputs[n].signal == Unknown && inputs[n].works
    requires inputs[n].now - After(cfg, inputs, n).last >= cfg.delay * 1_000_000
    ensures var mean := Mean(After(cfg, inputs, n + 1).seen);
            var before, after := After(cfg, inputs, n).mode, After(cfg, inputs, n + 1).mode;
            && (before == Day ==> after == if mean < cfg.low then Night else Day)
            && (before == Night ==> after == if mean > cfg.high then Day else Night)
  {
    hide Estimate, Mean, Seconds;
    NothingWaits(cfg, inputs, n);
    SecondsExactly(inputs[n].now, After(cfg, inputs, n).last, cfg.delay);
  }

  // ---- forced changes ----

  /** Signals wait for one turn at most. */
  lemma NothingWaits(cfg: Config, inputs: seq<Input>, n: nat)
    requires n <= |inputs|
    ensures After(cfg, inputs, n).pending == Unknown
  {
    hide Estimate, Target, Mean;
  }

  /**
   A signal sets its mode exactly if that mode is already set, or the script works and either no mode was set before or
   the delay has passed. Otherwise it is lost: the mode stays, and no later turn knows of the signal.
   */
  lemma SignalIsObeyedOrLost(cfg: Config, inputs: seq<Input>, n: nat)
    requires n < |inputs| && inputs[n].signal != Unknown
    ensures var s, t, i := After(cfg, inputs, n), After(cfg, inputs, n + 1), inputs[n];
            && (t.mode == i.signal <==>
                  s.mode == i.signal || (i.works && (s.mode == Unknown || i.now - s.last >= cfg.delay * 1_000_000)))
            && (t.mode != i.signal ==> t == State(s.mode, Unknown, s.last, t.seen))
  {
    hide Estimate, Target, Mean, Seconds;
    SecondsExactly(inputs[n].now, After(cfg, inputs, n).last, cfg.delay);
  }

  // ---- the daemon ----

  class Daemon {
    const cfg: Config
    var mode: Mode
    var pending: Mode
    var last: int
    const history: array<real>
    var index: nat
    /** Every sample the window has held, the neutral ones first. */
    ghost var seen: seq<real>

    ghost predicate Valid()
      reads this, history
    {
      history.Length == SAMPLES && Rotated(history[..], index, seen)
      && forall k | 0 <= k < SAMPLES :: history[k] >= 0.0
    }

    ghost function Value(): State
      reads this
    {
      State(mode, pending, last, seen)
    }

    constructor (c: Config)
      ensures Valid() && Value() == NEUTRAL && cfg == c && fresh(history)
    {
      cfg := c;
      mode, pending, last := Unknown, Unknown, 0;
      history := new real[SAMPLES](_ => 50.0);
      index := 0;
      seen := NEUTRAL.seen;
      new;
      assert history[..] == NEUTRAL.seen;
    }

    /** The end of `calculate_brightness_thingino`: the new sample replaces the oldest. */
    method Record(sample: real)
      requires Valid() && sample >= 0.0
      modifies this`index, this`seen, history
      ensures Valid() && seen == old(seen) + [sample]
    {
      RotatedWrite(history[..], index, seen, sample);
      history[index] := sample;
      index := (index + 1) % SAMPLES;
      seen := seen + [sample];
    }

    /** The average in `main_loop`; entries below zero would be left out. */
    method Average(brightness: real) returns (avg: real)
      requires Valid()
      ensures avg == Mean(seen)
    {
      RotatedMean(history[..], index, seen);
      avg := 0.0;
      var count := 0;
      for i := 0 to SAMPLES
        invariant count == i && avg == Sum(history[..i])
      {
        if history[i] >= 0.0 {
          assert history[..i + 1] == history[..i] + [history[i]];
          SumAppends(history[..i], [history[i]]);
          SumOne(history[i]);
          avg, count := avg + history[i], count + 1;
        }
      }
      assert history[..SAMPLES] == history[..];
      avg := if count > 0 then avg / count as real else brightness;
    }

    /** `trigger_mode_change`; `works` is the outcome of the script. */
    method TriggerModeChange(target: Mode, now: int, works: bool) returns (ok: bool)
      requires target != Unknown
      modifies this`mode, this`last
      ensures var changed :=
                target != old(mode) && works && (old(mode) == Unknown || Seconds(now, old(last)) >= cfg.delay);
              && mode == (if changed then target else old(mode))
              && last == (if changed then now else old(last))
    {
      if target == mode {
        return true;
      }
      if mode != Unknown && Seconds(now, last) < cfg.delay {
        return true;
      }
      if works {
        mode, last := target, now;
      }
      return works;
    }

    /** One turn of `main_loop`. */
    method Turn(i: Input)
      requires Valid()
      modifies this, history
      ensures Valid() && Value() == Next(cfg, old(Value()), i)
    {
      hide Estimate, Mean, Seconds, Rotated;
      pending := if i.signal != Unknown then i.signal else pending;
      var brightness := Estimate(i.reading);
      EstimateIsPercentage(i.reading);
      Record(brightness);
      var avg := Average(brightness);
      var range := (cfg.high - cfg.low) * cfg.hysteresis;
      var target;
      match mode {
        case Day => target := if avg < cfg.low then Night else Day;
        case Night => target := if avg > cfg.high then Day else Night;
        case Unknown =>
          target := if avg < cfg.low + range then Night else if avg > cfg.high - range then Day else mode;
      }
      if pending != Unknown {
        target, pending := pending, Unknown;
      }
      if target != mode && target != Unknown {
        var _ := TriggerModeChange(target, i.now, i.works);
      }
    }

    /** `main_loop` over any run. */
    method MainLoop(inputs: seq<Input>)
      requires Valid() && Value() == NEUTRAL
      modifies this, history
      ensures Valid() && Value() == After(cfg, inputs, |inputs|)
    {
      hide Next;
      for n := 0 to |inputs|
        invariant Valid() && Value() == After(cfg, inputs, n)
      {
        Turn(inputs[n]);
      }
    }
  }
}
