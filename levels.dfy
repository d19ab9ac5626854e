/** The level arithmetic of the main screen (App/ui/main.c): the integer
    logarithm behind the microphone bar, the bar's rise-at-once and
    fall-slowly smoothing, the clamp of the displayed RSSI, the clamp of a
    level bar to its length with its last four segments hollow, and the
    small antenna's bars. The pixels themselves are not part of this
    model. */
module Levels {
  import opened Common
  import Display

  /* ---------------------------------------------------------------------
     log2_approx.
     --------------------------------------------------------------------- */

  function Pow2(n: nat): (r: nat)
    ensures r >= 1
  {
    if n == 0 then 1 else 2 * Pow2(n - 1)
  }

  /** floor(log2 v), and 0 for 0. */
  function Log2(v: nat): nat
  {
    if v <= 1 then 0 else 1 + Log2(v / 2)
  }

  /** Log2 is the floor of the logarithm: 2^log <= v < 2^(log+1). */
  lemma {:induction false} Log2Bounds(v: nat)
    requires v >= 1
    ensures Pow2(Log2(v)) <= v < Pow2(Log2(v) + 1)
  {
    if v > 1 {
      Log2Bounds(v / 2);
    }
  }

  lemma {:induction false} Log2Monotone(a: nat, b: nat)
    requires a <= b
    ensures Log2(a) <= Log2(b)
  {
    if a > 1 {
      Log2Monotone(a / 2, b / 2);
    }
  }

  /** log2_approx: shifts right until nothing is left, counting the
      shifts that left something. */
  method Log2Approx(value: nat) returns (log: nat)
    ensures log == Log2(value)
    ensures value == 0 ==> log == 0
    ensures value >= 1 ==> Pow2(log) <= value < Pow2(log + 1)
  {
    log := 0;
    var v: nat := value / 2;
    while v != 0
      invariant Log2(value) == log + (if v == 0 then 0 else 1 + Log2(v))
      decreases v
    {
      log := log + 1;
      v := v / 2;
    }
    if value >= 1 {
      Log2Bounds(value);
    }
  }

  /* ---------------------------------------------------------------------
     UI_DisplayAudioBar.
     --------------------------------------------------------------------- */

  const Threshold: nat := 18
  const BarsList: seq<nat> := [0, 0, 0, 1, 2, 3, 5, 7, 9, 12, 15, 18, 21, 25, 25, 25]
  const AudioBarLength: nat := 25
  const LogCap: nat := 32768

  /** The amplitude above the threshold. */
  function AboveThreshold(amplitude: nat): nat
  {
    if amplitude >= Threshold then amplitude - Threshold else 0
  }

  /** logLevel: log2_approx(MIN(voiceLevel * 16, 32768) + 1); its argument
      is at most 32769, so it indexes inside barsList. */
  function LogLevel(amplitude: nat): (r: nat)
    ensures r < |BarsList|
  {
    var arg := Min(AboveThreshold(amplitude) * 16, LogCap) + 1;
    LogArgument(arg);
    Log2(arg)
  }

  /** Arguments up to 32769 have a logarithm of at most 15. */
  lemma LogArgument(arg: nat)
    requires 1 <= arg <= LogCap + 1
    ensures Log2(arg) < 16
  {
    Log2Monotone(arg, LogCap + 1);
    Log2Top();
  }

  /** log2_approx(32769) is 15. */
  lemma Log2Top()
    ensures Log2(LogCap + 1) == 15
  {
    assert Log2(2) == 1;
    assert Log2(4) == 2;
    assert Log2(8) == 3;
    assert Log2(16) == 4;
    assert Log2(32) == 5;
    assert Log2(64) == 6;
    assert Log2(128) == 7;
    assert Log2(256) == 8;
    assert Log2(512) == 9;
    assert Log2(1024) == 10;
    assert Log2(2048) == 11;
    assert Log2(4096) == 12;
    assert Log2(8192) == 13;
    assert Log2(16384) == 14;
  }

  /** bars: the microphone level on the 25-segment bar. */
  function AudioBars(amplitude: nat): (r: nat)
    ensures r <= AudioBarLength
  {
    BarsList[LogLevel(amplitude)]
  }

  /** The bar stays empty exactly up to the threshold of 18. */
  lemma SilenceBelowThreshold(amplitude: nat)
    ensures AudioBars(amplitude) == 0 <==> amplitude <= Threshold
  {
    if amplitude > Threshold {
      var arg := Min(AboveThreshold(amplitude) * 16, LogCap) + 1;
      Log2Monotone(17, arg);
      assert Log2(17) == 4;
    }
  }

  /** A louder voice never shows fewer bars. */
  lemma AudioBarsMonotone(a: nat, b: nat)
    requires a <= b
    ensures AudioBars(a) <= AudioBars(b)
  {
    Log2Monotone(Min(AboveThreshold(a) * 16, LogCap) + 1, Min(AboveThreshold(b) * 16, LogCap) + 1);
  }

  /** From 18 + 2048 on the bar is full. */
  lemma AudioBarsSaturate(amplitude: nat)
    requires amplitude >= Threshold + LogCap / 16
    ensures AudioBars(amplitude) == AudioBarLength
  {
    assert Min(AboveThreshold(amplitude) * 16, LogCap) + 1 == LogCap + 1;
    Log2Top();
  }

  /** barsOld's update: rise at once, fall one segment per update. The
      subtraction is done on promoted ints, so it never wraps. */
  function Smoothed(barsOld: nat, bars: nat): (r: nat)
    ensures r >= bars && r + 1 >= barsOld && r <= Max(barsOld, bars)
    ensures bars + 1 >= barsOld ==> r == bars
  {
    if barsOld - bars > 1 then barsOld - 1 else bars
  }

  /** k updates at a constant level. */
  function SmoothedFor(barsOld: nat, bars: nat, k: nat): nat
  {
    if k == 0 then barsOld else Smoothed(SmoothedFor(barsOld, bars, k - 1), bars)
  }

  /** Falling from a higher value, the bar is max(old - k, level) after k
      updates: it reaches the level after old - level updates. */
  lemma {:induction false} Decay(barsOld: nat, bars: nat, k: nat)
    requires bars <= barsOld
    ensures SmoothedFor(barsOld, bars, k) == Max(barsOld - k, bars)
  {
    if k > 0 {
      Decay(barsOld, bars, k - 1);
      var before := SmoothedFor(barsOld, bars, k - 1);
      assert SmoothedFor(barsOld, bars, k) == Smoothed(before, bars);
      assert Smoothed(before, bars) == if before - bars > 1 then before - 1 else bars;
    }
  }

  /** What UI_DisplayAudioBar checks before it touches barsOld:
      gSetting_mic_bar, the low-battery confirmation, transmitting on the
      main screen, no alarm. */
  datatype AudioGate = AudioGate(micBar: bool, lowBattery: bool, lowBatteryConfirmed: bool,
                                 transmitting: bool, screen: Display.Screen, alarmOff: bool)

  predicate Shown(g: AudioGate)
  {
    g.micBar && !(g.lowBattery && !g.lowBatteryConfirmed) && g.transmitting && g.screen == Display.Main && g.alarmOff
  }

  /** The static barsOld of UI_DisplayAudioBar. */
  class AudioBar {
    var barsOld: nat

    predicate Valid()
      reads this
    {
      barsOld <= AudioBarLength
    }

    constructor ()
      ensures barsOld == 0 && Valid()
    {
      barsOld := 0;
    }

    /** UI_DisplayAudioBar with the amplitude read from the chip: returns
        the number of segments drawn, None when the bar is not shown. */
    method Display(gate: AudioGate, amplitude: nat) returns (drawn: Option<nat>)
      requires Valid()
      modifies this
      ensures Valid()
      ensures Shown(gate) ==> barsOld == Smoothed(old(barsOld), AudioBars(amplitude)) && drawn == Some(barsOld)
      ensures !Shown(gate) ==> barsOld == old(barsOld) && drawn == None
    {
      if !Shown(gate) {
        return None;
      }
      var voiceLevel := AboveThreshold(amplitude);
      var logLevel := Log2Approx(Min(voiceLevel * 16, LogCap) + 1);
      assert logLevel == LogLevel(amplitude);
      var bars := BarsList[logLevel];
      barsOld := if barsOld - bars > 1 then barsOld - 1 else bars;
      var segments := DrawLevelBar(barsOld, AudioBarLength);
      drawn := Some(|segments|);
    }
  }

  /* ---------------------------------------------------------------------
     DrawLevelBar, DisplayRSSIBar, DrawSmallAntennaAndBars.
     --------------------------------------------------------------------- */

  datatype Segment = Solid | Hollow

  /** DrawLevelBar: level clamped to the bar's length, each segment solid
      but the last four positions of the bar, which are hollow. The graded
      solid segment drawn when gSetting_set_met is set has the same
      solid/hollow split, so both styles are this one `Solid`. */
  method DrawLevelBar(level: nat, bars: nat) returns (segments: seq<Segment>)
    ensures |segments| == Min(level, bars) && |segments| <= bars && |segments| <= level
    ensures level <= bars ==> |segments| == level
    ensures forall i :: 0 <= i < |segments| ==> (segments[i] == Solid <==> i + 4 < bars)
  {
    var n := Min(level, bars);
    segments := [];
    for i := 0 to n
      invariant |segments| == i
      invariant forall j :: 0 <= j < i ==> (segments[j] == Solid <==> j + 4 < bars)
    {
      if i < bars - 4 {
        segments := segments + [Solid];
      } else {
        segments := segments + [Hollow];
      }
    }
  }

  const RssiWeakest: int := 141
  const RssiStrongest: int := 53
  const RssiBarLength: nat := 13

  /** dBmCorrTable, band 1 to band 7 at indices 0 to 6. */
  const CorrectionTable: seq<int> := [-15, -25, -20, -4, -7, -6, -1]

  /** The displayed RSSI magnitude: the corrected reading negated and
      clamped to [53, 141]. */
  function RssiMagnitude(rssiDbm: int, band: nat): (r: int)
    requires band < |CorrectionTable|
  {
    var m := -(rssiDbm + CorrectionTable[band]);
    if m > RssiWeakest then RssiWeakest else if m < RssiStrongest then RssiStrongest else m
  }

  /** The magnitude stays in [53, 141], equals the corrected reading's
      magnitude inside that range, and a stronger signal never shows a
      larger magnitude. */
  lemma RssiClamp(rssiDbm: int, stronger: int, band: nat)
    requires band < |CorrectionTable| && rssiDbm <= stronger
    ensures RssiStrongest <= RssiMagnitude(rssiDbm, band) <= RssiWeakest
    ensures var m := -(rssiDbm + CorrectionTable[band]);
      RssiStrongest <= m <= RssiWeakest ==> RssiMagnitude(rssiDbm, band) == m
    ensures RssiMagnitude(stronger, band) <= RssiMagnitude(rssiDbm, band)
  {
  }

  const AntennaMax: nat := 6

  /** One antenna bar's column byte: (0xff << (6 - i)) & 0x7F. */
  function AntennaBar(i: nat): bv8
    requires 1 <= i <= AntennaMax
  {
    (((0xFF as bv16) << (AntennaMax - i)) & 0x7F) as bv8
  }

  predicate RowLit(column: bv8, row: nat)
    requires row < 8
  {
    column & ((1 as bv8) << row) != 0
  }

  /** Bar i lights rows 6 - i to 6: each bar one pixel taller than the
      one before, all standing on row 6. */
  lemma AntennaBarRows(i: nat, row: nat)
    requires 1 <= i <= AntennaMax && row < 8
    ensures RowLit(AntennaBar(i), row) <==> AntennaMax - i <= row <= AntennaMax
  {
    if i == 1 { assert AntennaBar(i) == 0x60; }
    else if i == 2 { assert AntennaBar(i) == 0x70; }
    else if i == 3 { assert AntennaBar(i) == 0x78; }
    else if i == 4 { assert AntennaBar(i) == 0x7C; }
    else if i == 5 { assert AntennaBar(i) == 0x7E; }
    else { assert AntennaBar(i) == 0x7F; }
  }

  /** DrawSmallAntennaAndBars: the level clamped to 6, then bar i (from
      1) lights rows 6 - i to 6. */
  method DrawSmallAntennaAndBars(level: nat) returns (columns: seq<bv8>)
    ensures |columns| == Min(level, AntennaMax)
    ensures forall i, row :: 0 <= i < |columns| && 0 <= row < 8 ==>
      (RowLit(columns[i], row) <==> AntennaMax - (i + 1) <= row <= AntennaMax)
  {
    var n := if level > AntennaMax then AntennaMax else level;
    columns := [];
    for i := 1 to n + 1
      invariant |columns| == i - 1
      invariant forall j, row :: 0 <= j < |columns| && 0 <= row < 8 ==>
        (RowLit(columns[j], row) <==> AntennaMax - (j + 1) <= row <= AntennaMax)
    {
      var bar := AntennaBar(i);
      forall row | 0 <= row < 8
        ensures RowLit(bar, row) <==> AntennaMax - i <= row <= AntennaMax
      {
        AntennaBarRows(i, row);
      }
      columns := columns + [bar];
    }
  }

  /** The transmit level: OUTPUT_POWER - 1 stored in an int8_t; nothing is
      drawn when it is negative. */
  function Int8(v: int): int
    requires -128 <= v < 256
  {
    if v >= 128 then v - 256 else v
  }

  function TxLevel(outputPower: nat): (r: int)
    requires outputPower < 256
  {
    Int8(outputPower - 1)
  }

  /** Every power from LOW1 (1) to HIGH (7) draws 0 to 6 antenna bars, one
      more per step, so the clamp to 6 never cuts; the USER setting (0)
      draws no antenna at all. */
  lemma TxLevelInRange(outputPower: nat)
    requires outputPower < 256
    ensures 1 <= outputPower <= 7 ==> 0 <= TxLevel(outputPower) <= AntennaMax && TxLevel(outputPower) == outputPower - 1
    ensures outputPower == 0 ==> TxLevel(outputPower) < 0
  {
  }
}
