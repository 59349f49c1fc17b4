/**
 * The firmware's output engine (`computeOutput_locked`): per frame and channel
 * the sources are merged, scaled by the master, limited, modulated by the
 * effect, and approached by at most one slew step.
 */
module Output {
  import opened Bytes

  const MAX_CH := 512
  const SAFE_MAX_LEVEL: Byte := 245
  const SAFE_SLEW_STEP: Byte := 18
  const BURN_SAFE_MAX_LEVEL: Byte := 96
  const BURN_SAFE_SLEW_STEP: Byte := 8

  type Levels = s: seq<Byte> | |s| == MAX_CH witness seq(MAX_CH, _ => 0)

  // ----- vizzz_core.h -----

  function ApplyMaster(value: Byte, master: Byte): Byte {
    if master >= 255 then value
    else
      ScaledBound(value, master);
      value as int * master as int / 0x100
  }

  lemma ScaledBound(value: int, master: int)
    requires 0 <= value && 0 <= master < 0x100
    ensures 0 <= value * master / 0x100 <= value
  {
    assert value * master <= value * 0x100;
  }

  function ClampLevel(value: Byte, ceiling: Byte): Byte {
    if value > ceiling then ceiling else value
  }

  function SlewToward(current: Byte, target: Byte, step: Byte): Byte {
    if step == 0 || current == target then target
    else if target > current then
      var next: int := current as int + step;
      if next > target then target else next
    else
      var down: int := target as int + step;
      if down < current then current - step else target
  }

  /** Slewing is clamping the target to one step around the current level; a step of 0 means no limit. */
  lemma SlewIsClamp(current: Byte, target: Byte, step: Byte)
    ensures SlewToward(current, target, step)
         == if step == 0 then target as int else Between(target, current as int - step, current as int + step)
  {
  }

  function Between(x: int, lo: int, hi: int): int
    requires lo <= hi
  {
    if x < lo then lo else if x > hi then hi else x
  }

  // ----- One frame -----

  datatype Mode = WebOnly | ArtNetOnly | MergeHtp

  /** What one frame is computed from. `fx` is the effect's level per channel, 255 when it is off. */
  datatype Frame = Frame(
    mode: Mode, master: Byte, burnSafe: bool, fallbackToWeb: bool, artNetActive: bool, sacnActive: bool,
    web: Levels, artNet: Levels, sacn: Levels, fx: Levels)

  function Ceiling(f: Frame): Byte {
    if f.burnSafe then BURN_SAFE_MAX_LEVEL else SAFE_MAX_LEVEL
  }

  function Step(f: Frame): Byte {
    if f.burnSafe then BURN_SAFE_SLEW_STEP else SAFE_SLEW_STEP
  }

  function Max(a: Byte, b: Byte): Byte {
    if a < b then b else a
  }

  /** The level of channel i from the network, 0 if nothing is heard. */
  function NetLevel(f: Frame, i: nat): Byte
    requires i < MAX_CH
  {
    if f.artNetActive && f.sacnActive then Max(f.artNet[i], f.sacn[i])
    else if f.artNetActive then f.artNet[i]
    else if f.sacnActive then f.sacn[i]
    else 0
  }

  /** The level of channel i before master, ceiling and effect; `last` is its last output. */
  function Merged(f: Frame, i: nat, last: Byte): Byte
    requires i < MAX_CH
  {
    var netActive := f.artNetActive || f.sacnActive;
    match f.mode
    case WebOnly => f.web[i]
    case ArtNetOnly => if netActive then NetLevel(f, i) else if f.fallbackToWeb then f.web[i] else last
    case MergeHtp => if netActive then Max(f.web[i], NetLevel(f, i)) else f.web[i]
  }

  /** The level channel i is to approach. */
  function Target(f: Frame, i: nat, last: Byte): Byte
    requires i < MAX_CH
  {
    ApplyMaster(ClampLevel(ApplyMaster(Merged(f, i, last), f.master), Ceiling(f)), f.fx[i])
  }

  function Channel(f: Frame, i: nat, last: Byte): Byte
    requires i < MAX_CH
  {
    SlewToward(last, Target(f, i, last), Step(f))
  }

  /** The output of the next frame. */
  function Next(f: Frame, out: Levels): Levels {
    seq(MAX_CH, i requires 0 <= i < MAX_CH => Channel(f, i, out[i]))
  }

  // ----- Every frame -----

  /** A target is never above the ceiling. */
  lemma TargetBelowCeiling(f: Frame, i: nat, last: Byte)
    requires i < MAX_CH
    ensures Target(f, i, last) <= Ceiling(f)
  {
    ScaledBound(ClampLevel(ApplyMaster(Merged(f, i, last), f.master), Ceiling(f)), f.fx[i]);
  }

  lemma ScaleMonotone(v: int, v': int, m: int, m': int)
    requires 0 <= v <= v' && 0 <= m <= m'
    ensures v * m / 0x100 <= v' * m' / 0x100
  {
    assert v * m <= v' * m by {
      assert (v' - v) * m >= 0;
    }
    assert v' * m <= v' * m' by {
      assert v' * (m' - m) >= 0;
    }
  }

  /** Scaling is monotone in the level and in the master, the step to full included. */
  lemma MasterMonotone(v: Byte, v': Byte, m: Byte, m': Byte)
    requires v <= v' && m <= m'
    ensures ApplyMaster(v, m) <= ApplyMaster(v', m')
  {
    ScaleMonotone(v, v', m, m');
    ScaledBound(v, m);
  }

  lemma SlewMonotone(c: Byte, c': Byte, t: Byte, t': Byte, step: Byte)
    requires c <= c' && t <= t' && step > 0
    ensures SlewToward(c, t, step) <= SlewToward(c', t', step)
  {
    SlewIsClamp(c, t, step);
    SlewIsClamp(c', t', step);
  }

  ghost predicate LevelsLe(a: Levels, b: Levels) {
    forall i :: 0 <= i < MAX_CH ==> a[i] <= b[i]
  }

  /** The frames differ at most in levels and master, and those of the first are no higher. */
  ghost predicate FrameLe(f: Frame, g: Frame) {
    && f == g.(master := f.master, web := f.web, artNet := f.artNet, sacn := f.sacn)
    && f.master <= g.master && LevelsLe(f.web, g.web) && LevelsLe(f.artNet, g.artNet) && LevelsLe(f.sacn, g.sacn)
  }

  lemma ChannelMonotone(f: Frame, g: Frame, i: nat, last: Byte, last': Byte)
    requires FrameLe(f, g) && i < MAX_CH && last <= last'
    ensures Channel(f, i, last) <= Channel(g, i, last')
  {
    var v, v' := Merged(f, i, last), Merged(g, i, last');
    assert v <= v';
    MasterMonotone(v, v', f.master, g.master);
    var c, c' := ClampLevel(ApplyMaster(v, f.master), Ceiling(f)), ClampLevel(ApplyMaster(v', g.master), Ceiling(g));
    MasterMonotone(c, c', f.fx[i], g.fx[i]);
    SlewMonotone(last, last', Target(f, i, last), Target(g, i, last'), Step(f));
  }

  // ----- Every run -----

  /** The output after a run of frames. */
  function Run(out: Levels, frames: seq<Frame>): Levels {
    if frames == [] then out else Next(frames[|frames| - 1], Run(out, frames[..|frames| - 1]))
  }

  const BLACKOUT: Levels := seq(MAX_CH, _ => 0)

  /**
   * Two runs with the same settings: if the levels and the master of one are
   * no higher at every frame, neither is any output of any frame.
   */
  lemma {:induction false} RunsMonotone(out: Levels, out': Levels, fs: seq<Frame>, gs: seq<Frame>)
    requires |fs| == |gs| && LevelsLe(out, out') && forall k :: 0 <= k < |fs| ==> FrameLe(fs[k], gs[k])
    ensures LevelsLe(Run(out, fs), Run(out', gs))
    decreases |fs|
  {
    if fs != [] {
      var n := |fs| - 1;
      RunsMonotone(out, out', fs[..n], gs[..n]);
      var a, b := Run(out, fs[..n]), Run(out', gs[..n]);
      hide Channel, FrameLe;
      forall i | 0 <= i < MAX_CH
        ensures Run(out, fs)[i] <= Run(out', gs)[i]
      {
        ChannelMonotone(fs[n], gs[n], i, a[i], b[i]);
      }
    }
  }

  /** One frame moves no channel by more than its step, and keeps the safe maximum. */
  lemma FrameIsSafe(f: Frame, out: Levels, i: nat)
    requires i < MAX_CH
    ensures -(Step(f) as int) <= Next(f, out)[i] as int - out[i] <= Step(f) as int
    ensures out[i] <= SAFE_MAX_LEVEL ==> Next(f, out)[i] <= SAFE_MAX_LEVEL
  {
    TargetBelowCeiling(f, i, out[i]);
    SlewIsClamp(out[i], Target(f, i, out[i]), Step(f));
    hide Target, SlewToward;
  }

  /** From boot no channel ever exceeds the safe maximum, whatever is switched in between. */
  lemma {:induction false} RunIsSafe(frames: seq<Frame>)
    ensures forall i :: 0 <= i < MAX_CH ==> Run(BLACKOUT, frames)[i] <= SAFE_MAX_LEVEL
    decreases |frames|
  {
    if frames != [] {
      var n := |frames| - 1;
      RunIsSafe(frames[..n]);
      hide Next;
      forall i | 0 <= i < MAX_CH
        ensures Run(BLACKOUT, frames)[i] <= SAFE_MAX_LEVEL
      {
        FrameIsSafe(frames[n], Run(BLACKOUT, frames[..n]), i);
      }
    }
  }

  /** The level after n frames that all aim at the same target. */
  function SlewTimes(start: Byte, target: Byte, step: Byte, n: nat): Byte {
    if n == 0 then start else SlewToward(SlewTimes(start, target, step, n - 1), target, step)
  }

  /** Many frames toward one target are one clamp, to as many steps around the start. */
  lemma {:induction false} SlewTimesIsClamp(start: Byte, target: Byte, step: Byte, n: nat)
    requires step > 0
    ensures 0 <= n * step
    ensures SlewTimes(start, target, step, n) == Between(target, start as int - n * step, start as int + n * step)
    decreases n
  {
    if n > 0 {
      SlewTimesIsClamp(start, target, step, n - 1);
      SlewIsClamp(SlewTimes(start, target, step, n - 1), target, step);
      assert n * step == (n - 1) * step + step;
      hide SlewToward;
    }
  }

  /** After n burn-safe frames a channel is at most 8n below where it was, or at the reduced maximum. */
  lemma {:induction false} BurnSafeDescends(out: Levels, frames: seq<Frame>, i: nat)
    requires i < MAX_CH && forall k :: 0 <= k < |frames| ==> frames[k].burnSafe
    ensures Run(out, frames)[i] <= BURN_SAFE_MAX_LEVEL || Run(out, frames)[i] as int <= out[i] as int - 8 * |frames|
    decreases |frames|
  {
    if frames != [] {
      var n := |frames| - 1;
      BurnSafeDescends(out, frames[..n], i);
      var f, last := frames[n], Run(out, frames[..n])[i];
      TargetBelowCeiling(f, i, last);
      SlewIsClamp(last, Target(f, i, last), Step(f));
      hide Target, SlewToward;
    }
  }

  lemma {:induction false} RunSplits(out: Levels, before: seq<Frame>, after: seq<Frame>)
    ensures Run(out, before + after) == Run(Run(out, before), after)
    decreases |after|
  {
    if after == [] {
      assert before + after == before;
    } else {
      var n := |after| - 1;
      RunSplits(out, before, after[..n]);
      assert (before + after)[..|before| + n] == before + after[..n];
      hide Next;
    }
  }

  /** In every run from boot, nineteen burn-safe frames in a row bring every channel to 96 or below. */
  lemma BurnSafeWithinNineteen(before: seq<Frame>, burnSafe: seq<Frame>, i: nat)
    requires i < MAX_CH && |burnSafe| >= 19 && forall k :: 0 <= k < |burnSafe| ==> burnSafe[k].burnSafe
    ensures Run(BLACKOUT, before + burnSafe)[i] <= BURN_SAFE_MAX_LEVEL
  {
    RunIsSafe(before);
    RunSplits(BLACKOUT, before, burnSafe);
    BurnSafeDescends(Run(BLACKOUT, before), burnSafe, i);
  }

  lemma ScaledBelow(value: int, master: int)
    requires 0 < value < 0x100 && 0 <= master < 0xff
    ensures value * master / 0x100 < value
  {
    assert value * master <= value * 0xfe;
  }

  /**
   * Holding the last output (no network, no fallback) leaves a channel alone
   * exactly when it is dark, or when master and effect are full and the
   * ceiling allows it; otherwise the fed-back level sinks.
   */
  lemma HoldIsFixedPoint(f: Frame, i: nat, last: Byte)
    requires i < MAX_CH && f.mode == ArtNetOnly && !f.artNetActive && !f.sacnActive && !f.fallbackToWeb
    ensures Channel(f, i, last) == last <==> last == 0 || (f.master == 255 && f.fx[i] == 255 && last <= Ceiling(f))
    ensures Channel(f, i, last) <= last
  {
    var scaled := ApplyMaster(last, f.master);
    var limited := ClampLevel(scaled, Ceiling(f));
    ScaledBound(last, f.master);
    ScaledBound(limited, f.fx[i]);
    if last > 0 && f.master < 255 {
      ScaledBelow(last, f.master);
    }
    if limited > 0 && f.fx[i] < 255 {
      ScaledBelow(limited, f.fx[i]);
    }
    assert Target(f, i, last) == ApplyMaster(limited, f.fx[i]) <= limited <= scaled <= last;
    SlewIsClamp(last, Target(f, i, last), Step(f));
    hide SlewToward, ApplyMaster;
  }

  // ----- What a channel comes to -----

  /** Level v comes from one of the sources that count, and none of them is higher. */
  ghost predicate IsHighest(f: Frame, i: nat, v: Byte, web: bool)
    requires i < MAX_CH
  {
    && ((web && f.web[i] == v) || (f.artNetActive && f.artNet[i] == v) || (f.sacnActive && f.sacn[i] == v))
    && (web ==> f.web[i] <= v) && (f.artNetActive ==> f.artNet[i] <= v) && (f.sacnActive ==> f.sacn[i] <= v)
  }

  /**
   * The frame asks for level v on channel i: the web's level; the highest
   * network source, or the web's level in its stead; or the highest of all.
   */
  ghost predicate Asks(f: Frame, i: nat, v: Byte)
    requires i < MAX_CH
  {
    match f.mode
    case WebOnly => f.web[i] == v
    case ArtNetOnly =>
      if f.artNetActive || f.sacnActive then IsHighest(f, i, v, false) else f.fallbackToWeb && f.web[i] == v
    case MergeHtp => IsHighest(f, i, v, true)
  }

  /** A level under a master, limited, under an effect: 255 is full, anything less takes 256ths. */
  function Dimmed(v: int, master: int, limit: int, fx: int): int {
    var scaled := if master == 255 then v else v * master / 256;
    var limited := if scaled < limit then scaled else limit;
    if fx == 255 then limited else limited * fx / 256
  }

  /**
   * Frame after frame with the same settings on a channel, its output moves
   * toward what the settings ask for, 18 levels a frame (8 when burn-safe),
   * and stays there: within 32 frames it is there, wherever it started.
   */
  lemma {:induction false} Settles(out: Levels, frames: seq<Frame>, i: nat, v: Byte, master: Byte, fx: Byte,
                                   burnSafe: bool)
    requires i < MAX_CH
    requires forall k :: 0 <= k < |frames| ==>
               var f := frames[k]; Asks(f, i, v) && f.master == master && f.fx[i] == fx && f.burnSafe == burnSafe
    ensures var goal := Dimmed(v, master, if burnSafe then 96 else 245, fx);
            var way := (if burnSafe then 8 else 18) * |frames|;
            && 0 <= way
            && Run(out, frames)[i] == Between(goal, out[i] as int - way, out[i] as int + way)
            && (|frames| >= 32 ==> Run(out, frames)[i] == goal)
    decreases |frames|
  {
    if frames != [] {
      var n := |frames| - 1;
      Settles(out, frames[..n], i, v, master, fx, burnSafe);
      var f, last := frames[n], Run(out, frames[..n])[i];
      assert frames[n] == f && Asks(f, i, v);
      AskedIsMerged(f, i, v, last);
      TargetIsDimmed(f, i, last);
      SlewIsClamp(last, Target(f, i, last), Step(f));
      hide Target, SlewToward, Asks, Merged;
    }
    DimmedIsLevel(v, master, if burnSafe then 96 else 245, fx);
  }

  lemma AskedIsMerged(f: Frame, i: nat, v: Byte, last: Byte)
    requires i < MAX_CH && Asks(f, i, v)
    ensures Merged(f, i, last) == v
  {
  }

  lemma TargetIsDimmed(f: Frame, i: nat, last: Byte)
    requires i < MAX_CH
    ensures Target(f, i, last) == Dimmed(Merged(f, i, last), f.master, if f.burnSafe then 96 else 245, f.fx[i])
  {
    hide Merged;
  }

  lemma DimmedIsLevel(v: Byte, master: Byte, limit: Byte, fx: Byte)
    ensures 0 <= Dimmed(v, master, limit, fx) <= limit
  {
    ScaledBound(v, master);
    ScaledBound(ClampLevel(ApplyMaster(v, master), limit), fx);
  }

  // ----- The loop -----

  class Engine {
    const outVals: array<Byte>
    const dmxFrame: array<Byte>

    ghost predicate Valid()
    {
      outVals != dmxFrame && outVals.Length == MAX_CH && dmxFrame.Length == MAX_CH + 1
    }

    constructor ()
      ensures Valid() && fresh(outVals) && fresh(dmxFrame)
      ensures outVals[..] == BLACKOUT && dmxFrame[0] == 0
    {
      outVals := new Byte[MAX_CH](_ => 0);
      dmxFrame := new Byte[MAX_CH + 1](_ => 0);
    }

    /** `computeOutput_locked`: updates the outputs in place and copies them behind the start code. */
    method ComputeOutput(f: Frame)
      requires Valid()
      modifies outVals, dmxFrame
      ensures outVals[..] == Next(f, old(outVals[..]))
      ensures dmxFrame[..] == [old(dmxFrame[0])] + outVals[..]
    {
      var i := 0;
      while i < MAX_CH
        invariant 0 <= i <= MAX_CH
        invariant forall k :: 0 <= k < i ==> outVals[k] == Channel(f, k, old(outVals[k]))
        invariant forall k :: i <= k < MAX_CH ==> outVals[k] == old(outVals[k])
        invariant dmxFrame[0] == old(dmxFrame[0])
      {
        var v := ApplyMaster(Merged(f, i, outVals[i]), f.master);
        v := ClampLevel(v, Ceiling(f));
        var target := ApplyMaster(v, f.fx[i]);
        outVals[i] := SlewToward(outVals[i], target, Step(f));
        i := i + 1;
      }
      assert outVals[..] == Next(f, old(outVals[..]));
      i := 0;
      while i < MAX_CH
        invariant 0 <= i <= MAX_CH
        invariant outVals[..] == Next(f, old(outVals[..]))
        invariant dmxFrame[0] == old(dmxFrame[0])
        invariant forall k :: 0 <= k < i ==> dmxFrame[k + 1] == outVals[k]
      {
        dmxFrame[i + 1] := outVals[i];
        i := i + 1;
      }
    }
  }
}
