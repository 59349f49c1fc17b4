/**
 * Scene fades (`startFade_locked`, `updateFade_locked`): every channel moves
 * from where it was to its target, by 32-bit clock arithmetic.
 */
module Fade {
  import opened Uids
  import opened Bytes
  import opened Output
  import Arithmetic

  const TWO_32 := 0x1_0000_0000
  const TWO_24 := 0x100_0000

  /** A fade in progress. */
  datatype FadeState = FadeState(active: bool, startMs: Word32, timeMs: Word32, from: Levels, to: Levels)

  /** The time since the start, as the wrapping clock gives it. */
  function Elapsed(now: Word32, start: Word32): Word32 {
    (now as int - start + TWO_32) % TWO_32
  }

  /** The fraction of the fade in 256ths; the shift drops bits above 32. */
  function Fraction(elapsed: Word32, time: Word32): nat
    requires time > 0
  {
    elapsed * 0x100 % TWO_32 / time
  }

  /** `>> 8` of a possibly negative number rounds down, as Euclidean division by 256 does. */
  function LevelAt(from: Byte, to: Byte, k: nat): int {
    from as int + (to as int - from) * k / 0x100
  }

  lemma DivBound(a: nat, b: nat, q: nat)
    requires b > 0 && a < q * b
    ensures a / b < q
  {
    var k: int := a / b;
    assert b * (q - k) == b * q - b * k > 0;
    Arithmetic.MultipleBound(b, q - k);
  }

  lemma DivAtLeast(a: nat, b: nat)
    requires 0 < b <= a
    ensures a / b >= 1
  {
  }

  /** While the fade runs the fraction stays below one, with or without lost bits. */
  lemma FractionBelowOne(elapsed: Word32, time: Word32)
    requires elapsed < time
    ensures Fraction(elapsed, time) < 0x100
  {
    var shifted := elapsed * 0x100 % TWO_32;
    assert shifted < 0x100 * time by {
      if elapsed < TWO_24 {
        assert shifted == elapsed * 0x100;
      } else {
        assert shifted < TWO_32 == 0x100 * TWO_24;
      }
    }
    DivBound(shifted, time, 0x100);
  }

  lemma ProductBetween(delta: int, k: nat)
    requires k < 0x100
    ensures delta >= 0 ==> 0 <= delta * k / 0x100 <= delta
    ensures delta <= 0 ==> delta <= delta * k / 0x100 <= 0
  {
    if delta >= 0 {
      assert 0 <= delta * k <= delta * 0x100;
    } else {
      assert delta * 0x100 <= delta * k <= 0;
    }
  }

  /** A faded level lies between its start and its target, so it never wraps a byte. */
  lemma LevelStaysBetween(from: Byte, to: Byte, k: nat)
    requires k < 0x100
    ensures from <= to ==> from as int <= LevelAt(from, to, k) <= to as int
    ensures to <= from ==> to as int <= LevelAt(from, to, k) <= from as int
  {
    ProductBetween(to as int - from, k);
  }

  /** The level of one channel at a time during or after the fade. */
  function Faded(from: Byte, to: Byte, elapsed: Word32, time: Word32): Byte
    requires time > 0
  {
    if elapsed >= time then to
    else
      FractionBelowOne(elapsed, time);
      LevelStaysBetween(from, to, Fraction(elapsed, time));
      LevelAt(from, to, Fraction(elapsed, time))
  }

  /** For every length and every moment: between start and target, and exactly on the target at the end. */
  lemma FadedIsBetween(from: Byte, to: Byte, elapsed: Word32, time: Word32)
    requires time > 0
    ensures from <= to ==> from <= Faded(from, to, elapsed, time) <= to
    ensures to <= from ==> to <= Faded(from, to, elapsed, time) <= from
    ensures elapsed >= time ==> Faded(from, to, elapsed, time) == to
    ensures elapsed == 0 ==> Faded(from, to, elapsed, time) == from
  {
    if elapsed < time {
      FractionBelowOne(elapsed, time);
      LevelStaysBetween(from, to, Fraction(elapsed, time));
    }
  }

  // ----- How near a fade is to a straight line -----

  lemma ScaleBounds(a: int, q: int, t: int)
    requires t > 0 && 0x100 * q <= a < 0x100 * q + 0x100
    ensures 0x100 * (q * t) <= a * t < 0x100 * (q * t) + 0x100 * t
  {
    var rest := a - 0x100 * q;
    assert a * t == 0x100 * (q * t) + rest * t;
    assert 0 <= rest * t < 0x100 * t;
  }

  lemma RestBound(delta: int, rest: int, t: int)
    requires -0x100 < delta < 0x100 && 0 <= rest < t
    ensures -0x100 * t < delta * rest < 0x100 * t
  {
    assert (0x100 - delta) * rest >= 0 && (0x100 + delta) * rest >= 0;
  }

  lemma Distribute(delta: int, k: int, t: int, rest: int)
    ensures delta * (k * t + rest) == delta * k * t + delta * rest
  {
  }

  lemma NearProduct(delta: int, k: int, q: int, e: int, t: int)
    requires 0 < t && -0x100 < delta < 0x100
    requires k * t <= 0x100 * e < k * t + t && 0x100 * q <= delta * k < 0x100 * q + 0x100
    ensures -2 * t < delta * e - q * t < 2 * t
  {
    var rest := 0x100 * e - k * t;
    ScaleBounds(delta * k, q, t);
    RestBound(delta, rest, t);
    Distribute(delta, k, t, rest);
    assert delta * (k * t + rest) == delta * (0x100 * e) == 0x100 * (delta * e);
  }

  /**
   * Up to 2^24 ms, a level is at every moment less than two steps away from
   * the straight line between start and target.
   */
  lemma FadeIsLinear(from: Byte, to: Byte, elapsed: Word32, time: Word32)
    requires 0 < time <= TWO_24 && elapsed <= time
    ensures var moved := Faded(from, to, elapsed, time) as int - from;
            var delta := to as int - from;
            -2 * time < delta * elapsed - moved * time < 2 * time
  {
    if elapsed < time {
      FractionShort(elapsed, time);
      FractionBelowOne(elapsed, time);
      var k, delta := Fraction(elapsed, time), to as int - from;
      DivParts(elapsed * 0x100, time);
      hide Fraction;
      NearProduct(delta, k, delta * k / 0x100, elapsed, time);
    }
  }

  lemma DivParts(a: nat, b: nat)
    requires b > 0
    ensures a / b * b <= a < a / b * b + b
  {
  }

  // ----- Exactly which fades are monotone -----

  /** The fade never moves away from its target, for any pair of levels. */
  ghost predicate Monotone(time: Word32)
    requires time > 0
  {
    forall from: Byte, to: Byte, e: Word32, e': Word32 :: e <= e' ==>
      && (from <= to ==> Faded(from, to, e, time) <= Faded(from, to, e', time))
      && (to <= from ==> Faded(from, to, e', time) <= Faded(from, to, e, time))
  }

  lemma DivMonotone(a: nat, a': nat, b: nat)
    requires a <= a' && b > 0
    ensures a / b <= a' / b
  {
    var q := a' / b;
    assert a' < b * q + b == (q + 1) * b;
    DivBound(a, b, q + 1);
  }

  lemma LevelMonotone(from: Byte, to: Byte, k: nat, k': nat)
    requires k <= k'
    ensures from <= to ==> LevelAt(from, to, k) <= LevelAt(from, to, k')
    ensures to <= from ==> LevelAt(from, to, k') <= LevelAt(from, to, k)
  {
    var delta := to as int - from;
    if from <= to {
      assert delta * k <= delta * k';
    }
    if to <= from {
      assert delta * k' <= delta * k;
    }
  }

  lemma FractionShort(e: Word32, time: Word32)
    requires 0 < time && e < TWO_24
    ensures Fraction(e, time) == e * 0x100 / time
  {
    assert e * 0x100 % TWO_32 == e * 0x100;
  }

  lemma ShortFadeStep(e: Word32, e': Word32, time: Word32)
    requires 0 < time && e <= e' < time && (time <= TWO_24 || time > TWO_32 - 0x100)
    ensures Fraction(e, time) <= Fraction(e', time)
  {
    if time <= TWO_24 {
      FractionShort(e, time);
      FractionShort(e', time);
      hide Fraction;
      DivMonotone(e * 0x100, e' * 0x100, time);
    } else {
      FractionVanishes(e, time);
      FractionVanishes(e', time);
    }
  }

  /** In fades of nearly the whole clock the shifted time never reaches the length. */
  lemma FractionVanishes(e: Word32, time: Word32)
    requires time > TWO_32 - 0x100
    ensures Fraction(e, time) == 0
  {
    var shifted := e * 0x100 % TWO_32;
    assert shifted == 0x100 * (e % TWO_24);
    assert shifted < time;
    DivBound(shifted, time, 1);
  }

  lemma MonotoneWhenShort(time: Word32)
    requires 0 < time && (time <= TWO_24 || time > TWO_32 - 0x100)
    ensures Monotone(time)
  {
    forall from: Byte, to: Byte, e: Word32, e': Word32 | e <= e'
      ensures from <= to ==> Faded(from, to, e, time) <= Faded(from, to, e', time)
      ensures to <= from ==> Faded(from, to, e', time) <= Faded(from, to, e, time)
    {
      FadedIsBetween(from, to, e, time);
      if e' < time {
        ShortFadeStep(e, e', time);
        LevelMonotone(from, to, Fraction(e, time), Fraction(e', time));
      }
    }
  }

  /**
   * Fades longer than 2^24 ms start over when the shifted time wraps: a fade
   * from 1 to 0 is at 0 just before, and back at 1 right after.
   */
  lemma LongFadeStartsOver(time: Word32)
    requires TWO_24 < time <= TWO_32 - 0x100
    ensures Faded(1, 0, TWO_24 - 1, time) == 0 && Faded(1, 0, TWO_24, time) == 1
  {
    DivAtLeast(TWO_32 - 0x100, time);
    var k := Fraction(TWO_24 - 1, time);
    FractionBelowOne(TWO_24 - 1, time);
    assert k >= 1;
    assert LevelAt(1, 0, k) == 1 + (-(k as int)) / 0x100 == 0;
    assert Fraction(TWO_24, time) == 0;
  }

  /** A fade is monotone exactly up to 2^24 ms, or within 255 ms of the whole clock, where it only jumps. */
  lemma MonotoneExactly(time: Word32)
    requires time > 0
    ensures Monotone(time) <==> time <= TWO_24 || time > TWO_32 - 0x100
  {
    if time <= TWO_24 || time > TWO_32 - 0x100 {
      MonotoneWhenShort(time);
    } else {
      LongFadeStartsOver(time);
      assert Faded(1, 0, TWO_24, time) > Faded(1, 0, TWO_24 - 1, time);
    }
  }

  // ----- The fade as the firmware runs it -----

  function FadedLevels(s: FadeState, elapsed: Word32): Levels
    requires s.timeMs > 0
  {
    seq(MAX_CH, i requires 0 <= i < MAX_CH => Faded(s.from[i], s.to[i], elapsed, s.timeMs))
  }

  class Fader {
    const webVals: array<Byte>
    var fade: FadeState

    ghost predicate Valid()
      reads this
    {
      webVals.Length == MAX_CH && fade.timeMs > 0
    }

    constructor ()
      ensures Valid() && fresh(webVals) && !fade.active
    {
      webVals := new Byte[MAX_CH](_ => 0);
      fade := FadeState(false, 0, 1000, seq(MAX_CH, _ => 0), seq(MAX_CH, _ => 0));
    }

    /** `startFade_locked`: a length of 0 counts as 1 ms. */
    method StartFade(target: Levels, ms: Word32, now: Word32)
      requires Valid()
      modifies this
      ensures Valid() && fade == FadeState(true, now, if ms < 1 then 1 else ms, webVals[..], target)
    {
      fade := FadeState(true, now, if ms < 1 then 1 else ms, webVals[..], target);
    }

    /** `updateFade_locked`. */
    method UpdateFade(now: Word32)
      requires Valid()
      modifies this, webVals
      ensures Valid()
      ensures !old(fade).active ==> webVals[..] == old(webVals[..]) && fade == old(fade)
      ensures old(fade).active ==>
                && webVals[..] == FadedLevels(old(fade), Elapsed(now, old(fade).startMs))
                && fade == old(fade).(active := Elapsed(now, old(fade).startMs) < old(fade).timeMs)
    {
      if !fade.active {
        return;
      }
      var elapsed := Elapsed(now, fade.startMs);
      if elapsed >= fade.timeMs {
        CopyLevels(fade.to);
        fade := fade.(active := false);
        return;
      }
      var k := Fraction(elapsed, fade.timeMs);
      FractionBelowOne(elapsed, fade.timeMs);
      var i := 0;
      while i < MAX_CH
        invariant 0 <= i <= MAX_CH && fade == old(fade)
        invariant forall j :: 0 <= j < i ==> webVals[j] == Faded(fade.from[j], fade.to[j], elapsed, fade.timeMs)
      {
        LevelStaysBetween(fade.from[i], fade.to[i], k);
        webVals[i] := LevelAt(fade.from[i], fade.to[i], k);
        i := i + 1;
      }
    }

    method CopyLevels(levels: Levels)
      requires Valid()
      modifies webVals
      ensures webVals[..] == levels
    {
      var i := 0;
      while i < MAX_CH
        invariant 0 <= i <= MAX_CH
        invariant forall j :: 0 <= j < i ==> webVals[j] == levels[j]
      {
        webVals[i] := levels[i];
        i := i + 1;
      }
    }
  }

  lemma ElapsedAcrossWrap(start: Word32, ms: Word32, now: Word32)
    requires now as int == (start as int + ms) % TWO_32
    ensures Elapsed(now, start) == ms
  {
  }

  /**
   * So many milliseconds after its start, also past the wrap of the clock, a
   * fade is where the straight line is, to within two steps, and at the end.
   */
  lemma FadeAtClock(s: FadeState, ms: Word32, now: Word32, i: nat)
    requires s.timeMs > 0 && i < MAX_CH && now as int == (s.startMs as int + ms) % TWO_32
    ensures var level, time: int := FadedLevels(s, Elapsed(now, s.startMs))[i], s.timeMs;
            var moved, delta := level as int - s.from[i], s.to[i] as int - s.from[i];
            && (ms >= time ==> level == s.to[i])
            && (ms <= time <= TWO_24 ==> -2 * time < delta * ms - moved * time < 2 * time)
  {
    ElapsedAcrossWrap(s.startMs, ms, now);
    hide Elapsed, Faded;
    FadedIsBetween(s.from[i], s.to[i], ms, s.timeMs);
    if ms <= s.timeMs <= TWO_24 {
      FadeIsLinear(s.from[i], s.to[i], ms, s.timeMs);
    }
  }

  /**
   * At every clock reading, wrap-around included, a running fade is between its
   * ends; from its length on it is the target, until the clock comes round.
   */
  lemma FadeStaysBetween(s: FadeState, now: Word32, i: nat)
    requires s.timeMs > 0 && i < MAX_CH
    ensures var level := FadedLevels(s, Elapsed(now, s.startMs))[i];
            && (s.from[i] <= level <= s.to[i] || s.to[i] <= level <= s.from[i])
            && (Elapsed(now, s.startMs) >= s.timeMs ==> level == s.to[i])
  {
    FadedIsBetween(s.from[i], s.to[i], Elapsed(now, s.startMs), s.timeMs);
  }
}
