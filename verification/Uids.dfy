/**
 * RDM unique IDs: the comparisons of `rdm/include/uid.h`, over the two fields
 * the packed struct holds, and the 48-bit number the fields stand for.
 */
module Uids {

  type Word16 = x: int | 0 <= x < 0x1_0000
  type Word32 = x: int | 0 <= x < 0x1_0000_0000

  datatype Uid = Uid(manId: Word16, devId: Word32)

  const BROADCAST_ALL := Uid(0xffff, 0xffff_ffff)
  const UID_MAX := Uid(0xffff, 0xffff_fffe)

  predicate IsLt(a: Uid, b: Uid) {
    a.manId < b.manId || (a.manId == b.manId && a.devId < b.devId)
  }

  predicate IsGt(a: Uid, b: Uid) {
    a.manId > b.manId || (a.manId == b.manId && a.devId > b.devId)
  }

  predicate IsLe(a: Uid, b: Uid) {
    !IsGt(a, b)
  }

  predicate IsBroadcast(u: Uid) {
    u.devId == 0xffff_ffff
  }

  /** True if `uid` is addressed by `alias`, which may be a broadcast UID. */
  predicate IsTarget(uid: Uid, alias: Uid) {
    ((alias.manId == 0xffff || alias.manId == uid.manId) && alias.devId == 0xffff_ffff) || uid == alias
  }

  /** The UID as the 48-bit number `man_id << 32 | dev_id`. */
  function Value(u: Uid): nat {
    u.manId * 0x1_0000_0000 + u.devId
  }

  /** The UID whose fields are the truncated halves of a 64-bit number. */
  function OfValue(n: nat): Uid {
    Uid(n / 0x1_0000_0000 % 0x1_0000, n % 0x1_0000_0000)
  }

  const MAX_VALUE: nat := 0xffff_ffff_fffe

  lemma OfValueInverse(n: nat)
    requires n < 0x1_0000_0000_0000
    ensures Value(OfValue(n)) == n
  {
    assert n / 0x1_0000_0000 < 0x1_0000;
  }

  lemma ValueInjective(a: Uid, b: Uid)
    requires Value(a) == Value(b)
    ensures a == b
  {
  }

  lemma OfValueOf(u: Uid)
    ensures OfValue(Value(u)) == u
  {
    OfValueInverse(Value(u));
    ValueInjective(OfValue(Value(u)), u);
  }

  /** The field-wise comparisons are the comparisons of the 48-bit numbers. */
  lemma ComparisonsAgree(a: Uid, b: Uid)
    ensures IsLt(a, b) <==> Value(a) < Value(b)
    ensures IsGt(a, b) <==> Value(a) > Value(b)
    ensures IsLe(a, b) <==> Value(a) <= Value(b)
    ensures a == b <==> Value(a) == Value(b)
  {
  }

  /**
   * A UID below the all-devices broadcast addresses nothing above itself: a
   * manufacturer broadcast is the last UID of its manufacturer.
   */
  lemma TargetsAreNotAbove(d: Uid, alias: Uid)
    requires IsTarget(d, alias) && Value(alias) <= MAX_VALUE
    ensures Value(d) <= Value(alias)
  {
  }

  /**
   * Exactly which UIDs an address reaches, in 48-bit numbers: itself; and if
   * its low 32 bits are all ones, those of the same manufacturer, or all of
   * them if the high 16 bits are all ones too.
   */
  lemma TargetsExactly(d: Uid, alias: Uid)
    ensures IsBroadcast(alias) <==> Value(alias) % 0x1_0000_0000 == 0xffff_ffff
    ensures IsTarget(d, alias) <==>
              || Value(d) == Value(alias)
              || Value(alias) == 0xffff_ffff_ffff
              || (Value(alias) % 0x1_0000_0000 == 0xffff_ffff
                  && Value(alias) / 0x1_0000_0000 == Value(d) / 0x1_0000_0000)
  {
    ValueParts(d);
    ValueParts(alias);
    hide Value;
  }

  lemma ValueParts(u: Uid)
    ensures Value(u) / 0x1_0000_0000 == u.manId && Value(u) % 0x1_0000_0000 == u.devId
    ensures Value(u) == u.manId * 0x1_0000_0000 + u.devId
  {
  }
}
