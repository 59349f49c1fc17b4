/**
 * What is on the wire, in numbers: every field of a packet is big-endian, and
 * a packet is read exactly if its bytes add up to the checksum it carries.
 * Nothing here is stated through the byte swaps of the driver.
 */
module Layout {
  import opened Options
  import opened Uids
  import opened Bytes
  import opened Formats
  import opened Packets

  // ----- Numbers and their digits -----

  /** The last k digits of n in base 256, most significant first. */
  function Digits(n: nat, k: nat): (s: seq<Byte>)
    ensures |s| == k
    decreases k
  {
    if k == 0 then [] else Digits(n / 0x100, k - 1) + [n % 0x100]
  }

  /** The same, least significant first, as integers lie in memory. */
  function LittleDigits(n: nat, k: nat): (s: seq<Byte>)
    ensures |s| == k
    decreases k
  {
    if k == 0 then [] else [n % 0x100] + LittleDigits(n / 0x100, k - 1)
  }

  /** The number with these digits, most significant first. */
  function Number(s: seq<Byte>): nat {
    if s == [] then 0 else Number(s[..|s| - 1]) * 0x100 + s[|s| - 1]
  }

  /** 256 to the power k. */
  function Limit(k: nat): (p: nat)
    ensures p >= 1
  {
    if k == 0 then 1 else 0x100 * Limit(k - 1)
  }

  /** A number is the number with its digits. */
  lemma {:induction false} NumberOfDigits(n: nat, k: nat)
    requires n < Limit(k)
    ensures Number(Digits(n, k)) == n
    decreases k
  {
    if k > 0 {
      NumberOfDigits(n / 0x100, k - 1);
      assert Digits(n, k)[..k - 1] == Digits(n / 0x100, k - 1);
    }
  }

  /** And digits are the digits of their number. */
  lemma {:induction false} DigitsOfNumber(s: seq<Byte>)
    ensures Digits(Number(s), |s|) == s && Number(s) < Limit(|s|)
  {
    if s != [] {
      var front, last := s[..|s| - 1], s[|s| - 1];
      DigitsOfNumber(front);
      var n: int := last;
      assert (Number(front) * 0x100 + n) / 0x100 == Number(front) && (Number(front) * 0x100 + n) % 0x100 == n;
      assert front + [last] == s;
    }
  }

  // ----- The driver's memory images and swaps -----

  lemma WordInDigits(n: Word16)
    ensures Le16(n) == LittleDigits(n, 2) && Swap16(Le16(n)) == Digits(n, 2)
  {
    assert LittleDigits(n, 2) == [n % 0x100] + LittleDigits(n / 0x100, 1);
    assert LittleDigits(n / 0x100, 1) == [n / 0x100 % 0x100] + LittleDigits(n / 0x100 / 0x100, 0);
    assert Digits(n, 2) == Digits(n / 0x100, 1) + [n % 0x100];
    assert Digits(n / 0x100, 1) == Digits(n / 0x100 / 0x100, 0) + [n / 0x100 % 0x100];
  }

  lemma DwordInDigits(n: Word32)
    ensures Le32(n) == LittleDigits(n, 4) && Swap32(Le32(n)) == Digits(n, 4)
  {
    var n1 := n / 0x100;
    var n2 := n1 / 0x100;
    WordInDigits(n2);
    hide Le16;
    assert LittleDigits(n, 4) == [n % 0x100] + LittleDigits(n1, 3);
    assert LittleDigits(n1, 3) == [n1 % 0x100] + LittleDigits(n2, 2);
    assert Digits(n, 4) == Digits(n1, 3) + [n % 0x100];
    assert Digits(n1, 3) == Digits(n2, 2) + [n1 % 0x100];
    hide Digits, LittleDigits;
    assert Le16(n2) == [n2 % 0x100, n2 / 0x100];
  }

  /** A UID goes out as its 48-bit number. */
  lemma UidInDigits(u: Uid)
    ensures UidMemory(u) == LittleDigits(u.manId, 2) + LittleDigits(u.devId, 4)
    ensures SwapUid(UidMemory(u)) == Digits(Value(u), 6)
  {
    WordInDigits(u.manId);
    DwordInDigits(u.devId);
    DigitsJoin(u.manId, u.devId, 2, 4);
    assert Limit(4) == 0x1_0000_0000;
    hide Digits, LittleDigits;
    var m, d := Le16(u.manId), Le32(u.devId);
    assert SwapUid(UidMemory(u)) == Swap16(m) + Swap32(d);
  }

  lemma {:induction false} DigitsJoin(m: nat, d: nat, j: nat, k: nat)
    requires d < Limit(k)
    ensures Digits(m * Limit(k) + d, j + k) == Digits(m, j) + Digits(d, k)
    decreases k
  {
    if k > 0 {
      var p, n := m * Limit(k - 1), m * Limit(k) + d;
      assert n == 0x100 * p + d;
      assert n / 0x100 == p + d / 0x100 && n % 0x100 == d % 0x100;
      DigitsJoin(m, d / 0x100, j, k - 1);
      assert Digits(n, j + k) == Digits(n / 0x100, j + k - 1) + [n % 0x100];
      assert Digits(d, k) == Digits(d / 0x100, k - 1) + [d % 0x100];
      hide Digits;
    } else {
      assert Digits(m, j) + [] == Digits(m, j);
    }
  }

  // ----- What the interpreter sends -----

  /** An integer token sends the little-endian integer in memory as its digits. */
  lemma IntegerSent(all: seq<Token>, t: Token, todo: seq<Token>, n: nat, rest: seq<Byte>, nulls: bool)
    requires t in {TByte, TWord, TDword} && n < Limit(Size(t))
    ensures Encode(all, [t] + todo, LittleDigits(n, Size(t)) + rest, nulls)
         == Prepend(Digits(n, Size(t)), Encode(all, todo, rest, nulls))
  {
    var memory := LittleDigits(n, Size(t));
    assert Limit(1) == 0x100 && Limit(2) == 0x1_0000 && Limit(4) == 0x1_0000_0000;
    assert Swapped(t, memory) == Digits(n, Size(t)) by {
      match t
      case TByte =>
        assert LittleDigits(n / 0x100, 0) == [] && Digits(n / 0x100, 0) == [];
      case TWord => WordInDigits(n);
      case TDword => DwordInDigits(n);
      case _ =>
    }
    hide Digits, LittleDigits, Swapped;
    FirstToken(all, t, todo, memory, rest, nulls);
  }

  lemma FirstToken(all: seq<Token>, t: Token, todo: seq<Token>, head: seq<Byte>, rest: seq<Byte>, nulls: bool)
    requires !Ends(t) && t != TUnknown && |head| == Size(t)
    ensures Encode(all, [t] + todo, head + rest, nulls) == Prepend(Swapped(t, head), Encode(all, todo, rest, nulls))
  {
    hide Swapped;
    assert ([t] + todo)[1..] == todo;
    assert (head + rest)[..Size(t)] == head && (head + rest)[Size(t)..] == rest;
  }

  /** A UID token sends the UID's 48-bit number. */
  lemma UidSent(all: seq<Token>, todo: seq<Token>, u: Uid, rest: seq<Byte>, nulls: bool)
    ensures Encode(all, [TUid] + todo, LittleDigits(u.manId, 2) + LittleDigits(u.devId, 4) + rest, nulls)
         == Prepend(Digits(Value(u), 6), Encode(all, todo, rest, nulls))
  {
    UidInDigits(u);
    hide Digits, LittleDigits, SwapUid, UidMemory;
    FirstToken(all, TUid, todo, UidMemory(u), rest, nulls);
  }

  /** So does an optional one, and the format ends there; a null UID is sent as nothing. */
  lemma OptionalUidSent(all: seq<Token>, todo: seq<Token>, u: Uid, rest: seq<Byte>)
    ensures Encode(all, [TOptionalUid] + todo, LittleDigits(u.manId, 2) + LittleDigits(u.devId, 4) + rest, false)
         == Encoded(if Value(u) == 0 then [] else Digits(Value(u), 6))
  {
    UidInDigits(u);
    NullUidIsZero(u, rest);
    hide Digits, LittleDigits, SwapUid, UidMemory, IsNullUid, Value;
    assert (UidMemory(u) + rest)[..6] == UidMemory(u);
    assert ([TOptionalUid] + todo)[0] == TOptionalUid;
  }

  lemma NullUidIsZero(u: Uid, rest: seq<Byte>)
    ensures IsNullUid(UidMemory(u) + rest) <==> Value(u) == 0
  {
    var memory := UidMemory(u);
    ZeroUid();
    UidMemoryRoundTrip(u);
    ValueInjective(u, if Value(u) == 0 then Uid(0, 0) else u);
    hide UidMemory, UidFromMemory;
    assert forall k :: 0 <= k < 6 ==> (memory + rest)[k] == memory[k];
    if IsNullUid(memory + rest) {
      assert memory == NULL_UID;
    }
  }

  lemma ZeroUid()
    ensures UidMemory(Uid(0, 0)) == NULL_UID && UidFromMemory(NULL_UID) == Uid(0, 0)
  {
    UidMemoryRoundTrip(Uid(0, 0));
  }

  // ----- Packets -----

  /** The bytes of a header, field by field. */
  function HeaderDigits(h: Header): (s: seq<Byte>)
    ensures |s| == HEADER_SIZE
  {
    [0xcc, 0x01, h.messageLen] + Digits(Value(h.destUid), 6) + Digits(Value(h.srcUid), 6)
    + [h.tn, h.portId, h.messageCount] + Digits(h.subDevice, 2) + [h.cc] + Digits(h.pid, 2) + [h.pdl]
  }

  lemma HeaderInDigits(h: Header)
    ensures HeaderWire(h) == HeaderDigits(h)
  {
    UidInDigits(h.destUid);
    UidInDigits(h.srcUid);
    WordInDigits(h.subDevice);
    WordInDigits(h.pid);
    hide Digits, LittleDigits, SwapUid, UidMemory, Swap16, Le16;
  }

  /** A packet written is its header in digits, the encoded data, and the digits of the sum of all these bytes. */
  lemma PacketInDigits(h: Header, format: Option<string>, pd: Option<seq<Byte>>)
    requires pd.Some? ==> |pd.value| >= h.pdl
    requires Written(h, format, pd).Wrote? && !IsDiscoveryResponse(h)
    ensures |Body(h, format, pd).out| <= h.pdl
    ensures var body := Body(h, format, pd).out;
            var message := HeaderDigits(h.(messageLen := 24 + |body|, pdl := |body|)) + body;
            Written(h, format, pd).bytes == message + Digits(Sum(message) % 0x1_0000, 2)
  {
    BodyFits(h, format, pd);
    var body := Body(h, format, pd).out;
    HeaderInDigits(Patched(h, body));
    WordInDigits(Checksum(Message(h, body)));
    hide Digits, HeaderDigits, HeaderWire, Body, Sum, Swap16, Le16;
  }

  /** A discovery response: preamble, delimiter, and pairs that carry the UID's number and the sum of its pairs. */
  lemma ResponseInDigits(uid: Uid)
    ensures var s := DiscoveryResponse(uid);
            var number, check := Digits(Value(uid), 6), Digits(Sum(s[8..20]) % 0x1_0000, 2);
            && (forall k :: 0 <= k < 7 ==> s[k] == 0xfe) && s[7] == 0xaa
            && (forall k :: 0 <= k < 6 ==> s[8 + 2 * k] == Or(number[k], 0xaa) && s[9 + 2 * k] == Or(number[k], 0x55))
            && (forall k :: 0 <= k < 2 ==> s[20 + 2 * k] == Or(check[k], 0xaa) && s[21 + 2 * k] == Or(check[k], 0x55))
  {
    PairsSent(uid);
    CheckSent(uid);
    hide DiscoveryResponse, Digits, Or, Sum, Value;
  }

  lemma PairsSent(uid: Uid)
    ensures var s, number := DiscoveryResponse(uid), Digits(Value(uid), 6);
            && (forall k :: 0 <= k < 7 ==> s[k] == 0xfe) && s[7] == 0xaa && s[8..20] == EuidEncode(number)
            && forall k :: 0 <= k < 6 ==> s[8 + 2 * k] == Or(number[k], 0xaa) && s[9 + 2 * k] == Or(number[k], 0x55)
  {
    UidInDigits(uid);
    ResponseParts(uid);
    var s, number := DiscoveryResponse(uid), Digits(Value(uid), 6);
    hide DiscoveryResponse, Digits, SwapUid, UidMemory, Or, Sum, EuidEncode, EuidPairOf, Value;
    forall k: nat | k < 6
      ensures s[8 + 2 * k] == Or(number[k], 0xaa) && s[9 + 2 * k] == Or(number[k], 0x55)
    {
      PairAt(number, k);
      assert s[8..20][2 * k] == s[8 + 2 * k] && s[8..20][2 * k + 1] == s[9 + 2 * k];
    }
  }

  lemma CheckSent(uid: Uid)
    ensures var s := DiscoveryResponse(uid);
            var check := Digits(Sum(s[8..20]) % 0x1_0000, 2);
            forall k :: 0 <= k < 2 ==> s[20 + 2 * k] == Or(check[k], 0xaa) && s[21 + 2 * k] == Or(check[k], 0x55)
  {
    ResponseParts(uid);
    var s, wire := DiscoveryResponse(uid), SwapUid(UidMemory(uid));
    var check := (Sum(wire) + 6 * 0xff) % 0x1_0000;
    WordInDigits(check);
    assert Swap16(Le16(check)) == [check / 0x100, check % 0x100];
    EuidEncodeMasks(wire, []);
    hide DiscoveryResponse, Digits, SwapUid, UidMemory, Or, Sum, Le16, Swap16, EuidEncode, Masked;
    assert s[20..22][0] == s[20] && s[20..22][1] == s[21] && s[22..24][0] == s[22] && s[22..24][1] == s[23];
  }

  lemma ResponseParts(uid: Uid)
    ensures var s, wire := DiscoveryResponse(uid), SwapUid(UidMemory(uid));
            var check := (Sum(wire) + 6 * 0xff) % 0x1_0000;
            && (forall k :: 0 <= k < 7 ==> s[k] == 0xfe) && s[7] == 0xaa && s[8..20] == EuidEncode(wire)
            && s[20..22] == EuidPairOf(check / 0x100) && s[22..24] == EuidPairOf(check % 0x100)
  {
    hide SwapUid, UidMemory, Sum, EuidEncode, EuidPairOf;
  }

  lemma {:induction false} PairAt(s: seq<Byte>, k: nat)
    requires k < |s|
    ensures EuidEncode(s)[2 * k] == Or(s[k], EUID_HIGH) && EuidEncode(s)[2 * k + 1] == Or(s[k], EUID_LOW)
  {
    hide Or;
    if k < |s| - 1 {
      PairAt(s[..|s| - 1], k);
    }
  }

  /**
   * Nothing is written exactly if the header's lengths disagree, its
   * sub-device, command class or response type does not exist, a request has
   * no port, the data is too long, missing or without a format, or the format
   * is not valid.
   */
  lemma WriteRefusedExactly(h: Header, format: Option<string>, pd: Option<seq<Byte>>)
    requires pd.Some? ==> |pd.value| >= h.pdl
    requires format.Some? ==> CheckFrom(format.value, 0) != DividesByZero
    ensures Written(h, format, pd).Refused? <==>
              || h.messageLen != 24 + h.pdl as int || h.pdl >= 231
              || (512 < h.subDevice < 0xffff) || h.cc % 0x10 >= 2
              || (h.cc % 2 == 0 && h.portId == 0) || (h.cc % 2 == 1 && h.portId > 3)
              || (format.Some? && CheckFrom(format.value, 0) == Invalid)
              || (h.pdl > 0 && (format.None? || pd.None?))
  {
    hide CheckFrom, Encode, Tokens, Framed, Message, DiscoveryResponse;
  }

  // ----- Exactly which packets are read -----

  /** A standard message, at the head of the buffer, whose bytes add up to the number behind them. */
  predicate AddsUp(data: Buffer) {
    var n := data[2];
    data[0] == 0xcc && data[1] == 0x01 && Sum(data[..n]) % 0x1_0000 == Number(data[n..n + 2])
  }

  /** A discovery response with n bytes before its delimiter whose pairs add up to the number they carry. */
  predicate PairsAddUp(data: Buffer, n: nat) {
    && n <= 7 && (data[0] == 0xfe || data[0] == 0xaa)
    && data[n] == 0xaa && (forall k :: 0 <= k < n ==> data[k] != 0xaa)
    && Sum(data[n + 1..n + 13]) % 0x1_0000 == PairNumber(data, n + 13, 2)
  }

  /** The number carried by k pairs from i on. */
  function PairNumber(data: Buffer, i: nat, k: nat): nat
    requires i + 2 * k <= PACKET_MAX
  {
    if k == 0 then 0 else PairNumber(data, i, k - 1) * 0x100 + And(data[i + 2 * k - 2], data[i + 2 * k - 1])
  }

  lemma PairOfBytes(a: Byte, b: Byte)
    ensures Number([a, b]) == a as int * 0x100 + b && FromLe16(Swap16([a, b])) == Number([a, b])
  {
    var s: seq<Byte> := [a, b];
    assert s[..1] == [a];
    assert Number([a]) == Number([]) * 0x100 + a;
  }

  lemma WordRead(s: seq<Byte>)
    requires |s| == 2
    ensures FromLe16(Swap16(s)) == Number(s)
  {
    PairOfBytes(s[0], s[1]);
    assert s == [s[0], s[1]];
  }

  lemma UidRead(s: seq<Byte>)
    requires |s| == 6
    ensures Value(UidFromMemory(SwapUid(s))) == Number(s)
  {
    var u := UidFromMemory(SwapUid(s));
    var m: seq<Byte>, d: seq<Byte> := s[..2], s[2..];
    DigitsOfNumber(s);
    UidInDigits(u);
    SwappedBack(s);
    NumberOfDigits(Value(u), 6);
    assert Limit(6) == 0x1_0000_0000_0000;
  }

  lemma SwappedBack(s: seq<Byte>)
    requires |s| == 6
    ensures SwapUid(UidMemory(UidFromMemory(SwapUid(s)))) == s
  {
  }

  lemma StandardRead(data: Buffer)
    requires data[0] == 0xcc && data[1] == 0x01
    ensures ReadHeader(data) == if AddsUp(data) then Some(WireFields(data)) else None
  {
    var n := data[2];
    WordRead(data[n..n + 2]);
    hide WireFields, Number, FromLe16, Swap16, Sum;
  }

  /** The fields are the numbers at their places. */
  ghost predicate HoldsFields(data: Buffer, h: Header) {
    && h.messageLen == data[2] && Value(h.destUid) == Number(data[3..9]) && Value(h.srcUid) == Number(data[9..15])
    && h.tn == data[15] && h.portId == data[16] && h.messageCount == data[17] && h.cc == data[20]
    && h.subDevice == Number(data[18..20]) && h.pid == Number(data[21..23]) && h.pdl == data[23]
  }

  lemma FieldsRead(data: Buffer)
    ensures HoldsFields(data, WireFields(data))
  {
    UidRead(data[3..9]);
    UidRead(data[9..15]);
    WordRead(data[18..20]);
    WordRead(data[21..23]);
    hide Number, Value, FromLe16, Swap16, UidFromMemory, SwapUid;
  }

  lemma {:induction false} PairNumberIs(data: Buffer, i: nat, k: nat, s: seq<Byte>)
    requires i + 2 * k <= PACKET_MAX && |s| == k
    requires forall j :: 0 <= j < k ==> s[j] == And(data[i + 2 * j], data[i + 2 * j + 1])
    ensures PairNumber(data, i, k) == Number(s)
  {
    hide And;
    if k > 0 {
      PairNumberIs(data, i, k - 1, s[..k - 1]);
    }
  }

  lemma {:induction false} DelimiterFound(data: Buffer, n: nat, i: nat)
    requires i <= n <= 7 && data[n] == 0xaa && forall k :: i <= k < n ==> data[k] != 0xaa
    ensures PreambleLength(data, i) == n
    decreases n - i
  {
    if i < n {
      DelimiterFound(data, n, i + 1);
    }
  }

  lemma ResponseRead(data: Buffer, n: nat)
    requires n <= 7 && PreambleLength(data, 0) == n && (data[0] == 0xfe || data[0] == 0xaa)
    ensures ReadHeader(data)
         == if PairsAddUp(data, n) then Some(DiscoveryHeader(OfValue(PairNumber(data, n + 1, 6)), n)) else None
  {
    var euid := data[n + 1..];
    assert euid[..12] == data[n + 1..n + 13];
    EuidNumber(data, n);
    var hi, lo := Masked(euid, 6), Masked(euid, 7);
    PairOfBytes(hi, lo);
    PairNumberIs(data, n + 13, 2, [hi, lo]);
    hide Number, And, Sum, PreambleLength, EuidDecode, PairNumber, Masked, FromLe16, Swap16;
  }

  lemma EuidNumber(data: Buffer, n: nat)
    requires n <= 7
    ensures EuidDecode(data[n + 1..]) == OfValue(PairNumber(data, n + 1, 6))
  {
    var euid := data[n + 1..];
    var s := seq(6, i requires 0 <= i < 6 => Masked(euid, i));
    PairNumberIs(data, n + 1, 6, s);
    UidRead(s);
    OfValueOf(EuidDecode(euid));
    hide Number, And, PairNumber, UidFromMemory, SwapUid, Value, OfValue;
  }

  /** The header a discovery response with n bytes before its delimiter reads as. */
  function ResponseFields(data: Buffer, n: nat): Header
    requires n <= 7
  {
    Header(n + 17, Uid(0xffff, 0xffff_ffff), OfValue(PairNumber(data, n + 1, 6)), 0, 0, 0, 0, 0x11, 1, 0)
  }

  /** The read is that of a standard message that adds up, of a response whose pairs do, or of nothing. */
  ghost predicate IsExact(data: Buffer, read: Option<Header>) {
    && (read.Some? <==> AddsUp(data) || exists n: nat :: PairsAddUp(data, n))
    && (AddsUp(data) ==> HoldsFields(data, read.value))
    && forall n: nat :: PairsAddUp(data, n) ==> read.value == ResponseFields(data, n)
  }

  lemma StandardExact(data: Buffer)
    requires data[0] == 0xcc && data[1] == 0x01
    ensures IsExact(data, ReadHeader(data))
  {
    StandardRead(data);
    FieldsRead(data);
    hide ReadHeader, HoldsFields, WireFields, Sum, Number, PairNumber, ResponseFields;
  }

  lemma ResponseExact(data: Buffer, n: nat)
    requires n <= 7 && (data[0] == 0xfe || data[0] == 0xaa)
    requires data[n] == 0xaa && forall k :: 0 <= k < n ==> data[k] != 0xaa
    ensures IsExact(data, ReadHeader(data))
  {
    DelimiterFound(data, n, 0);
    ResponseRead(data, n);
    hide ReadHeader, PreambleLength, PairNumber, OfValue, Sum, Number, HoldsFields;
    assert forall m: nat :: PairsAddUp(data, m) ==> m == n;
  }

  lemma NothingExact(data: Buffer)
    requires !(data[0] == 0xcc && data[1] == 0x01)
    requires data[0] == 0xfe || data[0] == 0xaa ==>
               !exists n: nat :: n <= 7 && data[n] == 0xaa && forall k :: 0 <= k < n ==> data[k] != 0xaa
    ensures IsExact(data, ReadHeader(data))
  {
    if data[0] == 0xfe || data[0] == 0xaa {
      DelimiterMissing(data);
    }
    assert ReadHeader(data) == None;
    hide ReadHeader, PreambleLength, Sum, Number, PairNumber, HoldsFields, ResponseFields;
  }

  /**
   * A packet is read exactly if it is a standard message or a discovery
   * response whose bytes add up, and then its fields are the numbers at their
   * places.
   */
  lemma ReadExactly(data: Buffer)
    ensures ReadHeader(data).Some? <==> AddsUp(data) || exists n: nat :: PairsAddUp(data, n)
    ensures AddsUp(data) ==> HoldsFields(data, ReadHeader(data).value)
    ensures forall n: nat :: PairsAddUp(data, n) ==> ReadHeader(data) == Some(ResponseFields(data, n))
  {
    hide ReadHeader, AddsUp, HoldsFields, ResponseFields;
    if data[0] == 0xcc && data[1] == 0x01 {
      StandardExact(data);
    } else if n: nat :| n <= 7 && data[n] == 0xaa && (forall k :: 0 <= k < n ==> data[k] != 0xaa)
                        && (data[0] == 0xfe || data[0] == 0xaa) {
      ResponseExact(data, n);
    } else {
      NothingExact(data);
    }
  }

  lemma DelimiterMissing(data: Buffer)
    requires !exists n: nat :: n <= 7 && data[n] == 0xaa && forall k :: 0 <= k < n ==> data[k] != 0xaa
    ensures PreambleLength(data, 0) == 8
  {
  }

  // ----- Changed bytes -----

  lemma {:induction false} SumChanged(s: seq<Byte>, i: nat, b: Byte)
    requires i < |s|
    ensures Sum(s[i := b]) == Sum(s) - s[i] + b
  {
    var n := |s| - 1;
    if i < n {
      SumChanged(s[..n], i, b);
      assert s[i := b][..n] == s[..n][i := b];
    } else {
      assert s[i := b][..n] == s[..n];
    }
  }

  lemma RemainderChanged(sum: nat, sum': nat)
    requires sum != sum' && -0x100 < sum - sum' < 0x100
    ensures sum % 0x1_0000 != sum' % 0x1_0000
  {
  }

  lemma NumberChanged(s: seq<Byte>, s': seq<Byte>)
    requires |s| == |s'| && s != s'
    ensures Number(s) != Number(s')
  {
    DigitsOfNumber(s);
    DigitsOfNumber(s');
  }

  /** A standard message with any one byte changed, but for its start code and its length, is not read. */
  lemma ChangedByteUnread(data: Buffer, i: nat, b: Byte)
    requires AddsUp(data) && i < data[2] as int + 2 && i != 0 && i != 2 && b != data[i]
    ensures ReadHeader(data[i := b]) == None
  {
    var data', n := data[i := b], data[2];
    if i == 1 {
      NotRead(data');
    } else {
      StandardRead(data');
      hide ReadHeader, Number, Sum;
      if i < n {
        assert data'[..n] == data[..n][i := b] && data'[n..n + 2] == data[n..n + 2];
        SumChanged(data[..n], i, b);
        RemainderChanged(Sum(data[..n]), Sum(data'[..n]));
      } else {
        assert data'[..n] == data[..n];
        assert data'[n..n + 2][i - n] != data[n..n + 2][i - n];
        NumberChanged(data[n..n + 2], data'[n..n + 2]);
      }
    }
  }

  lemma NotRead(data: Buffer)
    requires data[0] == 0xcc && data[1] != 0x01
    ensures ReadHeader(data) == None
  {
  }

  lemma {:induction false} PairNumberSame(data: Buffer, data': Buffer, i: nat, k: nat)
    requires i + 2 * k <= PACKET_MAX && forall j :: i <= j < i + 2 * k ==> data'[j] == data[j]
    ensures PairNumber(data', i, k) == PairNumber(data, i, k)
  {
    hide And;
    if k > 0 {
      PairNumberSame(data, data', i, k - 1);
    }
  }

  /** A discovery response with any one byte of its UID's pairs changed is not read. */
  lemma ChangedPairUnread(data: Buffer, n: nat, i: nat, b: Byte)
    requires PairsAddUp(data, n) && n + 1 <= i < n + 13 && b != data[i]
    ensures ReadHeader(data[i := b]) == None
  {
    var data' := data[i := b];
    DelimiterFound(data', n, 0);
    ResponseRead(data', n);
    PairNumberSame(data, data', n + 13, 2);
    hide ReadHeader, Sum, PreambleLength, And, PairNumber;
    var pairs := data[n + 1..n + 13];
    assert data'[n + 1..n + 13] == pairs[i - (n + 1) := b];
    SumChanged(pairs, i - (n + 1), b);
    RemainderChanged(Sum(pairs), Sum(data'[n + 1..n + 13]));
  }

  /** The length is not protected: with the right stale bytes behind it, any short message reads two bytes longer. */
  lemma LengthUnprotected(h: Header, body: seq<Byte>) returns (rest: seq<Byte>)
    requires |body| < 230
    ensures |Framed(Message(h, body)) + rest| == PACKET_MAX
    ensures AddsUp(Framed(Message(h, body)) + rest)
    ensures ReadHeader((Framed(Message(h, body)) + rest)[2 := 26 + |body|]).Some?
  {
    var bytes := Framed(Message(h, body));
    var n := |bytes|;
    var longer := bytes[2 := 26 + |body|];
    var check := Digits(Sum(longer) % 0x1_0000, 2);
    rest := check + seq(PACKET_MAX - n - 2, _ => 0);
    var data: Buffer := bytes + rest;
    FramedReads(h, body, rest);
    ReadExactly(data);
    var data': Buffer := data[2 := 26 + |body|];
    assert data' == longer + check + seq(PACKET_MAX - n - 2, _ => 0);
    assert data'[..n] == longer && data'[n..n + 2] == check;
    NumberOfDigits(Sum(longer) % 0x1_0000, 2);
    assert Limit(2) == 0x1_0000;
    hide Sum, Digits, Number, ReadHeader, Limit, Checksum;
    assert data'[0] == 0xcc && data'[1] == 0x01 && data'[2] == n;
    StandardRead(data');
  }

  /** Nor is the start code: a request changed in one byte can read as a discovery response. */
  lemma StartCodeUnprotected(rest: seq<Byte>)
    requires var h := Header(24, Uid(0, 0), Uid(0, 0), 25, 25, 0, 0, 0x20, 0x60, 0);
             |Framed(Message(h, [])) + rest| == PACKET_MAX
    ensures var h := Header(24, Uid(0, 0), Uid(0, 0), 25, 25, 0, 0, 0x20, 0x60, 0);
            ReadHeader((Framed(Message(h, [])) + rest)[0 := 0xaa]).Some?
  {
    var h := Header(24, Uid(0, 0), Uid(0, 0), 25, 25, 0, 0, 0x20, 0x60, 0);
    var data: Buffer := (Framed(Message(h, [])) + rest)[0 := 0xaa];
    ZeroUid();
    assert Patched(h, []) == h;
    assert SwapUid(NULL_UID) == NULL_UID;
    assert data[..17] == [0xaa, 0x01, 24] + NULL_UID + NULL_UID + [25, 25];
    assert data[1..13] == [1, 24] + seq(10, _ => 0);
    SumAppend([1, 24], seq(10, _ => 0));
    SumPair([1, 24]);
    SumOfZeroes(10);
    assert And(25, 25) == 25 by {
      AndSelf(25);
    }
    var head := data[..17];
    assert head[13] == data[13] == 0 && head[14] == data[14] == 0 && head[15] == data[15] == 25 == head[16] == data[16];
    assert PairNumber(data, 13, 1) == PairNumber(data, 13, 0) * 0x100 + And(data[13], data[14]) == 0;
    assert PairNumber(data, 13, 2) == PairNumber(data, 13, 1) * 0x100 + And(data[15], data[16]) == 25;
    hide Sum, PairNumber, And;
    assert PairsAddUp(data, 0);
    ReadExactly(data);
  }

  lemma {:induction false} SumOfZeroes(n: nat)
    ensures Sum(seq(n, _ => 0)) == 0
  {
    if n > 0 {
      SumOfZeroes(n - 1);
      var zeroes: seq<Byte> := seq(n, _ => 0);
      assert zeroes[..n - 1] == seq(n - 1, _ => 0);
    }
  }

  lemma {:induction false} AndSelf(x: nat)
    ensures And(x, x) == x
  {
    if x > 0 {
      AndSelf(x / 2);
    }
  }
}
