/**
 * RDM packets in the driver's buffer: `rdm_write`, `rdm_read_header` and
 * `rdm_read_pd` (section 6.2 of ANSI E1.20, and the discovery response of
 * section 7).
 */
module Packets {
  import opened Options
  import opened Uids
  import opened Bytes
  import opened Formats

  const PACKET_MAX := 513
  const HEADER_SIZE := 24

  const RDM_SC: Byte := 0xcc
  const RDM_SUB_SC: Byte := 0x01
  const PREAMBLE: Byte := 0xfe
  const DELIMITER: Byte := 0xaa

  const CC_DISC: Byte := 0x10
  const CC_DISC_RESPONSE: Byte := 0x11
  const CC_GET: Byte := 0x20
  const CC_SET: Byte := 0x30

  const RESPONSE_ACK: Byte := 0
  const RESPONSE_TIMER: Byte := 1
  const RESPONSE_NACK: Byte := 2
  const RESPONSE_OVERFLOW: Byte := 3

  const PID_DISC_UNIQUE_BRANCH: Word16 := 1

  const SUB_DEVICE_MAX := 513
  const SUB_DEVICE_ALL := 0xffff

  /** `portId` is the port of a request and the response type of a response. */
  datatype Header = Header(
    messageLen: Byte, destUid: Uid, srcUid: Uid, tn: Byte, portId: Byte, messageCount: Byte,
    subDevice: Word16, cc: Byte, pid: Word16, pdl: Byte)

  type Buffer = s: seq<Byte> | |s| == PACKET_MAX witness seq(PACKET_MAX, _ => 0)

  predicate CcIsValid(cc: Byte) {
    cc % 0x10 < 2
  }

  predicate CcIsRequest(cc: Byte) {
    cc % 2 == 0
  }

  // ----- Layout -----

  /** The header struct in memory; the first two bytes are unnamed. */
  function HeaderMemory(h: Header, pad: seq<Byte>): (s: seq<Byte>)
    requires |pad| == 2
    ensures |s| == HEADER_SIZE
  {
    pad + [h.messageLen] + UidMemory(h.destUid) + UidMemory(h.srcUid) + [h.tn, h.portId, h.messageCount]
    + Le16(h.subDevice) + [h.cc] + Le16(h.pid) + [h.pdl]
  }

  /** The header on the wire. */
  function HeaderWire(h: Header): (s: seq<Byte>)
    ensures |s| == HEADER_SIZE
  {
    [RDM_SC, RDM_SUB_SC, h.messageLen] + SwapUid(UidMemory(h.destUid)) + SwapUid(UidMemory(h.srcUid))
    + [h.tn, h.portId, h.messageCount] + Swap16(Le16(h.subDevice)) + [h.cc] + Swap16(Le16(h.pid)) + [h.pdl]
  }

  const HEADER_FORMAT := "xCCx01buubbbwbwb"

  const HEADER_TOKENS :=
    [TLiteral(0xcc), TLiteral(0x01), TByte, TUid, TUid, TByte, TByte, TByte, TWord, TByte, TWord, TByte]

  /** A symbol in front of a format puts its token in front. */
  lemma TokensCons(symbol: string, s: string, format: string)
    requires symbol != [] && symbol[0] != ' ' && format == symbol + s
    requires |symbol| == if symbol[0] == 'x' then 3 else 1
    ensures Tokens(format) == [TokenAt(format)] + Tokens(s)
  {
    assert format[Width(format)..] == s;
  }

  lemma HeaderTokens()
    ensures Tokens(HEADER_FORMAT) == HEADER_TOKENS
  {
    hide Tokens;
    HeaderTokensEnd();
    TokensCons("u", "bbbwbwb", "ubbbwbwb");
    TokensCons("u", "ubbbwbwb", "uubbbwbwb");
    TokensCons("b", "uubbbwbwb", "buubbbwbwb");
    TokensCons("x01", "buubbbwbwb", "x01buubbbwbwb");
    TokensCons("xCC", "x01buubbbwbwb", "xCCx01buubbbwbwb");
  }

  lemma HeaderTokensEnd()
    ensures Tokens("bbbwbwb") == [TByte, TByte, TByte, TWord, TByte, TWord, TByte]
  {
    hide Tokens;
    EmptyFormat();
    TokensCons("b", "", "b");
    TokensCons("w", "b", "wb");
    TokensCons("b", "wb", "bwb");
    TokensCons("w", "bwb", "wbwb");
    TokensCons("b", "wbwb", "bwbwb");
    TokensCons("b", "bwbwb", "bbwbwb");
    TokensCons("b", "bbwbwb", "bbbwbwb");
  }

  /** What the symbols of a format stand for. */
  lemma SymbolsRead()
    ensures Tokens("bwdu") == [TByte, TWord, TDword, TUid]
    ensures Tokens("v") == [TOptionalUid] && Tokens("a") == [TAscii] && Tokens(" $") == [TStop]
    ensures Tokens("x7fd$") == [TLiteral(127), TDword, TStop]
  {
    hide Tokens;
    EmptyFormat();
    TokensCons("u", "", "u");
    TokensCons("d", "u", "du");
    TokensCons("w", "du", "wdu");
    TokensCons("b", "wdu", "bwdu");
    TokensCons("v", "", "v");
    TokensCons("a", "", "a");
    TokensCons("$", "", "$");
    TokensCons("d", "$", "d$");
    TokensCons("x7f", "d$", "x7fd$");
    SpaceSkipped("$", " $");
  }

  lemma SpaceSkipped(s: string, format: string)
    requires format == " " + s
    ensures Tokens(format) == Tokens(s)
  {
    assert format[1..] == s;
  }

  lemma WordFormat()
    ensures Tokens("w") == [TWord] && CheckFrom("w", 0) == Valid && PlainFor("w", 2)
    ensures forall n: nat :: FitsData(Tokens("w"), n) <==> n % 2 == 0
  {
    assert "w"[1..] == "";
    EmptyFormat();
    assert Tokens("w") == [TWord];
    var ts := [TWord];
    assert ts[1..] == [];
    assert FixedSize(ts) == 2 && !Terminated(ts) && Known(ts);
  }

  lemma EmptyFormat()
    ensures Tokens("") == []
  {
  }

  /** The format of the header turns the struct in memory into the header on the wire. */
  lemma HeaderEncodes(h: Header, pad: seq<Byte>)
    requires |pad| == 2
    ensures Encode(HEADER_TOKENS, [], HeaderMemory(h, pad), false) == Encoded(HeaderWire(h))
  {
    hide Encode, UidMemory, SwapUid, Le16, Le32, Swap16;
    var all := HEADER_TOKENS;
    PassStarts(all, HeaderMemory(h, pad), false);
    var ts, m, w := HeaderEncodesMiddle(all, h);
    EncodeStep(all, TLiteral(0x01), ts, [pad[1]], m, w, false);
    EncodeStep(all, TLiteral(0xcc), [TLiteral(0x01)] + ts, [pad[0]], [pad[1]] + m, [RDM_SUB_SC] + w, false);
    assert [TLiteral(0xcc)] + ([TLiteral(0x01)] + ts) == all;
    assert [pad[0]] + ([pad[1]] + m) == HeaderMemory(h, pad);
    assert [RDM_SC] + ([RDM_SUB_SC] + w) == HeaderWire(h);
  }

  /** The length, the UIDs and the fields after them. */
  lemma HeaderEncodesMiddle(all: seq<Token>, h: Header) returns (ts: seq<Token>, m: seq<Byte>, w: seq<Byte>)
    ensures ts == [TByte, TUid, TUid, TByte, TByte, TByte, TWord, TByte, TWord, TByte]
    ensures m == [h.messageLen] + UidMemory(h.destUid) + UidMemory(h.srcUid) + [h.tn, h.portId, h.messageCount]
                 + Le16(h.subDevice) + [h.cc] + Le16(h.pid) + [h.pdl]
    ensures w == [h.messageLen] + SwapUid(UidMemory(h.destUid)) + SwapUid(UidMemory(h.srcUid))
                 + [h.tn, h.portId, h.messageCount] + Swap16(Le16(h.subDevice)) + [h.cc] + Swap16(Le16(h.pid)) + [h.pdl]
    ensures Encode(all, ts, m, false) == Encoded(w)
  {
    hide Encode, UidMemory, SwapUid, Le16, Le32, Swap16;
    var d, s := UidMemory(h.destUid), UidMemory(h.srcUid);
    ts, m, w := HeaderEncodesEnd(all, h);
    EncodeStep(all, TUid, ts, s, m, w, false);
    ts, m, w := [TUid] + ts, s + m, SwapUid(s) + w;
    EncodeStep(all, TUid, ts, d, m, w, false);
    ts, m, w := [TUid] + ts, d + m, SwapUid(d) + w;
    EncodeStep(all, TByte, ts, [h.messageLen], m, w, false);
    ts, m, w := [TByte] + ts, [h.messageLen] + m, [h.messageLen] + w;
  }

  /** The fields after the UIDs. */
  lemma HeaderEncodesEnd(all: seq<Token>, h: Header) returns (ts: seq<Token>, m: seq<Byte>, w: seq<Byte>)
    ensures ts == [TByte, TByte, TByte, TWord, TByte, TWord, TByte]
    ensures m == [h.tn, h.portId, h.messageCount] + Le16(h.subDevice) + [h.cc] + Le16(h.pid) + [h.pdl]
    ensures w == [h.tn, h.portId, h.messageCount] + Swap16(Le16(h.subDevice)) + [h.cc] + Swap16(Le16(h.pid)) + [h.pdl]
    ensures Encode(all, ts, m, false) == Encoded(w)
  {
    hide Encode, Le16, Swap16;
    ts, m, w := HeaderEncodesLast(all, h);
    EncodeStep(all, TByte, ts, [h.messageCount], m, w, false);
    ts, m, w := [TByte] + ts, [h.messageCount] + m, [h.messageCount] + w;
    EncodeStep(all, TByte, ts, [h.portId], m, w, false);
    ts, m, w := [TByte] + ts, [h.portId] + m, [h.portId] + w;
    EncodeStep(all, TByte, ts, [h.tn], m, w, false);
    ts, m, w := [TByte] + ts, [h.tn] + m, [h.tn] + w;
  }

  /** The sub-device and the fields after it. */
  lemma HeaderEncodesLast(all: seq<Token>, h: Header) returns (ts: seq<Token>, m: seq<Byte>, w: seq<Byte>)
    ensures ts == [TWord, TByte, TWord, TByte]
    ensures m == Le16(h.subDevice) + [h.cc] + Le16(h.pid) + [h.pdl]
    ensures w == Swap16(Le16(h.subDevice)) + [h.cc] + Swap16(Le16(h.pid)) + [h.pdl]
    ensures Encode(all, ts, m, false) == Encoded(w)
  {
    hide Encode, Le16, Swap16;
    PassStarts(all, [], false);
    EncodeStep(all, TByte, [], [h.pdl], [], [], false);
    ts, m, w := [TByte] + [], [h.pdl] + [], [h.pdl] + [];
    EncodeStep(all, TWord, ts, Le16(h.pid), m, w, false);
    ts, m, w := [TWord] + ts, Le16(h.pid) + m, Swap16(Le16(h.pid)) + w;
    EncodeStep(all, TByte, ts, [h.cc], m, w, false);
    ts, m, w := [TByte] + ts, [h.cc] + m, [h.cc] + w;
    EncodeStep(all, TWord, ts, Le16(h.subDevice), m, w, false);
    ts, m, w := [TWord] + ts, Le16(h.subDevice) + m, Swap16(Le16(h.subDevice)) + w;
  }

  // ----- Checksums -----

  function Sum(s: seq<Byte>): nat {
    if s == [] then 0 else Sum(s[..|s| - 1]) + s[|s| - 1]
  }

  function Checksum(s: seq<Byte>): Word16 {
    Sum(s) % 0x1_0000
  }

  lemma {:induction false} SumAppend(a: seq<Byte>, b: seq<Byte>)
    ensures Sum(a + b) == Sum(a) + Sum(b)
    decreases |b|
  {
    if b == [] {
      assert a + b == a;
    } else {
      SumAppend(a, b[..|b| - 1]);
      assert (a + b)[..|a + b| - 1] == a + b[..|b| - 1];
    }
  }

  // ----- Reading a header -----

  /** The header fields in the first 24 bytes of a standard packet. */
  function WireFields(data: seq<Byte>): Header
    requires |data| >= HEADER_SIZE
  {
    Header(data[2], UidFromMemory(SwapUid(data[3..9])), UidFromMemory(SwapUid(data[9..15])), data[15],
           data[16], data[17],
           FromLe16(Swap16(data[18..20])), data[20], FromLe16(Swap16(data[21..23])), data[23])
  }

  lemma FieldsOfHeader(h: Header, rest: seq<Byte>)
    ensures WireFields(HeaderWire(h) + rest) == h
  {
    var d := HeaderWire(h) + rest;
    UidMemoryRoundTrip(h.destUid);
    UidMemoryRoundTrip(h.srcUid);
    Le16RoundTrip(h.subDevice);
    Le16RoundTrip(h.pid);
    hide UidMemory, UidFromMemory, Le16, FromLe16;
    assert SwapUid(d[3..9]) == UidMemory(h.destUid);
    assert SwapUid(d[9..15]) == UidMemory(h.srcUid);
    assert Swap16(d[18..20]) == Le16(h.subDevice);
    assert Swap16(d[21..23]) == Le16(h.pid);
  }

  /** The header reported for a discovery response with `preambleLen` preamble bytes, from `uid`. */
  function DiscoveryHeader(uid: Uid, preambleLen: nat): Header
    requires preambleLen <= 7
  {
    Header(preambleLen + 17, BROADCAST_ALL, uid, 0, RESPONSE_ACK, 0, 0, CC_DISC_RESPONSE, PID_DISC_UNIQUE_BRANCH, 0)
  }

  /** The index of the first delimiter in the first eight bytes, or 8. */
  function PreambleLength(data: seq<Byte>, i: nat): (n: nat)
    requires i <= 8 <= |data|
    ensures i <= n <= 8
    ensures n < 8 ==> data[n] == DELIMITER
    ensures forall k :: i <= k < n ==> data[k] != DELIMITER
    decreases 8 - i
  {
    if i == 8 || data[i] == DELIMITER then i else PreambleLength(data, i + 1)
  }

  /** The UID carried by twelve bytes of masked pairs, in memory order after the swaps. */
  function EuidDecode(data: seq<Byte>): Uid
    requires |data| >= 12
  {
    UidFromMemory(SwapUid(seq(6, i requires 0 <= i < 6 => Masked(data, i))))
  }

  function Masked(data: seq<Byte>, i: nat): Byte
    requires 2 * i + 1 < |data|
  {
    AndBound(data[2 * i], data[2 * i + 1]);
    And(data[2 * i], data[2 * i + 1])
  }

  lemma AndBound(x: nat, y: nat)
    ensures And(x, y) <= x
  {
  }

  /** `rdm_read_header`: the header of the packet in the buffer, if it is one. */
  function ReadHeader(data: Buffer): Option<Header> {
    if data[0] == RDM_SC && data[1] == RDM_SUB_SC then
      var len := data[2];
      if Checksum(data[..len]) == FromLe16(Swap16(data[len..len + 2])) then Some(WireFields(data)) else None
    else if data[0] == PREAMBLE || data[0] == DELIMITER then
      var n := PreambleLength(data, 0);
      if n > 7 then None
      else
        var euid := data[n + 1..];
        if Checksum(euid[..12]) == 0x100 * Masked(euid, 6) + Masked(euid, 7)
        then Some(DiscoveryHeader(EuidDecode(euid), n))
        else None
    else None
  }

  // ----- Writing a packet -----

  /** The packet with this header and body, checksum included. */
  function Framed(message: seq<Byte>): seq<Byte> {
    message + Swap16(Le16(Checksum(message)))
  }

  function Message(h: Header, body: seq<Byte>): seq<Byte>
    requires |body| <= PDL_MAX
  {
    HeaderWire(Patched(h, body)) + body
  }

  /** The header with both lengths made to agree with the body. */
  function Patched(h: Header, body: seq<Byte>): Header
    requires |body| <= PDL_MAX
  {
    h.(messageLen := HEADER_SIZE + |body|, pdl := |body|)
  }

  /** A framed message is read back whole, whatever follows it in the buffer. */
  lemma FramedReads(h: Header, body: seq<Byte>, rest: seq<Byte>)
    requires |body| <= PDL_MAX && |Framed(Message(h, body)) + rest| == PACKET_MAX
    ensures ReadHeader(Framed(Message(h, body)) + rest) == Some(Patched(h, body))
  {
    var m := Message(h, body);
    var data := Framed(m) + rest;
    var check := Swap16(Le16(Checksum(m)));
    assert data == HeaderWire(Patched(h, body)) + (body + check + rest);
    FieldsOfHeader(Patched(h, body), body + check + rest);
    assert data[2] == HEADER_SIZE + |body| == |m|;
    assert data[..|m|] == m && data[|m|..|m| + 2] == check;
    Le16RoundTrip(Checksum(m));
    hide Le16, FromLe16, Checksum, HeaderWire, WireFields;
    assert Swap16(check) == Le16(Checksum(m));
  }

  // ----- The discovery response -----

  const RESPONSE_PREAMBLE := 7

  function EuidPairOf(x: Byte): (s: seq<Byte>)
    ensures |s| == 2
  {
    EuidPair(x);
    [Or(x, EUID_HIGH), Or(x, EUID_LOW)]
  }

  function EuidEncode(s: seq<Byte>): (r: seq<Byte>)
    ensures |r| == 2 * |s|
  {
    if s == [] then [] else EuidEncode(s[..|s| - 1]) + EuidPairOf(s[|s| - 1])
  }

  /** Every pair of an encoded byte string masks back to its byte, and the sum is known. */
  lemma {:induction false} EuidEncodeMasks(s: seq<Byte>, rest: seq<Byte>)
    ensures forall i :: 0 <= i < |s| ==> Masked(EuidEncode(s) + rest, i) == s[i]
    ensures Sum(EuidEncode(s)) == Sum(s) + 0xff * |s|
  {
    if s != [] {
      var front, last := s[..|s| - 1], s[|s| - 1];
      EuidEncodeMasks(front, EuidPairOf(last) + rest);
      assert EuidEncode(s) + rest == EuidEncode(front) + (EuidPairOf(last) + rest);
      EuidPair(last);
      SumAppend(EuidEncode(front), EuidPairOf(last));
      SumPair(EuidPairOf(last));
    }
  }

  lemma SumPair(s: seq<Byte>)
    requires |s| == 2
    ensures Sum(s) == (s[0] as int) + s[1]
  {
    assert s[..1][..0] == [];
    assert Sum(s[..1]) == s[0];
  }

  /** The discovery response of `uid`, from its delimiter on. */
  function EuidMessage(uid: Uid): (s: seq<Byte>)
    ensures |s| == 17
  {
    var wire := SwapUid(UidMemory(uid));
    var check := (Sum(wire) + 6 * 0xff) % 0x1_0000;
    [DELIMITER] + EuidEncode(wire) + EuidPairOf(check / 0x100) + EuidPairOf(check % 0x100)
  }

  /** The response as `rdm_write` builds it, with seven preamble bytes. */
  function DiscoveryResponse(uid: Uid): (s: seq<Byte>)
    ensures |s| == 24
  {
    seq(RESPONSE_PREAMBLE, _ => PREAMBLE) + EuidMessage(uid)
  }

  lemma PreambleFound(data: seq<Byte>, n: nat, i: nat)
    requires i <= n < 8 <= |data| && data[n] == DELIMITER
    requires forall k :: i <= k < n ==> data[k] == PREAMBLE
    ensures PreambleLength(data, i) == n
    decreases n - i
  {
  }

  lemma MaskedPairs(hi: Byte, lo: Byte, pairs: seq<Byte>, rest: seq<Byte>)
    requires |pairs| == 12
    ensures var euid := pairs + (EuidPairOf(hi) + EuidPairOf(lo) + rest);
            Masked(euid, 6) == hi && Masked(euid, 7) == lo
  {
    EuidPair(hi);
    EuidPair(lo);
    hide And, Or;
  }

  /** The checksum and the UID of a response are recovered from its masked pairs. */
  lemma EuidDecodes(uid: Uid, rest: seq<Byte>)
    ensures var euid := EuidMessage(uid)[1..] + rest;
            && Checksum(euid[..12]) == 0x100 * Masked(euid, 6) + Masked(euid, 7)
            && EuidDecode(euid) == uid
  {
    hide And, Or, Sum, UidFromMemory, UidMemory, EuidEncode;
    var wire := SwapUid(UidMemory(uid));
    var check := (Sum(wire) + 6 * 0xff) % 0x1_0000;
    var pairs, checks := EuidEncode(wire), EuidPairOf(check / 0x100) + EuidPairOf(check % 0x100) + rest;
    var euid := EuidMessage(uid)[1..] + rest;
    assert euid == pairs + checks;
    EuidEncodeMasks(wire, checks);
    MaskedPairs(check / 0x100, check % 0x100, pairs, rest);
    assert euid[..12] == pairs;
    UidMemoryRoundTrip(uid);
    assert seq(6, i requires 0 <= i < 6 => Masked(euid, i)) == wire;
    assert SwapUid(wire) == UidMemory(uid);
  }

  lemma DelimiterFirst(uid: Uid)
    ensures EuidMessage(uid)[0] == DELIMITER
  {
  }

  lemma ResponseLayout(uid: Uid, n: nat, rest: seq<Byte>)
    requires n <= RESPONSE_PREAMBLE
    ensures var data := DiscoveryResponse(uid)[RESPONSE_PREAMBLE - n..] + rest;
            && |data| == n + 17 + |rest|
            && (forall k :: 0 <= k < n ==> data[k] == PREAMBLE) && data[n] == DELIMITER
            && data[n + 1..] == EuidMessage(uid)[1..] + rest
  {
    DelimiterFirst(uid);
    hide EuidMessage;
  }

  /**
   * A discovery response that lost any of its leading preamble bytes is still
   * read as the UID that sent it, and its length is that of the bytes present.
   */
  lemma DiscoveryResponseReads(uid: Uid, lost: nat, rest: seq<Byte>)
    requires lost <= RESPONSE_PREAMBLE && |DiscoveryResponse(uid)[lost..] + rest| == PACKET_MAX
    ensures ReadHeader(DiscoveryResponse(uid)[lost..] + rest)
         == Some(DiscoveryHeader(uid, RESPONSE_PREAMBLE - lost))
    ensures DiscoveryHeader(uid, RESPONSE_PREAMBLE - lost).messageLen == |DiscoveryResponse(uid)[lost..]|
  {
    hide DiscoveryResponse, EuidMessage, PreambleLength, EuidDecode, Checksum, Masked;
    var n := RESPONSE_PREAMBLE - lost;
    ResponseLayout(uid, n, rest);
    PreambleFound(DiscoveryResponse(uid)[lost..] + rest, n, 0);
    EuidDecodes(uid, rest);
  }

  // ----- rdm_write -----

  datatype WriteResult = Refused | Wrote(bytes: seq<Byte>) | WriteUndefined

  predicate HeaderIsWritable(h: Header) {
    && h.messageLen == HEADER_SIZE + h.pdl
    && (h.subDevice < SUB_DEVICE_MAX || h.subDevice == SUB_DEVICE_ALL)
    && CcIsValid(h.cc)
    && h.pdl < PDL_MAX
    && (if CcIsRequest(h.cc) then h.portId > 0 else h.portId <= RESPONSE_OVERFLOW)
  }

  predicate IsDiscoveryResponse(h: Header) {
    h.cc == CC_DISC_RESPONSE && h.pid == PID_DISC_UNIQUE_BRANCH
  }

  /** What the body of a standard packet is: the parameter data under its format. */
  function Body(h: Header, format: Option<string>, pd: Option<seq<Byte>>): Outcome
    requires pd.Some? ==> |pd.value| >= h.pdl
    requires h.pdl == 0 || (format.Some? && pd.Some?)
  {
    if h.pdl == 0 then Encoded([]) else Encode(Tokens(format.value), [], pd.value[..h.pdl], false)
  }

  /** The bytes `rdm_write` leaves at the head of the buffer. */
  function Written(h: Header, format: Option<string>, pd: Option<seq<Byte>>): WriteResult
    requires pd.Some? ==> |pd.value| >= h.pdl
  {
    if !HeaderIsWritable(h) then Refused
    else if format.Some? && CheckFrom(format.value, 0) == DividesByZero then WriteUndefined
    else if format.Some? && CheckFrom(format.value, 0) == Invalid then Refused
    else if h.pdl > 0 && !(format.Some? && pd.Some?) then Refused
    else if IsDiscoveryResponse(h) then Wrote(DiscoveryResponse(h.srcUid))
    else
      match Body(h, format, pd)
      case Undefined => WriteUndefined
      case Encoded(body) =>
        BodyFits(h, format, pd);
        Wrote(Framed(Message(h, body)))
  }

  /** Without nulls filled in, the interpreter writes no more than it reads. */
  lemma {:induction false} EncodeShrinks(all: seq<Token>, todo: seq<Token>, data: seq<Byte>)
    requires Encode(all, todo, data, false).Encoded?
    ensures |Encode(all, todo, data, false).out| <= |data|
    decreases |data|, if todo == [] then 1 else 0
  {
    if todo == [] {
      if data != [] {
        EncodeShrinks(all, all, data);
      }
    } else if !Ends(todo[0]) {
      EncodeShrinks(all, todo[1..], data[Size(todo[0])..]);
    }
  }

  lemma BodyFits(h: Header, format: Option<string>, pd: Option<seq<Byte>>)
    requires pd.Some? ==> |pd.value| >= h.pdl
    requires h.pdl < PDL_MAX && (h.pdl == 0 || (format.Some? && pd.Some?))
    requires Body(h, format, pd).Encoded?
    ensures |Body(h, format, pd).out| <= h.pdl
  {
    if h.pdl > 0 {
      EncodeShrinks(Tokens(format.value), [], pd.value[..h.pdl]);
    }
  }

  // ----- rdm_read_pd -----

  datatype PdResult = NoData | Pd(pdl: nat, memory: Outcome)

  /** `rdm_read_pd` into a destination of `size` bytes: the PDL, and what is stored. */
  function ReadPd(data: Buffer, format: string, size: nat): PdResult {
    var pdl := data[23];
    if CheckFrom(format, 0) == DividesByZero then Pd(0, Undefined)
    else if CheckFrom(format, 0) == Invalid || pdl == 0 || pdl > PDL_MAX then NoData
    else
      var n := if pdl < size then pdl else size;
      Pd(pdl, Encode(Tokens(format), [], data[24..24 + n], true))
  }

  /** `rdm_read_pd` under a format that may be null; the interpreter would follow the null pointer. */
  function ReadData(buffer: Buffer, format: Option<string>, size: nat): PdResult {
    match format
    case Some(f) => ReadPd(buffer, f, size)
    case None => if 0 < buffer[23] <= PDL_MAX then Pd(buffer[23], Undefined) else NoData
  }

  // ----- What is written is read back -----

  /**
   * The round trip of the header: it comes back with both of its lengths equal
   * to the bytes really sent, which may be fewer than announced.
   */
  lemma WriteThenReadHeader(h: Header, format: Option<string>, pd: Option<seq<Byte>>, rest: seq<Byte>)
    requires pd.Some? ==> |pd.value| >= h.pdl
    requires Written(h, format, pd).Wrote? && !IsDiscoveryResponse(h)
    requires |Written(h, format, pd).bytes + rest| == PACKET_MAX
    ensures |Body(h, format, pd).out| <= h.pdl
    ensures ReadHeader(Written(h, format, pd).bytes + rest) == Some(Patched(h, Body(h, format, pd).out))
    ensures |Written(h, format, pd).bytes| == Patched(h, Body(h, format, pd).out).messageLen + 2
  {
    hide ReadHeader, Tokens, Encode, CheckFrom, Checksum;
    BodyFits(h, format, pd);
    FramedReads(h, Body(h, format, pd).out, rest);
  }

  lemma FramedBody(h: Header, body: seq<Byte>, rest: seq<Byte>)
    requires |body| <= PDL_MAX && |Framed(Message(h, body)) + rest| == PACKET_MAX
    ensures (Framed(Message(h, body)) + rest)[24..24 + |body|] == body
    ensures (Framed(Message(h, body)) + rest)[23] == |body|
  {
    hide Checksum, Le16;
  }

  /** The round trip of the parameter data: a destination large enough gets the data restored. */
  lemma WriteThenReadPd(h: Header, format: string, pd: seq<Byte>, rest: seq<Byte>, size: nat)
    requires |pd| >= h.pdl > 0
    requires Written(h, Some(format), Some(pd)).Wrote? && !IsDiscoveryResponse(h)
    requires |Written(h, Some(format), Some(pd)).bytes + rest| == PACKET_MAX
    requires size >= |Body(h, Some(format), Some(pd)).out| > 0
    ensures ReadPd(Written(h, Some(format), Some(pd)).bytes + rest, format, size)
         == Pd(|Body(h, Some(format), Some(pd)).out|, Encoded(Restored(Tokens(format), [], pd[..h.pdl])))
  {
    hide Tokens, Encode, CheckFrom, Checksum, Framed, Message, HeaderWire;
    var body := Body(h, Some(format), Some(pd)).out;
    BodyFits(h, Some(format), Some(pd));
    FramedBody(h, body, rest);
    EncodeRoundTrip(Tokens(format), [], pd[..h.pdl]);
  }
}
