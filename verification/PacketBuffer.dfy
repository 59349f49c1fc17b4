/**
 * The loops of `rdm_write` and `rdm_read_header`, on the driver's buffer in
 * place. Each is proved to do what the functions of `Packets` say.
 */
module PacketBuffer {
  import opened Options
  import opened Uids
  import opened Bytes
  import opened Formats
  import opened Packets

  /** Copies bytes into the buffer. */
  method Store(data: array<Byte>, at: nat, bytes: seq<Byte>)
    requires at + |bytes| <= data.Length
    modifies data
    ensures data[..] == old(data[..])[..at] + bytes + old(data[..])[at + |bytes|..]
  {
    var i := 0;
    while i < |bytes|
      invariant 0 <= i <= |bytes|
      invariant data[..] == old(data[..])[..at] + bytes[..i] + old(data[..])[at + i..]
    {
      data[at + i] := bytes[i];
      i := i + 1;
    }
  }

  /** The 16-bit sum of a stretch of the buffer, on top of a sum so far. */
  method AddUp(data: array<Byte>, from: nat, to: nat, start: Word16) returns (checksum: Word16)
    requires from <= to <= data.Length
    ensures checksum == (start + Sum(data[from..to])) % 0x1_0000
  {
    checksum := start;
    var i := from;
    assert data[from..from] == [];
    while i < to
      invariant from <= i <= to
      invariant checksum == (start + Sum(data[from..i])) % 0x1_0000
    {
      assert data[from..i + 1][..i - from] == data[from..i];
      checksum := (checksum + data[i]) % 0x1_0000;
      i := i + 1;
    }
  }

  lemma WrapAdd(a: nat, b: nat)
    ensures (a % 0x1_0000 + b) % 0x1_0000 == (a + b) % 0x1_0000
  {
  }

  /** Masks the bytes of a UID into pairs and adds them up. */
  method MaskPairs(wire: seq<Byte>) returns (pairs: seq<Byte>, checksum: Word16)
    ensures pairs == EuidEncode(wire)
    ensures checksum == (Sum(wire) + 0xff * |wire|) % 0x1_0000
  {
    hide Or, Sum, EuidEncode;
    pairs, checksum := [], 0;
    var j := 0;
    EuidStart(wire);
    while j < |wire|
      invariant 0 <= j <= |wire|
      invariant pairs == EuidEncode(wire[..j])
      invariant checksum == (Sum(wire[..j]) + 0xff * j) % 0x1_0000
    {
      EuidStep(wire, j);
      WrapAdd(Sum(wire[..j]) + 0xff * j, wire[j] as int + 0xff);
      pairs := pairs + [Or(wire[j], EUID_HIGH), Or(wire[j], EUID_LOW)];
      checksum := (checksum + (wire[j] as int + 0xff)) % 0x1_0000;
      j := j + 1;
    }
    assert wire[..|wire|] == wire;
  }

  /** Builds a discovery response. */
  method BuildDiscoveryResponse(uid: Uid) returns (r: seq<Byte>)
    ensures r == DiscoveryResponse(uid)
  {
    hide Or, Sum, EuidEncode, SwapUid, UidMemory;
    var pairs, checksum := MaskPairs(SwapUid(UidMemory(uid)));
    r := seq(RESPONSE_PREAMBLE, _ => PREAMBLE)
         + ([DELIMITER] + pairs + EuidPairOf(checksum / 0x100) + EuidPairOf(checksum % 0x100));
  }

  lemma EuidStart(wire: seq<Byte>)
    ensures EuidEncode(wire[..0]) == [] && Sum(wire[..0]) == 0
  {
  }

  lemma EuidStep(wire: seq<Byte>, j: nat)
    requires j < |wire|
    ensures Or(wire[j], EUID_HIGH) < 0x100 && Or(wire[j], EUID_LOW) < 0x100
    ensures EuidEncode(wire[..j + 1]) == EuidEncode(wire[..j]) + [Or(wire[j], EUID_HIGH), Or(wire[j], EUID_LOW)]
    ensures Sum(wire[..j + 1]) == Sum(wire[..j]) + wire[j]
  {
    assert wire[..j + 1][..j] == wire[..j];
    EuidPair(wire[j]);
  }

  lemma SumOfWrittenHeader(message: seq<Byte>)
    requires |message| >= 2 && message[0] == RDM_SC && message[1] == RDM_SUB_SC
    ensures (RDM_SC + RDM_SUB_SC + Sum(message[2..])) % 0x1_0000 == Checksum(message)
  {
    assert message == message[..2] + message[2..];
    SumAppend(message[..2], message[2..]);
    SumPair(message[..2]);
  }

  /**
   * `rdm_write`. When the interpreter has no defined behaviour on the data,
   * nothing is promised about the buffer.
   */
  method Write(data: array<Byte>, h: Header, pad: seq<Byte>, format: Option<string>, pd: Option<seq<Byte>>)
    returns (written: nat, defined: bool)
    requires data.Length == PACKET_MAX && |pad| == 2
    requires pd.Some? ==> |pd.value| >= h.pdl
    modifies data
    ensures defined <==> Written(h, format, pd) != WriteUndefined
    ensures Written(h, format, pd).Refused? ==> written == 0 && data[..] == old(data[..])
    ensures Written(h, format, pd).Wrote? ==>
              && written == |Written(h, format, pd).bytes| <= PACKET_MAX
              && data[..] == Written(h, format, pd).bytes + old(data[..])[written..]
  {
    hide Encode, Tokens, CheckFrom, Sum, HeaderWire, HeaderMemory;
    written, defined := 0, true;
    if !HeaderIsWritable(h) {
      return;
    }
    if format.Some? {
      var v := FormatIsValid(format.value);
      if v == DividesByZero {
        return 0, false;
      } else if v == Invalid {
        return;
      }
    }
    if h.pdl > 0 && !(format.Some? && pd.Some?) {
      return;
    }
    if IsDiscoveryResponse(h) {
      var response := BuildDiscoveryResponse(h.srcUid);
      Store(data, 0, response);
      written := |response|;
    } else {
      written, defined := WriteStandard(data, h, pad, format, pd);
    }
  }

  /** Patching both lengths in place gives the header of the patched message. */
  lemma PatchInPlace(h: Header, body: seq<Byte>, rest: seq<Byte>)
    requires |body| <= h.pdl && HeaderIsWritable(h)
    ensures h.pdl == |body| ==> HeaderWire(h) + body + rest == Message(h, body) + rest
    ensures (HeaderWire(h) + body + rest)[2 := HEADER_SIZE + |body|][23 := |body|] == Message(h, body) + rest
  {
    hide UidMemory, Le16, SwapUid, Swap16;
    if h.pdl == |body| {
      assert Patched(h, body) == h;
    }
    var wire := HeaderWire(h)[2 := HEADER_SIZE + |body|][23 := |body|];
    assert wire == HeaderWire(Patched(h, body));
  }

  /** The branch of `rdm_write` for packets with a standard header. */
  method WriteStandard(data: array<Byte>, h: Header, pad: seq<Byte>, format: Option<string>, pd: Option<seq<Byte>>)
    returns (written: nat, defined: bool)
    requires data.Length == PACKET_MAX && |pad| == 2
    requires pd.Some? ==> |pd.value| >= h.pdl
    requires HeaderIsWritable(h) && (h.pdl == 0 || (format.Some? && pd.Some?))
    modifies data
    ensures defined <==> Body(h, format, pd).Encoded?
    ensures defined ==>
              && |Body(h, format, pd).out| <= h.pdl
              && written == HEADER_SIZE + |Body(h, format, pd).out| + 2
              && data[..] == Framed(Message(h, Body(h, format, pd).out)) + old(data[..])[written..]
  {
    ghost var before := data[..];
    var body: seq<Byte>;
    defined, body := WriteMessage(data, h, pad, format, pd);
    if !defined {
      return 0, false;
    }
    FinishPacket(data, Message(h, body), before);
    written := HEADER_SIZE + |body| + 2;
  }

  /** Serializes the header and the data, and patches the lengths. */
  method WriteMessage(data: array<Byte>, h: Header, pad: seq<Byte>, format: Option<string>, pd: Option<seq<Byte>>)
    returns (defined: bool, body: seq<Byte>)
    requires data.Length == PACKET_MAX && |pad| == 2
    requires pd.Some? ==> |pd.value| >= h.pdl
    requires HeaderIsWritable(h) && (h.pdl == 0 || (format.Some? && pd.Some?))
    modifies data
    ensures defined <==> Body(h, format, pd).Encoded?
    ensures defined ==>
              && body == Body(h, format, pd).out && |body| <= h.pdl
              && data[..] == Message(h, body) + old(data[..])[HEADER_SIZE + |body|..]
  {
    hide Encode, Tokens, CheckFrom, HeaderMemory, HeaderWire, Message;
    HeaderTokens();
    HeaderEncodes(h, pad);
    var encodedHeader := FormatEncode(HEADER_FORMAT, HeaderMemory(h, pad), false);
    Store(data, 0, encodedHeader.out);
    body := [];
    if h.pdl > 0 {
      BodyFitsIfDefined(h, format, pd);
      var r := FormatEncode(format.value, pd.value[..h.pdl], false);
      if r.Undefined? {
        return false, [];
      }
      Store(data, HEADER_SIZE, r.out);
      body := r.out;
    }
    assert data[..] == HeaderWire(h) + body + old(data[..])[HEADER_SIZE + |body|..];
    PatchInPlace(h, body, old(data[..])[HEADER_SIZE + |body|..]);
    if h.pdl != |body| {
      data[2] := HEADER_SIZE + |body|;
      data[23] := |body|;
    }
    defined := true;
  }

  /** Appends the checksum of the message at the head of the buffer. */
  method FinishPacket(data: array<Byte>, message: seq<Byte>, ghost before: seq<Byte>)
    requires data.Length == PACKET_MAX == |before| && 2 <= |message| <= PACKET_MAX - 2
    requires message[0] == RDM_SC && message[1] == RDM_SUB_SC
    requires data[..] == message + before[|message|..]
    modifies data
    ensures data[..] == Framed(message) + before[|message| + 2..]
  {
    hide Sum, Le16;
    var checksum := AddUp(data, 2, |message|, RDM_SC + RDM_SUB_SC);
    assert data[2..|message|] == message[2..];
    SumOfWrittenHeader(message);
    Store(data, |message|, Swap16(Le16(checksum)));
    assert before[|message|..][2..] == before[|message| + 2..];
  }

  lemma BodyFitsIfDefined(h: Header, format: Option<string>, pd: Option<seq<Byte>>)
    requires pd.Some? ==> |pd.value| >= h.pdl
    requires h.pdl < PDL_MAX && (h.pdl == 0 || (format.Some? && pd.Some?))
    ensures Body(h, format, pd).Encoded? ==> |Body(h, format, pd).out| <= h.pdl
  {
    if Body(h, format, pd).Encoded? {
      BodyFits(h, format, pd);
    }
  }

  // ----- rdm_read_header -----

  /** Finds the delimiter among the first eight bytes; 8 if there is none. */
  method FindDelimiter(data: array<Byte>) returns (n: nat)
    requires data.Length == PACKET_MAX
    ensures n == PreambleLength(data[..], 0)
  {
    n := 0;
    while n <= 7
      invariant 0 <= n <= 8
      invariant PreambleLength(data[..], 0) == PreambleLength(data[..], n)
    {
      if data[n] == DELIMITER {
        return;
      }
      n := n + 1;
    }
  }

  /** `rdm_read_header`, on the driver's buffer. */
  method ReadHeaderOf(data: array<Byte>) returns (r: Option<Header>)
    requires data.Length == PACKET_MAX
    ensures r == ReadHeader(data[..])
  {
    hide Sum, PreambleLength, WireFields, EuidDecode, FromLe16, Swap16, And;
    if data[0] == RDM_SC && data[1] == RDM_SUB_SC {
      var messageLen := data[2];
      var checksum := AddUp(data, 0, messageLen, 0);
      assert data[0..messageLen] == data[..][..messageLen];
      assert data[messageLen..messageLen + 2] == data[..][messageLen..messageLen + 2];
      if checksum != FromLe16(Swap16(data[messageLen..messageLen + 2])) {
        return None;
      }
      return Some(WireFields(data[..]));
    } else if data[0] == PREAMBLE || data[0] == DELIMITER {
      var preambleLen := FindDelimiter(data);
      if preambleLen > 7 {
        return None;
      }
      var euid := data[..][preambleLen + 1..];
      var checksum := AddUp(data, preambleLen + 1, preambleLen + 13, 0);
      assert data[preambleLen + 1..preambleLen + 13] == euid[..12];
      if checksum != 0x100 * Masked(euid, 6) + Masked(euid, 7) {
        return None;
      }
      return Some(DiscoveryHeader(EuidDecode(euid), preambleLen));
    }
    return None;
  }
}
