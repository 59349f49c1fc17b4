/**
 * What `rdm_send_request` makes of the reply in its buffer: the ack, the
 * value it returns, and the parameter data it hands to its caller.
 */
module Controller {
  import opened Options
  import opened Uids
  import opened Bytes
  import opened Formats
  import opened Packets
  import Bus

  /** The ack as it is filled in from a received packet. */
  function AckOf(buffer: Buffer): Bus.Ack {
    match ReadHeader(buffer)
    case None => Bus.Invalid
    case Some(h) =>
      if h.portId > RESPONSE_OVERFLOW then Bus.Invalid
      else if h.portId == RESPONSE_ACK then Bus.Acked(h.srcUid)
      else Bus.OtherResponse
  }

  /** An ack names a device exactly if a readable acknowledgement came from it; a refusal or a timer does not. */
  lemma AckExactly(buffer: Buffer, u: Uid)
    ensures AckOf(buffer) == Bus.Acked(u) <==>
              ReadHeader(buffer).Some? && ReadHeader(buffer).value.portId == 0 && ReadHeader(buffer).value.srcUid == u
    ensures AckOf(buffer) == Bus.OtherResponse <==>
              ReadHeader(buffer).Some? && 1 <= ReadHeader(buffer).value.portId <= 3
    ensures AckOf(buffer) == Bus.Invalid <==> (ReadHeader(buffer).Some? ==> ReadHeader(buffer).value.portId > 3)
  {
    hide ReadHeader;
  }

  /** The value returned: the PDL of an acknowledgement, or 1 if it has no data. */
  function Returned(buffer: Buffer): nat {
    match ReadHeader(buffer)
    case None => 0
    case Some(h) => if h.portId != RESPONSE_ACK then 0 else if h.pdl == 0 then 1 else h.pdl
  }

  /** The destination after what was read has been stored in it. */
  function StoredIn(dest: seq<Byte>, r: PdResult): Outcome {
    match r
    case NoData => Encoded(dest)
    case Pd(_, Undefined) => Undefined
    case Pd(_, Encoded(out)) => if |out| > |dest| then Undefined else Encoded(out + dest[|out|..])
  }

  /** A timer or a reason is a word, read into memory of its own. */
  predicate WordIsRead(buffer: Buffer) {
    var word := ReadPd(buffer, "w", 2);
    word.Pd? ==> word.memory.Encoded?
  }

  /**
   * The caller's destination afterwards. The data is read only where the ack
   * is filled in, so without an ack the destination stays as it was.
   */
  function Delivered(buffer: Buffer, format: Option<string>, dest: seq<Byte>, ackSupplied: bool): Outcome {
    match ReadHeader(buffer)
    case None => Encoded(dest)
    case Some(h) =>
      if !ackSupplied || h.portId > RESPONSE_OVERFLOW then Encoded(dest)
      else if h.portId == RESPONSE_TIMER || h.portId == RESPONSE_NACK then
        if WordIsRead(buffer) then Encoded(dest) else Undefined
      else StoredIn(dest, ReadData(buffer, format, |dest|))
  }

  lemma WordReadExactly(buffer: Buffer)
    ensures WordIsRead(buffer) <==> buffer[23] != 1
  {
    WordFormat();
    hide CheckFrom, Tokens, Encode, FitsData;
    EncodeDefined(Tokens("w"), buffer[24..24 + if buffer[23] < 2 then buffer[23] as int else 2], true);
  }

  /**
   * Filling in the ack and handing out the data of a reply stays within
   * defined behaviour exactly if there is no data, or if as much of an
   * acknowledgement's data as the destination is long fits the format and, with
   * nulls filled in, still fits the destination; a timer or a reason must not
   * be of one byte.
   */
  lemma DeliveredExactly(buffer: Buffer, h: Header, format: string, dest: seq<Byte>, ackSupplied: bool)
    requires ReadHeader(buffer) == Some(h) && CheckFrom(format, 0) == Valid
    ensures var n := if buffer[23] < |dest| then buffer[23] as int else |dest|;
            Delivered(buffer, Some(format), dest, ackSupplied).Encoded? <==>
              || !ackSupplied || !(0 < buffer[23] <= PDL_MAX) || h.portId > RESPONSE_OVERFLOW
              || (if h.portId == RESPONSE_TIMER || h.portId == RESPONSE_NACK then buffer[23] != 1
                  else FitsData(Tokens(format), n) && WrittenLength(Tokens(format), buffer[24..24 + n]) <= |dest|)
  {
    var n := if buffer[23] < |dest| then buffer[23] as int else |dest|;
    WordReadExactly(buffer);
    hide ReadHeader, CheckFrom, Tokens, Encode, FitsData, WrittenLength, WordIsRead;
    EncodeDefined(Tokens(format), buffer[24..24 + n], true);
    if FitsData(Tokens(format), n) {
      EncodedLength(Tokens(format), buffer[24..24 + n]);
    }
  }

  /** The caller finds the value at the head of its destination. */
  predicate HandsOut(buffer: Buffer, format: Option<string>, dest: seq<Byte>, ackSupplied: bool, v: seq<Byte>) {
    Delivered(buffer, format, dest, ackSupplied).Encoded? && v <= Delivered(buffer, format, dest, ackSupplied).out
  }

  /** A destination that holds all of the data gets the same data whatever its size. */
  lemma ReadPdLarger(buffer: Buffer, format: string, n: nat, m: nat)
    requires buffer[23] <= n && buffer[23] <= m
    ensures ReadPd(buffer, format, n) == ReadPd(buffer, format, m)
  {
    hide Encode, Tokens, CheckFrom;
  }

  /** The end of `rdm_send_request`, on the caller's destination. */
  method TakeReply(buffer: Buffer, format: Option<string>, dest: array<Byte>, ackSupplied: bool)
    returns (returned: nat, ack: Option<Bus.Ack>, defined: bool)
    modifies dest
    ensures returned == Returned(buffer)
    ensures ack == if ackSupplied then Some(AckOf(buffer)) else None
    ensures defined <==> Delivered(buffer, format, old(dest[..]), ackSupplied).Encoded?
    ensures defined ==> dest[..] == Delivered(buffer, format, old(dest[..]), ackSupplied).out
  {
    returned, ack, defined := 0, None, true;
    hide ReadData, ReadPd, Encode;
    var header := ReadHeader(buffer);
    if header.None? {
      if ackSupplied {
        ack := Some(Bus.Invalid);
      }
      return;
    }
    var h := header.value;
    if ackSupplied {
      ack := Some(AckOf(buffer));
      if h.portId == RESPONSE_TIMER || h.portId == RESPONSE_NACK {
        var word := ReadPd(buffer, "w", 2);
        defined := word.Pd? ==> word.memory.Encoded?;
      } else if h.portId == RESPONSE_ACK || h.portId == RESPONSE_OVERFLOW {
        var read := ReadData(buffer, format, dest.Length);
        if read.Pd? && (read.memory.Undefined? || |read.memory.out| > dest.Length) {
          defined := false;
        } else if read.Pd? {
          Copy(read.memory.out, dest);
        }
      }
    }
    if h.portId == RESPONSE_ACK {
      returned := if h.pdl == 0 then 1 else h.pdl;
    }
  }

  method Copy(source: seq<Byte>, dest: array<Byte>)
    requires |source| <= dest.Length
    modifies dest
    ensures dest[..] == source + old(dest[..])[|source|..]
  {
    for i := 0 to |source|
      invariant forall k :: 0 <= k < i ==> dest[k] == source[k]
      invariant forall k :: i <= k < dest.Length ==> dest[k] == old(dest[k])
    {
      dest[i] := source[i];
    }
  }
}
