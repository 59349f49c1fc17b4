/**
 * A packet from one driver to another: what `rdm_write` leaves in the sender's
 * buffer is sent whole, is recognised by the receiver however the interrupts
 * fall, and reads back as what was written.
 */
module Link {
  import opened Options
  import opened Uids
  import opened Bytes
  import opened Formats
  import opened Packets
  import opened Receive
  import opened Recognition
  import Transmit

  /** What is written is sent whole, checksum included. */
  lemma SendsWhatWasWritten(h: Header, format: Option<string>, pd: Option<seq<Byte>>, rest: seq<Byte>, size: nat)
    requires pd.Some? ==> |pd.value| >= h.pdl
    requires Written(h, format, pd).Wrote? && |Written(h, format, pd).bytes + rest| == PACKET_MAX
    ensures Transmit.SendSize(Written(h, format, pd).bytes + rest, size) == |Written(h, format, pd).bytes|
  {
    hide ReadHeader, Tokens, Encode, CheckFrom, Checksum, DiscoveryResponse;
    if IsDiscoveryResponse(h) {
      assert DiscoveryResponse(h.srcUid)[0..] == DiscoveryResponse(h.srcUid);
      DiscoveryResponseReads(h.srcUid, 0, rest);
    } else {
      WriteThenReadHeader(h, format, pd, rest);
    }
  }

  /**
   * What the driver does once a packet it wrote is sent: after a branch request
   * it is ready for bytes at once, after any other request that is not
   * broadcast it is deaf until a break and then ready; else it stays as it is.
   */
  lemma AnswerAwaited(h: Header, format: Option<string>, pd: Option<seq<Byte>>, rest: seq<Byte>, s: Rx, slots: nat)
    requires pd.Some? ==> |pd.value| >= h.pdl
    requires Written(h, format, pd).Wrote? && |Written(h, format, pd).bytes + rest| == PACKET_MAX
    requires h.pid != 0
    ensures var t := AfterSending(s, Written(h, format, pd).bytes + rest, slots);
            && t.size == |Written(h, format, pd).bytes|
            && (h.cc % 2 == 0 && h.pid == 1 ==> ReadyForPacket(t))
            && (h.cc % 2 == 0 && h.pid != 1 && !IsBroadcast(h.destUid) ==>
                  && t.head == WAITING_FOR_BREAK && t.progress == Stale && t.fifo == []
                  && ReadyForPacket(OnInterrupt(t, Interrupt([], true, false, false, true)).0))
            && (h.cc % 2 == 1 || (h.pid != 1 && IsBroadcast(h.destUid)) ==> t.progress == Complete && t.head == t.size)
  {
    SendsWhatWasWritten(h, format, pd, rest, slots);
    hide ReadHeader, Tokens, Encode, CheckFrom, Checksum, DiscoveryResponse, Transmit.SendSize;
    if IsDiscoveryResponse(h) {
      assert DiscoveryResponse(h.srcUid)[0..] == DiscoveryResponse(h.srcUid);
      DiscoveryResponseReads(h.srcUid, 0, rest);
    } else {
      WriteThenReadHeader(h, format, pd, rest);
    }
  }

  /** A framed message with a valid command class is a packet the receiver recognises. */
  lemma FramedIsRecognisable(h: Header, body: seq<Byte>, size: int)
    requires |body| <= PDL_MAX && CcIsValid(h.cc) && size >= 1
    ensures RdmPacket(Framed(Message(h, body))) && Recognisable(Framed(Message(h, body)), size)
  {
    var m := Message(h, body);
    var p := Framed(m);
    FieldsOfHeader(Patched(h, body), body + Swap16(Le16(Checksum(m))));
    assert p == HeaderWire(Patched(h, body)) + (body + Swap16(Le16(Checksum(m))));
    Le16RoundTrip(Checksum(m));
    hide Checksum, Le16, FromLe16;
    assert p[20] == h.cc && p[2] == |m|;
    assert p[..|m|] == m && p[|m|..] == Swap16(Le16(Checksum(m)));
  }

  /** So is a discovery response that lost some of its preamble. */
  lemma ResponseIsRecognisable(uid: Uid, lost: nat, size: int)
    requires lost <= RESPONSE_PREAMBLE && size >= 1
    ensures DiscoveryPacket(DiscoveryResponse(uid)[lost..], RESPONSE_PREAMBLE - lost)
    ensures Recognisable(DiscoveryResponse(uid)[lost..], size)
  {
    var n := RESPONSE_PREAMBLE - lost;
    ResponseLayout(uid, n, []);
    EuidDecodes(uid, []);
    hide DiscoveryResponse, EuidMessage, Checksum, Masked, EuidDecode;
    var p := DiscoveryResponse(uid)[lost..];
    assert p + [] == p;
    assert EuidMessage(uid)[1..] + [] == EuidMessage(uid)[1..];
  }

  lemma HeldPacket(buf: Buffer, p: seq<Byte>)
    requires Holds(buf, p, |p|)
    ensures buf == p + buf[|p|..]
  {
  }

  /**
   * The journey of a standard packet. The sender's run has finished; the
   * receiver got the bytes in any chunks. It then holds the header that was
   * written, with its lengths patched, and the data, restored.
   */
  lemma PacketArrives(h: Header, format: Option<string>, pd: Option<seq<Byte>>, rest: seq<Byte>, size: nat,
                      progress: Progress, free: nat, states: seq<Transmit.Tx>, es: seq<Transmit.Event>,
                      receiver: Rx, chunks: seq<seq<Byte>>)
    requires pd.Some? ==> |pd.value| >= h.pdl
    requires Written(h, format, pd).Wrote? && !IsDiscoveryResponse(h)
    requires |Written(h, format, pd).bytes + rest| == PACKET_MAX
    requires Transmit.IsRun(states, es) && states[|es|].status == Idle
    requires states[0] == Transmit.Start(Written(h, format, pd).bytes + rest, size, progress, free)
    requires ReadyForPacket(receiver) && receiver.size >= 1 && Flatten(chunks) == states[|es|].sent
    ensures var (t, notes) := Feed(receiver, chunks);
            && t.progress == Complete && notes == [Ok] && Written(h, format, pd).bytes <= t.data
            && |Body(h, format, pd).out| <= h.pdl
            && ReadHeader(t.data) == Some(Patched(h, Body(h, format, pd).out))
            && (h.pdl > 0 && Body(h, format, pd).out != [] ==>
                  ReadPd(t.data, format.value, h.pdl)
                    == Pd(|Body(h, format, pd).out|, Encoded(Restored(Tokens(format.value), [], pd.value[..h.pdl]))))
  {
    hide ReadHeader, ReadPd, Tokens, Encode, CheckFrom, Checksum, Restored, Recognisable, Feed, Message, Framed;
    var bytes := Written(h, format, pd).bytes;
    SendsWhatWasWritten(h, format, pd, rest, size);
    Transmit.FinishedSentAll(bytes + rest, size, progress, free, states, es);
    assert (bytes + rest)[..|bytes|] == bytes;
    BodyFits(h, format, pd);
    FramedIsRecognisable(h, Body(h, format, pd).out, receiver.size);
    ChunkingIrrelevant(receiver, chunks, bytes);
    var (t, notes) := Feed(receiver, chunks);
    HeldPacket(t.data, bytes);
    var rest' := t.data[|bytes|..];
    WriteThenReadHeader(h, format, pd, rest');
    if h.pdl > 0 && Body(h, format, pd).out != [] {
      WriteThenReadPd(h, format.value, pd.value, rest', h.pdl);
    }
  }

  /**
   * The journey of a discovery response, which may lose preamble bytes on the
   * way: the controller learns the UID of the responder that sent it.
   */
  lemma ResponseArrives(uid: Uid, lost: nat, receiver: Rx, chunks: seq<seq<Byte>>)
    requires lost <= RESPONSE_PREAMBLE
    requires ReadyForPacket(receiver) && receiver.size >= 1 && Flatten(chunks) == DiscoveryResponse(uid)[lost..]
    ensures var (t, notes) := Feed(receiver, chunks);
            && t.progress == Complete && notes == [Ok]
            && ReadHeader(t.data) == Some(DiscoveryHeader(uid, RESPONSE_PREAMBLE - lost))
  {
    hide ReadHeader, DiscoveryResponse, Recognisable, Feed;
    var p := DiscoveryResponse(uid)[lost..];
    ResponseIsRecognisable(uid, lost, receiver.size);
    ChunkingIrrelevant(receiver, chunks, p);
    var (t, notes) := Feed(receiver, chunks);
    HeldPacket(t.data, p);
    DiscoveryResponseReads(uid, lost, t.data[|p|..]);
  }
}
