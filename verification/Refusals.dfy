/**
 * What a device does about requests it cannot serve: which reason it gives,
 * how the reason goes out and is read, and that a corrupted request does
 * nothing at all.
 */
module Refusals {
  import opened Options
  import opened Uids
  import opened Bytes
  import opened Formats
  import opened Packets
  import opened Layout
  import opened Parameters
  import opened Responder
  import opened Definedness
  import opened Exchange
  import opened Controller
  import Bus

  // ----- A refusal on the wire -----

  lemma ReasonSent(reason: Word16)
    ensures Encode(Tokens("w"), [], Le16(reason), false) == Encoded(Digits(reason, 2))
  {
    WordFormat();
    WordInDigits(reason);
    var ts := [TWord];
    assert Limit(2) == 0x1_0000;
    IntegerSent(ts, TWord, [], reason, [], false);
    assert [TWord] + [] == ts && LittleDigits(reason, 2) + [] == Le16(reason);
    PassStarts(ts, Le16(reason), false);
    PassStarts(ts, [], false);
    hide Encode, Digits, LittleDigits, Le16;
    assert Digits(reason, 2) + [] == Digits(reason, 2);
  }

  /** The buffer holds a refusal of the request, with the reason as its data. */
  ghost predicate HoldsRefusal(buffer: Buffer, d: Device, request: Header, reason: Word16) {
    && ReadHeader(buffer).Some?
    && var h := ReadHeader(buffer).value;
    && h.portId == 2 && h.pdl == 2 && buffer[24] as int * 0x100 + buffer[25] == reason
    && h.destUid == request.srcUid && h.srcUid == d.uid && h.tn == request.tn && h.messageCount == d.queued
    && h.subDevice == 0 && h.pid == request.pid && h.cc == request.cc + 1
    && AckOf(buffer) == Bus.OtherResponse
  }

  /** A refusal goes out as a NACK with its reason, and never reads as an acknowledgement. */
  lemma RefusalSays(d: Device, request: Header, reason: Word16, ours: Buffer)
    requires CcIsValid(request.cc) && CcIsRequest(request.cc) && request.subDevice == 0 && !IsBranchRequest(request)
    ensures HoldsRefusal(Filled(ours, BytesOf(Refuse(d, request, reason))), d, request, reason)
  {
    RefusalBytes(d, request, reason);
    RefusalWritten(d, request, reason);
    var h, bytes := ReplyHeader(d, request, RESPONSE_NACK, 2), Refuse(d, request, reason).bytes;
    hide Written, ReadHeader, Body;
    WriteThenReadHeader(h, Some("w"), Some(Le16(reason)), ours[|bytes|..]);
    assert Filled(ours, bytes) == bytes + ours[|bytes|..];
  }

  lemma RefusalBytes(d: Device, request: Header, reason: Word16)
    requires CcIsValid(request.cc) && CcIsRequest(request.cc) && request.subDevice == 0 && !IsBranchRequest(request)
    ensures Refuse(d, request, reason).Wrote?
    ensures Body(ReplyHeader(d, request, RESPONSE_NACK, 2), Some("w"), Some(Le16(reason))) == Encoded(Digits(reason, 2))
    ensures var bytes := Refuse(d, request, reason).bytes;
            |bytes| == 28 && bytes[24] as int * 0x100 + bytes[25] == reason
  {
    RefusalWritten(d, request, reason);
    ReasonSent(reason);
    var h := ReplyHeader(d, request, RESPONSE_NACK, 2);
    assert Le16(reason)[..2] == Le16(reason);
    WordInDigits(reason);
    assert Digits(reason, 2)[0] == reason / 0x100 && Digits(reason, 2)[1] == reason % 0x100;
    hide Encode, Tokens, CheckFrom, Digits, Le16, Written, Sum, HeaderDigits;
    PacketInDigits(h, Some("w"), Some(Le16(reason)));
    hide Body;
  }

  // ----- Which requests are refused -----

  /** The device replies with that refusal, or keeps silent because the request was broadcast, and nothing changes. */
  ghost predicate RefusedFor(d: Device, request: Header, buffer: Buffer, reason: Word16)
    requires CcIsRequest(request.cc)
  {
    Respond(d, buffer)
    == (d, if IsBroadcast(request.destUid) then Silent else Replies(BytesOf(Refuse(d, request, reason))))
  }

  /**
   * A request that reaches the device's root is refused for an unknown PID, for
   * too much data, or for a command class its parameter does not have, with
   * these reasons; one for a discovery parameter in another class is ignored.
   */
  lemma RefusedWhen(d: Device, request: Header, buffer: Buffer)
    requires ReadHeader(buffer) == Some(request) && IsTarget(d.uid, request.destUid) && request.subDevice == 0
    requires CcIsValid(request.cc) && CcIsRequest(request.cc) && request.pid != PID_DISC_UNIQUE_BRANCH
    ensures request.pid !in d.definitions ==> RefusedFor(d, request, buffer, 0)
    ensures request.pid in d.definitions && request.pdl >= 232 ==> RefusedFor(d, request, buffer, 1)
    ensures request.pid in d.definitions && request.pdl < 232 ==>
              var pidCc := d.definitions[request.pid].pidCc;
              && (pidCc == GetSet && request.cc == 0x10 ==> RefusedFor(d, request, buffer, 5))
              && (pidCc == GetOnly && request.cc != 0x20 ==> RefusedFor(d, request, buffer, 5))
              && (pidCc == SetOnly && request.cc != 0x30 ==> RefusedFor(d, request, buffer, 5))
              && (pidCc == DiscOnly && request.cc != 0x10 ==> Respond(d, buffer) == (d, Silent))
  {
    RefusalWritten(d, request, 0);
    RefusalWritten(d, request, 1);
    RefusalWritten(d, request, 5);
    hide ReadHeader, Refuse, Handle;
  }

  /** A parameter with a definition that the table does not have is refused as a sub-device out of range. */
  lemma UnregisteredRefused(d: Device, request: Header, buffer: Buffer)
    requires ReadHeader(buffer) == Some(request) && IsTarget(d.uid, request.destUid) && request.subDevice == 0
    requires CcIsValid(request.cc) && CcIsRequest(request.cc) && request.pid != PID_DISC_UNIQUE_BRANCH
    requires request.pid in d.definitions && request.pdl < 232 && Accepts(d.definitions[request.pid], request.cc)
    requires HandlerFor(d.definitions[request.pid], request) == SimpleHandler
    requires forall e :: e in d.table.entries ==> e.pid != request.pid
    ensures RefusedFor(d, request, buffer, 9)
  {
    assert IndexOf(d.table.entries, request.pid) == |d.table.entries|;
    RefusalBytes(d, request, 9);
    hide ReadHeader, Refuse, Digits, Body;
    assert Handle(d, d.definitions[request.pid], request, buffer) == (d, Refuse(d, request, 9));
    hide Handle;
  }

  /** A parameter that is nothing but a name is acknowledged without data. */
  lemma ValuelessAnswered(d: Device, request: Header, buffer: Buffer)
    requires ReadHeader(buffer) == Some(request) && IsTarget(d.uid, request.destUid) && request.subDevice == 0
    requires request.cc == CC_GET && request.pid != PID_DISC_UNIQUE_BRANCH
    requires request.pid in d.definitions && request.pdl < 232
    requires var def := d.definitions[request.pid];
             && Accepts(def, CC_GET) && def.getHandler == SimpleHandler
             && (def.getResponse.Some? ==> CheckFrom(def.getResponse.value, 0) == Valid)
    requires var i := IndexOf(d.table.entries, request.pid);
             i < |d.table.entries| && d.table.entries[i].cell.None? && d.table.entries[i].size == 0
    ensures Respond(d, buffer)
         == (d, if IsBroadcast(request.destUid) then Silent
                else Replies(BytesOf(Acknowledge(d, request, None, None))))
  {
    var def := d.definitions[request.pid];
    EmptyPacketWritten(ReplyHeader(d, request, RESPONSE_ACK, 0));
    assert Acknowledge(d, request, def.getResponse, None) == Acknowledge(d, request, None, None) by {
      hide CheckFrom, Encode, Tokens, Checksum;
    }
    hide ReadHeader, Acknowledge, CheckFrom;
    assert Handle(d, def, request, buffer) == (d, Acknowledge(d, request, None, None));
    hide Handle;
  }

  /**
   * A request whose handler has nothing to send, or too much, is answered with
   * a hardware fault unless it was broadcast, and the device raises its boot
   * loader flag.
   */
  lemma FaultWhen(d: Device, request: Header, buffer: Buffer)
    requires ReadHeader(buffer) == Some(request) && IsTarget(d.uid, request.destUid) && request.subDevice == 0
    requires CcIsValid(request.cc) && CcIsRequest(request.cc) && request.pid != PID_DISC_UNIQUE_BRANCH
    requires request.pid in d.definitions && request.pdl < 232 && Accepts(d.definitions[request.pid], request.cc)
    requires var w := Handle(d, d.definitions[request.pid], request, buffer).1;
             w.Refused? || (w.Wrote? && |w.bytes| > 255)
    ensures var (d', w) := Handle(d, d.definitions[request.pid], request, buffer);
            Respond(d, buffer)
            == if IsBroadcast(request.destUid)
               then (if w.Wrote? then d'.(bootLoader := true) else d', Silent)
               else (d'.(bootLoader := true), Replies(BytesOf(Refuse(d', request, 2))))
  {
    RefusalWritten(Handle(d, d.definitions[request.pid], request, buffer).0, request, 2);
    hide ReadHeader, Refuse, Handle;
  }

  /** A request with any byte changed, other than its start code and its length, is ignored. */
  lemma CorruptedIgnored(d: Device, buffer: Buffer, i: nat, b: Byte)
    requires AddsUp(buffer) && i < buffer[2] as int + 2 && i != 0 && i != 2 && b != buffer[i]
    ensures Respond(d, buffer[i := b]) == (d, Silent)
  {
    ChangedByteUnread(buffer, i, b);
    hide ReadHeader, Dispatch, AddsUp;
  }
}
