/**
 * The bus model of discovery, tied to real exchanges: which devices answer a
 * request, how they are left, and what the controller's ack says once the
 * bytes of a reply were received, are what `Bus` says of a delivered request.
 */
module BusLink {
  import opened Options
  import opened Uids
  import opened Bytes
  import opened Formats
  import opened Packets
  import opened Layout
  import opened Receive
  import opened Recognition
  import opened Responder
  import opened Definedness
  import opened Exchange
  import opened Controller
  import Link
  import Bus
  import Transmit

  // ----- The devices on one bus -----

  /** Devices that answer discovery, no two of them with the same UID. */
  ghost predicate IsBus(ds: seq<Device>) {
    && (forall i :: 0 <= i < |ds| ==> AnswersDiscovery(ds[i]))
    && (forall i, j :: 0 <= i < j < |ds| ==> ds[i].uid != ds[j].uid)
  }

  ghost function UidsOf(ds: seq<Device>): set<Uid> {
    set i | 0 <= i < |ds| :: ds[i].uid
  }

  /** The devices as the bus model sees them. */
  ghost function WireOf(ds: seq<Device>): Bus.Wire {
    Bus.Wire(UidsOf(ds), set i | 0 <= i < |ds| && IsMuted(ds[i]) :: ds[i].uid)
  }

  /** What each device does about the same packet, received into a buffer of its own. */
  ghost function RespondAll(ds: seq<Device>, packet: WriteResult, theirs: seq<Buffer>): seq<(Device, Reply)>
    requires |theirs| == |ds|
  {
    seq(|ds|, i requires 0 <= i < |ds| => Respond(ds[i], Filled(theirs[i], BytesOf(packet))))
  }

  ghost function DevicesOf(rs: seq<(Device, Reply)>): seq<Device> {
    seq(|rs|, i requires 0 <= i < |rs| => rs[i].0)
  }

  /** The UIDs of the devices that replied. */
  ghost function Repliers(ds: seq<Device>, rs: seq<(Device, Reply)>): set<Uid>
    requires |rs| == |ds|
  {
    set i | 0 <= i < |ds| && rs[i].1.Replies? :: ds[i].uid
  }

  /** A UID of the bus is muted exactly if its device is. */
  lemma MutedOnWire(ds: seq<Device>, i: nat)
    requires IsBus(ds) && i < |ds|
    ensures ds[i].uid in WireOf(ds).devices
    ensures ds[i].uid in WireOf(ds).muted <==> IsMuted(ds[i])
  {
    hide IsMuted, AnswersDiscovery;
    if ds[i].uid in WireOf(ds).muted {
      var j :| 0 <= j < |ds| && IsMuted(ds[j]) && ds[j].uid == ds[i].uid;
      assert i == j;
    }
  }

  lemma AudienceOnWire(ds: seq<Device>, i: nat, lower: Uid, upper: Uid)
    requires IsBus(ds) && i < |ds|
    ensures ds[i].uid in Bus.Audience(WireOf(ds), lower, upper) <==>
              ds[i].uid in Bus.Audience(OnWire(ds[i]), lower, upper)
  {
    MutedOnWire(ds, i);
    hide IsMuted, AnswersDiscovery;
  }

  // ----- Branch requests -----

  /** The devices that reply to a branch request are exactly its audience, each with its own response. */
  lemma BranchHeardByAll(ds: seq<Device>, src: Uid, tn: Byte, port: Byte, lower: Uid, upper: Uid, theirs: seq<Buffer>)
    requires IsBus(ds) && port > 0 && |theirs| == |ds|
    ensures var rs := RespondAll(ds, BranchRequest(src, tn, port, lower, upper), theirs);
            && DevicesOf(rs) == ds
            && Repliers(ds, rs) == Bus.Audience(WireOf(ds), lower, upper)
            && forall i :: 0 <= i < |ds| && rs[i].1.Replies? ==> rs[i].1.bytes == DiscoveryResponse(ds[i].uid)
  {
    var request := BranchRequest(src, tn, port, lower, upper);
    var rs := RespondAll(ds, request, theirs);
    hide Respond, Filled, BytesOf, BranchRequest, DiscoveryResponse, AnswersDiscovery, IsMuted;
    forall i: nat | i < |ds|
      ensures rs[i].0 == ds[i]
      ensures rs[i].1 == if ds[i].uid in Bus.Audience(WireOf(ds), lower, upper)
                         then Replies(DiscoveryResponse(ds[i].uid)) else Silent
    {
      BranchAnswered(ds[i], src, tn, port, lower, upper, theirs[i]);
      AudienceOnWire(ds, i, lower, upper);
    }
  }

  /** Sending a branch request leaves the driver ready for a discovery response. */
  lemma BranchRequestIsAwaited(src: Uid, tn: Byte, port: Byte, lower: Uid, upper: Uid, ours: Buffer, s: Rx, slots: nat)
    requires port > 0
    ensures var packet := Filled(ours, BytesOf(BranchRequest(src, tn, port, lower, upper)));
            ReadyForPacket(AfterSending(s, packet, slots)) && AfterSending(s, packet, slots).size == 38
  {
    var request := RequestHeader(src, BROADCAST_ALL, tn, port, CC_DISC, PID_DISC_UNIQUE_BRANCH, 12);
    BranchFormat();
    PlainPacket(request, "uu$", BranchData(lower, upper), ours);
    hide PlainFor, Written, Filled, BytesOf, ReadPd, ReadHeader, BranchData;
    BranchRequestOpens(s, Filled(ours, BytesOf(BranchRequest(src, tn, port, lower, upper))), slots);
  }

  /**
   * If at most one device replies to a branch request, the controller that
   * sent it, and received the reply in any chunks and with any of its preamble
   * lost, fills in the ack of the bus model.
   */
  lemma SoleResponderHeard(ds: seq<Device>, src: Uid, tn: Byte, port: Byte, lower: Uid, upper: Uid, theirs: seq<Buffer>,
                           ours: Buffer, s: Rx, slots: nat, lost: nat, chunks: seq<seq<Byte>>, k: nat,
                           was: Bus.Ack, collision: Bus.Ack)
    requires IsBus(ds) && port > 0 && |theirs| == |ds| && k < |ds| && lost <= RESPONSE_PREAMBLE
    requires var rs := RespondAll(ds, BranchRequest(src, tn, port, lower, upper), theirs);
             && (forall i :: 0 <= i < |ds| && i != k ==> !rs[i].1.Replies?)
             && (rs[k].1.Replies? ==> lost <= |rs[k].1.bytes| && Flatten(chunks) == rs[k].1.bytes[lost..])
    ensures var request := BranchRequest(src, tn, port, lower, upper);
            var receiver := AfterSending(s, Filled(ours, BytesOf(request)), slots);
            Bus.BranchAck(WireOf(ds), lower, upper, was, Bus.Delivered(collision))
            == if RespondAll(ds, request, theirs)[k].1.Replies? then AckOf(Feed(receiver, chunks).0.data) else Bus.None
  {
    BranchHeardByAll(ds, src, tn, port, lower, upper, theirs);
    BranchRequestIsAwaited(src, tn, port, lower, upper, ours, s, slots);
    var request := BranchRequest(src, tn, port, lower, upper);
    var rs := RespondAll(ds, request, theirs);
    SoleReplier(ds, rs, k);
    AckWhenDelivered(WireOf(ds), lower, upper, was, ds[k].uid, collision);
    hide RespondAll, Repliers, Bus.BranchAck, Filled, BytesOf, BranchRequest, Feed, DiscoveryResponse, Flatten,
         AnswersDiscovery, IsBus, DevicesOf, AfterSending, Bus.Audience, WireOf, AckOf, ReadyForPacket;
    if rs[k].1.Replies? {
      Link.ResponseArrives(ds[k].uid, lost, AfterSending(s, Filled(ours, BytesOf(request)), slots), chunks);
    }
  }

  lemma SoleReplier(ds: seq<Device>, rs: seq<(Device, Reply)>, k: nat)
    requires |rs| == |ds| && k < |ds| && forall i :: 0 <= i < |ds| && i != k ==> !rs[i].1.Replies?
    ensures Repliers(ds, rs) == if rs[k].1.Replies? then {ds[k].uid} else {}
  {
  }

  lemma AckWhenDelivered(w: Bus.Wire, lower: Uid, upper: Uid, was: Bus.Ack, u: Uid, collision: Bus.Ack)
    ensures var ack := Bus.BranchAck(w, lower, upper, was, Bus.Delivered(collision));
            && (Bus.Audience(w, lower, upper) == {} ==> ack == Bus.None)
            && (Bus.Audience(w, lower, upper) == {u} ==> ack == Bus.Acked(u))
  {
    hide Bus.Audience;
  }

  // ----- Mutes -----

  /** The device as it is left by a mute, and whether it replies. */
  ghost predicate IsLeftByMute(d: Device, r: (Device, Reply), src: Uid, dest: Uid, tn: Byte, port: Byte) {
    && AnswersDiscovery(r.0) && r.0.uid == d.uid
    && (IsMuted(r.0) <==> IsMuted(d) || IsTarget(d.uid, dest))
    && r.1 == if IsTarget(d.uid, dest) && !IsBroadcast(dest)
              then Replies(BytesOf(MuteReply(r.0, src, dest, tn, port, PID_DISC_MUTE))) else Silent
  }

  /**
   * A mute that reaches all devices leaves them as the bus model says, and the
   * ones that reply are the one it is addressed to, if any.
   */
  lemma MuteObeyedByAll(ds: seq<Device>, src: Uid, dest: Uid, tn: Byte, port: Byte, theirs: seq<Buffer>,
                        collision: Bus.Ack)
    requires IsBus(ds) && port > 0 && |theirs| == |ds|
    ensures var rs := RespondAll(ds, MuteRequest(src, dest, tn, port, PID_DISC_MUTE), theirs);
            && IsBus(DevicesOf(rs))
            && WireOf(DevicesOf(rs)) == Bus.AfterMute(WireOf(ds), dest, Bus.Delivered(collision))
            && Repliers(ds, rs) == (if IsBroadcast(dest) then {} else UidsOf(ds) * {dest})
            && forall i :: 0 <= i < |ds| ==> IsLeftByMute(ds[i], rs[i], src, dest, tn, port)
  {
    var rs := RespondAll(ds, MuteRequest(src, dest, tn, port, PID_DISC_MUTE), theirs);
    hide Respond, Filled, BytesOf, AnswersDiscovery, IsMuted, MuteRequest, MuteReply, IsTarget, WireOf, Repliers;
    forall i: nat | i < |ds|
      ensures IsLeftByMute(ds[i], rs[i], src, dest, tn, port)
    {
      MuteObeyed(ds[i], src, dest, tn, port, PID_DISC_MUTE, theirs[i]);
    }
    hide RespondAll;
    MutedTogether(ds, DevicesOf(rs), dest);
    OnlyDestReplies(ds, rs, src, dest, tn, port);
  }

  lemma OnlyDestReplies(ds: seq<Device>, rs: seq<(Device, Reply)>, src: Uid, dest: Uid, tn: Byte, port: Byte)
    requires |rs| == |ds| && forall i :: 0 <= i < |ds| ==> IsLeftByMute(ds[i], rs[i], src, dest, tn, port)
    ensures Repliers(ds, rs) == if IsBroadcast(dest) then {} else UidsOf(ds) * {dest}
  {
    hide AnswersDiscovery, IsMuted, BytesOf, MuteReply;
  }

  lemma MutedTogether(ds: seq<Device>, after: seq<Device>, dest: Uid)
    requires |after| == |ds|
    requires forall i :: 0 <= i < |ds| ==>
               after[i].uid == ds[i].uid && (IsMuted(after[i]) <==> IsMuted(ds[i]) || IsTarget(ds[i].uid, dest))
    ensures WireOf(after).devices == WireOf(ds).devices
    ensures WireOf(after).muted == WireOf(ds).muted + Bus.Targets(WireOf(ds), dest)
  {
    hide IsMuted, IsTarget;
    forall u | u in WireOf(ds).devices
      ensures u in WireOf(after).devices
    {
      var i :| 0 <= i < |ds| && ds[i].uid == u;
      assert after[i].uid == u;
    }
    forall u | u in WireOf(ds).muted + Bus.Targets(WireOf(ds), dest)
      ensures u in WireOf(after).muted
    {
      var i :| 0 <= i < |ds| && ds[i].uid == u && (IsMuted(ds[i]) || IsTarget(u, dest));
      assert after[i].uid == u && IsMuted(after[i]);
    }
  }

  /** The reply to a mute, read by the controller, gives the ack of the bus model, and so does silence. */
  lemma MuteHeard(ds: seq<Device>, src: Uid, dest: Uid, tn: Byte, port: Byte, theirs: seq<Buffer>, ours: Buffer,
                  was: Bus.Ack, collision: Bus.Ack)
    requires IsBus(ds) && port > 0 && |theirs| == |ds|
    ensures var rs := RespondAll(ds, MuteRequest(src, dest, tn, port, PID_DISC_MUTE), theirs);
            var ack := Bus.MuteAck(WireOf(ds), dest, was, Bus.Delivered(collision));
            && (Repliers(ds, rs) == {} ==> ack == Bus.None)
            && forall k :: 0 <= k < |ds| && rs[k].1.Replies? ==> ack == AckOf(Filled(ours, rs[k].1.bytes))
  {
    MuteObeyedByAll(ds, src, dest, tn, port, theirs, collision);
    var rs := RespondAll(ds, MuteRequest(src, dest, tn, port, PID_DISC_MUTE), theirs);
    assert WireOf(ds).devices == UidsOf(ds);
    hide RespondAll, Filled, AckOf, IsLeftByMute, AnswersDiscovery, IsBus, Repliers, WireOf, MuteRequest;
    forall k | 0 <= k < |ds| && rs[k].1.Replies?
      ensures AckOf(Filled(ours, rs[k].1.bytes)) == Bus.Acked(dest) && ds[k].uid == dest && !IsBroadcast(dest)
    {
      ReplierAcks(ds, rs, k, src, dest, tn, port, ours);
    }
    assert forall k :: 0 <= k < |ds| ==> ds[k].uid in UidsOf(ds);
  }

  lemma ReplierAcks(ds: seq<Device>, rs: seq<(Device, Reply)>, k: nat, src: Uid, dest: Uid, tn: Byte, port: Byte,
                    ours: Buffer)
    requires k < |ds| == |rs| && IsLeftByMute(ds[k], rs[k], src, dest, tn, port) && rs[k].1.Replies?
    ensures AckOf(Filled(ours, rs[k].1.bytes)) == Bus.Acked(dest) && ds[k].uid == dest && !IsBroadcast(dest)
  {
    hide AnswersDiscovery, IsMuted, MuteReply, AckOf, Filled, BytesOf;
    MuteReplyRead(rs[k].0, src, dest, tn, port, PID_DISC_MUTE, ours);
  }

  /** The data of the acknowledgement: the control field and, if there is one, the binding UID. */
  function MuteAnswer(d: Device): seq<Byte> {
    Digits(d.control, 2) + if Value(d.bindingUid) == 0 then [] else Digits(Value(d.bindingUid), 6)
  }

  lemma MuteDataSent(d: Device)
    ensures Encode(Tokens("wv"), [], MuteData(d), false) == Encoded(MuteAnswer(d))
  {
    MuteFormat();
    WordInDigits(d.control);
    UidInDigits(d.bindingUid);
    var ts, u := [TWord, TOptionalUid], d.bindingUid;
    var uid := LittleDigits(u.manId, 2) + LittleDigits(u.devId, 4);
    assert Limit(2) == 0x1_0000;
    IntegerSent(ts, TWord, [TOptionalUid], d.control, uid, false);
    OptionalUidSent(ts, [], u, []);
    assert MuteData(d) == LittleDigits(d.control, 2) + uid;
    assert uid + [] == uid && [TOptionalUid] + [] == [TOptionalUid] && [TWord] + [TOptionalUid] == ts;
    PassStarts(ts, MuteData(d), false);
    hide Encode, Digits, LittleDigits, MuteData, Value;
  }

  /** The acknowledgement of a mute, byte for byte. */
  lemma MuteReplyInDigits(d: Device, src: Uid, dest: Uid, tn: Byte, port: Byte, pid: Word16)
    requires pid != PID_DISC_UNIQUE_BRANCH
    ensures var body := MuteAnswer(d);
            |body| <= 8
            && var message :=
                 HeaderDigits(Header(24 + |body|, src, d.uid, tn, 0, d.queued, 0, 0x11, pid, |body|)) + body;
            MuteReply(d, src, dest, tn, port, pid) == Wrote(message + Digits(Sum(message) % 0x1_0000, 2))
  {
    var request := RequestHeader(src, dest, tn, port, CC_DISC, pid, 0);
    MuteAckWritten(d, request);
    MuteDataSent(d);
    var h, data := ReplyHeader(d, request, RESPONSE_ACK, 8), MuteData(d);
    assert data[..8] == data;
    hide Encode, Tokens, CheckFrom, Digits, MuteData, Written, Sum, HeaderDigits, Value;
    PacketInDigits(h, Some("wv"), Some(data));
  }

  /** The acknowledgement of a mute reads as an ack from the device. */
  lemma MuteReplyRead(d: Device, src: Uid, dest: Uid, tn: Byte, port: Byte, pid: Word16, ours: Buffer)
    requires pid != PID_DISC_UNIQUE_BRANCH
    ensures AckOf(Filled(ours, BytesOf(MuteReply(d, src, dest, tn, port, pid)))) == Bus.Acked(d.uid)
  {
    var request := RequestHeader(src, dest, tn, port, CC_DISC, pid, 0);
    MuteAckWritten(d, request);
    var h, data := ReplyHeader(d, request, RESPONSE_ACK, 8), MuteData(d);
    var bytes := MuteReply(d, src, dest, tn, port, pid).bytes;
    hide ReadHeader, Written, MuteData, Body;
    WriteThenReadHeader(h, Some("wv"), Some(data), ours[|bytes|..]);
  }
}
