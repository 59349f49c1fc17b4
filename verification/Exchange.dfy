/**
 * Requests and replies end to end: the controller's half of an exchange
 * (`rdm_send_request`), what replies mirror, SET followed by GET, and the
 * discovery behaviour of a device that the bus model builds on.
 */
module Exchange {
  import opened Options
  import opened Uids
  import opened Bytes
  import opened Formats
  import opened Packets
  import opened Parameters
  import opened Responder
  import opened Definedness
  import opened Controller
  import Bus

  // ----- What every reply mirrors -----

  /** A reply goes back to the sender, from this device, repeats what was asked and says how many messages wait. */
  predicate MirrorsRequest(uid: Uid, queued: Byte, request: Header, reply: Header) {
    && reply.destUid == request.srcUid && reply.srcUid == uid && reply.tn == request.tn && reply.messageCount == queued
    && reply.subDevice == request.subDevice && reply.pid == request.pid && reply.cc == request.cc + 1
    && (reply.portId == RESPONSE_ACK || reply.portId == RESPONSE_NACK)
  }

  /** A packet that `rdm_write` writes, and not a discovery response. */
  ghost predicate IsPacket(w: WriteResult) {
    exists h: Header, format, pd: Option<seq<Byte>> ::
      (pd.Some? ==> |pd.value| >= h.pdl) && !IsDiscoveryResponse(h) && Written(h, format, pd) == w
  }

  /** What was written is a packet that reads back, in any buffer, as a reply to the request. */
  ghost predicate IsReplyTo(uid: Uid, queued: Byte, request: Header, w: WriteResult) {
    w.Wrote? ==> IsPacket(w) && forall rest: seq<Byte> :: |w.bytes + rest| == PACKET_MAX ==>
      ReadHeader(w.bytes + rest).Some? && MirrorsRequest(uid, queued, request, ReadHeader(w.bytes + rest).value)
  }

  predicate IsBranchRequest(request: Header) {
    request.cc == CC_DISC && request.pid == PID_DISC_UNIQUE_BRANCH
  }

  lemma WrittenIsReply(d: Device, request: Header, responseType: Byte, pdl: nat,
                       format: Option<string>, pd: Option<seq<Byte>>)
    requires pdl < PDL_MAX && CcIsRequest(request.cc) && !IsBranchRequest(request)
    requires responseType == RESPONSE_ACK || responseType == RESPONSE_NACK
    requires pd.Some? ==> |pd.value| >= pdl
    ensures IsReplyTo(d.uid, d.queued, request, Written(ReplyHeader(d, request, responseType, pdl), format, pd))
  {
    var h := ReplyHeader(d, request, responseType, pdl);
    var w := Written(h, format, pd);
    hide Written, ReadHeader, Encode, Tokens;
    if w.Wrote? {
      forall rest: seq<Byte> | |w.bytes + rest| == PACKET_MAX
        ensures ReadHeader(w.bytes + rest).Some?
        ensures MirrorsRequest(d.uid, d.queued, request, ReadHeader(w.bytes + rest).value)
      {
        WriteThenReadHeader(h, format, pd, rest);
      }
    }
  }

  lemma AcknowledgeIsReply(d: Device, request: Header, format: Option<string>, pd: Option<seq<Byte>>)
    requires CcIsRequest(request.cc) && !IsBranchRequest(request) && (pd.Some? ==> |pd.value| < PDL_MAX)
    ensures IsReplyTo(d.uid, d.queued, request, Acknowledge(d, request, format, pd))
  {
    WrittenIsReply(d, request, RESPONSE_ACK, if pd.Some? then |pd.value| else 0, format, pd);
  }

  lemma RefuseIsReply(d: Device, request: Header, reason: Word16)
    requires CcIsRequest(request.cc) && !IsBranchRequest(request)
    ensures IsReplyTo(d.uid, d.queued, request, Refuse(d, request, reason))
  {
    WrittenIsReply(d, request, RESPONSE_NACK, 2, Some("w"), Some(Le16(reason)));
  }

  lemma HandleIsReply(d: Device, def: Definition, request: Header, buffer: Buffer)
    requires CcIsRequest(request.cc) && !IsBranchRequest(request)
    ensures Handle(d, def, request, buffer).0.uid == d.uid && Handle(d, def, request, buffer).0.queued == d.queued
    ensures IsReplyTo(d.uid, d.queued, request, Handle(d, def, request, buffer).1)
  {
    hide Written, Acknowledge, Refuse, IsReplyTo, ReadPd, SetParameter, CopyParameter, ReadInto, ReadData, IndexOf,
         ValueAt, MuteData;
    var (d', w) := Handle(d, def, request, buffer);
    NothingIsReply(d.uid, d.queued, request);
    RefuseIsReply(d, request, NR_SUB_DEVICE_OUT_OF_RANGE);
    AcknowledgeIsReply(d', request, None, None);
    AcknowledgeIsReply(d', request, def.getResponse, Some(MuteData(d')));
    AcknowledgeIsReply(d, request, def.getResponse, None);
    var i := IndexOf(d.table.entries, request.pid);
    if i < |d.table.entries| && HasCell(d.table.entries[i], d.table.memory) && d.table.entries[i].size < PDL_MAX {
      ValueLength(d.table, i);
      AcknowledgeIsReply(d, request, def.getResponse, Some(ValueAt(d.table, i)));
    }
  }

  lemma ValueLength(t: Table, i: nat)
    requires i < |t.entries| && HasCell(t.entries[i], t.memory)
    ensures |ValueAt(t, i)| == t.entries[i].size
  {
  }

  lemma NothingIsReply(uid: Uid, queued: Byte, request: Header)
    ensures IsReplyTo(uid, queued, request, Refused) && IsReplyTo(uid, queued, request, WriteUndefined)
  {
  }

  /**
   * Whatever a device replies to a request, acknowledgement or refusal, the
   * reply mirrors the request; a device never replies to a request that is not
   * for it, nor to a broadcast.
   */
  lemma RepliesMirror(d: Device, request: Header, buffer: Buffer, rest: seq<Byte>)
    requires ReadHeader(buffer) == Some(request) && !IsBranchRequest(request)
    requires Respond(d, buffer).1.Replies? && |Respond(d, buffer).1.bytes + rest| == PACKET_MAX
    ensures IsTarget(d.uid, request.destUid) && CcIsRequest(request.cc)
    ensures IsBroadcast(request.destUid) ==> request.pid == PID_DISC_UNIQUE_BRANCH
    ensures ReadHeader(Respond(d, buffer).1.bytes + rest).Some?
    ensures MirrorsRequest(d.uid, d.queued, request, ReadHeader(Respond(d, buffer).1.bytes + rest).value)
  {
    DispatchIsReply(d, request, buffer);
    hide ReadHeader, Dispatch, MirrorsRequest;
  }

  lemma DispatchIsReply(d: Device, request: Header, buffer: Buffer)
    requires CcIsRequest(request.cc) && !IsBranchRequest(request)
    ensures IsReplyTo(d.uid, d.queued, request, Dispatch(d, request, buffer).1)
  {
    hide IsReplyTo, Refuse, Handle;
    NothingIsReply(d.uid, d.queued, request);
    RefuseIsReply(d, request, NR_UNKNOWN_PID);
    RefuseIsReply(d, request, NR_FORMAT_ERROR);
    RefuseIsReply(d, request, NR_UNSUPPORTED_COMMAND_CLASS);
    if request.pid in d.definitions {
      var def := d.definitions[request.pid];
      HandleIsReply(d, def, request, buffer);
      RefuseIsReply(Handle(d, def, request, buffer).0, request, NR_HARDWARE_FAULT);
    }
  }

  // ----- SET, then GET -----

  /** The header of a request as `rdm_send_request` builds it, for the root device. */
  function RequestHeader(src: Uid, dest: Uid, tn: Byte, port: Byte, cc: Byte, pid: Word16, pdl: nat): Header
    requires pdl < PDL_MAX
  {
    Header(HEADER_SIZE + pdl, dest, src, tn, port, 0, 0, cc, pid, pdl)
  }

  /** The parameter in question: readable and settable, in one format that takes values of its size. */
  ghost predicate IsSettable(d: Device, pid: Word16, format: string, size: nat) {
    && IsServed(d, pid, size) && PlainFor(format, size)
    && d.definitions[pid].getResponse == Some(format) && d.definitions[pid].setRequest == Some(format)
  }

  /** A parameter of that size which the simple handler reads and sets. */
  ghost predicate IsServed(d: Device, pid: Word16, size: nat) {
    && TableOk(d.table) && pid != 0 && 1 <= size < PDL_MAX
    && IndexOf(d.table.entries, pid) < |d.table.entries|
    && var e := d.table.entries[IndexOf(d.table.entries, pid)];
    && HasCell(e, d.table.memory) && e.size == size
    && pid in d.definitions && pid != PID_DISC_UNIQUE_BRANCH
    && var def := d.definitions[pid];
    && def.pidCc == GetSet && def.getHandler == SimpleHandler && def.setHandler == SimpleHandler
  }

  /** A buffer after a packet was written or received into it. */
  function Filled(was: Buffer, bytes: seq<Byte>): Buffer {
    if |bytes| <= PACKET_MAX then bytes + was[|bytes|..] else was
  }

  function BytesOf(w: WriteResult): seq<Byte> {
    if w.Wrote? then w.bytes else []
  }

  /** The buffer holds a packet with this header and, under the format, this value. */
  predicate Carries(buffer: Buffer, h: Header, format: string, v: seq<Byte>) {
    ReadHeader(buffer) == Some(h) && ReadPd(buffer, format, |v|) == Pd(|v|, Encoded(v))
  }

  lemma PlainPacketWritten(h: Header, format: string, v: seq<Byte>)
    requires HeaderIsWritable(h) && !IsDiscoveryResponse(h) && h.pdl == |v| > 0 && PlainFor(format, |v|)
    ensures Written(h, Some(format), Some(v)).Wrote?
    ensures |Written(h, Some(format), Some(v)).bytes| == HEADER_SIZE + |v| + 2
  {
    PlainForRoundTrip(format, v);
    assert v[..|v|] == v;
    hide Encode, Tokens, Checksum;
  }

  /** A packet with a writable header and plain data is written in full and read back unchanged. */
  lemma PlainPacket(h: Header, format: string, v: seq<Byte>, was: Buffer)
    requires HeaderIsWritable(h) && !IsDiscoveryResponse(h) && h.pdl == |v| > 0 && PlainFor(format, |v|)
    ensures Written(h, Some(format), Some(v)).Wrote? && |Written(h, Some(format), Some(v)).bytes| <= 255 + 2
    ensures Carries(Filled(was, BytesOf(Written(h, Some(format), Some(v)))), h, format, v)
  {
    PlainPacketWritten(h, format, v);
    PlainForRoundTrip(format, v);
    assert v[..|v|] == v;
    hide Encode, Tokens, ReadHeader, ReadPd, Restored, Checksum, CheckFrom, PlainFor;
    var rest := was[HEADER_SIZE + |v| + 2..];
    WriteThenReadHeader(h, Some(format), Some(v), rest);
    WriteThenReadPd(h, format, v, rest, |v|);
  }

  lemma EmptyPacketWritten(h: Header)
    requires HeaderIsWritable(h) && !IsDiscoveryResponse(h) && h.pdl == 0
    ensures Written(h, None, None).Wrote? && |Written(h, None, None).bytes| == HEADER_SIZE + 2
  {
    hide Checksum;
  }

  /** A packet without data is written and read back unchanged. */
  lemma EmptyPacket(h: Header, was: Buffer)
    requires HeaderIsWritable(h) && !IsDiscoveryResponse(h) && h.pdl == 0
    ensures ReadHeader(Filled(was, BytesOf(Written(h, None, None)))) == Some(h)
  {
    EmptyPacketWritten(h);
    hide ReadHeader, Checksum, Written;
    WriteThenReadHeader(h, None, None, was[HEADER_SIZE + 2..]);
  }

  lemma ReadIntoExact(local: Local, v: seq<Byte>)
    requires |v| <= LOCAL_SIZE
    ensures ReadInto(local, Pd(|v|, Encoded(v))) == v
  {
  }

  /** A GET or SET for the simple handler takes effect, and is answered with what its handler wrote unless broadcast. */
  lemma HandlerAnswers(d: Device, request: Header, size: nat, buffer: Buffer, d': Device, w: WriteResult)
    requires IsServed(d, request.pid, size) && IsTarget(d.uid, request.destUid)
    requires request.cc == CC_SET || request.cc == CC_GET
    requires request.subDevice == 0 && request.pdl < PD_SIZE_MAX
    requires ReadHeader(buffer) == Some(request)
    requires Simple(d, d.definitions[request.pid], request, buffer) == (d', w) && w.Wrote? && 0 < |w.bytes| <= 255
    ensures Respond(d, buffer) == (d', if IsBroadcast(request.destUid) then Silent else Replies(w.bytes))
  {
    hide ReadHeader, Simple, TableOk, IndexOf;
    assert Dispatch(d, request, buffer) == (d', w);
    hide Dispatch;
  }

  lemma SimpleSet(d: Device, request: Header, format: string, v: seq<Byte>, buffer: Buffer)
    requires IsSettable(d, request.pid, format, |v|)
    requires request.cc == CC_SET && request.subDevice == 0 && request.pdl == |v|
    requires ReadPd(buffer, format, |v|) == Pd(|v|, Encoded(v))
    ensures var d' := d.(table := SetParameter(d.table, request.pid, v).0);
            Simple(d, d.definitions[request.pid], request, buffer) == (d', Acknowledge(d', request, None, None))
  {
    hide ReadPd, SetParameter, PlainFor, TableOk, IndexOf, Written, ReadInto;
    ReadIntoExact(d.local, v);
  }

  /** A SET request with plain data that reaches the device stores the data, and is acknowledged unless broadcast. */
  lemma SetIsStored(d: Device, request: Header, format: string, v: seq<Byte>, buffer: Buffer)
    requires IsSettable(d, request.pid, format, |v|) && IsTarget(d.uid, request.destUid)
    requires request.cc == CC_SET && request.subDevice == 0 && request.pdl == |v|
    requires Carries(buffer, request, format, v)
    ensures Respond(d, buffer).0 == d.(table := SetParameter(d.table, request.pid, v).0)
    ensures Respond(d, buffer).1
         == if IsBroadcast(request.destUid) then Silent
            else Replies(BytesOf(Acknowledge(Respond(d, buffer).0, request, None, None)))
  {
    hide ReadHeader, ReadPd, SetParameter, PlainFor, TableOk, IndexOf, Respond, Simple, Written;
    var d' := d.(table := SetParameter(d.table, request.pid, v).0);
    SimpleSet(d, request, format, v, buffer);
    EmptyPacketWritten(ReplyHeader(d', request, RESPONSE_ACK, 0));
    HandlerAnswers(d, request, |v|, buffer, d', Acknowledge(d', request, None, None));
  }

  lemma SimpleGet(d: Device, request: Header, format: string, v: seq<Byte>, buffer: Buffer)
    requires IsSettable(d, request.pid, format, |v|)
    requires ValueAt(d.table, IndexOf(d.table.entries, request.pid)) == v
    requires request.cc == CC_GET && request.subDevice == 0
    ensures Simple(d, d.definitions[request.pid], request, buffer)
         == (d, Acknowledge(d, request, Some(format), Some(v)))
  {
    hide PlainFor, TableOk, IndexOf, Written, ReadPd, ReadInto, SetParameter;
  }

  /** A GET request is answered with the stored value, in its format. */
  lemma GetIsAnswered(d: Device, request: Header, format: string, v: seq<Byte>, buffer: Buffer)
    requires IsSettable(d, request.pid, format, |v|) && !IsBroadcast(d.uid)
    requires ValueAt(d.table, IndexOf(d.table.entries, request.pid)) == v
    requires request.cc == CC_GET && request.subDevice == 0 && request.destUid == d.uid && request.pdl == 0
    requires ReadHeader(buffer) == Some(request) && |v| <= 229
    ensures Respond(d, buffer)
         == (d, Replies(BytesOf(Acknowledge(d, request, Some(format), Some(v)))))
  {
    hide ReadHeader, PlainFor, TableOk, IndexOf, Respond, Written, ValueAt, Simple;
    PlainPacketWritten(ReplyHeader(d, request, RESPONSE_ACK, |v|), format, v);
    SimpleGet(d, request, format, v, buffer);
    HandlerAnswers(d, request, |v|, buffer, d, Acknowledge(d, request, Some(format), Some(v)));
  }

  /** Setting keeps the parameter settable and gives it the value. */
  lemma SetKeepsSettable(d: Device, pid: Word16, format: string, v: seq<Byte>)
    requires IsSettable(d, pid, format, |v|)
    ensures var d' := d.(table := SetParameter(d.table, pid, v).0);
            && IsSettable(d', pid, format, |v|)
            && ValueAt(d'.table, IndexOf(d'.table.entries, pid)) == v
  {
    hide PlainFor;
    SetValid(d.table, pid, v);
    SetThenCopy(d.table, pid, v);
    var i := IndexOf(d.table.entries, pid);
    var t' := SetParameter(d.table, pid, v).0;
    FirstUnique(t'.entries, (e: Entry) => e.pid == pid, i);
    hide TableOk;
    assert ValueAt(t', i)[..|v|] == ValueAt(t', i);
  }

  /** The device and the controller's buffer after the controller sent a request and received the reply, if any. */
  function Exchanged(d: Device, request: WriteResult, theirs: Buffer, ours: Buffer): (Device, Buffer) {
    var (d', reply) := Respond(d, Filled(theirs, BytesOf(request)));
    (d', if reply.Replies? then Filled(ours, reply.bytes) else ours)
  }

  lemma SetExchange(d: Device, request: Header, format: string, v: seq<Byte>, theirs: Buffer, ours: Buffer)
    requires request.cc == CC_SET && request.subDevice == 0 && request.destUid == d.uid && request.pdl == |v|
    requires HeaderIsWritable(request) && !IsBroadcast(d.uid)
    requires IsSettable(d, request.pid, format, |v|)
    ensures Exchanged(d, Written(request, Some(format), Some(v)), theirs, ours).0
         == d.(table := SetParameter(d.table, request.pid, v).0)
    ensures ReadHeader(Exchanged(d, Written(request, Some(format), Some(v)), theirs, ours).1)
         == Some(ReplyHeader(d, request, RESPONSE_ACK, 0))
  {
    var d' := d.(table := SetParameter(d.table, request.pid, v).0);
    hide Written, ReadHeader, ReadPd, Respond, SetParameter, PlainFor, IndexOf, TableOk, Filled, BytesOf, Carries;
    PlainPacket(request, format, v, theirs);
    SetIsStored(d, request, format, v, Filled(theirs, BytesOf(Written(request, Some(format), Some(v)))));
    EmptyPacket(ReplyHeader(d', request, RESPONSE_ACK, 0), ours);
  }

  lemma GetExchange(d: Device, request: Header, format: string, v: seq<Byte>, theirs: Buffer, ours: Buffer)
    requires IsSettable(d, request.pid, format, |v|) && |v| <= 229 && !IsBroadcast(d.uid)
    requires ValueAt(d.table, IndexOf(d.table.entries, request.pid)) == v
    requires HeaderIsWritable(request)
    requires request.cc == CC_GET && request.subDevice == 0 && request.destUid == d.uid && request.pdl == 0
    ensures var (d', answer) := Exchanged(d, Written(request, None, None), theirs, ours);
            d' == d && Carries(answer, ReplyHeader(d, request, RESPONSE_ACK, |v|), format, v)
  {
    hide Written, ReadHeader, ReadPd, Respond, PlainFor, IndexOf, ValueAt, TableOk, Filled, BytesOf;
    EmptyPacket(request, theirs);
    GetIsAnswered(d, request, format, v, Filled(theirs, BytesOf(Written(request, None, None))));
    PlainPacket(ReplyHeader(d, request, RESPONSE_ACK, |v|), format, v, ours);
  }

  /**
   * The caller's destination once a value was read into it: as much of the
   * value as the destination is long, unless the format cannot be cut there.
   */
  function ValueIn(dest: seq<Byte>, format: string, v: seq<Byte>, ackSupplied: bool): Outcome {
    var n := Clamp(|v|, |dest|);
    if !ackSupplied then Encoded(dest)
    else if FitsData(Tokens(format), n) then Encoded(v[..n] + dest[n..])
    else Undefined
  }

  /** Of a value under a plain format, the first n bytes are read, if they can be read at all. */
  lemma CutIsRead(buffer: Buffer, format: string, v: seq<Byte>, n: nat)
    requires ReadPd(buffer, format, |v|) == Pd(|v|, Encoded(v)) && PlainFor(format, |v|) && 0 < |v| && n <= |v|
    ensures ReadPd(buffer, format, n) == Pd(|v|, if FitsData(Tokens(format), n) then Encoded(v[..n]) else Undefined)
  {
    var ts, data := Tokens(format), buffer[24..24 + |v|];
    assert buffer[24..24 + n] == data[..n];
    EncodeDefined(ts, data[..n], true);
    hide Encode, Tokens, CheckFrom;
    if FitsData(ts, n) && 0 < n < |v| {
      PlainPrefix(ts, [], data, n, true);
    }
    PassStarts(ts, [], true);
    assert v[..|v|] == v && data[..|v|] == data;
  }

  /**
   * The controller hands out the value of a reply that carries it, also of one
   * that is to be continued, exactly if the destination is long enough and it
   * was given an ack to fill in. A shorter destination gets the start of the
   * value, or is overrun.
   */
  lemma CarriedIsHandedOut(buffer: Buffer, h: Header, format: string, v: seq<Byte>, dest: seq<Byte>, ackSupplied: bool)
    requires Carries(buffer, h, format, v) && h.pdl == |v| > 0
    requires h.portId == RESPONSE_ACK || h.portId == RESPONSE_OVERFLOW
    ensures Returned(buffer) == if h.portId == RESPONSE_ACK then |v| else 0
    ensures HandsOut(buffer, Some(format), dest, ackSupplied, v) <==> |v| <= |dest| && (ackSupplied || v <= dest)
    ensures PlainFor(format, |v|) ==>
              Delivered(buffer, Some(format), dest, ackSupplied) == ValueIn(dest, format, v, ackSupplied)
  {
    assert buffer[23] == |v|;
    if |v| <= |dest| {
      ReadPdLarger(buffer, format, |v|, |dest|);
    }
    hide ReadHeader, ReadPd, PlainFor, FitsData, Tokens;
    if PlainFor(format, |v|) {
      CutIsRead(buffer, format, v, Clamp(|v|, |dest|));
    }
  }

  /**
   * A value SET and then fetched with GET is the value that was set, through
   * both codecs, dispatch and the table, for every value the parameter takes
   * and that fits one reply; and the replies mirror their requests. The caller
   * is handed the value exactly if it is long enough and came with an ack.
   */
  lemma SetThenGet(d: Device, src: Uid, tn: Byte, tn': Byte, port: Byte, pid: Word16, format: string, v: seq<Byte>,
                   theirs: Buffer, theirs': Buffer, ours: Buffer, ours': Buffer, dest: seq<Byte>, ackSupplied: bool)
    requires IsSettable(d, pid, format, |v|) && |v| <= 229 && !IsBroadcast(d.uid) && port > 0
    ensures var setting := RequestHeader(src, d.uid, tn, port, CC_SET, pid, |v|);
            var getting := RequestHeader(src, d.uid, tn', port, CC_GET, pid, 0);
            var (d', ack) := Exchanged(d, Written(setting, Some(format), Some(v)), theirs, ours);
            var (d'', answer) := Exchanged(d', Written(getting, None, None), theirs', ours');
            && d'' == d' == d.(table := SetParameter(d.table, pid, v).0)
            && ReadHeader(ack) == Some(ReplyHeader(d, setting, RESPONSE_ACK, 0))
            && Carries(answer, ReplyHeader(d, getting, RESPONSE_ACK, |v|), format, v)
            && Returned(answer) == |v|
            && Delivered(answer, Some(format), dest, ackSupplied) == ValueIn(dest, format, v, ackSupplied)
            && (HandsOut(answer, Some(format), dest, ackSupplied, v) <==> |v| <= |dest| && (ackSupplied || v <= dest))
  {
    var d' := d.(table := SetParameter(d.table, pid, v).0);
    SetKeepsSettable(d, pid, format, v);
    hide Written, ReadHeader, Exchanged, Carries, SetParameter, PlainFor, IndexOf, ValueAt, TableOk, Returned, HandsOut,
         Delivered, ValueIn;
    var getting := RequestHeader(src, d.uid, tn', port, CC_GET, pid, 0);
    SetExchange(d, RequestHeader(src, d.uid, tn, port, CC_SET, pid, |v|), format, v, theirs, ours);
    GetExchange(d', getting, format, v, theirs', ours');
    CarriedIsHandedOut(Exchanged(d', Written(getting, None, None), theirs', ours').1,
                       ReplyHeader(d, getting, RESPONSE_ACK, |v|), format, v, dest, ackSupplied);
  }

  /** A refusal of a request to the root device is always written. */
  lemma RefusalWritten(d: Device, request: Header, reason: Word16)
    requires CcIsValid(request.cc) && CcIsRequest(request.cc) && request.subDevice == 0 && !IsBranchRequest(request)
    ensures Refuse(d, request, reason).Wrote?
  {
    WordFormat();
    PlainPacketWritten(ReplyHeader(d, request, RESPONSE_NACK, 2), "w", Le16(reason));
  }

  /** A value one byte longer is stored by a SET, but a GET of it is refused as a hardware fault. */
  lemma LargestValueNotRead(d: Device, request: Header, format: string, v: seq<Byte>, buffer: Buffer)
    requires IsSettable(d, request.pid, format, 230) && |v| == 230 && !IsBroadcast(d.uid)
    requires ValueAt(d.table, IndexOf(d.table.entries, request.pid)) == v
    requires request.cc == CC_GET && request.subDevice == 0 && request.destUid == d.uid && request.pdl == 0
    requires ReadHeader(buffer) == Some(request)
    ensures Respond(d, buffer)
         == (d.(bootLoader := true), Replies(BytesOf(Refuse(d, request, NR_HARDWARE_FAULT))))
  {
    PlainPacketWritten(ReplyHeader(d, request, RESPONSE_ACK, 230), format, v);
    SimpleGet(d, request, format, v, buffer);
    RefusalWritten(d, request, NR_HARDWARE_FAULT);
    hide ReadHeader, Refuse, Acknowledge, Simple, PlainFor, TableOk, IndexOf, ValueAt;
    TooLongRefused(d, request, 230, buffer, Acknowledge(d, request, Some(format), Some(v)));
    hide Dispatch;
  }

  /** A reply of more than 255 bytes becomes a hardware fault. */
  lemma TooLongRefused(d: Device, request: Header, size: nat, buffer: Buffer, w: WriteResult)
    requires IsServed(d, request.pid, size) && request.subDevice == 0 && request.pdl == 0
    requires request.cc == CC_GET && Simple(d, d.definitions[request.pid], request, buffer) == (d, w)
    requires w.Wrote? && |w.bytes| > 255
    ensures Dispatch(d, request, buffer) == (d.(bootLoader := true), Refuse(d, request, NR_HARDWARE_FAULT))
  {
    hide Simple, TableOk, IndexOf, Refuse;
  }

  // ----- A device on the bus -----

  function DiscoveryDefinition(pid: Word16): Definition {
    if pid == PID_DISC_UNIQUE_BRANCH then BRANCH_DEFINITION else MUTE_DEFINITION
  }

  /** The device answers discovery: mute and un-mute share one byte of memory. */
  ghost predicate AnswersDiscovery(d: Device) {
    && (forall pid :: pid in {PID_DISC_UNIQUE_BRANCH, PID_DISC_MUTE, PID_DISC_UN_MUTE} ==>
          pid in d.definitions && d.definitions[pid] == DiscoveryDefinition(pid))
    && SharesMute(d.table)
  }

  predicate IsByteAt(t: Table, pid: Word16, cell: nat) {
    var i := IndexOf(t.entries, pid);
    && i < |t.entries| && t.entries[i].cell == Some(cell) && t.entries[i].size == 1
    && t.entries[i].kind != NonVolatile && HasCell(t.entries[i], t.memory) && |t.memory[cell]| == 1
  }

  ghost predicate SharesMute(t: Table) {
    exists cell: nat :: IsByteAt(t, PID_DISC_MUTE, cell) && IsByteAt(t, PID_DISC_UN_MUTE, cell)
  }

  /** The device as the bus sees it. */
  function OnWire(d: Device): Bus.Wire {
    Bus.Wire({d.uid}, if IsMuted(d) then {d.uid} else {})
  }

  /** Setting either parameter is seen through both. */
  lemma MuteSeenThroughBoth(t: Table, pid: Word16, mute: Byte)
    requires SharesMute(t) && (pid == PID_DISC_MUTE || pid == PID_DISC_UN_MUTE)
    ensures SharesMute(SetParameter(t, pid, [mute]).0)
    ensures CopyParameter(SetParameter(t, pid, [mute]).0, PID_DISC_MUTE, 1) == [mute]
  {
    var cell: nat :| IsByteAt(t, PID_DISC_MUTE, cell) && IsByteAt(t, PID_DISC_UN_MUTE, cell);
    var t' := SetParameter(t, pid, [mute]).0;
    assert t'.entries == t.entries && t'.memory[cell] == [mute] by {
      var source: seq<Byte> := [mute];
      assert source[..1] == source;
      assert Overwrite(t.memory[cell], source) == source;
    }
    hide IndexOf;
    assert IsByteAt(t', PID_DISC_MUTE, cell) && IsByteAt(t', PID_DISC_UN_MUTE, cell);
    assert t'.memory[cell][..1] == [mute];
  }

  /** The data of a branch request: both bounds, as they lie in memory. */
  function BranchData(lower: Uid, upper: Uid): (s: seq<Byte>)
    ensures |s| == 12
  {
    UidMemory(lower) + UidMemory(upper)
  }

  lemma BranchIsRead(d: Device, buffer: Buffer, request: Header, lower: Uid, upper: Uid)
    requires Carries(buffer, request, "uu$", BranchData(lower, upper)) && CcIsRequest(request.cc)
    ensures Branch(d, BRANCH_DEFINITION, request, buffer)
         == if IsLt(d.uid, lower) || IsGt(d.uid, upper) then Refused else Acknowledge(d, request, None, None)
  {
    UidMemoryRoundTrip(lower);
    UidMemoryRoundTrip(upper);
    hide ReadHeader, ReadPd, UidMemory, UidFromMemory, Acknowledge;
    var out := BranchData(lower, upper);
    assert out[..6] == UidMemory(lower) && out[6..] == UidMemory(upper);
  }

  lemma BranchHandled(d: Device, request: Header, buffer: Buffer, lower: Uid, upper: Uid)
    requires IsBranchRequest(request) && request.subDevice == 0
    requires Carries(buffer, request, "uu$", BranchData(lower, upper))
    ensures Discovery(d, BRANCH_DEFINITION, request, buffer)
         == (d, if Bus.Audience(OnWire(d), lower, upper) == {d.uid} then Wrote(DiscoveryResponse(d.uid)) else Refused)
    ensures Bus.Audience(OnWire(d), lower, upper) == {d.uid} || Bus.Audience(OnWire(d), lower, upper) == {}
  {
    BranchIsRead(d, buffer, request, lower, upper);
    hide Branch, Carries, DiscoveryResponse, IsMuted;
    var audience := Bus.Audience(OnWire(d), lower, upper);
    if IsMuted(d) || IsLt(d.uid, lower) || IsGt(d.uid, upper) {
      assert audience == {};
    } else {
      assert audience == {d.uid};
      assert Acknowledge(d, request, None, None) == Wrote(DiscoveryResponse(d.uid));
    }
  }

  /** A discovery request that reaches the device is answered with what the discovery handler wrote. */
  lemma DiscoveryDispatched(d: Device, request: Header, buffer: Buffer, d': Device, w: WriteResult)
    requires request.cc == CC_DISC && request.subDevice == 0 && request.pdl < PDL_MAX
    requires request.pid in d.definitions && d.definitions[request.pid] == DiscoveryDefinition(request.pid)
    requires ReadHeader(buffer) == Some(request) && IsTarget(d.uid, request.destUid)
    requires Discovery(d, DiscoveryDefinition(request.pid), request, buffer) == (d', w) && !w.WriteUndefined?
    requires w.Wrote? ==> |w.bytes| == 24 || (24 < |w.bytes| <= 255 && request.pid != PID_DISC_UNIQUE_BRANCH)
    requires !w.Wrote? ==> IsBroadcast(request.destUid)
    ensures Respond(d, buffer)
         == (d', if w.Wrote? && (!IsBroadcast(request.destUid) || request.pid == PID_DISC_UNIQUE_BRANCH)
                 then Replies(w.bytes) else Silent)
  {
    hide ReadHeader, Discovery;
    assert Dispatch(d, request, buffer) == (d', w);
    hide Dispatch;
  }

  function BranchRequest(src: Uid, tn: Byte, port: Byte, lower: Uid, upper: Uid): WriteResult {
    Written(RequestHeader(src, BROADCAST_ALL, tn, port, CC_DISC, PID_DISC_UNIQUE_BRANCH, 12),
            Some("uu$"), Some(BranchData(lower, upper)))
  }

  /**
   * To a branch request a device gives the answer of the bus model: its
   * discovery response if it belongs to the audience of the range, else none.
   */
  lemma BranchAnswered(d: Device, src: Uid, tn: Byte, port: Byte, lower: Uid, upper: Uid, theirs: Buffer)
    requires AnswersDiscovery(d) && port > 0
    ensures Respond(d, Filled(theirs, BytesOf(BranchRequest(src, tn, port, lower, upper))))
         == (d, if d.uid in Bus.Audience(OnWire(d), lower, upper) then Replies(DiscoveryResponse(d.uid)) else Silent)
  {
    var request := RequestHeader(src, BROADCAST_ALL, tn, port, CC_DISC, PID_DISC_UNIQUE_BRANCH, 12);
    BranchFormat();
    PlainPacket(request, "uu$", BranchData(lower, upper), theirs);
    hide PlainFor, Written, SharesMute, Filled, BytesOf, ReadPd, ReadHeader, BranchData, DiscoveryResponse, Respond,
         Branch, Discovery, Bus.Audience, OnWire;
    var buffer := Filled(theirs, BytesOf(BranchRequest(src, tn, port, lower, upper)));
    BranchHandled(d, request, buffer, lower, upper);
    DiscoveryDispatched(d, request, buffer, d, Discovery(d, BRANCH_DEFINITION, request, buffer).1);
  }

  /** A device that has no mute parameter to look at takes itself for muted: no branch request is answered. */
  lemma SilentWithoutMute(d: Device, src: Uid, tn: Byte, port: Byte, lower: Uid, upper: Uid, theirs: Buffer)
    requires PID_DISC_UNIQUE_BRANCH in d.definitions && d.definitions[PID_DISC_UNIQUE_BRANCH] == BRANCH_DEFINITION
    requires (forall e :: e in d.table.entries ==> e.pid != PID_DISC_MUTE) && port > 0
    ensures Respond(d, Filled(theirs, BytesOf(BranchRequest(src, tn, port, lower, upper)))) == (d, Silent)
  {
    var request := RequestHeader(src, BROADCAST_ALL, tn, port, CC_DISC, PID_DISC_UNIQUE_BRANCH, 12);
    BranchFormat();
    PlainPacket(request, "uu$", BranchData(lower, upper), theirs);
    assert IsMuted(d);
    hide PlainFor, Written, Filled, BytesOf, ReadPd, ReadHeader, BranchData, Respond, Branch, IsMuted;
    var buffer := Filled(theirs, BytesOf(BranchRequest(src, tn, port, lower, upper)));
    DiscoveryDispatched(d, request, buffer, d, Refused);
  }

  /** The acknowledgement of a mute is written, whatever the device reports in it. */
  lemma MuteAckWritten(d: Device, request: Header)
    requires request.cc == CC_DISC && request.subDevice == 0 && request.pid != PID_DISC_UNIQUE_BRANCH
    ensures Acknowledge(d, request, Some("wv"), Some(MuteData(d))).Wrote?
    ensures 24 < |Acknowledge(d, request, Some("wv"), Some(MuteData(d))).bytes| <= 255
  {
    MuteFormat();
    var ts, data := Tokens("wv"), MuteData(d);
    assert ts[1..] == [TOptionalUid];
    assert Terminated(ts) && Known(ts) && FixedSize(ts) == 2;
    EncodeDefined(ts, data, false);
    assert data[..8] == data;
    hide Encode, Tokens, CheckFrom, Checksum, MuteData, Known, Terminated, FixedSize;
    BodyFits(ReplyHeader(d, request, RESPONSE_ACK, 8), Some("wv"), Some(data));
  }

  function MuteRequest(src: Uid, dest: Uid, tn: Byte, port: Byte, pid: Word16): WriteResult {
    Written(RequestHeader(src, dest, tn, port, CC_DISC, pid, 0), None, None)
  }

  /** The acknowledgement a device gives. */
  function MuteReply(d: Device, src: Uid, dest: Uid, tn: Byte, port: Byte, pid: Word16): WriteResult {
    Acknowledge(d, RequestHeader(src, dest, tn, port, CC_DISC, pid, 0), Some("wv"), Some(MuteData(d)))
  }

  lemma MuteHandled(d: Device, request: Header, buffer: Buffer, mute: Byte)
    requires request.cc == CC_DISC && request.subDevice == 0
    requires request.pid == PID_DISC_MUTE || request.pid == PID_DISC_UN_MUTE
    requires mute == if request.pid == PID_DISC_MUTE then 1 else 0
    ensures var d' := d.(table := SetParameter(d.table, request.pid, [mute]).0);
            Discovery(d, MUTE_DEFINITION, request, buffer)
            == (d', Acknowledge(d', request, Some("wv"), Some(MuteData(d'))))
  {
    hide SetParameter, Acknowledge, MuteData;
  }

  lemma MuteObeyedByTarget(d: Device, request: Header, buffer: Buffer, mute: Byte)
    requires AnswersDiscovery(d) && IsTarget(d.uid, request.destUid) && ReadHeader(buffer) == Some(request)
    requires request.cc == CC_DISC && request.subDevice == 0 && request.pdl == 0
    requires request.pid == PID_DISC_MUTE || request.pid == PID_DISC_UN_MUTE
    requires mute == if request.pid == PID_DISC_MUTE then 1 else 0
    ensures var d' := d.(table := SetParameter(d.table, request.pid, [mute]).0);
            && SharesMute(d'.table) && (IsMuted(d') <==> mute == 1)
            && Respond(d, buffer)
               == (d', if IsBroadcast(request.destUid) then Silent
                       else Replies(BytesOf(Acknowledge(d', request, Some("wv"), Some(MuteData(d'))))))
  {
    MuteSeenThroughBoth(d.table, request.pid, mute);
    var d' := d.(table := SetParameter(d.table, request.pid, [mute]).0);
    MuteAckWritten(d', request);
    hide ReadHeader, SharesMute, SetParameter, CopyParameter, Respond, MuteData, Discovery, Acknowledge;
    MuteHandled(d, request, buffer, mute);
    DiscoveryDispatched(d, request, buffer, d', Acknowledge(d', request, Some("wv"), Some(MuteData(d'))));
  }

  lemma IgnoredUnlessTarget(d: Device, request: Header, buffer: Buffer)
    requires ReadHeader(buffer) == Some(request) && !IsTarget(d.uid, request.destUid)
    ensures Respond(d, buffer) == (d, Silent)
  {
    hide ReadHeader, Dispatch;
  }

  /**
   * A mute or un-mute request changes the device as the bus model says: it is
   * muted, or not, exactly if the request was addressed to it, and it replies
   * exactly if the request was addressed to it alone.
   */
  lemma MuteObeyed(d: Device, src: Uid, dest: Uid, tn: Byte, port: Byte, pid: Word16, theirs: Buffer)
    requires AnswersDiscovery(d) && port > 0 && (pid == PID_DISC_MUTE || pid == PID_DISC_UN_MUTE)
    ensures var (d', reply) := Respond(d, Filled(theirs, BytesOf(MuteRequest(src, dest, tn, port, pid))));
            && AnswersDiscovery(d') && d'.uid == d.uid
            && (if IsTarget(d.uid, dest) then IsMuted(d') <==> pid == PID_DISC_MUTE else d' == d)
            && reply == if IsTarget(d.uid, dest) && !IsBroadcast(dest)
                        then Replies(BytesOf(MuteReply(d', src, dest, tn, port, pid))) else Silent
  {
    var request := RequestHeader(src, dest, tn, port, CC_DISC, pid, 0);
    var buffer := Filled(theirs, BytesOf(MuteRequest(src, dest, tn, port, pid)));
    hide ReadHeader, Written, Filled, BytesOf, SharesMute, SetParameter, CopyParameter, IsMuted, Respond, MuteData,
         Acknowledge;
    EmptyPacket(request, theirs);
    if IsTarget(d.uid, dest) {
      MuteObeyedByTarget(d, request, buffer, if pid == PID_DISC_MUTE then 1 else 0);
    } else {
      IgnoredUnlessTarget(d, request, buffer);
    }
  }

  // ----- Registration -----

  function CellOf(t: Table, pid: Word16): Option<nat> {
    var i := IndexOf(t.entries, pid);
    if i < |t.entries| then t.entries[i].cell else None
  }

  /** `rdm_register_disc_mute` and `rdm_register_disc_un_mute`: a new byte, or an alias of the counterpart's. */
  function RegisterMuteOf(t: Table, pid: Word16, counterpart: Word16): (Table, bool) {
    match CellOf(t, counterpart)
    case None => AddParameter(t, pid, Dynamic, Given([0]), 1, true)
    case Some(cell) => AddParameter(t, pid, Static, Shared(cell), 1, true)
  }

  predicate HasFreeSlots(t: Table, n: nat) {
    |t.entries| >= n && forall i :: |t.entries| - n <= i < |t.entries| ==> t.entries[i].pid == 0
  }

  /** The first of the two gets a new byte. */
  lemma FirstRegistered(t: Table, first: Word16, second: Word16) returns (i: nat)
    requires TableOk(t) && HasFreeSlots(t, 2)
    requires {first, second} == {PID_DISC_MUTE, PID_DISC_UN_MUTE}
    requires IndexOf(t.entries, first) == |t.entries| && IndexOf(t.entries, second) == |t.entries|
    ensures i < |t.entries| - 1 && t.entries[i + 1].pid == 0
    ensures forall j :: 0 <= j < i ==> t.entries[j].pid != 0
    ensures RegisterMuteOf(t, first, second).0
         == t.(entries := t.entries[i := Entry(first, 1, Some(|t.memory|), Dynamic)], memory := t.memory + [[0]])
  {
    var n := |t.entries|;
    i := FreeIndex(t.entries, first);
    assert t.entries[n - 2].pid == 0;
    assert t.entries[i].pid == 0;
    hide FreeIndex, IndexOf, StagedCount, CellsOk;
  }

  /** The second shares it. */
  lemma SecondRegistered(t: Table, first: Word16, second: Word16, i: nat, cell: nat)
    requires first != 0 && second != 0 && first != second && i < |t.entries| - 1
    requires t.entries[i] == Entry(first, 1, Some(cell), Dynamic) && t.entries[i + 1].pid == 0
    requires forall j :: 0 <= j < i ==> t.entries[j].pid != 0 && t.entries[j].pid != first && t.entries[j].pid != second
    ensures RegisterMuteOf(t, second, first).0
         == t.(entries := t.entries[i + 1 := Entry(second, 1, Some(cell), Static)])
  {
    FirstUnique(t.entries, (e: Entry) => e.pid == first, i);
    FirstUnique(t.entries, (e: Entry) => e.pid == second || e.pid == 0, i + 1);
    hide First;
  }

  /** Registered in either order, mute and un-mute share one byte. */
  lemma RegistrationShares(t: Table, first: Word16, second: Word16)
    requires TableOk(t) && HasFreeSlots(t, 2)
    requires {first, second} == {PID_DISC_MUTE, PID_DISC_UN_MUTE}
    requires IndexOf(t.entries, first) == |t.entries| && IndexOf(t.entries, second) == |t.entries|
    ensures SharesMute(RegisterMuteOf(RegisterMuteOf(t, first, second).0, second, first).0)
  {
    var i := FirstRegistered(t, first, second);
    var t1, cell := RegisterMuteOf(t, first, second).0, |t.memory|;
    assert first in {first, second} && second in {first, second};
    hide TableOk, HasFreeSlots, RegisterMuteOf;
    SecondRegistered(t1, first, second, i, cell);
    var t2 := RegisterMuteOf(t1, second, first).0;
    FirstUnique(t2.entries, (e: Entry) => e.pid == first, i);
    FirstUnique(t2.entries, (e: Entry) => e.pid == second, i + 1);
    hide First;
    assert IsByteAt(t2, first, cell) && IsByteAt(t2, second, cell);
  }
}
