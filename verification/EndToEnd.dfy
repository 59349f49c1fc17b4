/**
 * SET and GET over the wire: requests and replies written by one driver, sent
 * through any run of transmit interrupts, received by another in any chunks
 * into a buffer with any stale bytes, and handled there.
 */
module EndToEnd {
  import opened Options
  import opened Uids
  import opened Bytes
  import opened Formats
  import opened Packets
  import opened Parameters
  import opened Receive
  import opened Recognition
  import opened Responder
  import opened Exchange
  import opened Controller
  import opened Labels
  import Link
  import Transmit

  /** One packet's way from buffer to buffer. */
  datatype Journey = Journey(
    rest: seq<Byte>, size: nat, progress: Progress, free: nat,    // the sender's buffer and start
    states: seq<Transmit.Tx>, es: seq<Transmit.Event>,            // its run of interrupts
    receiver: Rx, chunks: seq<seq<Byte>>)                         // the receiver, and how the bytes come in

  /** The packet was sent to the end, every byte of it was received, and `buffer` is the receiver's buffer then. */
  ghost predicate Carried(j: Journey, w: WriteResult, buffer: Buffer) {
    && w.Wrote? && |w.bytes + j.rest| == PACKET_MAX
    && Transmit.IsRun(j.states, j.es) && j.states[|j.es|].status == Idle
    && j.states[0] == Transmit.Start(w.bytes + j.rest, j.size, j.progress, j.free)
    && ReadyForPacket(j.receiver) && j.receiver.size >= 1
    && Flatten(j.chunks) == j.states[|j.es|].sent
    && buffer == Feed(j.receiver, j.chunks).0.data
  }

  /** After the journey of a written packet the receiver's buffer starts with it, and reads as its header. */
  lemma JourneyFills(j: Journey, h: Header, format: Option<string>, pd: Option<seq<Byte>>, buffer: Buffer)
    requires pd.Some? ==> |pd.value| >= h.pdl
    requires !IsDiscoveryResponse(h) && Carried(j, Written(h, format, pd), buffer)
    ensures buffer == Filled(buffer, BytesOf(Written(h, format, pd)))
    ensures ReadHeader(buffer).Some? && ReadHeader(buffer).value.cc == h.cc && ReadHeader(buffer).value.pid == h.pid
  {
    hide Written, ReadHeader, ReadPd, Feed, Flatten, Body, Transmit.IsRun, Transmit.Start, ReadyForPacket;
    Link.PacketArrives(h, format, pd, j.rest, j.size, j.progress, j.free, j.states, j.es, j.receiver, j.chunks);
    var bytes := BytesOf(Written(h, format, pd));
    assert buffer == bytes + buffer[|bytes|..];
  }

  /** A request went out, and the reply, if there was one, came back. */
  ghost predicate WentOverWire(d: Device, request: WriteResult, out: Journey, back: Journey,
                               theirs: Buffer, ours: Buffer)
  {
    && Carried(out, request, theirs)
    && (Respond(d, theirs).1.Replies? ==> Carried(back, Wrote(Respond(d, theirs).1.bytes), ours))
  }

  /**
   * Whatever is asked of whatever device, an exchange over the wire leaves the
   * device, and the controller's buffer, as the exchange of bytes does.
   */
  lemma ExchangeOverWire(d: Device, h: Header, format: Option<string>, pd: Option<seq<Byte>>,
                         out: Journey, back: Journey, theirs: Buffer, ours: Buffer)
    requires (pd.Some? ==> |pd.value| >= h.pdl) && !IsDiscoveryResponse(h) && !IsBranchRequest(h)
    requires WentOverWire(d, Written(h, format, pd), out, back, theirs, ours)
    ensures Exchanged(d, Written(h, format, pd), theirs, ours) == (Respond(d, theirs).0, ours)
  {
    JourneyFills(out, h, format, pd, theirs);
    hide Written, ReadHeader, Carried, Filled, BytesOf, Dispatch;
    if Respond(d, theirs).1.Replies? {
      var request := ReadHeader(theirs).value;
      DispatchIsReply(d, request, theirs);
      var w := Dispatch(d, request, theirs).1;
      var h': Header, format', pd': Option<seq<Byte>> :|
        (pd'.Some? ==> |pd'.value| >= h'.pdl) && !IsDiscoveryResponse(h') && Written(h', format', pd') == w;
      JourneyFills(back, h', format', pd', ours);
      BytesOfWrote(w);
    }
  }

  lemma BytesOfWrote(w: WriteResult)
    requires w.Wrote?
    ensures BytesOf(w) == w.bytes
  {
  }

  /**
   * A value SET and then fetched with GET is the value that was set, whatever
   * the interrupt schedules of both drivers, the cuts between interrupts and
   * the stale contents of every buffer on the way.
   */
  lemma SetThenGetOverWire(d: Device, src: Uid, tn: Byte, tn': Byte, port: Byte, pid: Word16, format: string,
                           v: seq<Byte>, journeys: seq<Journey>, buffers: seq<Buffer>,
                           dest: seq<Byte>, ackSupplied: bool)
    requires IsSettable(d, pid, format, |v|) && |v| <= 229 && !IsBroadcast(d.uid) && port > 0
    requires |journeys| == |buffers| == 4
    requires WentOverWire(d, Written(RequestHeader(src, d.uid, tn, port, CC_SET, pid, |v|), Some(format), Some(v)),
                          journeys[0], journeys[1], buffers[0], buffers[1])
    requires WentOverWire(Respond(d, buffers[0]).0,
                          Written(RequestHeader(src, d.uid, tn', port, CC_GET, pid, 0), None, None),
                          journeys[2], journeys[3], buffers[2], buffers[3])
    ensures ReadHeader(buffers[1])
         == Some(ReplyHeader(d, RequestHeader(src, d.uid, tn, port, CC_SET, pid, |v|), RESPONSE_ACK, 0))
    ensures Carries(buffers[3], ReplyHeader(d, RequestHeader(src, d.uid, tn', port, CC_GET, pid, 0), RESPONSE_ACK, |v|),
                    format, v)
    ensures Delivered(buffers[3], Some(format), dest, ackSupplied) == ValueIn(dest, format, v, ackSupplied)
    ensures HandsOut(buffers[3], Some(format), dest, ackSupplied, v) <==> |v| <= |dest| && (ackSupplied || v <= dest)
  {
    SetThenGet(d, src, tn, tn', port, pid, format, v, buffers[0], buffers[2], buffers[1], buffers[3],
               dest, ackSupplied);
    hide Written, ReadHeader, Respond, WentOverWire, Carries, SetParameter, PlainFor, Exchanged, IsServed, HandsOut,
         Delivered, ValueIn;
    ExchangeOverWire(d, RequestHeader(src, d.uid, tn, port, CC_SET, pid, |v|), Some(format), Some(v),
                     journeys[0], journeys[1], buffers[0], buffers[1]);
    ExchangeOverWire(Respond(d, buffers[0]).0, RequestHeader(src, d.uid, tn', port, CC_GET, pid, 0), None, None,
                     journeys[2], journeys[3], buffers[2], buffers[3]);
  }

  /**
   * The same for a parameter that holds text. What comes back is the text of v
   * over the bytes stored before, which is v exactly if v is a string of at
   * most 32 bytes that fits the parameter and, unless it fills it or has 32
   * bytes, the byte stored behind it was a null. The caller is handed the text
   * only if it supplied an ack, and is overrun if its destination is no longer
   * than the text.
   */
  lemma TextSetThenGetOverWire(d: Device, src: Uid, tn: Byte, tn': Byte, port: Byte, pid: Word16, size: nat,
                               format: string, v: seq<Byte>, journeys: seq<Journey>, buffers: seq<Buffer>,
                               dest: seq<Byte>, ackSupplied: bool)
    requires IsLabel(d, pid, size) && IsTextFormat(format) && |v| < PDL_MAX && !IsBroadcast(d.uid) && port > 0
    requires |journeys| == |buffers| == 4
    requires WentOverWire(d, Written(RequestHeader(src, d.uid, tn, port, CC_SET, pid, |v|), Some(format), Some(v)),
                          journeys[0], journeys[1], buffers[0], buffers[1])
    requires WentOverWire(Respond(d, buffers[0]).0,
                          Written(RequestHeader(src, d.uid, tn', port, CC_GET, pid, 0), None, None),
                          journeys[2], journeys[3], buffers[2], buffers[3])
    ensures ReadHeader(buffers[1])
         == Some(ReplyHeader(d, RequestHeader(src, d.uid, tn, port, CC_SET, pid, |v|), RESPONSE_ACK, 0))
    ensures var stored := ValueOf(d, pid, size);
            var w := Text(Renewed(stored, Text(v)));
            && HoldsText(buffers[3],
                         ReplyHeader(d, RequestHeader(src, d.uid, tn', port, CC_GET, pid, 0), RESPONSE_ACK, |w|), w)
            && Delivered(buffers[3], Some(format), dest, ackSupplied)
               == TextIn(dest, w, ackSupplied)
            && (w == v <==>
                  && |v| <= ASCII_MAX && 0 !in v && |v| <= size
                  && (|v| == ASCII_MAX || |v| == size || stored[|v|] == 0))
  {
    TextSetThenGet(d, src, tn, tn', port, pid, size, format, v, buffers[0], buffers[2], buffers[1], buffers[3]);
    var w := Text(Renewed(ValueOf(d, pid, size), Text(v)));
    TextComesBackExactly(ValueOf(d, pid, size), v);
    var getting := RequestHeader(src, d.uid, tn', port, CC_GET, pid, 0);
    hide Written, ReadHeader, Respond, WentOverWire, SetParameter, Exchanged, IsServed, IsTextFormat, HoldsText,
         Delivered, Returned, ValueOf, Text, Renewed, TextIn;
    ExchangeOverWire(d, RequestHeader(src, d.uid, tn, port, CC_SET, pid, |v|), Some(format), Some(v),
                     journeys[0], journeys[1], buffers[0], buffers[1]);
    ExchangeOverWire(Respond(d, buffers[0]).0, getting, None, None, journeys[2], journeys[3], buffers[2], buffers[3]);
    TextIsHandedOut(buffers[3], ReplyHeader(d, getting, RESPONSE_ACK, |w|), w, format, dest, ackSupplied);
  }
}
