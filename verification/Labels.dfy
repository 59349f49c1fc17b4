/**
 * Parameters that hold text, such as the device label: a format whose data is
 * a string, sent without its terminator. A SET stores the characters and
 * leaves the bytes behind them as they were.
 */
module Labels {
  import opened Options
  import opened Uids
  import opened Bytes
  import opened Formats
  import opened Packets
  import opened Parameters
  import opened Responder
  import opened Definedness
  import opened Exchange
  import opened Controller

  // ----- Text -----

  predicate IsTextFormat(format: string) {
    CheckFrom(format, 0) == Valid && Tokens(format) != [] && Tokens(format)[0] == TAscii
  }

  /** The string at the head of s: up to 32 bytes, and up to a null. */
  function Text(s: seq<Byte>): (t: seq<Byte>)
    ensures |t| <= ASCII_MAX && t <= s && 0 !in t
  {
    s[..StringLength(s, ASCII_MAX)]
  }

  /** Exactly the strings of up to 32 bytes without nulls are their own text. */
  lemma TextIsItself(s: seq<Byte>)
    ensures Text(s) == s <==> |s| <= ASCII_MAX && 0 !in s
  {
    var n := StringLength(s, ASCII_MAX);
    if n < |s| && n < ASCII_MAX {
      assert s[n] == 0;
    }
  }

  lemma TextEncodes(format: string, data: seq<Byte>, nulls: bool)
    requires IsTextFormat(format) && data != []
    ensures Encode(Tokens(format), [], data, nulls) == Encoded(Text(data) + if nulls then [0] else [])
  {
    PassStarts(Tokens(format), data, nulls);
  }

  /** The buffer holds a packet with this header whose data is w. */
  predicate HoldsText(buffer: Buffer, h: Header, w: seq<Byte>) {
    && ReadHeader(buffer) == Some(h) && h.pdl == buffer[23] == |w| <= PDL_MAX
    && buffer[24..24 + |w|] == w
  }

  lemma TextWritten(h: Header, format: string, v: seq<Byte>)
    requires HeaderIsWritable(h) && !IsDiscoveryResponse(h) && h.pdl == |v| && IsTextFormat(format)
    ensures Body(h, Some(format), Some(v)) == Encoded(Text(v))
    ensures Written(h, Some(format), Some(v)) == Wrote(Framed(Message(h, Text(v))))
    ensures |Framed(Message(h, Text(v)))| == HEADER_SIZE + |Text(v)| + 2
  {
    assert v[..|v|] == v;
    if v != [] {
      TextEncodes(format, v, false);
    }
    hide Tokens, Encode, CheckFrom, Text, Checksum;
  }

  /** Text goes out without its terminator, and both lengths of the header say so. */
  lemma TextPacket(h: Header, format: string, v: seq<Byte>, was: Buffer)
    requires HeaderIsWritable(h) && !IsDiscoveryResponse(h) && h.pdl == |v| && IsTextFormat(format)
    ensures HoldsText(Filled(was, BytesOf(Written(h, Some(format), Some(v)))), Patched(h, Text(v)), Text(v))
  {
    TextWritten(h, format, v);
    hide Tokens, Encode, CheckFrom, Text, Written, ReadHeader, Framed, Message, IsTextFormat;
    var rest := was[HEADER_SIZE + |Text(v)| + 2..];
    WriteThenReadHeader(h, Some(format), Some(v), rest);
    FramedBody(h, Text(v), rest);
  }

  /** Reading data as text takes the text at its head and terminates it; the length returned is that of the data. */
  lemma TextIsRead(buffer: Buffer, h: Header, w: seq<Byte>, format: string, size: nat)
    requires HoldsText(buffer, h, w) && IsTextFormat(format)
    ensures ReadPd(buffer, format, size)
         == if w == [] then NoData
            else Pd(|w|, Encoded(if size == 0 then [] else Text(w[..Clamp(|w|, size)]) + [0]))
  {
    hide ReadHeader, Encode, Tokens, CheckFrom, Text;
    if w != [] {
      var n := Clamp(|w|, size);
      assert buffer[24..24 + n] == w[..n];
      if size > 0 {
        TextEncodes(format, w[..n], true);
      } else {
        PassStarts(Tokens(format), [], true);
      }
    }
  }

  // ----- The parameter -----

  /** A parameter of that size which holds text. */
  ghost predicate IsLabel(d: Device, pid: Word16, size: nat) {
    && IsServed(d, pid, size)
    && var def := d.definitions[pid];
    && def.getResponse.Some? && IsTextFormat(def.getResponse.value)
    && def.setRequest.Some? && IsTextFormat(def.setRequest.value)
  }

  ghost function ValueOf(d: Device, pid: Word16, size: nat): (s: seq<Byte>)
    requires IsServed(d, pid, size)
    ensures |s| == size
  {
    ValueAt(d.table, IndexOf(d.table.entries, pid))
  }

  /** What a SET of the text w makes of the stored bytes. */
  function Renewed(stored: seq<Byte>, w: seq<Byte>): (r: seq<Byte>)
    ensures |r| == |stored|
  {
    Overwrite(stored, w[..Clamp(|w|, |stored|)])
  }

  lemma OverwriteTaken(cell: seq<Byte>, source: seq<Byte>, size: nat)
    requires |source| <= size <= |cell|
    ensures Overwrite(cell, source)[..size] == Overwrite(cell[..size], source)
  {
  }

  lemma OverwriteNothing(cell: seq<Byte>)
    ensures Overwrite(cell, []) == cell
  {
  }

  lemma LabelSet(d: Device, pid: Word16, size: nat, w: seq<Byte>)
    requires IsLabel(d, pid, size)
    ensures var d' := d.(table := SetParameter(d.table, pid, w).0);
            IsLabel(d', pid, size) && ValueOf(d', pid, size) == Renewed(ValueOf(d, pid, size), w)
  {
    hide IsTextFormat;
    SetValid(d.table, pid, w);
    var i := IndexOf(d.table.entries, pid);
    var t' := SetParameter(d.table, pid, w).0;
    FirstUnique(t'.entries, (e: Entry) => e.pid == pid, i);
    hide TableOk, IndexOf, Overwrite;
    var cell := d.table.memory[d.table.entries[i].cell.value];
    OverwriteTaken(cell, w[..Clamp(|w|, size)], size);
    OverwriteNothing(cell[..size]);
  }

  // ----- SET and GET of text -----

  /** What the handler passes on of the data w: its text, a null, and then whatever its read buffer held. */
  function Received(local: Local, w: seq<Byte>): (r: seq<Byte>)
    requires |w| <= PDL_MAX
    ensures |r| == |w|
  {
    if w == [] then [] else PassedOn(Text(w) + [0], local, |w|)
  }

  /** Of a string that is all text nothing but the string is passed on. */
  lemma TextReceived(local: Local, w: seq<Byte>)
    requires |w| <= PDL_MAX && Text(w) == w
    ensures Received(local, w) == w
  {
  }

  lemma TextReadInto(local: Local, w: seq<Byte>)
    requires |w| <= PDL_MAX
    ensures var data := if w == [] then NoData else Pd(|w|, Encoded(Text(w) + [0]));
            FitsLocal(data) && ReadInto(local, data) == Received(local, w)
  {
    hide Text;
  }

  lemma SimpleSetText(d: Device, request: Header, size: nat, w: seq<Byte>, buffer: Buffer)
    requires IsLabel(d, request.pid, size) && request.cc == CC_SET && request.subDevice == 0
    requires HoldsText(buffer, request, w)
    ensures var d' := d.(table := SetParameter(d.table, request.pid, Received(d.local, w)).0);
            Simple(d, d.definitions[request.pid], request, buffer) == (d', Acknowledge(d', request, None, None))
  {
    var format := d.definitions[request.pid].setRequest.value;
    TextIsRead(buffer, request, w, format, request.pdl);
    assert w[..|w|] == w;
    TextReadInto(d.local, w);
    hide ReadHeader, ReadPd, SetParameter, IsTextFormat, TableOk, IndexOf, Acknowledge, Text, ReadInto, Received,
         FitsLocal, Simple, HasCell;
    SimpleStores(d, d.definitions[request.pid], request, buffer, Received(d.local, w));
  }

  /** A SET of any data stores what the handler passes on and is acknowledged. */
  lemma TextIsStored(d: Device, request: Header, size: nat, w: seq<Byte>, buffer: Buffer)
    requires IsLabel(d, request.pid, size) && !IsBroadcast(d.uid) && HoldsText(buffer, request, w)
    requires request.cc == CC_SET && request.subDevice == 0 && request.destUid == d.uid
    ensures Respond(d, buffer).0 == d.(table := SetParameter(d.table, request.pid, Received(d.local, w)).0)
    ensures Respond(d, buffer).1 == Replies(BytesOf(Acknowledge(Respond(d, buffer).0, request, None, None)))
  {
    hide ReadHeader, SetParameter, IsTextFormat, TableOk, IndexOf, Respond, Simple, Written, Received;
    var d' := d.(table := SetParameter(d.table, request.pid, Received(d.local, w)).0);
    SimpleSetText(d, request, size, w, buffer);
    EmptyPacketWritten(ReplyHeader(d', request, RESPONSE_ACK, 0));
    HandlerAnswers(d, request, size, buffer, d', Acknowledge(d', request, None, None));
  }

  lemma TextSetResponse(d: Device, request: Header, size: nat, format: string, v: seq<Byte>, theirs: Buffer)
    requires IsLabel(d, request.pid, size) && IsTextFormat(format) && HeaderIsWritable(request) && !IsBroadcast(d.uid)
    requires request.cc == CC_SET && request.subDevice == 0 && request.destUid == d.uid && request.pdl == |v|
    ensures Respond(d, Filled(theirs, BytesOf(Written(request, Some(format), Some(v)))))
         == (d.(table := SetParameter(d.table, request.pid, Text(v)).0),
             Replies(BytesOf(Written(ReplyHeader(d, request, RESPONSE_ACK, 0), None, None))))
  {
    TextPacket(request, format, v, theirs);
    var request', buffer := Patched(request, Text(v)), Filled(theirs, BytesOf(Written(request, Some(format), Some(v))));
    TextIsItself(Text(v));
    TextReceived(d.local, Text(v));
    hide Written, ReadHeader, Respond, SetParameter, IsLabel, IsTextFormat, Filled, BytesOf, Text, HoldsText, Received;
    TextIsStored(d, request', size, Text(v), buffer);
    var d' := d.(table := SetParameter(d.table, request.pid, Text(v)).0);
    assert ReplyHeader(d', request', RESPONSE_ACK, 0) == ReplyHeader(d, request, RESPONSE_ACK, 0);
  }

  lemma TextSetExchange(d: Device, request: Header, size: nat, format: string, v: seq<Byte>,
                        theirs: Buffer, ours: Buffer)
    requires IsLabel(d, request.pid, size) && IsTextFormat(format) && HeaderIsWritable(request) && !IsBroadcast(d.uid)
    requires request.cc == CC_SET && request.subDevice == 0 && request.destUid == d.uid && request.pdl == |v|
    ensures Exchanged(d, Written(request, Some(format), Some(v)), theirs, ours).0
         == d.(table := SetParameter(d.table, request.pid, Text(v)).0)
    ensures ReadHeader(Exchanged(d, Written(request, Some(format), Some(v)), theirs, ours).1)
         == Some(ReplyHeader(d, request, RESPONSE_ACK, 0))
  {
    hide Written, ReadHeader, Respond, SetParameter, IsLabel, IsTextFormat, Filled, BytesOf, Text;
    TextSetResponse(d, request, size, format, v, theirs);
    EmptyPacket(ReplyHeader(d, request, RESPONSE_ACK, 0), ours);
  }

  lemma SimpleGetText(d: Device, request: Header, size: nat, buffer: Buffer)
    requires IsLabel(d, request.pid, size) && request.cc == CC_GET && request.subDevice == 0
    ensures Simple(d, d.definitions[request.pid], request, buffer)
         == (d, Acknowledge(d, request, d.definitions[request.pid].getResponse, Some(ValueOf(d, request.pid, size))))
  {
    hide IsTextFormat, TableOk, IndexOf, Written, ReadData, SetParameter;
  }

  /** A GET is answered with the text that is stored. */
  lemma TextGetResponse(d: Device, request: Header, size: nat, buffer: Buffer)
    requires IsLabel(d, request.pid, size) && !IsBroadcast(d.uid) && ReadHeader(buffer) == Some(request)
    requires request.cc == CC_GET && request.subDevice == 0 && request.destUid == d.uid && request.pdl == 0
    ensures Respond(d, buffer)
         == (d, Replies(BytesOf(Acknowledge(d, request, d.definitions[request.pid].getResponse,
                                            Some(ValueOf(d, request.pid, size))))))
  {
    var s, format := ValueOf(d, request.pid, size), d.definitions[request.pid].getResponse;
    SimpleGetText(d, request, size, buffer);
    hide ReadHeader, Respond, IsTextFormat, IndexOf, TableOk, Text, Simple, ValueOf, Framed, Message, Written;
    TextWritten(ReplyHeader(d, request, RESPONSE_ACK, size), format.value, s);
    HandlerAnswers(d, request, size, buffer, d, Acknowledge(d, request, format, Some(s)));
  }

  lemma PatchedReply(d: Device, request: Header, size: nat, w: seq<Byte>)
    requires size < PDL_MAX && |w| <= ASCII_MAX && CcIsRequest(request.cc)
    ensures Patched(ReplyHeader(d, request, RESPONSE_ACK, size), w) == ReplyHeader(d, request, RESPONSE_ACK, |w|)
  {
  }

  lemma TextGetExchange(d: Device, request: Header, size: nat, theirs: Buffer, ours: Buffer)
    requires IsLabel(d, request.pid, size) && HeaderIsWritable(request) && !IsBroadcast(d.uid)
    requires request.cc == CC_GET && request.subDevice == 0 && request.destUid == d.uid && request.pdl == 0
    ensures Exchanged(d, Written(request, None, None), theirs, ours).0 == d
    ensures var w := Text(ValueOf(d, request.pid, size));
            HoldsText(Exchanged(d, Written(request, None, None), theirs, ours).1,
                      ReplyHeader(d, request, RESPONSE_ACK, |w|), w)
  {
    var s, format := ValueOf(d, request.pid, size), d.definitions[request.pid].getResponse.value;
    var h := ReplyHeader(d, request, RESPONSE_ACK, size);
    TextPacket(h, format, s, ours);
    PatchedReply(d, request, size, Text(s));
    hide Written, ReadHeader, Respond, IsTextFormat, IsServed, Filled, BytesOf, Text, ValueOf, HoldsText, Patched;
    EmptyPacket(request, theirs);
    TextGetResponse(d, request, size, Filled(theirs, BytesOf(Written(request, None, None))));
  }

  /** The caller's destination once data w was read into it as text; a text as long as the destination overruns it. */
  function TextIn(dest: seq<Byte>, w: seq<Byte>, ackSupplied: bool): Outcome {
    if !ackSupplied || w == [] || dest == [] then Encoded(dest)
    else if |Text(w)| < |dest| then Encoded(Text(w) + [0] + dest[|Text(w)| + 1..])
    else Undefined
  }

  /** Cutting data off behind its text and the byte after it leaves the text. */
  lemma TextOfPrefix(w: seq<Byte>, n: nat)
    requires n <= |w|
    ensures |Text(w)| < n ==> Text(w[..n]) == Text(w)
    ensures |Text(w)| >= n ==> Text(w[..n]) == w[..n]
  {
    var m := StringLength(w, ASCII_MAX);
    if m < n {
      assert m < ASCII_MAX ==> w[..n][m] == 0;
    }
  }

  lemma TextStoredIn(dest: seq<Byte>, w: seq<Byte>)
    requires dest != [] && w != []
    ensures StoredIn(dest, Pd(|w|, Encoded(Text(w[..Clamp(|w|, |dest|)]) + [0]))) == TextIn(dest, w, true)
  {
    TextOfPrefix(w, Clamp(|w|, |dest|));
    hide Text;
  }

  /**
   * The controller is handed the text of the data, terminated, if it supplied
   * an ack and there is any; and exactly if the destination holds no more than
   * the text, the terminator lands behind the destination.
   */
  lemma TextIsHandedOut(buffer: Buffer, h: Header, w: seq<Byte>, format: string, dest: seq<Byte>, ackSupplied: bool)
    requires HoldsText(buffer, h, w) && IsTextFormat(format) && h.portId == RESPONSE_ACK
    ensures Returned(buffer) == if w == [] then 1 else |w|
    ensures Delivered(buffer, Some(format), dest, ackSupplied) == TextIn(dest, w, ackSupplied)
  {
    TextIsRead(buffer, h, w, format, |dest|);
    hide ReadHeader, ReadPd, IsTextFormat, Text;
    if dest != [] && w != [] {
      hide StoredIn, TextIn;
      TextStoredIn(dest, w);
    }
  }

  /**
   * A SET of a text parameter followed by a GET, for any bytes v: what comes
   * back is the text of v laid over the bytes that were stored before.
   */
  lemma TextSetThenGet(d: Device, src: Uid, tn: Byte, tn': Byte, port: Byte, pid: Word16, size: nat, format: string,
                       v: seq<Byte>, theirs: Buffer, theirs': Buffer, ours: Buffer, ours': Buffer)
    requires IsLabel(d, pid, size) && IsTextFormat(format) && |v| < PDL_MAX && !IsBroadcast(d.uid) && port > 0
    ensures var setting := RequestHeader(src, d.uid, tn, port, CC_SET, pid, |v|);
            var getting := RequestHeader(src, d.uid, tn', port, CC_GET, pid, 0);
            var (d', ack) := Exchanged(d, Written(setting, Some(format), Some(v)), theirs, ours);
            var (d'', answer) := Exchanged(d', Written(getting, None, None), theirs', ours');
            var w := Text(Renewed(ValueOf(d, pid, size), Text(v)));
            && d'' == d' == d.(table := SetParameter(d.table, pid, Text(v)).0)
            && ReadHeader(ack) == Some(ReplyHeader(d, setting, RESPONSE_ACK, 0))
            && HoldsText(answer, ReplyHeader(d, getting, RESPONSE_ACK, |w|), w)
  {
    var d' := d.(table := SetParameter(d.table, pid, Text(v)).0);
    LabelSet(d, pid, size, Text(v));
    hide Written, ReadHeader, Exchanged, SetParameter, IsTextFormat, IsServed, Text, ValueOf, Renewed, HoldsText;
    TextSetExchange(d, RequestHeader(src, d.uid, tn, port, CC_SET, pid, |v|), size, format, v, theirs, ours);
    TextGetExchange(d', RequestHeader(src, d.uid, tn', port, CC_GET, pid, 0), size, theirs', ours');
  }

  // ----- When the text that was set comes back -----

  /**
   * The text that comes back is the bytes that were set exactly if they are a
   * string of at most 32 bytes that fits the parameter and the byte stored
   * behind it, if one is looked at, happens to be a null.
   */
  lemma TextComesBackExactly(stored: seq<Byte>, v: seq<Byte>)
    ensures Text(Renewed(stored, Text(v))) == v <==>
              && |v| <= ASCII_MAX && 0 !in v && |v| <= |stored|
              && (|v| == ASCII_MAX || |v| == |stored| || stored[|v|] == 0)
  {
    TextIsItself(v);
    var r := Renewed(stored, Text(v));
    var n := StringLength(r, ASCII_MAX);
    if |v| <= ASCII_MAX && 0 !in v && |v| <= |stored| {
      assert Text(v) == v && r == v + stored[|v|..];
      if |v| < |stored| {
        assert r[|v|] == stored[|v|];
      }
    }
  }

  /** Setting an empty text stores nothing. */
  lemma EmptyTextStoresNothing(t: Table, pid: Word16, v: seq<Byte>)
    requires v == [] || v[0] == 0
    ensures SetParameter(t, pid, Text(v)).0 == t
  {
  }

  // ----- Text that is not all text -----

  lemma TextFits(format: string, w: seq<Byte>)
    requires IsTextFormat(format) && |w| <= PDL_MAX
    ensures FitsData(Tokens(format), |w|) && !Overruns(Tokens(format), w)
    ensures WrittenLength(Tokens(format), w) == if w == [] then 0 else |Text(w)| + 1
  {
    assert w[0..] == w;
  }

  lemma LabelIsSound(d: Device, pid: Word16, size: nat)
    requires IsLabel(d, pid, size)
    ensures IsSound(d, pid)
  {
    var some: seq<Byte> := seq(size, _ => 0);
    TextFits(d.definitions[pid].getResponse.value, some);
    hide IndexOf, TableOk, FitsData, Tokens, CheckFrom;
  }

  /**
   * For any data received for a text parameter, what is stored does not depend
   * on what the handler's read buffer held before exactly if no more is stored
   * than the text and its terminator.
   */
  lemma TextLeftoversExactly(d: Device, request: Header, size: nat, w: seq<Byte>, buffer: Buffer)
    requires IsLabel(d, request.pid, size) && HoldsText(buffer, request, w) && IsTarget(d.uid, request.destUid)
    requires request.cc == CC_SET && request.subDevice == 0
    ensures (forall local: Local :: Respond(d.(local := local), buffer).0.table == Respond(d, buffer).0.table) <==>
              Clamp(|w|, size) <= |Text(w)| + 1
  {
    TextFits(d.definitions[request.pid].setRequest.value, w);
    LabelIsSound(d, request.pid, size);
    hide ReadHeader, IsTextFormat, TableOk, IndexOf, IsSound, Respond, Text, Tokens, FitsData, Overruns, WrittenLength,
         IsMuted, HasCell;
    assert IsReadSet(d, request, buffer);
    hide IsReadSet, DataMisfits;
    LeftoversStoredExactly(d, request, buffer);
  }

  /** "A", a null and "B" set in a label: the third byte stored was never received. */
  lemma LeftoverIsStored(d: Device, request: Header, size: nat, buffer: Buffer)
    requires IsLabel(d, request.pid, size) && size >= 3 && !IsBroadcast(d.uid)
    requires HoldsText(buffer, request, [0x41, 0, 0x42])
    requires request.cc == CC_SET && request.subDevice == 0 && request.destUid == d.uid
    ensures IsServed(Respond(d, buffer).0, request.pid, size) && Respond(d, buffer).1.Replies?
    ensures ValueOf(Respond(d, buffer).0, request.pid, size)[..3] == [0x41, 0, d.local[2]]
  {
    var w: seq<Byte> := [0x41, 0, 0x42];
    TextIsStored(d, request, size, w, buffer);
    assert w[0] == 0x41 && w[1] == 0;
    assert Text(w) == w[..1];
    assert Received(d.local, w) == [0x41, 0, d.local[2]];
    hide ReadHeader, HoldsText, IsTextFormat, TableOk, IndexOf, Respond, Text, SetParameter, Received;
    LabelSet(d, request.pid, size, Received(d.local, w));
  }

  /** "Z" set over "ABC" reads "ZBC". */
  lemma OldTailComesBack()
    ensures var stored: seq<Byte> := [0x41, 0x42, 0x43] + seq(30, _ => 0);
            Text(Renewed(stored, Text([0x5a]))) == [0x5a, 0x42, 0x43]
  {
    var stored: seq<Byte> := [0x41, 0x42, 0x43] + seq(30, _ => 0);
    var set1: seq<Byte> := [0x5a];
    TextIsItself(set1);
    var r := Renewed(stored, set1);
    assert r[0] == 0x5a && r[1] == 0x42 && r[2] == 0x43 && r[3] == 0;
    var n := StringLength(r, ASCII_MAX);
    assert n == 3;
  }
}
