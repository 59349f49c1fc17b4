/**
 * Exactly which requests make a responder do something the C code does not
 * define: parameter data that does not fit its format is read past its end.
 */
module Definedness {
  import opened Options
  import opened Uids
  import opened Bytes
  import opened Formats
  import opened Packets
  import opened Parameters
  import opened Responder

  // ----- What registration sees to -----

  /** The command classes a definition lets through to its handlers. */
  predicate Accepts(def: Definition, cc: Byte) {
    match def.pidCc
    case DiscOnly => cc == CC_DISC
    case GetOnly => cc == CC_GET
    case SetOnly => cc == CC_SET
    case GetSet => cc != CC_DISC
  }

  /** A GET of the parameter can be written: it has no data, or data of a size its format takes. */
  predicate IsReadable(def: Definition, e: Entry, memory: seq<seq<Byte>>) {
    || (e.cell.None? && e.size == 0)
    || (HasCell(e, memory) && e.size < PDL_MAX && def.getResponse.Some?
        && FitsData(Tokens(def.getResponse.value), e.size))
  }

  predicate IsValid(format: Option<string>) {
    format.Some? ==> CheckFrom(format.value, 0) == Valid
  }

  /**
   * What `rdm_definition_set` asserts of formats and handlers, and more: the
   * handlers are the simple one or, for discovery parameters, the discovery
   * one, there is memory to store into, and what is stored can be sent.
   */
  predicate IsSound(d: Device, pid: Word16)
    requires pid in d.definitions
  {
    var def, i := d.definitions[pid], IndexOf(d.table.entries, pid);
    && i < |d.table.entries| && IsValid(def.getResponse) && IsValid(def.setRequest)
    && (def.pidCc != SetOnly ==> def.getHandler != NoHandler)
    && (def.pidCc == SetOnly || def.pidCc == GetSet ==> def.setHandler != NoHandler)
    && (def.getHandler == DiscoveryHandler || def.setHandler == DiscoveryHandler || def.pidCc == DiscOnly ==>
          || (pid == PID_DISC_UNIQUE_BRANCH && def == BRANCH_DEFINITION)
          || (pid in {PID_DISC_MUTE, PID_DISC_UN_MUTE} && def == MUTE_DEFINITION))
    && (def.getHandler == SimpleHandler && def.pidCc != SetOnly ==> IsReadable(def, d.table.entries[i], d.table.memory))
    && (def.pidCc == SetOnly || def.pidCc == GetSet ==> HasCell(d.table.entries[i], d.table.memory))
  }

  ghost predicate WellDefined(d: Device) {
    forall pid :: pid in d.definitions ==> IsSound(d, pid)
  }

  // ----- Reading and writing -----

  lemma RequestPdl(buffer: Buffer, request: Header)
    requires ReadHeader(buffer) == Some(request) && CcIsRequest(request.cc)
    ensures buffer[23] == request.pdl
  {
  }

  lemma ReadPdUndefined(buffer: Buffer, format: string, size: nat)
    requires CheckFrom(format, 0) == Valid
    ensures ReadPd(buffer, format, size).Pd? <==> 0 < buffer[23] <= PDL_MAX
    ensures ReadPd(buffer, format, size).Pd? && ReadPd(buffer, format, size).memory.Undefined? <==>
              0 < buffer[23] <= PDL_MAX && !FitsData(Tokens(format), if buffer[23] < size then buffer[23] else size)
  {
    hide CheckFrom, FitsData, Encode, Tokens;
    var n := if buffer[23] < size then buffer[23] else size;
    if 0 < buffer[23] <= PDL_MAX {
      EncodeDefined(Tokens(format), buffer[24..24 + n], true);
    }
  }

  lemma AcknowledgeDefined(d: Device, request: Header, format: Option<string>, pd: Option<seq<Byte>>)
    requires CcIsRequest(request.cc) && IsValid(format) && (pd.Some? ==> |pd.value| < PDL_MAX)
    requires pd.Some? && pd.value != [] && format.Some? ==> FitsData(Tokens(format.value), |pd.value|)
    ensures !Acknowledge(d, request, format, pd).WriteUndefined?
  {
    hide CheckFrom, FitsData, Encode, Tokens, Framed, Message;
    if pd.Some? && pd.value != [] && format.Some? {
      assert pd.value[..|pd.value|] == pd.value;
      EncodeDefined(Tokens(format.value), pd.value, false);
    }
  }

  // ----- Formats -----

  lemma BranchFormat()
    ensures Tokens("uu$") == [TUid, TUid, TStop] && CheckFrom("uu$", 0) == Valid && PlainFor("uu$", 12)
    ensures forall n: nat :: FitsData(Tokens("uu$"), n) <==> n == 0 || n >= 12
  {
    TokensCons("$", "", "$");
    EmptyFormat();
    TokensCons("u", "$", "u$");
    TokensCons("u", "u$", "uu$");
    var ts := [TUid, TUid, TStop];
    assert Tokens("uu$") == ts;
    assert ts[1..] == [TUid, TStop] && ts[1..][1..] == [TStop];
    assert Plain(ts) && Terminated(ts) && FixedSize(ts) == 12 && Known(ts);
    assert "uu$"[1..] == "u$" && "u$"[1..] == "$";
    assert CheckFrom("$", 12) == Valid && CheckFrom("u$", 6) == Valid;
  }

  lemma MuteFormat()
    ensures CheckFrom("wv", 0) == Valid && Tokens("wv") == [TWord, TOptionalUid]
    ensures FitsData(Tokens("wv"), 8)
  {
    TokensCons("v", "", "v");
    EmptyFormat();
    TokensCons("w", "v", "wv");
    assert "wv"[1..] == "v";
    assert CheckFrom("v", 2) == Valid;
    var ts := [TWord, TOptionalUid];
    assert ts[1..] == [TOptionalUid];
    assert Terminated(ts) && Known(ts) && FixedSize(ts) == 2;
  }

  /** Twelve bytes are filled in whenever the interpreter is defined. */
  lemma BranchFilled(data: seq<Byte>)
    requires data != [] && Encode(Tokens("uu$"), [], data, true).Encoded?
    ensures |Encode(Tokens("uu$"), [], data, true).out| == 12
  {
    BranchFormat();
    var ts := Tokens("uu$");
    PassStarts(ts, data, true);
    hide Tokens, CheckFrom;
    PlainLength(ts, ts, data, true);
  }

  // ----- Exactly when -----

  /** The parameter data of a request, as received. */
  function DataOf(buffer: Buffer, request: Header): seq<Byte> {
    buffer[24..24 + request.pdl as int]
  }

  /**
   * The request carries data that its definition's format cannot take, or
   * that, read, is longer than the handler's read buffer.
   */
  predicate DataMisfits(d: Device, request: Header, buffer: Buffer)
    requires request.pid in d.definitions
  {
    var def := d.definitions[request.pid];
    match HandlerFor(def, request)
    case SimpleHandler =>
      request.cc != CC_GET && request.pdl > 0
      && !(def.setRequest.Some? && FitsData(Tokens(def.setRequest.value), request.pdl)
           && !Overruns(Tokens(def.setRequest.value), DataOf(buffer, request)))
    case DiscoveryHandler => request.pid == PID_DISC_UNIQUE_BRANCH && !IsMuted(d) && 0 < request.pdl < 12
    case NoHandler => false
  }

  /** Read data is too much for the handler's read buffer exactly if it does not fit its format or overruns. */
  lemma LocalMisfits(buffer: Buffer, request: Header, format: string)
    requires CheckFrom(format, 0) == Valid && request.pdl <= PDL_MAX && buffer[23] == request.pdl
    ensures FitsLocal(ReadPd(buffer, format, request.pdl)) <==>
              request.pdl == 0
              || (FitsData(Tokens(format), request.pdl) && !Overruns(Tokens(format), DataOf(buffer, request)))
    ensures ReadPd(buffer, format, request.pdl).Pd? <==> request.pdl > 0
  {
    hide CheckFrom, FitsData, Encode, Tokens, Overruns;
    ReadPdUndefined(buffer, format, request.pdl);
    if request.pdl > 0 && FitsData(Tokens(format), request.pdl) {
      OverrunsExactly(format, DataOf(buffer, request));
    }
  }

  lemma SimpleUndefined(d: Device, request: Header, buffer: Buffer)
    requires request.pid in d.definitions && IsSound(d, request.pid) && CcIsRequest(request.cc)
    requires request.subDevice == 0 && request.pdl < PD_SIZE_MAX && buffer[23] == request.pdl
    requires var def := d.definitions[request.pid];
             HandlerFor(def, request) == SimpleHandler && Accepts(def, request.cc)
    ensures Simple(d, d.definitions[request.pid], request, buffer).1.WriteUndefined? <==>
              DataMisfits(d, request, buffer)
  {
    var def, i := d.definitions[request.pid], IndexOf(d.table.entries, request.pid);
    var d' := Simple(d, def, request, buffer).0;
    hide CheckFrom, FitsData, ReadPd, Acknowledge, IndexOf, SetParameter, Tokens, Overruns, ReadInto, FitsLocal;
    AcknowledgeDefined(d', request, None, None);
    if def.setRequest.Some? {
      LocalMisfits(buffer, request, def.setRequest.value);
    }
    AcknowledgeDefined(d', request, def.getResponse, None);
    if request.cc == CC_GET && HasCell(d.table.entries[i], d.table.memory) && d.table.entries[i].size < PDL_MAX
       && def.getResponse.Some? && FitsData(Tokens(def.getResponse.value), d.table.entries[i].size) {
      AcknowledgeDefined(d, request, def.getResponse, Some(ValueAt(d.table, i)));
    }
  }

  lemma BranchUndefined(d: Device, request: Header, buffer: Buffer)
    requires CcIsRequest(request.cc) && request.pdl < PD_SIZE_MAX && buffer[23] == request.pdl
    ensures Branch(d, BRANCH_DEFINITION, request, buffer).WriteUndefined? <==> 0 < request.pdl < 12
  {
    BranchFormat();
    var n := if buffer[23] < 12 then buffer[23] else 12;
    hide CheckFrom, FitsData, Encode, Acknowledge, Tokens, PlainFor;
    ReadPdUndefined(buffer, "uu$", 12);
    if n > 0 && Encode(Tokens("uu$"), [], buffer[24..24 + n], true).Encoded? {
      BranchFilled(buffer[24..24 + n]);
    }
    AcknowledgeDefined(d, request, None, None);
  }

  lemma DiscoveryUndefined(d: Device, request: Header, buffer: Buffer)
    requires request.pid in d.definitions && IsSound(d, request.pid) && CcIsRequest(request.cc)
    requires request.subDevice == 0 && request.pdl < PD_SIZE_MAX && buffer[23] == request.pdl
    requires HandlerFor(d.definitions[request.pid], request) == DiscoveryHandler
    ensures Discovery(d, d.definitions[request.pid], request, buffer).1.WriteUndefined? <==>
              DataMisfits(d, request, buffer)
  {
    var def := d.definitions[request.pid];
    var d' := Discovery(d, def, request, buffer).0;
    hide CheckFrom, FitsData, Branch, Acknowledge, IndexOf, SetParameter, Tokens, IsMuted, MuteData;
    BranchUndefined(d, request, buffer);
    MuteFormat();
    AcknowledgeDefined(d', request, Some("wv"), Some(MuteData(d')));
  }

  /**
   * What a device with sound definitions does about a request is defined,
   * except exactly if the request is for it, gets past the checks of dispatch
   * and carries data that does not fit its format.
   */
  lemma UnpredictableExactly(d: Device, request: Header, buffer: Buffer)
    requires WellDefined(d) && ReadHeader(buffer) == Some(request)
    ensures Respond(d, buffer).1 == Unpredictable <==>
              && CcIsValid(request.cc) && CcIsRequest(request.cc) && IsTarget(d.uid, request.destUid)
              && request.subDevice == 0 && request.pdl < PD_SIZE_MAX
              && request.pid in d.definitions && Accepts(d.definitions[request.pid], request.cc)
              && DataMisfits(d, request, buffer)
  {
    if CcIsRequest(request.cc) {
      RequestPdl(buffer, request);
      hide ReadHeader, Refuse, Simple, Discovery, DataMisfits, IsSound;
      DispatchUndefined(d, request, buffer);
      hide Dispatch;
    }
  }

  lemma DispatchUndefined(d: Device, request: Header, buffer: Buffer)
    requires WellDefined(d) && CcIsRequest(request.cc) && buffer[23] == request.pdl
    ensures Dispatch(d, request, buffer).1.WriteUndefined? <==>
              && request.subDevice == 0 && request.pdl < PD_SIZE_MAX
              && request.pid in d.definitions && Accepts(d.definitions[request.pid], request.cc)
              && DataMisfits(d, request, buffer)
  {
    hide Refuse, Simple, Discovery;
    RefuseDefined(d, request, NR_UNKNOWN_PID);
    RefuseDefined(d, request, NR_FORMAT_ERROR);
    RefuseDefined(d, request, NR_UNSUPPORTED_COMMAND_CLASS);
    if request.subDevice == 0 && request.pdl < PD_SIZE_MAX
       && request.pid in d.definitions && Accepts(d.definitions[request.pid], request.cc) {
      var def := d.definitions[request.pid];
      assert IsSound(d, request.pid);
      RefuseDefined(Handle(d, def, request, buffer).0, request, NR_HARDWARE_FAULT);
      match HandlerFor(def, request)
      case SimpleHandler => SimpleUndefined(d, request, buffer);
      case DiscoveryHandler => DiscoveryUndefined(d, request, buffer);
      case NoHandler =>
    }
  }

  lemma RefuseDefined(d: Device, request: Header, reason: Word16)
    requires CcIsRequest(request.cc)
    ensures !Refuse(d, request, reason).WriteUndefined?
  {
    WordFormat();
    PlainForRoundTrip("w", Le16(reason));
    assert Le16(reason)[..2] == Le16(reason);
    hide Encode, Tokens;
  }

  // ----- What a SET stores -----

  /** A SET that dispatch hands to the simple handler and that the handler can read. */
  ghost predicate IsReadSet(d: Device, request: Header, buffer: Buffer) {
    && ReadHeader(buffer) == Some(request) && IsTarget(d.uid, request.destUid)
    && request.cc == CC_SET && request.subDevice == 0 && request.pdl < PD_SIZE_MAX
    && request.pid in d.definitions && IsSound(d, request.pid) && Accepts(d.definitions[request.pid], CC_SET)
    && d.definitions[request.pid].setHandler == SimpleHandler && d.definitions[request.pid].setRequest.Some?
    && !DataMisfits(d, request, buffer)
  }

  /** Of the data of a request, the bytes that reading it fills in. */
  function FilledIn(d: Device, request: Header, buffer: Buffer): nat
    requires request.pid in d.definitions && d.definitions[request.pid].setRequest.Some?
  {
    WrittenLength(Tokens(d.definitions[request.pid].setRequest.value), DataOf(buffer, request))
  }

  /** What reading the data of the request fills in. */
  function ReadOut(d: Device, request: Header, buffer: Buffer): seq<Byte>
    requires request.pid in d.definitions && d.definitions[request.pid].setRequest.Some?
  {
    match Encode(Tokens(d.definitions[request.pid].setRequest.value), [], DataOf(buffer, request), true)
    case Encoded(out) => out
    case Undefined => []
  }

  /** The bytes the handler passes on: those filled in, then what the read buffer held. */
  function PassedOn(out: seq<Byte>, local: Local, pdl: Byte): (s: seq<Byte>)
    requires |out| <= LOCAL_SIZE && pdl <= PDL_MAX
    ensures |s| == pdl as int
  {
    (out + local[|out|..])[..pdl]
  }

  lemma ReadSetFills(d: Device, request: Header, buffer: Buffer)
    requires IsReadSet(d, request, buffer)
    ensures ReadData(buffer, d.definitions[request.pid].setRequest, request.pdl)
         == if request.pdl == 0 then NoData else Pd(request.pdl, Encoded(ReadOut(d, request, buffer)))
    ensures |ReadOut(d, request, buffer)| == FilledIn(d, request, buffer) <= LOCAL_SIZE
    ensures var i := IndexOf(d.table.entries, request.pid);
            i < |d.table.entries| && HasCell(d.table.entries[i], d.table.memory)
  {
    var format := d.definitions[request.pid].setRequest.value;
    RequestPdl(buffer, request);
    hide ReadHeader, CheckFrom, Tokens, Encode, FitsData, Overruns, IndexOf, WrittenLength, HasCell, IsReadable;
    LocalMisfits(buffer, request, format);
    PassStarts(Tokens(format), DataOf(buffer, request), true);
    EncodedLength(Tokens(format), DataOf(buffer, request));
  }

  lemma ReadSetStores(d: Device, request: Header, buffer: Buffer, local: Local)
    requires IsReadSet(d, request, buffer)
    ensures |ReadOut(d, request, buffer)| == FilledIn(d, request, buffer) <= LOCAL_SIZE
    ensures Respond(d.(local := local), buffer).0.table
         == SetParameter(d.table, request.pid, PassedOn(ReadOut(d, request, buffer), local, request.pdl)).0
  {
    ReadSetFills(d, request, buffer);
    hide ReadHeader, ReadData, ReadOut, FilledIn, IndexOf, SetParameter, Respond, IsSound, DataMisfits, HasCell;
    SetTable(d.(local := local), request, buffer, PassedOn(ReadOut(d, request, buffer), local, request.pdl));
  }

  /** The simple handler stores what it read, and acknowledges. */
  lemma SimpleStores(d: Device, def: Definition, request: Header, buffer: Buffer, stored: seq<Byte>)
    requires request.cc == CC_SET && request.subDevice == 0
    requires var data := ReadData(buffer, def.setRequest, request.pdl);
             FitsLocal(data) && stored == ReadInto(d.local, data)
    requires var i := IndexOf(d.table.entries, request.pid);
             i < |d.table.entries| && HasCell(d.table.entries[i], d.table.memory)
    ensures var d' := d.(table := SetParameter(d.table, request.pid, stored).0);
            Simple(d, def, request, buffer) == (d', Acknowledge(d', request, None, None))
  {
    hide ReadData, FitsLocal, ReadInto, IndexOf, Refuse, Acknowledge, SetParameter, HasCell;
  }

  /** What the device's table is after the simple handler set a parameter. */
  lemma SetTable(d: Device, request: Header, buffer: Buffer, stored: seq<Byte>)
    requires ReadHeader(buffer) == Some(request) && IsTarget(d.uid, request.destUid)
    requires request.cc == CC_SET && request.subDevice == 0 && request.pdl < PD_SIZE_MAX
    requires request.pid in d.definitions && Accepts(d.definitions[request.pid], CC_SET)
    requires var def := d.definitions[request.pid];
             var data := ReadData(buffer, def.setRequest, request.pdl);
             def.setHandler == SimpleHandler && FitsLocal(data) && stored == ReadInto(d.local, data)
    requires var i := IndexOf(d.table.entries, request.pid);
             i < |d.table.entries| && HasCell(d.table.entries[i], d.table.memory)
    ensures Respond(d, buffer).0.table == SetParameter(d.table, request.pid, stored).0
  {
    SimpleStores(d, d.definitions[request.pid], request, buffer, stored);
    hide ReadHeader, ReadData, FitsLocal, ReadInto, IndexOf, Refuse, Acknowledge, SetParameter, Simple;
    assert Dispatch(d, request, buffer).0.table == SetParameter(d.table, request.pid, stored).0;
    hide Dispatch;
  }

  /** Only the bytes that fit the parameter matter, and all of them do. */
  lemma SetEqual(t: Table, pid: Word16, a: seq<Byte>, b: seq<Byte>)
    requires |a| == |b| > 0 && IndexOf(t.entries, pid) < |t.entries|
    requires HasCell(t.entries[IndexOf(t.entries, pid)], t.memory)
    ensures SetParameter(t, pid, a).0 == SetParameter(t, pid, b).0 <==>
              forall k :: 0 <= k < Clamp(|a|, t.entries[IndexOf(t.entries, pid)].size) ==> a[k] == b[k]
  {
    hide IndexOf;
    var i := IndexOf(t.entries, pid);
    var n, c := Clamp(|a|, t.entries[i].size), t.entries[i].cell.value;
    if forall k :: 0 <= k < n ==> a[k] == b[k] {
      assert a[..n] == b[..n];
    } else {
      var k :| 0 <= k < n && a[k] != b[k];
      assert SetParameter(t, pid, a).0.memory[c][k] == a[k];
      assert SetParameter(t, pid, b).0.memory[c][k] == b[k];
    }
  }

  /**
   * What a SET stores does not depend on what the handler's read buffer held
   * before exactly if reading the data filled in as many bytes as are stored.
   */
  lemma LeftoversStoredExactly(d: Device, request: Header, buffer: Buffer)
    requires IsReadSet(d, request, buffer)
    ensures var size := d.table.entries[IndexOf(d.table.entries, request.pid)].size;
            (forall local: Local :: Respond(d.(local := local), buffer).0.table == Respond(d, buffer).0.table) <==>
              Clamp(request.pdl, size) <= FilledIn(d, request, buffer)
  {
    var n, pid := request.pdl, request.pid;
    ReadSetFills(d, request, buffer);
    hide IsReadSet, Respond, SetParameter, IndexOf, ReadOut, FilledIn;
    var size, out := d.table.entries[IndexOf(d.table.entries, pid)].size, ReadOut(d, request, buffer);
    forall local: Local
      ensures Respond(d.(local := local), buffer).0.table == Respond(d, buffer).0.table <==>
                forall k :: 0 <= k < Clamp(n, size) ==> PassedOn(out, local, n)[k] == PassedOn(out, d.local, n)[k]
    {
      ReadSetStores(d, request, buffer, d.local);
      ReadSetStores(d, request, buffer, local);
      assert d.(local := d.local) == d;
      if n > 0 {
        SetEqual(d.table, pid, PassedOn(out, local, n), PassedOn(out, d.local, n));
      }
    }
    if Clamp(n, size) > |out| {
      var other: Local := d.local[|out| := if d.local[|out|] == 0 then 1 else 0];
      assert PassedOn(out, other, n)[|out|] != PassedOn(out, d.local, n)[|out|];
    }
  }
}
