/**
 * The responder: `rdm_send_response` and the handlers it calls for parameters
 * of the root device. A device has no sub-devices and one port.
 */
module Responder {
  import opened Options
  import opened Uids
  import opened Bytes
  import opened Formats
  import opened Packets
  import opened Parameters

  const PID_DISC_MUTE: Word16 := 2
  const PID_DISC_UN_MUTE: Word16 := 3

  const NR_UNKNOWN_PID: Word16 := 0
  const NR_FORMAT_ERROR: Word16 := 1
  const NR_HARDWARE_FAULT: Word16 := 2
  const NR_UNSUPPORTED_COMMAND_CLASS: Word16 := 5
  const NR_SUB_DEVICE_OUT_OF_RANGE: Word16 := 9

  const PD_SIZE_MAX := 232

  const LOCAL_SIZE := 231

  /** What the read buffer of a handler happens to hold before it is read into. */
  type Local = s: seq<Byte> | |s| == LOCAL_SIZE witness seq(LOCAL_SIZE, _ => 0)

  datatype PidCc = DiscOnly | GetOnly | SetOnly | GetSet
  datatype Handler = NoHandler | SimpleHandler | DiscoveryHandler

  /** How a parameter may be asked for, who answers, and the formats of its data. */
  datatype Definition = Definition(
    pidCc: PidCc, getHandler: Handler, setHandler: Handler,
    getRequest: Option<string>, getResponse: Option<string>, setRequest: Option<string>)

  const BRANCH_DEFINITION := Definition(DiscOnly, DiscoveryHandler, NoHandler, Some("uu$"), None, None)
  const MUTE_DEFINITION := Definition(DiscOnly, DiscoveryHandler, NoHandler, None, Some("wv"), None)

  /** `control` and `bindingUid` are what is reported to a mute. */
  datatype Device = Device(
    uid: Uid, table: Table, definitions: map<Word16, Definition>, queued: Byte, bootLoader: bool,
    control: Word16, bindingUid: Uid, local: Local)

  function MuteData(d: Device): (s: seq<Byte>)
    ensures |s| == 8
  {
    Le16(d.control) + UidMemory(d.bindingUid)
  }

  // ----- Replies -----

  /** The header of a reply: the request's, turned around. */
  function ReplyHeader(d: Device, request: Header, responseType: Byte, pdl: nat): Header
    requires pdl < PDL_MAX && CcIsRequest(request.cc)
  {
    Header(HEADER_SIZE + pdl, request.srcUid, d.uid, request.tn, responseType, d.queued,
           request.subDevice, request.cc + 1, request.pid, pdl)
  }

  /** `rdm_write_ack`. */
  function Acknowledge(d: Device, request: Header, format: Option<string>, pd: Option<seq<Byte>>): WriteResult
    requires CcIsRequest(request.cc) && (pd.Some? ==> |pd.value| < PDL_MAX)
  {
    Written(ReplyHeader(d, request, RESPONSE_ACK, if pd.Some? then |pd.value| else 0), format, pd)
  }

  /** `rdm_write_nack_reason`. */
  function Refuse(d: Device, request: Header, reason: Word16): WriteResult
    requires CcIsRequest(request.cc)
  {
    Written(ReplyHeader(d, request, RESPONSE_NACK, 2), Some("w"), Some(Le16(reason)))
  }

  // ----- Handlers -----

  /** What was read can be stored in the handler's read buffer. */
  predicate FitsLocal(r: PdResult) {
    r.Pd? ==> r.memory.Encoded? && |r.memory.out| <= LOCAL_SIZE
  }

  /**
   * The read buffer after `rdm_read_pd`, up to the length it returned, which
   * may be more than was stored.
   */
  function ReadInto(local: Local, r: PdResult): seq<Byte>
    requires FitsLocal(r)
  {
    match r
    case NoData => []
    case Pd(pdl, Encoded(out)) => (out + local[|out|..])[..Clamp(pdl, LOCAL_SIZE)]
  }

  /**
   * `rdm_simple_response_handler`, on the root device. Parameters without
   * memory, values without a format and values too large for a reply run into
   * assertions.
   */
  function Simple(d: Device, def: Definition, request: Header, buffer: Buffer): (Device, WriteResult)
    requires CcIsRequest(request.cc)
  {
    var i := IndexOf(d.table.entries, request.pid);
    if request.subDevice != 0 || i == |d.table.entries| then
      (d, Refuse(d, request, NR_SUB_DEVICE_OUT_OF_RANGE))
    else
      var e := d.table.entries[i];
      if request.cc == CC_GET then
        if e.cell.None? && e.size == 0 then (d, Acknowledge(d, request, def.getResponse, None))
        else if !HasCell(e, d.table.memory) || e.size >= PDL_MAX || def.getResponse.None? then (d, WriteUndefined)
        else (d, Acknowledge(d, request, def.getResponse, Some(ValueAt(d.table, i))))
      else
        var data := ReadData(buffer, def.setRequest, request.pdl);
        if data.Pd? && (!FitsLocal(data) || !HasCell(e, d.table.memory)) then (d, WriteUndefined)
        else
          var d' := d.(table := SetParameter(d.table, request.pid, ReadInto(d.local, data)).0);
          (d', Acknowledge(d', request, None, None))
  }

  /** Whether the device takes itself for muted; without the parameter it does. */
  predicate IsMuted(d: Device) {
    var copy := CopyParameter(d.table, PID_DISC_MUTE, 1);
    copy == [] || copy[0] != 0
  }

  /** The answer to a branch request: both bounds are taken from memory, even if not all of it was filled in. */
  function Branch(d: Device, def: Definition, request: Header, buffer: Buffer): WriteResult
    requires CcIsRequest(request.cc)
  {
    match ReadData(buffer, def.getRequest, 12)
    case NoData => Refused
    case Pd(_, Undefined) => WriteUndefined
    case Pd(_, Encoded(out)) =>
      if |out| != 12 then WriteUndefined
      else if IsLt(d.uid, UidFromMemory(out[..6])) || IsGt(d.uid, UidFromMemory(out[6..])) then Refused
      else Acknowledge(d, request, None, None)
  }

  /** `rdm_rhd_discovery`. */
  function Discovery(d: Device, def: Definition, request: Header, buffer: Buffer): (Device, WriteResult)
    requires CcIsRequest(request.cc)
  {
    if request.subDevice != 0 then (d, Refused)
    else if request.pid == PID_DISC_UNIQUE_BRANCH then
      (d, if IsMuted(d) then Refused else Branch(d, def, request, buffer))
    else
      var mute: Byte := if request.pid == PID_DISC_MUTE then 1 else 0;
      var d' := d.(table := SetParameter(d.table, request.pid, [mute]).0);
      (d', if def.getResponse.None? then WriteUndefined
           else Acknowledge(d', request, def.getResponse, Some(MuteData(d'))))
  }

  // ----- Dispatch -----

  /** A reply, none, or whatever the C code makes of a step without defined behaviour. */
  datatype Reply = Silent | Replies(bytes: seq<Byte>) | Unpredictable

  function SizeOf(w: WriteResult): nat {
    if w.Wrote? then |w.bytes| else 0
  }

  /** Everything but a SET goes to the GET handler. */
  function HandlerFor(def: Definition, request: Header): Handler {
    if request.cc == CC_SET then def.setHandler else def.getHandler
  }

  function Handle(d: Device, def: Definition, request: Header, buffer: Buffer): (Device, WriteResult)
    requires CcIsRequest(request.cc)
  {
    match HandlerFor(def, request)
    case NoHandler => (d, WriteUndefined)
    case SimpleHandler => Simple(d, def, request, buffer)
    case DiscoveryHandler => Discovery(d, def, request, buffer)
  }

  /** The reply to a request that is for this device. */
  function Dispatch(d: Device, request: Header, buffer: Buffer): (Device, WriteResult)
    requires CcIsRequest(request.cc)
  {
    if request.subDevice != 0 || request.pid !in d.definitions then (d, Refuse(d, request, NR_UNKNOWN_PID))
    else if request.pdl >= PD_SIZE_MAX then (d, Refuse(d, request, NR_FORMAT_ERROR))
    else
      var def := d.definitions[request.pid];
      if def.pidCc == DiscOnly && request.cc != CC_DISC then (d, Refused)
      else if || (def.pidCc == GetSet && request.cc == CC_DISC)
              || (def.pidCc == GetOnly && request.cc != CC_GET)
              || (def.pidCc == SetOnly && request.cc != CC_SET) then
        (d, Refuse(d, request, NR_UNSUPPORTED_COMMAND_CLASS))
      else
        var (d', w) := Handle(d, def, request, buffer);
        if w.WriteUndefined? then (d', w)
        else if request.pid == PID_DISC_UNIQUE_BRANCH && ((0 < SizeOf(w) < 17) || SizeOf(w) > 24) then
          (d'.(bootLoader := true), Refused)
        else if SizeOf(w) > 255 || (SizeOf(w) == 0 && !IsBroadcast(request.destUid)) then
          (d'.(bootLoader := true), Refuse(d', request, NR_HARDWARE_FAULT))
        else (d', w)
  }

  /** `rdm_send_response`: what the device does about the packet in its buffer. */
  function Respond(d: Device, buffer: Buffer): (Device, Reply)
  {
    match ReadHeader(buffer)
    case None => (d, Silent)
    case Some(request) =>
      if !CcIsValid(request.cc) || !CcIsRequest(request.cc) || !IsTarget(d.uid, request.destUid) then (d, Silent)
      else
        var (d', w) := Dispatch(d, request, buffer);
        if w.WriteUndefined? then (d', Unpredictable)
        else if w.Wrote? && (!IsBroadcast(request.destUid) || request.pid == PID_DISC_UNIQUE_BRANCH)
        then (d', Replies(w.bytes))
        else (d', Silent)
  }
}
