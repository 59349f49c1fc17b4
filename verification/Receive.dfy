/**
 * The receive half of the UART interrupt (`dmx_uart_isr`): bytes move from the
 * FIFO into the driver's buffer, and packets are recognised as they arrive.
 *
 * One step is one pass of the interrupt loop, with whatever bytes reached the
 * FIFO since the last one. Nothing is received while the bus is in write mode.
 */
module Receive {
  import opened Options
  import opened Uids
  import opened Bytes
  import opened Packets
  import PacketBuffer

  datatype Progress = Stale | InBreak | InMab | InData | Complete
  datatype Status = Idle | Receiving | Sending
  datatype Err = Ok | NotEnoughSlots | ImproperSlot | UartOverflow

  const WAITING_FOR_BREAK := -1

  /** The driver's receive state, and the UART's FIFO. */
  datatype Rx = Rx(data: Buffer, head: int, size: int, progress: Progress, status: Status, fifo: seq<Byte>)

  /** One interrupt: the bytes that arrived, the flags, and whether a task waits. */
  datatype Interrupt = Interrupt(arrived: seq<Byte>, isBreak: bool, framing: bool, overflow: bool, waiting: bool)

  // ----- Recognition -----

  /** The index of the delimiter as the interrupt looks for it: 9 if anything else is in its place. */
  function DelimiterIndex(data: Buffer, i: nat): (n: nat)
    requires i <= 8
    ensures i <= n <= 9
    decreases 8 - i
  {
    if i == 8 then 8
    else if data[i] == PREAMBLE then DelimiterIndex(data, i + 1)
    else if data[i] == DELIMITER then i
    else 9
  }

  predicate DiscoveryArriving(data: Buffer, head: int) {
    head < 17 || (DelimiterIndex(data, 0) <= 8 && head < DelimiterIndex(data, 0) + 17)
  }

  predicate DiscoveryReceived(data: Buffer) {
    DelimiterIndex(data, 0) <= 8 && ReadHeader(data).Some?
  }

  predicate RdmArriving(data: Buffer, head: int) {
    head < HEADER_SIZE + 2 || (RdmWellFormed(data) && head < data[2] as int + 2)
  }

  predicate RdmWellFormed(data: Buffer) {
    data[1] == RDM_SUB_SC && CcIsValid(data[20]) && data[2] >= HEADER_SIZE
  }

  predicate RdmReceived(data: Buffer) {
    RdmWellFormed(data) && ReadHeader(data).Some?
  }

  /**
   * Whether the packet in the buffer is complete. A packet that claims to be
   * RDM and is not is taken for DMX.
   */
  predicate PacketComplete(data: Buffer, head: int, size: int) {
    if data[0] == RDM_SC then
      !RdmArriving(data, head) && (RdmReceived(data) || head >= size)
    else if data[0] == PREAMBLE || data[0] == DELIMITER then
      !DiscoveryArriving(data, head) && (DiscoveryReceived(data) || head >= size)
    else head >= size
  }

  // ----- One interrupt -----

  /** Moves what fits from the FIFO into the buffer; a full buffer only counts. */
  function Drain(s: Rx, arrived: seq<Byte>): Rx {
    var fifo := s.fifo + arrived;
    if 0 <= s.head < PACKET_MAX then
      var room := PACKET_MAX - s.head;
      var n := if |fifo| < room then |fifo| else room;
      s.(data := s.data[..s.head] + fifo[..n] + s.data[s.head + n..], head := s.head + n, fifo := fifo[n..])
    else
      s.(head := if s.head > 0 then s.head + |fifo| else s.head, fifo := [])
  }

  function OnInterrupt(s: Rx, i: Interrupt): (Rx, Option<Err>) {
    var d := Drain(s, i.arrived);
    if i.isBreak then
      var short := d.progress == InData && d.head > 0;
      (d.(size := if short then d.head - 1 else d.size, status := Receiving, progress := InBreak, head := 0),
       if short && i.waiting then Some(NotEnoughSlots) else None)
    else
      var e := if d.progress == InBreak || d.progress == InMab then d.(progress := InData) else d;
      if e.progress != InData then (e, None)
      else if i.framing || i.overflow then
        (e.(progress := Complete, status := Idle),
         if i.waiting then Some(if i.overflow then UartOverflow else ImproperSlot) else None)
      else if PacketComplete(e.data, e.head, e.size) then
        (e.(progress := Complete, status := Idle), if i.waiting then Some(Ok) else None)
      else (e, None)
  }

  lemma DrainArrived(s: Rx, arrived: seq<Byte>)
    ensures Drain(s.(fifo := s.fifo + arrived), []) == Drain(s, arrived)
  {
    assert s.fifo + arrived + [] == s.fifo + arrived;
  }

  // ----- The interrupt as the driver runs it -----

  datatype RdmType = NotRdm | DiscoveryType | UnknownRdm

  class Port {
    const data: array<Byte>
    var head: int
    var size: int
    var progress: Progress
    var status: Status
    var fifo: seq<Byte>

    ghost predicate Valid()
      reads this
    {
      data.Length == PACKET_MAX
    }

    ghost function State(): Rx
      requires Valid()
      reads this, data
    {
      Rx(data[..], head, size, progress, status, fifo)
    }

    constructor ()
      ensures Valid() && fresh(data)
      ensures head == WAITING_FOR_BREAK && size == PACKET_MAX && progress == Stale && status == Idle && fifo == []
    {
      data := new Byte[PACKET_MAX](_ => 0);
      head, size, progress, status, fifo := WAITING_FOR_BREAK, PACKET_MAX, Stale, Idle, [];
    }

    /** Reads the FIFO into the buffer, or counts and discards what does not fit any more. */
    method ReadFifo()
      requires Valid()
      modifies this`head, this`fifo, data
      ensures State() == Drain(old(State()), [])
      ensures progress == old(progress) && size == old(size) && status == old(status)
    {
      if 0 <= head < PACKET_MAX {
        var readLen := PACKET_MAX - head;
        if readLen > |fifo| {
          readLen := |fifo|;
        }
        PacketBuffer.Store(data, head, fifo[..readLen]);
        assert old(fifo) + [] == old(fifo);
        fifo := fifo[readLen..];
        head := head + readLen;
      } else {
        if head > 0 {
          head := head + |fifo|;
        }
        fifo := [];
      }
    }

    /** Looks for the delimiter after at most seven preamble bytes. */
    method FindDelimiterIndex() returns (n: nat)
      requires Valid()
      ensures n == DelimiterIndex(data[..], 0)
    {
      n := 0;
      while n <= 7
        invariant 0 <= n <= 8
        invariant DelimiterIndex(data[..], 0) == DelimiterIndex(data[..], n)
      {
        var slot := data[n];
        if slot != PREAMBLE {
          return if slot != DELIMITER then 9 else n;
        }
        n := n + 1;
      }
    }

    /** Classifies what is in the buffer, falling back to DMX when it is not RDM after all. */
    method Recognise() returns (complete: bool)
      requires Valid()
      ensures complete == PacketComplete(data[..], head, size)
    {
      hide ReadHeader, DelimiterIndex, CcIsValid;
      var rdmType :=
        if data[0] == RDM_SC then UnknownRdm
        else if data[0] == PREAMBLE || data[0] == DELIMITER then DiscoveryType
        else NotRdm;
      while true
        invariant rdmType == UnknownRdm ==> data[0] == RDM_SC
        invariant rdmType == DiscoveryType ==> data[0] == PREAMBLE || data[0] == DELIMITER
        invariant rdmType == NotRdm ==> PacketComplete(data[..], head, size) == (head >= size)
        decreases rdmType != NotRdm
      {
        match rdmType
        case DiscoveryType =>
          if head < 17 {
            return false;
          }
          var n := FindDelimiterIndex();
          if n > 8 {
            rdmType := NotRdm;
          } else if head < n + 17 {
            return false;
          } else {
            var header := PacketBuffer.ReadHeaderOf(data);
            if header.Some? {
              return true;
            }
            rdmType := NotRdm;
          }
        case UnknownRdm =>
          if head < HEADER_SIZE + 2 {
            return false;
          } else if data[1] != RDM_SUB_SC || !CcIsValid(data[20]) || data[2] < HEADER_SIZE {
            rdmType := NotRdm;
          } else if head < data[2] as int + 2 {
            return false;
          } else {
            var header := PacketBuffer.ReadHeaderOf(data);
            if header.Some? {
              return true;
            }
            rdmType := NotRdm;
          }
        case NotRdm =>
          return head >= size;
      }
    }

    /** One pass of the interrupt loop with a receive flag up. */
    method OnReceive(i: Interrupt) returns (note: Option<Err>)
      requires Valid()
      modifies this, data
      ensures Valid()
      ensures (State(), note) == OnInterrupt(old(State()), i)
    {
      hide PacketComplete, Drain;
      fifo := fifo + i.arrived;
      DrainArrived(old(State()), i.arrived);
      ReadFifo();
      ghost var d := State();
      assert d == Drain(old(State()), i.arrived);
      note := None;
      if i.isBreak {
        if progress == InData && head > 0 {
          size := head - 1;
          if i.waiting {
            note := Some(NotEnoughSlots);
          }
        }
        status, progress, head := Receiving, InBreak, 0;
        return;
      } else if progress == InBreak || progress == InMab {
        progress := InData;
      }
      if progress != InData {
        return;
      }
      var err, complete;
      if i.framing || i.overflow {
        complete := true;
        err := if i.overflow then UartOverflow else ImproperSlot;
      } else {
        complete := Recognise();
        err := Ok;
      }
      if complete {
        progress, status := Complete, Idle;
        if i.waiting {
          note := Some(err);
        }
      }
    }
  }
}
