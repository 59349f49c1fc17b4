/**
 * The responder's message queue (`queue_status.c`): a ring buffer of PIDs that
 * holds no PID twice.
 *
 * The scan for duplicates runs from the tail to the head. When the head has
 * wrapped to slot 0 and the tail has not, it steps over slot 0 and never meets
 * the head; the model says exactly what becomes of a push then.
 */
module Queue {
  import opened Uids
  import Arithmetic

  datatype PushOutcome = Returned(success: bool) | Hangs

  /** The slots from tail to head, wrapping at the end. */
  function Contents(data: seq<Word16>, head: nat, tail: nat): seq<Word16>
    requires head < |data| && tail < |data|
  {
    if tail <= head then data[tail..head] else data[tail..] + data[..head]
  }

  ghost predicate Distinct(s: seq<Word16>) {
    forall i, j :: 0 <= i < j < |s| ==> s[i] != s[j]
  }

  // ----- The scan -----

  /** The index the scan looks at when its loop variable is i. */
  function Wrapped(i: nat, capacity: nat): nat {
    if i == capacity then 0 else i
  }

  /** The loop variable after n rounds of the scan. */
  function ScanIndex(tail: nat, capacity: nat, n: nat): nat {
    if n == 0 then tail else Wrapped(ScanIndex(tail, capacity, n - 1), capacity) + 1
  }

  /** After n rounds the scan is still going: it has met neither the head nor the PID. */
  ghost predicate StillScanning(data: seq<Word16>, head: nat, tail: nat, pid: Word16, n: nat) {
    forall k: nat :: k <= n ==>
      var i := ScanIndex(tail, |data|, k);
      i != head && Wrapped(i, |data|) < |data| && data[Wrapped(i, |data|)] != pid
  }

  predicate Unstoppable(head: nat, tail: nat) {
    head == 0 && tail > 0
  }

  lemma {:induction false} ScanIndexBounds(tail: nat, capacity: nat, n: nat)
    requires 0 < tail < capacity
    ensures 1 <= ScanIndex(tail, capacity, n) <= capacity
    decreases n
  {
    if n > 0 {
      ScanIndexBounds(tail, capacity, n - 1);
    }
  }

  /** With the head at slot 0 and the tail elsewhere, only the PID itself can end the scan. */
  lemma ScanRunsForever(data: seq<Word16>, tail: nat, pid: Word16, n: nat)
    requires 0 < tail < |data| && pid !in data
    ensures StillScanning(data, 0, tail, pid, n)
  {
    forall k: nat | k <= n
      ensures 1 <= ScanIndex(tail, |data|, k) <= |data|
    {
      ScanIndexBounds(tail, |data|, k);
    }
  }

  /** The specification: a bounded first-in first-out queue that holds no PID twice. */
  function FifoPush(q: seq<Word16>, capacity: nat, pid: Word16): (seq<Word16>, bool) {
    if pid == 0 then (q, false)
    else if pid in q then (q, true)
    else if |q| < capacity then (q + [pid], true)
    else (q, false)
  }

  /** The slot the scan looks at in round k of a full turn. */
  function Round(tail: nat, capacity: nat, k: nat): nat
    requires tail < capacity
  {
    if tail + k < capacity then tail + k else tail + k - capacity
  }

  /** A PID somewhere in the buffer is met within one turn. */
  lemma RoundOf(data: seq<Word16>, tail: nat, pid: Word16) returns (k: nat)
    requires tail < |data| && pid in data
    ensures k < |data| && data[Round(tail, |data|, k)] == pid
  {
    var j :| 0 <= j < |data| && data[j] == pid;
    k := if j >= tail then j - tail else j + |data| - tail;
  }

  /** The scan's index in round k, and the queue entry it looks at. */
  lemma ScanPosition(data: seq<Word16>, head: nat, tail: nat, k: nat)
    requires head < |data| && tail < |data| && k < |Contents(data, head, tail)|
    ensures Contents(data, head, tail)[k]
         == data[Round(tail, |data|, k)]
  {
  }

  lemma ContentsLength(data: seq<Word16>, head: nat, tail: nat)
    requires head < |data| && tail < |data|
    ensures |Contents(data, head, tail)| == (if tail <= head then head - tail else |data| - tail + head) <= |data| - 1
    ensures |Contents(data, head, tail)| == |data| - 1 <==> (if head + 1 == |data| then 0 else head + 1) == tail
  {
  }

  lemma ContentsPush(data: seq<Word16>, head: nat, tail: nat, pid: Word16)
    requires head < |data| && tail < |data| && |Contents(data, head, tail)| < |data| - 1
    ensures var head' := if head + 1 == |data| then 0 else head + 1;
            Contents(data[head := pid], head', tail) == Contents(data, head, tail) + [pid]
  {
    ContentsLength(data, head, tail);
    var next := data[head := pid];
    if tail <= head {
      if head + 1 == |data| {
        assert next[tail..] + next[..0] == data[tail..head] + [pid];
      }
    } else {
      assert next[tail..] == data[tail..];
      assert next[..head + 1] == data[..head] + [pid];
    }
  }

  lemma ContentsPop(data: seq<Word16>, head: nat, tail: nat)
    requires head < |data| && tail < |data| && Contents(data, head, tail) != []
    ensures Contents(data, head, tail)[0] == data[tail]
    ensures Contents(data, head, if tail + 1 == |data| then 0 else tail + 1) == Contents(data, head, tail)[1..]
  {
  }

  // ----- The queue as a value -----

  datatype Ring = Ring(data: seq<Word16>, head: nat, tail: nat, previous: Word16) {
    predicate Sane() {
      head < |data| && tail < |data|
    }

    function Queued(): seq<Word16>
      requires Sane()
    {
      Contents(data, head, tail)
    }
  }

  function Next(i: nat, capacity: nat): nat {
    if i + 1 == capacity then 0 else i + 1
  }

  lemma NextIsModulo(i: nat, capacity: nat)
    requires i < capacity
    ensures (i + 1) % capacity == Next(i, capacity)
  {
    if i + 1 < capacity {
      Arithmetic.SmallRemainder(i + 1, capacity);
    }
  }

  /** What a push does, hanging scan and all. */
  function PushRing(r: Ring, pid: Word16): (Ring, PushOutcome)
    requires r.Sane()
  {
    if pid == 0 then (r, Returned(false))
    else if Unstoppable(r.head, r.tail) then (r, if pid in r.data then Returned(true) else Hangs)
    else if pid in r.Queued() then (r, Returned(true))
    else if Next(r.head, |r.data|) == r.tail then (r, Returned(false))
    else (r.(data := r.data[r.head := pid], head := Next(r.head, |r.data|)), Returned(true))
  }

  function PopRing(r: Ring): (Ring, Word16)
    requires r.Sane()
  {
    if r.Queued() == [] then (r, 0)
    else (r.(tail := Next(r.tail, |r.data|), previous := r.data[r.tail]), r.data[r.tail])
  }

  /**
   * A push is that of a bounded duplicate-free queue of capacity one less than
   * the buffer, exactly when the scan can stop at the head or the PID is queued.
   */
  lemma PushRefinesFifo(r: Ring, pid: Word16)
    requires r.Sane() && pid != 0
    ensures PushRing(r, pid).0.Sane()
    ensures (PushRing(r, pid).0.Queued(), PushRing(r, pid).1)
            == (FifoPush(r.Queued(), |r.data| - 1, pid).0, Returned(FifoPush(r.Queued(), |r.data| - 1, pid).1)) <==>
              !Unstoppable(r.head, r.tail) || pid in r.Queued()
  {
    ContentsLength(r.data, r.head, r.tail);
    if Unstoppable(r.head, r.tail) {
      assert pid in r.Queued() ==> pid in r.data;
    } else if pid !in r.Queued() && Next(r.head, |r.data|) != r.tail {
      ContentsPush(r.data, r.head, r.tail, pid);
    }
  }

  /** In the remaining case it hangs, or takes a PID left in a free slot for a queued one. */
  lemma PushMisses(r: Ring, pid: Word16)
    requires r.Sane() && pid != 0 && Unstoppable(r.head, r.tail)
    ensures PushRing(r, pid) == (r, if pid in r.data then Returned(true) else Hangs)
    ensures pid !in r.data ==> forall n: nat :: StillScanning(r.data, r.head, r.tail, pid, n)
  {
    if pid !in r.data {
      forall n: nat
        ensures StillScanning(r.data, r.head, r.tail, pid, n)
      {
        ScanRunsForever(r.data, r.tail, pid, n);
      }
    }
  }

  /** No push ever queues a PID twice. */
  lemma PushKeepsDistinct(r: Ring, pid: Word16)
    requires r.Sane() && Distinct(r.Queued())
    ensures PushRing(r, pid).0.Sane() && Distinct(PushRing(r, pid).0.Queued())
  {
    ContentsLength(r.data, r.head, r.tail);
    if PushRing(r, pid).0 != r {
      ContentsPush(r.data, r.head, r.tail, pid);
    }
  }

  /** A pop takes the oldest PID and remembers it. */
  lemma PopRefinesFifo(r: Ring)
    requires r.Sane()
    ensures PopRing(r).0.Sane()
    ensures r.Queued() == [] ==> PopRing(r) == (r, 0)
    ensures r.Queued() != [] ==>
              && PopRing(r).1 == r.Queued()[0] == PopRing(r).0.previous
              && PopRing(r).0.Queued() == r.Queued()[1..]
  {
    if r.Queued() != [] {
      ContentsPop(r.data, r.head, r.tail);
    }
  }

  // ----- Whole runs -----

  datatype Op = Push(pid: Word16) | Pop

  function StepRing(r: Ring, op: Op): (r': Ring)
    requires r.Sane()
    ensures r'.Sane()
  {
    match op
    case Push(pid) => PushRing(r, pid).0
    case Pop => PopRing(r).0
  }

  function StepFifo(q: seq<Word16>, capacity: nat, op: Op): seq<Word16> {
    match op
    case Push(pid) => FifoPush(q, capacity, pid).0
    case Pop => if q == [] then [] else q[1..]
  }

  function RunRing(r: Ring, ops: seq<Op>): (r': Ring)
    requires r.Sane()
    ensures r'.Sane() && |r'.data| == |r.data|
  {
    if ops == [] then r else StepRing(RunRing(r, ops[..|ops| - 1]), ops[|ops| - 1])
  }

  function RunFifo(q: seq<Word16>, capacity: nat, ops: seq<Op>): seq<Word16> {
    if ops == [] then q else StepFifo(RunFifo(q, capacity, ops[..|ops| - 1]), capacity, ops[|ops| - 1])
  }

  predicate SafeOp(r: Ring, op: Op)
    requires r.Sane()
  {
    op.Push? ==> op.pid == 0 || !Unstoppable(r.head, r.tail) || op.pid in r.Queued()
  }

  /** Every push of the run is made where the scan can stop, or of a PID already queued. */
  ghost predicate SafeRun(r: Ring, ops: seq<Op>)
    requires r.Sane()
  {
    forall k :: 0 <= k < |ops| ==> SafeOp(RunRing(r, ops[..k]), ops[k])
  }

  lemma DistinctTail(q: seq<Word16>)
    requires Distinct(q) && q != []
    ensures Distinct(q[1..])
  {
  }

  /** A safe operation is one of the specified queue, and keeps PIDs distinct. */
  lemma SafeOpIsFifo(r: Ring, op: Op)
    requires r.Sane() && SafeOp(r, op) && Distinct(r.Queued())
    ensures StepRing(r, op).Queued() == StepFifo(r.Queued(), |r.data| - 1, op)
    ensures Distinct(StepRing(r, op).Queued())
  {
    hide Contents, Distinct;
    match op
    case Push(pid) =>
      PushKeepsDistinct(r, pid);
      if pid != 0 {
        PushRefinesFifo(r, pid);
      }
    case Pop =>
      PopRefinesFifo(r);
      if r.Queued() != [] {
        DistinctTail(r.Queued());
      }
  }

  /** A safe run of pushes and pops is a run of the specified queue, and never queues a PID twice. */
  lemma {:induction false} SafeRunIsFifo(r: Ring, ops: seq<Op>)
    requires r.Sane() && SafeRun(r, ops) && Distinct(r.Queued())
    ensures RunRing(r, ops).Queued() == RunFifo(r.Queued(), |r.data| - 1, ops)
    ensures Distinct(RunRing(r, ops).Queued())
    decreases |ops|
  {
    if ops != [] {
      var n := |ops| - 1;
      assert forall k :: 0 <= k < n ==> ops[..n][..k] == ops[..k];
      SafeRunIsFifo(r, ops[..n]);
      SafeOpIsFifo(RunRing(r, ops[..n]), ops[n]);
      hide Contents, Distinct, StepRing, StepFifo;
    }
  }

  /** Four pushes and a pop on a queue of four slots make the next push hang. */
  lemma WrappedQueueHangs()
    ensures var r1 := PushRing(Ring([0, 0, 0, 0], 0, 0, 0), 0x20).0;
            var r3 := PushRing(PushRing(r1, 0x30).0, 0x50).0;
            var r4 := PushRing(PopRing(r3).0, 0x60).0;
            r4.Queued() == [0x30, 0x50, 0x60] && PushRing(r4, 0x80).1 == Hangs
  {
    var r1 := PushRing(Ring([0, 0, 0, 0], 0, 0, 0), 0x20).0;
    assert r1 == Ring([0x20, 0, 0, 0], 1, 0, 0);
    assert r1.Queued() == [0x20];
    var r2 := PushRing(r1, 0x30).0;
    assert r2 == Ring([0x20, 0x30, 0, 0], 2, 0, 0);
    assert r2.Queued() == [0x20, 0x30];
    var r3 := PushRing(r2, 0x50).0;
    assert r3 == Ring([0x20, 0x30, 0x50, 0], 3, 0, 0);
    assert r3.Queued() == [0x20, 0x30, 0x50];
    var p := PopRing(r3).0;
    assert p == Ring([0x20, 0x30, 0x50, 0], 3, 1, 0x20);
    assert p.Queued() == [0x30, 0x50];
    var r4 := PushRing(p, 0x60).0;
    assert r4 == Ring([0x20, 0x30, 0x50, 0x60], 0, 1, 0x20);
  }

  class MessageQueue {
    var head: nat
    var tail: nat
    var previous: Word16
    const maxSize: nat
    const data: array<Word16>

    ghost predicate Valid()
      reads this, data
    {
      && 0 < maxSize == data.Length && head < maxSize && tail < maxSize
      && Distinct(Queued())
    }

    ghost function State(): Ring
      reads this, data
    {
      Ring(data[..], head, tail, previous)
    }

    ghost function Queued(): seq<Word16>
      requires head < data.Length && tail < data.Length
      reads this, data
    {
      Contents(data[..], head, tail)
    }

    constructor (maxCount: nat)
      requires maxCount > 0
      ensures Valid() && fresh(data) && Queued() == [] && maxSize == maxCount && previous == 0
    {
      maxSize := maxCount;
      data := new Word16[maxCount](_ => 0);
      head, tail, previous := 0, 0, 0;
    }

    /**
     * Scans the queue for a PID. With the head at slot 0 and the tail elsewhere
     * the scan runs on through slots that are not queued.
     */
    method Scan(pid: Word16) returns (found: bool)
      requires Valid()
      requires Unstoppable(head, tail) ==> pid in data[..]
      ensures !Unstoppable(head, tail) ==> (found <==> pid in Queued())
      ensures Unstoppable(head, tail) ==> found
    {
      var i := tail;
      ghost var k := 0;
      ContentsLength(data[..], head, tail);
      ghost var last := |Queued()|;
      if Unstoppable(head, tail) {
        last := RoundOf(data[..], tail, pid);
      }
      while i != head
        invariant 0 <= k <= last
        invariant i == if tail + k <= maxSize then tail + k else tail + k - maxSize
        invariant forall m :: 0 <= m < k ==> data[Round(tail, maxSize, m)] != pid
        decreases last - k
      {
        if i == maxSize {
          i := 0;
        }
        if data[i] == pid {
          if !Unstoppable(head, tail) {
            ScanPosition(data[..], head, tail, k);
          }
          return true;
        }
        i := i + 1;
        k := k + 1;
      }
      if pid in Queued() {
        var m :| 0 <= m < |Queued()| && Queued()[m] == pid;
        ScanPosition(data[..], head, tail, m);
      }
      return false;
    }

    /** `rdm_queue_push`. */
    method Push(pid: Word16) returns (outcome: PushOutcome)
      requires Valid()
      modifies this`head, data
      ensures Valid() && (State(), outcome) == PushRing(old(State()), pid)
    {
      hide Contents, Distinct;
      PushKeepsDistinct(State(), pid);
      NextIsModulo(head, maxSize);
      if pid == 0 {
        return Returned(false);
      }
      if Unstoppable(head, tail) && pid !in data[..] {
        return Hangs;
      }
      var alreadyQueued := Scan(pid);
      if alreadyQueued {
        return Returned(true);
      }
      if (head + 1) % maxSize == tail {
        return Returned(false);
      }
      data[head] := pid;
      head := head + 1;
      if head == maxSize {
        head := 0;
      }
      return Returned(true);
    }

    /** `rdm_queue_size`: the count, clamped to a byte. */
    method Size() returns (n: nat)
      requires Valid()
      ensures n == if |Queued()| > 255 then 255 else |Queued()|
    {
      ContentsLength(data[..], head, tail);
      var size: int := head - tail;
      if size < 0 {
        size := size + maxSize;
      }
      n := if size > 255 then 255 else size;
    }

    /** `rdm_queue_pop`. */
    method Pop() returns (pid: Word16)
      requires Valid()
      modifies this`tail, this`previous
      ensures Valid() && (State(), pid) == PopRing(old(State()))
    {
      var n := Size();
      if n > 0 {
        PopRefinesFifo(State());
        pid := data[tail];
        tail := tail + 1;
        if tail == maxSize {
          tail := 0;
        }
        previous := pid;
      } else {
        pid := 0;
      }
    }
  }
}
