/**
 * The parameter table of the root device (`dmx/parameter.c`, `dmx/service.c`):
 * parameters live in memory cells, which static parameters may share, and the
 * non-volatile ones are staged when set and committed to storage one by one.
 *
 * Storage writes are assumed to succeed.
 */
module Parameters {
  import opened Options
  import opened Uids
  import opened Bytes

  datatype Kind = NullKind | Dynamic | NonVolatile | Static | Staged

  /** A slot of the table; `pid` is 0 in a free one. `cell` is the memory the parameter lives in. */
  datatype Entry = Entry(pid: Word16, size: nat, cell: Option<nat>, kind: Kind)

  datatype Table = Table(entries: seq<Entry>, memory: seq<seq<Byte>>, staged: nat, nvs: map<Word16, seq<Byte>>)

  // ----- Searches -----

  /** The first index whose entry has the property, or the length. */
  function First(es: seq<Entry>, p: Entry -> bool): (i: nat)
    ensures i <= |es| && (i < |es| ==> p(es[i])) && forall j :: 0 <= j < i ==> !p(es[j])
  {
    if es == [] then 0 else if p(es[0]) then 0 else 1 + First(es[1..], p)
  }

  lemma FirstUnique(es: seq<Entry>, p: Entry -> bool, i: nat)
    requires i <= |es| && (i < |es| ==> p(es[i])) && forall j :: 0 <= j < i ==> !p(es[j])
    ensures First(es, p) == i
  {
  }

  function IndexOf(es: seq<Entry>, pid: Word16): (i: nat)
    ensures i <= |es| && (i < |es| ==> es[i].pid == pid) && forall j :: 0 <= j < i ==> es[j].pid != pid
  {
    First(es, (e: Entry) => e.pid == pid)
  }

  function StagedIndex(es: seq<Entry>): (i: nat)
    ensures i <= |es| && (i < |es| ==> es[i].kind == Staged) && forall j :: 0 <= j < i ==> es[j].kind != Staged
  {
    First(es, (e: Entry) => e.kind == Staged)
  }

  // ----- What every operation keeps -----

  /** A parameter that is staged, not a free slot that only looks like one. */
  predicate IsStaged(e: Entry) {
    e.pid != 0 && e.kind == Staged
  }

  function StagedCount(es: seq<Entry>): nat {
    if es == [] then 0
    else StagedCount(es[..|es| - 1]) + if IsStaged(es[|es| - 1]) then 1 else 0
  }

  predicate IsNonVolatile(e: Entry) {
    e.pid != 0 && (e.kind == NonVolatile || e.kind == Staged)
  }

  /** A parameter's cell exists and is as large as the parameter. */
  predicate HasCell(e: Entry, memory: seq<seq<Byte>>) {
    e.cell.Some? && e.cell.value < |memory| && |memory[e.cell.value]| >= e.size
  }

  /** Parameters that have memory have enough of it; non-volatile ones always do. */
  ghost predicate CellsOk(es: seq<Entry>, memory: seq<seq<Byte>>) {
    && (forall i :: 0 <= i < |es| && IsNonVolatile(es[i]) ==> HasCell(es[i], memory))
    && (forall i :: 0 <= i < |es| && es[i].pid != 0 && es[i].cell.Some? ==> HasCell(es[i], memory))
  }

  /** Free slots come last, and no PID is repeated. */
  ghost predicate PidsOk(es: seq<Entry>) {
    && (forall i, j :: 0 <= i < j < |es| && es[i].pid == 0 ==> es[j].pid == 0)
    && (forall i, j :: 0 <= i < j < |es| && es[i].pid != 0 ==> es[i].pid != es[j].pid)
  }

  /** No other parameter writes to the memory of the one in slot i. */
  ghost predicate Alone(es: seq<Entry>, i: nat)
    requires i < |es|
  {
    forall j :: 0 <= j < |es| && j != i && es[j].pid != 0 && es[j].size > 0 ==> es[j].cell != es[i].cell
  }

  ghost predicate TableOk(t: Table) {
    t.staged == StagedCount(t.entries) && CellsOk(t.entries, t.memory) && PidsOk(t.entries)
  }

  /** The value of the parameter in slot i. */
  function ValueAt(t: Table, i: nat): seq<Byte>
    requires i < |t.entries| && HasCell(t.entries[i], t.memory)
  {
    t.memory[t.entries[i].cell.value][..t.entries[i].size]
  }

  /** Storage holds the value of the parameter in slot i. */
  ghost predicate Agrees(t: Table, i: nat) {
    && i < |t.entries| && HasCell(t.entries[i], t.memory)
    && t.entries[i].pid in t.nvs && t.nvs[t.entries[i].pid] == ValueAt(t, i)
  }

  /** A non-volatile parameter that was set and is not staged. */
  predicate IsSettled(e: Entry, written: set<Word16>) {
    e.pid != 0 && e.kind == NonVolatile && e.pid in written
  }

  /** Storage agrees with memory for the non-volatile parameters in `written` that are alone and not staged. */
  ghost predicate Synced(t: Table, written: set<Word16>) {
    forall i :: 0 <= i < |t.entries| && IsSettled(t.entries[i], written) && Alone(t.entries, i) ==> Agrees(t, i)
  }

  /** Every PID in the set has a slot. */
  ghost predicate Registered(t: Table, pids: set<Word16>) {
    0 !in pids && forall pid :: pid in pids ==> IndexOf(t.entries, pid) < |t.entries|
  }

  // ----- The operations, as values -----

  function Overwrite(cell: seq<Byte>, source: seq<Byte>): seq<Byte>
    requires |source| <= |cell|
  {
    source + cell[|source|..]
  }

  function Clamp(n: nat, limit: nat): nat {
    if n > limit then limit else n
  }

  /** `dmx_parameter_set` on the root device: the table, and the number of bytes written. */
  function SetParameter(t: Table, pid: Word16, source: seq<Byte>): (Table, nat) {
    var i := IndexOf(t.entries, pid);
    if source == [] || i == |t.entries| || !HasCell(t.entries[i], t.memory) then (t, 0)
    else
      var e := t.entries[i];
      var n := Clamp(|source|, e.size);
      var memory := t.memory[e.cell.value := Overwrite(t.memory[e.cell.value], source[..n])];
      if e.kind == NonVolatile
      then (Table(t.entries[i := e.(kind := Staged)], memory, t.staged + 1, t.nvs), n)
      else (t.(memory := memory), n)
  }

  /** `dmx_parameter_copy`: up to `size` bytes of the parameter. */
  function CopyParameter(t: Table, pid: Word16, size: nat): seq<Byte> {
    var i := IndexOf(t.entries, pid);
    if i == |t.entries| || !HasCell(t.entries[i], t.memory) then []
    else ValueAt(t, i)[..Clamp(size, t.entries[i].size)]
  }

  /** `dmx_parameter_commit`: the first staged parameter goes to storage; returns its PID, or 0. */
  function Commit(t: Table): (Table, Word16) {
    var i := StagedIndex(t.entries);
    if t.staged == 0 || i == |t.entries| || !HasCell(t.entries[i], t.memory) then (t, 0)
    else
      var e := t.entries[i];
      (Table(t.entries[i := e.(kind := NonVolatile)], t.memory, t.staged - 1, t.nvs[e.pid := ValueAt(t, i)]), e.pid)
  }

  /** What a new parameter starts from: zeroes, given bytes, memory of the caller, or nothing. */
  datatype Source = Zeroes | Given(bytes: seq<Byte>) | Shared(at: nat)

  function FreeIndex(es: seq<Entry>, pid: Word16): (i: nat)
    ensures i <= |es| && (i < |es| ==> es[i].pid == pid || es[i].pid == 0)
    ensures forall j :: 0 <= j < i ==> es[j].pid != pid && es[j].pid != 0
  {
    First(es, (e: Entry) => e.pid == pid || e.pid == 0)
  }

  function InitialCell(source: Source, size: nat): seq<Byte> {
    if source.Given? && |source.bytes| == size then source.bytes else seq(size, _ => 0)
  }

  /** `dmx_parameter_add` on the root device; `hasMemory` is whether memory could be had. */
  function AddParameter(t: Table, pid: Word16, kind: Kind, source: Source, size: nat, hasMemory: bool): (Table, bool) {
    var i := FreeIndex(t.entries, pid);
    if i == |t.entries| then (t, false)
    else if t.entries[i].pid == pid then (t, true)
    else
      match kind
      case NullKind => (t.(entries := t.entries[i := Entry(pid, size, None, NullKind)]), true)
      case Static =>
        var cell := if source.Shared? then Some(source.at) else None;
        (t.(entries := t.entries[i := Entry(pid, size, cell, Static)]), true)
      case Staged => (t, false)
      case _ =>
        if !hasMemory then (t.(entries := t.entries[i := t.entries[i].(cell := None)]), false)
        else (t.(entries := t.entries[i := Entry(pid, size, Some(|t.memory|), kind)],
                 memory := t.memory + [InitialCell(source, size)]), true)
  }

  // ----- Counting -----

  lemma {:induction false} CountUpdate(es: seq<Entry>, i: nat, e: Entry)
    requires i < |es|
    ensures StagedCount(es[i := e])
         == StagedCount(es) - (if IsStaged(es[i]) then 1 else 0) + (if IsStaged(e) then 1 else 0)
    decreases |es|
  {
    var n := |es| - 1;
    if i < n {
      CountUpdate(es[..n], i, e);
      assert es[i := e][..n] == es[..n][i := e];
    } else {
      assert es[i := e][..n] == es[..n];
    }
  }

  lemma {:induction false} CountZero(es: seq<Entry>)
    ensures StagedCount(es) == 0 <==> forall i :: 0 <= i < |es| ==> !IsStaged(es[i])
    decreases |es|
  {
    if es != [] {
      CountZero(es[..|es| - 1]);
      assert forall i :: 0 <= i < |es| - 1 ==> es[i] == es[..|es| - 1][i];
    }
  }

  // ----- Each operation keeps the table valid -----

  /** Staging or committing a slot changes nothing but its kind. */
  lemma RestageKeeps(es: seq<Entry>, memory: seq<seq<Byte>>, i: nat, kind: Kind)
    requires i < |es| && IsNonVolatile(es[i]) && (kind == NonVolatile || kind == Staged)
    requires CellsOk(es, memory) && PidsOk(es)
    ensures var es' := es[i := es[i].(kind := kind)];
            CellsOk(es', memory) && PidsOk(es')
  {
  }

  lemma CellUpdateKeeps(es: seq<Entry>, memory: seq<seq<Byte>>, c: nat, cell: seq<Byte>)
    requires c < |memory| && |cell| == |memory[c]| && CellsOk(es, memory)
    ensures CellsOk(es, memory[c := cell])
  {
  }

  lemma SetValid(t: Table, pid: Word16, source: seq<Byte>)
    requires TableOk(t) && pid != 0
    ensures TableOk(SetParameter(t, pid, source).0)
  {
    var i := IndexOf(t.entries, pid);
    if source != [] && i < |t.entries| && HasCell(t.entries[i], t.memory) {
      var e := t.entries[i];
      var c, n := e.cell.value, Clamp(|source|, e.size);
      hide CellsOk, PidsOk, IndexOf, StagedCount;
      CellUpdateKeeps(t.entries, t.memory, c, Overwrite(t.memory[c], source[..n]));
      if e.kind == NonVolatile {
        RestageKeeps(t.entries, t.memory[c := Overwrite(t.memory[c], source[..n])], i, Staged);
        CountUpdate(t.entries, i, e.(kind := Staged));
      }
    }
  }

  /** While anything is staged, the first slot that looks staged is a parameter: free slots come last. */
  lemma FirstStagedIsUsed(t: Table)
    requires TableOk(t) && t.staged > 0
    ensures StagedIndex(t.entries) < |t.entries| && IsStaged(t.entries[StagedIndex(t.entries)])
  {
    CountZero(t.entries);
    var k :| 0 <= k < |t.entries| && IsStaged(t.entries[k]);
    assert StagedIndex(t.entries) <= k;
  }

  lemma CommitValid(t: Table)
    requires TableOk(t)
    ensures TableOk(Commit(t).0)
    ensures t.staged > 0 ==> Commit(t).1 != 0 && Commit(t).0.staged == t.staged - 1
    ensures Commit(t).0.memory == t.memory
  {
    var i := StagedIndex(t.entries);
    if t.staged > 0 {
      FirstStagedIsUsed(t);
      RestageKeeps(t.entries, t.memory, i, NonVolatile);
      CountUpdate(t.entries, i, t.entries[i].(kind := NonVolatile));
      hide PidsOk, StagedIndex, StagedCount;
    }
  }

  /** A static parameter is given memory that exists and is large enough. */
  predicate MemoryExists(t: Table, kind: Kind, source: Source, size: nat) {
    kind == Static && source.Shared? ==> source.at < |t.memory| && |t.memory[source.at]| >= size
  }

  lemma NewPidKeeps(es: seq<Entry>, i: nat, e: Entry)
    requires PidsOk(es) && i < |es| && es[i].pid == 0
    requires forall j :: 0 <= j < i ==> es[j].pid != e.pid && es[j].pid != 0
    ensures PidsOk(es[i := e])
  {
  }

  lemma NewCellKeeps(es: seq<Entry>, memory: seq<seq<Byte>>, memory': seq<seq<Byte>>, i: nat, e: Entry)
    requires CellsOk(es, memory) && i < |es|
    requires memory <= memory' && (e.cell.Some? ==> HasCell(e, memory')) && (IsNonVolatile(e) ==> e.cell.Some?)
    ensures CellsOk(es[i := e], memory')
  {
  }

  /** Adding keeps the table well formed, and leaves it alone if the PID is there already. */
  lemma AddValid(t: Table, pid: Word16, kind: Kind, source: Source, size: nat, hasMemory: bool)
    requires TableOk(t) && pid != 0 && MemoryExists(t, kind, source, size)
    ensures TableOk(AddParameter(t, pid, kind, source, size, hasMemory).0)
    ensures IndexOf(t.entries, pid) < |t.entries| ==> AddParameter(t, pid, kind, source, size, hasMemory) == (t, true)
  {
    var i := FreeIndex(t.entries, pid);
    var t' := AddParameter(t, pid, kind, source, size, hasMemory).0;
    if t' != t {
      var e := t'.entries[i];
      hide FreeIndex, StagedCount, PidsOk, InitialCell;
      CountUpdate(t.entries, i, e);
      NewPidKeeps(t.entries, i, e);
      NewCellKeeps(t.entries, t.memory, t'.memory, i, e);
    }
  }

  // ----- Storage -----

  /** The PIDs whose value was set: none if nothing was written. */
  function WrittenTo(t: Table, pid: Word16, source: seq<Byte>): set<Word16> {
    if SetParameter(t, pid, source).1 > 0 then {pid} else {}
  }

  lemma SetKeepsSlots(t: Table, pid: Word16, source: seq<Byte>)
    ensures SameSlots(t.entries, SetParameter(t, pid, source).0.entries)
    ensures WrittenTo(t, pid, source) != {} ==> IndexOf(t.entries, pid) < |t.entries|
  {
  }

  /** The slots differ in nothing but their kinds. */
  predicate SameSlots(es: seq<Entry>, es': seq<Entry>) {
    |es| == |es'| && forall i :: 0 <= i < |es| ==> es[i] == es'[i].(kind := es[i].kind)
  }

  lemma AloneMoves(es: seq<Entry>, es': seq<Entry>, i: nat)
    requires SameSlots(es, es') && i < |es|
    ensures Alone(es, i) <==> Alone(es', i)
  {
    assert forall j :: 0 <= j < |es| ==> es[j] == es'[j].(kind := es[j].kind);
  }

  /** Setting leaves storage and memory of every parameter that is alone as they were. */
  lemma SetAgrees(t: Table, pid: Word16, source: seq<Byte>, i: nat)
    requires TableOk(t) && i < |t.entries| && Alone(t.entries, i) && t.entries[i].pid != pid && pid != 0
    requires Agrees(t, i)
    ensures Agrees(SetParameter(t, pid, source).0, i)
  {
    hide IndexOf, StagedCount;
    var j := IndexOf(t.entries, pid);
    if j < |t.entries| && HasCell(t.entries[j], t.memory) && t.entries[j].size == 0 {
      assert source[..0] == [];
      assert Overwrite(t.memory[t.entries[j].cell.value], []) == t.memory[t.entries[j].cell.value];
    }
  }

  /** A parameter of another PID is left alone; the one set is staged. */
  lemma SetEntries(t: Table, pid: Word16, source: seq<Byte>, i: nat)
    requires PidsOk(t.entries) && i < |t.entries| && SetParameter(t, pid, source).0.entries[i].kind == NonVolatile
    ensures SetParameter(t, pid, source).0.entries[i] == t.entries[i]
    ensures t.entries[i].pid == pid != 0 ==> SetParameter(t, pid, source) == (t, 0)
  {
  }

  lemma SetSynced(t: Table, pid: Word16, source: seq<Byte>, written: set<Word16>)
    requires TableOk(t) && pid != 0 && Synced(t, written)
    ensures Synced(SetParameter(t, pid, source).0, written + WrittenTo(t, pid, source))
  {
    var (t', n) := SetParameter(t, pid, source);
    SetKeepsSlots(t, pid, source);
    hide IndexOf, StagedCount, SetParameter, Alone, Agrees, CellsOk, SameSlots;
    if t' != t || n != 0 {
      forall i | 0 <= i < |t'.entries| && IsSettled(t'.entries[i], written + WrittenTo(t, pid, source))
                 && Alone(t'.entries, i)
        ensures Agrees(t', i)
      {
        SetEntries(t, pid, source, i);
        AloneMoves(t.entries, t'.entries, i);
        SetAgrees(t, pid, source, i);
      }
    }
  }

  lemma CommitSynced(t: Table, written: set<Word16>)
    requires TableOk(t) && Synced(t, written)
    ensures Synced(Commit(t).0, written) && SameSlots(t.entries, Commit(t).0.entries)
  {
    if t.staged > 0 {
      FirstStagedIsUsed(t);
    }
    hide StagedIndex, StagedCount;
    var t' := Commit(t).0;
    forall i | 0 <= i < |t'.entries| && IsSettled(t'.entries[i], written) && Alone(t'.entries, i)
      ensures Agrees(t', i)
    {
      AloneMoves(t.entries, t'.entries, i);
    }
  }

  /** Re-adding changes nothing; a new parameter was never written, and only makes others share. */
  lemma AddSynced(t: Table, pid: Word16, kind: Kind, source: Source, size: nat, hasMemory: bool, written: set<Word16>)
    requires TableOk(t) && pid != 0 && MemoryExists(t, kind, source, size)
    requires Synced(t, written) && Registered(t, written)
    ensures Synced(AddParameter(t, pid, kind, source, size, hasMemory).0, written)
    ensures Registered(AddParameter(t, pid, kind, source, size, hasMemory).0, written)
  {
    var t' := AddParameter(t, pid, kind, source, size, hasMemory).0;
    AddValid(t, pid, kind, source, size, hasMemory);
    if t' != t {
      var k := FreeIndex(t.entries, pid);
      hide FreeIndex, StagedCount, InitialCell;
      forall i | 0 <= i < |t'.entries| && IsSettled(t'.entries[i], written) && Alone(t'.entries, i)
        ensures Agrees(t', i)
      {
        assert forall j :: 0 <= j < |t.entries| && j != k ==> t'.entries[j] == t.entries[j];
        assert Alone(t.entries, i);
      }
      forall other | other in written
        ensures IndexOf(t'.entries, other) < |t'.entries|
      {
        assert t'.entries[IndexOf(t.entries, other)].pid == other;
      }
    }
  }

  /** Through a parameter that shares its memory, a non-volatile one can be changed behind storage's back. */
  lemma SharedGoesStale(t: Table, i: nat, j: nat) returns (source: seq<Byte>)
    requires TableOk(t) && i < |t.entries| && j < |t.entries| && i != j && t.entries[i].kind == NonVolatile
    requires t.entries[i].pid != 0 && t.entries[i].size > 0 && t.entries[j].size > 0 && t.entries[j].pid != 0
    requires t.entries[i].cell == t.entries[j].cell && Agrees(t, i)
    ensures SetParameter(t, t.entries[j].pid, source).0.entries[i] == t.entries[i]
    ensures !Agrees(SetParameter(t, t.entries[j].pid, source).0, i)
  {
    var was: int := ValueAt(t, i)[0];
    source := [(was + 1) % 0x100];
    var pid := t.entries[j].pid;
    FirstUnique(t.entries, (e: Entry) => e.pid == pid, j);
    hide StagedCount;
    var t' := SetParameter(t, pid, source).0;
    assert source[..1] == source;
    assert ValueAt(t', i)[0] == source[0];
  }

  /**
   * Storage that agrees with a non-volatile parameter goes on agreeing, whatever
   * is set through other parameters, exactly if the parameter is alone.
   */
  lemma StaysInSyncExactly(t: Table, i: nat)
    requires TableOk(t) && i < |t.entries| && t.entries[i].kind == NonVolatile && t.entries[i].pid != 0
    requires t.entries[i].size > 0 && Agrees(t, i)
    ensures Alone(t.entries, i) <==>
              forall pid: Word16, source: seq<Byte> :: pid != 0 && pid != t.entries[i].pid ==>
                Agrees(SetParameter(t, pid, source).0, i)
  {
    hide SetParameter, Agrees, StagedCount, IndexOf;
    if Alone(t.entries, i) {
      forall pid: Word16, source: seq<Byte> | pid != 0 && pid != t.entries[i].pid
        ensures Agrees(SetParameter(t, pid, source).0, i)
      {
        SetAgrees(t, pid, source, i);
      }
    } else {
      var j :| 0 <= j < |t.entries| && j != i && t.entries[j].pid != 0 && t.entries[j].size > 0
               && t.entries[j].cell == t.entries[i].cell;
      var source := SharedGoesStale(t, i, j);
    }
  }

  // ----- Whole runs -----

  datatype Op =
    | Add(pid: Word16, kind: Kind, source: Source, size: nat, hasMemory: bool)
    | Set(pid: Word16, bytes: seq<Byte>)
    | CommitOne

  function Apply(t: Table, op: Op): Table {
    match op
    case Add(pid, kind, source, size, hasMemory) => AddParameter(t, pid, kind, source, size, hasMemory).0
    case Set(pid, bytes) => SetParameter(t, pid, bytes).0
    case CommitOne => Commit(t).0
  }

  /** What callers owe: no PID 0, and memory that exists for a static parameter. */
  predicate Allowed(t: Table, op: Op) {
    match op
    case Add(pid, kind, source, size, _) => pid != 0 && MemoryExists(t, kind, source, size)
    case Set(pid, _) => pid != 0
    case CommitOne => true
  }

  function WrittenBy(t: Table, op: Op): set<Word16> {
    if op.Set? then WrittenTo(t, op.pid, op.bytes) else {}
  }

  /** A run of operations, and the PIDs ever set. */
  function RunOps(t: Table, ops: seq<Op>): (Table, set<Word16>) {
    if ops == [] then (t, {})
    else
      var (before, written) := RunOps(t, ops[..|ops| - 1]);
      var op := ops[|ops| - 1];
      (Apply(before, op), written + WrittenBy(before, op))
  }

  ghost predicate AllowedRun(t: Table, ops: seq<Op>) {
    forall k :: 0 <= k < |ops| ==> Allowed(RunOps(t, ops[..k]).0, ops[k])
  }

  /**
   * A table as installed: all slots free and nothing counted as staged. What
   * else a slot holds is what its memory held before, and storage may hold
   * values of an earlier run.
   */
  predicate IsFresh(t: Table) {
    t.staged == 0 && forall i :: 0 <= i < |t.entries| ==> t.entries[i].pid == 0
  }

  ghost predicate Kept(t: Table, written: set<Word16>) {
    TableOk(t) && Synced(t, written) && Registered(t, written)
  }

  lemma RegisteredMoves(t: Table, t': Table, pids: set<Word16>)
    requires Registered(t, pids) && SameSlots(t.entries, t'.entries)
    ensures Registered(t', pids)
  {
    forall pid | pid in pids
      ensures IndexOf(t'.entries, pid) < |t'.entries|
    {
      assert t'.entries[IndexOf(t.entries, pid)].pid == pid;
    }
  }

  /** Every operation keeps the table, storage and the record of what was written in order. */
  lemma ApplyKeeps(t: Table, op: Op, written: set<Word16>)
    requires Kept(t, written) && Allowed(t, op)
    ensures Kept(Apply(t, op), written + WrittenBy(t, op))
  {
    hide TableOk, Synced, AddParameter, SetParameter, Commit, MemoryExists, Registered, SameSlots;
    match op
    case Add(pid, kind, source, size, hasMemory) =>
      AddValid(t, pid, kind, source, size, hasMemory);
      AddSynced(t, pid, kind, source, size, hasMemory, written);
      assert written + {} == written;
    case Set(pid, bytes) =>
      SetValid(t, pid, bytes);
      SetSynced(t, pid, bytes, written);
      SetKeepsSlots(t, pid, bytes);
      RegisteredGrows(t, written, WrittenTo(t, pid, bytes), pid);
      RegisteredMoves(t, Apply(t, op), written + WrittenTo(t, pid, bytes));
    case CommitOne =>
      CommitValid(t);
      CommitSynced(t, written);
      RegisteredMoves(t, Apply(t, op), written);
      assert written + {} == written;
  }

  lemma RegisteredGrows(t: Table, pids: set<Word16>, more: set<Word16>, pid: Word16)
    requires Registered(t, pids) && more <= {pid} && pid != 0
    requires more != {} ==> IndexOf(t.entries, pid) < |t.entries|
    ensures Registered(t, pids + more)
  {
  }

  /**
   * In every run from a fresh table, whatever storage held before it, the
   * staged count is right and storage lags behind the parameters that were set
   * only where they are staged or share their memory.
   */
  lemma {:induction false} RunKeeps(t: Table, ops: seq<Op>)
    requires IsFresh(t) && AllowedRun(t, ops)
    ensures Kept(RunOps(t, ops).0, RunOps(t, ops).1)
    decreases |ops|
  {
    if ops == [] {
      CountZero(t.entries);
    } else {
      var n := |ops| - 1;
      assert forall k :: 0 <= k < n ==> ops[..n][..k] == ops[..k];
      RunKeeps(t, ops[..n]);
      hide Kept, Apply, Allowed, WrittenBy;
      ApplyKeeps(RunOps(t, ops[..n]).0, ops[n], RunOps(t, ops[..n]).1);
    }
  }

  function CommitTimes(t: Table, n: nat): Table
    decreases n
  {
    if n == 0 then t else CommitTimes(Commit(t).0, n - 1)
  }

  /** Storage holds the value of every non-volatile parameter in `written` that is alone, and none is staged. */
  ghost predicate FullySynced(t: Table, written: set<Word16>) {
    forall i :: 0 <= i < |t.entries| && IsNonVolatile(t.entries[i]) ==>
      t.entries[i].kind == NonVolatile && (t.entries[i].pid in written && Alone(t.entries, i) ==> Agrees(t, i))
  }

  /**
   * As many commits as there are staged parameters bring storage up to date for
   * every non-volatile parameter ever set, and the commit after them returns 0.
   */
  lemma {:induction false} CommitsCatchUp(t: Table, written: set<Word16>)
    requires TableOk(t) && Synced(t, written)
    ensures FullySynced(CommitTimes(t, t.staged), written)
    ensures CommitTimes(t, t.staged).staged == 0 && Commit(CommitTimes(t, t.staged)).1 == 0
    ensures CommitTimes(t, t.staged).memory == t.memory
    decreases t.staged
  {
    if t.staged == 0 {
      CountZero(t.entries);
    } else {
      hide TableOk, Synced, FullySynced, Commit;
      CommitValid(t);
      CommitSynced(t, written);
      CommitsCatchUp(Commit(t).0, written);
    }
  }

  /**
   * What adding a new parameter does: while a slot is free, a static one shares
   * the memory it is given, the others get memory of their own with the given
   * bytes or zeroes, and none is staged or touches storage.
   */
  lemma AddedHolds(t: Table, pid: Word16, kind: Kind, source: Source, size: nat, hasMemory: bool)
    requires TableOk(t) && pid != 0 && MemoryExists(t, kind, source, size)
    requires IndexOf(t.entries, pid) == |t.entries|
    ensures var (t', added) := AddParameter(t, pid, kind, source, size, hasMemory);
            && t'.nvs == t.nvs && t'.staged == t.staged && t.memory <= t'.memory
            && (added <==> (exists i :: 0 <= i < |t.entries| && t.entries[i].pid == 0)
                           && kind != Staged && (kind == Dynamic || kind == NonVolatile ==> hasMemory))
            && (added <==> IndexOf(t'.entries, pid) < |t'.entries|)
            && (added && (kind == Dynamic || kind == NonVolatile) ==>
                  && |t'.memory| == |t.memory| + 1
                  && CopyParameter(t', pid, size)
                     == if source.Given? && |source.bytes| == size then source.bytes else seq(size, _ => 0))
            && (added && kind == Static && source.Shared? ==>
                  t'.memory == t.memory && CopyParameter(t', pid, size) == t.memory[source.at][..size])
  {
    var i := FreeIndex(t.entries, pid);
    var (t', added) := AddParameter(t, pid, kind, source, size, hasMemory);
    hide StagedCount, FreeIndex, InitialCell;
    if added {
      FirstUnique(t'.entries, (e: Entry) => e.pid == pid, i);
      AddedCopy(t', pid, i, size);
    } else if i < |t.entries| {
      FirstUnique(t'.entries, (e: Entry) => e.pid == pid, |t'.entries|);
    }
    InitialCellIs(source, size);
  }

  lemma AddedCopy(t: Table, pid: Word16, i: nat, size: nat)
    requires i < |t.entries| && IndexOf(t.entries, pid) == i && t.entries[i].size == size
    ensures HasCell(t.entries[i], t.memory) ==>
              CopyParameter(t, pid, size) == t.memory[t.entries[i].cell.value][..size]
  {
  }

  lemma InitialCellIs(source: Source, size: nat)
    ensures |InitialCell(source, size)| == size
    ensures InitialCell(source, size)[..size]
         == if source.Given? && |source.bytes| == size then source.bytes else seq(size, _ => 0)
  {
  }

  /** A value of the parameter's size that is set is the value read back. */
  lemma SetThenCopy(t: Table, pid: Word16, source: seq<Byte>)
    requires TableOk(t) && source != []
    requires IndexOf(t.entries, pid) < |t.entries|
    requires var e := t.entries[IndexOf(t.entries, pid)]; HasCell(e, t.memory) && e.size == |source|
    ensures SetParameter(t, pid, source).1 == |source|
    ensures CopyParameter(SetParameter(t, pid, source).0, pid, |source|) == source
  {
    var i := IndexOf(t.entries, pid);
    var t' := SetParameter(t, pid, source).0;
    FirstUnique(t'.entries, (e: Entry) => e.pid == pid, i);
    hide StagedCount;
    assert source[..|source|] == source;
  }

  /**
   * A copy of any length after a set of any length: the bytes set, then those of
   * before, and no more than the parameter has.
   */
  lemma CopyAfterSet(t: Table, pid: Word16, source: seq<Byte>, size: nat)
    requires IndexOf(t.entries, pid) < |t.entries| && HasCell(t.entries[IndexOf(t.entries, pid)], t.memory)
    ensures var e := t.entries[IndexOf(t.entries, pid)];
            var before, (t', n) := t.memory[e.cell.value], SetParameter(t, pid, source);
            var after := CopyParameter(t', pid, size);
            && n == (if |source| < e.size then |source| else e.size)
            && |after| == (if size < e.size then size else e.size)
            && forall k :: 0 <= k < |after| ==> after[k] == if k < |source| then source[k] else before[k]
  {
    var i, t' := IndexOf(t.entries, pid), SetParameter(t, pid, source).0;
    FirstUnique(t'.entries, (e: Entry) => e.pid == pid, i);
    hide First;
    assert IndexOf(t'.entries, pid) == i && t'.entries[i].(kind := t.entries[i].kind) == t.entries[i];
    assert CopyParameter(t', pid, size) == t'.memory[t.entries[i].cell.value][..Clamp(size, t.entries[i].size)];
  }

  /** A parameter in other memory is copied as before. */
  lemma OthersAfterSet(t: Table, pid: Word16, source: seq<Byte>, other: Word16, size: nat)
    requires IndexOf(t.entries, pid) < |t.entries| && IndexOf(t.entries, other) < |t.entries|
    requires t.entries[IndexOf(t.entries, pid)].cell != t.entries[IndexOf(t.entries, other)].cell
    ensures CopyParameter(SetParameter(t, pid, source).0, other, size) == CopyParameter(t, other, size)
  {
    var t' := SetParameter(t, pid, source).0;
    FirstUnique(t'.entries, (e: Entry) => e.pid == other, IndexOf(t.entries, other));
    hide First;
  }

  // ----- The operations as the driver runs them -----

  class ParameterTable {
    const entries: array<Entry>
    var memory: seq<seq<Byte>>
    var staged: nat
    var nvs: map<Word16, seq<Byte>>

    ghost function State(): Table
      reads this, entries
    {
      Table(entries[..], memory, staged, nvs)
    }

    /**
     * A table on newly allocated memory, of which only the PIDs are cleared,
     * beside the memory of callers and what storage holds already.
     */
    constructor (heap: seq<Entry>, callers: seq<seq<Byte>>, stored: map<Word16, seq<Byte>>)
      ensures fresh(entries) && IsFresh(State())
      ensures entries[..] == seq(|heap|, i requires 0 <= i < |heap| => heap[i].(pid := 0))
      ensures memory == callers && nvs == stored
    {
      entries := new Entry[|heap|](i requires 0 <= i < |heap| => heap[i]);
      memory, staged, nvs := callers, 0, stored;
      new;
      for i := 0 to entries.Length
        modifies entries
        invariant forall j :: 0 <= j < i ==> entries[j] == heap[j].(pid := 0)
        invariant forall j :: i <= j < entries.Length ==> entries[j] == heap[j]
      {
        entries[i] := entries[i].(pid := 0);
      }
    }

    /** `dmx_parameter_get_entry`: the index of the parameter, or the number of slots. */
    method Lookup(pid: Word16) returns (i: nat)
      ensures i == IndexOf(entries[..], pid)
    {
      i := 0;
      while i < entries.Length
        invariant 0 <= i <= entries.Length
        invariant forall j :: 0 <= j < i ==> entries[j].pid != pid
      {
        if entries[i].pid == pid {
          break;
        }
        i := i + 1;
      }
      FirstUnique(entries[..], (e: Entry) => e.pid == pid, i);
    }

    /** `dmx_parameter_add`. */
    method AddTo(pid: Word16, kind: Kind, source: Source, size: nat, hasMemory: bool) returns (success: bool)
      requires pid != 0
      modifies this`memory, entries
      ensures (State(), success) == AddParameter(old(State()), pid, kind, source, size, hasMemory)
    {
      var i := 0;
      while i < entries.Length
        invariant 0 <= i <= entries.Length
        invariant forall j :: 0 <= j < i ==> entries[j].pid != pid && entries[j].pid != 0
      {
        if entries[i].pid == pid || entries[i].pid == 0 {
          break;
        }
        i := i + 1;
      }
      FirstUnique(entries[..], (e: Entry) => e.pid == pid || e.pid == 0, i);
      hide InitialCell;
      if i == entries.Length {
        return false;
      } else if entries[i].pid == pid {
        return true;
      }
      match kind {
        case NullKind =>
          entries[i] := Entry(pid, size, None, NullKind);
        case Static =>
          entries[i] := Entry(pid, size, if source.Shared? then Some(source.at) else None, Static);
        case Staged =>
          return false;
        case _ =>
          if !hasMemory {
            entries[i] := entries[i].(cell := None);
            return false;
          }
          entries[i] := Entry(pid, size, Some(|memory|), kind);
          memory := memory + [InitialCell(source, size)];
      }
      return true;
    }

    /** `dmx_parameter_set`. */
    method SetTo(pid: Word16, source: seq<Byte>) returns (n: nat)
      modifies this, entries
      ensures (State(), n) == SetParameter(old(State()), pid, source)
    {
      if source == [] {
        return 0;
      }
      var i := Lookup(pid);
      hide IndexOf;
      if i == entries.Length || !HasCell(entries[i], memory) {
        return 0;
      }
      n := |source|;
      if n > entries[i].size {
        n := entries[i].size;
      }
      var cell := entries[i].cell.value;
      memory := memory[cell := Overwrite(memory[cell], source[..n])];
      if entries[i].kind == NonVolatile {
        entries[i] := entries[i].(kind := Staged);
        staged := staged + 1;
      }
    }

    /** `dmx_parameter_commit`. */
    method CommitFirst() returns (pid: Word16)
      modifies this, entries
      ensures (State(), pid) == Commit(old(State()))
    {
      if staged == 0 {
        return 0;
      }
      var i := 0;
      while i < entries.Length
        invariant 0 <= i <= entries.Length
        invariant forall j :: 0 <= j < i ==> entries[j].kind != Staged
      {
        if entries[i].kind == Staged {
          break;
        }
        i := i + 1;
      }
      FirstUnique(entries[..], (e: Entry) => e.kind == Staged, i);
      hide StagedIndex;
      if i == entries.Length || !HasCell(entries[i], memory) {
        return 0;
      }
      entries[i] := entries[i].(kind := NonVolatile);
      staged := staged - 1;
      pid := entries[i].pid;
      nvs := nvs[pid := memory[entries[i].cell.value][..entries[i].size]];
    }
  }
}
