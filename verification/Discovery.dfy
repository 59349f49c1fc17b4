/**
 * `rdm_discover_with_callback`: the controller's search of the UID space, on
 * a fixed stack of 49 address ranges, most significant range at the bottom.
 */
module Discovery {
  import opened Uids
  import opened Bus

  const STACK_CAPACITY := 49

  datatype Branch = Branch(lower: Uid, upper: Uid)

  // ----- What the stack holds -----

  /** A pending range as numbers, with a height: it holds at most `2^height` UIDs. */
  datatype Span = Span(lo: int, hi: int, height: nat)

  ghost function Pow2(n: nat): (p: nat)
    ensures p >= 1
  {
    if n == 0 then 1 else 2 * Pow2(n - 1)
  }

  ghost predicate Fits(s: Span) {
    0 <= s.lo <= s.hi <= MAX_VALUE && s.hi - s.lo + 1 <= Pow2(s.height)
  }

  /**
   * The pending ranges tile `[cursor, MAX_VALUE]` exactly, lowest range on top.
   * Adjacent ranges meet with no gap and no overlap.
   */
  ghost predicate Tiles(w: seq<Span>, cursor: int) {
    && (forall i :: 0 <= i < |w| ==> Fits(w[i]))
    && (forall i, j :: 0 <= i < |w| && j == i + 1 && j < |w| ==> w[j].hi + 1 == w[i].lo)
    && (if w == [] then cursor == MAX_VALUE + 1
        else w[0].hi == MAX_VALUE && w[|w| - 1].lo == cursor)
  }

  /** A range at stack index i lies at least i levels below the whole space. */
  ghost predicate Shallow(w: seq<Span>) {
    forall i :: 0 <= i < |w| ==> i + w[i].height <= 48
  }

  ghost predicate Mirrors(stack: seq<Branch>, w: seq<Span>) {
    && |w| <= |stack|
    && forall i :: 0 <= i < |w| ==> Value(stack[i].lower) == w[i].lo && Value(stack[i].upper) == w[i].hi
  }

  lemma MirrorsStart(stack: seq<Branch>)
    requires stack != [] && stack[0] == Branch(Uid(0, 0), UID_MAX)
    ensures Mirrors(stack, [Span(0, MAX_VALUE, 48)])
  {
  }

  /** The popped slot holds the top range, and the others still hold the rest. */
  lemma MirrorsTop(stack: seq<Branch>, w: seq<Span>)
    requires Mirrors(stack, w) && w != []
    ensures |w| <= |stack| && Mirrors(stack, w[..|w| - 1])
    ensures var top, b := w[|w| - 1], stack[|w| - 1];
            && top.lo == Value(b.lower) && top.hi == Value(b.upper)
            && (b.lower == b.upper <==> top.lo == top.hi)
  {
    ComparisonsAgree(stack[|w| - 1].lower, stack[|w| - 1].upper);
  }

  /** Pending ranges are pairwise disjoint, and every higher slot lies below every lower one. */
  lemma {:induction false} PendingDisjoint(w: seq<Span>, cursor: int, i: int, j: int)
    requires Tiles(w, cursor) && 0 <= i < j < |w|
    ensures w[j].hi < w[i].lo
    decreases j - i
  {
    if j > i + 1 {
      PendingDisjoint(w, cursor, i + 1, j);
    }
  }

  ghost function Mid(s: Span): int {
    (s.lo + s.hi) / 2
  }

  /** What the in-place split leaves on the stack instead of its top. */
  ghost function Split(w: seq<Span>): seq<Span>
    requires w != [] && w[|w| - 1].height > 0
  {
    var top := w[|w| - 1];
    w[..|w| - 1] + [Span(Mid(top) + 1, top.hi, top.height - 1), Span(top.lo, Mid(top), top.height - 1)]
  }

  lemma SpanHasHeight(s: Span)
    requires Fits(s) && s.lo < s.hi
    ensures s.height > 0
  {
  }

  lemma SplitTiles(w: seq<Span>, cursor: int)
    requires Tiles(w, cursor) && Shallow(w) && w != []
    requires w[|w| - 1].lo < w[|w| - 1].hi
    ensures w[|w| - 1].height > 0
    ensures Tiles(Split(w), cursor) && Shallow(Split(w))
  {
    var top := w[|w| - 1];
    SpanHasHeight(top);
    assert Pow2(top.height) == 2 * Pow2(top.height - 1);
    var s := Split(w);
    assert forall i :: 0 <= i < |w| - 1 ==> s[i] == w[i];
  }

  lemma PopTiles(w: seq<Span>, cursor: int)
    requires Tiles(w, cursor) && Shallow(w) && w != []
    ensures Tiles(w[..|w| - 1], w[|w| - 1].hi + 1) && Shallow(w[..|w| - 1])
  {
    var p := w[..|w| - 1];
    if p != [] {
      assert w[|w| - 1].hi + 1 == w[|w| - 2].lo;
    }
  }

  // ----- Which ranges a search comes down to -----

  /** The last range split above v, when the half that holds v is halved from `[lo, hi]` on. */
  ghost function LastSplit(lo: int, hi: int, v: int): (r: (int, int))
    requires lo <= v <= hi && lo < hi
    ensures lo <= r.0 <= v <= r.1 <= hi
    decreases hi - lo
  {
    var mid := (lo + hi) / 2;
    if v <= mid then (if lo == mid then (lo, hi) else LastSplit(lo, mid, v))
    else (if mid + 1 == hi then (lo, hi) else LastSplit(mid + 1, hi, v))
  }

  /** The last range of the search that is split above v holds an audible device. */
  ghost predicate Exposed(audible: set<Uid>, v: int)
    requires 0 <= v <= MAX_VALUE
  {
    var (lo, hi) := LastSplit(0, MAX_VALUE, v);
    Within(audible, lo, hi) != {}
  }

  /** The range comes from halving the whole space, and if it is a single UID then that UID is exposed. */
  ghost predicate IsNode(s: Span, audible: set<Uid>) {
    && 0 <= s.lo <= s.hi <= MAX_VALUE
    && if s.lo == s.hi then Exposed(audible, s.lo)
       else forall v :: s.lo <= v <= s.hi ==> LastSplit(0, MAX_VALUE, v) == LastSplit(s.lo, s.hi, v)
  }

  ghost predicate AreNodes(w: seq<Span>, audible: set<Uid>) {
    forall i :: 0 <= i < |w| ==> IsNode(w[i], audible)
  }

  /** The halves of a range that holds an audible device. */
  lemma HalvesAreNodes(s: Span, lower: Span, upper: Span, audible: set<Uid>)
    requires IsNode(s, audible) && s.lo < s.hi && Within(audible, s.lo, s.hi) != {}
    requires lower.lo == s.lo && lower.hi == Mid(s) && upper.lo == Mid(s) + 1 && upper.hi == s.hi
    ensures IsNode(lower, audible) && IsNode(upper, audible)
  {
    hide LastSplit, Within;
    forall v | s.lo <= v <= s.hi
      ensures LastSplit(0, MAX_VALUE, v) == LastSplit(s.lo, s.hi, v)
    {
    }
    SplitStep(s, s.lo);
    SplitStep(s, s.hi);
    forall v | s.lo <= v <= s.hi
      ensures LastSplit(s.lo, s.hi, v)
           == var t := if v <= Mid(s) then lower else upper;
              if t.lo == t.hi then (s.lo, s.hi) else LastSplit(t.lo, t.hi, v)
    {
      SplitStep(s, v);
    }
  }

  lemma SplitStep(s: Span, v: int)
    requires s.lo <= v <= s.hi && s.lo < s.hi
    ensures v <= Mid(s) ==>
              LastSplit(s.lo, s.hi, v) == if s.lo == Mid(s) then (s.lo, s.hi) else LastSplit(s.lo, Mid(s), v)
    ensures v > Mid(s) ==>
              LastSplit(s.lo, s.hi, v) == if Mid(s) + 1 == s.hi then (s.lo, s.hi) else LastSplit(Mid(s) + 1, s.hi, v)
  {
  }

  lemma SplitNodes(w: seq<Span>, audible: set<Uid>)
    requires w != [] && AreNodes(w, audible) && w[|w| - 1].height > 0 && w[|w| - 1].lo < w[|w| - 1].hi
    requires Within(audible, w[|w| - 1].lo, w[|w| - 1].hi) != {}
    ensures AreNodes(Split(w), audible)
  {
    var n := |w| - 1;
    hide IsNode, Within;
    HalvesAreNodes(w[n], Split(w)[n + 1], Split(w)[n], audible);
    assert forall i :: 0 <= i < n ==> Split(w)[i] == w[i];
  }

  // ----- The cost of a run -----

  ghost function Within(devices: set<Uid>, lo: int, hi: int): set<Uid> {
    set d | d in devices && lo <= Value(d) <= hi
  }

  /** What n devices may cost below a range of the given height: 2 visits per device and level. */
  ghost function Cost(height: nat, n: nat): nat {
    if height == 0 then 0 else Cost(height - 1, n) + 2 * n
  }

  lemma {:induction false} CostAdds(height: nat, a: nat, b: nat)
    ensures Cost(height, a + b) == Cost(height, a) + Cost(height, b)
  {
    if height > 0 {
      CostAdds(height - 1, a, b);
    }
  }

  lemma {:induction false} CostIs(height: nat, n: nat)
    ensures Cost(height, n) == 2 * height * n
  {
    if height > 0 {
      CostIs(height - 1, n);
    }
  }

  /** An upper bound on the visits that the pending ranges will still cost. */
  ghost function Debt(w: seq<Span>, devices: set<Uid>): nat {
    if w == [] then 0
    else
      var top := w[|w| - 1];
      Debt(w[..|w| - 1], devices) + 1 + Cost(top.height, |Within(devices, top.lo, top.hi)|)
  }

  lemma WithinSplits(devices: set<Uid>, lo: int, mid: int, hi: int)
    requires lo <= mid < hi
    ensures |Within(devices, lo, hi)| == |Within(devices, lo, mid)| + |Within(devices, mid + 1, hi)|
  {
    var below, above := Within(devices, lo, mid), Within(devices, mid + 1, hi);
    assert below !! above;
    assert Within(devices, lo, hi) == below + above;
  }

  lemma DebtOfPush(w: seq<Span>, s: Span, devices: set<Uid>)
    ensures Debt(w + [s], devices) == Debt(w, devices) + 1 + Cost(s.height, |Within(devices, s.lo, s.hi)|)
  {
    assert (w + [s])[..|w|] == w;
  }

  /** Splitting an answered range pays for the visit that made it. */
  lemma SplitDebt(w: seq<Span>, devices: set<Uid>)
    requires w != [] && w[|w| - 1].height > 0 && w[|w| - 1].lo < w[|w| - 1].hi
    requires Within(devices, w[|w| - 1].lo, w[|w| - 1].hi) != {}
    ensures Debt(Split(w), devices) + 1 <= Debt(w, devices)
  {
    var top, rest := w[|w| - 1], w[..|w| - 1];
    var mid := Mid(top);
    var upper, lower := Span(mid + 1, top.hi, top.height - 1), Span(top.lo, mid, top.height - 1);
    assert w == rest + [top];
    assert Split(w) == (rest + [upper]) + [lower];
    DebtOfPush(rest, top, devices);
    DebtOfPush(rest, upper, devices);
    DebtOfPush(rest + [upper], lower, devices);
    WithinSplits(devices, top.lo, mid, top.hi);
    CostAdds(top.height - 1, |Within(devices, top.lo, mid)|, |Within(devices, mid + 1, top.hi)|);
  }

  // ----- The retry loops -----

  /** The attempts at muting `dest` with request r, from attempt a on, until one is acknowledged: the ack, the wire. */
  function MuteTries(w: Wire, dest: Uid, r: nat, fate: Schedule, was: Ack, a: nat): (Ack, Wire)
    decreases 2 - a
  {
    var ack, w' := MuteAck(w, dest, was, fate(r, a)), AfterMute(w, dest, fate(r, a));
    if ack.Acked? || a >= 2 then (ack, w') else MuteTries(w', dest, r, fate, ack, a + 1)
  }

  /** The attempts at the branch request r, from attempt a on, until the ack says that something answered. */
  function BranchTries(w: Wire, b: Branch, r: nat, fate: Schedule, was: Ack, a: nat): Ack
    decreases 2 - a
  {
    var ack := BranchAck(w, b.lower, b.upper, was, fate(r, a));
    if ack != None || a >= 2 then ack else BranchTries(w, b, r, fate, ack, a + 1)
  }

  /** The attempt ends with an acknowledgement, from the device or made of noise. */
  predicate Acknowledges(w: Wire, dest: Uid, f: Fate) {
    !IsBroadcast(dest) && ((f.Delivered? && dest in w.devices) || (f.Noise? && f.answer.Acked?))
  }

  /**
   * On every bus: acknowledged exactly if one of the three attempts is, or if an
   * earlier ack still stands because the first was not sent.
   */
  lemma AckedExactly(w: Wire, dest: Uid, r: nat, fate: Schedule, was: Ack)
    ensures MuteTries(w, dest, r, fate, was, 0).0.Acked? <==>
              || (fate(r, 0).Unsent? && was.Acked?) || Acknowledges(w, dest, fate(r, 0))
              || Acknowledges(w, dest, fate(r, 1)) || Acknowledges(w, dest, fate(r, 2))
  {
    var w1 := AfterMute(w, dest, fate(r, 0));
    var ack1 := MuteAck(w, dest, was, fate(r, 0));
    var w2 := AfterMute(w1, dest, fate(r, 1));
    assert w1.devices == w.devices && w2.devices == w.devices;
    hide Targets, IsBroadcast, AfterMute;
    var ack2 := MuteAck(w1, dest, ack1, fate(r, 1));
    assert MuteTries(w2, dest, r, fate, ack2, 2).0 == MuteAck(w2, dest, ack2, fate(r, 2));
    assert !ack1.Acked? && !ack2.Acked? ==>
             MuteTries(w, dest, r, fate, was, 0) == MuteTries(w2, dest, r, fate, ack2, 2);
  }

  /** Attempts at a mute touch nobody but its targets. */
  lemma {:induction false} TriesTouch(w: Wire, dest: Uid, r: nat, fate: Schedule, was: Ack, a: nat)
    requires a <= 2
    ensures var (ack, w') := MuteTries(w, dest, r, fate, was, a);
            w'.devices == w.devices && w.muted <= w'.muted <= w.muted + Targets(w, dest)
    decreases 2 - a
  {
    if a < 2 {
      TriesTouch(AfterMute(w, dest, fate(r, a)), dest, r, fate, MuteAck(w, dest, was, fate(r, a)), a + 1);
    }
  }

  lemma FairGetsThrough(fate: Schedule, r: nat)
    ensures Fair(fate) ==> GetsThrough(fate, r) && IsHeard(fate, r)
  {
  }

  /** If only responders answer, an attempt not sent changes nothing, and an ack is from the device itself. */
  lemma {:induction false} TriesGenuine(w: Wire, dest: Uid, r: nat, fate: Schedule, was: Ack, a: nat)
    requires a <= 2 && NoiseFree(fate) && (fate(r, a).Unsent? ==> !was.Acked?)
    ensures var (ack, w') := MuteTries(w, dest, r, fate, was, a);
            && (ack.Acked? ==> ack.src == dest)
            && (ack.Acked? <==> dest in w.devices && !IsBroadcast(dest)
                                && exists k: nat :: a <= k <= 2 && fate(r, k).Delivered?)
            && w'.muted
               == w.muted + if exists k: nat :: a <= k <= 2 && Heard(fate(r, k)) then Targets(w, dest) else {}
    decreases 2 - a
  {
    var ack, w' := MuteAck(w, dest, was, fate(r, a)), AfterMute(w, dest, fate(r, a));
    assert Targets(w', dest) == Targets(w, dest);
    if !ack.Acked? && a < 2 {
      TriesGenuine(w', dest, r, fate, ack, a + 1);
    }
  }

  /** If only responders answer, something answered exactly if there is somebody to answer and an answer comes back. */
  lemma {:induction false} BranchGenuine(w: Wire, b: Branch, r: nat, fate: Schedule, was: Ack, a: nat)
    requires a <= 2 && NoiseFree(fate) && (fate(r, a).Unsent? ==> was == None)
    ensures BranchTries(w, b, r, fate, was, a) != None <==>
              && Audience(w, b.lower, b.upper) != {}
              && exists k: nat :: a <= k <= 2 && (fate(r, k).Delivered? || fate(r, k).ReplyGarbled?)
    decreases 2 - a
  {
    var ack := BranchAck(w, b.lower, b.upper, was, fate(r, a));
    if ack == None && a < 2 {
      BranchGenuine(w, b, r, fate, ack, a + 1);
    }
  }

  /** Whatever else happens, once a query of an audience is delivered something has answered. */
  lemma {:induction false} BranchDelivered(w: Wire, b: Branch, r: nat, fate: Schedule, was: Ack, a: nat)
    requires a <= 2 && Audience(w, b.lower, b.upper) != {} && exists k: nat :: a <= k <= 2 && fate(r, k).Delivered?
    ensures BranchTries(w, b, r, fate, was, a) != None
    decreases 2 - a
  {
    var ack := BranchAck(w, b.lower, b.upper, was, fate(r, a));
    if ack == None && a < 2 {
      BranchDelivered(w, b, r, fate, ack, a + 1);
    }
  }

  /**
   * Up to three attempts at request number r, muting `dest`, until one is
   * acknowledged; `was` is what the ack said before. An ack that is still
   * standing when the first attempt is not sent ends the loop at once.
   */
  method MuteWithRetries(w: Wire, dest: Uid, r: nat, fate: Schedule, was: Ack) returns (ack: Ack, w': Wire)
    ensures (ack, w') == MuteTries(w, dest, r, fate, was, 0)
    ensures w'.devices == w.devices
    ensures w.muted <= w'.muted <= w.muted + Targets(w, dest)
    // Acknowledged exactly if one of the attempts is, or if an earlier ack still stands.
    ensures ack.Acked? <==>
              || (fate(r, 0).Unsent? && was.Acked?) || Acknowledges(w, dest, fate(r, 0))
              || Acknowledges(w, dest, fate(r, 1)) || Acknowledges(w, dest, fate(r, 2))
    // If only responders answer and first attempts are sent: exactly if an attempt gets through to the device; and it
    // is muted exactly if one is heard.
    ensures Genuine(fate) ==> (ack.Acked? <==> dest in w.devices && !IsBroadcast(dest) && GetsThrough(fate, r))
    ensures Genuine(fate) && ack.Acked? ==> ack.src == dest
    ensures Genuine(fate) ==> w'.muted == w.muted + if IsHeard(fate, r) then Targets(w, dest) else {}
    // An earlier ack from another device is taken for this one's exactly then, and nobody is muted.
    ensures NoiseFree(fate) && was.Acked? && was.src != dest ==> (ack == was <==> fate(r, 0).Unsent?)
    ensures NoiseFree(fate) && was.Acked? && was.src != dest && ack == was ==> w' == w
  {
    w' := AfterMute(w, dest, fate(r, 0));
    ack := MuteAck(w, dest, was, fate(r, 0));
    var attempts := 1;
    while !ack.Acked? && attempts < 3
      invariant 1 <= attempts <= 3
      invariant MuteTries(w, dest, r, fate, was, 0)
             == if ack.Acked? || attempts == 3 then (ack, w') else MuteTries(w', dest, r, fate, ack, attempts)
    {
      ack := MuteAck(w', dest, ack, fate(r, attempts));
      w' := AfterMute(w', dest, fate(r, attempts));
      attempts := attempts + 1;
    }
    MuteTriesEnd(w, dest, r, fate, was);
  }

  lemma MuteTriesEnd(w: Wire, dest: Uid, r: nat, fate: Schedule, was: Ack)
    ensures var (ack, w') := MuteTries(w, dest, r, fate, was, 0);
            && w'.devices == w.devices && w.muted <= w'.muted <= w.muted + Targets(w, dest)
            && (ack.Acked? <==>
                  || (fate(r, 0).Unsent? && was.Acked?) || Acknowledges(w, dest, fate(r, 0))
                  || Acknowledges(w, dest, fate(r, 1)) || Acknowledges(w, dest, fate(r, 2)))
            && (Genuine(fate) ==>
                  && (ack.Acked? <==> dest in w.devices && !IsBroadcast(dest) && GetsThrough(fate, r))
                  && (ack.Acked? ==> ack.src == dest)
                  && w'.muted == w.muted + if IsHeard(fate, r) then Targets(w, dest) else {})
            && (NoiseFree(fate) && was.Acked? && was.src != dest ==>
                  (ack == was <==> fate(r, 0).Unsent?) && (ack == was ==> w' == w))
  {
    TriesTouch(w, dest, r, fate, was, 0);
    AckedExactly(w, dest, r, fate, was);
    if Genuine(fate) {
      TriesGenuine(w, dest, r, fate, was, 0);
    }
    if NoiseFree(fate) && was.Acked? && was.src != dest && !fate(r, 0).Unsent? {
      var ack1, w1 := MuteAck(w, dest, was, fate(r, 0)), AfterMute(w, dest, fate(r, 0));
      if !ack1.Acked? {
        TriesGenuine(w1, dest, r, fate, ack1, 1);
      }
    }
  }

  /** Up to three attempts at request number r, a branch request, until the ack says that something answered. */
  method BranchWithRetries(w: Wire, b: Branch, r: nat, fate: Schedule, was: Ack) returns (ack: Ack)
    ensures ack == BranchTries(w, b, r, fate, was, 0)
    ensures Genuine(fate) ==> (ack != None <==> Audience(w, b.lower, b.upper) != {} && IsAnswered(fate, r))
    ensures Fair(fate) && Audience(w, b.lower, b.upper) != {} ==> ack != None
  {
    ack := BranchAck(w, b.lower, b.upper, was, fate(r, 0));
    var attempts := 1;
    while ack == None && attempts < 3
      invariant 1 <= attempts <= 3
      invariant BranchTries(w, b, r, fate, was, 0)
             == if ack != None || attempts == 3 then ack else BranchTries(w, b, r, fate, ack, attempts)
    {
      ack := BranchAck(w, b.lower, b.upper, ack, fate(r, attempts));
      attempts := attempts + 1;
    }
    BranchTriesEnd(w, b, r, fate, was);
  }

  lemma BranchTriesEnd(w: Wire, b: Branch, r: nat, fate: Schedule, was: Ack)
    ensures var ack := BranchTries(w, b, r, fate, was, 0);
            && (Genuine(fate) ==> (ack != None <==> Audience(w, b.lower, b.upper) != {} && IsAnswered(fate, r)))
            && (Fair(fate) && Audience(w, b.lower, b.upper) != {} ==> ack != None)
  {
    if Genuine(fate) {
      BranchGenuine(w, b, r, fate, was, 0);
    }
    if Fair(fate) && Audience(w, b.lower, b.upper) != {} {
      FairGetsThrough(fate, r);
      BranchDelivered(w, b, r, fate, was, 0);
    }
  }

  // ----- The search -----

  ghost predicate Ascending(s: seq<Uid>) {
    forall i, j :: 0 <= i < j < |s| ==> Value(s[i]) < Value(s[j])
  }

  /** What was reported so far is on the wire, below the cursor, and in order. */
  ghost predicate Honest(found: seq<Uid>, devices: set<Uid>, cursor: int) {
    && Ascending(found)
    && forall u :: u in found ==> u in devices && !IsBroadcast(u) && Value(u) < cursor
  }

  /** Every audible device below the cursor is muted, and reported unless its UID is a broadcast. */
  ghost predicate Complete(found: seq<Uid>, audible: set<Uid>, muted: set<Uid>, cursor: int) {
    forall u :: u in audible && Value(u) < cursor ==> u in muted && (u in found || IsBroadcast(u))
  }

  /** No mute, not even a manufacturer broadcast, has reached an audible device above the cursor. */
  ghost predicate Untouched(audible: set<Uid>, muted: set<Uid>, cursor: int) {
    forall u :: u in audible && Value(u) >= cursor ==> u !in muted
  }

  /** Below the cursor, reported are exactly the devices the search came down to and that can acknowledge. */
  ghost predicate Exact(found: seq<Uid>, devices: set<Uid>, audible: set<Uid>, cursor: int) {
    && (forall u :: u in found ==> Value(u) < cursor <= MAX_VALUE + 1)
    && forall u :: Value(u) < cursor <= MAX_VALUE + 1 ==>
         (u in found <==> u in devices && !IsBroadcast(u) && Exposed(audible, Value(u)))
  }

  /** A one-UID range was visited: its device is reported if there is one that acknowledges. */
  lemma LeafExact(found: seq<Uid>, devices: set<Uid>, audible: set<Uid>, u: Uid, ack: Ack)
    requires Exact(found, devices, audible, Value(u)) && Value(u) <= MAX_VALUE && Exposed(audible, Value(u))
    requires ack.Acked? <==> u in devices && !IsBroadcast(u)
    requires ack.Acked? ==> ack.src == u
    ensures Exact(if ack.Acked? then found + [ack.src] else found, devices, audible, Value(u) + 1)
  {
    hide Exposed;
    forall d | Value(d) == Value(u)
      ensures d == u
    {
      ValueInjective(d, u);
    }
  }

  /** A larger range without audible devices was dropped: nothing in it is exposed. */
  lemma SilentExact(found: seq<Uid>, devices: set<Uid>, audible: set<Uid>, s: Span)
    requires Exact(found, devices, audible, s.lo) && IsNode(s, audible) && s.lo < s.hi
    requires forall d :: d in audible ==> !(s.lo <= Value(d) <= s.hi)
    ensures Exact(found, devices, audible, s.hi + 1)
  {
    forall u | s.lo <= Value(u) <= s.hi
      ensures !Exposed(audible, Value(u))
    {
      assert LastSplit(0, MAX_VALUE, Value(u)) == LastSplit(s.lo, s.hi, Value(u));
    }
    hide Exposed;
  }

  lemma WholeSpace(devices: set<Uid>)
    ensures Tiles([Span(0, MAX_VALUE, 48)], 0) && Shallow([Span(0, MAX_VALUE, 48)])
    ensures Debt([Span(0, MAX_VALUE, 48)], devices) <= 1 + 96 * |devices|
  {
    assert Pow2(8) == 256;
    assert Pow2(16) == 65536;
    assert Pow2(24) == 0x100_0000;
    assert Pow2(32) == 0x1_0000_0000;
    assert Pow2(40) == 0x100_0000_0000;
    assert Pow2(48) == 0x1_0000_0000_0000;
    var s := Span(0, MAX_VALUE, 48);
    assert [s] == [] + [s];
    DebtOfPush([], s, devices);
    CostIs(48, |Within(devices, 0, MAX_VALUE)|);
    SubsetSize(Within(devices, 0, MAX_VALUE), devices);
  }

  lemma SubsetSize(a: set<Uid>, b: set<Uid>)
    requires a <= b
    ensures |a| <= |b|
  {
    assert b == a + (b - a);
  }

  /** Muting a one-UID range keeps what the search has established. */
  lemma LeafStep(found: seq<Uid>, w: Wire, w': Wire, audible: set<Uid>, u: Uid, ack: Ack)
    requires w'.muted <= w.muted + Targets(w, u) && w.muted <= w'.muted && Value(u) <= MAX_VALUE
    requires Untouched(audible, w.muted, Value(u))
    ensures Untouched(audible, w'.muted, Value(u) + 1)
    ensures Honest(found, w.devices, Value(u)) && (ack.Acked? ==> ack.src == u && u in w.devices && !IsBroadcast(u)) ==>
              Honest(if ack.Acked? then found + [ack.src] else found, w.devices, Value(u) + 1)
    ensures Complete(found, audible, w.muted, Value(u)) && audible <= w.devices
            && (u in w.devices && !IsBroadcast(u) ==> ack == Acked(u)) && w'.muted == w.muted + Targets(w, u) ==>
              Complete(if ack.Acked? then found + [ack.src] else found, audible, w'.muted, Value(u) + 1)
  {
    forall d | d in audible && Value(d) >= Value(u) + 1
      ensures d !in w'.muted
    {
      if IsTarget(d, u) {
        TargetsAreNotAbove(d, u);
      }
    }
    forall d | Value(d) == Value(u)
      ensures d == u
    {
      ValueInjective(d, u);
    }
  }

  /** A range nobody answers for holds no audible device. */
  lemma SilentStep(w: Wire, audible: set<Uid>, b: Branch)
    requires audible <= w.devices && Untouched(audible, w.muted, Value(b.lower))
    requires Audience(w, b.lower, b.upper) == {}
    ensures forall d :: d in audible ==> !(Value(b.lower) <= Value(d) <= Value(b.upper))
  {
    forall d | d in audible && Value(b.lower) <= Value(d) <= Value(b.upper)
      ensures d in Audience(w, b.lower, b.upper)
    {
      ComparisonsAgree(d, b.lower);
      ComparisonsAgree(d, b.upper);
    }
  }

  lemma AnswererIsWithin(w: Wire, audible: set<Uid>, b: Branch)
    requires w.devices - w.muted <= audible
    requires Audience(w, b.lower, b.upper) != {}
    ensures Within(audible, Value(b.lower), Value(b.upper)) != {}
  {
    var d :| d in Audience(w, b.lower, b.upper);
    ComparisonsAgree(d, b.lower);
    ComparisonsAgree(d, b.upper);
    assert d in Within(audible, Value(b.lower), Value(b.upper));
  }

  /**
   * Replaces the range just popped, still in slot `n`, by its two halves. The
   * upper half goes below, so that the lower half is handled first.
   */
  method PushHalves(stack: array<Branch>, n: nat, ghost w: seq<Span>)
    requires |w| == n + 1 < stack.Length && w[n].height > 0
    requires Mirrors(stack[..], w) && 0 <= w[n].lo < w[n].hi <= MAX_VALUE
    modifies stack
    ensures Mirrors(stack[..], Split(w))
  {
    var firstLower := stack[n].lower;
    var mid := (Value(stack[n].lower) + Value(stack[n].upper)) / 2;
    OfValueInverse(mid);
    OfValueInverse(mid + 1);
    // The upper half reuses the popped slot's upper bound.
    stack[n] := stack[n].(lower := OfValue(mid + 1));
    stack[n + 1] := Branch(firstLower, OfValue(mid));
    assert forall i :: 0 <= i < n ==> Split(w)[i] == w[i] && stack[..][i] == old(stack[..])[i];
  }

  /** A run of the search: its environment, and where it has got to. */
  datatype Run = Run(before: Wire, hearing: set<Uid>, queries: Schedule, mutes: Schedule,
                           pending: seq<Span>, cursor: int, found: seq<Uid>, wire: Wire, visits: nat)
  {
    /** The devices that do not sit out the search because they missed the un-mute. */
    ghost function Audible(): set<Uid> {
      before.devices - (before.muted - hearing)
    }

    /** Without noise the pending ranges, and what was reported, are determined by the audible devices. */
    ghost predicate Charted() {
      && (Genuine(queries) ==> AreNodes(pending, Audible()))
      && (Genuine(queries) && Genuine(mutes) && Fair(queries) && Fair(mutes) ==>
            Exact(found, before.devices, Audible(), cursor))
    }

    /** The pending ranges are the rest of the space, and the visits are within bounds. */
    ghost predicate Placed() {
      && Tiles(pending, cursor) && Shallow(pending) && 0 <= cursor <= MAX_VALUE + 1
      && visits + 2 * (MAX_VALUE + 1 - cursor) - |pending| <= 2 * MAX_VALUE + 1
      && (visits == 0 ==> found == [] && pending == [Span(0, MAX_VALUE, 48)]) && (visits > 0 ==> |found| < visits)
      && (Genuine(queries) ==> visits + Debt(pending, Audible()) <= 1 + 96 * |Audible()|)
    }

    ghost predicate Inv() {
      && Placed()
      && wire.devices == before.devices && before.muted - hearing <= wire.muted
      && Untouched(Audible(), wire.muted, cursor)
      && (Genuine(mutes) ==> Honest(found, before.devices, cursor))
      && (Genuine(mutes) && Fair(queries) && Fair(mutes) ==> Complete(found, Audible(), wire.muted, cursor))
      && Charted()
    }

    /** The run after its top range was dealt with and dropped. */
    ghost function Dropped(found': seq<Uid>, wire': Wire): Run
      requires pending != []
    {
      var n := |pending| - 1;
      this.(pending := pending[..n], cursor := pending[n].hi + 1, found := found', wire := wire', visits := visits + 1)
    }

    /** The run after its top range was split. */
    ghost function Branched(): Run
      requires pending != [] && pending[|pending| - 1].height > 0
    {
      this.(pending := Split(pending), visits := visits + 1)
    }
  }

  lemma InvStart(before: Wire, hearing: set<Uid>, queries: Schedule, mutes: Schedule)
    ensures Run(before, hearing, queries, mutes, [Span(0, MAX_VALUE, 48)], 0, [],
                AfterUnMute(before, hearing), 0).Inv()
  {
    var audible := before.devices - (before.muted - hearing);
    WholeSpace(audible);
  }

  /** The stack bound, and what the top range looks like. */
  lemma InvBounds(r: Run)
    requires r.Inv()
    ensures |r.pending| <= STACK_CAPACITY && r.cursor <= MAX_VALUE + 1
    ensures r.pending != [] ==>
              var top := r.pending[|r.pending| - 1];
              && 0 <= top.lo == r.cursor <= top.hi <= MAX_VALUE
              && (top.lo < top.hi ==> |r.pending| < STACK_CAPACITY && top.height > 0)
  {
    if r.pending != [] && r.pending[|r.pending| - 1].lo < r.pending[|r.pending| - 1].hi {
      SpanHasHeight(r.pending[|r.pending| - 1]);
    }
  }

  lemma DroppedPlaced(r: Run, found': seq<Uid>, wire': Wire)
    requires r.Placed() && r.pending != []
    requires |found'| <= |r.found| + if r.pending[|r.pending| - 1].lo == r.pending[|r.pending| - 1].hi then 1 else 0
    ensures r.Dropped(found', wire').Placed()
  {
    hide Genuine, Cost, Within;
    PopTiles(r.pending, r.cursor);
  }

  lemma ChartedLeaf(r: Run, u: Uid, ack: Ack, wire': Wire)
    requires r.Charted() && r.pending != [] && Value(u) == r.cursor
    requires var top := r.pending[|r.pending| - 1]; top.lo == top.hi == Value(u)
    requires Genuine(r.mutes) && ack.Acked? ==> ack.src == u && u in r.before.devices && !IsBroadcast(u)
    requires Genuine(r.mutes) && Fair(r.mutes) && u in r.before.devices && !IsBroadcast(u) ==> ack == Acked(u)
    ensures r.Dropped(if ack.Acked? then r.found + [ack.src] else r.found, wire').Charted()
  {
    hide Fair, Genuine, Value, Exact, Exposed, IsBroadcast;
    if Genuine(r.queries) && Genuine(r.mutes) && Fair(r.queries) && Fair(r.mutes) {
      LeafExact(r.found, r.before.devices, r.Audible(), u, ack);
    }
  }

  /** Muting a one-UID range keeps the invariant. */
  lemma InvLeaf(r: Run, u: Uid, ack: Ack, wire': Wire)
    requires r.Inv() && r.pending != []
    requires var top := r.pending[|r.pending| - 1]; top.lo == top.hi == Value(u)
    requires wire'.devices == r.wire.devices
    requires r.wire.muted <= wire'.muted <= r.wire.muted + Targets(r.wire, u)
    requires Genuine(r.mutes) && IsBroadcast(u) ==> !ack.Acked?
    requires Genuine(r.mutes) && ack.Acked? ==> ack.src == u && u in r.wire.devices
    requires Genuine(r.mutes) && Fair(r.mutes) ==>
               && (u in r.wire.devices && !IsBroadcast(u) ==> ack == Acked(u))
               && wire'.muted == r.wire.muted + Targets(r.wire, u)
    ensures r.Dropped(if ack.Acked? then r.found + [ack.src] else r.found, wire').Inv()
  {
    InvBounds(r);
    hide Honest, Complete, Untouched, Targets, Fair, Genuine, Tiles, Shallow, Value, Run.Charted, IsBroadcast;
    assert Genuine(r.mutes) && ack.Acked? ==> ack.src == u && u in r.wire.devices && !IsBroadcast(u);
    DroppedPlaced(r, if ack.Acked? then r.found + [ack.src] else r.found, wire');
    hide Run.Placed;
    ChartedLeaf(r, u, ack, wire');
    LeafStep(r.found, r.wire, wire', r.Audible(), u, ack);
  }

  /** Dropping a range that gave no answer keeps the invariant. */
  lemma InvSilent(r: Run, b: Branch)
    requires r.Inv() && r.pending != []
    requires var top := r.pending[|r.pending| - 1];
             top.lo == Value(b.lower) && top.hi == Value(b.upper) && top.lo < top.hi
    requires Fair(r.queries) ==> Audience(r.wire, b.lower, b.upper) == {}
    ensures r.Dropped(r.found, r.wire).Inv()
  {
    InvBounds(r);
    hide Honest, Audience, Fair, Genuine, Tiles, Shallow, Value, Exact, IsNode;
    PopTiles(r.pending, r.cursor);
    if Fair(r.queries) {
      SilentStep(r.wire, r.Audible(), b);
      if Genuine(r.queries) && Genuine(r.mutes) && Fair(r.mutes) {
        SilentExact(r.found, r.before.devices, r.Audible(), r.pending[|r.pending| - 1]);
      }
    }
  }

  /** Splitting a range that gave an answer keeps the invariant. */
  lemma InvBranch(r: Run, b: Branch)
    requires r.Inv() && r.pending != []
    requires var top := r.pending[|r.pending| - 1];
             top.lo == Value(b.lower) && top.hi == Value(b.upper) && top.lo < top.hi
    requires Genuine(r.queries) ==> Audience(r.wire, b.lower, b.upper) != {}
    ensures r.pending[|r.pending| - 1].height > 0
    ensures r.Branched().Inv()
  {
    SplitTiles(r.pending, r.cursor);
    if Genuine(r.queries) {
      AnswererIsWithin(r.wire, r.Audible(), b);
      SplitDebt(r.pending, r.Audible());
      SplitNodes(r.pending, r.Audible());
    }
  }

  /** What a finished run has achieved. */
  lemma InvDone(r: Run)
    requires r.Inv() && r.pending == []
    ensures r.wire.devices == r.before.devices
    ensures r.visits <= 2 * MAX_VALUE + 1
    ensures Genuine(r.mutes) ==>
              Ascending(r.found) && forall u :: u in r.found ==> u in r.before.devices && !IsBroadcast(u)
    ensures Genuine(r.mutes) && Fair(r.queries) && Fair(r.mutes) ==>
              && (forall u :: u in r.Audible() && !IsBroadcast(u) ==> u in r.found)
              && r.before.devices <= r.wire.muted + {BROADCAST_ALL}
    ensures Genuine(r.queries) && Genuine(r.mutes) && Fair(r.queries) && Fair(r.mutes) ==>
              forall u :: u in r.found <==> u in r.before.devices && !IsBroadcast(u) && Exposed(r.Audible(), Value(u))
    ensures Genuine(r.queries) ==> r.visits <= 1 + 96 * |r.Audible()|
    ensures Genuine(r.queries) && r.before.devices <= r.before.muted - r.hearing ==> r.found == []
  {
    assert r.before.devices <= r.before.muted - r.hearing ==> r.Audible() == {};
    forall d: Uid | Value(d) > MAX_VALUE
      ensures d == BROADCAST_ALL
    {
      ValueInjective(d, BROADCAST_ALL);
    }
  }

  // ----- The same search, as a recursion -----

  /** What a search has to show for itself. */
  datatype Progress = Progress(found: seq<Uid>, wire: Wire, visits: nat)

  /** And what its ack says, which the next request starts from. */
  datatype Trace = Trace(progress: Progress, ack: Ack)

  /** One UID: whoever acknowledges its mute is reported. */
  function LeafTraced(u: Uid, t: Trace, mutes: Schedule): Trace {
    var s := t.progress;
    var (ack, wire) := MuteTries(s.wire, u, s.visits, mutes, t.ack, 0);
    Trace(Progress(if ack.Acked? then s.found + [ack.src] else s.found, wire, s.visits + 1), ack)
  }

  /** The trace after the query of a range. */
  function Queried(b: Branch, t: Trace, queries: Schedule): Trace {
    var s := t.progress;
    Trace(s.(visits := s.visits + 1), BranchTries(s.wire, b, s.visits, queries, t.ack, 0))
  }

  /** A range: its halves, lower half first, if something answers. */
  function Traced(lo: int, hi: int, t: Trace, queries: Schedule, mutes: Schedule): Trace
    requires 0 <= lo <= hi <= MAX_VALUE
    decreases hi - lo
  {
    if lo == hi then LeafTraced(OfValue(lo), t, mutes)
    else
      var visited := Queried(Branch(OfValue(lo), OfValue(hi)), t, queries);
      if visited.ack == None then visited
      else
        var mid := (lo + hi) / 2;
        Traced(mid + 1, hi, Traced(lo, mid, visited, queries, mutes), queries, mutes)
  }

  // If only responders answer and first attempts are sent, the ack can be left out.

  /** One UID: its device is reported if an attempt at its mute gets through, and muted if one is heard. */
  function LeafSearched(u: Uid, s: Progress, mutes: Schedule): Progress {
    var acked := u in s.wire.devices && !IsBroadcast(u) && GetsThrough(mutes, s.visits);
    var muted := if IsHeard(mutes, s.visits) then Targets(s.wire, u) else {};
    Progress(if acked then s.found + [u] else s.found, s.wire.(muted := s.wire.muted + muted), s.visits + 1)
  }

  /** A range: its halves, lower half first, if somebody in it is unmuted and an answer reaches the controller. */
  function Searched(lo: int, hi: int, s: Progress, queries: Schedule, mutes: Schedule): Progress
    requires 0 <= lo <= hi <= MAX_VALUE
    decreases hi - lo
  {
    var visited := s.(visits := s.visits + 1);
    if lo == hi then LeafSearched(OfValue(lo), s, mutes)
    else if Audience(s.wire, OfValue(lo), OfValue(hi)) == {} || !IsAnswered(queries, s.visits) then visited
    else
      var mid := (lo + hi) / 2;
      Searched(mid + 1, hi, Searched(lo, mid, visited, queries, mutes), queries, mutes)
  }

  lemma LeafTracedGenuine(u: Uid, t: Trace, mutes: Schedule)
    requires Genuine(mutes)
    ensures LeafTraced(u, t, mutes).progress == LeafSearched(u, t.progress, mutes)
  {
    MuteTriesEnd(t.progress.wire, u, t.progress.visits, mutes, t.ack);
    hide MuteTries, Genuine, GetsThrough, IsHeard, Targets;
  }

  lemma QueriedGenuine(b: Branch, t: Trace, queries: Schedule)
    requires Genuine(queries)
    ensures Queried(b, t, queries).progress == t.progress.(visits := t.progress.visits + 1)
    ensures Queried(b, t, queries).ack == None <==>
              Audience(t.progress.wire, b.lower, b.upper) == {} || !IsAnswered(queries, t.progress.visits)
  {
    BranchTriesEnd(t.progress.wire, b, t.progress.visits, queries, t.ack);
    hide BranchTries, Genuine, IsAnswered, Audience;
  }

  lemma {:induction false} TracedGenuine(lo: int, hi: int, t: Trace, queries: Schedule, mutes: Schedule)
    requires 0 <= lo <= hi <= MAX_VALUE && Genuine(queries) && Genuine(mutes)
    ensures Traced(lo, hi, t, queries, mutes).progress == Searched(lo, hi, t.progress, queries, mutes)
    decreases hi - lo
  {
    hide LeafTraced, LeafSearched, Queried, Audience, IsAnswered, OfValue, Genuine;
    if lo == hi {
      LeafTracedGenuine(OfValue(lo), t, mutes);
    } else {
      var b := Branch(OfValue(lo), OfValue(hi));
      QueriedGenuine(b, t, queries);
      var mid, visited := (lo + hi) / 2, Queried(b, t, queries);
      if visited.ack != None {
        TracedGenuine(lo, mid, visited, queries, mutes);
        TracedGenuine(mid + 1, hi, Traced(lo, mid, visited, queries, mutes), queries, mutes);
      }
    }
  }

  ghost predicate InSpace(w: seq<Span>) {
    forall i :: 0 <= i < |w| ==> 0 <= w[i].lo <= w[i].hi <= MAX_VALUE
  }

  /** All pending ranges, from the top of the stack down. */
  ghost function TracedAll(w: seq<Span>, t: Trace, queries: Schedule, mutes: Schedule): Trace
    requires InSpace(w)
    decreases |w|
  {
    if w == [] then t
    else
      var top := w[|w| - 1];
      TracedAll(w[..|w| - 1], Traced(top.lo, top.hi, t, queries, mutes), queries, mutes)
  }

  /** What a search comes to if the rest of it is the rest of the recursion. */
  ghost function Ahead(w: seq<Span>, t: Trace, queries: Schedule, mutes: Schedule): Trace {
    if InSpace(w) then TracedAll(w, t, queries, mutes) else t
  }

  ghost function Outcome(r: Run, ack: Ack): Trace {
    Ahead(r.pending, Trace(Progress(r.found, r.wire, r.visits), ack), r.queries, r.mutes)
  }

  lemma TracedTop(w: seq<Span>, top: Span, t: Trace, queries: Schedule, mutes: Schedule)
    requires InSpace(w + [top])
    ensures InSpace(w) && 0 <= top.lo <= top.hi <= MAX_VALUE
    ensures Ahead(w + [top], t, queries, mutes) == Ahead(w, Traced(top.lo, top.hi, t, queries, mutes), queries, mutes)
  {
    hide Traced;
    var all := w + [top];
    assert all[|w|] == top && all[..|w|] == w;
    assert forall i :: 0 <= i < |w| ==> all[i] == w[i];
  }

  /** After the visit of a leaf it comes to the same. */
  lemma AheadOfLeaf(w: seq<Span>, u: Uid, t: Trace, queries: Schedule, mutes: Schedule)
    requires InSpace(w) && w != [] && w[|w| - 1].lo == w[|w| - 1].hi == Value(u)
    ensures Ahead(w[..|w| - 1], LeafTraced(u, t, mutes), queries, mutes) == Ahead(w, t, queries, mutes)
  {
    OfValueOf(u);
    assert w == w[..|w| - 1] + [w[|w| - 1]];
    hide Ahead, LeafTraced, Value, OfValue, InSpace;
    TracedTop(w[..|w| - 1], w[|w| - 1], t, queries, mutes);
  }

  lemma TracedRange(lo: int, hi: int, b: Branch, t: Trace, queries: Schedule, mutes: Schedule)
    requires 0 <= lo < hi <= MAX_VALUE && b == Branch(OfValue(lo), OfValue(hi))
    ensures var mid, visited := (lo + hi) / 2, Queried(b, t, queries);
            Traced(lo, hi, t, queries, mutes)
            == if visited.ack == None then visited
               else Traced(mid + 1, hi, Traced(lo, mid, visited, queries, mutes), queries, mutes)
  {
    hide OfValue, Queried, LeafTraced;
  }

  /** After splitting an answered range, or dropping one that was not, it does too. */
  lemma AheadOfRange(w: seq<Span>, b: Branch, t: Trace, queries: Schedule, mutes: Schedule)
    requires InSpace(w) && w != [] && w[|w| - 1].lo < w[|w| - 1].hi && w[|w| - 1].height > 0
    requires w[|w| - 1].lo == Value(b.lower) && w[|w| - 1].hi == Value(b.upper)
    ensures var visited := Queried(b, t, queries);
            Ahead(if visited.ack != None then Split(w) else w[..|w| - 1], visited, queries, mutes)
            == Ahead(w, t, queries, mutes)
  {
    OfValueOf(b.lower);
    OfValueOf(b.upper);
    SplitInSpace(w);
    hide Value, OfValue, Ahead, Split, InSpace, Queried, Traced;
    var upper, lower := SplitShape(w);
    RangeAhead(w[..|w| - 1], w[|w| - 1], upper, lower, b, t, queries, mutes);
  }

  lemma RangeAhead(rest: seq<Span>, top: Span, upper: Span, lower: Span, b: Branch, t: Trace,
                   queries: Schedule, mutes: Schedule)
    requires InSpace(rest + [top]) && InSpace((rest + [upper]) + [lower]) && 0 <= top.lo < top.hi
    requires b == Branch(OfValue(top.lo), OfValue(top.hi))
    requires upper.lo == Mid(top) + 1 && upper.hi == top.hi && lower.lo == top.lo && lower.hi == Mid(top)
    ensures var visited := Queried(b, t, queries);
            Ahead(rest + [top], t, queries, mutes)
            == Ahead(if visited.ack != None then (rest + [upper]) + [lower] else rest, visited, queries, mutes)
  {
    hide OfValue, Ahead, InSpace, Queried, Traced;
    var visited := Queried(b, t, queries);
    TracedTop(rest, top, t, queries, mutes);
    TracedRange(top.lo, top.hi, b, t, queries, mutes);
    TracedTop(rest + [upper], lower, visited, queries, mutes);
    TracedTop(rest, upper, Traced(lower.lo, lower.hi, visited, queries, mutes), queries, mutes);
  }

  lemma SplitShape(w: seq<Span>) returns (upper: Span, lower: Span)
    requires w != [] && w[|w| - 1].height > 0
    ensures var rest, top := w[..|w| - 1], w[|w| - 1];
            && w == rest + [top] && Split(w) == (rest + [upper]) + [lower]
            && upper.lo == Mid(top) + 1 && upper.hi == top.hi && lower.lo == top.lo && lower.hi == Mid(top)
  {
    var top := w[|w| - 1];
    upper, lower := Span(Mid(top) + 1, top.hi, top.height - 1), Span(top.lo, Mid(top), top.height - 1);
  }

  lemma SplitInSpace(w: seq<Span>)
    requires w != [] && InSpace(w) && w[|w| - 1].height > 0 && w[|w| - 1].lo < w[|w| - 1].hi
    ensures InSpace(Split(w))
  {
    assert forall i :: 0 <= i < |w| - 1 ==> Split(w)[i] == w[i];
  }

  lemma OutcomeOfNothing(r: Run, ack: Ack)
    requires r.pending == []
    ensures Outcome(r, ack) == Trace(Progress(r.found, r.wire, r.visits), ack)
  {
  }

  lemma OutcomeOfAll(r: Run, ack: Ack)
    requires r.pending == [Span(0, MAX_VALUE, 48)]
    ensures Outcome(r, ack)
         == Traced(0, MAX_VALUE, Trace(Progress(r.found, r.wire, r.visits), ack), r.queries, r.mutes)
  {
    hide Traced;
    assert [] + [Span(0, MAX_VALUE, 48)] == r.pending;
    TracedTop([], Span(0, MAX_VALUE, 48), Trace(Progress(r.found, r.wire, r.visits), ack), r.queries, r.mutes);
  }

  lemma PendingInSpace(r: Run)
    requires r.Inv()
    ensures InSpace(r.pending)
  {
  }

  /** Visits a one-UID range: mutes its device and reports it if it acknowledges. */
  method VisitLeaf(u: Uid, wire: Wire, reported: seq<Uid>, visits: nat, mutes: Schedule, was: Ack, ghost run: Run)
    returns (found: seq<Uid>, wire': Wire, ack: Ack)
    requires run.Inv() && run.pending != []
    requires var top := run.pending[|run.pending| - 1]; top.lo == top.hi == Value(u)
    requires run.mutes == mutes && run.found == reported && run.wire == wire && run.visits == visits
    ensures run.Dropped(found, wire').Inv()
    // This is the visit of the recursion.
    ensures Outcome(run.Dropped(found, wire'), ack) == Outcome(run, was)
    // A device just reported, or heard of otherwise, is reported in place of this one exactly then.
    ensures NoiseFree(mutes) && was.Acked? && was.src != u ==>
              (found == reported + [was.src] <==> mutes(visits, 0).Unsent?)
  {
    hide Run.Inv, Targets, Fair, Genuine, NoiseFree, Value, GetsThrough, IsHeard, Ahead, MuteTries, Acknowledges;
    ack, wire' := MuteWithRetries(wire, u, visits, mutes, was);
    FairGetsThrough(mutes, visits);
    InvLeaf(run, u, ack, wire');
    found := if ack.Acked? then reported + [ack.src] else reported;
    assert forall x: Uid :: (reported + [x])[|reported|] == x;
    PendingInSpace(run);
    AheadOfLeaf(run.pending, u, Trace(Progress(reported, wire, visits), was), run.queries, mutes);
  }

  /** Visits the larger range just popped from slot n: splits it if anything answers. */
  method VisitRange(stack: array<Branch>, n: nat, wire: Wire, visits: nat, queries: Schedule, was: Ack, ghost run: Run)
    returns (stackSize: nat, ack: Ack, ghost run': Run)
    requires run.Inv() && |run.pending| == n + 1 < stack.Length == STACK_CAPACITY
    requires Mirrors(stack[..], run.pending) && run.pending[n].lo < run.pending[n].hi
    requires run.queries == queries && run.wire == wire && run.visits == visits
    modifies stack
    ensures Mirrors(stack[..], run'.pending) && |run'.pending| == stackSize && run'.Inv()
    ensures run' == run.(pending := run'.pending, cursor := run'.cursor, visits := run.visits + 1)
    ensures (run'.cursor > run.cursor && stackSize == n) || (run'.cursor == run.cursor && stackSize == n + 2)
    // The rest of the search is the rest of the recursion.
    ensures Outcome(run', ack) == Outcome(run, was)
  {
    hide Run.Inv, Audience, Fair, Genuine, Value, IsAnswered, Ahead, BranchTries;
    InvBounds(run);
    var branch := stack[n];
    ack := BranchWithRetries(wire, branch, visits, queries, was);
    PendingInSpace(run);
    AheadOfRange(run.pending, branch, Trace(Progress(run.found, wire, visits), was), queries, run.mutes);
    if ack != None {
      InvBranch(run, branch);
      PushHalves(stack, n, run.pending);
      stackSize, run' := n + 2, run.Branched();
    } else {
      InvSilent(run, branch);
      stackSize, run' := n, run.Dropped(run.found, run.wire);
    }
  }

  /** Visits the range just popped from slot n, whichever it is. */
  method Visit(stack: array<Branch>, n: nat, wire: Wire, reported: seq<Uid>, visits: nat,
               queries: Schedule, mutes: Schedule, was: Ack, ghost run: Run)
    returns (stackSize: nat, found: seq<Uid>, wire': Wire, ack: Ack, ghost run': Run)
    requires run.Inv() && |run.pending| == n + 1 <= stack.Length == STACK_CAPACITY
    requires Mirrors(stack[..], run.pending)
    requires run.queries == queries && run.mutes == mutes
    requires run.found == reported && run.wire == wire && run.visits == visits
    modifies stack
    ensures run'.Inv() && |run'.pending| == stackSize && Mirrors(stack[..], run'.pending)
    ensures run' == Run(run.before, run.hearing, queries, mutes, run'.pending, run'.cursor, found, wire', visits + 1)
    ensures (run'.cursor > run.cursor && stackSize == n) || (run'.cursor == run.cursor && stackSize == n + 2)
    ensures Outcome(run', ack) == Outcome(run, was)
  {
    hide Run.Inv, Mirrors, Outcome, Value, Genuine, NoiseFree;
    InvBounds(run);
    MirrorsTop(stack[..], run.pending);
    var branch := stack[n];
    if branch.lower == branch.upper {
      found, wire', ack := VisitLeaf(branch.lower, wire, reported, visits, mutes, was, run);
      stackSize, run' := n, run.Dropped(found, wire');
    } else {
      found, wire' := reported, wire;
      stackSize, ack, run' := VisitRange(stack, n, wire, visits, queries, was, run);
    }
  }

  /** The loop of the search, on the stack in place: ends with nothing pending and the invariant kept. */
  method Search(before: Wire, hearing: set<Uid>, queries: Schedule, mutes: Schedule, initial: Ack)
    returns (found: seq<Uid>, after: Wire, visits: nat, ghost run: Run)
    ensures run.Inv() && run.pending == []
    ensures run == Run(before, hearing, queries, mutes, [], run.cursor, found, after, visits)
    ensures Progress(found, after, visits)
         == Traced(0, MAX_VALUE, Trace(Progress([], AfterUnMute(before, hearing), 0), initial), queries, mutes).progress
  {
    var stack := new Branch[STACK_CAPACITY];
    stack[0] := Branch(Uid(0, 0), UID_MAX);
    var stackSize := 1;
    after := AfterUnMute(before, hearing);
    found, visits := [], 0;
    var ack := initial;
    hide Run.Inv, Audience, Targets, Genuine, Fair, Ascending, Mirrors, Value;
    run := Run(before, hearing, queries, mutes, [Span(0, MAX_VALUE, 48)], 0, [], after, 0);
    InvStart(before, hearing, queries, mutes);
    MirrorsStart(stack[..]);
    ghost var start := Trace(Progress([], after, 0), initial);
    hide Traced, AfterUnMute, Outcome;
    OutcomeOfAll(run, initial);
    while stackSize > 0
      invariant run.Inv() && |run.pending| == stackSize && Mirrors(stack[..], run.pending)
      invariant run == Run(before, hearing, queries, mutes, run.pending, run.cursor, found, after, visits)
      invariant Outcome(run, ack) == Traced(0, MAX_VALUE, start, queries, mutes)
      decreases 2 * (MAX_VALUE + 1 - run.cursor) + STACK_CAPACITY - stackSize
    {
      InvBounds(run);
      stackSize, found, after, ack, run := Visit(stack, stackSize - 1, after, found, visits, queries, mutes, ack, run);
      visits := visits + 1;
    }
    OutcomeOfNothing(run, ack);
  }

  /**
   * The search. Returns what the callback was given, in order, the wire as it
   * was left, and the number of ranges visited. `hearing` are the responders
   * that heard the single un-mute broadcast; the others stay as they were.
   * `initial` is what the ack holds before it is first filled in.
   */
  method Discover(before: Wire, hearing: set<Uid>, queries: Schedule, mutes: Schedule, initial: Ack)
    returns (found: seq<Uid>, after: Wire, visits: nat)
    ensures after.devices == before.devices
    // On every bus, noise and busy drivers included, the search is the recursion above, report for report.
    ensures Progress(found, after, visits)
         == Traced(0, MAX_VALUE, Trace(Progress([], AfterUnMute(before, hearing), 0), initial), queries, mutes).progress
    // If only responders answer and first attempts are sent, every one-UID range it comes to is reported exactly if
    // one of its own three attempts gets through to a device.
    ensures Genuine(queries) && Genuine(mutes) ==>
              Progress(found, after, visits)
              == Searched(0, MAX_VALUE, Progress([], AfterUnMute(before, hearing), 0), queries, mutes)
    // Whatever the bus answers, the search ends.
    ensures visits <= 2 * MAX_VALUE + 1
    // If only responders acknowledge mutes, and first attempts are sent, what is reported is there, once, in order.
    ensures Genuine(mutes) ==>
              Ascending(found) && forall u :: u in found ==> u in before.devices && !IsBroadcast(u)
    // If besides one attempt in three gets through, every device that is not deaf is reported.
    ensures Genuine(mutes) && Fair(queries) && Fair(mutes) ==>
              && (forall u :: u in before.devices - (before.muted - hearing) && !IsBroadcast(u) ==> u in found)
              && before.devices <= after.muted + {BROADCAST_ALL}
    // If besides the same holds of queries, reported are exactly the devices, deaf ones included,
    // beside which an audible device made the search split down to them.
    ensures Genuine(queries) && Genuine(mutes) && Fair(queries) && Fair(mutes) ==>
              forall u :: u in found <==>
                u in before.devices && !IsBroadcast(u) && Exposed(before.devices - (before.muted - hearing), Value(u))
    // If the same holds of queries, the visits are bounded by the devices.
    ensures Genuine(queries) ==> visits <= 1 + 96 * |before.devices - (before.muted - hearing)|
    // If besides every device is muted and missed the un-mute, nothing is found.
    ensures Genuine(queries) && before.devices <= before.muted - hearing ==> found == []
  {
    hide Run.Inv, Genuine, Fair, Ascending, Searched, Traced, AfterUnMute;
    ghost var run;
    found, after, visits, run := Search(before, hearing, queries, mutes, initial);
    if Genuine(queries) && Genuine(mutes) {
      TracedGenuine(0, MAX_VALUE, Trace(Progress([], AfterUnMute(before, hearing), 0), initial), queries, mutes);
    }
    InvDone(run);
  }

  /** The list of the devices that discovery promises: all of them, once, in ascending order. */
  ghost predicate IsRollCall(found: seq<Uid>, devices: set<Uid>) {
    && Ascending(found)
    && forall u :: u in found <==> u in devices && !IsBroadcast(u)
  }

  /** What the storing callback leaves behind when it is given `reported`, one UID at a time. */
  method StoreReported(reported: seq<Uid>, uids: array<Uid>, num: nat)
    requires num <= uids.Length
    modifies uids
    ensures var n := if num < |reported| then num else |reported|;
            uids[..] == reported[..n] + old(uids[..])[n..]
  {
    var found := 0;
    while found < |reported|
      invariant 0 <= found <= |reported|
      invariant forall i :: 0 <= i < found && i < num ==> uids[i] == reported[i]
      invariant forall i :: 0 <= i < uids.Length && (i >= found || i >= num) ==> uids[i] == old(uids[i])
    {
      if found < num {
        uids[found] := reported[found];
      }
      found := found + 1;
    }
  }

  /**
   * `rdm_discover_devices_simple`: the search, with a callback that stores the
   * first `num` UIDs it is given. The count returned may exceed `num`.
   */
  method DiscoverDevicesSimple(before: Wire, hearing: set<Uid>, queries: Schedule, mutes: Schedule,
                               initial: Ack, uids: array?<Uid>, num: nat)
    returns (count: nat, after: Wire, ghost found: seq<Uid>)
    requires uids != null ==> num <= uids.Length
    modifies uids
    ensures count == |found|
    ensures uids != null ==>
              var stored := if num < count then num else count;
              uids[..] == found[..stored] + old(uids[..])[stored..]
    ensures Genuine(mutes) && Fair(queries) && Fair(mutes) && before.devices * before.muted <= hearing ==>
              IsRollCall(found, before.devices) && before.devices <= after.muted + {BROADCAST_ALL}
  {
    hide Fair, Genuine, Ascending;
    var reported, visits;
    reported, after, visits := Discover(before, hearing, queries, mutes, initial);
    found, count := reported, |reported|;
    if uids != null {
      StoreReported(reported, uids, num);
    }
  }
}
