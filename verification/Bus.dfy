/**
 * The RDM bus as discovery sees it (section 7 of ANSI E1.20): a set of
 * responders, some of them muted, and what becomes of each request.
 *
 * The fate of every attempt at every request is drawn from a function of the
 * request's number and the attempt's number, so a statement for every such
 * function is a statement about every run.
 */
module Bus {
  import opened Uids

  /** What a request's ack says about the answer. */
  datatype Ack =
    | None                // no response was received
    | Invalid             // a response arrived, but not a readable one
    | Acked(src: Uid)     // an acknowledgement naming its sender
    | OtherResponse       // a timer, a NACK or an overflow response

  /** The responders on the wire, and those of them that are muted. */
  datatype Wire = Wire(devices: set<Uid>, muted: set<Uid>)

  /** What becomes of one attempt at one request. */
  datatype Fate =
    | Delivered(collision: Ack)           // all goes well; `collision` is what overlapping answers look like
    | Lost                                // no responder hears the request
    | ReplyLost                           // the request takes effect, the answer is not seen
    | ReplyGarbled                        // the request takes effect, the answer is unreadable
    | Noise(heard: bool, answer: Ack)     // the controller sees an answer nobody sent
    | Unsent                              // the driver stays busy: nothing is sent, the ack is left as it was

  type Schedule = (nat, nat) -> Fate

  predicate Heard(f: Fate) {
    match f
    case Lost => false
    case Unsent => false
    case Noise(heard, _) => heard
    case _ => true
  }

  /** At least one of the three attempts at each request gets through. */
  ghost predicate Fair(fate: Schedule) {
    forall r: nat :: fate(r, 0).Delivered? || fate(r, 1).Delivered? || fate(r, 2).Delivered?
  }

  /** Nobody but a responder ever answers. */
  ghost predicate NoiseFree(fate: Schedule) {
    forall r: nat, a: nat :: !fate(r, a).Noise?
  }

  /** Besides, the first attempt at each request is sent, so that no earlier ack is taken for an answer to it. */
  ghost predicate Genuine(fate: Schedule) {
    NoiseFree(fate) && forall r: nat :: !fate(r, 0).Unsent?
  }

  /** One of the three attempts at request r is delivered, and so is its answer. */
  predicate GetsThrough(fate: Schedule, r: nat) {
    fate(r, 0).Delivered? || fate(r, 1).Delivered? || fate(r, 2).Delivered?
  }

  /** One of the three attempts at request r is heard by the responders. */
  predicate IsHeard(fate: Schedule, r: nat) {
    Heard(fate(r, 0)) || Heard(fate(r, 1)) || Heard(fate(r, 2))
  }

  /** An answer to one of the three attempts at request r reaches the controller, readable or not. */
  predicate IsAnswered(fate: Schedule, r: nat) {
    GetsThrough(fate, r) || fate(r, 0).ReplyGarbled? || fate(r, 1).ReplyGarbled? || fate(r, 2).ReplyGarbled?
  }

  /** The responders that answer a DISC_UNIQUE_BRANCH request over `[lower, upper]`. */
  function Audience(w: Wire, lower: Uid, upper: Uid): set<Uid> {
    set d | d in w.devices && d !in w.muted && !IsLt(d, lower) && !IsGt(d, upper)
  }

  /** The responders a request to `dest` is addressed to. */
  function Targets(w: Wire, dest: Uid): set<Uid> {
    set d | d in w.devices && IsTarget(d, dest)
  }

  /** What the controller sees of one attempt at a branch request; `was` is what its ack said before. */
  function BranchAck(w: Wire, lower: Uid, upper: Uid, was: Ack, f: Fate): Ack {
    var audience := Audience(w, lower, upper);
    match f
    case Unsent => was
    case Lost => None
    case ReplyLost => None
    case ReplyGarbled => if audience == {} then None else Invalid
    case Noise(_, answer) => answer
    case Delivered(collision) =>
      if audience == {} then None
      else if d :| d in audience && audience == {d} then Acked(d)
      else if collision == None then Invalid
      else collision
  }

  /** The wire after one attempt at muting `dest`. */
  function AfterMute(w: Wire, dest: Uid, f: Fate): Wire {
    if Heard(f) then w.(muted := w.muted + Targets(w, dest)) else w
  }

  /**
   * What the controller sees of one attempt at muting `dest`. It does not
   * listen for an answer to a broadcast. A muted responder still answers.
   */
  function MuteAck(w: Wire, dest: Uid, was: Ack, f: Fate): Ack {
    if f.Unsent? then was
    else if IsBroadcast(dest) then None
    else
      match f
      case Lost => None
      case ReplyLost => None
      case ReplyGarbled => if dest in w.devices then Invalid else None
      case Noise(_, answer) => answer
      case Delivered(_) => if dest in w.devices then Acked(dest) else None
  }

  /** The wire after the un-mute broadcast was heard by `hearing`. */
  function AfterUnMute(w: Wire, hearing: set<Uid>): Wire {
    w.(muted := w.muted - hearing)
  }
}
