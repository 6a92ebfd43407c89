/** The URB books of a whole device (usbip/device.py handle_urb, cancel_urb, reset_io,
    the iso pacer's queue; usbip/protocol.py serve_connection). Locked sections are
    single steps, but a completion popped under a lock by write(), stall() or the
    pacer reaches the wire only when its callback runs, as a later step of its own:
    the interleavings the source allows are all here. The serve thread takes a
    request, its answer and its unlinks one at a time, so those are single steps. A seqnum stands for its URB here:
    on one connection the host keeps them distinct, and UrbSessions gives the URBs of several connections names. */
module UrbBooks {
  import opened Bytes
  import P = UrbPipe

  datatype Wire = RetSubmit(seqnum: nat) | RetUnlink(victim: nat)

  datatype Books = Books(
    pipes: seq<P.Pipe>,         // one per routed endpoint
    pacing: seq<nat>,           // seqnums queued in the iso pacer
    inFlight: seq<nat>,         // popped under a lock, callback still to run
    wire: seq<Wire>,            // replies in the order they were sent
    submitted: set<nat>,
    unlinked: set<nat>,         // taken out of a pipe or the pacer by an unlink
    dropped: set<nat>,          // parked when reset_io flushed the endpoints
    raced: set<nat>)            // in flight when their unlink was handled

  datatype Action =
    | SubmitIn(ep: nat, length: nat, seqnum: nat)
    | SubmitNow(seqnum: nat)    // control, OUT, unpaced iso, or no such endpoint
    | SubmitPaced(seqnum: nat)
    | Unlink(victim: nat)
    | Write(ep: nat, data: bytes)
    | Halt(ep: nat)
    | ClearHalt(ep: nat)
    | PaceDue(k: nat)
    | Callback(k: nat)
    | ResetIo

  function Without(s: seq<nat>, v: nat): seq<nat> {
    if s == [] then [] else (if s[0] == v then [] else [s[0]]) + Without(s[1..], v)
  }

  /** cancel_urb stops at the first endpoint that had the URB parked. */
  function CancelFirst(pipes: seq<P.Pipe>, v: nat): (r: seq<P.Pipe>)
    ensures |r| == |pipes|
  {
    if pipes == [] then []
    else if v in P.SeqnumsOf(pipes[0].parked) then
      [pipes[0].(parked := P.Remove(pipes[0].parked, v))] + pipes[1..]
    else [pipes[0]] + CancelFirst(pipes[1..], v)
  }

  /** How many parked entries carry this seqnum, over all the endpoints. */
  function ParkedCount(pipes: seq<P.Pipe>, s: nat): nat {
    if pipes == [] then 0 else Count(P.SeqnumsOf(pipes[0].parked), s) + ParkedCount(pipes[1..], s)
  }

  function Count(xs: seq<nat>, s: nat): nat {
    if xs == [] then 0 else (if xs[0] == s then 1 else 0) + Count(xs[1..], s)
  }

  function ParkedSet(pipes: seq<P.Pipe>): set<nat> {
    if pipes == [] then {} else P.Elements(P.SeqnumsOf(pipes[0].parked)) + ParkedSet(pipes[1..])
  }

  function Flushed(pipes: seq<P.Pipe>): (r: seq<P.Pipe>)
    ensures |r| == |pipes|
  {
    if pipes == [] then [] else [P.EMPTY] + Flushed(pipes[1..])
  }

  function AnswerCount(wire: seq<Wire>, s: nat): nat {
    if wire == [] then 0
    else AnswerCount(wire[..|wire| - 1], s) + (if wire[|wire| - 1] == RetSubmit(s) then 1 else 0)
  }

  function Start(endpoints: nat): Books {
    Books(seq(endpoints, i => P.EMPTY), [], [], [], {}, {}, {}, {})
  }

  /** A new URB's seqnum has been neither submitted nor named by an unlink before. */
  predicate Fresh(b: Books, seqnum: nat) {
    seqnum !in b.submitted && RetUnlink(seqnum) !in b.wire
  }

  /** In a pipe or in the pacer: what an unlink can still take back. */
  function Waiting(b: Books, s: nat): nat {
    ParkedCount(b.pipes, s) + Count(b.pacing, s)
  }

  predicate Enabled(b: Books, a: Action) {
    match a
    case SubmitIn(ep, length, seqnum) => ep < |b.pipes| && Fresh(b, seqnum)
    case SubmitNow(seqnum) => Fresh(b, seqnum)
    case SubmitPaced(seqnum) => Fresh(b, seqnum)
    case Unlink(victim) => true
    case Write(ep, data) => ep < |b.pipes|
    case Halt(ep) => ep < |b.pipes|
    case ClearHalt(ep) => ep < |b.pipes|
    case PaceDue(k) => k < |b.pacing|
    case Callback(k) => k < |b.inFlight|
    case ResetIo => true
  }

  /** A disabled action changes nothing, so a run is any legal run with idle steps. */
  function Step(b: Books, a: Action): Books {
    if !Enabled(b, a) then b else
    match a
    case SubmitIn(ep, length, seqnum) =>
      var (p', rs) := P.Submit(b.pipes[ep], length, seqnum);
      b.(pipes := b.pipes[ep := p'], submitted := b.submitted + {seqnum},
         wire := b.wire + (if rs == [] then [] else [RetSubmit(seqnum)]))
    case SubmitNow(seqnum) =>
      b.(submitted := b.submitted + {seqnum}, wire := b.wire + [RetSubmit(seqnum)])
    case SubmitPaced(seqnum) =>
      b.(submitted := b.submitted + {seqnum}, pacing := b.pacing + [seqnum])
    case Unlink(victim) =>
      var found := Waiting(b, victim) > 0;
      b.(pacing := Without(b.pacing, victim), pipes := CancelFirst(b.pipes, victim),
         unlinked := b.unlinked + (if found then {victim} else {}),
         raced := b.raced + (if Count(b.inFlight, victim) > 0 then {victim} else {}),
         wire := b.wire + [RetUnlink(victim)])
    case Write(ep, data) =>
      var (p', rs) := P.Write(b.pipes[ep], data);
      b.(pipes := b.pipes[ep := p'], inFlight := b.inFlight + P.RepliedTo(rs))
    case Halt(ep) =>
      var (p', rs) := P.Stall(b.pipes[ep]);
      b.(pipes := b.pipes[ep := p'], inFlight := b.inFlight + P.RepliedTo(rs))
    case ClearHalt(ep) =>
      b.(pipes := b.pipes[ep := b.pipes[ep].(halted := false)])
    case PaceDue(k) =>
      b.(pacing := b.pacing[..k] + b.pacing[k + 1..], inFlight := b.inFlight + [b.pacing[k]])
    case Callback(k) =>
      b.(inFlight := b.inFlight[..k] + b.inFlight[k + 1..], wire := b.wire + [RetSubmit(b.inFlight[k])])
    case ResetIo =>   // the pacer's queue is not flushed
      b.(pipes := Flushed(b.pipes), dropped := b.dropped + ParkedSet(b.pipes))
  }

  function After(endpoints: nat, run: seq<Action>): Books {
    if run == [] then Start(endpoints)
    else Step(After(endpoints, run[..|run| - 1]), run[|run| - 1])
  }

  // ---- every URB has exactly one fate ---------------------------------------

  /** How many of the six places hold the URB, duplicates counted. */
  function Places(b: Books, s: nat): nat {
    AnswerCount(b.wire, s) + ParkedCount(b.pipes, s) + Count(b.pacing, s) + Count(b.inFlight, s)
    + (if s in b.unlinked then 1 else 0) + (if s in b.dropped then 1 else 0)
  }

  ghost predicate OneFateEach(b: Books) {
    forall s: nat :: Places(b, s) == if s in b.submitted then 1 else 0
  }

  lemma {:induction false} CountAppend(a: seq<nat>, b: seq<nat>, s: nat)
    ensures Count(a + b, s) == Count(a, s) + Count(b, s)
  {
    if a == [] {
      assert a + b == b;
    } else {
      CountAppend(a[1..], b, s);
      assert (a + b)[1..] == a[1..] + b;
    }
  }

  lemma {:induction false} CountIn(a: seq<nat>, s: nat)
    ensures s in a <==> Count(a, s) > 0
  {
    if a != [] {
      CountIn(a[1..], s);
    }
  }

  lemma CountRemoveAt(a: seq<nat>, k: nat, s: nat)
    requires k < |a|
    ensures Count(a[..k] + a[k + 1..], s) == Count(a, s) - (if a[k] == s then 1 else 0)
    ensures Count(a, s) >= (if a[k] == s then 1 else 0)
  {
    CountAppend(a[..k], a[k + 1..], s);
    CountAppend(a[..k], a[k..], s);
    assert a == a[..k] + a[k..];
    assert a[k..][1..] == a[k + 1..];
  }

  lemma {:induction false} CountWithout(a: seq<nat>, v: nat, s: nat)
    ensures Count(Without(a, v), s) == if s == v then 0 else Count(a, s)
  {
    if a != [] {
      CountWithout(a[1..], v, s);
      CountAppend(if a[0] == v then [] else [a[0]], Without(a[1..], v), s);
    }
  }

  lemma {:induction false} ParkedUpdate(pipes: seq<P.Pipe>, i: nat, p': P.Pipe, s: nat)
    requires i < |pipes|
    ensures ParkedCount(pipes[i := p'], s) + Count(P.SeqnumsOf(pipes[i].parked), s)
         == ParkedCount(pipes, s) + Count(P.SeqnumsOf(p'.parked), s)
  {
    if i > 0 {
      ParkedUpdate(pipes[1..], i - 1, p', s);
      assert pipes[i := p'][1..] == pipes[1..][i - 1 := p'];
    } else {
      assert pipes[0 := p'][1..] == pipes[1..];
    }
  }

  lemma {:induction false} ParkedIn(pipes: seq<P.Pipe>, s: nat)
    ensures s in ParkedSet(pipes) <==> ParkedCount(pipes, s) > 0
  {
    if pipes != [] {
      ParkedIn(pipes[1..], s);
      CountIn(P.SeqnumsOf(pipes[0].parked), s);
    }
  }

  lemma {:induction false} RemoveCount(parked: seq<P.Parked>, v: nat, s: nat)
    requires v in P.SeqnumsOf(parked)
    ensures Count(P.SeqnumsOf(P.Remove(parked, v)), s)
         == Count(P.SeqnumsOf(parked), s) - (if s == v then 1 else 0)
  {
    var xs := P.SeqnumsOf(parked);
    assert xs[1..] == P.SeqnumsOf(parked[1..]);
    CountIn(xs, v);
    if parked[0].seqnum != v {
      assert v in xs[1..];
      RemoveCount(parked[1..], v, s);
      var rest := P.Remove(parked[1..], v);
      assert P.SeqnumsOf([parked[0]] + rest)[1..] == P.SeqnumsOf(rest);
    }
  }

  lemma {:induction false} CancelCount(pipes: seq<P.Pipe>, v: nat, s: nat)
    ensures ParkedCount(CancelFirst(pipes, v), s)
         == ParkedCount(pipes, s) - (if s == v && ParkedCount(pipes, v) > 0 then 1 else 0)
  {
    if pipes != [] {
      CountIn(P.SeqnumsOf(pipes[0].parked), v);
      if v in P.SeqnumsOf(pipes[0].parked) {
        RemoveCount(pipes[0].parked, v, s);
      } else {
        CancelCount(pipes[1..], v, s);
      }
    }
  }

  lemma {:induction false} FlushedParksNothing(pipes: seq<P.Pipe>, s: nat)
    ensures ParkedCount(Flushed(pipes), s) == 0
  {
    if pipes != [] {
      FlushedParksNothing(pipes[1..], s);
    }
  }

  lemma {:induction false} NothingParkedAtStart(n: nat, s: nat)
    ensures ParkedCount(seq(n, i => P.EMPTY), s) == 0
  {
    if n > 0 {
      NothingParkedAtStart(n - 1, s);
      assert seq(n, i => P.EMPTY)[1..] == seq(n - 1, i => P.EMPTY);
    }
  }

  lemma AnswerSnoc(wire: seq<Wire>, w: Wire, s: nat)
    ensures AnswerCount(wire + [w], s) == AnswerCount(wire, s) + (if w == RetSubmit(s) then 1 else 0)
  {
    assert (wire + [w])[..|wire|] == wire;
  }

  /** What one locked section pops from an endpoint: answers to the URBs parked first. */
  function Popped(b: Books, a: Action): seq<nat>
    requires Enabled(b, a) && (a.Write? || a.Halt?)
  {
    if a.Write? then P.RepliedTo(P.Write(b.pipes[a.ep], a.data).1)
    else P.RepliedTo(P.Stall(b.pipes[a.ep]).1)
  }

  lemma PoppedWasParked(b: Books, a: Action)
    requires Enabled(b, a) && (a.Write? || a.Halt?)
    ensures Popped(b, a) + P.SeqnumsOf(Step(b, a).pipes[a.ep].parked) == P.SeqnumsOf(b.pipes[a.ep].parked)
  {
    var p := b.pipes[a.ep];
    if a.Write? {
      P.DrainAnswersInOrder(p.(q := p.q + [a.data]));
    } else {
      P.StallsCarryNoData(p.parked);
      assert P.SeqnumsOf(P.Stall(p).0.parked) == [];
    }
  }

  lemma PopMoves(b: Books, a: Action, s: nat)
    requires Enabled(b, a) && (a.Write? || a.Halt?)
    ensures Count(Step(b, a).inFlight, s) == Count(b.inFlight, s) + Count(Popped(b, a), s)
    ensures ParkedCount(Step(b, a).pipes, s) == ParkedCount(b.pipes, s) - Count(Popped(b, a), s)
  {
    PoppedWasParked(b, a);
    ParkedUpdate(b.pipes, a.ep, Step(b, a).pipes[a.ep], s);
    CountAppend(b.inFlight, Popped(b, a), s);
    CountAppend(Popped(b, a), P.SeqnumsOf(Step(b, a).pipes[a.ep].parked), s);
  }

  lemma SubmitInPlaces(b: Books, ep: nat, length: nat, seqnum: nat, s: nat)
    requires ep < |b.pipes| && Fresh(b, seqnum)
    ensures var b' := Step(b, SubmitIn(ep, length, seqnum));
      && ParkedCount(b'.pipes, s) + AnswerCount(b'.wire, s)
         == ParkedCount(b.pipes, s) + AnswerCount(b.wire, s) + (if s == seqnum then 1 else 0)
      && (b'.wire == b.wire || (b'.wire == b.wire + [RetSubmit(seqnum)]
          && ParkedCount(b'.pipes, s) == ParkedCount(b.pipes, s)))
  {
    var p := b.pipes[ep];
    var (p', rs) := P.Submit(p, length, seqnum);
    ParkedUpdate(b.pipes, ep, p', s);
    if rs == [] {
      assert P.SeqnumsOf(p'.parked) == P.SeqnumsOf(p.parked) + [seqnum];
      CountAppend(P.SeqnumsOf(p.parked), [seqnum], s);
      assert b.wire + [] == b.wire;
    } else {
      assert P.SeqnumsOf(p'.parked) == P.SeqnumsOf(p.parked);
      AnswerSnoc(b.wire, RetSubmit(seqnum), s);
    }
  }

  lemma UnlinkPlaces(b: Books, victim: nat, s: nat)
    requires Places(b, victim) <= 1
    ensures Places(Step(b, Unlink(victim)), s) == Places(b, s)
  {
    CountWithout(b.pacing, victim, s);
    CancelCount(b.pipes, victim, s);
    AnswerSnoc(b.wire, RetUnlink(victim), s);
  }

  lemma SubmitPlaces(b: Books, a: Action, s: nat)
    requires Enabled(b, a) && (a.SubmitIn? || a.SubmitNow? || a.SubmitPaced?)
    ensures Places(Step(b, a), s) == Places(b, s) + (if s == a.seqnum then 1 else 0)
  {
    match a {
      case SubmitIn(ep, length, seqnum) => SubmitInPlaces(b, ep, length, seqnum, s);
      case SubmitNow(seqnum) => AnswerSnoc(b.wire, RetSubmit(seqnum), s);
      case SubmitPaced(seqnum) => CountAppend(b.pacing, [seqnum], s);
    }
  }

  lemma MovePlaces(b: Books, a: Action, s: nat)
    requires Enabled(b, a) && (a.Write? || a.Halt? || a.ClearHalt? || a.PaceDue? || a.Callback?)
    ensures Places(Step(b, a), s) == Places(b, s)
  {
    match a {
      case ClearHalt(ep) => ParkedUpdate(b.pipes, ep, b.pipes[ep].(halted := false), s);
      case PaceDue(k) =>
        CountRemoveAt(b.pacing, k, s);
        CountAppend(b.inFlight, [b.pacing[k]], s);
      case Callback(k) =>
        CountRemoveAt(b.inFlight, k, s);
        AnswerSnoc(b.wire, RetSubmit(b.inFlight[k]), s);
      case _ => PopMoves(b, a, s);
    }
  }

  lemma ResetPlaces(b: Books, s: nat)
    requires Places(b, s) <= 1
    ensures Places(Step(b, ResetIo), s) == Places(b, s)
  {
    FlushedParksNothing(b.pipes, s);
    ParkedIn(b.pipes, s);
  }

  lemma StepPlaces(b: Books, a: Action, s: nat)
    requires OneFateEach(b)
    ensures Places(Step(b, a), s) == if s in Step(b, a).submitted then 1 else 0
  {
    assert Places(b, s) == if s in b.submitted then 1 else 0;
    if Enabled(b, a) {
      if a.SubmitIn? || a.SubmitNow? || a.SubmitPaced? {
        SubmitPlaces(b, a, s);
      } else if a.Unlink? {
        assert Places(b, a.victim) <= 1;
        UnlinkPlaces(b, a.victim, s);
      } else if a.ResetIo? {
        ResetPlaces(b, s);
      } else {
        MovePlaces(b, a, s);
      }
    }
  }

  /** Over every run, in any interleaving of callbacks, each submitted URB is in exactly
      one of answered, parked, pacing, in flight, unlinked or dropped, and no other
      seqnum is anywhere; in particular no seqnum gets two RET_SUBMITs. */
  lemma {:induction false} EveryUrbHasOneFate(endpoints: nat, run: seq<Action>)
    ensures OneFateEach(After(endpoints, run))
    ensures forall s: nat :: AnswerCount(After(endpoints, run).wire, s) <= 1
  {
    var b := After(endpoints, run);
    if run == [] {
      forall s: nat ensures Places(b, s) == 0 {
        NothingParkedAtStart(endpoints, s);
      }
    } else {
      EveryUrbHasOneFate(endpoints, run[..|run| - 1]);
      forall s: nat ensures Places(b, s) == if s in b.submitted then 1 else 0 {
        StepPlaces(After(endpoints, run[..|run| - 1]), run[|run| - 1], s);
      }
    }
    forall s: nat ensures AnswerCount(b.wire, s) <= 1 {
      assert Places(b, s) <= 1;
    }
  }

  // ---- replies after an unlink -------------------------------------------------

  /** The seqnum is answered on the wire after its unlink was acknowledged. */
  ghost predicate Late(wire: seq<Wire>, s: nat) {
    exists i, j :: 0 <= i < j < |wire| && wire[i] == RetUnlink(s) && wire[j] == RetSubmit(s)
  }

  /** For one seqnum: an unlinked URB no longer waits, one in flight after its unlink is
      marked `raced`, and `raced` tells exactly the late replies. */
  ghost predicate UnlinkHonoured(b: Books, s: nat) {
    && (RetUnlink(s) in b.wire ==> Waiting(b, s) == 0)
    && (s in b.raced ==> RetUnlink(s) in b.wire)
    && (Count(b.inFlight, s) > 0 && RetUnlink(s) in b.wire ==> s in b.raced)
    && (Late(b.wire, s) <==> s in b.raced && Count(b.inFlight, s) == 0)
  }

  lemma LateSnoc(wire: seq<Wire>, w: Wire, s: nat)
    ensures Late(wire + [w], s) <==> Late(wire, s) || (w == RetSubmit(s) && RetUnlink(s) in wire)
  {
    var wire' := wire + [w];
    if Late(wire, s) {
      var i, j :| 0 <= i < j < |wire| && wire[i] == RetUnlink(s) && wire[j] == RetSubmit(s);
      assert wire'[i] == RetUnlink(s) && wire'[j] == RetSubmit(s);
    }
    if w == RetSubmit(s) && RetUnlink(s) in wire {
      var i :| 0 <= i < |wire| && wire[i] == RetUnlink(s);
      assert wire'[i] == RetUnlink(s) && wire'[|wire|] == RetSubmit(s);
    }
    if Late(wire', s) {
      var i, j :| 0 <= i < j < |wire'| && wire'[i] == RetUnlink(s) && wire'[j] == RetSubmit(s);
      if j < |wire| {
        assert wire[i] == RetUnlink(s) && wire[j] == RetSubmit(s);
      } else {
        assert wire[i] == RetUnlink(s);
      }
    }
  }

  /** Handling an unlink marks as raced exactly the URB whose callback can still follow it. */
  lemma UnlinkStep(b: Books, victim: nat, s: nat)
    requires OneFateEach(b) && UnlinkHonoured(b, s)
    ensures UnlinkHonoured(Step(b, Unlink(victim)), s)
  {
    CountWithout(b.pacing, victim, s);
    CancelCount(b.pipes, victim, s);
    assert Places(b, s) <= 1;
    LateSnoc(b.wire, RetUnlink(victim), s);
  }

  lemma SubmitStep(b: Books, a: Action, s: nat)
    requires OneFateEach(b) && UnlinkHonoured(b, s)
    requires Enabled(b, a) && (a.SubmitIn? || a.SubmitNow? || a.SubmitPaced?)
    ensures UnlinkHonoured(Step(b, a), s)
  {
    LateSnoc(b.wire, RetSubmit(a.seqnum), s);
    if a.SubmitIn? {
      SubmitInPlaces(b, a.ep, a.length, a.seqnum, s);
      AnswerSnoc(b.wire, RetSubmit(a.seqnum), s);
    } else if a.SubmitPaced? {
      CountAppend(b.pacing, [a.seqnum], s);
    }
  }

  lemma PopStep(b: Books, a: Action, s: nat)
    requires OneFateEach(b) && UnlinkHonoured(b, s)
    requires Enabled(b, a) && (a.Write? || a.Halt? || a.ClearHalt? || a.PaceDue? || a.ResetIo?)
    ensures UnlinkHonoured(Step(b, a), s)
  {
    match a {
      case ClearHalt(ep) => ParkedUpdate(b.pipes, ep, b.pipes[ep].(halted := false), s);
      case PaceDue(k) =>
        CountRemoveAt(b.pacing, k, s);
        CountAppend(b.inFlight, [b.pacing[k]], s);
      case ResetIo => FlushedParksNothing(b.pipes, s);
      case _ => PopMoves(b, a, s);
    }
    assert Places(b, s) <= 1;
  }

  lemma CallbackStep(b: Books, k: nat, s: nat)
    requires OneFateEach(b) && UnlinkHonoured(b, s) && k < |b.inFlight|
    ensures UnlinkHonoured(Step(b, Callback(k)), s)
  {
    assert Places(b, s) <= 1;
    CountRemoveAt(b.inFlight, k, s);
    LateSnoc(b.wire, RetSubmit(b.inFlight[k]), s);
  }

  lemma StepHonours(b: Books, a: Action, s: nat)
    requires OneFateEach(b) && UnlinkHonoured(b, s)
    ensures UnlinkHonoured(Step(b, a), s)
  {
    if Enabled(b, a) {
      match a {
        case SubmitIn(_, _, _) => SubmitStep(b, a, s);
        case SubmitNow(_) => SubmitStep(b, a, s);
        case SubmitPaced(_) => SubmitStep(b, a, s);
        case Unlink(victim) => UnlinkStep(b, victim, s);
        case Callback(k) => CallbackStep(b, k, s);
        case _ => PopStep(b, a, s);
      }
    }
  }

  /** The exact race: over every run a URB is answered after its unlink if and only if
      it was in flight when the unlink was handled and its callback has run since. */
  lemma {:induction false} LateExactlyWhenRaced(endpoints: nat, run: seq<Action>, s: nat)
    ensures UnlinkHonoured(After(endpoints, run), s)
    ensures var b := After(endpoints, run); Late(b.wire, s) <==> s in b.raced && s !in b.inFlight
  {
    var b := After(endpoints, run);
    if run == [] {
      NothingParkedAtStart(endpoints, s);
    } else {
      LateExactlyWhenRaced(endpoints, run[..|run| - 1], s);
      EveryUrbHasOneFate(endpoints, run[..|run| - 1]);
      StepHonours(After(endpoints, run[..|run| - 1]), run[|run| - 1], s);
    }
    CountIn(b.inFlight, s);
  }

  /** Pop and callback taken as one step: nothing is in flight when an unlink is handled. */
  ghost predicate CallbacksAtomic(endpoints: nat, run: seq<Action>) {
    run == [] || (CallbacksAtomic(endpoints, run[..|run| - 1])
                  && (run[|run| - 1].Unlink? ==> After(endpoints, run[..|run| - 1]).inFlight == []))
  }

  lemma {:induction false} NothingRaces(endpoints: nat, run: seq<Action>)
    requires CallbacksAtomic(endpoints, run)
    ensures After(endpoints, run).raced == {}
  {
    if run != [] {
      NothingRaces(endpoints, run[..|run| - 1]);
    }
  }

  /** With pop and callback atomic no RET_SUBMIT follows the RET_UNLINK of its URB. */
  lemma NoReplyAfterUnlink(endpoints: nat, run: seq<Action>, s: nat)
    requires CallbacksAtomic(endpoints, run)
    ensures !Late(After(endpoints, run).wire, s)
  {
    NothingRaces(endpoints, run);
    LateExactlyWhenRaced(endpoints, run, s);
  }

  /** The race is real: a read parks, data arrives, the unlink is acknowledged, and only
      then does the popped completion's callback run. */
  lemma LateReplyHappens() returns (run: seq<Action>)
    ensures Late(After(1, run).wire, 5)
  {
    var a1, a2, a3, a4 := SubmitIn(0, 8, 5), Write(0, [1]), Unlink(5), Callback(0);
    run := [a1, a2, a3, a4];
    assert run[..3] == [a1, a2, a3] && [a1, a2, a3][..2] == [a1, a2] && [a1, a2][..1] == [a1];
    assert [a1][..0] == [];
    var b2 := ParkThenWrite();
    assert After(1, []) == Start(1);
    assert After(1, [a1]) == Step(Start(1), a1);
    assert After(1, [a1, a2]) == Step(Step(Start(1), a1), a2);
    assert b2 == After(1, [a1, a2]);
    var b3 := Step(b2, a3);
    assert b3 == After(1, [a1, a2, a3]);
    assert b3.wire == [RetUnlink(5)] && b3.inFlight == [5];
    var b4 := Step(b3, a4);
    assert b4 == After(1, run);
    assert b4.wire[0] == RetUnlink(5) && b4.wire[1] == RetSubmit(5);
  }

  lemma ParkThenWrite() returns (b: Books)
    ensures b == Step(Step(Start(1), SubmitIn(0, 8, 5)), Write(0, [1]))
    ensures b.inFlight == [5] && b.wire == [] && |b.pipes| == 1
  {
    var b1 := Step(Start(1), SubmitIn(0, 8, 5));
    assert b1.pipes[0] == P.Pipe([], [P.Parked(8, 5)], false);
    assert b1.wire == [] && b1.inFlight == [];
    b := Step(b1, Write(0, [1]));
    DrainOne([1], 8, 5);
    assert [] + [[1]] == [[1]];
    assert P.RepliedTo([P.Reply(5, 0, [1])]) == [5];
  }

  lemma DrainOne(blob: bytes, length: nat, seqnum: nat)
    requires |blob| <= length
    ensures P.Drain(P.Pipe([blob], [P.Parked(length, seqnum)], false))
         == (P.EMPTY, [P.Reply(seqnum, 0, blob)])
  {
    var p := P.Pipe([blob], [P.Parked(length, seqnum)], false);
    assert p.q[1..] == [] && p.parked[1..] == [];
    assert [] + p.q[1..] == [];
    assert P.Drain(P.EMPTY) == (P.EMPTY, []);
    assert [P.Reply(seqnum, 0, blob)] + [] == [P.Reply(seqnum, 0, blob)];
  }
}
