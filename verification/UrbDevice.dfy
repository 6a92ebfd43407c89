/** The device object above its endpoints and its pacer: URBs in, replies on the wire, and the books it
    keeps of them (usbip/device.py handle_urb, cancel_urb, reset_io; usbip/protocol.py serve_connection). */
module UrbDevice {
  import opened Bytes
  import opened UrbPipe
  import opened Endpoints
  import B = UrbBooks
  import I = IsoPacing

  const NO_DEVICE: int := -19

  /** A submitted URB; `packets` counts its isochronous descriptors, if it came with any. */
  datatype Urb = Urb(ep: nat, direction: nat, length: nat, seqnum: nat, buffer: bytes, packets: Option<nat>)

  datatype Answer = Answer(status: int, actual: nat, data: bytes)

  const STALLED := Answer(STALL_STATUS, 0, [])

  /** What handle_urb does with a URB, by the state of the endpoint it is routed to. */
  datatype Branch = Control | NoEndpoint | Halted | Isochronous | Inbound | Outbound

  /** The pacer's completions, by seqnum. */
  function Paced(queue: seq<I.Entry>): (r: seq<nat>)
    ensures |r| == |queue|
    ensures forall i :: 0 <= i < |r| ==> r[i] == queue[i].seqnum
  {
    seq(|queue|, i requires 0 <= i < |queue| => queue[i].seqnum)
  }

  /** What a queue gives a URB that asks for `length` bytes: part of its front blob, or nothing yet. */
  function Fetched(q: seq<bytes>, length: nat): Option<Answer> {
    if q == [] then None else Some(Answer(0, |Head(length, q[0])|, Head(length, q[0])))
  }

  lemma {:induction false} PacedWithout(queue: seq<I.Entry>, victim: nat)
    ensures Paced(I.KeepOthers(queue, victim)) == B.Without(Paced(queue), victim)
  {
    if queue != [] {
      PacedWithout(queue[1..], victim);
      assert Paced(queue)[1..] == Paced(queue[1..]);
    }
  }

  lemma PacedTake(queue: seq<I.Entry>, k: nat)
    requires k < |queue|
    ensures Paced(queue[..k] + queue[k + 1..]) == Paced(queue)[..k] + Paced(queue)[k + 1..]
  {
  }

  class Device {
    const endpoints: seq<Endpoint>
    /** `_ep_map`: where a (number, direction) is routed. */
    const routes: map<(nat, nat), nat>
    const pace: I.PaceQueue
    const isoPaced: bool
    /** Completions taken from an endpoint or the pacer whose callback has still to run. */
    var inFlight: seq<nat>
    var wire: seq<B.Wire>
    var now: nat
    ghost var submitted: set<nat>
    ghost var unlinked: set<nat>
    ghost var dropped: set<nat>
    ghost var raced: set<nat>
    ghost var run: seq<B.Action>
    ghost var paceRun: seq<I.Event>

    ghost function Pipes(): (ps: seq<Pipe>)
      reads this, endpoints
      ensures |ps| == |endpoints|
      ensures forall i :: 0 <= i < |endpoints| ==> ps[i] == endpoints[i].State()
    {
      seq(|endpoints|, i requires 0 <= i < |endpoints| reads this, endpoints => endpoints[i].State())
    }

    ghost function Value(): B.Books
      reads this, endpoints, pace
    {
      B.Books(Pipes(), Paced(pace.queue), inFlight, wire, submitted, unlinked, dropped, raced)
    }

    ghost predicate EndpointsValid()
      reads this, endpoints
    {
      && (forall i, j :: 0 <= i < j < |endpoints| ==> endpoints[i] != endpoints[j])
      && (forall i :: 0 <= i < |endpoints| ==> endpoints[i].Valid())
      && (forall key :: key in routes ==> routes[key] < |endpoints|)
    }

    /** The pacer is where its own run leads, one clock per endpoint. */
    ghost predicate PacerValid()
      reads this, pace
    {
      |pace.frames| == |pace.deadlines| == |endpoints| && pace.State(now) == I.Run(pace.frames, 0, paceRun)
    }

    /** The device is where its run of actions leads: every theorem about B.After is about this object,
        and every theorem about I.Run about its pacer. */
    ghost predicate Valid()
      reads this, endpoints, pace
    {
      EndpointsValid() && PacerValid() && Value() == B.After(|endpoints|, run)
    }

    constructor (endpoints: seq<Endpoint>, routes: map<(nat, nat), nat>, intervals: seq<nat>, speed: nat,
                 isoPaced: bool)
      requires forall i, j :: 0 <= i < j < |endpoints| ==> endpoints[i] != endpoints[j]
      requires forall i :: 0 <= i < |endpoints| ==> endpoints[i].Valid() && endpoints[i].State() == EMPTY
      requires forall key :: key in routes ==> routes[key] < |endpoints|
      requires |intervals| == |endpoints|
      ensures Valid() && this.endpoints == endpoints && this.routes == routes && this.isoPaced == isoPaced
      ensures run == [] && paceRun == [] && fresh(pace)
      ensures forall i :: 0 <= i < |endpoints| ==> pace.frames[i] == I.FrameMicros(intervals[i], speed)
    {
      this.endpoints, this.routes, this.isoPaced := endpoints, routes, isoPaced;
      pace := new I.PaceQueue(intervals, speed);
      inFlight, wire, now := [], [], 0;
      submitted, unlinked, dropped, raced, run, paceRun := {}, {}, {}, {}, [], [];
      new;
      assert Pipes() == B.Start(|endpoints|).pipes;
    }

    twostate lemma OneEndpointChanged(k: nat)
      requires k < |endpoints|
      requires forall i :: 0 <= i < |endpoints| && i != k ==> endpoints[i].State() == old(endpoints[i].State())
      ensures Pipes() == old(Pipes())[k := endpoints[k].State()]
    {
    }

    /** One action appended to the run. */
    ghost method Record(action: B.Action, before: B.Books)
      requires EndpointsValid() && PacerValid()
      requires before == B.After(|endpoints|, run) && Value() == B.Step(before, action)
      modifies `run
      ensures Valid() && run == old(run) + [action]
    {
      run := run + [action];
      assert run[..|run| - 1] == old(run);
    }

    /** One event appended to the pacer's run. */
    ghost method RecordPace(event: I.Event, before: I.Pacer)
      requires |pace.frames| == |pace.deadlines| == |endpoints| && before.frames == pace.frames
      requires |before.frames| == |before.deadlines|
      requires before == I.Run(pace.frames, 0, paceRun) && pace.State(now) == I.Step(before, event)
      modifies `paceRun
      ensures PacerValid() && paceRun == old(paceRun) + [event]
    {
      paceRun := paceRun + [event];
      assert paceRun[..|paceRun| - 1] == old(paceRun);
    }

    ghost function BranchOf(u: Urb): Branch
      requires EndpointsValid()
      reads this, endpoints
    {
      if u.ep == 0 then Control
      else if (u.ep, u.direction) !in routes then NoEndpoint
      else
        var e := endpoints[routes[(u.ep, u.direction)]];
        if e.halted then Halted
        else if e.iso && u.packets.Some? then Isochronous
        else if u.direction == IN then Inbound
        else Outbound
    }

    ghost function ActionOf(u: Urb): B.Action
      requires EndpointsValid()
      reads this, endpoints
    {
      match BranchOf(u)
      case Isochronous => if isoPaced then B.SubmitPaced(u.seqnum) else B.SubmitNow(u.seqnum)
      case Inbound =>
        var k := routes[(u.ep, u.direction)];
        B.SubmitIn(k, if u.length == 0 then endpoints[k].mps else u.length, u.seqnum)
      case _ => B.SubmitNow(u.seqnum)
    }

    /** Branch by branch, what the URB is answered with; None when the answer comes later. `hook` is what
        the class's own callback gave. */
    ghost function AnswerOf(u: Urb, hook: Answer): Option<Answer>
      requires EndpointsValid()
      reads this, endpoints
    {
      match BranchOf(u)
      case Control => Some(hook)
      case NoEndpoint => Some(Answer(NO_DEVICE, 0, []))
      case Halted => Some(STALLED)
      case Isochronous =>
        if isoPaced then None
        else if u.direction == IN then Some(Answer(0, |hook.data|, hook.data))
        else Some(Answer(0, 0, []))
      case Inbound =>
        var e := endpoints[routes[(u.ep, u.direction)]];
        Fetched(e.q, if u.length == 0 then e.mps else u.length)
      case Outbound => if hook.status == STALL_STATUS then Some(STALLED) else Some(Answer(0, |u.buffer|, []))
    }

    /** The answer of a routed IN URB carries no more than was asked for, the packet size standing in for a
        length of 0; and only a URB waiting for data or for its deadline goes without one. */
    lemma AnswersFit(u: Urb, hook: Answer)
      requires EndpointsValid()
      ensures var a, b := AnswerOf(u, hook), BranchOf(u);
              && (b == Inbound && a.Some? ==>
                    var e := endpoints[routes[(u.ep, u.direction)]];
                    && a.value.status == 0 && a.value.actual == |a.value.data|
                    && (u.length > 0 ==> a.value.actual <= u.length)
                    && (u.length == 0 && e.mps > 0 ==> a.value.actual <= e.mps))
              && (a.None? <==>
                    || (b == Isochronous && isoPaced)
                    || (b == Inbound && endpoints[routes[(u.ep, u.direction)]].q == []))
    {
    }

    /** The URB is for an endpoint the device routes, and that is halted. */
    ghost predicate ForHalted(u: Urb)
      requires EndpointsValid()
      reads this, endpoints
    {
      u.ep != 0 && (u.ep, u.direction) in routes && endpoints[routes[(u.ep, u.direction)]].halted
    }

    /** For an endpoint it routes, and that is not halted; with isochronous packets for an isochronous one, or not. */
    ghost predicate ForRunning(u: Urb, isochronous: bool)
      requires EndpointsValid()
      reads this, endpoints
    {
      && u.ep != 0 && (u.ep, u.direction) in routes
      && var e := endpoints[routes[(u.ep, u.direction)]];
         !e.halted && (isochronous <==> e.iso && u.packets.Some?)
    }

    /** While an endpoint is halted every URB for it is answered with a stall and no data, whatever its direction
        and kind; and that is all that becomes of it. */
    lemma HaltedStalls(u: Urb, hook: Answer)
      requires EndpointsValid() && ForHalted(u)
      ensures AnswerOf(u, hook) == Some(Answer(-32, 0, [])) && ActionOf(u) == B.SubmitNow(u.seqnum)
    {
    }

    /** An OUT URB a class accepts is answered as taken whole; one it stalls, with a stall. */
    lemma OutIsAnswered(u: Urb, hook: Answer)
      requires EndpointsValid() && ForRunning(u, false) && u.direction != IN
      ensures ActionOf(u) == B.SubmitNow(u.seqnum)
      ensures AnswerOf(u, hook) == Some(if hook.status == -32 then Answer(-32, 0, []) else Answer(0, |u.buffer|, []))
    {
    }

    /** An IN URB takes from the front blob what it asks for, the packet size if it asks for 0; on an empty queue it
        is parked for as much. */
    lemma InIsAnswered(u: Urb, hook: Answer)
      requires EndpointsValid() && ForRunning(u, false) && u.direction == IN
      ensures var k := routes[(u.ep, u.direction)];
              var q, n := endpoints[k].q, if u.length == 0 then endpoints[k].mps else u.length;
              && ActionOf(u) == B.SubmitIn(k, n, u.seqnum)
              && (q == [] ==> AnswerOf(u, hook) == None)
              && (q != [] && (n == 0 || |q[0]| <= n) ==> AnswerOf(u, hook) == Some(Answer(0, |q[0]|, q[0])))
              && (q != [] && 0 < n < |q[0]| ==> AnswerOf(u, hook) == Some(Answer(0, n, q[0][..n])))
    {
    }

    /** Isochronous URBs wait for the pacer when there is one; without it they are answered at once, IN ones with all
        the class gave and OUT ones with their packets alone. */
    lemma IsoIsAnswered(u: Urb, hook: Answer)
      requires EndpointsValid() && ForRunning(u, true)
      ensures isoPaced ==> AnswerOf(u, hook) == None && ActionOf(u) == B.SubmitPaced(u.seqnum)
      ensures !isoPaced ==>
                && ActionOf(u) == B.SubmitNow(u.seqnum)
                && AnswerOf(u, hook) == Some(if u.direction == IN then Answer(0, |hook.data|, hook.data)
                                             else Answer(0, 0, []))
    {
    }

    /** A URB for an endpoint the device does not have is refused; one for endpoint 0 gets the control answer. */
    lemma UnroutedIsRefused(u: Urb, hook: Answer)
      requires EndpointsValid()
      ensures u.ep != 0 && (u.ep, u.direction) !in routes ==> AnswerOf(u, hook) == Some(Answer(-19, 0, []))
      ensures u.ep == 0 ==> AnswerOf(u, hook) == Some(hook)
      ensures u.ep == 0 || (u.ep, u.direction) !in routes ==> ActionOf(u) == B.SubmitNow(u.seqnum)
    {
    }

    /** Whatever the device has been through, its pacer let completions go in deadline order, none early,
        and those of one endpoint in the order they were submitted. */
    lemma PacedInOrder()
      requires Valid()
      ensures var sent := pace.sent;
              && (forall i :: 0 <= i < |sent| ==> sent[i].entry.deadline <= sent[i].at <= now)
              && (forall i, j :: 0 <= i < j < |sent| ==>
                    && sent[i].entry.deadline <= sent[j].entry.deadline
                    && (sent[i].entry.ep == sent[j].entry.ep ==> sent[i].entry.order < sent[j].entry.order))
    {
      hide I.Run, B.After;
      I.RunSound(pace.frames, 0, paceRun);
      I.DeliveriesAreOrdered(pace.frames, 0, paceRun);
    }

    /** A URB from the serve thread, and its answer if there is one at once: the endpoint looked up, the
        halt test, then isochronous, IN or OUT. */
    method HandleUrb(u: Urb, hook: Answer) returns (answer: Option<Answer>)
      requires Valid() && B.Fresh(Value(), u.seqnum)
      modifies this, endpoints, pace
      ensures Valid() && run == old(run) + [old(ActionOf(u))]
      ensures answer == old(AnswerOf(u, hook))
      ensures wire == old(wire) + (if answer.Some? then [B.RetSubmit(u.seqnum)] else [])
      ensures paceRun == old(paceRun) + (if old(BranchOf(u)) == Isochronous && isoPaced then
                [I.Schedule(routes[(u.ep, u.direction)], u.packets.value, u.seqnum)] else [])
      ensures old(ForHalted(u)) ==>
                && answer == Some(Answer(-32, 0, [])) && paceRun == old(paceRun)
                && forall i :: 0 <= i < |endpoints| ==> endpoints[i].State() == old(endpoints[i].State())
      ensures old(ForRunning(u, false)) && u.direction != IN ==>
                && answer == Some(if hook.status == -32 then Answer(-32, 0, []) else Answer(0, |u.buffer|, []))
                && paceRun == old(paceRun)
                && forall i :: 0 <= i < |endpoints| ==> endpoints[i].State() == old(endpoints[i].State())
      ensures old(ForRunning(u, true)) && isoPaced ==>
                && answer == None
                && paceRun == old(paceRun) + [I.Schedule(routes[(u.ep, u.direction)], u.packets.value, u.seqnum)]
    {
      hide UrbPipe.Run, B.After, I.Run, B.Step, UrbPipe.Submit, Head;
      ghost var was := Value();
      if u.ep == 0 {
        AnswerNow(u.seqnum);
        return Some(hook);
      }
      if (u.ep, u.direction) !in routes {
        AnswerNow(u.seqnum);
        return Some(Answer(NO_DEVICE, 0, []));
      }
      var k := routes[(u.ep, u.direction)];
      var e := endpoints[k];
      if e.halted {
        AnswerNow(u.seqnum);
        answer := Some(STALLED);
      } else if e.iso && u.packets.Some? {
        if isoPaced {
          PaceLater(k, u.packets.value, u.seqnum);
          answer := None;
        } else {
          AnswerNow(u.seqnum);
          answer := Some(if u.direction == IN then Answer(0, |hook.data|, hook.data) else Answer(0, 0, []));
        }
      } else if u.direction == IN {
        answer := TakeIn(k, if u.length == 0 then e.mps else u.length, u.seqnum);
      } else {
        AnswerNow(u.seqnum);
        answer := Some(if hook.status == STALL_STATUS then STALLED else Answer(0, |u.buffer|, []));
      }
    }

    /** An IN URB for a routed endpoint that is not halted: answered from its queue or parked. */
    method TakeIn(k: nat, length: nat, seqnum: nat) returns (answer: Option<Answer>)
      requires Valid() && B.Fresh(Value(), seqnum) && k < |endpoints| && !endpoints[k].halted
      modifies this, endpoints
      ensures Valid() && run == old(run) + [B.SubmitIn(k, length, seqnum)] && paceRun == old(paceRun)
      ensures wire == old(wire) + (if answer.Some? then [B.RetSubmit(seqnum)] else [])
      ensures answer == Fetched(old(endpoints[k].q), length)
    {
      hide UrbPipe.Run, B.After, I.Run, Head;
      ghost var before := Value();
      var reply := endpoints[k].TakeOrPark(length, seqnum);
      if reply == [] {
        answer := None;
      } else {
        answer := Some(Answer(reply[0].status, |reply[0].data|, reply[0].data));
        wire := wire + [B.RetSubmit(seqnum)];
      }
      submitted := submitted + {seqnum};
      OneEndpointChanged(k);
      assert wire == before.wire + (if reply == [] then [] else [B.RetSubmit(seqnum)]);
      Record(B.SubmitIn(k, length, seqnum), before);
    }

    /** A URB whose answer goes out at once. */
    method AnswerNow(seqnum: nat)
      requires Valid() && B.Fresh(Value(), seqnum)
      modifies this
      ensures Valid() && run == old(run) + [B.SubmitNow(seqnum)] && paceRun == old(paceRun)
      ensures wire == old(wire) + [B.RetSubmit(seqnum)]
    {
      hide UrbPipe.Run, B.After, I.Run;
      ghost var before := Value();
      wire := wire + [B.RetSubmit(seqnum)];
      submitted := submitted + {seqnum};
      Record(B.SubmitNow(seqnum), before);
    }

    /** A paced isochronous URB: its completion waits in the pacer until its deadline. */
    method PaceLater(k: nat, packets: nat, seqnum: nat)
      requires Valid() && B.Fresh(Value(), seqnum) && k < |endpoints|
      modifies this, pace
      ensures Valid() && run == old(run) + [B.SubmitPaced(seqnum)]
      ensures paceRun == old(paceRun) + [I.Schedule(k, packets, seqnum)] && wire == old(wire)
    {
      hide UrbPipe.Run, B.After, I.Run;
      ghost var before, pacer := Value(), pace.State(now);
      pace.PaceSchedule(k, packets, seqnum, now);
      submitted := submitted + {seqnum};
      RecordPace(I.Schedule(k, packets, seqnum), pacer);
      Record(B.SubmitPaced(seqnum), before);
    }

    /** Time passes. */
    method Tick(micros: nat)
      requires Valid()
      modifies this
      ensures Valid() && run == old(run) && now == old(now) + micros && paceRun == old(paceRun) + [I.Tick(micros)]
    {
      hide UrbPipe.Run, B.After, I.Run;
      ghost var pacer := pace.State(now);
      now := now + micros;
      RecordPace(I.Tick(micros), pacer);
    }

    /** One pass of the pacer thread: the completion due first is taken off the queue once its deadline has passed. */
    method PaceRun() returns (fired: bool)
      requires Valid()
      modifies this, pace
      ensures Valid() && paceRun == old(paceRun) + [I.Deliver]
      ensures var q := old(pace.queue);
              && (fired <==> q != [] && q[I.LeastIndex(q)].deadline <= now)
              && run == old(run) + (if fired then [B.PaceDue(I.LeastIndex(q))] else [])
    {
      hide UrbPipe.Run, B.After, I.Run, I.LeastIndex, Paced;
      ghost var before, pacer, q := Value(), pace.State(now), pace.queue;
      var entry: I.Entry;
      fired, entry := pace.PaceOnce(now);
      RecordPace(I.Deliver, pacer);
      if fired {
        inFlight := inFlight + [entry.seqnum];
        PacedTake(q, I.LeastIndex(q));
        assert Pipes() == before.pipes;
        Record(B.PaceDue(I.LeastIndex(q)), before);
      }
    }

    /** `cancel_urb` and the RET_UNLINK after it. */
    method CancelUrb(victim: nat)
      requires Valid()
      modifies this, endpoints, pace
      ensures Valid() && run == old(run) + [B.Unlink(victim)] && paceRun == old(paceRun) + [I.CancelUrb(victim)]
    {
      hide UrbPipe.Run, B.After, I.Run, B.Waiting, B.Count, B.CancelFirst, B.Step, B.Without;
      ghost var before, pacer := Value(), pace.State(now);
      UnlinkIs(before, victim);
      pace.PaceCancel(victim, now);
      PacedWithout(pacer.queue, victim);
      assert Pipes() == before.pipes;
      CancelParked(victim);
      unlinked := unlinked + if B.Waiting(before, victim) > 0 then {victim} else {};
      raced := raced + if B.Count(inFlight, victim) > 0 then {victim} else {};
      wire := wire + [B.RetUnlink(victim)];
      RecordPace(I.CancelUrb(victim), pacer);
      Record(B.Unlink(victim), before);
    }

    /** The loop over the endpoints, stopping at the first that had the URB parked. */
    method CancelParked(victim: nat)
      requires EndpointsValid()
      modifies endpoints
      ensures EndpointsValid() && Pipes() == B.CancelFirst(old(Pipes()), victim)
    {
      hide UrbPipe.Run, B.CancelFirst, Remove, SeqnumsOf;
      ghost var before := Pipes();
      var i := 0;
      while i < |endpoints|
        invariant 0 <= i <= |endpoints|
        invariant EndpointsValid() && Pipes() == before
        invariant forall k :: 0 <= k < i ==> victim !in SeqnumsOf(before[k].parked)
      {
        assert endpoints[i].State() == before[i];
        var found := endpoints[i].Cancel(victim);
        if found {
          OneEndpointChanged(i);
          CancelsAt(before, victim, i);
          return;
        }
        RemoveNothing(before[i].parked, victim);
        assert forall k :: 0 <= k < |endpoints| ==> endpoints[k].State() == before[k];
        i := i + 1;
      }
      CancelsNowhere(before, victim);
    }

    /** The class queues data; completions are popped under the endpoint's lock. */
    method WriteData(ep: nat, data: bytes)
      requires Valid() && ep < |endpoints|
      modifies this, endpoints
      ensures Valid() && paceRun == old(paceRun) && run == old(run) + [B.Write(ep, data)]
    {
      hide UrbPipe.Run, B.After, I.Run, UrbPipe.Write;
      ghost var before := Value();
      var done := endpoints[ep].Write(data);
      inFlight := inFlight + RepliedTo(done);
      OneEndpointChanged(ep);
      Record(B.Write(ep, data), before);
    }

    method HaltEndpoint(ep: nat)
      requires Valid() && ep < |endpoints|
      modifies this, endpoints
      ensures Valid() && paceRun == old(paceRun) && run == old(run) + [B.Halt(ep)]
    {
      hide UrbPipe.Run, B.After, I.Run, UrbPipe.Stall;
      ghost var before := Value();
      var stalled := endpoints[ep].Stall();
      inFlight := inFlight + RepliedTo(stalled);
      OneEndpointChanged(ep);
      Record(B.Halt(ep), before);
    }

    method ClearEndpointHalt(ep: nat)
      requires Valid() && ep < |endpoints|
      modifies this, endpoints
      ensures Valid() && paceRun == old(paceRun) && run == old(run) + [B.ClearHalt(ep)]
    {
      hide UrbPipe.Run, B.After, I.Run;
      ghost var before := Value();
      endpoints[ep].ClearHalt();
      OneEndpointChanged(ep);
      Record(B.ClearHalt(ep), before);
    }

    /** A popped completion's callback runs: its reply goes out. */
    method RunCallback(k: nat)
      requires Valid() && k < |inFlight|
      modifies this
      ensures Valid() && paceRun == old(paceRun) && run == old(run) + [B.Callback(k)]
    {
      hide UrbPipe.Run, B.After, I.Run;
      ghost var before := Value();
      wire := wire + [B.RetSubmit(inFlight[k])];
      inFlight := inFlight[..k] + inFlight[k + 1..];
      Record(B.Callback(k), before);
    }

    /** `reset_io`: every endpoint flushed, the pacer's queue left as it is. */
    method ResetIo()
      requires Valid()
      modifies this, endpoints
      ensures Valid() && paceRun == old(paceRun) && run == old(run) + [B.ResetIo]
    {
      hide UrbPipe.Run, B.After, I.Run, B.ParkedSet, Paced, I.Step, B.Step;
      ghost var before := Value();
      var i := 0;
      while i < |endpoints|
        invariant 0 <= i <= |endpoints|
        invariant EndpointsValid()
        invariant unchanged(this)
        invariant forall k :: 0 <= k < i ==> endpoints[k].State() == EMPTY
      {
        endpoints[i].Reset();
        i := i + 1;
      }
      AllFlushed(before.pipes, Pipes());
      dropped := dropped + B.ParkedSet(before.pipes);
      ResetIs(before);
      Record(B.ResetIo, before);
    }
  }

  lemma ResetIs(b: B.Books)
    ensures B.Step(b, B.ResetIo) == b.(pipes := B.Flushed(b.pipes), dropped := b.dropped + B.ParkedSet(b.pipes))
  {
  }

  lemma UnlinkIs(b: B.Books, victim: nat)
    ensures B.Step(b, B.Unlink(victim))
         == b.(pacing := B.Without(b.pacing, victim), pipes := B.CancelFirst(b.pipes, victim),
               unlinked := b.unlinked + (if B.Waiting(b, victim) > 0 then {victim} else {}),
               raced := b.raced + (if B.Count(b.inFlight, victim) > 0 then {victim} else {}),
               wire := b.wire + [B.RetUnlink(victim)])
  {
  }

  lemma {:induction false} CancelsAt(pipes: seq<Pipe>, victim: nat, i: nat)
    requires i < |pipes| && victim in SeqnumsOf(pipes[i].parked)
    requires forall k :: 0 <= k < i ==> victim !in SeqnumsOf(pipes[k].parked)
    ensures B.CancelFirst(pipes, victim) == pipes[i := pipes[i].(parked := Remove(pipes[i].parked, victim))]
  {
    hide Remove, SeqnumsOf;
    if i > 0 {
      CancelsAt(pipes[1..], victim, i - 1);
    }
  }

  lemma {:induction false} CancelsNowhere(pipes: seq<Pipe>, victim: nat)
    requires forall k :: 0 <= k < |pipes| ==> victim !in SeqnumsOf(pipes[k].parked)
    ensures B.CancelFirst(pipes, victim) == pipes
  {
    hide Remove, SeqnumsOf;
    if pipes != [] {
      CancelsNowhere(pipes[1..], victim);
      assert [pipes[0]] + pipes[1..] == pipes;
    }
  }

  lemma {:induction false} RemoveNothing(parked: seq<Parked>, victim: nat)
    requires victim !in SeqnumsOf(parked)
    ensures Remove(parked, victim) == parked
  {
    if parked != [] {
      assert parked[0].seqnum == SeqnumsOf(parked)[0];
      assert forall x :: x in SeqnumsOf(parked[1..]) ==> x in SeqnumsOf(parked);
      RemoveNothing(parked[1..], victim);
    }
  }

  lemma {:induction false} AllFlushed(before: seq<Pipe>, after: seq<Pipe>)
    requires |before| == |after| && forall k :: 0 <= k < |after| ==> after[k] == EMPTY
    ensures after == B.Flushed(before)
  {
    if before != [] {
      AllFlushed(before[1..], after[1..]);
    }
  }
}
