/** The isochronous pacer (usbip/device.py _iso_deadline, _pace_schedule, _pace_run,
    pace_cancel), in integer microseconds. Deadline computation and push are one step.
    `heapq` is a bag whose least (deadline, order) pair is popped first. */
module IsoPacing {
  import opened Bytes

  const SPEED_HIGH := 2

  /** One service interval: 125 us microframes at high speed, 1 ms frames below it. */
  function FrameMicros(bInterval: nat, speed: nat): (r: nat)
    ensures r > 0
  {
    var b := if bInterval == 0 then 1 else bInterval;
    if speed >= SPEED_HIGH then 125 * Pow2(b - 1) else 1000 * b
  }

  /** A full-speed interval is as many milliseconds as bInterval says; a high-speed one is 125 us for 1 and doubles with
      each step, so that 4 is a millisecond again. A bInterval of 0 counts as 1. */
  lemma IntervalsAre(bInterval: nat, speed: nat)
    ensures speed < 2 && bInterval > 0 ==> FrameMicros(bInterval, speed) == 1000 * bInterval
    ensures speed >= 2 ==> FrameMicros(1, speed) == 125 && FrameMicros(4, speed) == 1000
    ensures speed >= 2 && bInterval > 0 ==> FrameMicros(bInterval + 1, speed) == 2 * FrameMicros(bInterval, speed)
    ensures FrameMicros(0, speed) == FrameMicros(1, speed)
  {
    assert Pow2(3) == 8;
  }

  datatype Entry = Entry(deadline: int, order: nat, ep: nat, seqnum: nat)

  datatype Delivery = Delivery(entry: Entry, at: int)

  /** `deadlines[e]` is endpoint e's clock, `frames[e]` its interval. */
  datatype Pacer = Pacer(now: int, frames: seq<nat>, deadlines: seq<int>,
                         queue: seq<Entry>, next: nat, sent: seq<Delivery>)

  function Max(a: int, b: int): int { if a < b then b else a }

  function NextDeadline(now: int, deadline: int, frame: nat, packets: nat): int {
    Max(deadline, now) + frame * packets
  }

  // ---- the steps ------------------------------------------------------------

  datatype Event =
    | Schedule(ep: nat, packets: nat, seqnum: nat)
    | Deliver                     // one pass of the pacer thread
    | CancelUrb(seqnum: nat)
    | Tick(micros: nat)

  predicate Before(a: Entry, b: Entry) {
    a.deadline < b.deadline || (a.deadline == b.deadline && a.order < b.order)
  }

  /** Index of the entry heappop returns: the least one, the first of equals. */
  function LeastIndex(queue: seq<Entry>): (k: nat)
    requires queue != []
    ensures k < |queue|
  {
    if |queue| == 1 then 0
    else
      var k := LeastIndex(queue[..|queue| - 1]);
      if Before(queue[|queue| - 1], queue[k]) then |queue| - 1 else k
  }

  function KeepOthers(queue: seq<Entry>, seqnum: nat): seq<Entry> {
    if queue == [] then []
    else (if queue[0].seqnum == seqnum then [] else [queue[0]]) + KeepOthers(queue[1..], seqnum)
  }

  function Step(p: Pacer, e: Event): Pacer
    requires |p.frames| == |p.deadlines|
  {
    match e
    case Schedule(ep, packets, seqnum) =>
      if ep >= |p.frames| then p
      else
        var d := NextDeadline(p.now, p.deadlines[ep], p.frames[ep], packets);
        p.(deadlines := p.deadlines[ep := d], next := p.next + 1,
           queue := p.queue + [Entry(d, p.next, ep, seqnum)])
    case Deliver =>
      if p.queue == [] then p
      else
        var k := LeastIndex(p.queue);
        if p.queue[k].deadline > p.now then p
        else p.(queue := p.queue[..k] + p.queue[k + 1..],
                sent := p.sent + [Delivery(p.queue[k], p.now)])
    case CancelUrb(seqnum) => p.(queue := KeepOthers(p.queue, seqnum))
    case Tick(micros) => p.(now := p.now + micros)
  }

  function Start(frames: seq<nat>, now: nat): (p: Pacer)
    ensures |p.frames| == |p.deadlines|
  {
    Pacer(now, frames, seq(|frames|, i => 0), [], 0, [])
  }

  function Run(frames: seq<nat>, now: nat, es: seq<Event>): (p: Pacer)
    ensures |p.frames| == |p.deadlines|
  {
    if es == [] then Start(frames, now)
    else Step(Run(frames, now, es[..|es| - 1]), es[|es| - 1])
  }

  // ---- what every run keeps ---------------------------------------------------

  /** A completion is no later than its endpoint's clock, and was numbered already. */
  ghost predicate Scheduled(p: Pacer, e: Entry) {
    e.ep < |p.deadlines| && e.deadline <= p.deadlines[e.ep] && e.order < p.next
  }

  /** Two completions: numbered apart, and on one endpoint the earlier is due no later. */
  ghost predicate InStep(a: Entry, b: Entry) {
    && a.order != b.order
    && (a.ep == b.ep && a.order < b.order ==> a.deadline <= b.deadline)
    && (a.ep == b.ep && b.order < a.order ==> b.deadline <= a.deadline)
  }

  ghost predicate Timely(p: Pacer) {
    && |p.frames| == |p.deadlines|
    && (forall i :: 0 <= i < |p.queue| ==> Scheduled(p, p.queue[i]))
    && (forall i :: 0 <= i < |p.sent| ==> Scheduled(p, p.sent[i].entry))
    && (forall i :: 0 <= i < |p.sent| ==> p.sent[i].entry.deadline <= p.sent[i].at <= p.now)
    && (forall i, j :: 0 <= i < j < |p.sent| ==> Before(p.sent[i].entry, p.sent[j].entry))
    && (forall i, j :: 0 <= i < |p.sent| && 0 <= j < |p.queue| ==> Before(p.sent[i].entry, p.queue[j]))
  }

  ghost predicate InOrder(p: Pacer) {
    && (forall i, j :: 0 <= i < j < |p.queue| ==> InStep(p.queue[i], p.queue[j]))
    && (forall i, j :: 0 <= i < |p.sent| && 0 <= j < |p.queue| ==> InStep(p.sent[i].entry, p.queue[j]))
    && (forall i, j :: 0 <= i < j < |p.sent| ==> InStep(p.sent[i].entry, p.sent[j].entry))
  }

  ghost predicate Sound(p: Pacer) { Timely(p) && InOrder(p) }

  lemma {:induction false} LeastIsLeast(queue: seq<Entry>)
    requires queue != []
    ensures forall i :: 0 <= i < |queue| ==> !Before(queue[i], queue[LeastIndex(queue)])
  {
    if |queue| > 1 {
      var init := queue[..|queue| - 1];
      LeastIsLeast(init);
      var k := LeastIndex(queue);
      forall i | 0 <= i < |queue| ensures !Before(queue[i], queue[k]) {
        if i < |init| {
          assert !Before(init[i], init[LeastIndex(init)]);
        }
      }
    }
  }

  lemma ScheduleSound(p: Pacer, ep: nat, packets: nat, seqnum: nat)
    requires Sound(p) && ep < |p.frames|
    ensures Sound(Step(p, Schedule(ep, packets, seqnum)))
  {
    var p' := Step(p, Schedule(ep, packets, seqnum));
    var d := p'.deadlines[ep];
    assert d >= p.deadlines[ep] && d >= p.now by {
      assert p.frames[ep] * packets >= 0;
    }
    var n := |p.queue|;
    forall i | 0 <= i < |p'.queue| ensures Scheduled(p', p'.queue[i]) {
      if i < n { assert Scheduled(p, p.queue[i]); }
    }
    forall i | 0 <= i < |p.sent| ensures Scheduled(p', p.sent[i].entry) {
      assert Scheduled(p, p.sent[i].entry);
    }
    forall i | 0 <= i < |p.sent| ensures Before(p.sent[i].entry, p'.queue[n]) && InStep(p.sent[i].entry, p'.queue[n]) {
      assert Scheduled(p, p.sent[i].entry);
    }
    forall i | 0 <= i < n ensures InStep(p.queue[i], p'.queue[n]) {
      assert Scheduled(p, p.queue[i]);
    }
  }

  // Removing one entry: index i of the shorter queue is index i or i + 1 of the longer.
  function Skip(k: nat, i: nat): nat { if i < k then i else i + 1 }

  function Removed(queue: seq<Entry>, k: nat): (r: seq<Entry>)
    requires k < |queue|
    ensures |r| == |queue| - 1
    ensures forall i :: 0 <= i < |r| ==> r[i] == queue[Skip(k, i)]
  {
    queue[..k] + queue[k + 1..]
  }

  lemma DeliverInOrder(p: Pacer, k: nat, at: int)
    requires InOrder(p) && k < |p.queue|
    ensures InOrder(p.(queue := Removed(p.queue, k), sent := p.sent + [Delivery(p.queue[k], at)]))
  {
    var rest := Removed(p.queue, k);
    forall j | 0 <= j < |rest| ensures InStep(p.queue[k], rest[j]) {
      var j' := Skip(k, j);
      assert if j' < k then InStep(p.queue[j'], p.queue[k]) else InStep(p.queue[k], p.queue[j']);
    }
    forall i | 0 <= i < |p.sent| ensures InStep(p.sent[i].entry, p.queue[k]) {
    }
  }

  lemma DeliverSound(p: Pacer)
    requires Sound(p) && p.queue != []
    requires p.queue[LeastIndex(p.queue)].deadline <= p.now
    ensures Sound(Step(p, Deliver))
  {
    var k := LeastIndex(p.queue);
    var e, rest := p.queue[k], Removed(p.queue, k);
    LeastIsLeast(p.queue);
    DeliverInOrder(p, k, p.now);
    assert Scheduled(p, e);
    forall j | 0 <= j < |rest| ensures Before(e, rest[j]) && Scheduled(p, rest[j]) {
      var j' := Skip(k, j);
      assert !Before(p.queue[j'], e) && Scheduled(p, p.queue[j']);
      assert if j' < k then InStep(p.queue[j'], e) else InStep(e, p.queue[j']);
    }
    assert Step(p, Deliver) == p.(queue := rest, sent := p.sent + [Delivery(e, p.now)]);
    DeliverTimely(p, e, rest);
  }

  lemma DeliverTimely(p: Pacer, e: Entry, rest: seq<Entry>)
    requires Timely(p) && Scheduled(p, e) && e.deadline <= p.now
    requires forall j :: 0 <= j < |rest| ==> rest[j] in p.queue && Before(e, rest[j]) && Scheduled(p, rest[j])
    requires e in p.queue
    ensures Timely(p.(queue := rest, sent := p.sent + [Delivery(e, p.now)]))
  {
    forall i | 0 <= i < |p.sent| ensures Before(p.sent[i].entry, e) {
      var k :| 0 <= k < |p.queue| && p.queue[k] == e;
      assert Before(p.sent[i].entry, p.queue[k]);
    }
    forall i, j | 0 <= i < |p.sent| && 0 <= j < |rest| ensures Before(p.sent[i].entry, rest[j]) {
      assert Before(p.sent[i].entry, e) && Before(e, rest[j]);
    }
  }

  lemma {:induction false} KeepOthersKeeps(queue: seq<Entry>, seqnum: nat) returns (at: seq<nat>)
    ensures |at| == |KeepOthers(queue, seqnum)|
    ensures forall i :: 0 <= i < |at| ==> at[i] < |queue| && KeepOthers(queue, seqnum)[i] == queue[at[i]]
    ensures forall i, j :: 0 <= i < j < |at| ==> at[i] < at[j]
  {
    if queue == [] {
      at := [];
    } else {
      var rest := KeepOthersKeeps(queue[1..], seqnum);
      var shifted := seq(|rest|, i requires 0 <= i < |rest| => rest[i] + 1);
      at := if queue[0].seqnum == seqnum then shifted else [0] + shifted;
    }
  }

  lemma CancelSound(p: Pacer, seqnum: nat)
    requires Sound(p)
    ensures Sound(Step(p, CancelUrb(seqnum)))
  {
    var at := KeepOthersKeeps(p.queue, seqnum);
  }

  lemma {:induction false} RunSound(frames: seq<nat>, now: nat, es: seq<Event>)
    ensures Sound(Run(frames, now, es))
  {
    if es != [] {
      var p, e := Run(frames, now, es[..|es| - 1]), es[|es| - 1];
      RunSound(frames, now, es[..|es| - 1]);
      match e {
        case Schedule(ep, packets, seqnum) => if ep < |p.frames| { ScheduleSound(p, ep, packets, seqnum); }
        case Deliver =>
          if p.queue != [] && p.queue[LeastIndex(p.queue)].deadline <= p.now {
            DeliverSound(p);
          }
        case CancelUrb(seqnum) => CancelSound(p, seqnum);
        case Tick(micros) =>
      }
    }
  }

  /** Under any interleaving of schedules, cancels and clock ticks, completions leave in
      non-decreasing deadline order over all endpoints, never before their deadline, and
      in submission order per endpoint. */
  lemma DeliveriesAreOrdered(frames: seq<nat>, now: nat, es: seq<Event>)
    ensures var sent := Run(frames, now, es).sent;
      forall i :: 0 <= i < |sent| ==> sent[i].entry.deadline <= sent[i].at
    ensures var sent := Run(frames, now, es).sent;
      forall i, j :: 0 <= i < j < |sent| ==>
        && sent[i].entry.deadline <= sent[j].entry.deadline
        && (sent[i].entry.ep == sent[j].entry.ep ==> sent[i].entry.order < sent[j].entry.order)
  {
    RunSound(frames, now, es);
    var sent := Run(frames, now, es).sent;
    forall i, j | 0 <= i < j < |sent| && sent[i].entry.ep == sent[j].entry.ep
      ensures sent[i].entry.order < sent[j].entry.order
    {
      assert Before(sent[i].entry, sent[j].entry) && InStep(sent[i].entry, sent[j].entry);
    }
  }

  // ---- the clock of one endpoint ----------------------------------------------

  /** One transfer: when it was submitted and how many packets it carried. */
  datatype Transfer = Transfer(now: int, packets: nat)

  /** The endpoint's deadline after these transfers, from the initial 0. */
  function Clock(frame: nat, ts: seq<Transfer>): int {
    if ts == [] then 0
    else NextDeadline(ts[|ts| - 1].now, Clock(frame, ts[..|ts| - 1]), frame, ts[|ts| - 1].packets)
  }

  function Packets(ts: seq<Transfer>): nat {
    if ts == [] then 0 else Packets(ts[..|ts| - 1]) + ts[|ts| - 1].packets
  }

  /** The host never fell behind: each later transfer came before the deadline had passed. */
  ghost predicate OnTime(frame: nat, ts: seq<Transfer>) {
    |ts| <= 1 || (OnTime(frame, ts[..|ts| - 1]) && ts[|ts| - 1].now <= Clock(frame, ts[..|ts| - 1]))
  }

  /** After k packets the deadline is at least k intervals past the first submission,
      and exactly that if and only if the host never fell behind. */
  lemma {:induction false} ClockCountsIntervals(frame: nat, ts: seq<Transfer>)
    requires ts != [] && ts[0].now >= 0
    ensures Clock(frame, ts) >= ts[0].now + frame * Packets(ts)
    ensures Clock(frame, ts) == ts[0].now + frame * Packets(ts) <==> OnTime(frame, ts)
  {
    var init, t := ts[..|ts| - 1], ts[|ts| - 1];
    if |ts| == 1 {
      assert Clock(frame, init) == 0 && Packets(init) == 0;
    } else {
      ClockCountsIntervals(frame, init);
      Distribute(frame, Packets(init), t.packets);
    }
  }

  lemma Distribute(frame: nat, a: nat, b: nat)
    ensures frame * (a + b) == frame * a + frame * b
  {
  }

  /** The transfers one endpoint saw in a run. */
  function TransfersOf(frames: seq<nat>, now: nat, es: seq<Event>, ep: nat): seq<Transfer> {
    if es == [] then []
    else
      var init, e := es[..|es| - 1], es[|es| - 1];
      TransfersOf(frames, now, init, ep)
      + (if e.Schedule? && e.ep == ep then [Transfer(Run(frames, now, init).now, e.packets)] else [])
  }

  /** In every run each endpoint's deadline is the clock of its own transfers alone. */
  lemma {:induction false} RunKeepsClocks(frames: seq<nat>, now: nat, es: seq<Event>, ep: nat)
    requires ep < |frames|
    ensures var p := Run(frames, now, es);
      && p.frames == frames
      && p.deadlines[ep] == Clock(frames[ep], TransfersOf(frames, now, es, ep))
  {
    if es != [] {
      var init, e := es[..|es| - 1], es[|es| - 1];
      RunKeepsClocks(frames, now, init, ep);
      var ts := TransfersOf(frames, now, init, ep);
      if e.Schedule? && e.ep == ep {
        var t := Transfer(Run(frames, now, init).now, e.packets);
        assert (ts + [t])[..|ts|] == ts;
      } else {
        assert ts + [] == ts;
      }
    }
  }

  // ---- the object ---------------------------------------------------------------

  /** USBDevice's pacing fields, updated in place. `sent` is what `respond` was given. */
  class PaceQueue {
    var frames: seq<nat>
    var deadlines: seq<int>
    var queue: seq<Entry>
    var next: nat
    ghost var sent: seq<Delivery>

    ghost function State(now: int): (p: Pacer)
      reads this
    {
      Pacer(now, frames, deadlines, queue, next, sent)
    }

    /** Endpoints of the given service intervals, on a link of this speed. */
    constructor (intervals: seq<nat>, speed: nat)
      ensures State(0) == Start(frames, 0) && |frames| == |intervals|
      ensures forall i :: 0 <= i < |frames| ==> frames[i] == FrameMicros(intervals[i], speed)
    {
      frames := seq(|intervals|, i requires 0 <= i < |intervals| => FrameMicros(intervals[i], speed));
      deadlines := seq(|intervals|, i => 0);
      queue, next, sent := [], 0, [];
    }

    /** Advance the endpoint's clock and queue the completion. */
    method PaceSchedule(ep: nat, packets: nat, seqnum: nat, now: int)
      requires |frames| == |deadlines| && ep < |frames|
      modifies this
      ensures State(now) == Step(old(State(now)), Schedule(ep, packets, seqnum))
    {
      if deadlines[ep] < now {
        deadlines := deadlines[ep := now];
      }
      deadlines := deadlines[ep := deadlines[ep] + frames[ep] * packets];
      queue := queue + [Entry(deadlines[ep], next, ep, seqnum)];
      next := next + 1;
    }

    /** One pass of the pacer thread: the least entry, if it is due. */
    method PaceOnce(now: int) returns (fired: bool, entry: Entry)
      requires |frames| == |deadlines|
      modifies this
      ensures State(now) == Step(old(State(now)), Deliver)
      ensures fired ==> old(queue) != [] && entry == old(queue)[LeastIndex(old(queue))] && entry.deadline <= now
      ensures fired ==> sent == old(sent) + [Delivery(entry, now)]
      ensures !fired ==> forall e :: e in old(queue) ==> now < e.deadline
    {
      fired, entry := false, Entry(0, 0, 0, 0);
      if queue == [] {
        return;
      }
      var k, i := 0, 1;
      while i < |queue|
        invariant 1 <= i <= |queue| && k < |queue|
        invariant unchanged(this)
        invariant k == LeastIndex(queue[..i])
      {
        assert queue[..i + 1][..i] == queue[..i];
        if Before(queue[i], queue[k]) {
          k := i;
        }
        i := i + 1;
      }
      assert queue[..i] == queue;
      LeastIsLeast(queue);
      if queue[k].deadline <= now {
        fired, entry := true, queue[k];
        queue := queue[..k] + queue[k + 1..];
        sent := sent + [Delivery(entry, now)];
      }
    }

    method PaceCancel(seqnum: nat, ghost now: int)
      requires |frames| == |deadlines|
      modifies this
      ensures State(now) == Step(old(State(now)), CancelUrb(seqnum))
    {
      var was, kept, i := queue, [], 0;
      while i < |was|
        invariant 0 <= i <= |was|
        invariant unchanged(this)
        invariant KeepOthers(was, seqnum) == kept + KeepOthers(was[i..], seqnum)
      {
        var step := if was[i].seqnum == seqnum then [] else [was[i]];
        assert was[i..][1..] == was[i + 1..];
        Assoc(kept, step, KeepOthers(was[i + 1..], seqnum));
        kept := kept + step;
        i := i + 1;
      }
      assert was[i..] == [] && kept + [] == kept;
      queue := kept;
    }
  }
}
