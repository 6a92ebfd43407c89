/** The endpoint object itself (usbip/device.py, class Endpoint): its deques and
    halt flag, updated in place. `trace` is the run so far; Valid() ties the fields
    to it, so every theorem about UrbPipe.Run speaks about this object. */
module Endpoints {
  import opened Bytes
  import opened UrbPipe

  class Endpoint {
    const mps: nat
    const iso: bool
    var q: seq<bytes>
    var pending: seq<Parked>
    var halted: bool
    ghost var trace: seq<Event>

    ghost function State(): Pipe
      reads this
    {
      Pipe(q, pending, halted)
    }

    ghost predicate Valid()
      reads this
    {
      State() == Run(trace).pipe
    }

    constructor (mps: nat, iso: bool)
      ensures Valid() && trace == [] && State() == EMPTY && this.mps == mps && this.iso == iso
    {
      this.mps, this.iso := mps, iso;
      q, pending, halted := [], [], false;
      trace := [];
    }

    /** Take up to `length` bytes of the front blob; an unread tail stays in front. */
    method PopLocked(length: nat) returns (chunk: bytes)
      requires q != []
      modifies this`q
      ensures (chunk, q) == UrbPipe.PopLocked(old(q), length)
    {
      chunk := q[0];
      q := q[1..];
      if length != 0 && |chunk| > length {
        q := [chunk[length..]] + q;
        chunk := chunk[..length];
      } else {
        assert q == [] + q;
      }
    }

    /** Queue a blob and complete as many parked URBs as it covers. */
    method Write(data: bytes) returns (done: seq<Reply>)
      requires Valid()
      modifies this
      ensures Valid() && trace == old(trace) + [EvWrite(data)]
      ensures (State(), done) == UrbPipe.Write(old(State()), data)
    {
      done := [];
      ghost var start := State().(q := q + [data]);
      q := q + [data];
      while pending != [] && q != []
        invariant halted == old(halted) && trace == old(trace)
        invariant Drain(start).0 == Drain(State()).0
        invariant Drain(start).1 == done + Drain(State()).1
        decreases |pending|
      {
        var entry := pending[0];
        ghost var before, sent := State(), done;
        pending := pending[1..];
        var chunk := PopLocked(entry.length);
        done := done + [Reply(entry.seqnum, 0, chunk)];
        assert Drain(before) == (Drain(State()).0, [Reply(entry.seqnum, 0, chunk)] + Drain(State()).1);
        Assoc(sent, [Reply(entry.seqnum, 0, chunk)], Drain(State()).1);
      }
      assert Drain(State()) == (State(), []) && done + [] == done;
      trace := trace + [EvWrite(data)];
      assert trace[..|trace| - 1] == old(trace);
    }

    /** handle_urb's IN branch: STALL while halted, else queued data, else park. */
    method TakeOrPark(length: nat, seqnum: nat) returns (answer: seq<Reply>)
      requires Valid()
      modifies this
      ensures Valid() && trace == old(trace) + [EvSubmit(length, seqnum)]
      ensures (State(), answer) == UrbPipe.Submit(old(State()), length, seqnum)
    {
      if halted {
        answer := [Reply(seqnum, STALL_STATUS, [])];
      } else if q != [] {
        var chunk := PopLocked(length);
        answer := [Reply(seqnum, 0, chunk)];
      } else {
        pending := pending + [Parked(length, seqnum)];
        answer := [];
      }
      trace := trace + [EvSubmit(length, seqnum)];
      assert trace[..|trace| - 1] == old(trace);
    }

    /** Drop the parked URB with this seqnum; true if there was one. */
    method Cancel(seqnum: nat) returns (removed: bool)
      requires Valid()
      modifies this
      ensures Valid() && trace == old(trace) + [EvUnlink(seqnum)]
      ensures State() == old(State()).(parked := Remove(old(pending), seqnum))
      ensures removed <==> seqnum in SeqnumsOf(old(pending))
    {
      removed := false;
      var i := 0;
      while i < |pending|
        invariant 0 <= i <= |pending|
        invariant unchanged(this)
        invariant forall k :: 0 <= k < i ==> pending[k].seqnum != seqnum
      {
        if pending[i].seqnum == seqnum {
          assert SeqnumsOf(pending)[i] == seqnum;
          RemoveSkips(pending, i, seqnum);
          assert pending[i..][1..] == pending[i + 1..];
          pending := pending[..i] + pending[i + 1..];
          trace := trace + [EvUnlink(seqnum)];
          assert trace[..|trace| - 1] == old(trace);
          return true;
        }
        i := i + 1;
      }
      RemoveSkips(pending, i, seqnum);
      assert pending[..i] + [] == pending;
      trace := trace + [EvUnlink(seqnum)];
      assert trace[..|trace| - 1] == old(trace);
    }

    /** Halt: every parked URB is answered with a STALL, queued data survives. */
    method Stall() returns (stalled: seq<Reply>)
      requires Valid()
      modifies this
      ensures Valid() && trace == old(trace) + [EvStall]
      ensures (State(), stalled) == UrbPipe.Stall(old(State()))
    {
      halted := true;
      var parked := pending;
      pending := [];
      stalled := [];
      var i := 0;
      while i < |parked|
        invariant 0 <= i <= |parked|
        invariant q == old(q) && pending == [] && halted && trace == old(trace)
        invariant Stalls(parked) == stalled + Stalls(parked[i..])
      {
        assert parked[i..][1..] == parked[i + 1..];
        Assoc(stalled, [Reply(parked[i].seqnum, STALL_STATUS, [])], Stalls(parked[i + 1..]));
        stalled := stalled + [Reply(parked[i].seqnum, STALL_STATUS, [])];
        i := i + 1;
      }
      assert parked[i..] == [] && stalled + [] == stalled;
      trace := trace + [EvStall];
      assert trace[..|trace| - 1] == old(trace);
    }

    method ClearHalt()
      requires Valid()
      modifies this
      ensures Valid() && trace == old(trace) + [EvClearHalt]
      ensures State() == old(State()).(halted := false)
    {
      halted := false;
      trace := trace + [EvClearHalt];
      assert trace[..|trace| - 1] == old(trace);
    }

    method Reset()
      requires Valid()
      modifies this
      ensures Valid() && trace == old(trace) + [EvReset]
      ensures State() == EMPTY
    {
      q, pending, halted := [], [], false;
      trace := trace + [EvReset];
      assert trace[..|trace| - 1] == old(trace);
    }
  }
}
