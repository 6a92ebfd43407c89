/** The UVC payload packetizer: frames cut into isochronous packets, each led by a two-byte header. */
module VideoStream {
  import opened Bytes

  const STREAM_EOF: nat := 2
  const HEADER: nat := 2

  /** The frame in progress (empty between frames), how far it is sent, the parity bit and the frame count. */
  datatype Cursor = Cursor(frame: bytes, pos: nat, fid: nat, index: nat)

  const START := Cursor([], 0, 0, 0)

  predicate Sane(source: nat -> bytes, c: Cursor) {
    && c.fid == c.index % 2
    && (c.frame != [] ==> c.frame == source(c.index) && c.pos < |c.frame|)
  }

  /** What is left to send of the frame the next packet belongs to. */
  function Remaining(source: nat -> bytes, c: Cursor): (r: nat)
    requires Sane(source, c)
  {
    if c.frame == [] then |source(c.index)| else |c.frame| - c.pos
  }

  /** The part of the current frame that has been sent. */
  function SentPart(source: nat -> bytes, c: Cursor): bytes
    requires Sane(source, c)
  {
    if c.frame == [] then [] else c.frame[..c.pos]
  }

  /** The packet sent into a slot of `cap` bytes. */
  function PacketFor(source: nat -> bytes, c: Cursor, cap: nat): (p: bytes)
    requires Sane(source, c)
    ensures |p| <= cap
    ensures p == [] <==> cap < HEADER
  {
    if cap < HEADER then
      []
    else
      var frame := source(c.index);
      var pos := |SentPart(source, c)|;
      var chunk := Min(|frame| - pos, cap - HEADER);
      [HEADER, c.fid + if pos + chunk == |frame| then STREAM_EOF else 0] + frame[pos..pos + chunk]
  }

  function Advance(source: nat -> bytes, c: Cursor, cap: nat): (after: Cursor)
    requires Sane(source, c)
    ensures Sane(source, after)
  {
    if cap < HEADER then
      c
    else if Remaining(source, c) <= cap - HEADER then
      Cursor([], |source(c.index)|, 1 - c.fid, c.index + 1)
    else
      c.(frame := source(c.index), pos := |SentPart(source, c)| + (cap - HEADER))
  }

  /** A packet byte by byte (UVC 1.1, section 2.4.3.3): its header length 2, the frame's parity in bit 0 and the end of
      the frame in bit 1, then the frame's next bytes, as many as fit. */
  lemma PacketBytes(source: nat -> bytes, c: Cursor, cap: nat)
    requires Sane(source, c) && cap >= 2
    ensures var p, frame, sent := PacketFor(source, c, cap), source(c.index), |SentPart(source, c)|;
            var n := if |frame| - sent <= cap - 2 then |frame| - sent else cap - 2;
            && |p| == 2 + n && p[0] == 2
            && p[1] == (c.index % 2) + (if sent + n == |frame| then 2 else 0)
            && p[2..] == frame[sent..sent + n]
  {
  }

  /** The packets for a whole run of slots, and where the run ends. */
  function Packets(source: nat -> bytes, c: Cursor, lengths: seq<nat>): (out: seq<bytes>)
    requires Sane(source, c)
    ensures |out| == |lengths|
    decreases |lengths|
  {
    if lengths == [] then
      []
    else
      [PacketFor(source, c, lengths[0])] + Packets(source, Advance(source, c, lengths[0]), lengths[1..])
  }

  function After(source: nat -> bytes, c: Cursor, lengths: seq<nat>): (after: Cursor)
    requires Sane(source, c)
    ensures Sane(source, after)
    ensures after.index >= c.index
    decreases |lengths|
  {
    if lengths == [] then c else After(source, Advance(source, c, lengths[0]), lengths[1..])
  }

  lemma {:induction false} PacketsSnoc(source: nat -> bytes, c: Cursor, lengths: seq<nat>, cap: nat)
    requires Sane(source, c)
    ensures After(source, c, lengths + [cap]) == Advance(source, After(source, c, lengths), cap)
    ensures Packets(source, c, lengths + [cap])
         == Packets(source, c, lengths) + [PacketFor(source, After(source, c, lengths), cap)]
    decreases |lengths|
  {
    if lengths == [] {
      assert [cap][1..] == [];
    } else {
      PacketsSnoc(source, Advance(source, c, lengths[0]), lengths[1..], cap);
      assert (lengths + [cap])[1..] == lengths[1..] + [cap];
    }
  }

  lemma PacketsNone(source: nat -> bytes, c: Cursor)
    requires Sane(source, c)
    ensures Packets(source, c, []) == [] && After(source, c, []) == c
  {
  }

  // ---- the receiver ----

  /** A host that appends payloads and closes a frame at the EOF bit. */
  datatype Sink = Sink(frames: seq<bytes>, partial: bytes)

  predicate EndsFrame(packet: bytes) {
    |packet| >= HEADER && packet[1] >= STREAM_EOF
  }

  function Feed(sink: Sink, packet: bytes): Sink {
    if |packet| < HEADER then
      sink
    else if EndsFrame(packet) then
      Sink(sink.frames + [sink.partial + packet[HEADER..]], [])
    else
      sink.(partial := sink.partial + packet[HEADER..])
  }

  function Collect(sink: Sink, packets: seq<bytes>): Sink
    decreases |packets|
  {
    if packets == [] then sink else Collect(Feed(sink, packets[0]), packets[1..])
  }

  lemma {:induction false} CollectAppend(sink: Sink, a: seq<bytes>, b: seq<bytes>)
    ensures Collect(sink, a + b) == Collect(Collect(sink, a), b)
    decreases |a|
  {
    if a == [] {
      assert a + b == b;
    } else {
      CollectAppend(Feed(sink, a[0]), a[1..], b);
      assert (a + b)[1..] == a[1..] + b;
    }
  }

  /** Every packet of frame k carries k's parity, frames being counted from `k` by their EOF packets. */
  predicate ParityFollows(packets: seq<bytes>, k: nat) {
    packets == [] ||
    (&& (|packets[0]| >= HEADER ==> packets[0][1] % 2 == k % 2)
     && ParityFollows(packets[1..], if EndsFrame(packets[0]) then k + 1 else k))
  }

  /** The receiver holds the frames the source gave, in order, and a prefix of the current one. */
  predicate Agrees(source: nat -> bytes, c: Cursor, sink: Sink) {
    && Sane(source, c)
    && |sink.frames| == c.index
    && (forall i :: 0 <= i < c.index ==> sink.frames[i] == source(i))
    && sink.partial == SentPart(source, c)
  }

  lemma FeedAgrees(source: nat -> bytes, c: Cursor, sink: Sink, cap: nat)
    requires Agrees(source, c, sink)
    ensures Agrees(source, Advance(source, c, cap), Feed(sink, PacketFor(source, c, cap)))
    ensures EndsFrame(PacketFor(source, c, cap)) <==> Advance(source, c, cap).index == c.index + 1
    ensures !EndsFrame(PacketFor(source, c, cap)) <==> Advance(source, c, cap).index == c.index
  {
    if cap >= HEADER {
      var frame := source(c.index);
      var pos := |SentPart(source, c)|;
      var chunk := Min(|frame| - pos, cap - HEADER);
      var p := PacketFor(source, c, cap);
      assert p[HEADER..] == frame[pos..pos + chunk];
      assert frame[..pos] + frame[pos..pos + chunk] == frame[..pos + chunk];
      assert sink.partial == frame[..pos];
      if pos + chunk == |frame| {
        assert frame[..|frame|] == frame;
      }
    }
  }

  /** Whatever the slots, the receiver reads back the source's frames in order and a prefix of the current one. */
  lemma {:induction false} Reassembles(source: nat -> bytes, c: Cursor, sink: Sink, lengths: seq<nat>)
    requires Agrees(source, c, sink)
    ensures Agrees(source, After(source, c, lengths), Collect(sink, Packets(source, c, lengths)))
    ensures ParityFollows(Packets(source, c, lengths), c.index)
    decreases |lengths|
  {
    if lengths != [] {
      var p := PacketFor(source, c, lengths[0]);
      var next := Advance(source, c, lengths[0]);
      FeedAgrees(source, c, sink, lengths[0]);
      Reassembles(source, next, Feed(sink, p), lengths[1..]);
      assert Packets(source, c, lengths)[1..] == Packets(source, next, lengths[1..]);
    }
  }

  /** No packet exceeds its slot, and a packet that does not end its frame fills it. */
  lemma {:induction false} PacketsFillSlots(source: nat -> bytes, c: Cursor, lengths: seq<nat>, j: nat)
    requires Sane(source, c) && j < |lengths|
    ensures var p := Packets(source, c, lengths)[j];
            && |p| <= lengths[j]
            && (p == [] <==> lengths[j] < HEADER)
            && (p != [] && !EndsFrame(p) ==> |p| == lengths[j])
    decreases |lengths|
  {
    if j > 0 {
      PacketsFillSlots(source, Advance(source, c, lengths[0]), lengths[1..], j - 1);
    }
  }

  // ---- how many packets a frame takes ----

  /** Payload bytes the slots can carry. */
  function Room(lengths: seq<nat>): nat {
    if lengths == [] then 0
    else (if lengths[0] < HEADER then 0 else lengths[0] - HEADER) + Room(lengths[1..])
  }

  predicate Usable(lengths: seq<nat>) {
    lengths != [] && (lengths[0] >= HEADER || Usable(lengths[1..]))
  }

  lemma {:induction false} RoomIsUsable(lengths: seq<nat>)
    requires Room(lengths) > 0
    ensures Usable(lengths)
  {
    if lengths[0] < HEADER {
      RoomIsUsable(lengths[1..]);
    }
  }

  /** The frame in progress is finished exactly when some slot takes a header and the slots have room for the rest. */
  lemma {:induction false} FinishesWhenItFits(source: nat -> bytes, c: Cursor, lengths: seq<nat>)
    requires Sane(source, c)
    ensures After(source, c, lengths).index > c.index
       <==> Usable(lengths) && Room(lengths) >= Remaining(source, c)
    decreases |lengths|
  {
    if lengths != [] {
      FinishesWhenItFits(source, Advance(source, c, lengths[0]), lengths[1..]);
      if Room(lengths[1..]) > 0 {
        RoomIsUsable(lengths[1..]);
      }
    }
  }

  /** max(1, ceil(n / room)). */
  function PacketsNeeded(n: nat, room: nat): nat
    requires room > 0
    decreases n
  {
    if n <= room then 1 else 1 + PacketsNeeded(n - room, room)
  }

  lemma {:induction false} NeededIsCeiling(n: nat, room: nat)
    requires room > 0
    ensures PacketsNeeded(n, room) == if n == 0 then 1 else CountBlocks(n - 1, room) + 1
    decreases n
  {
    if n > room {
      NeededIsCeiling(n - room, room);
    }
  }

  /** At a constant slot size a frame of n bytes takes exactly max(1, ceil(n / (cap - 2))) packets. */
  lemma {:induction false} FrameTakes(source: nat -> bytes, c: Cursor, cap: nat, m: nat)
    requires Sane(source, c) && cap > HEADER
    ensures var after := After(source, c, seq(m, _ => cap));
            var n := PacketsNeeded(Remaining(source, c), cap - HEADER);
            && (m < n ==> after.index == c.index)
            && (m == n ==> after.index == c.index + 1 && after.frame == [])
    decreases m
  {
    if m > 0 {
      var slots := seq(m, _ => cap);
      assert slots[1..] == seq(m - 1, _ => cap);
      var next := Advance(source, c, cap);
      if Remaining(source, c) > cap - HEADER {
        FrameTakes(source, next, cap, m - 1);
      } else if m == 1 {
        assert slots[1..] == [];
      }
    }
  }

  // ---- the streaming interface ----

  class VideoStreaming {
    var streaming: bool
    var frame: bytes
    var pos: nat
    var fid: nat
    var frameIndex: nat
    /** The frame callback of this stream; each index is asked for once. */
    var source: nat -> bytes
    /** Packets sent since the stream was switched on. */
    ghost var sent: seq<bytes>

    ghost function State(): Cursor
      reads this
    {
      Cursor(frame, pos, fid, frameIndex)
    }

    ghost predicate Valid()
      reads this
    {
      && Agrees(source, State(), Collect(Sink([], []), sent))
    }

    constructor (frames: nat -> bytes)
      ensures Valid() && !streaming && State() == START
    {
      streaming, frame, pos, fid, frameIndex := false, [], 0, 0, 0;
      source, sent := frames, [];
    }

    method SetAlt(alt: nat, frames: nat -> bytes)
      requires Valid()
      modifies this
      ensures Valid()
      ensures streaming == (alt == 1 || (old(streaming) && alt != 0))
      ensures if alt == 1 && !old(streaming) then State() == START && sent == [] && source == frames
              else State() == old(State()) && sent == old(sent) && source == old(source)
    {
      if alt == 1 && !streaming {
        streaming := true;
        frame, pos, fid, frameIndex := [], 0, 0, 0;
        source, sent := frames, [];
      } else if alt == 0 && streaming {
        streaming := false;
      }
    }

    method Produce()
      modifies `frame, `pos
      ensures frame == source(frameIndex) && pos == 0
    {
      frame, pos := source(frameIndex), 0;
    }

    /** The body of the loop below: one slot of `cap` bytes. */
    method NextPacket(cap: nat) returns (packet: bytes)
      requires Sane(source, State())
      modifies `frame, `pos, `fid, `frameIndex
      ensures packet == PacketFor(source, old(State()), cap)
      ensures State() == Advance(source, old(State()), cap)
    {
      if cap < HEADER {
        return [];
      }
      if frame == [] || pos >= |frame| {
        Produce();
      }
      var remain := |frame| - pos;
      var chunk := Min(remain, cap - HEADER);
      var info := fid;
      if pos + chunk >= |frame| {
        info := info + STREAM_EOF;
      }
      packet := [HEADER, info] + frame[pos..pos + chunk];
      pos := pos + chunk;
      if pos >= |frame| {
        frame := [];
        fid := 1 - fid;
        frameIndex := frameIndex + 1;
      }
    }

    method OnIso(lengths: seq<nat>) returns (out: seq<bytes>)
      requires Valid()
      modifies this
      ensures Valid() && source == old(source) && streaming == old(streaming)
      ensures !streaming ==> (out == [] && State() == old(State()))
      ensures streaming ==> out == Packets(source, old(State()), lengths)
      ensures streaming ==> State() == After(source, old(State()), lengths)
      ensures sent == old(sent) + out
    {
      hide Packets, After, PacketFor, Advance, Collect;
      out := [];
      if !streaming {
        return;
      }
      ghost var start := State();
      PacketsNone(source, start);
      var i := 0;
      while i < |lengths|
        invariant 0 <= i <= |lengths|
        invariant streaming && source == old(source) && sent == old(sent)
        invariant Sane(source, start) && State() == After(source, start, lengths[..i])
        invariant out == Packets(source, start, lengths[..i])
      {
        PacketsSnoc(source, start, lengths[..i], lengths[i]);
        assert lengths[..i + 1] == lengths[..i] + [lengths[i]];
        var packet := NextPacket(lengths[i]);
        out := out + [packet];
        i := i + 1;
      }
      assert lengths[..|lengths|] == lengths;
      Reassembles(source, start, Collect(Sink([], []), sent), lengths);
      CollectAppend(Sink([], []), sent, out);
      sent := sent + out;
    }
  }
}
