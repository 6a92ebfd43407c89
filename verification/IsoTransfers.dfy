/** Isochronous transfers end to end: slots on the host, packets on the device, the wire between them. */
module IsoTransfers {
  import opened Bytes
  import opened WireFormat
  import L = WireLayout

  // ---- the host's slots ----

  /** Consecutive slots of the given lengths, from offset `base`. */
  function Slots(base: nat, lengths: seq<nat>): (pkts: seq<IsoPacket>)
    ensures |pkts| == |lengths|
    decreases |lengths|
  {
    if lengths == [] then [] else [IsoPacket(base, lengths[0], 0, 0)] + Slots(base + lengths[0], lengths[1..])
  }

  function Total(lengths: seq<nat>): nat {
    if lengths == [] then 0 else lengths[0] + Total(lengths[1..])
  }

  /** The slots' contents, and the packets trimmed to what was transferred. */
  function Cut(buf: bytes, pkts: seq<IsoPacket>): seq<bytes> {
    if pkts == [] then [] else [Slice(buf, pkts[0].offset, pkts[0].offset + pkts[0].length)] + Cut(buf, pkts[1..])
  }

  function Trimmed(buf: bytes, pkts: seq<IsoPacket>): seq<bytes> {
    if pkts == [] then [] else [Slice(buf, pkts[0].offset, pkts[0].offset + pkts[0].actual)] + Trimmed(buf, pkts[1..])
  }

  function Lengths(packets: seq<bytes>): (ls: seq<nat>)
    ensures |ls| == |packets|
  {
    if packets == [] then [] else [|packets[0]|] + Lengths(packets[1..])
  }

  lemma {:induction false} SlotsAreWords(base: nat, lengths: seq<nat>)
    requires base + Total(lengths) < WORD
    ensures forall i :: 0 <= i < |lengths| ==> WordSized(Slots(base, lengths)[i])
    ensures SlotSum(Slots(base, lengths)) == Total(lengths)
    decreases |lengths|
  {
    if lengths != [] {
      SlotsAreWords(base + lengths[0], lengths[1..]);
    }
  }

  lemma {:induction false} TotalIsFlattened(packets: seq<bytes>)
    ensures Total(Lengths(packets)) == |Flatten(packets)|
  {
    if packets != [] {
      TotalIsFlattened(packets[1..]);
    }
  }

  // ---- the device's side of an isochronous URB ----

  /** One chunk per packet: missing ones are empty, extra ones are dropped. */
  function Padded(n: nat, chunks: seq<bytes>): (r: seq<bytes>)
    ensures |r| == n
    ensures forall i :: 0 <= i < n ==> r[i] == if i < |chunks| then chunks[i] else []
    decreases n
  {
    if n == 0 then [] else Padded(n - 1, chunks) + [if n <= |chunks| then chunks[n - 1] else []]
  }

  function Answered(pkts: seq<IsoPacket>, chunks: seq<bytes>): (r: seq<IsoPacket>)
    requires |chunks| == |pkts|
    ensures |r| == |pkts|
  {
    if pkts == [] then []
    else [pkts[0].(actual := |chunks[0]|, status := 0)] + Answered(pkts[1..], chunks[1..])
  }

  function Accepted(pkts: seq<IsoPacket>): (r: seq<IsoPacket>)
    ensures |r| == |pkts|
  {
    if pkts == [] then [] else [pkts[0].(actual := pkts[0].length, status := 0)] + Accepted(pkts[1..])
  }

  function IsoInDone(u: Urb, chunks: seq<bytes>): Done
    requires u.iso.Some?
  {
    var padded := Padded(|u.iso.value|, chunks);
    Done(u.seqnum, u.devid, u.direction, u.ep, 0, |Flatten(padded)|, Flatten(padded),
         Some(Answered(u.iso.value, padded)))
  }

  function IsoOutDone(u: Urb): Done
    requires u.iso.Some?
  {
    Done(u.seqnum, u.devid, u.direction, u.ep, 0, 0, u.data, Some(Accepted(u.iso.value)))
  }

  /** A packet answered keeps its place and length, with its chunk's size and status 0; one accepted, its own length. */
  lemma {:induction false} PacketResults(pkts: seq<IsoPacket>, chunks: seq<bytes>, i: nat)
    requires |chunks| == |pkts| && i < |pkts|
    ensures Answered(pkts, chunks)[i] == IsoPacket(pkts[i].offset, pkts[i].length, |chunks[i]|, 0)
    ensures Accepted(pkts)[i] == IsoPacket(pkts[i].offset, pkts[i].length, pkts[i].length, 0)
  {
    if i > 0 {
      PacketResults(pkts[1..], chunks[1..], i - 1);
    }
  }

  lemma {:induction false} AnsweredFacts(base: nat, lengths: seq<nat>, chunks: seq<bytes>)
    requires |chunks| == |lengths| && base + Total(lengths) < WORD
    requires forall i :: 0 <= i < |lengths| ==> |chunks[i]| <= lengths[i]
    ensures var r := Answered(Slots(base, lengths), chunks);
            && (forall i :: 0 <= i < |r| ==> WordSized(r[i]))
            && ActualSum(r) == |Flatten(chunks)| <= Total(lengths)
    decreases |lengths|
  {
    if lengths != [] {
      AnsweredFacts(base + lengths[0], lengths[1..], chunks[1..]);
    }
  }

  lemma {:induction false} AcceptedFacts(base: nat, lengths: seq<nat>)
    requires base + Total(lengths) < WORD
    ensures var r := Accepted(Slots(base, lengths));
            && (forall i :: 0 <= i < |r| ==> WordSized(r[i]))
            && ActualSum(r) == Total(lengths)
    decreases |lengths|
  {
    if lengths != [] {
      AcceptedFacts(base + lengths[0], lengths[1..]);
    }
  }

  // ---- putting the packets back ----

  lemma AssignInside(buf: bytes, a: nat, x: bytes)
    requires a + |x| <= |buf|
    ensures var r := Assign(buf, a, a + |x|, x);
            |r| == |buf| && r[..a] == buf[..a] && r[a..a + |x|] == x
  {
  }

  lemma PrefixSlice(r: bytes, s: bytes, n: nat, a: nat, b: nat)
    requires a <= b <= n <= |r| && n <= |s| && r[..n] == s[..n]
    ensures r[a..b] == s[a..b] && r[..a] == s[..a]
  {
    SliceOfPrefix(r, n, a, b);
    SliceOfPrefix(s, n, a, b);
    SliceOfPrefix(r, n, 0, a);
    SliceOfPrefix(s, n, 0, a);
  }

  lemma ScatterStep(buf: bytes, base: nat, lengths: seq<nat>, chunks: seq<bytes>, data: bytes, cum: nat)
    requires |chunks| == |lengths|
    ensures var pkts := Answered(Slots(base, lengths), chunks);
            if lengths == [] then
              Scatter(buf, pkts, data, cum) == buf && Trimmed(buf, pkts) == chunks
            else
              var n := |chunks[0]|;
              var tail := Answered(Slots(base + lengths[0], lengths[1..]), chunks[1..]);
              && Flatten(chunks) == chunks[0] + Flatten(chunks[1..])
              && Scatter(buf, pkts, data, cum)
                 == Scatter(if n > 0 then Assign(buf, base, base + n, Slice(data, cum, cum + n)) else buf,
                            tail, data, cum + n)
              && forall r: bytes :: Trimmed(r, pkts) == [Slice(r, base, base + n)] + Trimmed(r, tail)
  {
    hide Assign, Slice;
    if lengths != [] {
      assert Answered(Slots(base, lengths), chunks)[1..]
          == Answered(Slots(base + lengths[0], lengths[1..]), chunks[1..]);
    }
  }

  /** Scattering chunks that fit their slots fills every slot with its own chunk and nothing else. */
  lemma {:induction false} ScatterFills(buf: bytes, base: nat, lengths: seq<nat>, chunks: seq<bytes>, data: bytes,
                                        cum: nat)
    requires |chunks| == |lengths| && base + Total(lengths) <= |buf|
    requires forall i :: 0 <= i < |lengths| ==> |chunks[i]| <= lengths[i]
    requires cum <= |data| && data[cum..] == Flatten(chunks)
    ensures var pkts := Answered(Slots(base, lengths), chunks);
            var r := Scatter(buf, pkts, data, cum);
            && |r| == |buf|
            && r[..base] == buf[..base]
            && Trimmed(r, pkts) == chunks
    decreases |lengths|
  {
    hide Assign, Slice, Scatter, Answered, Slots, Trimmed, Flatten;
    ScatterStep(buf, base, lengths, chunks, data, cum);
    if lengths != [] {
      var chunk := chunks[0];
      var n := |chunk|;
      var rest := Flatten(chunks[1..]);
      ChunkAt(data, cum, chunk, rest);
      var next := if n > 0 then Assign(buf, base, base + n, chunk) else buf;
      AssignInside(buf, base, chunk);
      ScatterFills(next, base + lengths[0], lengths[1..], chunks[1..], data, cum + n);
      var tail := Answered(Slots(base + lengths[0], lengths[1..]), chunks[1..]);
      var r := Scatter(next, tail, data, cum + n);
      PrefixSlice(r, next, base + lengths[0], base, base + n);
    }
  }

  function Zeros(n: nat): (z: bytes)
    ensures |z| == n
  {
    seq(n, _ => 0)
  }

  /** Every slot from end to end: its chunk, and zeros up to its length. */
  function SlotBytes(lengths: seq<nat>, chunks: seq<bytes>): (b: bytes)
    requires |chunks| == |lengths| && forall i :: 0 <= i < |lengths| ==> |chunks[i]| <= lengths[i]
    ensures |b| == Total(lengths)
  {
    if lengths == [] then []
    else chunks[0] + Zeros(lengths[0] - |chunks[0]|) + SlotBytes(lengths[1..], chunks[1..])
  }

  lemma SlotFilled(front: bytes, n: nat, more: nat, back: bytes, chunk: bytes)
    requires |chunk| <= n
    ensures var buf := front + Zeros(n + more) + back;
            var next := if |chunk| > 0 then Assign(buf, |front|, |front| + |chunk|, chunk) else buf;
            next == front + (chunk + Zeros(n - |chunk|)) + Zeros(more) + back
  {
    var buf := front + Zeros(n + more) + back;
    assert buf[..|front|] == front;
    assert buf[|front| + |chunk|..] == Zeros(n + more - |chunk|) + back;
    assert Zeros(n + more - |chunk|) == Zeros(n - |chunk|) + Zeros(more);
    assert Zeros(n + more) == Zeros(n) + Zeros(more);
  }

  /** Scattering into zeroed slots gives exactly these, and leaves what is around them. */
  lemma {:induction false} ScatterIsSlots(front: bytes, lengths: seq<nat>, back: bytes, chunks: seq<bytes>, data: bytes,
                                          cum: nat)
    requires |chunks| == |lengths| && forall i :: 0 <= i < |lengths| ==> |chunks[i]| <= lengths[i]
    requires cum <= |data| && data[cum..] == Flatten(chunks)
    ensures Scatter(front + Zeros(Total(lengths)) + back, Answered(Slots(|front|, lengths), chunks), data, cum)
         == front + SlotBytes(lengths, chunks) + back
    decreases |lengths|
  {
    hide Assign, Slice, Scatter, Answered, Slots, Trimmed, Flatten, Zeros, SlotBytes, Total;
    var buf := front + Zeros(Total(lengths)) + back;
    ScatterStep(buf, |front|, lengths, chunks, data, cum);
    SlotsFromFront(lengths, chunks);
    if lengths == [] {
      assert buf == front + [] + back;
    } else {
      var chunk, more := chunks[0], Total(lengths[1..]);
      var slot := chunk + Zeros(lengths[0] - |chunk|);
      ChunkAt(data, cum, chunk, Flatten(chunks[1..]));
      SlotFilled(front, lengths[0], more, back, chunk);
      ScatterIsSlots(front + slot, lengths[1..], back, chunks[1..], data, cum + |chunk|);
      Assoc(front, slot, SlotBytes(lengths[1..], chunks[1..]));
    }
  }

  lemma SlotsFromFront(lengths: seq<nat>, chunks: seq<bytes>)
    requires |chunks| == |lengths| && forall i :: 0 <= i < |lengths| ==> |chunks[i]| <= lengths[i]
    ensures lengths == [] ==> Total(lengths) == 0 && Zeros(0) == [] && SlotBytes(lengths, chunks) == []
    ensures lengths != [] ==>
              && Total(lengths) == lengths[0] + Total(lengths[1..])
              && SlotBytes(lengths, chunks)
                 == chunks[0] + Zeros(lengths[0] - |chunks[0]|) + SlotBytes(lengths[1..], chunks[1..])
  {
  }

  lemma ChunkAt(data: bytes, cum: nat, chunk: bytes, rest: bytes)
    requires cum <= |data| && data[cum..] == chunk + rest
    ensures cum + |chunk| <= |data|
    ensures Slice(data, cum, cum + |chunk|) == chunk && data[cum + |chunk|..] == rest
  {
    assert data[cum..][..|chunk|] == chunk;
    assert data[cum..][|chunk|..] == rest;
  }

  /** Packets laid end to end are cut back out by their slots. */
  lemma {:induction false} CutInvertsJoin(data: bytes, base: nat, packets: seq<bytes>)
    requires base <= |data| && data[base..] == Flatten(packets)
    ensures Cut(data, Slots(base, Lengths(packets))) == packets
    decreases |packets|
  {
    if packets != [] {
      ChunkAt(data, base, packets[0], Flatten(packets[1..]));
      CutInvertsJoin(data, base + |packets[0]|, packets[1..]);
    }
  }

  // ---- the replies ----

  /** A reply's header names the URB it answers, tells of success, and counts its bytes and packets. */
  predicate Answers(b: bytes, u: Urb, transferred: nat, packets: nat)
    requires |b| >= 48
  {
    && L.BE32(b, 0) == 3 && L.BE32(b, 4) == u.seqnum && L.BE32(b, 8) == u.devid
    && L.BE32(b, 12) == u.direction && L.BE32(b, 16) == u.ep
    && L.Signed32(b, 20) == 0 && L.Signed32(b, 24) == transferred && L.Signed32(b, 32) == packets
  }

  /** So do both replies of an isochronous URB. */
  lemma IsoAnswersItsUrb(u: Urb, chunks: seq<bytes>)
    requires u.iso.Some?
    ensures ReplyFits(IsoInDone(u, chunks)) ==>
              var b := WriteRet(IsoInDone(u, chunks));
              && |b| >= 48
              && Answers(b, u, |Flatten(Padded(|u.iso.value|, chunks))|, |u.iso.value|)
    ensures ReplyFits(IsoOutDone(u)) ==>
              var b := WriteRet(IsoOutDone(u));
              |b| >= 48 && Answers(b, u, LengthSum(u.iso.value), |u.iso.value|)
  {
    hide WriteRet, Flatten, Padded, Answered, Accepted, L.Actuals, L.BE32, L.Signed32;
    var padded := Padded(|u.iso.value|, chunks);
    if ReplyFits(IsoInDone(u, chunks)) {
      var d := IsoInDone(u, chunks);
      L.ReplyStarts(d, []);
      assert WriteRet(d) + [] == WriteRet(d);
      AnsweredTotal(u.iso.value, padded);
      L.ActualsCons(Answered(u.iso.value, padded));
    }
    if ReplyFits(IsoOutDone(u)) {
      var d := IsoOutDone(u);
      L.ReplyStarts(d, []);
      assert WriteRet(d) + [] == WriteRet(d);
      AcceptedTotal(u.iso.value);
      L.ActualsCons(Accepted(u.iso.value));
    }
  }

  function LengthSum(pkts: seq<IsoPacket>): nat {
    if pkts == [] then 0 else pkts[0].length + LengthSum(pkts[1..])
  }

  lemma {:induction false} AnsweredTotal(pkts: seq<IsoPacket>, chunks: seq<bytes>)
    requires |chunks| == |pkts|
    ensures ActualSum(Answered(pkts, chunks)) == |Flatten(chunks)|
  {
    if pkts != [] {
      AnsweredTotal(pkts[1..], chunks[1..]);
    }
  }

  lemma {:induction false} AcceptedTotal(pkts: seq<IsoPacket>)
    ensures ActualSum(Accepted(pkts)) == LengthSum(pkts)
  {
    if pkts != [] {
      AcceptedTotal(pkts[1..]);
    }
  }

  // ---- the whole transfer ----

  /** `iso_transfer`'s request for the given packet lengths; `buffer` is the OUT data. */
  function Request(seqnum: nat, devid: nat, direction: nat, ep: nat, interval: int,
                   lengths: seq<nat>, buffer: bytes): Command
  {
    var asked := Slots(0, lengths);
    var data := if direction == OUT then Flatten(Cut(buffer, asked)) else [];
    Command(Urb(CMD_SUBMIT, seqnum, devid, direction, ep, 0, Total(lengths), interval, [0, 0, 0, 0, 0, 0, 0, 0],
                data, Some(asked)), 0, |asked|)
  }

  predicate Sendable(seqnum: nat, devid: nat, ep: nat, interval: int, lengths: seq<nat>) {
    && seqnum < WORD && devid < WORD && ep < 16 && Is32(interval)
    && 0 < |lengths| < 0x8000_0000 && Total(lengths) < 0x8000_0000
  }

  /** The slots lie one after another. */
  lemma {:induction false} SlotPlaces(base: nat, lengths: seq<nat>, i: nat)
    requires i < |lengths|
    ensures Slots(base, lengths)[i] == IsoPacket(base + Total(lengths[..i]), lengths[i], 0, 0)
    decreases i
  {
    if i > 0 {
      SlotPlaces(base + lengths[0], lengths[1..], i - 1);
      assert lengths[..i][0] == lengths[0] && lengths[..i][1..] == lengths[1..][..i - 1];
    } else {
      assert lengths[..0] == [];
    }
  }

  /** The request byte by byte: the words 1, seqnum, devid, direction, endpoint, 0, the sum of the lengths, 0, the
      number of packets and the interval, an empty SETUP; then an OUT transfer's data, and the slots. */
  lemma RequestStarts(seqnum: nat, devid: nat, direction: nat, ep: nat, interval: int, lengths: seq<nat>,
                      buffer: bytes)
    requires Sendable(seqnum, devid, ep, interval, lengths) && direction < WORD
    ensures var c := Request(seqnum, devid, direction, ep, interval, lengths, buffer);
            Packable(c)
            && var b := Encode(c);
            && |b| >= 48
            && L.BE32(b, 0) == 1 && L.BE32(b, 4) == seqnum && L.BE32(b, 8) == devid && L.BE32(b, 12) == direction
            && L.BE32(b, 16) == ep && L.BE32(b, 20) == 0 && L.Signed32(b, 24) == Total(lengths) && L.BE32(b, 28) == 0
            && L.Signed32(b, 32) == |lengths| && L.Signed32(b, 36) == interval
            && b[40..48] == [0, 0, 0, 0, 0, 0, 0, 0]
            && b[48..] == (if direction == OUT then Flatten(Cut(buffer, Slots(0, lengths))) else [])
                          + EncodeIso(Slots(0, lengths))
  {
    hide Words, L.BE32, Slots, Flatten, Cut, EncodeIso, Total, Unsigned;
    var c := Request(seqnum, devid, direction, ep, interval, lengths, buffer);
    var ws, tail := CommandWords(c), c.urb.setup + (c.urb.data + IsoBytes(c.urb.iso));
    var b := Encode(c);
    L.SignedWord(Total(lengths));
    L.SignedWord(0);
    L.SignedWord(|lengths|);
    L.SignedWord(interval);
    forall i | 0 <= i < 10
      ensures 4 * i + 4 <= |b| && L.BE32(b, 4 * i) == ws[i]
    {
      L.WordAtHeader(ws, tail, i);
    }
    assert L.BE32(b, 4 * 0) == ws[0] && L.BE32(b, 4 * 1) == ws[1] && L.BE32(b, 4 * 2) == ws[2];
    assert L.BE32(b, 4 * 3) == ws[3] && L.BE32(b, 4 * 4) == ws[4] && L.BE32(b, 4 * 5) == ws[5];
    assert L.BE32(b, 4 * 6) == ws[6] && L.BE32(b, 4 * 7) == ws[7] && L.BE32(b, 4 * 8) == ws[8];
    assert L.BE32(b, 4 * 9) == ws[9];
    assert b[40..48] == tail[..8] == c.urb.setup;
    assert b[48..] == tail[8..] == c.urb.data + IsoBytes(c.urb.iso);
  }

  /**
   * Isochronous IN: the device reads the request off the wire, answers with its chunks, and the host
   * has exactly those chunks, missing ones empty; both ends leave the rest of their streams untouched.
   */
  lemma IsoInReturnsChunks(seqnum: nat, devid: nat, ep: nat, interval: int, lengths: seq<nat>, chunks: seq<bytes>,
                           isIso: (nat, nat) -> bool, toDevice: bytes, toHost: bytes)
    requires Sendable(seqnum, devid, ep, interval, lengths) && isIso(ep, IN)
    requires forall i :: 0 <= i < |chunks| && i < |lengths| ==> |chunks[i]| <= lengths[i]
    ensures var request := Request(seqnum, devid, IN, ep, interval, lengths, []);
            && WellFormed(request, isIso)
            && ReadCmd(Encode(request) + toDevice, isIso) == Got(request.urb, toDevice)
            && var done := IsoInDone(request.urb, chunks);
            && ReplyFits(done)
            && var got := ReadIsoReply(WriteRet(done) + toHost, IN, Slots(0, lengths), Total(lengths));
            && got.Result? && got.status == 0 && got.rest == toHost
            && Trimmed(got.buffer, got.iso) == Padded(|lengths|, chunks)
  {
    hide ReadCmd, Encode, WriteRet, ReadIsoReply, Scatter, Flatten, Padded, Slots, Trimmed, Cut;
    var request := Request(seqnum, devid, IN, ep, interval, lengths, []);
    var padded := Padded(|lengths|, chunks);
    var asked := Slots(0, lengths);
    SlotsAreWords(0, lengths);
    CommandRoundTrip(request, isIso, toDevice);
    AnsweredFacts(0, lengths, padded);
    var done := IsoInDone(request.urb, chunks);
    IsoReplyRoundTrip(done, asked, Total(lengths), toHost);
    assert Flatten(padded)[..|Flatten(padded)|] == Flatten(padded)[0..] == Flatten(padded);
    assert ReplyData(done) == Flatten(padded);
    ScatterFills(Blank(asked, Total(lengths)), 0, lengths, padded, Flatten(padded), 0);
  }

  /** And its buffer is those chunks in their slots with zeros between, to the last byte. */
  lemma IsoInBuffer(seqnum: nat, devid: nat, ep: nat, interval: int, lengths: seq<nat>, chunks: seq<bytes>,
                    isIso: (nat, nat) -> bool, toHost: bytes)
    requires Sendable(seqnum, devid, ep, interval, lengths) && isIso(ep, IN)
    requires forall i :: 0 <= i < |chunks| && i < |lengths| ==> |chunks[i]| <= lengths[i]
    ensures var done := IsoInDone(Request(seqnum, devid, IN, ep, interval, lengths, []).urb, chunks);
            && ReplyFits(done)
            && var got := ReadIsoReply(WriteRet(done) + toHost, IN, Slots(0, lengths), Total(lengths));
            got.Result? && got.buffer == SlotBytes(lengths, Padded(|lengths|, chunks))
  {
    hide ReadCmd, Encode, WellFormed, ReadIsoReply, WriteRet, Scatter, Flatten, Padded, Slots, Trimmed, Cut, SlotBytes;
    hide Zeros, Answered, Blank, Total;
    IsoInReturnsChunks(seqnum, devid, ep, interval, lengths, chunks, isIso, [], toHost);
    var done := IsoInDone(Request(seqnum, devid, IN, ep, interval, lengths, []).urb, chunks);
    var padded, asked := Padded(|lengths|, chunks), Slots(0, lengths);
    IsoReplyRoundTrip(done, asked, Total(lengths), toHost);
    AnsweredFacts(0, lengths, padded);
    assert Flatten(padded)[..|Flatten(padded)|] == Flatten(padded)[0..] == Flatten(padded);
    assert ReplyData(done) == Flatten(padded);
    SlotsAreWords(0, lengths);
    AllZeros(asked, Total(lengths));
    ScatterIsSlots([], lengths, [], padded, Flatten(padded), 0);
    assert [] + Zeros(Total(lengths)) + [] == Zeros(Total(lengths));
    assert [] + SlotBytes(lengths, padded) + [] == SlotBytes(lengths, padded);
  }

  lemma AllZeros(asked: seq<IsoPacket>, n: nat)
    requires SlotSum(asked) == n
    ensures Blank(asked, n) == Zeros(n)
  {
  }

  /** Isochronous OUT: the device is handed exactly the packets given, and each comes back as accepted whole. */
  lemma IsoOutDelivers(seqnum: nat, devid: nat, ep: nat, interval: int, packets: seq<bytes>,
                       isIso: (nat, nat) -> bool, toDevice: bytes, toHost: bytes)
    requires Sendable(seqnum, devid, ep, interval, Lengths(packets)) && isIso(ep, OUT)
    ensures var lengths := Lengths(packets);
            var request := Request(seqnum, devid, OUT, ep, interval, lengths, Flatten(packets));
            && WellFormed(request, isIso)
            && ReadCmd(Encode(request) + toDevice, isIso) == Got(request.urb, toDevice)
            && Cut(request.urb.data, request.urb.iso.value) == packets
            && var done := IsoOutDone(request.urb);
            && ReplyFits(done)
            && var got := ReadIsoReply(WriteRet(done) + toHost, OUT, Slots(0, lengths), Total(lengths));
            && got.Result? && got.status == 0 && got.rest == toHost
            && got.iso == Accepted(Slots(0, lengths))
  {
    hide ReadCmd, Encode, WriteRet, ReadIsoReply, Scatter, Flatten, Slots, Trimmed, Cut, Lengths;
    var lengths := Lengths(packets);
    var request := Request(seqnum, devid, OUT, ep, interval, lengths, Flatten(packets));
    SlotsAreWords(0, lengths);
    TotalIsFlattened(packets);
    assert Flatten(packets)[0..] == Flatten(packets);
    CutInvertsJoin(Flatten(packets), 0, packets);
    CommandRoundTrip(request, isIso, toDevice);
    AcceptedFacts(0, lengths);
    IsoReplyRoundTrip(IsoOutDone(request.urb), Slots(0, lengths), Total(lengths), toHost);
  }

  /** A transfer of no packets reaches the device as an ordinary transfer, without an isochronous part. */
  lemma NoPacketsIsNotIso(seqnum: nat, devid: nat, direction: nat, ep: nat, interval: int,
                          isIso: (nat, nat) -> bool, rest: bytes)
    requires seqnum < WORD && devid < WORD && direction <= IN && ep < 16 && Is32(interval)
    ensures var request := Request(seqnum, devid, direction, ep, interval, [], []);
            ReadCmd(Encode(request) + rest, isIso) == Got(request.urb.(iso := None), rest)
  {
    hide ReadCmd;
    var request := Request(seqnum, devid, direction, ep, interval, [], []);
    CommandRoundTrip(request.(urb := request.urb.(iso := None)), isIso, rest);
  }
}
