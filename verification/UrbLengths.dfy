/** How much each IN URB gets (usbip/device.py, Endpoint.write and _pop_locked): what the lengths
    asked for and the blobs written determine, over every run, with no word on how the endpoint
    cuts them. */
module UrbLengths {
  import opened Bytes
  import opened UrbPipe

  /** The successful replies, in order. */
  function Delivered(rs: seq<Reply>): seq<Reply> {
    if rs == [] then [] else (if rs[0].status == 0 then [rs[0]] else []) + Delivered(rs[1..])
  }

  /** The first i + 1 pieces make up whole blobs, the first so many that were written. */
  ghost predicate EndsBlob(pieces: seq<bytes>, written: seq<bytes>, i: nat)
    requires i < |pieces|
  {
    exists k :: 0 <= k <= |written| && Cut(pieces[..i + 1], written[..k])
  }

  /** A successful reply that does not fill its URB: shorter than asked, or asked without a limit. */
  predicate Unfilled(asked: nat, data: bytes) {
    asked == 0 || |data| < asked
  }

  /** A reply carries the piece at `i`, as long as its URB asked for unless it ends a blob. */
  ghost predicate FilledAt(r: Reply, pieces: seq<bytes>, written: seq<bytes>, asked: map<nat, nat>, i: nat)
    requires i < |pieces|
  {
    && r.data == pieces[i] && r.seqnum in asked
    && (asked[r.seqnum] != 0 ==> |r.data| <= asked[r.seqnum])
    && (Unfilled(asked[r.seqnum], r.data) ==> EndsBlob(pieces, written, i))
  }

  /** So do the last replies, one for each piece. */
  ghost predicate Filled(rs: seq<Reply>, pieces: seq<bytes>, written: seq<bytes>, asked: map<nat, nat>) {
    && |pieces| <= |rs|
    && var last := rs[|rs| - |pieces|..];
       forall i :: 0 <= i < |pieces| ==> FilledAt(last[i], pieces, written, asked, i)
  }

  /** All but the front of the queue are whole blobs, the last ones written. */
  ghost predicate Aligned(pieces: seq<bytes>, q: seq<bytes>, written: seq<bytes>) {
    if q == [] then Cut(pieces, written)
    else
      && |q| <= |written|
      && q[1..] == written[|written| - |q| + 1..]
      && Cut(pieces + [q[0]], written[..|written| - |q| + 1])
  }

  lemma AlignedWrite(pieces: seq<bytes>, q: seq<bytes>, written: seq<bytes>, data: bytes)
    requires Aligned(pieces, q, written)
    ensures Aligned(pieces, q + [data], written + [data])
  {
    if q == [] {
      CutAppend(pieces, written, data);
      assert (written + [data])[..|written| + 1] == written + [data];
    } else {
      var n := |written| - |q| + 1;
      assert (written + [data])[..n] == written[..n] && (written + [data])[n..] == written[n..] + [data];
    }
  }

  /** A piece more leaves the earlier ones ending where they did. */
  lemma EndsLater(pieces: seq<bytes>, more: seq<bytes>, written: seq<bytes>, later: seq<bytes>, i: nat)
    requires i < |pieces| && EndsBlob(pieces, written, i)
    ensures EndsBlob(pieces + more, written + later, i)
  {
    var k :| 0 <= k <= |written| && Cut(pieces[..i + 1], written[..k]);
    assert (pieces + more)[..i + 1] == pieces[..i + 1] && (written + later)[..k] == written[..k];
  }

  lemma FilledWrite(rs: seq<Reply>, pieces: seq<bytes>, written: seq<bytes>, asked: map<nat, nat>, data: bytes)
    requires Filled(rs, pieces, written, asked)
    ensures Filled(rs, pieces, written + [data], asked)
  {
    hide EndsBlob;
    var last := rs[|rs| - |pieces|..];
    forall i | 0 <= i < |pieces|
      ensures FilledAt(last[i], pieces, written + [data], asked, i)
    {
      assert FilledAt(last[i], pieces, written, asked, i);
      if EndsBlob(pieces, written, i) {
        EndsLater(pieces, [], written, [data], i);
        assert pieces + [] == pieces;
      }
    }
  }

  lemma AlignedPop(pieces: seq<bytes>, q: seq<bytes>, written: seq<bytes>, length: nat)
    requires q != [] && Aligned(pieces, q, written)
    ensures var (chunk, rest) := PopLocked(q, length);
            && Aligned(pieces + [chunk], rest, written)
            && (length != 0 ==> |chunk| <= length)
            && (Unfilled(length, chunk) ==> EndsBlob(pieces + [chunk], written, |pieces|))
  {
    var n := |written| - |q| + 1;
    var (chunk, rest) := PopLocked(q, length);
    if length != 0 && |q[0]| > length {
      assert pieces + [q[0]] + [] == pieces + [q[0]];
      CutFurther(pieces, q[0], [], written[..n], length);
      assert pieces + [q[0][..length], q[0][length..]] + [] == (pieces + [chunk]) + [rest[0]];
      assert rest[1..] == q[1..];
    } else {
      assert rest == q[1..] && chunk == q[0];
      assert (pieces + [chunk])[..|pieces| + 1] == pieces + [chunk];
      if rest != [] {
        CutAppend(pieces + [chunk], written[..n], rest[0]);
        assert written[..n] + [rest[0]] == written[..n + 1];
        assert rest[1..] == written[n + 1..];
      } else {
        assert written[..n] == written;
      }
    }
  }

  lemma FilledPop(rs: seq<Reply>, pieces: seq<bytes>, written: seq<bytes>, asked: map<nat, nat>, r: Reply)
    requires Filled(rs, pieces, written, asked) && r.seqnum in asked
    requires asked[r.seqnum] != 0 ==> |r.data| <= asked[r.seqnum]
    requires Unfilled(asked[r.seqnum], r.data) ==> EndsBlob(pieces + [r.data], written, |pieces|)
    ensures Filled(rs + [r], pieces + [r.data], written, asked)
  {
    hide EndsBlob;
    var rs', pieces' := rs + [r], pieces + [r.data];
    var last, last' := rs[|rs| - |pieces|..], rs'[|rs'| - |pieces'|..];
    assert last' == last + [r];
    forall i | 0 <= i < |pieces'|
      ensures FilledAt(last'[i], pieces', written, asked, i)
    {
      if i < |pieces| {
        assert FilledAt(last[i], pieces, written, asked, i);
        if EndsBlob(pieces, written, i) {
          EndsLater(pieces, [r.data], written, [], i);
          assert written + [] == written;
        }
      }
    }
  }

  lemma {:induction false} DeliveredAppend(a: seq<Reply>, b: seq<Reply>)
    ensures Delivered(a + b) == Delivered(a) + Delivered(b)
  {
    if a == [] {
      assert a + b == b;
    } else {
      DeliveredAppend(a[1..], b);
      assert (a + b)[0] == a[0] && (a + b)[1..] == a[1..] + b;
      Assoc(if a[0].status == 0 then [a[0]] else [], Delivered(a[1..]), Delivered(b));
    }
  }

  lemma DeliveredOne(r: Reply)
    ensures Delivered([r]) == if r.status == 0 then [r] else []
  {
    assert [r][1..] == [];
  }

  lemma {:induction false} ServedDrain(p: Pipe, rs: seq<Reply>, pieces: seq<bytes>, written: seq<bytes>,
                                       asked: map<nat, nat>)
    requires Aligned(pieces, p.q, written) && Filled(rs, pieces, written, asked)
    requires forall k :: k in p.parked ==> k.seqnum in asked && asked[k.seqnum] == k.length
    ensures var (p', out) := Drain(p);
            && Aligned(pieces + ChunksOf(out), p'.q, written)
            && Filled(rs + Delivered(out), pieces + ChunksOf(out), written, asked)
    decreases |p.parked|
  {
    hide Aligned, Filled, Cut, PopLocked;
    if p.parked == [] || p.q == [] {
      assert pieces + ChunksOf([]) == pieces && rs + Delivered([]) == rs;
    } else {
      var k := p.parked[0];
      assert k in p.parked;
      var (chunk, rest) := PopLocked(p.q, k.length);
      var r := Reply(k.seqnum, 0, chunk);
      AlignedPop(pieces, p.q, written, k.length);
      FilledPop(rs, pieces, written, asked, r);
      var p1 := p.(q := rest, parked := p.parked[1..]);
      ServedDrain(p1, rs + [r], pieces + [chunk], written, asked);
      var (p', out1) := Drain(p1);
      assert Drain(p) == (p', [r] + out1);
      assert ([r] + out1)[1..] == out1;
      assert pieces + ChunksOf([r] + out1) == (pieces + [chunk]) + ChunksOf(out1);
      assert rs + Delivered([r] + out1) == (rs + [r]) + Delivered(out1);
    }
  }

  ghost predicate Served(h: History) {
    Aligned(h.chunks, h.pipe.q, h.written) && Filled(Delivered(h.replies), h.chunks, h.written, h.asked)
  }

  lemma {:induction false} StallsDeliverNothing(parked: seq<Parked>)
    ensures Delivered(Stalls(parked)) == []
  {
    if parked != [] {
      StallsDeliverNothing(parked[1..]);
      assert Stalls(parked)[1..] == Stalls(parked[1..]);
    }
  }

  lemma AskedMore(rs: seq<Reply>, pieces: seq<bytes>, written: seq<bytes>, asked: map<nat, nat>, seqnum: nat,
                  length: nat)
    requires Filled(rs, pieces, written, asked) && seqnum !in asked
    ensures Filled(rs, pieces, written, asked[seqnum := length])
  {
    hide EndsBlob;
    var last := rs[|rs| - |pieces|..];
    forall i | 0 <= i < |pieces|
      ensures FilledAt(last[i], pieces, written, asked[seqnum := length], i)
    {
      assert FilledAt(last[i], pieces, written, asked, i);
    }
  }

  lemma SubmitServed(h: History, length: nat, seqnum: nat)
    requires Served(h) && seqnum !in h.asked
    ensures Served(Advance(h, EvSubmit(length, seqnum)))
  {
    hide Aligned, Filled, Cut;
    var p, h' := h.pipe, Advance(h, EvSubmit(length, seqnum));
    var (p', out) := Submit(p, length, seqnum);
    AskedMore(Delivered(h.replies), h.chunks, h.written, h.asked, seqnum, length);
    DeliveredAppend(h.replies, out);
    if out != [] {
      DeliveredOne(out[0]);
    }
    if !p.halted && p.q != [] {
      AlignedPop(h.chunks, p.q, h.written, length);
      ChunksOfOne(seqnum, out[0].data);
      FilledPop(Delivered(h.replies), h.chunks, h.written, h'.asked, out[0]);
    } else {
      NoDataReply(seqnum);
      assert h'.chunks == h.chunks + [] == h.chunks;
      assert Delivered(h'.replies) == Delivered(h.replies) + [] == Delivered(h.replies);
    }
  }

  lemma WriteServed(h: History, data: bytes)
    requires Served(h) && WithinRequests(h)
    ensures Served(Advance(h, EvWrite(data)))
  {
    hide Aligned, Filled, Cut, Drain;
    var p := h.pipe;
    AlignedWrite(h.chunks, p.q, h.written, data);
    FilledWrite(Delivered(h.replies), h.chunks, h.written, h.asked, data);
    ServedDrain(p.(q := p.q + [data]), Delivered(h.replies), h.chunks, h.written + [data], h.asked);
    DeliveredAppend(h.replies, Write(p, data).1);
  }

  lemma NothingServed()
    ensures Served(START)
  {
    assert Cut([], []);
  }

  lemma OtherServed(h: History, e: Event)
    requires Served(h) && (e.EvUnlink? || e.EvStall? || e.EvClearHalt? || e.EvReset?)
    ensures Served(Advance(h, e))
  {
    hide Cut, Remove;
    var out := Step(h.pipe, e).1;
    DeliveredAppend(h.replies, out);
    StallsDeliverNothing(h.pipe.parked);
    StallsCarryNoData(h.pipe.parked);
    assert h.chunks + [] == h.chunks && Delivered(h.replies) + [] == Delivered(h.replies);
    NothingServed();
  }

  /**
   * Over every run: the successful replies since the last reset carry the delivered pieces, in order; none is longer
   * than its URB asked for; and one that is shorter, or whose URB asked for 0, ends a blob, so that up to it whole
   * blobs have been delivered. A reply is cut short of its URB nowhere else.
   */
  lemma {:induction false} ShortRepliesEndBlobs(es: seq<Event>)
    requires UniqueSubmits(es)
    ensures var h := Run(es); Filled(Delivered(h.replies), h.chunks, h.written, h.asked)
    ensures Served(Run(es))
  {
    hide Advance, Aligned, Filled;
    if es == [] {
      NothingServed();
    } else {
      var init, e := es[..|es| - 1], es[|es| - 1];
      ShortRepliesEndBlobs(init);
      RunRespectsLengths(init);
      SubmittedCameFromEvents(init);
      var h := Run(init);
      match e {
        case EvWrite(data) => WriteServed(h, data);
        case EvSubmit(length, seqnum) =>
          assert seqnum !in h.submitted;
          SubmitServed(h, length, seqnum);
        case _ => OtherServed(h, e);
      }
    }
  }

  /** So a URB of 512 bytes parked before a blob of 1024 is written gets the first 512 of them. */
  lemma FullPacket(blob: bytes)
    requires |blob| == 1024
    ensures Write(Submit(EMPTY, 512, 7).0, blob).1 == [Reply(7, 0, blob[..512])]
  {
    assert [] + [blob] == [blob] && [] + [Parked(512, 7)] == [Parked(512, 7)];
    var p := Pipe([blob], [Parked(512, 7)], false);
    assert p.q[1..] == [] && p.parked[1..] == [];
    var p1 := Pipe([blob[512..]] + p.q[1..], [], false);
    assert Drain(p1) == (p1, []);
    assert [Reply(7, 0, blob[..512])] + [] == [Reply(7, 0, blob[..512])];
  }
}
