/** The socket, and the two ends of a USB/IP connection reading and writing through it. */
module UsbIpObjects {
  import opened Bytes
  import opened WireFormat
  import opened IsoTransfers
  import L = WireLayout

  /** A TCP stream: bytes arrive in segments of any size. */
  class Socket {
    var inbound: seq<bytes>
    var sent: bytes

    ghost predicate Valid()
      reads this
    {
      forall i :: 0 <= i < |inbound| ==> inbound[i] != []
    }

    function Stream(): bytes
      reads this
    {
      Flatten(inbound)
    }

    constructor (segments: seq<bytes>)
      requires forall i :: 0 <= i < |segments| ==> segments[i] != []
      ensures Valid() && inbound == segments && sent == []
    {
      inbound, sent := segments, [];
    }

    /** At most `n` bytes of the first segment; empty only at the end of the stream. */
    method Recv(n: nat) returns (chunk: bytes)
      requires Valid() && n > 0
      modifies `inbound
      ensures Valid() && |chunk| <= n
      ensures chunk + Stream() == old(Stream())
      ensures chunk == [] <==> old(Stream()) == []
    {
      if inbound == [] {
        return [];
      }
      var first := inbound[0];
      if |first| <= n {
        chunk := first;
        inbound := inbound[1..];
      } else {
        chunk := first[..n];
        ghost var tail := inbound[1..];
        inbound := [first[n..]] + inbound[1..];
        assert inbound[1..] == tail;
        Assoc(first[..n], first[n..], Flatten(tail));
        assert first[..n] + first[n..] == first;
      }
    }

    method RecvAll(want: nat) returns (r: Option<bytes>)
      requires Valid()
      modifies `inbound
      ensures Valid() && (r, Stream()) == Take(old(Stream()), want)
    {
      var buf: bytes := [];
      assert [] + Stream() == Stream();
      while |buf| < want
        invariant Valid() && |buf| <= want
        invariant buf + Stream() == old(Stream())
        decreases want - |buf|
      {
        ghost var got := buf;
        var chunk := Recv(want - |buf|);
        if chunk == [] {
          assert buf + [] == buf;
          return None;
        }
        buf := buf + chunk;
        Assoc(got, chunk, Stream());
      }
      TakeFront(buf, Stream());
      return Some(buf);
    }

    method SendAll(data: bytes)
      modifies `sent
      ensures sent == old(sent) + data
    {
      sent := sent + data;
    }
  }

  // ---- the device's end ----

  class DeviceEnd {
    const sock: Socket
    /** The (endpoint, direction) pairs the device serves isochronously. */
    const isIso: (nat, nat) -> bool

    constructor (sock: Socket, isIso: (nat, nat) -> bool)
      ensures this.sock == sock && this.isIso == isIso
    {
      this.sock, this.isIso := sock, isIso;
    }

    /** The next command, None at the end of the stream; `broken` is the struct error of a cut-off descriptor list. */
    method Read() returns (urb: Option<Urb>, broken: bool)
      requires sock.Valid()
      modifies sock`inbound
      ensures sock.Valid()
      ensures match ReadCmd(old(sock.Stream()), isIso)
              case Closed => urb == None && !broken
              case Broken => broken
              case Got(u, rest) => urb == Some(u) && !broken && sock.Stream() == rest
    {
      hide ParseHeader, DecodeIso;
      var hdr := sock.RecvAll(HEADER);
      if hdr == None {
        return None, false;
      }
      var (u, npkts) := ParseHeader(hdr.value);
      if u.direction == OUT && u.length > 0 {
        var data := sock.RecvAll(u.length);
        u := u.(data := OrEmpty(data));
      } else {
        u := u.(data := []);
      }
      if CarriesIso(u.command, npkts, isIso(u.ep, u.direction)) {
        var raw := sock.RecvAll(ISO_SIZE * npkts);
        if |OrEmpty(raw)| < ISO_SIZE * npkts {
          return None, true;
        }
        u := u.(iso := Some(DecodeIso(OrEmpty(raw), npkts)));
      }
      return Some(u), false;
    }

    method Respond(d: Done)
      requires ReplyFits(d)
      modifies sock`sent
      ensures sock.sent == old(sock.sent) + WriteRet(d) && L.ReplyHeading(sock.sent[|old(sock.sent)|..], d)
    {
      hide Words, L.ReplyHeading;
      ghost var before := sock.sent;
      sock.SendAll(Words(ReplyWords(d)));
      if d.iso.Some? {
        if d.direction == IN && ReplyActual(d) > 0 {
          sock.SendAll(d.buffer[..ReplyActual(d)]);
        }
        sock.SendAll(EncodeIso(d.iso.value));
      } else if d.direction == IN && d.actual > 0 {
        sock.SendAll(d.buffer[..d.actual]);
      }
      assert sock.sent == before + WriteRet(d);
      assert sock.sent[|before|..] == WriteRet(d) + [];
      L.ReplyStarts(d, []);
    }

    /** The acknowledgement of an unlink. */
    method Acknowledge(u: Urb)
      modifies sock`sent
      ensures sock.sent == old(sock.sent) + WriteRetUnlink(u)
    {
      sock.SendAll(Words(UnlinkWords(u)));
    }

    /** An isochronous IN URB answered with the chunks the interface produced. */
    method HandleIsoIn(u: Urb, chunks: seq<bytes>) returns (d: Done)
      requires u.iso.Some?
      ensures d == IsoInDone(u, chunks)
    {
      hide Padded;
      var pkts := u.iso.value;
      ghost var padded := Padded(|pkts|, chunks);
      var buf: bytes, out := [], [];
      assert padded[0..] == padded && pkts[0..] == pkts;
      assert [] + Flatten(padded) == Flatten(padded);
      assert [] + Answered(pkts, padded) == Answered(pkts, padded);
      var i := 0;
      while i < |pkts|
        invariant 0 <= i <= |pkts|
        invariant buf + Flatten(padded[i..]) == Flatten(padded)
        invariant out + Answered(pkts[i..], padded[i..]) == Answered(pkts, padded)
      {
        var chunk := if i < |chunks| then chunks[i] else [];
        Assoc(buf, chunk, Flatten(padded[i + 1..]));
        Assoc(out, [pkts[i].(actual := |chunk|, status := 0)], Answered(pkts[i + 1..], padded[i + 1..]));
        assert padded[i..][1..] == padded[i + 1..] && pkts[i..][1..] == pkts[i + 1..];
        out := out + [pkts[i].(actual := |chunk|, status := 0)];
        buf := buf + chunk;
        i := i + 1;
      }
      assert buf + [] == buf && out + [] == out;
      d := Done(u.seqnum, u.devid, u.direction, u.ep, 0, |buf|, buf, Some(out));
    }
  }

  // ---- the host's end ----

  /** Consecutive slots for the requested lengths, and where they end. */
  method BuildSlots(lengths: seq<nat>) returns (iso: seq<IsoPacket>, off: nat)
    ensures iso == Slots(0, lengths) && off == Total(lengths)
  {
    iso, off := [], 0;
    assert lengths[0..] == lengths;
    assert [] + Slots(0, lengths) == Slots(0, lengths);
    var i := 0;
    while i < |lengths|
      invariant 0 <= i <= |lengths|
      invariant iso + Slots(off, lengths[i..]) == Slots(0, lengths)
      invariant off + Total(lengths[i..]) == Total(lengths)
    {
      assert lengths[i..][1..] == lengths[i + 1..];
      Assoc(iso, [IsoPacket(off, lengths[i], 0, 0)], Slots(off + lengths[i], lengths[i + 1..]));
      iso := iso + [IsoPacket(off, lengths[i], 0, 0)];
      off := off + lengths[i];
      i := i + 1;
    }
    assert iso + [] == iso;
  }

  /** The client's scatter loop. */
  method ScatterPackets(blank: bytes, got: seq<IsoPacket>, data: bytes) returns (buf: bytes)
    ensures buf == Scatter(blank, got, data, 0)
  {
    buf := blank;
    var cum: nat := 0;
    var i := 0;
    assert got[0..] == got;
    while i < |got|
      invariant 0 <= i <= |got|
      invariant Scatter(buf, got[i..], data, cum) == Scatter(blank, got, data, 0)
    {
      assert got[i..][1..] == got[i + 1..];
      var p := got[i];
      if p.actual > 0 {
        buf := Assign(buf, p.offset, p.offset + p.actual, Slice(data, cum, cum + p.actual));
        cum := cum + p.actual;
      }
      i := i + 1;
    }
  }

  class HostEnd {
    const sock: Socket
    const devid: nat
    var seqnum: nat

    constructor (sock: Socket, devid: nat)
      ensures this.sock == sock && this.devid == devid && seqnum == 0
    {
      this.sock, this.devid, seqnum := sock, devid, 0;
    }

    /** Number the transfer and send its request. */
    method SendIso(direction: nat, ep: nat, interval: int, lengths: seq<nat>, buffer: bytes)
        returns (asked: seq<IsoPacket>)
      requires Total(lengths) < 0x8000_0000 && |lengths| < 0x8000_0000 && Is32(interval)
      modifies `seqnum, sock`sent
      ensures seqnum == old(seqnum) + 1 && asked == Slots(0, lengths)
      ensures sock.sent == old(sock.sent) + Encode(Request(seqnum, devid, direction, ep, interval, lengths, buffer))
    {
      hide Words, EncodeIso, Cut;
      seqnum := seqnum + 1;
      var off: nat;
      asked, off := BuildSlots(lengths);
      var request := Request(seqnum, devid, direction, ep, interval, lengths, buffer);
      sock.SendAll(Words(CommandWords(request)) + request.urb.setup);
      if direction == OUT {
        sock.SendAll(Flatten(Cut(buffer, asked)));
      }
      sock.SendAll(EncodeIso(asked));
    }

    /** Read the reply to the packets `asked` for. */
    method ReceiveIso(direction: nat, asked: seq<IsoPacket>, length: nat) returns (r: Result)
      requires sock.Valid()
      modifies sock`inbound
      ensures sock.Valid()
      ensures r == ReadIsoReply(old(sock.Stream()), direction, asked, length)
      ensures r.Result? ==> r.rest == sock.Stream()
    {
      hide DecodeIso, Scatter, WordAt, Signed;
      var hdr := sock.RecvAll(HEADER);
      if hdr == None {
        return Disconnected;
      }
      var h := hdr.value;
      var status, actual, count := Signed(WordAt(h, 5)), Signed(WordAt(h, 6)), Signed(WordAt(h, 8));
      var data: Option<bytes> := Some([]);
      if direction == IN && actual > 0 {
        data := sock.RecvAll(actual);
      }
      var raw: Option<bytes> := Some([]);
      if count > 0 {
        raw := sock.RecvAll(ISO_SIZE * count);
      }
      var n: int := Lesser(count, |asked|);
      if n > 0 && |OrEmpty(raw)| < ISO_SIZE * n {
        return Failed;
      }
      var got := if n > 0 then DecodeIso(OrEmpty(raw), n) else [];
      var buf := Blank(asked, length);
      if direction == IN {
        buf := ScatterPackets(buf, got, OrEmpty(data));
      }
      r := Result(status, actual, buf, got + asked[|got|..], sock.Stream());
    }
  }
}
