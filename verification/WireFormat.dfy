/** The USB/IP URB phase: commands and replies as bytes, and isochronous packets with their padding taken out. */
module WireFormat {
  import opened Bytes

  const CMD_SUBMIT: nat := 1
  const RET_SUBMIT: nat := 3
  const RET_UNLINK: nat := 4
  const WORD: nat := 0x1_0000_0000
  const HEADER: nat := 48
  const ISO_SIZE: nat := 16

  datatype IsoPacket = IsoPacket(offset: nat, length: nat, actual: nat, status: nat)

  datatype Urb = Urb(command: nat, seqnum: nat, devid: nat, direction: nat, ep: nat, flags: nat,
                     length: int, interval: int, setup: bytes, data: bytes, iso: Option<seq<IsoPacket>>)

  // ---- words ----

  /** A field packed as ">I" or ">i": the 32-bit word of a signed value. */
  function Unsigned(v: int): (w: nat)
    requires -0x8000_0000 <= v < WORD
  {
    if v < 0 then v + WORD else v
  }

  function Signed(w: nat): int {
    if w >= 0x8000_0000 then w - WORD else w
  }

  predicate Is32(v: int) {
    -0x8000_0000 <= v < 0x8000_0000
  }

  function Words(ws: seq<nat>): (b: bytes)
    ensures |b| == 4 * |ws|
  {
    if ws == [] then [] else ToBE(ws[0], 4) + Words(ws[1..])
  }

  function WordAt(b: bytes, i: nat): nat
    requires 4 * i + 4 <= |b|
  {
    FromBE(b[4 * i..4 * i + 4])
  }

  lemma {:induction false} WordAtWords(ws: seq<nat>, tail: bytes, i: nat)
    requires i < |ws| && ws[i] < WORD
    ensures WordAt(Words(ws) + tail, i) == ws[i]
    decreases i
  {
    hide ToBE;
    var b := Words(ws) + tail;
    if i == 0 {
      assert b[0..4] == ToBE(ws[0], 4);
      assert Pow256(4) == WORD;
      BERoundTrip(ws[0], 4);
    } else {
      WordAtWords(ws[1..], tail, i - 1);
      var rest := Words(ws[1..]) + tail;
      assert b[4..] == rest;
      var at := 4 * (i - 1);
      assert 4 * i == at + 4;
      SliceOfRest(b, 4, at, at + 4);
    }
  }

  // ---- isochronous descriptors ----

  predicate WordSized(p: IsoPacket) {
    p.offset < WORD && p.length < WORD && p.actual < WORD && p.status < WORD
  }

  function PackIso(p: IsoPacket): (b: bytes)
    ensures |b| == ISO_SIZE
  {
    Words([p.offset, p.length, p.actual, p.status])
  }

  function EncodeIso(pkts: seq<IsoPacket>): (b: bytes)
    ensures |b| == ISO_SIZE * |pkts|
  {
    if pkts == [] then [] else PackIso(pkts[0]) + EncodeIso(pkts[1..])
  }

  function UnpackIso(b: bytes): IsoPacket
    requires |b| >= ISO_SIZE
  {
    IsoPacket(WordAt(b, 0), WordAt(b, 1), WordAt(b, 2), WordAt(b, 3))
  }

  function DecodeIso(raw: bytes, n: nat): (pkts: seq<IsoPacket>)
    requires |raw| >= ISO_SIZE * n
    ensures |pkts| == n
    decreases n
  {
    if n == 0 then [] else [UnpackIso(raw)] + DecodeIso(raw[ISO_SIZE..], n - 1)
  }

  lemma UnpackIsoInvertsPack(p: IsoPacket, tail: bytes)
    requires WordSized(p)
    ensures UnpackIso(PackIso(p) + tail) == p
  {
    hide Words, WordAt;
    var ws := [p.offset, p.length, p.actual, p.status];
    WordAtWords(ws, tail, 0);
    WordAtWords(ws, tail, 1);
    WordAtWords(ws, tail, 2);
    WordAtWords(ws, tail, 3);
  }

  lemma {:induction false} DecodeIsoInvertsEncode(pkts: seq<IsoPacket>, tail: bytes)
    requires forall i :: 0 <= i < |pkts| ==> WordSized(pkts[i])
    ensures DecodeIso(EncodeIso(pkts) + tail, |pkts|) == pkts
  {
    hide PackIso, UnpackIso;
    if pkts != [] {
      var rest := EncodeIso(pkts[1..]) + tail;
      Assoc(PackIso(pkts[0]), EncodeIso(pkts[1..]), tail);
      assert (PackIso(pkts[0]) + rest)[ISO_SIZE..] == rest;
      UnpackIsoInvertsPack(pkts[0], rest);
      DecodeIsoInvertsEncode(pkts[1..], tail);
    }
  }

  // ---- commands ----

  /** A command as sent: the URB, and the start-frame and packet-count words that go with it. */
  datatype Command = Command(urb: Urb, start: int, npkts: int)

  /** A submit of at least one packet to an isochronous endpoint: descriptors follow the data. */
  predicate CarriesIso(command: nat, npkts: int, iso: bool) {
    command == CMD_SUBMIT && npkts > 0 && iso
  }

  predicate Packable(c: Command) {
    Is32(c.urb.length) && Is32(c.start) && Is32(c.npkts) && Is32(c.urb.interval)
  }

  predicate WellFormed(c: Command, isIso: (nat, nat) -> bool) {
    var u := c.urb;
    && Packable(c)
    && u.command < WORD && u.seqnum < WORD && u.devid < WORD && u.direction < WORD && u.ep < WORD && u.flags < WORD
    && |u.setup| == 8
    && |u.data| == (if u.direction == OUT && u.length > 0 then u.length else 0)
    && match u.iso
       case None => !CarriesIso(u.command, c.npkts, isIso(u.ep, u.direction))
       case Some(pkts) =>
         && CarriesIso(u.command, c.npkts, isIso(u.ep, u.direction))
         && |pkts| == c.npkts
         && forall i :: 0 <= i < |pkts| ==> WordSized(pkts[i])
  }

  function CommandWords(c: Command): (ws: seq<nat>)
    requires Packable(c)
    ensures |ws| == 10
  {
    var u := c.urb;
    [u.command, u.seqnum, u.devid, u.direction, u.ep, u.flags,
     Unsigned(u.length), Unsigned(c.start), Unsigned(c.npkts), Unsigned(u.interval)]
  }

  function IsoBytes(iso: Option<seq<IsoPacket>>): bytes {
    match iso
    case None => []
    case Some(pkts) => EncodeIso(pkts)
  }

  function Encode(c: Command): bytes
    requires Packable(c)
  {
    Words(CommandWords(c)) + (c.urb.setup + (c.urb.data + IsoBytes(c.urb.iso)))
  }

  /** `_recvall`: exactly `n` bytes, or None and an exhausted stream. */
  function Take(stream: bytes, n: nat): (Option<bytes>, bytes) {
    if |stream| < n then (None, []) else (Some(stream[..n]), stream[n..])
  }

  /** What a read gives: end of stream, a struct error, or a URB and the bytes after it. */
  datatype Incoming = Closed | Broken | Got(urb: Urb, rest: bytes)

  function OrEmpty(b: Option<bytes>): bytes {
    match b
    case None => []
    case Some(v) => v
  }

  function ReadIso(u: Urb, npkts: nat, stream: bytes): Incoming {
    var (raw, rest) := Take(stream, ISO_SIZE * npkts);
    if |OrEmpty(raw)| < ISO_SIZE * npkts then
      Broken
    else
      Got(u.(iso := Some(DecodeIso(OrEmpty(raw), npkts))), rest)
  }

  function ReadBody(u: Urb, npkts: int, iso: bool, stream: bytes): Incoming {
    var (data, rest) := if u.direction == OUT && u.length > 0 then Take(stream, u.length) else (Some([]), stream);
    var got := u.(data := OrEmpty(data));
    if CarriesIso(u.command, npkts, iso) then ReadIso(got, npkts, rest) else Got(got, rest)
  }

  function ParseHeader(hdr: bytes): (Urb, int)
    requires |hdr| == HEADER
  {
    (Urb(WordAt(hdr, 0), WordAt(hdr, 1), WordAt(hdr, 2), WordAt(hdr, 3), WordAt(hdr, 4), WordAt(hdr, 5),
         Signed(WordAt(hdr, 6)), Signed(WordAt(hdr, 9)), hdr[40..48], [], None),
     Signed(WordAt(hdr, 8)))
  }

  function ReadCmd(stream: bytes, isIso: (nat, nat) -> bool): Incoming {
    var (hdr, rest) := Take(stream, HEADER);
    match hdr
    case None => Closed
    case Some(h) =>
      var (u, npkts) := ParseHeader(h);
      ReadBody(u, npkts, isIso(u.ep, u.direction), rest)
  }

  lemma HeaderRoundTrip(c: Command, isIso: (nat, nat) -> bool)
    requires WellFormed(c, isIso)
    ensures ParseHeader(Words(CommandWords(c)) + c.urb.setup) == (c.urb.(data := [], iso := None), c.npkts)
  {
    hide Words, WordAt;
    var ws := CommandWords(c);
    WordAtWords(ws, c.urb.setup, 0);
    WordAtWords(ws, c.urb.setup, 1);
    WordAtWords(ws, c.urb.setup, 2);
    WordAtWords(ws, c.urb.setup, 3);
    WordAtWords(ws, c.urb.setup, 4);
    WordAtWords(ws, c.urb.setup, 5);
    WordAtWords(ws, c.urb.setup, 6);
    WordAtWords(ws, c.urb.setup, 8);
    WordAtWords(ws, c.urb.setup, 9);
    assert (Words(ws) + c.urb.setup)[40..48] == c.urb.setup;
  }

  lemma TakeFront(front: bytes, rest: bytes)
    ensures Take(front + rest, |front|) == (Some(front), rest)
  {
    assert (front + rest)[..|front|] == front;
    assert (front + rest)[|front|..] == rest;
  }

  lemma BodyRoundTrip(c: Command, isIso: (nat, nat) -> bool, rest: bytes)
    requires WellFormed(c, isIso)
    ensures ReadBody(c.urb.(data := [], iso := None), c.npkts, isIso(c.urb.ep, c.urb.direction),
                     c.urb.data + (IsoBytes(c.urb.iso) + rest))
         == Got(c.urb, rest)
  {
    hide EncodeIso, DecodeIso;
    var u := c.urb;
    var tail := IsoBytes(u.iso) + rest;
    TakeFront(u.data, tail);
    if u.data == [] {
      assert [] + tail == tail;
    }
    match u.iso {
      case None =>
        assert [] + rest == rest;
      case Some(pkts) =>
        TakeFront(EncodeIso(pkts), rest);
        DecodeIsoInvertsEncode(pkts, []);
        assert EncodeIso(pkts) + [] == EncodeIso(pkts);
    }
  }

  /** One command is read back whole and nothing after it is touched. */
  lemma CommandRoundTrip(c: Command, isIso: (nat, nat) -> bool, rest: bytes)
    requires WellFormed(c, isIso)
    ensures ReadCmd(Encode(c) + rest, isIso) == Got(c.urb, rest)
  {
    hide Words, CommandWords, ParseHeader, ReadBody, IsoBytes;
    var hdr := Words(CommandWords(c)) + c.urb.setup;
    var body := c.urb.data + IsoBytes(c.urb.iso);
    Assoc(Words(CommandWords(c)), c.urb.setup, body);
    Assoc(hdr, body, rest);
    Assoc(c.urb.data, IsoBytes(c.urb.iso), rest);
    TakeFront(hdr, body + rest);
    HeaderRoundTrip(c, isIso);
    BodyRoundTrip(c, isIso, rest);
  }

  /** Reading until the stream ends or breaks. */
  function ReadAll(stream: bytes, isIso: (nat, nat) -> bool): (seq<Urb>, Incoming)
    decreases |stream|
  {
    match ReadCmd(stream, isIso)
    case Closed => ([], Closed)
    case Broken => ([], Broken)
    case Got(u, rest) => ReadConsumes(stream, isIso); var (us, end) := ReadAll(rest, isIso); ([u] + us, end)
  }

  lemma ReadConsumes(stream: bytes, isIso: (nat, nat) -> bool)
    ensures ReadCmd(stream, isIso).Got? ==> |ReadCmd(stream, isIso).rest| < |stream|
  {
  }

  function EncodeAll(cs: seq<Command>): bytes
    requires forall i :: 0 <= i < |cs| ==> Packable(cs[i])
  {
    if cs == [] then [] else Encode(cs[0]) + EncodeAll(cs[1..])
  }

  function Urbs(cs: seq<Command>): seq<Urb> {
    if cs == [] then [] else [cs[0].urb] + Urbs(cs[1..])
  }

  /** A stream of well-formed commands is read back as exactly those commands, with nothing left over. */
  lemma {:induction false} StreamRoundTrip(cs: seq<Command>, isIso: (nat, nat) -> bool)
    requires forall i :: 0 <= i < |cs| ==> WellFormed(cs[i], isIso)
    ensures forall i :: 0 <= i < |cs| ==> Packable(cs[i])
    ensures ReadAll(EncodeAll(cs), isIso) == (Urbs(cs), Closed)
  {
    hide Encode, ReadCmd;
    if cs != [] {
      CommandRoundTrip(cs[0], isIso, EncodeAll(cs[1..]));
      StreamRoundTrip(cs[1..], isIso);
    } else {
      NothingToRead(isIso);
    }
  }

  lemma NothingToRead(isIso: (nat, nat) -> bool)
    ensures ReadCmd([], isIso) == Closed
  {
  }

  // ---- replies ----

  /** A completed URB, as the device answers it. */
  datatype Done = Done(seqnum: nat, devid: nat, direction: nat, ep: nat,
                       status: int, actual: int, buffer: bytes, iso: Option<seq<IsoPacket>>)

  function ActualSum(pkts: seq<IsoPacket>): nat {
    if pkts == [] then 0 else pkts[0].actual + ActualSum(pkts[1..])
  }

  function ReplyCount(d: Done): int {
    match d.iso
    case None => 0
    case Some(pkts) => |pkts|
  }

  /** The bytes the reply says were transferred: for isochronous transfers the sum over the packets. */
  function ReplyActual(d: Done): int {
    match d.iso
    case None => d.actual
    case Some(pkts) => ActualSum(pkts)
  }

  predicate ReplyFits(d: Done) {
    && d.seqnum < WORD && d.devid < WORD && d.direction < WORD && d.ep < WORD
    && Is32(d.status) && Is32(ReplyActual(d)) && Is32(ReplyCount(d))
    && (d.iso.Some? ==> forall i :: 0 <= i < |d.iso.value| ==> WordSized(d.iso.value[i]))
    && (d.direction == IN && ReplyActual(d) > 0 ==> |d.buffer| >= ReplyActual(d))
  }

  function ReplyData(d: Done): bytes
    requires ReplyFits(d)
  {
    if d.direction == IN && ReplyActual(d) > 0 then d.buffer[..ReplyActual(d)] else []
  }

  function ReplyWords(d: Done): (ws: seq<nat>)
    requires ReplyFits(d)
    ensures |ws| == 12
  {
    [RET_SUBMIT, d.seqnum, d.devid, d.direction, d.ep,
     Unsigned(d.status), Unsigned(ReplyActual(d)), 0, Unsigned(ReplyCount(d)), 0, 0, 0]
  }

  /** `write_ret`. */
  function WriteRet(d: Done): bytes
    requires ReplyFits(d)
  {
    Words(ReplyWords(d)) + (ReplyData(d) + IsoBytes(d.iso))
  }

  function UnlinkWords(u: Urb): (ws: seq<nat>)
    ensures |ws| == 12
  {
    [RET_UNLINK, u.seqnum, u.devid, u.direction, u.ep, 0, 0, 0, 0, 0, 0, 0]
  }

  /** `write_ret_unlink`. */
  function WriteRetUnlink(u: Urb): bytes {
    Words(UnlinkWords(u))
  }

  /** What the client has after a reply: an exception, or the result and the bytes it left unread. */
  datatype Result = Disconnected | Failed | Result(status: int, actual: int, buffer: bytes, iso: seq<IsoPacket>,
      rest: bytes)

  /** Python's `buf[a:b] = x`. */
  function Assign(buf: bytes, a: nat, b: nat, x: bytes): bytes
    requires a <= b
  {
    buf[..if a <= |buf| then a else |buf|] + x + buf[if b <= |buf| then b else |buf|..]
  }

  /** Each packet's data put into its slot. */
  function Scatter(buf: bytes, pkts: seq<IsoPacket>, data: bytes, cum: nat): bytes
    decreases |pkts|
  {
    if pkts == [] then
      buf
    else
      var p := pkts[0];
      if p.actual > 0 then
        Scatter(Assign(buf, p.offset, p.offset + p.actual, Slice(data, cum, cum + p.actual)), pkts[1..], data,
            cum + p.actual)
      else
        Scatter(buf, pkts[1..], data, cum)
  }

  function SlotSum(pkts: seq<IsoPacket>): nat {
    if pkts == [] then 0 else pkts[0].length + SlotSum(pkts[1..])
  }

  function Larger(a: int, b: int): int {
    if a >= b then a else b
  }

  function Lesser(a: int, b: int): int {
    if a <= b then a else b
  }

  /** The zeroed buffer the packets' data is put into. */
  function Blank(asked: seq<IsoPacket>, length: int): (b: bytes)
    ensures |b| == Larger(SlotSum(asked), length)
  {
    seq(Larger(SlotSum(asked), length), _ => 0)
  }

  /** `client_submit` after the request is sent, for an ordinary transfer. */
  function ReadReply(stream: bytes, direction: nat): Result {
    var (hdr, s1) := Take(stream, HEADER);
    match hdr
    case None => Disconnected
    case Some(h) =>
      var status, actual := Signed(WordAt(h, 5)), Signed(WordAt(h, 6));
      var (data, s2) := if direction == IN && actual > 0 then Take(s1, actual) else (Some([]), s1);
      Result(status, actual, OrEmpty(data), [], s2)
  }

  /** `_client_submit_iso` after the request is sent, for the packets `asked`. */
  function ReadIsoReply(stream: bytes, direction: nat, asked: seq<IsoPacket>, length: int): Result {
    var (hdr, s1) := Take(stream, HEADER);
    match hdr
    case None => Disconnected
    case Some(h) =>
      var status, actual, count := Signed(WordAt(h, 5)), Signed(WordAt(h, 6)), Signed(WordAt(h, 8));
      var (data, s2) := if direction == IN && actual > 0 then Take(s1, actual) else (Some([]), s1);
      var (raw, s3) := if count > 0 then Take(s2, ISO_SIZE * count) else (Some([]), s2);
      var n: int := Lesser(count, |asked|);
      if n > 0 && |OrEmpty(raw)| < ISO_SIZE * n then
        Failed
      else
        var got := if n > 0 then DecodeIso(OrEmpty(raw), n) else [];
        var blank := Blank(asked, length);
        Result(status, actual, if direction == IN then Scatter(blank, got, OrEmpty(data), 0) else blank,
               got + asked[|got|..], s3)
  }

  lemma ReplyHeader(d: Done, tail: bytes)
    requires ReplyFits(d)
    ensures var h := Words(ReplyWords(d));
            && |h| == HEADER
            && Take(h + tail, HEADER) == (Some(h), tail)
            && Signed(WordAt(h, 5)) == d.status
            && Signed(WordAt(h, 6)) == ReplyActual(d)
            && Signed(WordAt(h, 8)) == ReplyCount(d)
  {
    hide Words, WordAt;
    var h := Words(ReplyWords(d));
    TakeFront(h, tail);
    assert h + [] == h;
    WordAtWords(ReplyWords(d), [], 5);
    WordAtWords(ReplyWords(d), [], 6);
    WordAtWords(ReplyWords(d), [], 8);
  }

  lemma ReplyDataTaken(d: Done, tail: bytes)
    requires ReplyFits(d)
    ensures (if d.direction == IN && ReplyActual(d) > 0 then Take(ReplyData(d) + tail, ReplyActual(d))
            else (Some([]), ReplyData(d) + tail))
         == (Some(ReplyData(d)), tail)
  {
    TakeFront(ReplyData(d), tail);
    if ReplyData(d) == [] {
      assert [] + tail == tail;
    }
  }

  /** An ordinary reply is consumed exactly, and its status and data arrive. */
  lemma ReplyRoundTrip(d: Done, rest: bytes)
    requires ReplyFits(d) && d.iso == None
    ensures ReadReply(WriteRet(d) + rest, d.direction) == Result(d.status, d.actual, ReplyData(d), [], rest)
  {
    hide Words, WordAt, ReplyData, ReplyWords;
    Assoc(Words(ReplyWords(d)), ReplyData(d) + [], rest);
    Assoc(ReplyData(d), [], rest);
    assert [] + rest == rest;
    ReplyHeader(d, ReplyData(d) + rest);
    ReplyDataTaken(d, rest);
  }

  /** The first `n` descriptors of those encoded. */
  lemma {:induction false} DecodeFirst(pkts: seq<IsoPacket>, n: nat)
    requires n <= |pkts| && forall i :: 0 <= i < |pkts| ==> WordSized(pkts[i])
    ensures DecodeIso(EncodeIso(pkts), n) == pkts[..n]
    decreases n
  {
    hide PackIso, UnpackIso;
    if n > 0 {
      assert EncodeIso(pkts)[ISO_SIZE..] == EncodeIso(pkts[1..]);
      UnpackIsoInvertsPack(pkts[0], EncodeIso(pkts[1..]));
      DecodeFirst(pkts[1..], n - 1);
      assert pkts[..n] == [pkts[0]] + pkts[1..][..n - 1];
    }
  }

  /** An isochronous reply is consumed exactly, whatever number of packets it has; those asked for that it does not have
      stay as they were, and those it has too many of are passed over. */
  lemma AnyIsoReply(d: Done, asked: seq<IsoPacket>, length: int, rest: bytes)
    requires ReplyFits(d) && d.iso.Some?
    ensures var n := if |d.iso.value| <= |asked| then |d.iso.value| else |asked|;
            ReadIsoReply(WriteRet(d) + rest, d.direction, asked, length)
            == Result(d.status, ReplyActual(d),
                      if d.direction == IN then Scatter(Blank(asked, length), d.iso.value[..n], ReplyData(d), 0)
                      else Blank(asked, length),
                      d.iso.value[..n] + asked[n..], rest)
  {
    hide Words, WordAt, ReplyData, ReplyWords, EncodeIso, DecodeIso, Scatter, Signed;
    var pkts, n := d.iso.value, if |d.iso.value| <= |asked| then |d.iso.value| else |asked|;
    var raw := EncodeIso(pkts);
    Assoc(Words(ReplyWords(d)), ReplyData(d) + raw, rest);
    Assoc(ReplyData(d), raw, rest);
    ReplyHeader(d, ReplyData(d) + (raw + rest));
    ReplyDataTaken(d, raw + rest);
    TakeFront(raw, rest);
    DecodeFirst(pkts, n);
    if pkts == [] {
      assert raw + rest == rest;
    }
  }

  /** With as many packets as were asked for, all are its own. */
  lemma IsoReplyRoundTrip(d: Done, asked: seq<IsoPacket>, length: int, rest: bytes)
    requires ReplyFits(d) && d.iso.Some? && |d.iso.value| == |asked| > 0
    ensures ReadIsoReply(WriteRet(d) + rest, d.direction, asked, length)
         == Result(d.status, ReplyActual(d),
                   if d.direction == IN then Scatter(Blank(asked, length), d.iso.value, ReplyData(d), 0)
                   else Blank(asked, length),
                   d.iso.value, rest)
  {
    hide ReadIsoReply, WriteRet, ReplyData, Scatter, Blank;
    AnyIsoReply(d, asked, length, rest);
    assert d.iso.value[..|asked|] == d.iso.value && d.iso.value + asked[|asked|..] == d.iso.value;
  }
}
