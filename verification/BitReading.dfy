/** The entropy-coded bit reader (examples/uvc_device.py, class BitReader): byte
    unstuffing, markers, bits and symbols (ITU-T T.81 sections B.1.1.5 and F.2.2). */
module BitReading {
  import opened Bytes
  import opened Huffman

  // ---- stuffing ------------------------------------------------------------------

  /** The entropy-coded bytes from `pos` up to the next marker or the end of the data. */
  function Unstuffed(data: bytes, pos: nat): bytes
    decreases |data| - pos
  {
    if pos >= |data| then []
    else if data[pos] != 0xFF then [data[pos]] + Unstuffed(data, pos + 1)
    else if pos + 1 >= |data| || data[pos + 1] == 0 then [0xFF] + Unstuffed(data, pos + 2)
    else []
  }

  /** The encoder's side: every 0xFF is followed by a zero byte. */
  function Stuff(raw: bytes): bytes {
    if raw == [] then []
    else (if raw[0] == 0xFF then [0xFF, 0] else [raw[0]]) + Stuff(raw[1..])
  }

  /** What may follow a scan: nothing, or a marker. */
  predicate EndsScan(tail: bytes) {
    tail == [] || (|tail| >= 2 && tail[0] == 0xFF && tail[1] != 0)
  }

  /** Unstuffing inverts stuffing and stops at the marker. */
  lemma {:induction false} UnstuffInvertsStuff(before: bytes, raw: bytes, tail: bytes)
    requires EndsScan(tail)
    ensures Unstuffed(before + Stuff(raw) + tail, |before|) == raw
    decreases |raw|
  {
    var data, pos := before + Stuff(raw) + tail, |before|;
    if raw == [] {
      assert data[pos..] == tail;
      if tail != [] {
        assert data[pos] == tail[0] && data[pos + 1] == tail[1];
      }
    } else {
      var step := if raw[0] == 0xFF then [0xFF, 0] else [raw[0]];
      var before' := before + step;
      UnstuffInvertsStuff(before', raw[1..], tail);
      Assoc(before, step, Stuff(raw[1..]));
      assert data == before' + Stuff(raw[1..]) + tail;
      assert data[pos] == step[0];
      if raw[0] == 0xFF {
        assert data[pos + 1] == step[1];
      }
      assert raw == [raw[0]] + raw[1..];
    }
  }

  /** The bits of bytes, each most significant first. */
  function BitsOf(raw: bytes): seq<Bit> {
    if raw == [] then [] else MsbBits(raw[0], 8) + BitsOf(raw[1..])
  }

  /** The encoder packs bits into bytes and fills the last one with ones. */
  function Pack(bits: seq<Bit>): bytes {
    if bits == [] then []
    else if |bits| < 8 then [ByteOf(bits + seq(8 - |bits|, i => 1))]
    else [ByteOf(bits[..8])] + Pack(bits[8..])
  }

  function ByteOf(bits: seq<Bit>): byte
    requires |bits| == 8
  {
    ValueBound(bits);
    assert Pow2(8) == 256;
    ValueOf(bits)
  }

  /** Bits that were shifted in one by one come out the same. */
  lemma {:induction false} MsbOfPushed(x: nat, b: Bit, n: nat)
    ensures MsbBits(2 * x + b, n + 1) == MsbBits(x, n) + [b]
  {
    if n == 0 {
      assert MsbBits(2 * x + b, 1) == [Shr(2 * x + b, 0) % 2] + MsbBits(2 * x + b, 0);
    } else {
      MsbOfPushed(x, b, n - 1);
      ShrOuter(2 * x + b, n);
      assert (2 * x + b) / 2 == x;
      assert MsbBits(2 * x + b, n + 1) == [Shr(2 * x + b, n) % 2] + MsbBits(2 * x + b, n);
      Assoc([Shr(x, n - 1) % 2], MsbBits(x, n - 1), [b]);
    }
  }

  /** The number whose bits these are. */
  function ValueOf(bits: seq<Bit>): nat {
    if bits == [] then 0 else 2 * ValueOf(bits[..|bits| - 1]) + bits[|bits| - 1]
  }

  lemma {:induction false} BitsOfValue(bits: seq<Bit>)
    ensures MsbBits(ValueOf(bits), |bits|) == bits
  {
    if bits != [] {
      var init, last := bits[..|bits| - 1], bits[|bits| - 1];
      BitsOfValue(init);
      MsbOfPushed(ValueOf(init), last, |init|);
      assert bits == init + [last];
    }
  }

  lemma {:induction false} ValueBound(bits: seq<Bit>)
    ensures ValueOf(bits) < Pow2(|bits|)
  {
    if bits != [] {
      ValueBound(bits[..|bits| - 1]);
    }
  }

  function Padding(n: nat): seq<Bit> {
    if n % 8 == 0 then [] else seq(8 - n % 8, i => 1)
  }

  /** Packing keeps the bits and adds less than a byte of ones. */
  lemma {:induction false} PackKeepsBits(bits: seq<Bit>)
    ensures BitsOf(Pack(bits)) == bits + Padding(|bits|)
    ensures |Padding(|bits|)| < 8
  {
    if bits == [] {
      assert bits + Padding(0) == [];
    } else if |bits| < 8 {
      var full := bits + seq(8 - |bits|, i => 1);
      BitsOfValue(full);
      assert Pack(bits)[1..] == [];
      assert MsbBits(ByteOf(full), 8) + [] == full;
    } else {
      PackKeepsBits(bits[8..]);
      BitsOfValue(bits[..8]);
      assert Pack(bits)[1..] == Pack(bits[8..]);
      assert Padding(|bits|) == Padding(|bits| - 8);
      Assoc(bits[..8], bits[8..], Padding(|bits|));
      assert bits[..8] + bits[8..] == bits;
    }
  }

  // ---- the reader ------------------------------------------------------------------

  class BitReader {
    const data: bytes
    var pos: nat
    var buf: nat
    var cnt: nat

    /** The bits still to come: those left in the buffer, then the unstuffed bytes'. */
    ghost function Stream(): seq<Bit>
      reads this
    {
      MsbBits(buf, cnt) + BitsOf(Unstuffed(data, pos))
    }

    constructor (data: bytes, pos: nat)
      ensures this.data == data && this.pos == pos && cnt == 0
      ensures Stream() == BitsOf(Unstuffed(data, pos))
    {
      this.data, this.pos, buf, cnt := data, pos, 0, 0;
      new;
      NoBits(buf, BitsOf(Unstuffed(data, pos)));
    }

    /** The next entropy-coded byte; None at a marker, which is left in place, or the end. */
    method NextByte() returns (b: Option<byte>)
      modifies this`pos
      ensures match b {
          case Some(v) => Unstuffed(data, old(pos)) == [v] + Unstuffed(data, pos)
          case None => Unstuffed(data, old(pos)) == [] && pos == old(pos)
        }
    {
      if pos >= |data| {
        return None;
      }
      var v := data[pos];
      pos := pos + 1;
      if v != 0xFF {
        return Some(v);
      }
      var following := if pos < |data| then data[pos] else 0;
      if following == 0x00 {
        pos := pos + 1;
        return Some(0xFF);
      }
      pos := pos - 1;
      return None;
    }

    method ReadBit() returns (b: Bit)
      modifies this`pos, this`buf, this`cnt
      ensures (b, Stream()) == NextBit(old(Stream()))
    {
      hide Unstuffed;
      if cnt == 0 {
        NoBits(buf, BitsOf(Unstuffed(data, pos)));
        ghost var before := pos;
        var v := NextByte();
        if v.None? {
          NoBits(buf, []);
          return 0;
        }
        buf, cnt := v.value, 8;
        assert ([v.value] + Unstuffed(data, pos))[1..] == Unstuffed(data, pos);
        assert Stream() == BitsOf(Unstuffed(data, before));
      }
      assert Stream() == old(Stream());
      ConsSplit(buf, cnt, BitsOf(Unstuffed(data, pos)));
      cnt := cnt - 1;
      b := Shr(buf, cnt) % 2;
    }

    method Get(n: nat) returns (value: nat)
      modifies this`pos, this`buf, this`cnt
      ensures (value, Stream()) == GetBits(old(Stream()), n, 0)
    {
      hide MsbBits, BitsOf, Unstuffed, NextBit;
      value := 0;
      var i: nat := 0;
      while i < n
        invariant 0 <= i <= n
        invariant GetBits(old(Stream()), n, 0) == GetBits(Stream(), n - i, value)
      {
        var b := ReadBit();
        value := 2 * value + b;
        i := i + 1;
      }
    }

    /** One Huffman-coded symbol. */
    method Huff(table: Table) returns (symbol: nat)
      modifies this`pos, this`buf, this`cnt
      ensures (symbol, Stream()) == ReadSymbol(old(Stream()), table, 1, 0)
    {
      hide MsbBits, BitsOf, Unstuffed, NextBit;
      var code: nat, length: nat := 0, 1;
      while length <= MAX_LENGTH
        invariant 1 <= length <= MAX_LENGTH + 1
        invariant ReadSymbol(old(Stream()), table, 1, 0) == ReadSymbol(Stream(), table, length, code)
      {
        var b := ReadBit();
        code := 2 * code + b;
        if (length, code) in table {
          return table[(length, code)];
        }
        length := length + 1;
      }
      return 0;
    }
  }
}
