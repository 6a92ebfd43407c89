/** Canonical JPEG Huffman tables (examples/uvc_device.py, build_huffman; ITU-T T.81
    Annex C) and reading them bit by bit. */
module Huffman {
  import opened Bytes

  type Bit = b: int | 0 <= b < 2

  const MAX_LENGTH: nat := 16

  /** x >> n. */
  function Shr(x: nat, n: nat): nat {
    if n == 0 then x else Shr(x, n - 1) / 2
  }

  /** The low n bits of x, most significant first. */
  function MsbBits(x: nat, n: nat): (r: seq<Bit>)
    ensures |r| == n
  {
    if n == 0 then [] else [Shr(x, n - 1) % 2] + MsbBits(x, n - 1)
  }

  lemma {:induction false} ShrOuter(x: nat, n: nat)
    requires n > 0
    ensures Shr(x, n) == Shr(x / 2, n - 1)
  {
    if n > 1 {
      ShrOuter(x, n - 1);
    }
  }

  lemma {:induction false} ShrFits(x: nat, n: nat)
    ensures Shr(x, n) == 0 <==> x < Pow2(n)
  {
    if n > 0 {
      ShrOuter(x, n);
      ShrFits(x / 2, n - 1);
    }
  }

  // ---- the table -----------------------------------------------------------------

  /** (length, code) -> symbol */
  type Table = map<(nat, nat), nat>

  /** The first code of length `l`: codes are counted up, doubling at each new length. */
  function First(counts: seq<nat>, l: nat): nat
    requires 1 <= l <= |counts| + 1
  {
    if l == 1 then 0 else 2 * (First(counts, l - 1) + counts[l - 2])
  }

  /** One past the last code of length `l`. */
  function End(counts: seq<nat>, l: nat): nat
    requires 1 <= l <= |counts|
  {
    First(counts, l) + counts[l - 1]
  }

  /** How many symbols have codes shorter than `l`. */
  function Offset(counts: seq<nat>, l: nat): nat
    requires 1 <= l <= |counts| + 1
  {
    if l == 1 then 0 else Offset(counts, l - 1) + counts[l - 2]
  }

  ghost predicate IsCode(counts: seq<nat>, l: nat, c: nat) {
    1 <= l <= |counts| && First(counts, l) <= c < End(counts, l)
  }

  /** Exactly the codes of the canonical order, each with its symbol. */
  ghost predicate Canonical(table: Table, counts: seq<nat>, symbols: seq<nat>) {
    && |counts| == MAX_LENGTH && Offset(counts, MAX_LENGTH + 1) <= |symbols|
    && (forall l: nat, c: nat :: (l, c) in table <==> IsCode(counts, l, c))
    && (forall l: nat, c: nat :: IsCode(counts, l, c) ==>
          Offset(counts, l) + (c - First(counts, l)) < |symbols|
          && (l, c) in table && table[(l, c)] == symbols[Offset(counts, l) + (c - First(counts, l))])
    && |table| == Offset(counts, MAX_LENGTH + 1)
  }

  lemma {:induction false} OffsetMonotone(counts: seq<nat>, a: nat, b: nat)
    requires 1 <= a <= b <= |counts| + 1
    ensures Offset(counts, a) <= Offset(counts, b)
  {
    if a < b {
      OffsetMonotone(counts, a, b - 1);
    }
  }

  /** The codes laid down after `done` codes of length `l`. */
  ghost predicate Reached(counts: seq<nat>, l: nat, done: nat, m: nat, c: nat)
    requires 1 <= l <= |counts|
  {
    (m < l && IsCode(counts, m, c)) || (m == l && First(counts, l) <= c < First(counts, l) + done)
  }

  ghost predicate RightSymbol(table: Table, counts: seq<nat>, symbols: seq<nat>, m: nat, c: nat)
    requires (m, c) in table
  {
    && 1 <= m <= |counts| && c >= First(counts, m)
    && Offset(counts, m) + (c - First(counts, m)) < |symbols|
    && table[(m, c)] == symbols[Offset(counts, m) + (c - First(counts, m))]
  }

  ghost predicate Partial(table: Table, counts: seq<nat>, symbols: seq<nat>, l: nat, done: nat) {
    && |counts| == MAX_LENGTH && 1 <= l <= MAX_LENGTH && done <= counts[l - 1]
    && (forall m: nat, c: nat :: (m, c) in table <==> Reached(counts, l, done, m, c))
    && (forall m: nat, c: nat :: (m, c) in table ==> RightSymbol(table, counts, symbols, m, c))
    && |table| == Offset(counts, l) + done
  }

  lemma PartialAdd(table: Table, counts: seq<nat>, symbols: seq<nat>, l: nat, done: nat)
    requires Partial(table, counts, symbols, l, done) && done < counts[l - 1]
    requires Offset(counts, l) + done < |symbols|
    ensures Partial(table[(l, First(counts, l) + done) := symbols[Offset(counts, l) + done]], counts, symbols,
                    l, done + 1)
  {
    hide First, Offset, IsCode;
    var key := (l, First(counts, l) + done);
    assert !Reached(counts, l, done, key.0, key.1);
    var table' := table[key := symbols[Offset(counts, l) + done]];
    assert table'.Keys == table.Keys + {key};
    assert |table'.Keys| == |table.Keys| + 1;
    forall m: nat, c: nat ensures (m, c) in table' <==> Reached(counts, l, done + 1, m, c) {
      assert (m, c) in table <==> Reached(counts, l, done, m, c);
    }
    forall m: nat, c: nat | (m, c) in table' ensures RightSymbol(table', counts, symbols, m, c) {
      if (m, c) != key {
        assert RightSymbol(table, counts, symbols, m, c);
      }
    }
  }

  lemma PartialNext(table: Table, counts: seq<nat>, symbols: seq<nat>, l: nat)
    requires 1 <= l < MAX_LENGTH && |counts| == MAX_LENGTH && Partial(table, counts, symbols, l, counts[l - 1])
    ensures Partial(table, counts, symbols, l + 1, 0)
  {
    forall m: nat, c: nat ensures (m, c) in table <==> Reached(counts, l + 1, 0, m, c) {
      assert (m, c) in table <==> Reached(counts, l, counts[l - 1], m, c);
    }
  }

  lemma PartialIsCanonical(table: Table, counts: seq<nat>, symbols: seq<nat>)
    requires |counts| == MAX_LENGTH && Offset(counts, MAX_LENGTH + 1) <= |symbols|
    requires Partial(table, counts, symbols, MAX_LENGTH, counts[MAX_LENGTH - 1])
    ensures Canonical(table, counts, symbols)
  {
    forall l: nat, c: nat | IsCode(counts, l, c)
      ensures Offset(counts, l) + (c - First(counts, l)) < |symbols|
      ensures (l, c) in table && table[(l, c)] == symbols[Offset(counts, l) + (c - First(counts, l))]
    {
      assert Reached(counts, MAX_LENGTH, counts[MAX_LENGTH - 1], l, c);
      assert RightSymbol(table, counts, symbols, l, c);
    }
  }

  /** Expand the 16 length counts and the symbols into the code table. */
  method BuildHuffman(counts: seq<nat>, symbols: seq<nat>) returns (table: Table)
    requires |counts| == MAX_LENGTH && Offset(counts, MAX_LENGTH + 1) <= |symbols|
    ensures Canonical(table, counts, symbols)
  {
    hide Canonical, Partial;
    table := map[];
    var code, nextSymbol, length := 0, 0, 1;
    NothingYet(counts, symbols);
    while length <= MAX_LENGTH
      invariant 1 <= length <= MAX_LENGTH + 1
      invariant code == First(counts, length) && nextSymbol == Offset(counts, length)
      invariant length <= MAX_LENGTH ==> Partial(table, counts, symbols, length, 0)
      invariant length == MAX_LENGTH + 1 ==> Partial(table, counts, symbols, MAX_LENGTH, counts[MAX_LENGTH - 1])
    {
      var n := 0;
      OffsetMonotone(counts, length + 1, MAX_LENGTH + 1);
      while n < counts[length - 1]
        invariant n <= counts[length - 1]
        invariant code == First(counts, length) + n && nextSymbol == Offset(counts, length) + n
        invariant Partial(table, counts, symbols, length, n)
      {
        PartialAdd(table, counts, symbols, length, n);
        table := table[(length, code) := symbols[nextSymbol]];
        nextSymbol := nextSymbol + 1;
        code := code + 1;
        n := n + 1;
      }
      if length < MAX_LENGTH {
        PartialNext(table, counts, symbols, length);
      }
      code := 2 * code;
      length := length + 1;
    }
    PartialIsCanonical(table, counts, symbols);
  }

  lemma NothingYet(counts: seq<nat>, symbols: seq<nat>)
    requires |counts| == MAX_LENGTH
    ensures Partial(map[], counts, symbols, 1, 0)
  {
    assert forall m: nat, c: nat :: !Reached(counts, 1, 0, m, c);
  }

  // ---- prefix-freeness and the Kraft bound --------------------------------------------

  /** A code shifted down to a shorter length lies past every code of that length. */
  lemma {:induction false} PrefixLiesPast(counts: seq<nat>, l: nat, c: nat, m: nat)
    requires 1 <= m < l && IsCode(counts, l, c)
    ensures Shr(c, m) >= End(counts, l - m)
  {
    if m > 1 {
      PrefixLiesPast(counts, l, c, m - 1);
    }
  }

  /** No code of a canonical table is a prefix of another, for any counts at all. */
  lemma PrefixFree(table: Table, counts: seq<nat>, symbols: seq<nat>, l1: nat, c1: nat, l2: nat, c2: nat)
    requires Canonical(table, counts, symbols)
    requires (l1, c1) in table && (l2, c2) in table && (l1, c1) != (l2, c2) && l1 <= l2
    ensures Shr(c2, l2 - l1) != c1
  {
    if l1 < l2 {
      PrefixLiesPast(counts, l2, c2, l2 - l1);
    }
  }

  /** The Kraft sum over the first n lengths, in units of 2^-16. */
  function Kraft(counts: seq<nat>, n: nat): nat
    requires n <= |counts| == MAX_LENGTH
  {
    if n == 0 then 0 else Kraft(counts, n - 1) + counts[n - 1] * Pow2(MAX_LENGTH - n)
  }

  lemma {:induction false} KraftIsEnd(counts: seq<nat>, l: nat)
    requires 1 <= l <= |counts| == MAX_LENGTH
    ensures Kraft(counts, l) == End(counts, l) * Pow2(MAX_LENGTH - l)
  {
    var p := Pow2(MAX_LENGTH - l);
    if l == 1 {
      assert Kraft(counts, 0) == 0;
    } else {
      KraftIsEnd(counts, l - 1);
      var e := End(counts, l - 1);
      assert Pow2(MAX_LENGTH - (l - 1)) == 2 * p;
      KraftStep(e, counts[l - 1], p);
    }
  }

  lemma KraftStep(e: nat, n: nat, p: nat)
    ensures e * (2 * p) + n * p == (2 * e + n) * p
  {
  }

  lemma {:induction false} EndsGrow(counts: seq<nat>, l: nat)
    requires 1 <= l <= |counts| == MAX_LENGTH && End(counts, MAX_LENGTH) <= Pow2(MAX_LENGTH)
    ensures End(counts, l) <= Pow2(l)
    decreases MAX_LENGTH - l
  {
    if l < MAX_LENGTH {
      EndsGrow(counts, l + 1);
      assert Pow2(l + 1) == 2 * Pow2(l);
    }
  }

  /** Every code fits in its own length. */
  ghost predicate CodesFit(counts: seq<nat>)
    requires |counts| == MAX_LENGTH
  {
    forall l :: 1 <= l <= MAX_LENGTH && counts[l - 1] > 0 ==> End(counts, l) <= Pow2(l)
  }

  lemma {:induction false} EndsFit(counts: seq<nat>, l: nat)
    requires 1 <= l <= |counts| == MAX_LENGTH && CodesFit(counts)
    ensures End(counts, l) <= Pow2(l)
  {
    if counts[l - 1] == 0 {
      if l > 1 {
        EndsFit(counts, l - 1);
        assert Pow2(l) == 2 * Pow2(l - 1);
      }
    }
  }

  /** All codes fit in their lengths exactly when the counts satisfy the Kraft bound. */
  lemma KraftIffCodesFit(counts: seq<nat>)
    requires |counts| == MAX_LENGTH
    ensures Kraft(counts, MAX_LENGTH) <= Pow2(MAX_LENGTH) <==> CodesFit(counts)
  {
    KraftIsEnd(counts, MAX_LENGTH);
    if End(counts, MAX_LENGTH) <= Pow2(MAX_LENGTH) {
      forall l | 1 <= l <= MAX_LENGTH ensures End(counts, l) <= Pow2(l) {
        EndsGrow(counts, l);
      }
    }
    if CodesFit(counts) {
      EndsFit(counts, MAX_LENGTH);
    }
  }

  // ---- reading -------------------------------------------------------------------------

  /** One bit of a stream, 0 past its end. */
  function NextBit(s: seq<Bit>): (Bit, seq<Bit>) {
    if s == [] then (0, []) else (s[0], s[1..])
  }

  /** n bits, most significant first, shifted in below `acc`. */
  function GetBits(s: seq<Bit>, n: nat, acc: nat): (nat, seq<Bit>) {
    if n == 0 then (acc, s)
    else var (b, s') := NextBit(s); GetBits(s', n - 1, 2 * acc + b)
  }

  /** Grow the code one bit at a time until the table knows it; 0 when no length does. */
  function ReadSymbol(s: seq<Bit>, table: Table, length: nat, code: nat): (nat, seq<Bit>)
    decreases MAX_LENGTH + 1 - length
  {
    if length > MAX_LENGTH then (0, s)
    else
      var (b, s') := NextBit(s);
      var c := 2 * code + b;
      if (length, c) in table then (table[(length, c)], s')
      else ReadSymbol(s', table, length + 1, c)
  }

  lemma ConsSplit(x: nat, n: nat, rest: seq<Bit>)
    requires n > 0
    ensures NextBit(MsbBits(x, n) + rest) == (Shr(x, n - 1) % 2, MsbBits(x, n - 1) + rest)
    ensures 2 * Shr(x, n) + Shr(x, n - 1) % 2 == Shr(x, n - 1)
  {
    var s := MsbBits(x, n) + rest;
    assert s[1..] == MsbBits(x, n - 1) + rest;
  }

  lemma NoBits(x: nat, rest: seq<Bit>)
    ensures MsbBits(x, 0) + rest == rest
  {
  }

  lemma {:induction false} GetBitsInverts(x: nat, n: nat, rest: seq<Bit>)
    ensures GetBits(MsbBits(x, n) + rest, n, Shr(x, n)) == (x, rest)
  {
    if n == 0 {
      assert MsbBits(x, 0) + rest == rest;
    } else {
      ConsSplit(x, n, rest);
      GetBitsInverts(x, n - 1, rest);
    }
  }

  lemma {:induction false} SymbolFrom(table: Table, counts: seq<nat>, symbols: seq<nat>, l: nat, c: nat, n: nat,
                                      rest: seq<Bit>)
    requires Canonical(table, counts, symbols) && (l, c) in table && 1 <= n <= l
    ensures ReadSymbol(MsbBits(c, n) + rest, table, l - n + 1, Shr(c, n)) == (table[(l, c)], rest)
  {
    hide MsbBits;
    ConsSplit(c, n, rest);
    if n == 1 {
      NoBits(c, rest);
    } else {
      PrefixLiesPast(counts, l, c, n - 1);
      assert (l - n + 1, Shr(c, n - 1)) !in table;
      SymbolFrom(table, counts, symbols, l, c, n - 1, rest);
    }
  }

  /** Under the Kraft bound, reading the bits of any code gives its symbol and consumes
      exactly those bits. */
  lemma SymbolIsRead(table: Table, counts: seq<nat>, symbols: seq<nat>, l: nat, c: nat, rest: seq<Bit>)
    requires Canonical(table, counts, symbols) && (l, c) in table
    requires Kraft(counts, MAX_LENGTH) <= Pow2(MAX_LENGTH)
    ensures ReadSymbol(MsbBits(c, l) + rest, table, 1, 0) == (table[(l, c)], rest)
  {
    KraftIffCodesFit(counts);
    assert IsCode(counts, l, c) && counts[l - 1] > 0;
    ShrFits(c, l);
    SymbolFrom(table, counts, symbols, l, c, l, rest);
  }

  /** ITU-T T.81, table K.3: how many codes of each length a typical DC table has. */
  const LUMINANCE_DC: seq<nat> := [0, 1, 5, 1, 1, 1, 1, 1, 1, 0, 0, 0, 0, 0, 0, 0]

  lemma LuminanceOffsets()
    ensures var c := LUMINANCE_DC;
            && (First(c, 2), Offset(c, 2)) == (0, 0) && (First(c, 3), Offset(c, 3)) == (2, 1)
            && (First(c, 4), Offset(c, 4)) == (14, 6) && (First(c, 5), Offset(c, 5)) == (30, 7)
            && (First(c, 6), Offset(c, 6)) == (62, 8) && (First(c, 7), Offset(c, 7)) == (126, 9)
            && (First(c, 8), Offset(c, 8)) == (254, 10) && (First(c, 9), Offset(c, 9)) == (510, 11)
  {
    var c := LUMINANCE_DC;
    assert First(c, 1) == 0 && Offset(c, 1) == 0;
    assert First(c, 2) == 0 && First(c, 3) == 2 && First(c, 4) == 14 && First(c, 5) == 30;
    assert First(c, 6) == 62 && First(c, 7) == 126 && First(c, 8) == 254 && First(c, 9) == 510;
    assert Offset(c, 2) == 0 && Offset(c, 3) == 1 && Offset(c, 4) == 6 && Offset(c, 5) == 7;
    assert Offset(c, 6) == 8 && Offset(c, 7) == 9 && Offset(c, 8) == 10 && Offset(c, 9) == 11;
  }

  /** Its table gives the codes printed there: 00, 010, 011, 100, 101, 110, 1110 and so on to 111111110. */
  lemma LuminanceCodes(table: Table, symbols: seq<nat>)
    requires Canonical(table, LUMINANCE_DC, symbols) && |symbols| >= 12
    ensures (2, 0) in table && table[(2, 0)] == symbols[0]
    ensures forall c :: 2 <= c <= 6 ==> (3, c) in table && table[(3, c)] == symbols[c - 1]
    ensures (4, 0xE) in table && table[(4, 0xE)] == symbols[6]
    ensures (5, 0x1E) in table && table[(5, 0x1E)] == symbols[7]
    ensures (6, 0x3E) in table && table[(6, 0x3E)] == symbols[8]
    ensures (7, 0x7E) in table && table[(7, 0x7E)] == symbols[9]
    ensures (8, 0xFE) in table && table[(8, 0xFE)] == symbols[10]
    ensures (9, 0x1FE) in table && table[(9, 0x1FE)] == symbols[11]
  {
    hide First, Offset;
    LuminanceOffsets();
    var c := LUMINANCE_DC;
    assert IsCode(c, 2, 0) && IsCode(c, 4, 0xE) && IsCode(c, 5, 0x1E) && IsCode(c, 6, 0x3E);
    assert IsCode(c, 7, 0x7E) && IsCode(c, 8, 0xFE) && IsCode(c, 9, 0x1FE);
    forall x | 2 <= x <= 6
      ensures (3, x) in table && table[(3, x)] == symbols[x - 1]
    {
      assert IsCode(c, 3, x);
    }
  }
}
