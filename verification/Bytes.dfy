/** Bytes, integer encodings and the few sequence operations every layer shares. */
module Bytes {

  type byte = x: int | 0 <= x < 256
  type bytes = seq<byte>

  datatype Option<+T> = None | Some(value: T)

  /** Transfer directions, seen from the host. */
  const OUT: nat := 0
  const IN: nat := 1

  function Min(a: nat, b: nat): nat {
    if a <= b then a else b
  }

  function Pow2(n: nat): (r: nat)
    ensures r > 0
  {
    if n == 0 then 1 else 2 * Pow2(n - 1)
  }

  function Pow256(n: nat): (r: nat)
    ensures r > 0
  {
    if n == 0 then 1 else 256 * Pow256(n - 1)
  }

  /** `v.to_bytes(n, "little")`, for a value that fits. */
  function ToLE(v: nat, n: nat): (r: bytes)
    ensures |r| == n
  {
    if n == 0 then [] else [v % 256] + ToLE(v / 256, n - 1)
  }

  /** `int.from_bytes(b, "little")`. */
  function FromLE(b: bytes): nat
  {
    if b == [] then 0 else b[0] + 256 * FromLE(b[1..])
  }

  /** `v.to_bytes(n, "big")`, for a value that fits. */
  function ToBE(v: nat, n: nat): (r: bytes)
    ensures |r| == n
  {
    if n == 0 then [] else ToBE(v / 256, n - 1) + [v % 256]
  }

  /** `int.from_bytes(b, "big")`. */
  function FromBE(b: bytes): nat
  {
    if b == [] then 0 else 256 * FromBE(b[..|b| - 1]) + b[|b| - 1]
  }

  lemma {:induction false} LERoundTrip(v: nat, n: nat)
    requires v < Pow256(n)
    ensures FromLE(ToLE(v, n)) == v
  {
    if n > 0 {
      LERoundTrip(v / 256, n - 1);
      assert ToLE(v, n)[1..] == ToLE(v / 256, n - 1);
    }
  }

  lemma {:induction false} BERoundTrip(v: nat, n: nat)
    requires v < Pow256(n)
    ensures FromBE(ToBE(v, n)) == v
  {
    if n > 0 {
      BERoundTrip(v / 256, n - 1);
      var b := ToBE(v, n);
      assert b[..|b| - 1] == ToBE(v / 256, n - 1);
    }
  }

  // The byte orders, written out.

  /** A byte as a number. */
  function At(b: bytes, i: nat): nat
    requires i < |b|
  {
    b[i]
  }

  lemma FromLE2(b: bytes)
    requires |b| == 2
    ensures FromLE(b) == At(b, 0) + 256 * At(b, 1)
  {
    assert b[1..][1..] == [];
    assert FromLE(b[1..]) == b[1] + 256 * FromLE([]);
  }

  lemma FromLE4(b: bytes)
    requires |b| == 4
    ensures FromLE(b) == At(b, 0) + 256 * At(b, 1) + 65536 * At(b, 2) + 16777216 * At(b, 3)
  {
    var rest := b[2..];
    FromLE2(rest);
    assert b[1..][1..] == rest;
    assert FromLE(b[1..]) == b[1] + 256 * FromLE(rest);
  }

  lemma FromBE2(b: bytes)
    requires |b| == 2
    ensures FromBE(b) == 256 * At(b, 0) + At(b, 1)
  {
    assert b[..1][..0] == [];
    assert FromBE(b[..1]) == 256 * FromBE([]) + b[0];
  }

  lemma FromBE4(b: bytes)
    requires |b| == 4
    ensures FromBE(b) == 16777216 * At(b, 0) + 65536 * At(b, 1) + 256 * At(b, 2) + At(b, 3)
  {
    var front := b[..2];
    FromBE2(front);
    assert b[..3][..2] == front;
    assert FromBE(b[..3]) == 256 * FromBE(front) + b[2];
  }

  /** n * size, by repeated addition: the length of n blocks. */
  function Span(n: nat, size: nat): nat
  {
    if n == 0 then 0 else Span(n - 1, size) + size
  }

  lemma {:induction false} SpanIsProduct(n: nat, size: nat)
    ensures Span(n, size) == n * size
  {
    if n > 0 {
      SpanIsProduct(n - 1, size);
    }
  }

  lemma {:induction false} SpanAdd(a: nat, b: nat, size: nat)
    ensures Span(a + b, size) == Span(a, size) + Span(b, size)
  {
    if b > 0 {
      SpanAdd(a, b - 1, size);
    }
  }

  lemma SpanSucc(n: nat, size: nat)
    ensures Span(n + 1, size) == Span(n, size) + size
  {
  }

  lemma SpanMonotone(a: nat, b: nat, size: nat)
    requires a <= b
    ensures Span(a, size) <= Span(b, size)
  {
    SpanAdd(a, b - a, size);
  }

  /** n // size, by repeated subtraction: how many whole blocks n bytes hold. */
  function CountBlocks(n: nat, size: nat): nat
    requires size > 0
  {
    if n < size then 0 else CountBlocks(n - size, size) + 1
  }

  lemma {:induction false} WholeBlocksFit(n: nat, size: nat)
    requires size > 0
    ensures Span(CountBlocks(n, size), size) <= n < Span(CountBlocks(n, size), size) + size
  {
    if n >= size {
      WholeBlocksFit(n - size, size);
    }
  }

  lemma MulMonotone(a: nat, b: nat, d: nat)
    requires a <= b
    ensures a * d <= b * d
  {
  }

  lemma MulSucc(a: nat, d: nat)
    ensures (a + 1) * d == a * d + d
  {
  }

  lemma NearestMultiple(a: nat, b: nat, size: nat, n: nat)
    requires a * size <= n < a * size + size
    requires b * size <= n < b * size + size
    ensures a == b
  {
    MulSucc(a, size);
    MulSucc(b, size);
    if a < b {
      MulMonotone(a + 1, b, size);
    }
    if b < a {
      MulMonotone(b + 1, a, size);
    }
  }

  /** Counting whole blocks is dividing. */
  lemma CountBlocksIsQuotient(n: nat, size: nat)
    requires size > 0
    ensures CountBlocks(n, size) == n / size
  {
    WholeBlocksFit(n, size);
    SpanIsProduct(CountBlocks(n, size), size);
    var q := n / size;
    assert n == size * q + n % size;
    NearestMultiple(CountBlocks(n, size), q, size, n);
  }

  /** `b"".join(ss)`. */
  function Flatten<T>(ss: seq<seq<T>>): seq<T>
  {
    if ss == [] then [] else ss[0] + Flatten(ss[1..])
  }

  lemma Assoc<T>(a: seq<T>, b: seq<T>, c: seq<T>)
    ensures (a + b) + c == a + (b + c)
  {
  }

  lemma SliceOfPrefix<T>(s: seq<T>, n: nat, a: nat, b: nat)
    requires a <= b <= n <= |s|
    ensures s[..n][a..b] == s[a..b]
  {
  }

  lemma SliceOfRest<T>(s: seq<T>, n: nat, a: nat, b: nat)
    requires a <= b && n + b <= |s|
    ensures s[n..][a..b] == s[n + a..n + b]
  {
  }

  lemma SplitAt<T>(s: seq<T>, a: nat, b: nat)
    requires a <= b <= |s|
    ensures s[a..] == s[a..b] + s[b..]
  {
  }

  lemma {:induction false} FlattenAppend<T>(a: seq<seq<T>>, b: seq<seq<T>>)
    ensures Flatten(a + b) == Flatten(a) + Flatten(b)
  {
    if a == [] {
      assert a + b == b;
    } else {
      FlattenAppend(a[1..], b);
      assert (a + b)[1..] == a[1..] + b;
      Assoc(a[0], Flatten(a[1..]), Flatten(b));
    }
  }

  /** Python's `b[n:]`. */
  function Drop(b: bytes, n: nat): bytes {
    if n <= |b| then b[n..] else []
  }

  /** Python's `s[a:b]`, which clips both bounds to the length. */
  function Slice<T>(s: seq<T>, a: nat, b: nat): (r: seq<T>)
    ensures a <= b <= |s| ==> r == s[a..b]
    ensures |r| <= |s|
  {
    var hi := if b <= |s| then b else |s|;
    if a <= hi then s[a..hi] else []
  }

  /** `data` written over `s` at offset `at`. */
  function Splice<T>(s: seq<T>, at: nat, data: seq<T>): (r: seq<T>)
    requires at + |data| <= |s|
    ensures |r| == |s|
    ensures forall i :: 0 <= i < |s| ==> r[i] == if at <= i < at + |data| then data[i - at] else s[i]
  {
    s[..at] + data + s[at + |data|..]
  }

  lemma SlicedSplice<T>(s: seq<T>, at: nat, data: seq<T>, a: nat, b: nat, j: nat)
    requires at + |data| <= |s| && a + j < b <= |s|
    ensures |Slice(Splice(s, at, data), a, b)| == b - a
    ensures Slice(Splice(s, at, data), a, b)[j] == if at <= a + j < at + |data| then data[a + j - at] else s[a + j]
  {
    hide Splice;
  }
}
