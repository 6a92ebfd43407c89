/** The MP4 sample table: run-length coded chunk sizes expanded, and samples laid out in their chunks. */
module SampleTable {
  import opened Bytes

  /** A run of chunks, from `first` (counted from 1) up to the next run, of `perChunk` samples each. */
  datatype Run = Run(first: nat, perChunk: nat)

  /** The last chunk run i covers. */
  function LastChunk(runs: seq<Run>, i: nat, chunks: nat): int
    requires i < |runs|
  {
    if i + 1 < |runs| then runs[i + 1].first - 1 else chunks
  }

  predicate Covers(runs: seq<Run>, i: nat, chunks: nat, c: int)
    requires i < |runs|
  {
    runs[i].first <= c <= LastChunk(runs, i, chunks)
  }

  /** What the first n runs give chunk c: the latest of them that covers it, else none. */
  function Expanded(runs: seq<Run>, n: nat, chunks: nat, c: nat): nat
    requires n <= |runs|
  {
    if n == 0 then 0
    else if Covers(runs, n - 1, chunks, c) then runs[n - 1].perChunk
    else Expanded(runs, n - 1, chunks, c)
  }

  /** In a table of increasing runs a chunk belongs to the last run that starts at or before it. */
  lemma {:induction false} IncreasingRuns(runs: seq<Run>, n: nat, chunks: nat, c: nat, i: nat)
    requires n <= |runs| && i < n && c <= chunks
    requires forall a, b :: 0 <= a < b < |runs| ==> runs[a].first < runs[b].first
    requires runs[i].first <= c && (i + 1 < |runs| ==> c < runs[i + 1].first)
    ensures Expanded(runs, n, chunks, c) == runs[i].perChunk
  {
    if i < n - 1 {
      assert runs[i + 1].first <= runs[n - 1].first;
      IncreasingRuns(runs, n - 1, chunks, c, i);
    }
  }

  /** Without a run that covers it, before the first one for instance, it has no samples. */
  lemma {:induction false} UncoveredIsEmpty(runs: seq<Run>, n: nat, chunks: nat, c: nat)
    requires n <= |runs| && forall i :: 0 <= i < n ==> c < runs[i].first
    ensures Expanded(runs, n, chunks, c) == 0
  {
    if n > 0 {
      UncoveredIsEmpty(runs, n - 1, chunks, c);
    }
  }

  method ReadSamplesPerChunk(runs: seq<Run>, chunks: nat) returns (counts: array<nat>)
    ensures fresh(counts) && counts.Length == chunks
    ensures forall j :: 0 <= j < chunks ==> counts[j] == Expanded(runs, |runs|, chunks, j + 1)
  {
    counts := new nat[chunks](_ => 0);
    var i := 0;
    while i < |runs|
      invariant 0 <= i <= |runs|
      invariant forall j :: 0 <= j < chunks ==> counts[j] == Expanded(runs, i, chunks, j + 1)
    {
      var last := LastChunk(runs, i, chunks);
      var chunk := runs[i].first;
      while chunk <= last
        invariant runs[i].first <= chunk
        invariant forall j :: 0 <= j < chunks ==>
                    counts[j] == if runs[i].first <= j + 1 < chunk && j + 1 <= last then runs[i].perChunk
                                 else Expanded(runs, i, chunks, j + 1)
        decreases last - chunk
      {
        if 1 <= chunk <= chunks {
          counts[chunk - 1] := runs[i].perChunk;
        }
        chunk := chunk + 1;
      }
      i := i + 1;
    }
  }

  datatype Sample = Sample(offset: nat, size: nat, key: bool)

  function Sum(xs: seq<nat>): nat {
    if xs == [] then 0 else Sum(xs[..|xs| - 1]) + xs[|xs| - 1]
  }

  lemma SumSnoc(xs: seq<nat>, k: nat)
    requires k < |xs|
    ensures Sum(xs[..k + 1]) == Sum(xs[..k]) + xs[k]
  {
    assert xs[..k + 1][..k] == xs[..k];
  }

  lemma SumRange(xs: seq<nat>, a: nat, b: nat)
    requires a <= b < |xs|
    ensures Sum(xs[a..b + 1]) == Sum(xs[a..b]) + xs[b]
  {
    assert xs[a..b + 1][..b - a] == xs[a..b];
  }

  lemma SumOfNone(xs: seq<nat>, a: nat)
    requires a <= |xs|
    ensures Sum(xs[a..a]) == 0
  {
  }

  /** Sample i is in chunk k, after the chunk's earlier samples. */
  predicate Placed(samples: seq<Sample>, offsets: seq<nat>, perChunk: seq<nat>, sizes: seq<nat>, k: nat)
    requires k < |offsets| == |perChunk| && |samples| <= |sizes|
  {
    forall i :: Sum(perChunk[..k]) <= i < Sum(perChunk[..k + 1]) && i < |samples| ==>
      samples[i].offset == offsets[k] + Sum(sizes[Sum(perChunk[..k])..i])
  }

  predicate Listed(samples: seq<Sample>, sizes: seq<nat>, sync: set<nat>, allKeys: bool) {
    && |samples| <= |sizes|
    && forall i :: 0 <= i < |samples| ==> samples[i].size == sizes[i] && samples[i].key == (allKeys || i + 1 in sync)
  }

  /** One chunk's samples appended, stopping when the sizes run out. */
  method FillChunk(had: seq<Sample>, offset: nat, count: nat, sizes: seq<nat>, sync: set<nat>, allKeys: bool)
      returns (samples: seq<Sample>)
    requires Listed(had, sizes, sync, allKeys)
    ensures Listed(samples, sizes, sync, allKeys)
    ensures |samples| == Min(|sizes|, |had| + count) && had <= samples
    ensures forall i :: |had| <= i < |samples| ==> samples[i].offset == offset + Sum(sizes[|had|..i])
  {
    hide Sum;
    samples := had;
    var off := offset;
    var n := 0;
    SumOfNone(sizes, |had|);
    while n < count
      invariant 0 <= n <= count && |samples| == |had| + n
      invariant had <= samples && Listed(samples, sizes, sync, allKeys)
      invariant off == offset + Sum(sizes[|had|..|samples|])
      invariant forall i :: |had| <= i < |samples| ==> samples[i].offset == offset + Sum(sizes[|had|..i])
    {
      var index := |samples|;
      if index >= |sizes| {
        break;
      }
      SumRange(sizes, |had|, index);
      samples := samples + [Sample(off, sizes[index], allKeys || index + 1 in sync)];
      off := off + sizes[index];
      n := n + 1;
    }
  }

  /** The flat sample list: as many as have a size and a chunk, in order, each at its place in its chunk. */
  method BuildSampleTable(offsets: seq<nat>, perChunk: seq<nat>, sizes: seq<nat>, sync: set<nat>, allKeys: bool)
      returns (samples: seq<Sample>)
    requires |perChunk| == |offsets|
    ensures Listed(samples, sizes, sync, allKeys)
    ensures |samples| == Min(|sizes|, Sum(perChunk))
    ensures forall k :: 0 <= k < |offsets| ==> Placed(samples, offsets, perChunk, sizes, k)
  {
    samples := [];
    var k := 0;
    while k < |offsets|
      invariant 0 <= k <= |offsets|
      invariant Listed(samples, sizes, sync, allKeys) && |samples| == Min(|sizes|, Sum(perChunk[..k]))
      invariant forall j :: 0 <= j < k ==> Placed(samples, offsets, perChunk, sizes, j)
    {
      ghost var had := samples;
      samples := FillChunk(samples, offsets[k], perChunk[k], sizes, sync, allKeys);
      SumSnoc(perChunk, k);
      forall j | 0 <= j < k
        ensures Placed(samples, offsets, perChunk, sizes, j)
      {
        EarlierStay(had, samples, offsets, perChunk, sizes, j, k);
      }
      k := k + 1;
    }
    assert perChunk[..|offsets|] == perChunk;
  }

  lemma EarlierStay(had: seq<Sample>, samples: seq<Sample>, offsets: seq<nat>, perChunk: seq<nat>, sizes: seq<nat>,
                    j: nat, k: nat)
    requires j < k <= |offsets| == |perChunk| && |samples| <= |sizes|
    requires had <= samples && |had| == Min(|sizes|, Sum(perChunk[..k]))
    requires Placed(had, offsets, perChunk, sizes, j)
    ensures Placed(samples, offsets, perChunk, sizes, j)
  {
    SumGrows(perChunk, j + 1, k);
    forall i | Sum(perChunk[..j]) <= i < Sum(perChunk[..j + 1]) && i < |samples|
      ensures samples[i].offset == offsets[j] + Sum(sizes[Sum(perChunk[..j])..i])
    {
      assert samples[i] == had[i];
    }
  }

  lemma {:induction false} SumGrows(xs: seq<nat>, a: nat, b: nat)
    requires a <= b <= |xs|
    ensures Sum(xs[..a]) <= Sum(xs[..b])
    decreases b
  {
    if a < b {
      SumGrows(xs, a, b - 1);
      SumSnoc(xs, b - 1);
    }
  }
}
