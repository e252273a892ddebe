/**
 * Fixed-size splitting of a reply that is too long for one message.
 * The handler cuts the text into consecutive slices of `CharLimit` code points,
 * without regard to word boundaries: `[t[i:i + limit] for i in range(0, len(t), limit)]`.
 */
module Chunking {

  /** The operating limit per message: the platform's 2000-character cap less a margin of 50. */
  const CharLimit: nat := 1950

  /** Number of elements of `range(0, n, step)`, i.e. the ceiling of n / step. */
  function CeilDiv(n: nat, step: nat): (count: nat)
    requires step > 0
  {
    (n + step - 1) / step
  }

  /** Python slicing `s[i:j]` for non-negative bounds: both bounds are clamped to `len(s)`. */
  function Slice(s: string, i: nat, j: nat): (slice: string) {
    var lo := if i < |s| then i else |s|;
    var hi := if j < |s| then j else |s|;
    if lo < hi then s[lo..hi] else []
  }

  /** The list comprehension of the handler: one slice per start index `k * limit`. */
  function Chunks(text: string, limit: nat): (chunks: seq<string>)
    requires limit > 0
  {
    seq(CeilDiv(|text|, limit), k requires 0 <= k => Slice(text, k * limit, k * limit + limit))
  }

  /** Reference reading of the split: the first `limit` characters, then the split of the rest. */
  function Partition(text: string, limit: nat): (pieces: seq<string>)
    requires limit > 0
    decreases |text|
  {
    if text == [] then []
    else if |text| <= limit then [text]
    else [text[..limit]] + Partition(text[limit..], limit)
  }

  /** The messages glued back together in list order. */
  function Concat(parts: seq<string>): (whole: string) {
    if parts == [] then [] else parts[0] + Concat(parts[1..])
  }

  /** Slicing after dropping a prefix of length `d` is slicing with both bounds shifted by `d`. */
  lemma SliceShift(s: string, i: nat, j: nat, d: nat)
    requires d <= |s|
    ensures Slice(s, i + d, j + d) == Slice(s[d..], i, j)
  {
  }

  /** Division facts for the ceiling that `range` computes. */
  lemma CeilDivStep(n: nat, step: nat)
    requires step > 0
    ensures n == 0 ==> CeilDiv(n, step) == 0
    ensures 0 < n <= step ==> CeilDiv(n, step) == 1
    ensures n > step ==> CeilDiv(n, step) == CeilDiv(n - step, step) + 1
  {
    if n == 0 {
    } else if n <= step {
      DivAddStep(n - 1, step);
    } else {
      DivAddStep(n - step + step - 1, step);
    }
  }

  /** Adding the divisor adds one to the quotient. */
  lemma DivAddStep(y: nat, d: nat)
    requires d > 0
    ensures (y + d) / d == y / d + 1
  {
    var q, r := y / d, y % d;
    var q', r' := (y + d) / d, (y + d) % d;
    assert y == d * q + r;
    assert y + d == d * q' + r';
    assert d * (q' - q - 1) == r - r';
    MultipleWithinDivisor(d, q' - q - 1);
  }

  /** The only multiple of `d` strictly between `-d` and `d` is zero. */
  lemma MultipleWithinDivisor(d: int, k: int)
    requires d > 0 && -d < d * k < d
    ensures k == 0
  {
  }

  /** Past the limit, the comprehension's list is the first slice followed by the list for the rest. */
  lemma ChunksUnfold(text: string, limit: nat)
    requires 0 < limit < |text|
    ensures Chunks(text, limit) == [text[..limit]] + Chunks(text[limit..], limit)
  {
    var rest := text[limit..];
    CeilDivStep(|text|, limit);
    var c, r := Chunks(text, limit), Chunks(rest, limit);
    assert |c| == |r| + 1;
    assert c[0] == text[..limit];
    forall k | 1 <= k < |c|
      ensures c[k] == r[k - 1]
    {
      var start := (k - 1) * limit;
      assert k * limit == start + limit;
      SliceShift(text, start, start + limit, limit);
    }
  }

  /** The comprehension and the reference split produce the same list. */
  lemma {:induction false} ChunksMatchPartition(text: string, limit: nat)
    requires limit > 0
    ensures Chunks(text, limit) == Partition(text, limit)
    decreases |text|
  {
    CeilDivStep(|text|, limit);
    if text == [] {
    } else if |text| <= limit {
      assert Chunks(text, limit)[0] == text;
    } else {
      ChunksUnfold(text, limit);
      ChunksMatchPartition(text[limit..], limit);
    }
  }

  /** Concatenating the reference split gives back the text. */
  lemma {:induction false} PartitionConcat(text: string, limit: nat)
    requires limit > 0
    ensures Concat(Partition(text, limit)) == text
    decreases |text|
  {
    if |text| > limit {
      PartitionConcat(text[limit..], limit);
      assert text == text[..limit] + text[limit..];
    }
  }

  /** Every piece of the reference split is non-empty and at most `limit` long; all but the last are full. */
  lemma {:induction false} PartitionShape(text: string, limit: nat)
    requires limit > 0
    ensures forall k :: 0 <= k < |Partition(text, limit)| ==>
      0 < |Partition(text, limit)[k]| <= limit
    ensures forall k :: 0 <= k < |Partition(text, limit)| - 1 ==>
      |Partition(text, limit)[k]| == limit
    decreases |text|
  {
    if |text| > limit {
      PartitionShape(text[limit..], limit);
    }
  }

  /** The reference split has the ceiling of |text| / limit pieces. */
  lemma {:induction false} PartitionCount(text: string, limit: nat)
    requires limit > 0
    ensures (|Partition(text, limit)| - 1) * limit < |text| <= |Partition(text, limit)| * limit
    decreases |text|
  {
    if |text| > limit {
      var m := |Partition(text[limit..], limit)|;
      PartitionCount(text[limit..], limit);
      assert (m + 1) * limit == m * limit + limit;
    }
  }

  /** Sending the chunks in list order reproduces the reply exactly. */
  lemma ChunksReassemble(text: string, limit: nat)
    requires limit > 0
    ensures Concat(Chunks(text, limit)) == text
  {
    ChunksMatchPartition(text, limit);
    PartitionConcat(text, limit);
  }

  /** Every chunk is non-empty and at most `limit` long, and every chunk but the last is exactly `limit` long. */
  lemma ChunksBounded(text: string, limit: nat)
    requires limit > 0
    ensures forall k :: 0 <= k < |Chunks(text, limit)| ==> 0 < |Chunks(text, limit)[k]| <= limit
    ensures forall k :: 0 <= k < |Chunks(text, limit)| - 1 ==> |Chunks(text, limit)[k]| == limit
  {
    ChunksMatchPartition(text, limit);
    PartitionShape(text, limit);
  }

  /**
   * The chunk count is the ceiling of |text| / limit: the smallest number of
   * `limit`-sized messages that can hold the text. Text over the limit needs two or more.
   */
  lemma ChunkCount(text: string, limit: nat)
    requires limit > 0
    ensures (|Chunks(text, limit)| - 1) * limit < |text| <= |Chunks(text, limit)| * limit
    ensures |text| > limit ==> |Chunks(text, limit)| >= 2
    ensures text == [] <==> Chunks(text, limit) == []
  {
    ChunksMatchPartition(text, limit);
    PartitionCount(text, limit);
  }

  /** Non-empty text within the limit is a single chunk equal to the text. */
  lemma SingleChunk(text: string, limit: nat)
    requires limit > 0
    requires 0 < |text| <= limit
    ensures Chunks(text, limit) == [text]
  {
    ChunksMatchPartition(text, limit);
  }
}
