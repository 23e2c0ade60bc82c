/**
 Byte-swapping the content of one constant tensor.

 A tensor carries its element type, the sizes of its dimensions and its
 raw content. When the element type is on the swap list and the content
 is not empty, the content is cut into chunks of
 `chunksize = len(content) / element count` bytes, each chunk is read as
 an unsigned integer in the source byte order and written back as
 `chunksize` bytes in the target byte order, and the concatenation
 replaces the content.

 The operation performs no validation of its own. Its failures and odd
 cases are those of the arithmetic it does:
  - an element count of zero with non-empty content divides by zero;
  - fewer bytes than elements make `chunksize` zero, and stepping a
    range by zero raises;
  - a negative element count (a dimension of size -1) makes `chunksize`
    negative when the content is at least as long as the count's
    magnitude: the range is then empty and the content becomes empty;
    with shorter content `chunksize` is zero and the range raises;
  - a length that is not a multiple of `chunksize` leaves a short final
    chunk, which the re-encoding pads back out to `chunksize` bytes.
 */
module TensorSwap {
  import opened Endian
  import opened DTypes

  /** The exceptions byte swapping can raise. */
  datatype SwapError =
    | ZeroDivision   // element count 0: len(content) / 0
    | ZeroStep       // chunksize 0: range(0, len, 0)

  datatype Result<T> = Ok(value: T) | Err(error: SwapError)

  /** Either the call returned normally or it raised. */
  datatype Outcome = Pass | Fail(error: SwapError)

  // ---------------------------------------------------------------------
  // Element count
  // ---------------------------------------------------------------------

  /** Product of the dimension sizes, multiplied in from the left onto 1. */
  function Product(dims: seq<int>): int {
    if dims == [] then 1 else Product(dims[..|dims| - 1]) * dims[|dims| - 1]
  }

  /**
   The element count accumulated over the dimensions, as the source's
   loop does; a scalar (no dimensions) has one element.
   */
  method ElementCount(dims: seq<int>) returns (count: int)
    ensures count == Product(dims)
  {
    count := 1;
    for i := 0 to |dims|
      invariant count == Product(dims[..i])
    {
      assert dims[..i + 1][..i] == dims[..i];
      count := count * dims[i];
    }
    assert dims[..|dims|] == dims;
  }

  /** The element count is zero exactly when some dimension is zero. */
  lemma {:induction false} ProductZeroIff(dims: seq<int>)
    ensures Product(dims) == 0 <==> exists i :: 0 <= i < |dims| && dims[i] == 0
  {
    if dims != [] {
      var init := dims[..|dims| - 1];
      ProductZeroIff(init);
      if Product(dims) == 0 {
        if dims[|dims| - 1] != 0 {
          var i :| 0 <= i < |init| && init[i] == 0;
          assert dims[i] == 0;
        }
      } else {
        forall i | 0 <= i < |dims| ensures dims[i] != 0 {
          if i < |init| {
            assert dims[i] == init[i];
          }
        }
      }
    }
  }

  /** With every dimension positive, the element count is positive. */
  lemma {:induction false} ProductPositive(dims: seq<int>)
    requires forall i :: 0 <= i < |dims| ==> dims[i] > 0
    ensures Product(dims) > 0
  {
    if dims != [] {
      ProductPositive(dims[..|dims| - 1]);
    }
  }

  // ---------------------------------------------------------------------
  // Chunk size
  // ---------------------------------------------------------------------

  function Abs(x: int): nat {
    if x < 0 then -x else x
  }

  /**
   `int(n / d)`: the quotient rounded toward zero, so its sign is that
   of d (or it is zero) and its magnitude is n div |d|.
   */
  function TruncDiv(n: nat, d: int): (q: int)
    requires d != 0
    ensures d > 0 ==> q >= 0
    ensures d < 0 ==> q <= 0
  {
    if d > 0 then n / d else -(n / -d)
  }

  /** The magnitude of `int(n / d)` is the largest q with q * |d| <= n. */
  lemma TruncDivBounds(n: nat, d: int)
    requires d != 0
    ensures var q := TruncDiv(n, d); Abs(q) * Abs(d) <= n < (Abs(q) + 1) * Abs(d)
  {
  }

  lemma MulAtLeast(a: int, d: int)
    requires a >= 1 && d > 0
    ensures a * d >= d
  {
  }

  lemma MulAtMost(a: int, d: int)
    requires a <= -1 && d > 0
    ensures a * d <= -d
  {
  }

  lemma MulSubDistrib(a: int, b: int, d: int)
    ensures a * d - b * d == (a - b) * d
  {
  }

  /** The quotient of x by d is the q with q * d <= x < (q + 1) * d. */
  lemma DivUnique(x: int, d: int, q: int)
    requires d > 0 && q * d <= x < q * d + d
    ensures x / d == q
  {
    var p := x / d;
    assert p * d <= x < p * d + d;
    MulSubDistrib(p, q, d);
    if p - q >= 1 {
      MulAtLeast(p - q, d);
    } else if p - q <= -1 {
      MulAtMost(p - q, d);
    }
  }

  lemma DivShift(x: nat, d: int)
    requires d > 0
    ensures (x + d) / d == x / d + 1
  {
    DivUnique(x + d, d, x / d + 1);
  }

  /** `int(n / d)` is zero exactly when n is smaller than |d|. */
  lemma TruncDivZeroIff(n: nat, d: int)
    requires d != 0
    ensures TruncDiv(n, d) == 0 <==> n < Abs(d)
  {
    if n >= Abs(d) {
      DivShift(n - Abs(d), Abs(d));
    } else {
      DivUnique(n, Abs(d), 0);
    }
  }

  // ---------------------------------------------------------------------
  // Chunking and re-encoding
  // ---------------------------------------------------------------------

  /** Concatenation of a list of byte strings (`b"".join`). */
  function Flatten(ss: seq<seq<byte>>): (r: seq<byte>) {
    if ss == [] then [] else ss[0] + Flatten(ss[1..])
  }

  /**
   `[s[i:i + size] for i in range(0, len(s), size)]`: consecutive
   chunks of `size` bytes in order, the last one possibly shorter.
   */
  function Chunks(s: seq<byte>, size: nat): (r: seq<seq<byte>>)
    requires size > 0
    ensures Flatten(r) == s
    ensures forall k :: 0 <= k < |r| ==> 0 < |r[k]| <= size
    ensures forall k :: 0 <= k < |r| - 1 ==> |r[k]| == size
    decreases |s|
  {
    if s == [] then []
    else if |s| <= size then
      [s]
    else
      var rest := Chunks(s[size..], size);
      var r := [s[..size]] + rest;
      assert r[1..] == rest;
      assert Flatten(r) == s[..size] + s[size..] == s;
      r
  }

  /** Chunking leaves fewer than `size` bytes of slack: `len(s) / size` rounded up chunks. */
  lemma {:induction false} ChunksCount(s: seq<byte>, size: nat)
    requires size > 0
    ensures |s| <= |Chunks(s, size)| * size < |s| + size
    decreases |s|
  {
    if s == [] {
    } else if |s| <= size {
      assert |Chunks(s, size)| == 1;
    } else {
      var n := |Chunks(s[size..], size)|;
      ChunksCount(s[size..], size);
      assert |Chunks(s, size)| == n + 1;
      assert (n + 1) * size == n * size + size;
    }
  }

  /** Every chunk re-encoded as `size` bytes from byte order src to dst. */
  function RecodeAll(chunks: seq<seq<byte>>, size: nat, src: Endianness, dst: Endianness): (r: seq<seq<byte>>)
    requires forall k :: 0 <= k < |chunks| ==> |chunks[k]| <= size
    ensures |r| == |chunks|
    ensures forall k :: 0 <= k < |r| ==> |r[k]| == size
  {
    seq(|chunks|, k requires 0 <= k < |chunks| => Recode(chunks[k], size, src, dst))
  }

  /** The content that replaces `s` once a positive chunk size is known. */
  function SwapChunks(s: seq<byte>, size: nat, src: Endianness, dst: Endianness): seq<byte>
    requires size > 0
  {
    Flatten(RecodeAll(Chunks(s, size), size, src, dst))
  }

  // ---------------------------------------------------------------------
  // The whole operation on one tensor, as a function of its fields
  // ---------------------------------------------------------------------

  /**
   What byte swapping does to a tensor's content: the new content, or
   the exception it raises (in which case the content is not touched).
   */
  function SwapTensorContent(dtype: DataType, dims: seq<int>, content: seq<byte>,
                             src: Endianness, dst: Endianness): (r: Result<seq<byte>>)
    ensures r.Err? <==>
      IsByteSwappable(dtype) && content != [] && (Product(dims) == 0 || |content| < Abs(Product(dims)))
    ensures r == Err(ZeroDivision) <==> IsByteSwappable(dtype) && content != [] && Product(dims) == 0
    ensures !IsByteSwappable(dtype) ==> r == Ok(content)
    ensures content == [] ==> r == Ok(content)
  {
    if !IsByteSwappable(dtype) || content == [] then Ok(content)
    else
      var count := Product(dims);
      if count == 0 then Err(ZeroDivision)
      else
        var chunksize := TruncDiv(|content|, count);
        TruncDivZeroIff(|content|, count);
        if chunksize == 0 then Err(ZeroStep)
        else if chunksize < 0 then Ok([])
        else Ok(SwapChunks(content, chunksize, src, dst))
  }

  // ---------------------------------------------------------------------
  // Chunk-wise reversal: an index-based reference for the swap
  // ---------------------------------------------------------------------

  /**
   Where byte k of a content made of `cs`-byte chunks goes when every
   chunk is reversed: the same chunk, the mirrored offset.
   */
  function MirrorIndex(k: nat, cs: nat): (m: nat)
    requires cs > 0
    ensures m / cs == k / cs
    ensures m % cs == cs - 1 - k % cs
  {
    var q, r := k / cs, k % cs;
    var m := q * cs + (cs - 1 - r);
    DivUnique(m, cs, q);
    m
  }

  /** Mirroring twice gives back the original position. */
  lemma MirrorInvolutive(k: nat, cs: nat)
    requires cs > 0
    ensures MirrorIndex(MirrorIndex(k, cs), cs) == k
  {
  }

  lemma MulAtMostMono(a: int, b: int, d: int)
    requires a <= b && d >= 0
    ensures a * d <= b * d
  {
  }

  /** In a content of whole chunks, the mirrored position stays in range. */
  lemma MirrorInRange(k: nat, cs: nat, n: nat)
    requires cs > 0 && n % cs == 0 && k < n
    ensures MirrorIndex(k, cs) < n
  {
    var q, m := k / cs, n / cs;
    assert n == m * cs;
    if q >= m {
      MulAtMostMono(m, q, cs);
    }
    MulAtMostMono(q + 1, m, cs);
  }

  /** The first chunk is mirrored onto itself. */
  lemma MirrorFirst(k: nat, cs: nat)
    requires k < cs
    ensures MirrorIndex(k, cs) == cs - 1 - k
  {
    DivUnique(k, cs, 0);
  }

  /** Mirroring commutes with dropping the first chunk. */
  lemma MirrorShift(k: nat, cs: nat)
    requires 0 < cs <= k
    ensures MirrorIndex(k, cs) == cs + MirrorIndex(k - cs, cs)
  {
    DivShift(k - cs, cs);
  }

  /**
   r is s with every `cs`-byte chunk reversed: each byte of r is the
   byte of s at the mirrored offset of the same chunk.
   */
  ghost predicate ChunkwiseReversed(r: seq<byte>, s: seq<byte>, cs: nat) {
    && cs > 0
    && |r| == |s|
    && forall k :: 0 <= k < |s| ==> MirrorIndex(k, cs) < |s| && r[k] == s[MirrorIndex(k, cs)]
  }

  /** Reversing every chunk twice restores the content. */
  lemma ChunkwiseReversedTwice(s: seq<byte>, r: seq<byte>, t: seq<byte>, cs: nat)
    requires ChunkwiseReversed(r, s, cs) && ChunkwiseReversed(t, r, cs)
    ensures t == s
  {
    forall k | 0 <= k < |s| ensures t[k] == s[k] {
      MirrorInvolutive(k, cs);
    }
  }

  lemma ModShift(x: nat, d: int)
    requires d > 0
    ensures (x + d) % d == x % d
  {
    DivShift(x, d);
  }

  /** The first chunk is re-encoded on its own, ahead of the rest. */
  lemma SwapChunksStep(s: seq<byte>, cs: nat, src: Endianness, dst: Endianness)
    requires 0 < cs <= |s|
    ensures SwapChunks(s, cs, src, dst) == Recode(s[..cs], cs, src, dst) + SwapChunks(s[cs..], cs, src, dst)
  {
    var chunks := Chunks(s, cs);
    var rest := Chunks(s[cs..], cs);
    if |s| == cs {
      assert s[..cs] == s && s[cs..] == [];
      assert chunks == [s];
    } else {
      assert chunks == [s[..cs]] + rest;
    }
    var recoded := RecodeAll(chunks, cs, src, dst);
    assert recoded[1..] == RecodeAll(rest, cs, src, dst);
  }

  /**
   On a content of whole chunks, the swap re-encodes chunk by chunk:
   nothing changes when the byte orders agree, and every chunk is
   reversed in place when they differ.
   */
  lemma {:induction false} SwapChunksWhole(s: seq<byte>, cs: nat, src: Endianness, dst: Endianness)
    requires cs > 0 && |s| % cs == 0
    ensures src == dst ==> SwapChunks(s, cs, src, dst) == s
    ensures src != dst ==> ChunkwiseReversed(SwapChunks(s, cs, src, dst), s, cs)
    decreases |s|
  {
    if s != [] {
      var head, tail := s[..cs], s[cs..];
      var rtail := SwapChunks(tail, cs, src, dst);
      assert SwapChunks(s, cs, src, dst) == Recode(head, cs, src, dst) + rtail by {
        SwapChunksStep(s, cs, src, dst);
      }
      assert |tail| % cs == 0 by {
        ModShift(|tail|, cs);
      }
      SwapChunksWhole(tail, cs, src, dst);
      RecodeFullChunk(head, src, dst);
      assert s == head + tail;
      if src != dst {
        ChunkwiseReversedCons(head, tail, rtail, cs);
      }
    }
  }

  /** Reversing one more whole chunk in front of a chunk-wise reversed content. */
  lemma ChunkwiseReversedCons(head: seq<byte>, tail: seq<byte>, rtail: seq<byte>, cs: nat)
    requires |head| == cs > 0 && |tail| % cs == 0
    requires ChunkwiseReversed(rtail, tail, cs)
    ensures ChunkwiseReversed(Reverse(head) + rtail, head + tail, cs)
  {
    var s, out := head + tail, Reverse(head) + rtail;
    ModShift(|tail|, cs);
    forall k | 0 <= k < |s| ensures MirrorIndex(k, cs) < |s| && out[k] == s[MirrorIndex(k, cs)] {
      MirrorInRange(k, cs, |s|);
      if k < cs {
        MirrorFirst(k, cs);
      } else {
        MirrorShift(k, cs);
      }
    }
  }

  lemma WholeChunkSize(n: nat, count: int)
    requires count > 0 && n > 0 && n % count == 0
    ensures var cs := TruncDiv(n, count); cs > 0 && n % cs == 0
  {
    var cs := n / count;
    assert n == cs * count;
    if cs <= 0 {
      MulAtMostMono(cs, 0, count);
    }
    DivUnique(n, cs, count);
  }

  /**
   A tensor whose content length is a multiple of its (positive) chunk
   size `int(len / count)`: the swap succeeds, keeps the length, leaves
   the content alone when the byte orders agree or the type is not on
   the swap list, and otherwise reverses each chunk in place, chunk order
   unchanged. The length need not be a multiple of the element count
   (10 bytes of shape [4] make 2-byte chunks).
   */
  lemma SwapWholeChunks(dtype: DataType, dims: seq<int>, content: seq<byte>, src: Endianness, dst: Endianness)
    requires Product(dims) > 0
    requires var cs := TruncDiv(|content|, Product(dims)); cs > 0 && |content| % cs == 0
    ensures SwapTensorContent(dtype, dims, content, src, dst).Ok?
    ensures var r := SwapTensorContent(dtype, dims, content, src, dst).value;
      && |r| == |content|
      && (!IsByteSwappable(dtype) || src == dst ==> r == content)
      && (IsByteSwappable(dtype) && src != dst ==> ChunkwiseReversed(r, content, TruncDiv(|content|, Product(dims))))
  {
    var cs := TruncDiv(|content|, Product(dims));
    if IsByteSwappable(dtype) {
      assert content != [];
      SwapTensorContentChunked(dtype, dims, content, cs, src, dst);
      SwapChunksWhole(content, cs, src, dst);
    }
  }

  /**
   Swapping from A to B and then from B to A restores the content of a
   tensor whose length is a multiple of its chunk size.
   */
  lemma SwapWholeChunksRoundTrip(dtype: DataType, dims: seq<int>, content: seq<byte>, a: Endianness, b: Endianness)
    requires Product(dims) > 0
    requires var cs := TruncDiv(|content|, Product(dims)); cs > 0 && |content| % cs == 0
    ensures SwapTensorContent(dtype, dims, content, a, b).Ok?
    ensures SwapTensorContent(dtype, dims, SwapTensorContent(dtype, dims, content, a, b).value, b, a) == Ok(content)
  {
    SwapWholeChunks(dtype, dims, content, a, b);
    var r := SwapTensorContent(dtype, dims, content, a, b).value;
    SwapWholeChunks(dtype, dims, r, b, a);
    var t := SwapTensorContent(dtype, dims, r, b, a).value;
    if IsByteSwappable(dtype) && a != b {
      ChunkwiseReversedTwice(content, r, t, TruncDiv(|content|, Product(dims)));
    }
  }

  /**
   A tensor whose content length is a multiple of its (positive) element
   count: the swap succeeds, keeps the length, leaves the content alone
   when the byte orders agree or the type is not on the swap list, and
   otherwise reverses each `len / count`-byte element in place, element
   order unchanged.
   */
  lemma SwapWellFormed(dtype: DataType, dims: seq<int>, content: seq<byte>, src: Endianness, dst: Endianness)
    requires Product(dims) > 0 && |content| % Product(dims) == 0
    ensures SwapTensorContent(dtype, dims, content, src, dst).Ok?
    ensures var r := SwapTensorContent(dtype, dims, content, src, dst).value;
      && |r| == |content|
      && (!IsByteSwappable(dtype) || src == dst ==> r == content)
      && (IsByteSwappable(dtype) && src != dst && content != [] ==>
            ChunkwiseReversed(r, content, |content| / Product(dims)))
  {
    if content != [] {
      WholeChunkSize(|content|, Product(dims));
      SwapWholeChunks(dtype, dims, content, src, dst);
    }
  }

  /**
   Swapping from A to B and then from B to A restores the content of a
   tensor whose length is a multiple of its element count.
   */
  lemma SwapRoundTrip(dtype: DataType, dims: seq<int>, content: seq<byte>, a: Endianness, b: Endianness)
    requires Product(dims) > 0 && |content| % Product(dims) == 0
    ensures SwapTensorContent(dtype, dims, content, a, b).Ok?
    ensures SwapTensorContent(dtype, dims, SwapTensorContent(dtype, dims, content, a, b).value, b, a) == Ok(content)
  {
    if content != [] {
      WholeChunkSize(|content|, Product(dims));
      SwapWholeChunksRoundTrip(dtype, dims, content, a, b);
    }
  }

  /**
   A negative element count (some dimension of size -1) gives a negative
   chunk size; the range of chunk offsets is then empty and the content
   is replaced by nothing.
   */
  lemma NegativeCountEmptiesContent(dtype: DataType, dims: seq<int>, content: seq<byte>, src: Endianness, dst: Endianness)
    requires IsByteSwappable(dtype) && Product(dims) < 0 && |content| >= -Product(dims)
    ensures SwapTensorContent(dtype, dims, content, src, dst) == Ok([])
  {
    TruncDivZeroIff(|content|, Product(dims));
  }

  /**
   A negative element count larger in magnitude than the content length
   makes the chunk size zero, and stepping the range by zero raises.
   */
  lemma NegativeCountShortContentRaises(dtype: DataType, dims: seq<int>, content: seq<byte>,
                                        src: Endianness, dst: Endianness)
    requires IsByteSwappable(dtype) && Product(dims) < 0 && 0 < |content| < -Product(dims)
    ensures SwapTensorContent(dtype, dims, content, src, dst) == Err(ZeroStep)
  {
    TruncDivZeroIff(|content|, Product(dims));
  }

  lemma {:induction false} FlattenUniformLength(ss: seq<seq<byte>>, size: nat)
    requires forall k :: 0 <= k < |ss| ==> |ss[k]| == size
    ensures |Flatten(ss)| == |ss| * size
  {
    if ss != [] {
      FlattenUniformLength(ss[1..], size);
      assert |ss| * size == (|ss| - 1) * size + size;
    }
  }

  /**
   When the content length is not a multiple of the chunk size the
   final chunk is short, and re-encoding pads it back to a full chunk:
   the swap succeeds and the content grows to a whole number of chunks.
   */
  lemma ShortFinalChunkPadded(dtype: DataType, dims: seq<int>, content: seq<byte>, src: Endianness, dst: Endianness)
    requires IsByteSwappable(dtype) && Product(dims) > 0
    requires var cs := TruncDiv(|content|, Product(dims)); cs > 0 && |content| % cs != 0
    ensures SwapTensorContent(dtype, dims, content, src, dst).Ok?
    ensures var cs := TruncDiv(|content|, Product(dims));
      var r := SwapTensorContent(dtype, dims, content, src, dst).value;
      |content| < |r| < |content| + cs && |r| % cs == 0
  {
    var cs := TruncDiv(|content|, Product(dims));
    assert content != [] by {
      assert |content| % cs != 0;
    }
    var n := |Chunks(content, cs)|;
    var r := SwapChunks(content, cs, src, dst);
    SwapTensorContentChunked(dtype, dims, content, cs, src, dst);
    assert |r| == n * cs by {
      FlattenUniformLength(RecodeAll(Chunks(content, cs), cs, src, dst), cs);
    }
    ChunksCount(content, cs);
    MultipleModZero(n, cs);
  }

  /**
   Content made of whole chunks followed by one short tail: the whole
   chunks are re-encoded on their own, then the tail is re-encoded to a
   full chunk.
   */
  lemma {:induction false} SwapChunksSplit(s: seq<byte>, cs: nat, w: nat, src: Endianness, dst: Endianness)
    requires cs > 0 && w % cs == 0 && w < |s| <= w + cs
    ensures SwapChunks(s, cs, src, dst) == SwapChunks(s[..w], cs, src, dst) + Recode(s[w..], cs, src, dst)
    decreases w
  {
    if w == 0 {
      assert SwapChunks(s, cs, src, dst) == Recode(s, cs, src, dst) by {
        SwapSingleChunk(s, cs, src, dst);
      }
      assert s[..0] == [] && s[0..] == s;
      assert SwapChunks([], cs, src, dst) == [];
    } else {
      assert cs <= w by {
        if w < cs {
          DivUnique(w, cs, 0);
        }
      }
      var k: nat := w - cs;
      assert k % cs == 0 by {
        ModShift(k, cs);
      }
      SwapChunksSplit(s[cs..], cs, k, src, dst);
      SwapChunksSplitStep(s, cs, w, src, dst);
    }
  }

  /** The step of `SwapChunksSplit`: one whole chunk in front of the split. */
  lemma SwapChunksSplitStep(s: seq<byte>, cs: nat, w: nat, src: Endianness, dst: Endianness)
    requires 0 < cs <= w < |s| <= w + cs
    requires SwapChunks(s[cs..], cs, src, dst) ==
      SwapChunks(s[cs..][..w - cs], cs, src, dst) + Recode(s[cs..][w - cs..], cs, src, dst)
    ensures SwapChunks(s, cs, src, dst) == SwapChunks(s[..w], cs, src, dst) + Recode(s[w..], cs, src, dst)
  {
    var a := Recode(s[..cs], cs, src, dst);
    var b := SwapChunks(s[cs..w], cs, src, dst);
    var c := Recode(s[w..], cs, src, dst);
    DropThenSlice(s, cs, w);
    SwapChunksStep(s, cs, src, dst);
    SwapChunksPrefixStep(s, cs, w, src, dst);
    AppendAssoc(a, b, c);
  }

  lemma DropThenSlice(s: seq<byte>, i: nat, j: nat)
    requires i <= j <= |s|
    ensures s[i..][..j - i] == s[i..j] && s[i..][j - i..] == s[j..]
  {
  }

  lemma AppendAssoc(a: seq<byte>, b: seq<byte>, c: seq<byte>)
    ensures a + (b + c) == (a + b) + c
  {
  }

  /** The first chunk of a prefix made of whole chunks is re-encoded ahead of the rest of it. */
  lemma SwapChunksPrefixStep(s: seq<byte>, cs: nat, w: nat, src: Endianness, dst: Endianness)
    requires 0 < cs <= w <= |s|
    ensures SwapChunks(s[..w], cs, src, dst) == Recode(s[..cs], cs, src, dst) + SwapChunks(s[cs..w], cs, src, dst)
  {
    SwapChunksStep(s[..w], cs, src, dst);
    assert s[..w][..cs] == s[..cs] && s[..w][cs..] == s[cs..w];
  }

  /**
   The content a short final chunk leaves behind, for content made of w
   bytes of whole chunks and a shorter tail: the whole chunks in front
   come out as on well-formed content (unchanged when the byte orders
   agree, each reversed in place when they differ), and the tail comes
   out as one full chunk, its bytes followed or preceded by zero padding
   on the most significant side of the target order.
   */
  lemma ShortFinalChunkContents(dtype: DataType, dims: seq<int>, content: seq<byte>, w: nat,
                                src: Endianness, dst: Endianness)
    requires IsByteSwappable(dtype) && Product(dims) > 0
    requires var cs := TruncDiv(|content|, Product(dims)); cs > 0 && w % cs == 0 && w < |content| < w + cs
    ensures SwapTensorContent(dtype, dims, content, src, dst).Ok?
    ensures var cs := TruncDiv(|content|, Product(dims));
      var r := SwapTensorContent(dtype, dims, content, src, dst).value;
      var tail, pad := content[w..], Zeros(w + cs - |content|);
      && |r| == w + cs
      && (src == dst ==> r[..w] == content[..w])
      && (src != dst ==> ChunkwiseReversed(r[..w], content[..w], cs))
      && r[w..] == match (src, dst)
                   case (Little, Little) => tail + pad
                   case (Big, Little) => Reverse(tail) + pad
                   case (Little, Big) => pad + Reverse(tail)
                   case (Big, Big) => pad + tail
  {
    var cs := TruncDiv(|content|, Product(dims));
    SwapTensorContentChunked(dtype, dims, content, cs, src, dst);
    var head := SwapChunks(content[..w], cs, src, dst);
    var tail := Recode(content[w..], cs, src, dst);
    SwapChunksSplit(content, cs, w, src, dst);
    SwapChunksWhole(content[..w], cs, src, dst);
    RecodePadding(content[w..], cs, src, dst);
    assert (head + tail)[..w] == head && (head + tail)[w..] == tail;
  }

  lemma MultipleModZero(n: nat, d: nat)
    requires d > 0
    ensures (n * d) % d == 0
  {
    DivUnique(n * d, d, n);
  }

  /**
   Two big-endian float32 elements 0x00000001 and 0x00000002 become
   0x01000000 and 0x02000000 when swapped to little-endian.
   */
  lemma Float32BigToLittle(s: seq<byte>)
    requires s == [0, 0, 0, 1, 0, 0, 0, 2]
    ensures SwapTensorContent(Float32, [2], s, Big, Little) == Ok([1, 0, 0, 0, 2, 0, 0, 0])
  {
    assert Product([2]) == 2;
    SwapWellFormed(Float32, [2], s, Big, Little);
    var r := SwapTensorContent(Float32, [2], s, Big, Little).value;
    assert |s| / Product([2]) == 4;
    assert ChunkwiseReversed(r, s, 4);
    var expected: seq<byte> := [1, 0, 0, 0, 2, 0, 0, 0];
    forall k | 0 <= k < 8 ensures r[k] == expected[k] {
      assert r[k] == s[MirrorIndex(k, 4)];
      MirrorIndexSmall(k);
    }
    assert r == expected;
    assert SwapTensorContent(Float32, [2], s, Big, Little) == Ok(expected);
  }

  lemma MirrorIndexSmall(k: nat)
    requires k < 8
    ensures MirrorIndex(k, 4) == if k < 4 then 3 - k else 11 - k
  {
    if k < 4 {
      MirrorFirst(k, 4);
    } else {
      MirrorShift(k, 4);
      MirrorFirst(k - 4, 4);
    }
  }

  /** With a positive chunk size the swap is the chunk-wise re-encoding. */
  lemma SwapTensorContentChunked(dtype: DataType, dims: seq<int>, content: seq<byte>, cs: int,
                                 src: Endianness, dst: Endianness)
    requires IsByteSwappable(dtype) && content != [] && Product(dims) > 0
    requires cs == TruncDiv(|content|, Product(dims)) && cs > 0
    ensures SwapTensorContent(dtype, dims, content, src, dst) == Ok(SwapChunks(content, cs, src, dst))
  {
  }

  /** A content no longer than the chunk size is one chunk, re-encoded to full size. */
  lemma SwapSingleChunk(s: seq<byte>, cs: nat, src: Endianness, dst: Endianness)
    requires 0 < |s| <= cs
    ensures SwapChunks(s, cs, src, dst) == Recode(s, cs, src, dst)
  {
    var last := Recode(s, cs, src, dst);
    assert Chunks(s, cs) == [s];
    assert RecodeAll([s], cs, src, dst) == [last];
    assert Flatten([last]) == last + Flatten([]);
  }

  /** Two full two-byte chunks and a one-byte tail, swapped big to little. */
  lemma SwapTwoChunksAndTail(s: seq<byte>, a: byte, b: byte, c: byte, d: byte, e: byte)
    requires s == [a, b, c, d, e]
    ensures SwapChunks(s, 2, Big, Little) == [b, a, d, c, e, 0]
  {
    var s2, s4 := s[2..], s[4..];
    assert s[..2] == [a, b] && s2[..2] == [c, d] && s4 == [e];
    var r4 := [e, 0];
    assert SwapChunks(s4, 2, Big, Little) == r4 by {
      SwapSingleChunk(s4, 2, Big, Little);
      RecodePadding(s4, 2, Big, Little);
    }
    var r2 := [d, c, e, 0];
    assert SwapChunks(s2, 2, Big, Little) == r2 by {
      SwapChunksStep(s2, 2, Big, Little);
      assert s2[2..] == s4;
      RecodeFullChunk(s2[..2], Big, Little);
      assert [d, c] + r4 == r2;
    }
    assert SwapChunks(s, 2, Big, Little) == [b, a] + r2 by {
      SwapChunksStep(s, 2, Big, Little);
      assert s[2..] == s2;
      RecodeFullChunk(s[..2], Big, Little);
    }
    assert [b, a] + r2 == [b, a, d, c, e, 0];
  }

  /**
   A float32 tensor of shape [2] holding 5 bytes instead of 8 is not
   rejected: the chunk size is int(5 / 2) = 2, the two full chunks are
   reversed and the one-byte tail is padded to two bytes.
   */
  lemma Float32ShortContent(s: seq<byte>, a: byte, b: byte, c: byte, d: byte, e: byte)
    requires s == [a, b, c, d, e]
    ensures SwapTensorContent(Float32, [2], s, Big, Little) == Ok([b, a, d, c, e, 0])
  {
    SwapTwoChunksAndTail(s, a, b, c, d, e);
    assert Product([2]) == 2 && TruncDiv(5, 2) == 2;
    SwapTensorContentChunked(Float32, [2], s, 2, Big, Little);
  }

  /**
   A complex64 element is one 8-byte chunk, since the chunk size is the
   whole element: its bytes are reversed end to end, so the bytes of the
   real part (the first four) end up where the imaginary part's were.
   */
  lemma Complex64WholeElementReversed(s: seq<byte>, a: byte, b: byte, c: byte, d: byte,
                                      e: byte, f: byte, g: byte, h: byte)
    requires s == [a, b, c, d, e, f, g, h]
    ensures SwapTensorContent(Complex64, [1], s, Big, Little) == Ok([h, g, f, e, d, c, b, a])
  {
    assert Product([1]) == 1 && TruncDiv(8, 1) == 8;
    SwapTensorContentChunked(Complex64, [1], s, 8, Big, Little);
    SwapSingleChunk(s, 8, Big, Little);
    RecodeFullChunk(s, Big, Little);
    assert Reverse(s) == [h, g, f, e, d, c, b, a];
  }

  /** A tensor's content together with its element type and shape. */
  class Tensor {
    const dtype: DataType
    const dims: seq<int>
    var content: seq<byte>

    constructor (dtype: DataType, dims: seq<int>, content: seq<byte>)
      ensures this.dtype == dtype && this.dims == dims && this.content == content
    {
      this.dtype := dtype;
      this.dims := dims;
      this.content := content;
    }

    /**
     Byte-swaps the content in place. On an exception the content is
     left as it was; otherwise it becomes what `SwapTensorContent` says.
     */
    method ByteSwapContent(src: Endianness, dst: Endianness) returns (outcome: Outcome)
      modifies this
      ensures match SwapTensorContent(dtype, dims, old(content), src, dst)
        case Ok(c) => outcome == Pass && content == c
        case Err(e) => outcome == Fail(e) && content == old(content)
    {
      if dtype in ByteSwappable {
        var bytes := content;
        if |bytes| > 0 {
          var count := ElementCount(dims);
          if count == 0 {
            return Fail(ZeroDivision);
          }
          var chunksize := TruncDiv(|bytes|, count);
          if chunksize == 0 {
            return Fail(ZeroStep);
          }
          if chunksize < 0 {
            // a negative step makes the range empty: nothing is joined
            content := [];
          } else {
            var toSwap := Chunks(bytes, chunksize);
            content := Flatten(RecodeAll(toSwap, chunksize, src, dst));
          }
        }
      }
      return Pass;
    }
  }
}
