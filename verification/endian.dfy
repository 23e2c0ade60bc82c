/**
 Byte orders and the two integer conversions the swapper relies on:
 reading a chunk of bytes as an unsigned integer in a given byte order
 (`int.from_bytes(chunk, order)`) and writing an unsigned integer back
 as a fixed number of bytes in a given byte order
 (`n.to_bytes(size, order)`).

 The central facts proved here are that re-encoding a chunk in the
 other byte order reverses it, re-encoding it in the same byte order
 returns it unchanged, and a chunk shorter than the target size is
 padded with zero bytes on its most significant side.
 */
module Endian {

  newtype byte = x: int | 0 <= x < 256

  /** The two byte orders (the strings "big" and "little" in the source). */
  datatype Endianness = Big | Little

  /** 256 to the power n: the number of distinct values held in n bytes. */
  function Pow256(n: nat): (r: nat)
    ensures r > 0
  {
    if n == 0 then 1 else 256 * Pow256(n - 1)
  }

  /** n zero bytes. */
  function Zeros(n: nat): (r: seq<byte>)
    ensures |r| == n
    ensures forall i :: 0 <= i < n ==> r[i] == 0
  {
    if n == 0 then [] else [0] + Zeros(n - 1)
  }

  /** The bytes of s in the opposite order. */
  function Reverse(s: seq<byte>): (r: seq<byte>)
    ensures |r| == |s|
    ensures forall i :: 0 <= i < |s| ==> r[i] == s[|s| - 1 - i]
  {
    if s == [] then [] else [s[|s| - 1]] + Reverse(s[..|s| - 1])
  }

  lemma ReverseReverse(s: seq<byte>)
    ensures Reverse(Reverse(s)) == s
  {
  }

  lemma ReverseAppend(a: seq<byte>, b: seq<byte>)
    ensures Reverse(a + b) == Reverse(b) + Reverse(a)
  {
  }

  lemma ReverseZeros(n: nat)
    ensures Reverse(Zeros(n)) == Zeros(n)
  {
  }

  // ---------------------------------------------------------------------
  // Reading bytes as an unsigned integer (int.from_bytes)
  // ---------------------------------------------------------------------

  /** Little-endian reading: the first byte is the least significant. */
  function LittleValue(s: seq<byte>): (v: nat)
    ensures v < Pow256(|s|)
  {
    if s == [] then 0 else s[0] as nat + 256 * LittleValue(s[1..])
  }

  /** Big-endian reading: the last byte is the least significant. */
  function BigValue(s: seq<byte>): (v: nat)
    ensures v < Pow256(|s|)
  {
    if s == [] then 0
    else
      var init := s[..|s| - 1];
      assert BigValue(init) <= Pow256(|init|) - 1;
      BigValue(init) * 256 + s[|s| - 1] as nat
  }

  /** `int.from_bytes(chunk, order)` for an unsigned result. */
  function FromBytes(chunk: seq<byte>, order: Endianness): (v: nat)
    ensures v < Pow256(|chunk|)
  {
    match order
    case Big => BigValue(chunk)
    case Little => LittleValue(chunk)
  }

  // ---------------------------------------------------------------------
  // Writing an unsigned integer as bytes (int.to_bytes)
  // ---------------------------------------------------------------------

  /** The low `size` bytes of v, least significant first. */
  function LittleBytes(v: nat, size: nat): (r: seq<byte>)
    ensures |r| == size
  {
    if size == 0 then [] else [(v % 256) as byte] + LittleBytes(v / 256, size - 1)
  }

  /** The low `size` bytes of v, most significant first. */
  function BigBytes(v: nat, size: nat): (r: seq<byte>)
    ensures |r| == size
  {
    if size == 0 then [] else BigBytes(v / 256, size - 1) + [(v % 256) as byte]
  }

  /**
   `v.to_bytes(size, order)`. The conversion raises an overflow error
   when v does not fit in `size` bytes, so callers must keep v below
   256^size.
   */
  function ToBytes(v: nat, size: nat, order: Endianness): (r: seq<byte>)
    requires v < Pow256(size)
    ensures |r| == size
    ensures FromBytes(r, order) == v
  {
    match order
    case Big => BigBytesValue(v, size); BigBytes(v, size)
    case Little => LittleBytesValue(v, size); LittleBytes(v, size)
  }

  /** Writing then reading little-endian gives the value back. */
  lemma {:induction false} LittleBytesValue(v: nat, size: nat)
    requires v < Pow256(size)
    ensures LittleValue(LittleBytes(v, size)) == v
  {
    if size > 0 {
      var r := LittleBytes(v, size);
      assert r[1..] == LittleBytes(v / 256, size - 1);
      LittleBytesValue(v / 256, size - 1);
    }
  }

  /** Big-endian bytes are the little-endian bytes in reverse. */
  lemma {:induction false} BigBytesIsReversedLittle(v: nat, size: nat)
    ensures BigBytes(v, size) == Reverse(LittleBytes(v, size))
  {
    if size > 0 {
      BigBytesIsReversedLittle(v / 256, size - 1);
      ReverseAppend([(v % 256) as byte], LittleBytes(v / 256, size - 1));
    }
  }

  /** A big-endian reading is the little-endian reading of the reversed bytes. */
  lemma {:induction false} BigValueIsLittleOfReverse(s: seq<byte>)
    ensures BigValue(s) == LittleValue(Reverse(s))
  {
    if s != [] {
      var init := s[..|s| - 1];
      BigValueIsLittleOfReverse(init);
      assert Reverse(s)[1..] == Reverse(init);
    }
  }

  /** Writing then reading big-endian gives the value back. */
  lemma BigBytesValue(v: nat, size: nat)
    requires v < Pow256(size)
    ensures BigValue(BigBytes(v, size)) == v
  {
    BigBytesIsReversedLittle(v, size);
    BigValueIsLittleOfReverse(BigBytes(v, size));
    ReverseReverse(LittleBytes(v, size));
    LittleBytesValue(v, size);
  }

  /**
   Writing a little-endian reading back into at least as many bytes
   restores the bytes, followed by zero padding.
   */
  lemma {:induction false} LittleBytesOfValue(s: seq<byte>, size: nat)
    requires |s| <= size
    ensures LittleBytes(LittleValue(s), size) == s + Zeros(size - |s|)
  {
    if s == [] {
      LittleBytesOfZero(size);
    } else {
      var v := LittleValue(s);
      assert v % 256 == s[0] as nat && v / 256 == LittleValue(s[1..]);
      LittleBytesOfValue(s[1..], size - 1);
    }
  }

  lemma {:induction false} LittleBytesOfZero(size: nat)
    ensures LittleBytes(0, size) == Zeros(size)
  {
    if size > 0 {
      LittleBytesOfZero(size - 1);
    }
  }

  // ---------------------------------------------------------------------
  // Re-encoding a chunk: int.from_bytes(chunk, from).to_bytes(size, to)
  // ---------------------------------------------------------------------

  /**
   One chunk of the swapper: read `chunk` as an unsigned integer in
   byte order `src`, write it back as `size` bytes in byte order `dst`.
   The chunk never holds more than `size` bytes, so the value always fits.
   */
  function Recode(chunk: seq<byte>, size: nat, src: Endianness, dst: Endianness): (r: seq<byte>)
    requires |chunk| <= size
    ensures |r| == size
  {
    PowMonotone(|chunk|, size);
    ToBytes(FromBytes(chunk, src), size, dst)
  }

  lemma {:induction false} PowMonotone(m: nat, n: nat)
    requires m <= n
    ensures Pow256(m) <= Pow256(n)
  {
    if m < n {
      PowMonotone(m, n - 1);
    }
  }

  /**
   How a chunk of at most `size` bytes comes out of `Recode`: its bytes,
   reversed when the two byte orders differ, with the missing bytes
   filled by zeros on the most significant side of the target order.
   */
  lemma RecodePadding(chunk: seq<byte>, size: nat, src: Endianness, dst: Endianness)
    requires |chunk| <= size
    ensures var pad := Zeros(size - |chunk|);
      Recode(chunk, size, src, dst) ==
        match (src, dst)
        case (Little, Little) => chunk + pad
        case (Big, Little) => Reverse(chunk) + pad
        case (Little, Big) => pad + Reverse(chunk)
        case (Big, Big) => pad + chunk
  {
    var pad := Zeros(size - |chunk|);
    PowMonotone(|chunk|, size);
    match (src, dst)
    case (Little, Little) =>
      LittleBytesOfValue(chunk, size);
    case (Big, Little) =>
      BigValueIsLittleOfReverse(chunk);
      LittleBytesOfValue(Reverse(chunk), size);
    case (Little, Big) =>
      BigBytesIsReversedLittle(LittleValue(chunk), size);
      LittleBytesOfValue(chunk, size);
      ReverseAppend(chunk, pad);
      ReverseZeros(size - |chunk|);
    case (Big, Big) =>
      BigValueIsLittleOfReverse(chunk);
      BigBytesIsReversedLittle(BigValue(chunk), size);
      LittleBytesOfValue(Reverse(chunk), size);
      ReverseAppend(Reverse(chunk), pad);
      ReverseZeros(size - |chunk|);
      ReverseReverse(chunk);
  }

  /**
   A chunk of exactly `size` bytes is reversed when the byte orders
   differ and left as it is when they agree.
   */
  lemma RecodeFullChunk(chunk: seq<byte>, src: Endianness, dst: Endianness)
    ensures Recode(chunk, |chunk|, src, dst) == if src == dst then chunk else Reverse(chunk)
  {
    RecodePadding(chunk, |chunk|, src, dst);
    assert Zeros(0) == [];
  }

  /** Re-encoding a full chunk A to B and then B to A restores it. */
  lemma RecodeRoundTrip(chunk: seq<byte>, a: Endianness, b: Endianness)
    ensures Recode(Recode(chunk, |chunk|, a, b), |chunk|, b, a) == chunk
  {
    RecodeFullChunk(chunk, a, b);
    RecodeFullChunk(Recode(chunk, |chunk|, a, b), b, a);
    ReverseReverse(chunk);
  }
}
