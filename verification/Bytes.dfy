/**
 Fixed-width integers and their network byte order.

 `BigEndian` and `BigEndianBytes` are defined for any width; the codec uses widths 2 and 4.
 `i32` values travel as the `u32` with the same two's-complement bits.
 */
module Bytes {

  type byte = x: int | 0 <= x < 0x100
  type u16 = x: int | 0 <= x < 0x1_0000
  type u32 = x: int | 0 <= x < 0x1_0000_0000
  type i32 = x: int | -0x8000_0000 <= x < 0x8000_0000

  function Pow256(n: nat): (p: nat)
    ensures 0 < p
  {
    if n == 0 then 1 else 256 * Pow256(n - 1)
  }

  /** The number that a byte string denotes, most significant byte first. */
  function BigEndian(b: seq<byte>): (x: nat)
    ensures x < Pow256(|b|)
  {
    if b == [] then 0 else 256 * BigEndian(b[..|b| - 1]) + b[|b| - 1]
  }

  /** The `n` low-order base-256 digits of `x`, most significant first. */
  function BigEndianBytes(x: nat, n: nat): (b: seq<byte>)
    ensures |b| == n
    decreases n, x
  {
    if n == 0 then [] else BigEndianBytes(x / 256, n - 1) + [x % 256]
  }

  lemma {:induction false} BigEndianReadsWritten(x: nat, n: nat)
    requires x < Pow256(n)
    ensures BigEndian(BigEndianBytes(x, n)) == x
    decreases n
  {
    if n > 0 {
      BigEndianReadsWritten(x / 256, n - 1);
      var b := BigEndianBytes(x, n);
      assert b[..n - 1] == BigEndianBytes(x / 256, n - 1);
    }
  }

  lemma {:induction false} BigEndianWritesRead(b: seq<byte>)
    ensures BigEndianBytes(BigEndian(b), |b|) == b
    decreases |b|
  {
    if b != [] {
      var front := b[..|b| - 1];
      BigEndianWritesRead(front);
      assert BigEndian(b) / 256 == BigEndian(front);
      assert b == front + [b[|b| - 1]];
    }
  }

  function U32Bytes(x: u32): (b: seq<byte>)
    ensures |b| == 4
  {
    BigEndianBytes(x, 4)
  }

  function U32Of(b: seq<byte>): u32
    requires |b| == 4
  {
    assert Pow256(4) == 0x1_0000_0000;
    BigEndian(b)
  }

  function U16Bytes(x: u16): (b: seq<byte>)
    ensures |b| == 2
  {
    BigEndianBytes(x, 2)
  }

  function U16Of(b: seq<byte>): u16
    requires |b| == 2
  {
    assert Pow256(2) == 0x1_0000;
    BigEndian(b)
  }

  function Unsigned(i: i32): u32 {
    if i < 0 then i + 0x1_0000_0000 else i
  }

  function Signed(u: u32): i32 {
    if u < 0x8000_0000 then u else u - 0x1_0000_0000
  }

  function I32Bytes(i: i32): (b: seq<byte>)
    ensures |b| == 4
  {
    U32Bytes(Unsigned(i))
  }

  function I32Of(b: seq<byte>): i32
    requires |b| == 4
  {
    Signed(U32Of(b))
  }

  /** Every read undoes the write of the same width, in both directions. */
  lemma U32RoundTrip(x: u32)
    ensures U32Of(U32Bytes(x)) == x
  {
    assert Pow256(4) == 0x1_0000_0000;
    BigEndianReadsWritten(x, 4);
  }

  lemma U16RoundTrip(x: u16)
    ensures U16Of(U16Bytes(x)) == x
  {
    assert Pow256(2) == 0x1_0000;
    BigEndianReadsWritten(x, 2);
  }

  lemma I32RoundTrip(i: i32)
    ensures I32Of(I32Bytes(i)) == i
  {
    U32RoundTrip(Unsigned(i));
  }

  /** The four bytes of a word, most significant first. */
  lemma NetworkOrder(x: u32)
    ensures U32Bytes(x) == [x / 0x100_0000, x / 0x1_0000 % 0x100, x / 0x100 % 0x100, x % 0x100]
  {
    assert x / 256 / 256 == x / 0x1_0000 && x / 256 / 256 / 256 == x / 0x100_0000;
    assert BigEndianBytes(x, 4) == BigEndianBytes(x / 256, 3) + [x % 256];
    assert BigEndianBytes(x / 256, 3) == BigEndianBytes(x / 256 / 256, 2) + [x / 256 % 256];
    assert BigEndianBytes(x / 256 / 256, 2) == BigEndianBytes(x / 256 / 256 / 256, 1) + [x / 256 / 256 % 256];
    assert BigEndianBytes(x / 256 / 256 / 256, 1) == [x / 256 / 256 / 256 % 256];
  }

  lemma NetworkOrder16(x: u16)
    ensures U16Bytes(x) == [x / 0x100, x % 0x100]
  {
    assert BigEndianBytes(x, 2) == BigEndianBytes(x / 256, 1) + [x % 256];
    assert BigEndianBytes(x / 256, 1) == [x / 256 % 256];
  }

  /** A signed value travels as the word congruent to it modulo 2^32. */
  lemma TwosComplement(i: i32)
    ensures U32Of(I32Bytes(i)) == i % 0x1_0000_0000
  {
    U32RoundTrip(Unsigned(i));
  }

  lemma U32Rewrites(b: seq<byte>)
    requires |b| == 4
    ensures U32Bytes(U32Of(b)) == b
    ensures I32Bytes(I32Of(b)) == b
  {
    BigEndianWritesRead(b);
  }

  /** The word at a byte offset, as the peeking code reads it. */
  function U32At(b: seq<byte>, offset: nat): u32
    requires offset + 4 <= |b|
  {
    U32Of(b[offset..offset + 4])
  }

  function I32At(b: seq<byte>, offset: nat): i32
    requires offset + 4 <= |b|
  {
    I32Of(b[offset..offset + 4])
  }

  /** Consecutive words, used for the unlink padding. */
  function WordsBytes(ws: seq<u32>): (b: seq<byte>)
    ensures |b| == 4 * |ws|
  {
    if ws == [] then [] else U32Bytes(ws[0]) + WordsBytes(ws[1..])
  }

  function Words(b: seq<byte>): (ws: seq<u32>)
    requires |b| % 4 == 0
    ensures 4 * |ws| == |b|
  {
    if b == [] then [] else [U32Of(b[..4])] + Words(b[4..])
  }

  lemma {:induction false} WordsRoundTrip(ws: seq<u32>)
    ensures Words(WordsBytes(ws)) == ws
  {
    if ws != [] {
      var b := WordsBytes(ws);
      assert b[..4] == U32Bytes(ws[0]) && b[4..] == WordsBytes(ws[1..]);
      U32RoundTrip(ws[0]);
      WordsRoundTrip(ws[1..]);
    }
  }

  lemma {:induction false} WordsRewrite(b: seq<byte>)
    requires |b| % 4 == 0
    ensures WordsBytes(Words(b)) == b
    decreases |b|
  {
    if b != [] {
      U32Rewrites(b[..4]);
      WordsRewrite(b[4..]);
      assert Words(b)[1..] == Words(b[4..]);
      assert b == b[..4] + b[4..];
    }
  }

  lemma {:induction false} WordsAt(b: seq<byte>, i: nat)
    requires |b| % 4 == 0 && 4 * i + 4 <= |b|
    ensures Words(b)[i] == U32At(b, 4 * i)
    decreases i
  {
    if i == 0 {
      assert Words(b)[0] == U32Of(b[..4]);
    } else {
      WordsAt(b[4..], i - 1);
      assert Words(b)[i] == Words(b[4..])[i - 1];
      assert b[4..][4 * (i - 1)..4 * (i - 1) + 4] == b[4 * i..4 * i + 4];
    }
  }

  /** `BytesMut`: an append-only output buffer. */
  class BytesMut {
    var data: seq<byte>

    constructor ()
      ensures data == []
    {
      data := [];
    }

    method PutU32(x: u32)
      modifies this
      ensures data == old(data) + U32Bytes(x)
    {
      data := data + U32Bytes(x);
    }

    method PutI32(x: i32)
      modifies this
      ensures data == old(data) + I32Bytes(x)
    {
      data := data + I32Bytes(x);
    }

    method PutU16(x: u16)
      modifies this
      ensures data == old(data) + U16Bytes(x)
    {
      data := data + U16Bytes(x);
    }

    method PutU8(x: byte)
      modifies this
      ensures data == old(data) + [x]
    {
      data := data + [x];
    }

    method PutSlice(s: seq<byte>)
      modifies this
      ensures data == old(data) + s
    {
      data := data + s;
    }
  }

  /** A read cursor over a slice: each read advances past the bytes it returns. */
  class Cursor {
    const data: seq<byte>
    var pos: nat

    constructor (b: seq<byte>)
      ensures data == b && pos == 0
    {
      data := b;
      pos := 0;
    }

    method ReadU32() returns (x: u32)
      requires pos + 4 <= |data|
      modifies this
      ensures x == U32At(data, old(pos)) && pos == old(pos) + 4
    {
      x := U32Of(data[pos..pos + 4]);
      pos := pos + 4;
    }

    method ReadI32() returns (x: i32)
      requires pos + 4 <= |data|
      modifies this
      ensures x == I32At(data, old(pos)) && pos == old(pos) + 4
    {
      x := I32Of(data[pos..pos + 4]);
      pos := pos + 4;
    }
  }
}
