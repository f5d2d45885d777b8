/** Byte strings and the fixed-width integers that the image formats and wire formats pack into them. */
module Bytes {

  type Byte = b: int | 0 <= b < 256

  const TWO_TO_THE_16: int := 0x1_0000
  const TWO_TO_THE_32: int := 0x1_0000_0000
  const TWO_TO_THE_64: int := 0x1_0000_0000_0000_0000

  function Min(a: int, b: int): (m: int)
    ensures (m == a || m == b) && m <= a && m <= b
  {
    if a <= b then a else b
  }

  function Max(a: int, b: int): (m: int)
    ensures (m == a || m == b) && a <= m && b <= m
  {
    if a <= b then b else a
  }

  /** What a binary stream returns for `read(count)` after `seek(position)`: short at the end of the file. */
  function Read(file: seq<Byte>, position: nat, count: nat): seq<Byte> {
    file[Min(position, |file|)..Min(position + count, |file|)]
  }

  lemma Concatenated(a: seq<Byte>, b: seq<Byte>, c: seq<Byte>)
    ensures a + (b + c) == a + b + c
  {
  }

  /** What is added behind does not change the front. */
  lemma FrontStays(a: seq<Byte>, b: seq<Byte>, n: nat)
    requires n <= |a|
    ensures (a + b)[..n] == a[..n] && (a + b)[n..] == a[n..] + b
  {
  }

  function Pow256(n: nat): (p: int)
    ensures p > 0
  {
    if n == 0 then 1 else 0x100 * Pow256(n - 1)
  }

  /** The unsigned `size`-byte integer stored at `at`, least significant byte first. */
  function Field(b: seq<Byte>, at: nat, size: nat): (v: nat)
    requires at + size <= |b|
    decreases |b| + size
  {
    if size == 0 then 0 else b[at] + 0x100 * Field(b, at + 1, size - 1)
  }

  /** The `size` bytes that store `v`. */
  function LittleEndian(v: nat, size: nat): (s: seq<Byte>)
    ensures |s| == size
    decreases v + size
  {
    if size == 0 then [] else [v % 0x100] + LittleEndian(v / 0x100, size - 1)
  }

  lemma {:induction false} FieldBound(b: seq<Byte>, at: nat, size: nat)
    requires at + size <= |b|
    ensures Field(b, at, size) < Pow256(size)
    decreases size
  {
    if size > 0 {
      FieldBound(b, at + 1, size - 1);
    }
  }

  /** Wherever the packed bytes of `v` stand, reading the field gives `v` back. */
  lemma {:induction false} UnpackPack(b: seq<Byte>, at: nat, v: nat, size: nat)
    requires v < Pow256(size)
    requires at + size <= |b| && b[at..at + size] == LittleEndian(v, size)
    ensures Field(b, at, size) == v
    decreases size
  {
    if size > 0 {
      assert b[at] == b[at..at + size][0];
      assert b[at + 1..at + size] == b[at..at + size][1..];
      UnpackPack(b, at + 1, v / 0x100, size - 1);
    }
  }

  /** Packing a field's value gives its bytes back. */
  lemma {:induction false} PackUnpack(b: seq<Byte>, at: nat, size: nat)
    requires at + size <= |b|
    ensures LittleEndian(Field(b, at, size), size) == b[at..at + size]
    decreases size
  {
    if size > 0 {
      PackUnpack(b, at + 1, size - 1);
      assert b[at..at + size] == [b[at]] + b[at + 1..at + size];
    }
  }

  function U16(b: seq<Byte>, at: nat): (v: int)
    requires at + 2 <= |b|
    ensures 0 <= v < TWO_TO_THE_16
  {
    FieldBound(b, at, 2);
    Field(b, at, 2)
  }

  function U32(b: seq<Byte>, at: nat): (v: int)
    requires at + 4 <= |b|
    ensures 0 <= v < TWO_TO_THE_32
  {
    FieldBound(b, at, 4);
    assert Pow256(4) == TWO_TO_THE_32;
    Field(b, at, 4)
  }

  function U64(b: seq<Byte>, at: nat): (v: int)
    requires at + 8 <= |b|
    ensures 0 <= v < TWO_TO_THE_64
  {
    FieldBound(b, at, 8);
    assert Pow256(8) == 0x100 * 0x100 * 0x100 * 0x100 * Pow256(4);
    Field(b, at, 8)
  }

  /** The fixed-width reads, byte by byte. */
  lemma ReadsInBytes(b: seq<Byte>, at: nat)
    ensures at + 2 <= |b| ==> U16(b, at) == b[at] as int + 0x100 * b[at + 1] as int
    ensures at + 4 <= |b| ==>
              U32(b, at) == b[at] as int + 0x100 * b[at + 1] as int
                            + 0x1_0000 * b[at + 2] as int + 0x100_0000 * b[at + 3] as int
    ensures at + 8 <= |b| ==> U64(b, at) == U32(b, at) + 0x1_0000_0000 * U32(b, at + 4)
  {
    if at + 2 <= |b| {
      TwoBytes(b, at);
    }
    if at + 4 <= |b| {
      FourBytes(b, at);
    }
    if at + 8 <= |b| {
      FourBytes(b, at);
      FourBytes(b, at + 4);
      assert Field(b, at, 8) == b[at] + 0x100 * Field(b, at + 1, 7);
      assert Field(b, at + 1, 7) == b[at + 1] + 0x100 * Field(b, at + 2, 6);
      assert Field(b, at + 2, 6) == b[at + 2] + 0x100 * Field(b, at + 3, 5);
      assert Field(b, at + 3, 5) == b[at + 3] + 0x100 * Field(b, at + 4, 4);
    }
  }

  lemma TwoBytes(b: seq<Byte>, at: nat)
    requires at + 2 <= |b|
    ensures Field(b, at, 2) == b[at] as int + 0x100 * b[at + 1] as int
  {
    assert Field(b, at + 1, 1) == b[at + 1] + 0x100 * Field(b, at + 2, 0);
  }

  lemma FourBytes(b: seq<Byte>, at: nat)
    requires at + 4 <= |b|
    ensures Field(b, at, 4) == b[at] as int + 0x100 * b[at + 1] as int
                               + 0x1_0000 * b[at + 2] as int + 0x100_0000 * b[at + 3] as int
  {
    TwoBytes(b, at + 2);
    assert Field(b, at + 1, 3) == b[at + 1] + 0x100 * Field(b, at + 2, 2);
  }

  /** `b` holds the number `v` in the `size` bytes from `at` on. */
  ghost predicate Stores(b: seq<Byte>, at: int, v: int, size: nat) {
    && 0 <= v < Pow256(size)
    && 0 <= at && at + size <= |b| && b[at..at + size] == LittleEndian(v, size)
  }

  /** A stored number is what the read of its width gives. */
  lemma StoredIsRead(b: seq<Byte>, at: int, v: int)
    ensures Stores(b, at, v, 2) ==> U16(b, at) == v
    ensures Stores(b, at, v, 4) ==> U32(b, at) == v
    ensures Stores(b, at, v, 8) ==> U64(b, at) == v
  {
    if Stores(b, at, v, 2) {
      UnpackPack(b, at, v, 2);
    }
    if Stores(b, at, v, 4) {
      UnpackPack(b, at, v, 4);
    }
    if Stores(b, at, v, 8) {
      UnpackPack(b, at, v, 8);
    }
  }

  lemma {:induction false} SliceField(b: seq<Byte>, from: nat, to: nat, at: nat, size: nat)
    requires from <= to <= |b| && at + size <= to - from
    ensures Field(b[from..to], at, size) == Field(b, from + at, size)
    decreases size
  {
    if size > 0 {
      SliceField(b, from, to, at + 1, size - 1);
    }
  }

  /** A field of a slice is the field of the whole file at the shifted position. */
  lemma SliceFields(b: seq<Byte>, from: nat, to: nat)
    requires from <= to <= |b|
    ensures forall at: nat {:trigger U16(b[from..to], at)} ::
              at + 2 <= to - from ==> U16(b[from..to], at) == U16(b, from + at)
    ensures forall at: nat {:trigger U32(b[from..to], at)} ::
              at + 4 <= to - from ==> U32(b[from..to], at) == U32(b, from + at)
    ensures forall at: nat {:trigger U64(b[from..to], at)} ::
              at + 8 <= to - from ==> U64(b[from..to], at) == U64(b, from + at)
  {
    forall at: nat, size: nat {:trigger Field(b[from..to], at, size)} | at + size <= to - from
      ensures Field(b[from..to], at, size) == Field(b, from + at, size)
    {
      SliceField(b, from, to, at, size);
    }
  }
}
