/** Pixel rows as packed bytes: blue, green, red for each pixel, without gaps. */
module RowBytes {
  import opened Pixels

  const BYTES_PER_PIXEL := 3

  function Packed(row: seq<Pixel>): (b: seq<Byte>)
    ensures |b| == 3 * |row|
  {
    if row == [] then []
    else
      var last := row[|row| - 1];
      Packed(row[..|row| - 1]) + [last.blue, last.green, last.red]
  }

  /** The bytes of the pixel at x. */
  lemma {:induction false} PackedAt(row: seq<Pixel>, x: nat)
    requires x < |row|
    ensures Packed(row)[3 * x] == row[x].blue && Packed(row)[3 * x + 1] == row[x].green && Packed(row)[3 * x + 2] == row[x].red
  {
    if x < |row| - 1 {
      PackedAt(row[..|row| - 1], x);
    }
  }

  function Unpacked(b: seq<Byte>, width: nat): (row: seq<Pixel>)
    requires |b| == 3 * width
    ensures |row| == width
    ensures forall x :: 0 <= x < width ==> row[x] == Pixel(b[3 * x], b[3 * x + 1], b[3 * x + 2])
  {
    seq(width, x requires 0 <= x < width => Pixel(b[3 * x], b[3 * x + 1], b[3 * x + 2]))
  }

  lemma UnpackedPacked(row: seq<Pixel>)
    ensures Unpacked(Packed(row), |row|) == row
  {
    forall x | 0 <= x < |row|
      ensures Unpacked(Packed(row), |row|)[x] == row[x]
    {
      PackedAt(row, x);
    }
  }

  lemma {:induction false} PackedUnpacked(b: seq<Byte>, width: nat)
    requires |b| == 3 * width
    ensures Packed(Unpacked(b, width)) == b
  {
    if width > 0 {
      var front := b[..3 * (width - 1)];
      PackedUnpacked(front, width - 1);
      var row := Unpacked(b, width);
      assert row[..width - 1] == Unpacked(front, width - 1);
      assert b == front + [b[3 * (width - 1)], b[3 * (width - 1) + 1], b[3 * (width - 1) + 2]];
    } else {
      assert b == [];
    }
  }

  lemma MiddleSlice(a: seq<Byte>, b: seq<Byte>, c: seq<Byte>)
    ensures (a + b + c)[|a|..|a| + |b|] == b
  {
  }
}
