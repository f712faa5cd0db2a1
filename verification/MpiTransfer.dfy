/** Packing, the collectives, and unpacking: how rows travel between the root and the ranks as bytes. */
module MpiTransfer {
  import opened Arithmetic
  import opened Pixels
  import opened RowBytes
  import opened MpiGeometry

  // ---- rows as bytes --------------------------------------------------------------------------

  function RowOf(p: Picture, y: nat): (row: seq<Pixel>)
    requires y < p.height
    ensures |row| == p.width && forall x :: 0 <= x < p.width ==> row[x] == p.At(y, x)
  {
    p.pixels[y]
  }

  /** Rows `start` to `start + rows` of a picture, each cut to its first `stride` bytes. */
  function Slab(p: Picture, stride: nat, start: nat, rows: nat): (b: seq<Byte>)
    requires stride <= 3 * p.width && start + rows <= p.height
    ensures |b| == rows * stride
  {
    if rows == 0 then [] else Slab(p, stride, start, rows - 1) + Packed(RowOf(p, start + rows - 1))[..stride]
  }

  /** Consecutive row intervals join. */
  lemma {:induction false} SlabJoin(p: Picture, stride: nat, start: nat, rows: nat, more: nat)
    requires stride <= 3 * p.width && start + rows + more <= p.height
    ensures Slab(p, stride, start, rows) + Slab(p, stride, start + rows, more) == Slab(p, stride, start, rows + more)
  {
    if more > 0 {
      SlabJoin(p, stride, start, rows, more - 1);
    } else {
      assert Slab(p, stride, start, rows) + [] == Slab(p, stride, start, rows);
    }
  }

  lemma SliceOfLeft(a: seq<Byte>, b: seq<Byte>, from: nat, to: nat)
    requires from <= to <= |a|
    ensures (a + b)[from..to] == a[from..to]
  {
  }

  /** A sub-interval of the rows is a slice of the bytes. */
  lemma SlabSlice(p: Picture, stride: nat, start: nat, rows: nat, skip: nat, count: nat)
    requires stride <= 3 * p.width && start + rows <= p.height && skip + count <= rows
    ensures 0 <= skip * stride <= (skip + count) * stride <= rows * stride
    ensures Slab(p, stride, start, rows)[skip * stride..(skip + count) * stride] == Slab(p, stride, start + skip, count)
  {
    FactorOrder(stride, skip, skip + count);
    FactorOrder(stride, skip + count, rows);
    Distribute(stride, skip, count);
    SlabJoin(p, stride, start, skip, count);
    SlabJoin(p, stride, start, skip + count, rows - (skip + count));
    var before, slice := Slab(p, stride, start, skip), Slab(p, stride, start + skip, count);
    var after := Slab(p, stride, start + (skip + count), rows - (skip + count));
    assert Slab(p, stride, start, rows) == before + slice + after;
    MiddleSlice(before, slice, after);
  }

  /** With whole rows, the bytes of each pixel stand at its row times the stride plus three times its column. */
  lemma SlabPixel(p: Picture, start: nat, rows: nat, r: nat, x: nat)
    requires start + rows <= p.height && r < rows && x < p.width
    ensures var b, at := Slab(p, 3 * p.width, start, rows), r * (3 * p.width) + 3 * x;
            at + 2 < |b| && Pixel(b[at], b[at + 1], b[at + 2]) == p.At(start + r, x)
  {
    var stride := 3 * p.width;
    SlabSlice(p, stride, start, rows, r, 1);
    Distribute(stride, r, 1);
    var b := Slab(p, stride, start, rows);
    var row := Packed(RowOf(p, start + r));
    assert Slab(p, stride, start + r, 0) == [];
    assert Slab(p, stride, start + r, 1) == row[..stride] == row;
    var slice := b[r * stride..(r + 1) * stride];
    assert slice == row;
    PackedAt(RowOf(p, start + r), x);
    assert b[r * stride + 3 * x] == slice[3 * x] && b[r * stride + 3 * x + 1] == slice[3 * x + 1] && b[r * stride + 3 * x + 2] == slice[3 * x + 2];
  }

  // ---- packing --------------------------------------------------------------------------------

  /** What the root packs for the first ranks, one slab after the other. */
  function PackedFor(p: Picture, halo: nat, size: nat, stride: nat, ranks: nat): (b: seq<Byte>)
    requires stride <= 3 * p.width && ranks <= size
    ensures |b| == Displacement(p.height, halo, size, stride, ranks)
  {
    if ranks == 0 then []
    else
      ReceiveInside(p.height, halo, size, ranks - 1);
      PackedFor(p, halo, size, stride, ranks - 1)
      + Slab(p, stride, ReceiveStart(p.height, halo, size, ranks - 1), ReceiveRows(p.height, halo, size, ranks - 1))
  }

  /** The bytes `part` stand at a position of a buffer. */
  predicate StandsAt(b: seq<Byte>, at: nat, part: seq<Byte>) {
    at + |part| <= |b| && b[at..at + |part|] == part
  }

  lemma StandsInLonger(a: seq<Byte>, b: seq<Byte>, at: nat, part: seq<Byte>)
    requires StandsAt(a, at, part)
    ensures StandsAt(a + b, at, part)
  {
    SliceOfLeft(a, b, at, at + |part|);
  }

  lemma StandsAtEnd(a: seq<Byte>, part: seq<Byte>)
    ensures StandsAt(a + part, |a|, part)
  {
    MiddleSlice(a, part, []);
    assert a + part + [] == a + part;
  }

  /** The slice of the packed buffer at a rank's displacement is exactly the rows that rank receives. */
  lemma {:induction false} PackedSlice(p: Picture, halo: nat, size: nat, stride: nat, ranks: nat, i: nat)
    requires stride <= 3 * p.width && i < ranks <= size
    ensures ReceiveStart(p.height, halo, size, i) + ReceiveRows(p.height, halo, size, i) <= p.height
    ensures StandsAt(PackedFor(p, halo, size, stride, ranks), Displacement(p.height, halo, size, stride, i),
                     Slab(p, stride, ReceiveStart(p.height, halo, size, i), ReceiveRows(p.height, halo, size, i)))
  {
    ReceiveInside(p.height, halo, size, i);
    ReceiveInside(p.height, halo, size, ranks - 1);
    var before := PackedFor(p, halo, size, stride, ranks - 1);
    var last := Slab(p, stride, ReceiveStart(p.height, halo, size, ranks - 1), ReceiveRows(p.height, halo, size, ranks - 1));
    if i < ranks - 1 {
      PackedSlice(p, halo, size, stride, ranks - 1, i);
      var share := Slab(p, stride, ReceiveStart(p.height, halo, size, i), ReceiveRows(p.height, halo, size, i));
      StandsInLonger(before, last, Displacement(p.height, halo, size, stride, i), share);
    } else {
      StandsAtEnd(before, last);
    }
  }

  /** `memcpy` of bytes to a position of a buffer. */
  method CopyBytes(source: seq<Byte>, target: array<Byte>, at: nat)
    requires at + |source| <= target.Length
    modifies target
    ensures target[..at] == old(target[..at])
    ensures target[at..at + |source|] == source
    ensures target[at + |source|..] == old(target[at + |source|..])
  {
    for i := 0 to |source|
      invariant target[..at] == old(target[..at])
      invariant target[at..at + i] == source[..i]
      invariant target[at + |source|..] == old(target[at + |source|..])
    {
      target[at + i] := source[i];
      assert target[at..at + i + 1] == target[at..at + i] + [source[i]];
    }
  }

  method AppendBytes(source: seq<Byte>, buffer: array<Byte>, at: nat) returns (end: nat)
    requires at + |source| <= buffer.Length
    modifies buffer
    ensures end == at + |source| && buffer[..end] == old(buffer[..at]) + source
  {
    CopyBytes(source, buffer, at);
    end := at + |source|;
    assert buffer[..end] == buffer[..at] + buffer[at..end];
  }

  /** Appends a run of rows to a buffer filled up to a position. */
  method PackRows(p: Picture, stride: nat, start: nat, rows: nat, buffer: array<Byte>, at: nat) returns (end: nat)
    requires stride <= 3 * p.width && start + rows <= p.height && at + rows * stride <= buffer.Length
    modifies buffer
    ensures end == at + rows * stride
    ensures buffer[..end] == old(buffer[..at]) + Slab(p, stride, start, rows)
  {
    end := at;
    ghost var before := buffer[..at];
    for r := 0 to rows
      invariant end == at + r * stride
      invariant end <= buffer.Length && buffer[..end] == before + Slab(p, stride, start, r)
    {
      Distribute(stride, r, 1);
      FactorOrder(stride, r + 1, rows);
      AppendRow(p, stride, start, r, before);
      end := AppendBytes(Packed(RowOf(p, start + r))[..stride], buffer, end);
    }
  }

  lemma AppendRow(p: Picture, stride: nat, start: nat, r: nat, before: seq<Byte>)
    requires stride <= 3 * p.width && start + r < p.height
    ensures before + Slab(p, stride, start, r) + Packed(RowOf(p, start + r))[..stride] == before + Slab(p, stride, start, r + 1)
  {
  }

  lemma RowsFromBytes(rows: nat, stride: nat)
    requires 0 < stride
    ensures rows * stride / stride == rows && (rows * stride > 0 <==> rows > 0)
  {
    DivModUnique(rows * stride, stride, rows, 0);
    FactorOrder(stride, 0, rows);
  }

  /** One iteration of the packing loop; the row range it derives from byte counts is checked against the height. */
  method PackShare(p: Picture, stride: nat, ghost start: nat, ghost rows: nat, originalDispl: int, sendCount: int, buffer: array<Byte>, at: nat)
    returns (ok: bool, end: nat)
    requires 0 < stride <= 3 * p.width && start + rows <= p.height && at + rows * stride <= buffer.Length
    requires originalDispl == start * stride && sendCount == rows * stride
    modifies buffer
    ensures ok && end == at + rows * stride
    ensures buffer[..end] == old(buffer[..at]) + Slab(p, stride, start, rows)
  {
    RowsFromBytes(start, stride);
    RowsFromBytes(rows, stride);
    if sendCount > 0 {
      var procStartRow := originalDispl / stride;
      var procSendRows := sendCount / stride;
      if procStartRow + procSendRows > p.height {
        return false, at;
      }
      end := PackRows(p, stride, procStartRow, procSendRows, buffer, at);
    } else {
      end := at;
    }
    ok := true;
  }

  lemma PackedForNext(p: Picture, halo: nat, size: nat, stride: nat, i: nat, arrays: CommArrays) returns (start: nat, rows: nat)
    requires i < size && 0 < stride <= 3 * p.width && ArraysFor(arrays, p.height, halo, size, stride)
    ensures start + rows <= p.height
    ensures arrays.originalDispls[i] == start * stride && arrays.sendCounts[i] == rows * stride
    ensures Displacement(p.height, halo, size, stride, i) + rows * stride == Displacement(p.height, halo, size, stride, i + 1)
         <= PackedBytes(p.height, halo, size, stride)
    ensures PackedFor(p, halo, size, stride, i + 1) == PackedFor(p, halo, size, stride, i) + Slab(p, stride, start, rows)
  {
    start, rows := ReceiveStart(p.height, halo, size, i), ReceiveRows(p.height, halo, size, i);
    ReceiveInside(p.height, halo, size, i);
    DisplacementNext(p.height, halo, size, stride, i);
  }

  /** `mpi_rank0_pack_data_for_scatter`: never takes its error branch, and leaves every rank's rows at its displacement. */
  method PackForScatter(p: Picture, halo: nat, size: nat, stride: nat, arrays: CommArrays) returns (ok: bool, packed: seq<Byte>)
    requires 0 < stride <= 3 * p.width && ArraysFor(arrays, p.height, halo, size, stride)
    ensures ok && packed == PackedFor(p, halo, size, stride, size)
  {
    var totalPackedSize := SumCounts(p, halo, size, stride, arrays);
    var buffer := new Byte[totalPackedSize];
    var at := 0;
    for i := 0 to size
      invariant at == Displacement(p.height, halo, size, stride, i)
      invariant buffer.Length == PackedBytes(p.height, halo, size, stride) && at <= buffer.Length
      invariant buffer[..at] == PackedFor(p, halo, size, stride, i)
    {
      ghost var start, rows := PackedForNext(p, halo, size, stride, i, arrays);
      ok, at := PackShare(p, stride, start, rows, arrays.originalDispls[i], arrays.sendCounts[i], buffer, at);
      if !ok {
        return false, [];
      }
    }
    return true, buffer[..];
  }

  method SumCounts(p: Picture, halo: nat, size: nat, stride: nat, arrays: CommArrays) returns (total: nat)
    requires ArraysFor(arrays, p.height, halo, size, stride)
    ensures total == PackedBytes(p.height, halo, size, stride)
  {
    total := 0;
    for i := 0 to size
      invariant total == Displacement(p.height, halo, size, stride, i)
    {
      total := total + arrays.sendCounts[i];
    }
  }

  // ---- the collectives ------------------------------------------------------------------------

  /** MPI_Scatterv: what rank i receives of the root's buffer. */
  function Scattered(buffer: seq<Byte>, counts: seq<int>, displs: seq<int>, i: nat): (part: seq<Byte>)
    requires i < |counts| == |displs| && 0 <= displs[i] && 0 <= counts[i] && displs[i] + counts[i] <= |buffer|
    ensures |part| == counts[i]
  {
    buffer[displs[i]..displs[i] + counts[i]]
  }

  function Overlay(buffer: seq<Byte>, at: nat, part: seq<Byte>): (r: seq<Byte>)
    requires at + |part| <= |buffer|
    ensures |r| == |buffer|
  {
    buffer[..at] + part + buffer[at + |part|..]
  }

  predicate PartsFit(parts: seq<seq<Byte>>, displs: seq<int>, length: nat) {
    |parts| <= |displs| && forall i :: 0 <= i < |parts| ==> 0 <= displs[i] && displs[i] + |parts[i]| <= length
  }

  /** MPI_Gatherv: the root's buffer with the first parts placed at their displacements. */
  function Gathered(buffer: seq<Byte>, parts: seq<seq<Byte>>, displs: seq<int>): (r: seq<Byte>)
    requires PartsFit(parts, displs, |buffer|)
    ensures |r| == |buffer|
    decreases |parts|
  {
    if parts == [] then buffer
    else
      var last := |parts| - 1;
      Overlay(Gathered(buffer, parts[..last], displs), displs[last], parts[last])
  }

  /** The bytes a rank sends back are its rows of the picture. */
  predicate IsShare(q: Picture, size: nat, rank: nat, part: seq<Byte>) {
    StartOf(q.height, size, rank) + RowsOf(q.height, size, rank) <= q.height
    && part == Slab(q, 3 * q.width, StartOf(q.height, size, rank), RowsOf(q.height, size, rank))
  }

  /** A part placed behind a known beginning extends it. */
  lemma OverlayExtends(buffer: seq<Byte>, at: nat, part: seq<Byte>)
    requires at + |part| <= |buffer|
    ensures Overlay(buffer, at, part)[..at + |part|] == buffer[..at] + part
  {
  }

  /** Where the rows of the first ranks end. */
  lemma SharesEnd(q: Picture, size: nat, ranks: nat)
    requires ranks <= size && 0 < size
    ensures StartOf(q.height, size, ranks) <= q.height
    ensures StartOf(q.height, size, ranks) * (3 * q.width) <= 3 * q.width * q.height
  {
    StartsGrow(q.height, size, ranks, size);
    LastStart(q.height, size);
    FactorOrder(3 * q.width, StartOf(q.height, size, ranks), q.height);
  }

  /** The rows of one more rank. */
  lemma NextShare(q: Picture, size: nat, rank: nat, part: seq<Byte>)
    requires rank < size && IsShare(q, size, rank, part)
    ensures var start, end := StartOf(q.height, size, rank), StartOf(q.height, size, rank + 1);
            && end <= q.height && end * (3 * q.width) == start * (3 * q.width) + |part|
            && Slab(q, 3 * q.width, 0, start) + part == Slab(q, 3 * q.width, 0, end)
  {
    var start, rows := StartOf(q.height, size, rank), RowsOf(q.height, size, rank);
    StartsAreConsecutive(q.height, size, rank);
    SlabJoin(q, 3 * q.width, 0, start, rows);
    Distribute(3 * q.width, start, rows);
  }

  /** The rows computed by the ranks, gathered, are the rows of the whole picture: no part hides another. */
  lemma {:induction false} GatheredRows(q: Picture, size: nat, buffer: seq<Byte>, parts: seq<seq<Byte>>, displs: seq<int>)
    requires |parts| <= size == |displs| && PartsFit(parts, displs, |buffer|) && 0 < size
    requires |buffer| == 3 * q.width * q.height
    requires forall i :: 0 <= i < size ==> displs[i] == ReceiveDisplacement(q.height, size, 3 * q.width, i)
    requires forall i :: 0 <= i < |parts| ==> IsShare(q, size, i, parts[i])
    ensures StartOf(q.height, size, |parts|) <= q.height && StartOf(q.height, size, |parts|) * (3 * q.width) <= |buffer|
    ensures Gathered(buffer, parts, displs)[..StartOf(q.height, size, |parts|) * (3 * q.width)]
         == Slab(q, 3 * q.width, 0, StartOf(q.height, size, |parts|))
    decreases |parts|
  {
    SharesEnd(q, size, |parts|);
    if parts != [] {
      var last := |parts| - 1;
      GatheredRows(q, size, buffer, parts[..last], displs);
      assert IsShare(q, size, last, parts[last]);
      NextShare(q, size, last, parts[last]);
      OverlayExtends(Gathered(buffer, parts[..last], displs), displs[last], parts[last]);
    }
  }

  // ---- unpacking ------------------------------------------------------------------------------

  /** `memcpy` of one row of bytes into a row of the output. */
  method UnpackRow(b: seq<Byte>, output: array2<Pixel>, y: nat)
    requires y < output.Length0 && |b| == 3 * output.Length1
    modifies output
    ensures forall x :: 0 <= x < output.Length1 ==> output[y, x] == Pixel(b[3 * x], b[3 * x + 1], b[3 * x + 2])
    ensures forall i, x :: 0 <= i < output.Length0 && 0 <= x < output.Length1 && i != y ==> output[i, x] == old(output[i, x])
  {
    for x := 0 to output.Length1
      invariant forall j :: 0 <= j < x ==> output[y, j] == Pixel(b[3 * j], b[3 * j + 1], b[3 * j + 2])
      invariant forall i, j :: 0 <= i < output.Length0 && 0 <= j < output.Length1 && i != y ==> output[i, j] == old(output[i, j])
    {
      output[y, x] := Pixel(b[3 * x], b[3 * x + 1], b[3 * x + 2]);
    }
  }

  lemma RowSlicePixels(q: Picture, y: nat)
    requires y < q.height
    ensures y * (3 * q.width) + 3 * q.width <= |Slab(q, 3 * q.width, 0, q.height)|
    ensures var b := Slab(q, 3 * q.width, 0, q.height)[y * (3 * q.width)..y * (3 * q.width) + 3 * q.width];
            forall x :: 0 <= x < q.width ==> Pixel(b[3 * x], b[3 * x + 1], b[3 * x + 2]) == q.At(y, x)
  {
    FactorOrder(3 * q.width, y + 1, q.height);
    Distribute(3 * q.width, y, 1);
    var all, from := Slab(q, 3 * q.width, 0, q.height), y * (3 * q.width);
    var b := all[from..from + 3 * q.width];
    forall x | 0 <= x < q.width
      ensures Pixel(b[3 * x], b[3 * x + 1], b[3 * x + 2]) == q.At(y, x)
    {
      SlabPixel(q, 0, q.height, y, x);
    }
  }

  /** The first rows of an output buffer hold those of a picture. */
  ghost predicate HoldsRows(output: array2<Pixel>, q: Picture, rows: int)
    reads output
  {
    && output.Length0 == q.height && output.Length1 == q.width && rows <= q.height
    && forall y, x :: 0 <= y < rows && 0 <= x < q.width ==> output[y, x] == q.At(y, x)
  }

  /** One rank's rows, read from its displacement on. */
  method UnpackRows(gathered: seq<Byte>, ghost q: Picture, output: array2<Pixel>, start: nat, rows: nat)
    requires gathered == Slab(q, 3 * q.width, 0, q.height) && start + rows <= q.height
    requires HoldsRows(output, q, start)
    modifies output
    ensures HoldsRows(output, q, start + rows)
  {
    var stride := 3 * output.Length1;
    var at := start * stride;
    for r := 0 to rows
      invariant at == (start + r) * stride
      invariant HoldsRows(output, q, start + r)
    {
      RowSlicePixels(q, start + r);
      UnpackRow(gathered[at..at + stride], output, start + r);
      Distribute(stride, start + r, 1);
      at := at + stride;
    }
  }

  /** One iteration of the unpacking loop, with its check against the height. */
  method UnpackShare(gathered: seq<Byte>, ghost q: Picture, output: array2<Pixel>, ghost start: nat, ghost rows: nat, recvDispl: int, recvCount: int)
    returns (ok: bool)
    requires gathered == Slab(q, 3 * q.width, 0, q.height) && start + rows <= q.height
    requires recvDispl == start * (3 * q.width) && recvCount == rows * (3 * q.width)
    requires HoldsRows(output, q, start)
    modifies output
    ensures ok && HoldsRows(output, q, start + rows)
  {
    var stride := 3 * output.Length1;
    RowsFromBytes(start, stride);
    RowsFromBytes(rows, stride);
    if recvCount > 0 {
      var procStartRow := recvDispl / stride;
      var procRows := recvCount / stride;
      if procStartRow + procRows > output.Length0 {
        return false;
      }
      UnpackRows(gathered, q, output, procStartRow, procRows);
    }
    ok := true;
  }

  /** `mpi_rank0_unpack_data`: never takes its error branch, and writes every output row from its owner's bytes. */
  method UnpackGathered(gathered: seq<Byte>, ghost q: Picture, output: array2<Pixel>, size: nat, ghost halo: nat, arrays: CommArrays)
    returns (ok: bool)
    requires 0 < size && gathered == Slab(q, 3 * q.width, 0, q.height)
    requires output.Length0 == q.height && output.Length1 == q.width
    requires ArraysFor(arrays, q.height, halo, size, 3 * q.width)
    modifies output
    ensures ok && Holds(output, q)
  {
    FirstStart(q.height, size);
    for i := 0 to size
      invariant HoldsRows(output, q, StartOf(q.height, size, i))
    {
      IntervalInside(q.height, size, i);
      StartsAreConsecutive(q.height, size, i);
      ok := UnpackShare(gathered, q, output, StartOf(q.height, size, i), RowsOf(q.height, size, i), arrays.recvDispls[i], arrays.recvCounts[i]);
      if !ok {
        return;
      }
    }
    LastStart(q.height, size);
    ok := true;
  }
}
