/** The filter as one MPI rank applies it: on raw bytes, reading through global coordinates turned into local ones. */
module MpiFilter {
  import opened Arithmetic
  import opened Pixels
  import opened Kernels
  import opened Convolution
  import opened RowBytes
  import opened MpiGeometry
  import opened MpiTransfer

  const UINT32_SPAN := 0x1_0000_0000

  predicate RowReceived(comm: CommData, y: int, d: int)
    requires 0 < comm.height
    reads comm
  {
    comm.sendStart <= Clamp(y + d, comm.height) < comm.sendStart + comm.sendRows
  }

  /** For every row of this rank and every row of the window, the clamped row was received. */
  ghost predicate HaloCovers(comm: CommData)
    reads comm
  {
    0 < comm.height && forall y: nat, d: int ::
      comm.myStart <= y < comm.myStart + comm.myRows && -(comm.haloSize as int) <= d <= comm.haloSize
      ==> RowReceived(comm, y, d)
  }

  /** The rank was given what it needs: whole rows of the picture, its own and the halo around them. */
  ghost predicate Supplied(comm: CommData, k: Kernel, input: seq<Byte>, p: Picture)
    reads comm
  {
    && comm.width == p.width && comm.height == p.height
    && comm.rowStride == 3 * p.width && comm.haloSize == k.Padding()
    && comm.myStart + comm.myRows <= p.height && comm.sendStart + comm.sendRows <= p.height
    && input == Slab(p, 3 * p.width, comm.sendStart, comm.sendRows)
    && HaloCovers(comm)
  }

  /** The input pixel below one weight; a row outside the local buffer aborts the run. */
  method ReadLocal(comm: CommData, input: seq<Byte>, imageY: nat, imageX: nat, ghost p: Picture, ghost k: Kernel)
    returns (ok: bool, pixel: Pixel)
    requires imageX < comm.width
    ensures Supplied(comm, k, input, p) && comm.sendStart <= imageY < comm.sendStart + comm.sendRows
            ==> ok && pixel == p.At(imageY, imageX)
  {
    pixel := Pixel(0, 0, 0);
    var imageYLocal := (imageY - comm.sendStart) % UINT32_SPAN;
    if imageYLocal >= comm.sendRows {
      return false, pixel;
    }
    var at := imageYLocal * comm.rowStride + imageX * BYTES_PER_PIXEL;
    ok := at + 2 < |input|;
    if ok {
      pixel := Pixel(input[at], input[at + 1], input[at + 2]);
    }
    if Supplied(comm, k, input, p) && comm.sendStart <= imageY < comm.sendStart + comm.sendRows {
      SlabPixel(p, comm.sendStart, comm.sendRows, imageY - comm.sendStart, imageX);
    }
  }

  /** Clamps a coordinate with the code's three-way branch. */
  method ClampIndex(potential: int, length: nat) returns (index: nat)
    requires 0 < length
    ensures index == Clamp(potential, length)
  {
    if potential < 0 {
      index := 0;
    } else if potential >= length {
      index := length - 1;
    } else {
      index := potential;
    }
  }

  /** One row of the window: the inner kernel loop. */
  method AccumulateRow(comm: CommData, k: Kernel, input: seq<Byte>, globalY: nat, x: nat, filterY: nat, blue: int, green: int, red: int, ghost p: Picture)
    returns (ok: bool, blueAcc: int, greenAcc: int, redAcc: int)
    requires x < comm.width && 0 < comm.height && filterY < k.size
    requires comm.myStart <= globalY < comm.myStart + comm.myRows
    ensures Supplied(comm, k, input, p) ==> ok && blueAcc == blue + RowSum(p, k, globalY, x, filterY, k.size, Blue)
    ensures Supplied(comm, k, input, p) ==> greenAcc == green + RowSum(p, k, globalY, x, filterY, k.size, Green)
    ensures Supplied(comm, k, input, p) ==> redAcc == red + RowSum(p, k, globalY, x, filterY, k.size, Red)
  {
    var padding := k.size / 2;
    ghost var supplied := Supplied(comm, k, input, p);
    blueAcc, greenAcc, redAcc := blue, green, red;
    for filterX := 0 to k.size
      invariant supplied ==> blueAcc == blue + RowSum(p, k, globalY, x, filterY, filterX, Blue)
      invariant supplied ==> greenAcc == green + RowSum(p, k, globalY, x, filterY, filterX, Green)
      invariant supplied ==> redAcc == red + RowSum(p, k, globalY, x, filterY, filterX, Red)
    {
      var imageX := ClampIndex(x + filterX - padding, comm.width);
      var imageY := ClampIndex(globalY + filterY - padding, comm.height);
      assert supplied ==> RowReceived(comm, globalY, filterY - padding);
      var pixel;
      ok, pixel := ReadLocal(comm, input, imageY, imageX, p, k);
      if !ok {
        return;
      }
      var weight := k.Weight(filterY, filterX);
      assert supplied ==> pixel == Neighbour(p, k, globalY, x, filterY, filterX);
      blueAcc := blueAcc + pixel.blue * weight;
      greenAcc := greenAcc + pixel.green * weight;
      redAcc := redAcc + pixel.red * weight;
    }
    ok := true;
  }

  /** The accumulators of one output pixel. */
  method AccumulateLocal(comm: CommData, k: Kernel, input: seq<Byte>, globalY: nat, x: nat, ghost p: Picture)
    returns (ok: bool, blueAcc: int, greenAcc: int, redAcc: int)
    requires x < comm.width && 0 < comm.height
    requires comm.myStart <= globalY < comm.myStart + comm.myRows
    ensures Supplied(comm, k, input, p) ==> ok && blueAcc == WindowSum(p, k, globalY, x, k.size, k.size, Blue)
    ensures Supplied(comm, k, input, p) ==> greenAcc == WindowSum(p, k, globalY, x, k.size, k.size, Green)
    ensures Supplied(comm, k, input, p) ==> redAcc == WindowSum(p, k, globalY, x, k.size, k.size, Red)
  {
    ghost var supplied := Supplied(comm, k, input, p);
    blueAcc, greenAcc, redAcc := 0, 0, 0;
    for filterY := 0 to k.size
      invariant supplied ==> blueAcc == WindowSum(p, k, globalY, x, filterY, k.size, Blue)
      invariant supplied ==> greenAcc == WindowSum(p, k, globalY, x, filterY, k.size, Green)
      invariant supplied ==> redAcc == WindowSum(p, k, globalY, x, filterY, k.size, Red)
    {
      ok, blueAcc, greenAcc, redAcc := AccumulateRow(comm, k, input, globalY, x, filterY, blueAcc, greenAcc, redAcc, p);
      if !ok {
        return;
      }
    }
    ok := true;
  }

  function Bytes(pixel: Pixel): (b: seq<Byte>)
    ensures |b| == 3
  {
    [pixel.blue, pixel.green, pixel.red]
  }

  /** Writes one output pixel, unless it would lie outside the buffer. */
  method WriteLocal(output: array<Byte>, at: nat, pixel: Pixel) returns (ok: bool)
    modifies output
    ensures ok <==> at + 2 < output.Length
    ensures ok ==> output[..at + 3] == old(output[..at]) + Bytes(pixel)
  {
    ok := at + 2 < output.Length;
    if ok {
      output[at], output[at + 1], output[at + 2] := pixel.blue, pixel.green, pixel.red;
    }
  }

  /** One output pixel. */
  method FilterPixel(comm: CommData, k: Kernel, input: seq<Byte>, output: array<Byte>, globalY: nat, x: nat, at: nat, ghost p: Picture)
    returns (ok: bool)
    requires x < comm.width && 0 < comm.height && comm.myStart <= globalY < comm.myStart + comm.myRows
    requires Supplied(comm, k, input, p) ==> at + 3 <= output.Length
    modifies output
    ensures ok ==> at + 3 <= output.Length
    ensures Supplied(comm, k, input, p) ==> ok && output[..at + 3] == old(output[..at]) + Bytes(ConvAt(p, k, globalY, x))
  {
    var blueAcc, greenAcc, redAcc;
    ok, blueAcc, greenAcc, redAcc := AccumulateLocal(comm, k, input, globalY, x, p);
    if !ok {
      return;
    }
    ok := WriteLocal(output, at, Pixel(Quantise(k, blueAcc), Quantise(k, greenAcc), Quantise(k, redAcc)));
  }

  /** The next pixel of a row, whose bytes extend those of the pixels before it. */
  method FilterNextPixel(comm: CommData, k: Kernel, input: seq<Byte>, output: array<Byte>, globalY: nat, x: nat, at: nat, ghost p: Picture, ghost before: seq<Byte>)
    returns (ok: bool)
    requires x < comm.width && 0 < comm.height && comm.myStart <= globalY < comm.myStart + comm.myRows && at <= output.Length
    requires Supplied(comm, k, input, p) ==> at + 3 <= output.Length && output[..at] == before + ConvPixels(p, k, globalY, x)
    modifies output
    ensures ok ==> at + 3 <= output.Length
    ensures Supplied(comm, k, input, p) ==> ok && output[..at + 3] == before + ConvPixels(p, k, globalY, x + 1)
  {
    ok := FilterPixel(comm, k, input, output, globalY, x, at, p);
  }

  /** The columns of one row, written from a position of the output on. */
  method FilterRow(comm: CommData, k: Kernel, input: seq<Byte>, output: array<Byte>, globalY: nat, base: nat, ghost p: Picture) returns (ok: bool)
    requires 0 < comm.width && 0 < comm.height && comm.myStart <= globalY < comm.myStart + comm.myRows && base <= output.Length
    requires Supplied(comm, k, input, p) ==> base + 3 * comm.width <= output.Length
    modifies output
    ensures ok ==> base + 3 * comm.width <= output.Length
    ensures Supplied(comm, k, input, p) ==>
      ok && output[..base + 3 * comm.width] == old(output[..base]) + ConvPixels(p, k, globalY, p.width)
  {
    ghost var supplied := Supplied(comm, k, input, p);
    ghost var before := output[..base];
    for x := 0 to comm.width
      invariant base + 3 * x <= output.Length
      invariant supplied ==> output[..base + 3 * x] == before + ConvPixels(p, k, globalY, x)
    {
      ok := FilterNextPixel(comm, k, input, output, globalY, x, base + x * BYTES_PER_PIXEL, p, before);
      if !ok {
        return;
      }
    }
    ok := true;
  }

  /** The bytes of the first pixels of a row of the convolution. */
  ghost function ConvPixels(p: Picture, k: Kernel, y: nat, x: nat): (b: seq<Byte>)
    ensures |b| == 3 * x
  {
    if x == 0 then [] else ConvPixels(p, k, y, x - 1) + Bytes(ConvAt(p, k, y, x - 1))
  }

  lemma {:induction false} ConvPixelsArePacked(p: Picture, k: Kernel, y: nat, x: nat)
    requires y < p.height && x <= p.width
    ensures ConvPixels(p, k, y, x) == Packed(RowOf(Conv(p, k), y)[..x])
  {
    if x > 0 {
      ConvPixelsArePacked(p, k, y, x - 1);
      var row := RowOf(Conv(p, k), y);
      assert Conv(p, k).Has(y, x - 1) && row[x - 1] == ConvAt(p, k, y, x - 1);
      PackedPrefix(row, x);
    }
  }

  lemma PackedPrefix(row: seq<Pixel>, x: nat)
    requires 0 < x <= |row|
    ensures Packed(row[..x]) == Packed(row[..x - 1]) + Bytes(row[x - 1])
  {
    assert row[..x][..x - 1] == row[..x - 1];
  }

  /** The bytes of the first rows of the convolution from a row on. */
  ghost function ConvRows(p: Picture, k: Kernel, start: nat, rows: nat): seq<Byte>
  {
    if rows == 0 then [] else ConvRows(p, k, start, rows - 1) + ConvPixels(p, k, start + rows - 1, p.width)
  }

  /** The rows of a picture are those whose bytes the ranks compute. */
  ghost predicate RowsMatch(p: Picture, k: Kernel, q: Picture, stride: nat) {
    stride <= 3 * q.width
    && forall y: nat :: y < q.height ==> ConvPixels(p, k, y, p.width) == Packed(RowOf(q, y))[..stride]
  }

  lemma ConvRowsMatch(p: Picture, k: Kernel, q: Picture)
    requires q == Conv(p, k)
    ensures RowsMatch(p, k, q, 3 * q.width)
  {
    forall y: nat | y < q.height
      ensures ConvPixels(p, k, y, p.width) == Packed(RowOf(q, y))[..3 * q.width]
    {
      ConvPixelsArePacked(p, k, y, p.width);
      var row := RowOf(q, y);
      assert row[..q.width] == row && Packed(row)[..3 * q.width] == Packed(row);
    }
  }

  lemma {:induction false} ConvRowsAreSlab(p: Picture, k: Kernel, q: Picture, stride: nat, start: nat, rows: nat)
    requires RowsMatch(p, k, q, stride) && start + rows <= q.height
    ensures ConvRows(p, k, start, rows) == Slab(q, stride, start, rows)
  {
    if rows > 0 {
      ConvRowsAreSlab(p, k, q, stride, start, rows - 1);
    }
  }

  lemma RowFits(y: nat, rows: nat, stride: nat)
    requires y < rows
    ensures y * stride + stride == (y + 1) * stride <= rows * stride
  {
    FactorOrder(stride, y + 1, rows);
    Distribute(stride, y, 1);
  }

  /** How far the row loop has come: the bytes before `base` are those of the first rows. */
  ghost predicate Progress(comm: CommData, k: Kernel, input: seq<Byte>, output: array<Byte>, p: Picture, y: nat, base: nat)
    reads comm, output
  {
    && base <= output.Length
    && (0 < y ==> base - comm.rowStride + 3 * comm.width <= output.Length)
    && (Supplied(comm, k, input, p) ==>
          comm.myStart + y <= p.height && output[..base] == ConvRows(p, k, comm.myStart, y))
  }

  /** One row, whose bytes extend those of the rows before it. */
  method FilterNextRow(comm: CommData, k: Kernel, input: seq<Byte>, output: array<Byte>, y: nat, base: nat, ghost p: Picture) returns (ok: bool)
    requires 0 < comm.width && 0 < comm.height && y < comm.myRows
    requires base + comm.rowStride <= output.Length && Progress(comm, k, input, output, p, y, base)
    modifies output
    ensures ok ==> Progress(comm, k, input, output, p, y + 1, base + comm.rowStride)
    ensures Supplied(comm, k, input, p) ==> ok
  {
    ghost var before := output[..base];
    ok := FilterRow(comm, k, input, output, comm.myStart + y, base, p);
    if Supplied(comm, k, input, p) {
      assert comm.rowStride == 3 * comm.width;
      assert output[..base + comm.rowStride] == before + ConvPixels(p, k, comm.myStart + y, p.width);
    }
  }

  lemma AllRowsDone(comm: CommData, k: Kernel, input: seq<Byte>, output: array<Byte>, p: Picture, base: nat)
    requires base == comm.myRows * comm.rowStride == output.Length && Progress(comm, k, input, output, p, comm.myRows, base)
    ensures 0 < comm.myRows ==> 3 * comm.width <= comm.rowStride
    ensures Supplied(comm, k, input, p) ==> output[..] == Slab(Conv(p, k), 3 * p.width, comm.myStart, comm.myRows)
  {
    assert output[..output.Length] == output[..];
    if Supplied(comm, k, input, p) {
      ConvRowsMatch(p, k, Conv(p, k));
      ConvRowsAreSlab(p, k, Conv(p, k), 3 * p.width, comm.myStart, comm.myRows);
    }
  }

  /** `mpi_apply_filter`: the rank's rows of the convolution, if it was given what it needs. */
  method FilterLocal(comm: CommData, k: Kernel, input: seq<Byte>, output: array<Byte>, ghost p: Picture) returns (ok: bool)
    requires 0 < comm.width && 0 < comm.height
    requires output.Length == comm.myRows * comm.rowStride
    modifies output
    ensures ok && 0 < comm.myRows ==> 3 * comm.width <= comm.rowStride
    ensures Supplied(comm, k, input, p) ==> ok && output[..] == Slab(Conv(p, k), 3 * p.width, comm.myStart, comm.myRows)
  {
    var base: nat := 0;
    for y := 0 to comm.myRows
      invariant base == y * comm.rowStride && Progress(comm, k, input, output, p, y, base)
    {
      RowFits(y, comm.myRows, comm.rowStride);
      ok := FilterNextRow(comm, k, input, output, y, base, p);
      if !ok {
        return;
      }
      base := base + comm.rowStride;
    }
    AllRowsDone(comm, k, input, output, p, base);
    ok := true;
  }

  /** A rank that received the rows the geometry gives it is supplied. */
  lemma RankIsSupplied(comm: CommData, k: Kernel, input: seq<Byte>, p: Picture, size: nat, rank: nat)
    requires rank < size && comm.DescribesRank(size, rank)
    requires comm.width == p.width && comm.height == p.height && comm.rowStride == 3 * p.width && comm.haloSize == k.Padding()
    requires ReceiveStart(p.height, comm.haloSize, size, rank) + ReceiveRows(p.height, comm.haloSize, size, rank) <= p.height
    requires input == Slab(p, 3 * p.width, ReceiveStart(p.height, comm.haloSize, size, rank), ReceiveRows(p.height, comm.haloSize, size, rank))
    ensures Supplied(comm, k, input, p)
  {
    IntervalInside(p.height, size, rank);
    forall y: nat, d: int | comm.myStart <= y < comm.myStart + comm.myRows && -(comm.haloSize as int) <= d <= comm.haloSize
      ensures RowReceived(comm, y, d)
    {
      HaloSuffices(p.height, comm.haloSize, size, rank, y, d);
    }
  }
}
