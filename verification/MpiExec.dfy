/**
 * The MPI engine from end to end. The ranks run the same phases on their own data; what one computes
 * between two collectives depends only on what the collectives gave it, so running their phases one
 * rank after the other gives the result of every order.
 */
module MpiExec {
  import opened Arithmetic
  import opened Pixels
  import opened Kernels
  import opened Convolution
  import opened Filtering
  import opened RowBytes
  import opened MpiGeometry
  import opened MpiTransfer
  import opened MpiFilter
  import opened BlockClaims

  datatype Failure = CountsOverflow | PackingError | SizesDiffer | OutOfBounds | UnpackingError | FreesBeyondBuffer | NotImplemented | UnknownFilter

  datatype Outcome = Done(picture: Picture) | Aborted(failure: Failure)

  /** The halo size is kept in 8 bits. */
  const UINT8_MAX := 0xFF

  /** `mpi_broadcast_metadata` sends the row stride through a 16-bit variable. */
  function BroadcastStride(stride: nat): (r: nat)
    ensures r < 0x1_0000 && (r == stride <==> stride <= UINT16_MAX)
    ensures exists q: nat :: stride == 0x1_0000 * q + r
  {
    assert stride == 0x1_0000 * (stride / UINT16_SPAN) + stride % UINT16_SPAN;
    stride % UINT16_SPAN
  }

  /** No row of a picture loses all of its bytes that way, since 3 does not divide the 16-bit range. */
  lemma StrideKeepsBytes(width: nat)
    requires 0 < width <= UINT16_MAX
    ensures 0 < BroadcastStride(3 * width) <= 3 * width
    ensures BroadcastStride(BroadcastStride(3 * width)) == BroadcastStride(3 * width)
  {
  }

  /** The conversion of a byte count to C's `int`. */
  function AsInt(v: nat): (r: int)
    ensures r <= v && (r == v <==> v <= INT_MAX)
    ensures -0x8000_0000 <= r < 0x8000_0000 && (v - r) % 0x1_0000_0000 == 0
  {
    if v % UINT32_SPAN <= INT_MAX then v % UINT32_SPAN else v % UINT32_SPAN - UINT32_SPAN
  }

  /** The size a rank announces to a collective: its byte count as an `int`, or 1 if that is not positive. */
  method AnnouncedSize(rows: nat, stride: nat) returns (size: nat)
    requires 0 < stride
    ensures size <= rows * stride
    ensures rows * stride <= INT_MAX ==> size == rows * stride
  {
    var bytes := AsInt(rows * stride);
    RowsFromBytes(rows, stride);
    if bytes <= 0 {
      size := if rows == 0 then 0 else 1;
    } else {
      size := bytes;
    }
  }

  /** The buffer a rank receives into: what arrives overwrites the start of it. */
  method ReceivePart(part: seq<Byte>, length: nat) returns (input: seq<Byte>)
    requires |part| <= length
    ensures |input| == length && input[..|part|] == part
  {
    var buffer := new Byte[length];
    CopyBytes(part, buffer, 0);
    input := buffer[..];
  }

  /** The stride and the kernel fit: every count is exact and every rank's picture rows are whole. */
  ghost predicate Sound(p: Picture, k: Kernel, size: nat, stride: nat) {
    stride == 3 * p.width && PackedBytes(p.height, k.Padding(), size, stride) <= INT_MAX
  }

  /** The bytes of a rank's share, received into its local buffer. */
  method ReceiveShare(p: Picture, k: Kernel, size: nat, rank: nat, comm: CommData, ghost rootStride: nat, packed: seq<Byte>, arrays: CommArrays)
    returns (ok: bool, input: seq<Byte>)
    requires rank < size && 0 < comm.rowStride && 0 < rootStride <= 3 * p.width
    requires ArraysFor(arrays, p.height, k.Padding(), size, rootStride)
    requires packed == PackedFor(p, k.Padding(), size, rootStride, size)
    requires comm.width == p.width && comm.height == p.height && comm.haloSize == k.Padding() && comm.DescribesRank(size, rank)
    ensures Sound(p, k, size, rootStride) && comm.rowStride == rootStride ==> ok && Supplied(comm, k, input, p)
  {
    var expected := AnnouncedSize(comm.sendRows, comm.rowStride);
    ok, input := expected == arrays.sendCounts[rank], [];
    if ok {
      PackedSlice(p, k.Padding(), size, rootStride, size, rank);
      var received := Scattered(packed, arrays.sendCounts, arrays.displs, rank);
      input := ReceivePart(received, comm.sendRows * comm.rowStride);
    }
    if Sound(p, k, size, rootStride) && comm.rowStride == rootStride {
      EverythingFits(p.height, k.Padding(), size, rootStride, rank);
      assert ok && |input| == arrays.sendCounts[rank];
      assert input == input[..arrays.sendCounts[rank]];
      RankIsSupplied(comm, k, input, p, size, rank);
    }
  }

  /** The local filter and what the rank offers to the gather. */
  method ComputeShare(p: Picture, k: Kernel, comm: CommData, input: seq<Byte>, recvCount: int) returns (failure: Failure, ok: bool, part: seq<Byte>)
    requires 0 < comm.rowStride && comm.width == p.width && comm.height == p.height
    ensures ok ==> |part| == recvCount
    ensures ok && 0 < comm.myRows ==> 3 * p.width <= comm.rowStride
    ensures Supplied(comm, k, input, p) && recvCount == comm.myRows * comm.rowStride <= INT_MAX
            ==> ok && part == Slab(Conv(p, k), 3 * p.width, comm.myStart, comm.myRows)
  {
    failure, part := OutOfBounds, [];
    var output := new Byte[comm.myRows * comm.rowStride];
    ok := FilterLocal(comm, k, input, output, p);
    if ok {
      var sent := AnnouncedSize(comm.myRows, comm.rowStride);
      failure, ok, part := SizesDiffer, sent == recvCount, output[..sent];
      assert sent == output.Length ==> part == output[..];
    }
  }

  /** From the scatter to the gather, on one rank: receive, filter, and offer the rows computed. */
  method RankPhases(p: Picture, k: Kernel, size: nat, rank: nat, stride: nat, ghost rootStride: nat, packed: seq<Byte>, arrays: CommArrays)
    returns (failure: Failure, ok: bool, part: seq<Byte>)
    requires rank < size && 0 < stride && 0 < rootStride <= 3 * p.width
    requires ArraysFor(arrays, p.height, k.Padding(), size, rootStride)
    requires packed == PackedFor(p, k.Padding(), size, rootStride, size)
    requires rank == 0 ==> stride == rootStride
    ensures ok && rank == 0 ==> 3 * p.width <= rootStride
    ensures Sound(p, k, size, rootStride) && stride == rootStride ==> ok && IsShare(Conv(p, k), size, rank, part)
  {
    failure, part := SizesDiffer, [];
    var comm := new CommData(p.width, p.height, k.size / 2, stride);
    comm.CalculateDistribution(size, rank);
    RootHasRows(p.height, size);
    var input;
    ok, input := ReceiveShare(p, k, size, rank, comm, rootStride, packed, arrays);
    if ok {
      if Sound(p, k, size, rootStride) && stride == rootStride {
        ReceiveCountFits(p, k, size, stride, rank);
      }
      failure, ok, part := ComputeShare(p, k, comm, input, arrays.recvCounts[rank]);
    }
  }

  lemma RootHasRows(height: nat, size: nat)
    requires 0 < height && 0 < size
    ensures 0 < RowsOf(height, size, 0)
  {
  }

  lemma ReceiveCountFits(p: Picture, k: Kernel, size: nat, stride: nat, rank: nat)
    requires rank < size && Sound(p, k, size, stride)
    ensures RowsOf(p.height, size, rank) * stride <= INT_MAX
    ensures StartOf(p.height, size, rank) + RowsOf(p.height, size, rank) <= p.height
  {
    EverythingFits(p.height, k.Padding(), size, stride, rank);
    IntervalInside(p.height, size, rank);
  }

  // ---- all ranks ------------------------------------------------------------------------------

  /**
   * What the MPI engine needs of a picture: three times the working width survives the 16-bit broadcast,
   * and the size of the packed buffer is a C `int`.
   */
  predicate Transferable(width: nat, height: nat, halo: nat, size: nat) {
    3 * width <= UINT16_MAX && PackedBytes(height, halo, size, 3 * width) <= INT_MAX
  }

  /** A sufficient condition in terms of the sizes alone. */
  lemma TransferableIfSmall(width: nat, height: nat, halo: nat, size: nat)
    requires 0 < size && 3 * width <= UINT16_MAX && 3 * width * (height + 2 * halo * size) <= INT_MAX
    ensures Transferable(width, height, halo, size)
  {
    PackedBytesBounds(height, halo, size, 3 * width);
  }

  method SumReceiveCounts(size: nat, arrays: CommArrays, ghost height: nat, ghost halo: nat, ghost stride: nat) returns (total: nat)
    requires 0 < size && ArraysFor(arrays, height, halo, size, stride)
    ensures total == stride * height
  {
    total := 0;
    FirstStart(height, size);
    for i := 0 to size
      invariant total == StartOf(height, size, i) * stride
    {
      ReceiveCountAdds(size, arrays, height, halo, stride, i);
      total := total + arrays.recvCounts[i];
    }
    LastStart(height, size);
    Commute(height, stride);
  }

  lemma ReceiveCountAdds(size: nat, arrays: CommArrays, height: nat, halo: nat, stride: nat, i: nat)
    requires i < size && ArraysFor(arrays, height, halo, size, stride)
    ensures StartOf(height, size, i) * stride + arrays.recvCounts[i] == StartOf(height, size, i + 1) * stride
  {
    ReceiveDisplacementsAreSums(height, size, stride, i);
  }

  /** The parts of the first ranks, if everything is sound, are their shares of the result. */
  ghost predicate AllShares(q: Picture, size: nat, parts: seq<seq<Byte>>) {
    forall i :: 0 <= i < |parts| ==> IsShare(q, size, i, parts[i])
  }

  lemma MoreShares(q: Picture, size: nat, parts: seq<seq<Byte>>, part: seq<Byte>)
    requires AllShares(q, size, parts) && IsShare(q, size, |parts|, part)
    ensures AllShares(q, size, parts + [part])
  {
  }

  /** Every rank between the collectives. */
  method RunRanks(p: Picture, k: Kernel, size: nat, rootStride: nat, otherStride: nat, packed: seq<Byte>, arrays: CommArrays)
    returns (failure: Failure, ok: bool, parts: seq<seq<Byte>>)
    requires 0 < size && 0 < otherStride && 0 < rootStride <= 3 * p.width
    requires ArraysFor(arrays, p.height, k.Padding(), size, rootStride)
    requires packed == PackedFor(p, k.Padding(), size, rootStride, size)
    ensures ok ==> 3 * p.width <= rootStride && |parts| == size
    ensures Sound(p, k, size, rootStride) && otherStride == rootStride ==> ok && AllShares(Conv(p, k), size, parts)
  {
    ghost var sound := Sound(p, k, size, rootStride) && otherStride == rootStride;
    ghost var q := Conv(p, k);
    failure, parts := SizesDiffer, [];
    for rank := 0 to size
      invariant |parts| == rank && (0 < rank ==> 3 * p.width <= rootStride)
      invariant sound ==> AllShares(q, size, parts)
    {
      var part;
      failure, ok, part := RankPhases(p, k, size, rank, if rank == 0 then rootStride else otherStride, rootStride, packed, arrays);
      if !ok {
        return;
      }
      if sound {
        MoreShares(q, size, parts, part);
      }
      parts := parts + [part];
    }
    ok := true;
  }

  /** The gathered bytes, when all parts are shares of one picture. */
  lemma GatheredPicture(q: Picture, size: nat, halo: nat, buffer: seq<Byte>, parts: seq<seq<Byte>>, arrays: CommArrays)
    requires 0 < size == |parts| && AllShares(q, size, parts) && |buffer| == 3 * q.width * q.height
    requires ArraysFor(arrays, q.height, halo, size, 3 * q.width)
    ensures PartsFit(parts, arrays.recvDispls, |buffer|)
    ensures Gathered(buffer, parts, arrays.recvDispls) == Slab(q, 3 * q.width, 0, q.height)
  {
    SharesFit(q, size, halo, |buffer|, parts, arrays);
    GatheredRows(q, size, buffer, parts, arrays.recvDispls);
    var gathered, stride := Gathered(buffer, parts, arrays.recvDispls), 3 * q.width;
    assert gathered[..q.height * stride] == Slab(q, stride, 0, q.height) by {
      LastStart(q.height, size);
    }
    Commute(q.height, stride);
    assert gathered[..|buffer|] == gathered;
  }

  lemma SharesFit(q: Picture, size: nat, halo: nat, length: nat, parts: seq<seq<Byte>>, arrays: CommArrays)
    requires 0 < size == |parts| && AllShares(q, size, parts) && length == 3 * q.width * q.height
    requires ArraysFor(arrays, q.height, halo, size, 3 * q.width)
    ensures PartsFit(parts, arrays.recvDispls, length)
  {
    forall i | 0 <= i < |parts|
      ensures 0 <= arrays.recvDispls[i] && arrays.recvDispls[i] + |parts[i]| <= length
    {
      ShareFits(q, size, i, parts[i]);
    }
  }

  lemma ShareFits(q: Picture, size: nat, rank: nat, part: seq<Byte>)
    requires rank < size && IsShare(q, size, rank, part)
    ensures 0 <= ReceiveDisplacement(q.height, size, 3 * q.width, rank)
    ensures ReceiveDisplacement(q.height, size, 3 * q.width, rank) + |part| <= 3 * q.width * q.height
  {
    Distribute(3 * q.width, StartOf(q.height, size, rank), RowsOf(q.height, size, rank));
    FactorOrder(3 * q.width, StartOf(q.height, size, rank) + RowsOf(q.height, size, rank), q.height);
  }

  /** `mpi_phase_gather_data` on the root, up to the output picture. */
  method GatherAndUnpack(width: nat, height: nat, ghost q: Picture, size: nat, ghost halo: nat, parts: seq<seq<Byte>>, arrays: CommArrays)
    returns (outcome: Outcome)
    requires width == q.width && height == q.height && 0 < size == |parts| && AllShares(q, size, parts)
    requires ArraysFor(arrays, q.height, halo, size, 3 * q.width)
    ensures outcome == Done(q)
  {
    var total := SumReceiveCounts(size, arrays, height, halo, 3 * width);
    var buffer := new Byte[total];
    GatheredPicture(q, size, halo, buffer[..], parts, arrays);
    var gathered := Gathered(buffer[..], parts, arrays.recvDispls);
    var output := new Pixel[height, width];
    var ok := UnpackGathered(gathered, q, output, size, halo, arrays);
    if !ok {
      return Aborted(UnpackingError);
    }
    HeldPicture(output, q);
    outcome := Done(Contents(output));
  }

  /** `bmp_img_pixel_free` on an array of row pointers: it must not go through more of them than there are. */
  method ReleaseRows(freed: nat, held: nat) returns (ok: bool)
    ensures ok <==> freed <= held
  {
    for i := 0 to freed
      invariant i <= held
    {
      if i >= held {
        return false;
      }
    }
    return true;
  }

  /**
   * Distribution, scatter, local filters, gather and unpacking, with the strides the ranks hold. Before
   * the gather the root gives up an output buffer: `freed` of its `held` row pointers, if any.
   */
  method ScatterFilterGather(p: Picture, k: Kernel, size: nat, rootStride: nat, otherStride: nat, freed: nat, held: nat)
    returns (outcome: Outcome)
    requires 0 < size && k.Padding() <= UINT8_MAX
    requires rootStride == BroadcastStride(3 * p.width) && (otherStride == 3 * p.width || otherStride == rootStride)
    ensures outcome.Done? <==> Transferable(p.width, p.height, k.Padding(), size) && freed <= held
    ensures outcome.Done? ==> outcome.picture == Conv(p, k)
  {
    StrideKeepsBytes(p.width);
    var comm := new CommData(p.width, p.height, k.size / 2, rootStride);
    var fits, arrays := SetupArrays(comm, size);
    if !fits {
      return Aborted(CountsOverflow);
    }
    var packedOk, packed := PackForScatter(p, k.Padding(), size, rootStride, arrays);
    if !packedOk {
      return Aborted(PackingError);
    }
    var failure, ok, parts := RunRanks(p, k, size, rootStride, otherStride, packed, arrays);
    if !ok {
      return Aborted(failure);
    }
    var released := ReleaseRows(freed, held);
    if !released {
      return Aborted(FreesBeyondBuffer);
    }
    outcome := GatherAndUnpack(p.width, p.height, Conv(p, k), size, k.Padding(), parts, arrays);
  }

  // ---- the two modes --------------------------------------------------------------------------

  /**
   * `mpi_process_by_rows`. The stride is broadcast twice; the root keeps what is left of it, while every
   * other rank computes it again from the width.
   */
  method ProcessByRows(p: Picture, k: Kernel, size: nat) returns (outcome: Outcome)
    requires 0 < size && k.Padding() <= UINT8_MAX
    ensures outcome.Done? <==> Transferable(p.width, p.height, k.Padding(), size)
    ensures outcome.Done? ==> outcome.picture == Conv(p, k)
  {
    StrideKeepsBytes(p.width);
    var rootStride := BroadcastStride(p.width * BYTES_PER_PIXEL);
    rootStride := BroadcastStride(rootStride);
    outcome := ScatterFilterGather(p, k, size, rootStride, p.width * BYTES_PER_PIXEL, 0, 0);
  }

  /**
   * `mpi_process_by_columns`: the same on the transposed picture, transposed back. Here every rank works
   * with the broadcast stride, and the root replaces the output buffer, which has a row pointer for each
   * row of the picture, by freeing one for each column.
   */
  method ProcessByColumns(p: Picture, k: Kernel, size: nat) returns (outcome: Outcome)
    requires 0 < size && k.Padding() <= UINT8_MAX
    ensures outcome.Done? <==> Transferable(p.height, p.width, k.Padding(), size) && p.width <= p.height
    ensures outcome.Done? ==> outcome.picture == Conv(p, Transposed(k))
    ensures outcome.Done? && Mirrored(k.table) ==> outcome.picture == Conv(p, k)
  {
    var transposed := TransposeMatrix(p);
    HeldPicture(transposed, Transpose(p));
    var stride := BroadcastStride(p.height * BYTES_PER_PIXEL);
    outcome := ScatterFilterGather(Contents(transposed), k, size, stride, stride, p.width, p.height);
    if outcome.Done? {
      var back := TransposeMatrix(outcome.picture);
      HeldPicture(back, Transpose(outcome.picture));
      outcome := Done(Contents(back));
    }
    ConvTransposed(p, k);
    TransposedIsSame(k);
  }

  /** The stride a rank of the row mode ends up with. */
  function RankStride(width: nat, rank: nat): nat {
    if rank == 0 then BroadcastStride(3 * width) else 3 * width
  }

  /** What the root sends to a rank is what the rank expects. */
  predicate CountsAgree(width: nat, height: nat, halo: nat, size: nat, rank: nat) {
    SendCount(height, halo, size, RankStride(width, 0), rank) == ReceiveRows(height, halo, size, rank) * RankStride(width, rank)
  }

  /** In the row mode root and ranks agree on all sizes exactly when the stride fits 16 bits. */
  lemma CountsAgreeIff(width: nat, height: nat, halo: nat, size: nat)
    requires 1 < size && 0 < halo && 0 < height && 0 < width <= UINT16_MAX
    ensures (forall rank: nat :: rank < size ==> CountsAgree(width, height, halo, size, rank)) <==> 3 * width <= UINT16_MAX
  {
    if 3 * width > UINT16_MAX {
      StrideKeepsBytes(width);
      SecondRankReceives(height, halo, size);
      FactorGap(ReceiveRows(height, halo, size, 1), BroadcastStride(3 * width), 3 * width);
      assert !CountsAgree(width, height, halo, size, 1);
    }
  }

  lemma SecondRankReceives(height: nat, halo: nat, size: nat)
    requires 1 < size && 0 < halo && 0 < height
    ensures 0 < ReceiveRows(height, halo, size, 1)
  {
    IntervalInside(height, size, 1);
    if height >= size {
      assert height / size >= 1;
    } else {
      assert height / size == 0 && height % size == height;
    }
  }

  /** The width of the picture that is cut into rows in each mode. */
  function WorkingWidth(p: Picture, mode: Mode): nat {
    if mode == ByColumn then p.height else p.width
  }

  function WorkingHeight(p: Picture, mode: Mode): nat {
    if mode == ByColumn then p.width else p.height
  }

  /**
   * `execute_mpi_computation` for the linear filters. It succeeds exactly in the two modes that exist, with
   * a known filter, on transferable pictures, in column mode only if they are not wider than high, and
   * then leaves the root with the serial engine's picture.
   */
  method ExecuteMpi(p: Picture, name: string, mode: Mode, size: nat) returns (outcome: Outcome)
    requires 0 < size && name != "mm"
    ensures outcome.Done? <==>
      && (mode == ByRow || mode == ByColumn) && FilterOf(name).Some?
      && Transferable(WorkingWidth(p, mode), WorkingHeight(p, mode), FilterOf(name).value.kernel.Padding(), size)
      && (mode == ByColumn ==> p.width <= p.height)
    ensures outcome.Done? ==> outcome.picture == FilterOf(name).value.Result(p)
  {
    var filter := FilterOf(name);
    if mode != ByRow && mode != ByColumn {
      return Aborted(NotImplemented);
    }
    if filter.None? {
      return Aborted(UnknownFilter);
    }
    ShippedKernels(name);
    ShippedSymmetric(name);
    LinearResult(p, filter.value.kernel);
    if mode == ByRow {
      outcome := ProcessByRows(p, filter.value.kernel, size);
    } else {
      outcome := ProcessByColumns(p, filter.value.kernel, size);
    }
  }

  lemma {:induction false} EmptyRow(p: Picture, k: Kernel, filterY: nat, n: nat)
    requires filterY < k.size && n <= k.size && forall j :: 0 <= j < k.size ==> k.Weight(filterY, j) == 0
    ensures RowSum(p, k, 0, 0, filterY, n, Blue) == 0
  {
    if n > 0 {
      EmptyRow(p, k, filterY, n - 1);
    }
  }

  /** The kernel that moves a picture one pixel to the left. */
  const SHIFT: Kernel := KernelData(3, 1, 0, [[0, 0, 0], [0, 0, 1], [0, 0, 0]])

  /** Column mode is right because the shipped kernels are symmetric: with this one its bytes would differ. */
  lemma AsymmetryShows(p: Picture)
    requires p == Raster(2, 1, [[Pixel(0, 0, 0), Pixel(9, 9, 9)]])
    ensures Conv(p, Transposed(SHIFT)) != Conv(p, SHIFT)
  {
    assert p.Has(0, 0);
    EmptyRow(p, SHIFT, 0, 3);
    EmptyRow(p, SHIFT, 2, 3);
    assert RowSum(p, SHIFT, 0, 0, 1, 2, Blue) == 0;
    assert RowSum(p, SHIFT, 0, 0, 1, 3, Blue) == 9;
    assert ConvAt(p, SHIFT, 0, 0).blue == 9;
    ShiftTransposed(p);
  }

  lemma ShiftTransposed(p: Picture)
    requires p == Raster(2, 1, [[Pixel(0, 0, 0), Pixel(9, 9, 9)]])
    ensures ConvAt(p, Transposed(SHIFT), 0, 0).blue == 0
  {
    var t := Transposed(SHIFT);
    assert forall i, j :: 0 <= i < 3 && 0 <= j < 3 ==> t.Weight(i, j) == SHIFT.Weight(j, i);
    EmptyRow(p, t, 0, 3);
    EmptyRow(p, t, 1, 3);
    assert RowSum(p, t, 0, 0, 2, 1, Blue) == 0;
    assert Tap(p, t, 0, 0, 2, 1, Blue) == 0;
    assert t.Weight(2, 2) == 0;
    assert RowSum(p, t, 0, 0, 2, 3, Blue) == 0;
    assert WindowSum(p, t, 0, 0, 1, 3, Blue) == 0;
    assert WindowSum(p, t, 0, 0, 2, 3, Blue) == 0;
    assert WindowSum(p, t, 0, 0, 3, 3, Blue) == 0;
    RoundBetween(0, 1, 0, 0);
  }

  /** The same kernel scaled down until rounding hides it. */
  const FAINT_SHIFT: Kernel := KernelData(3, 1000, 0, SHIFT.table)

  lemma FaintIsDark(p: Picture, k: Kernel, y: int, x: int, c: Channel)
    requires k.size == 3 && k.divisor == 1000 && k.bias == 0 && NonNegative(k.table) && WeightSum(k, 3) == 1
    ensures ConvChannel(p, k, y, x, c) == 0
  {
    WindowSumBetween(p, k, y, x, 3, c, 0, 255);
    NearestUnique(WindowSum(p, k, y, x, 3, 3, c), 1000, 0);
  }

  /** Asymmetry alone does not change the bytes: with this kernel both modes write black everywhere. */
  lemma AsymmetryHides(p: Picture)
    ensures !Mirrored(FAINT_SHIFT.table)
    ensures Conv(p, Transposed(FAINT_SHIFT)) == Conv(p, FAINT_SHIFT)
  {
    var k, t := FAINT_SHIFT, Transposed(FAINT_SHIFT);
    assert k.table[1][2] != k.table[2][1];
    FaintWeights();
    forall y, x | p.Has(y, x)
      ensures Conv(p, t).At(y, x) == Conv(p, k).At(y, x)
    {
      forall c: Channel
        ensures ConvChannel(p, k, y, x, c) == ConvChannel(p, t, y, x, c) == 0
      {
        FaintIsDark(p, k, y, x, c);
        FaintIsDark(p, t, y, x, c);
      }
      assert ConvAt(p, k, y, x) == ConvAt(p, t, y, x);
    }
    SamePixels(Conv(p, t), Conv(p, k));
  }

  lemma FaintWeights()
    ensures NonNegative(FAINT_SHIFT.table) && WeightSum(FAINT_SHIFT, 3) == 1
    ensures NonNegative(Transposed(FAINT_SHIFT).table) && WeightSum(Transposed(FAINT_SHIFT), 3) == 1
  {
    var k, t := FAINT_SHIFT, Transposed(FAINT_SHIFT);
    assert forall i, j :: 0 <= i < 3 && 0 <= j < 3 ==> t.table[i][j] == t.Weight(i, j) == k.Weight(j, i) >= 0;
    assert RowWeight(k, 0, 3) == 0 && RowWeight(k, 1, 3) == 1 && RowWeight(k, 2, 3) == 0;
    assert RowWeight(t, 0, 3) == 0 && RowWeight(t, 1, 3) == 0 && RowWeight(t, 2, 3) == 1;
  }
}
