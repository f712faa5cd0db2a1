/** How the MPI engine cuts a picture into row intervals with halos, on every rank and again on the root. */
module MpiGeometry {
  import opened Arithmetic
  import opened Convolution

  const INT_MAX := 0x7FFF_FFFF

  // ---- the distribution -----------------------------------------------------------------------

  /** The first row a rank computes. */
  function StartOf(height: nat, size: nat, rank: nat): nat {
    if size == 0 then 0
    else rank * (height / size) + if rank < height % size then rank else height % size
  }

  /** The number of rows it computes. */
  function RowsOf(height: nat, size: nat, rank: nat): nat {
    if size == 0 then (if rank == 0 then height else 0)
    else height / size + if rank < height % size then 1 else 0
  }

  /** The first row it receives: the halo above its own, cut at the border. */
  function ReceiveStart(height: nat, halo: nat, size: nat, rank: nat): nat {
    var start := StartOf(height, size, rank);
    if start < halo then 0 else start - halo
  }

  function ReceiveEnd(height: nat, halo: nat, size: nat, rank: nat): nat {
    var end := StartOf(height, size, rank) + RowsOf(height, size, rank) + halo;
    if end > height then height else end
  }

  /** The number of rows it receives. */
  function ReceiveRows(height: nat, halo: nat, size: nat, rank: nat): nat {
    if ReceiveStart(height, halo, size, rank) >= ReceiveEnd(height, halo, size, rank) then 0
    else ReceiveEnd(height, halo, size, rank) - ReceiveStart(height, halo, size, rank)
  }

  lemma FirstStart(height: nat, size: nat)
    requires 0 < size
    ensures StartOf(height, size, 0) == 0
  {
  }

  lemma LastStart(height: nat, size: nat)
    requires 0 < size
    ensures StartOf(height, size, size) == height
  {
  }

  /** Row intervals follow each other without a gap. */
  lemma StartsAreConsecutive(height: nat, size: nat, rank: nat)
    requires rank < size
    ensures StartOf(height, size, rank + 1) == StartOf(height, size, rank) + RowsOf(height, size, rank)
  {
    Distribute(height / size, rank, 1);
  }

  lemma {:induction false} StartsGrow(height: nat, size: nat, p: nat, q: nat)
    requires p <= q <= size && 0 < size
    ensures StartOf(height, size, p) <= StartOf(height, size, q)
    decreases q
  {
    if p < q {
      StartsGrow(height, size, p, q - 1);
      StartsAreConsecutive(height, size, q - 1);
    }
  }

  lemma IntervalInside(height: nat, size: nat, rank: nat)
    requires rank < size
    ensures StartOf(height, size, rank) + RowsOf(height, size, rank) <= height
  {
    StartsAreConsecutive(height, size, rank);
    StartsGrow(height, size, rank + 1, size);
    LastStart(height, size);
  }

  /** The rank whose interval holds a row, among the first ranks. */
  lemma {:induction false} OwnerBelow(height: nat, size: nat, y: nat, ranks: nat) returns (r: nat)
    requires 0 < ranks <= size && y < StartOf(height, size, ranks)
    ensures r < ranks && StartOf(height, size, r) <= y < StartOf(height, size, r) + RowsOf(height, size, r)
  {
    StartsAreConsecutive(height, size, ranks - 1);
    if StartOf(height, size, ranks - 1) <= y {
      r := ranks - 1;
    } else {
      FirstStart(height, size);
      r := OwnerBelow(height, size, y, ranks - 1);
    }
  }

  /** Every row belongs to exactly one rank; no rank has more than one row more than another, and the first have the most. */
  lemma BalancedDistribution(height: nat, size: nat, y: nat) returns (r: nat)
    requires 0 < size && y < height
    ensures r < size && StartOf(height, size, r) <= y < StartOf(height, size, r) + RowsOf(height, size, r)
    ensures forall q: nat :: q < size && StartOf(height, size, q) <= y < StartOf(height, size, q) + RowsOf(height, size, q) ==> q == r
    ensures forall p, q :: 0 <= p < size && 0 <= q < size ==> RowsOf(height, size, p) <= RowsOf(height, size, q) + 1
    ensures forall p, q :: 0 <= p <= q < size ==> RowsOf(height, size, q) <= RowsOf(height, size, p)
  {
    LastStart(height, size);
    r := OwnerBelow(height, size, y, size);
    forall q: nat | q < size && StartOf(height, size, q) <= y < StartOf(height, size, q) + RowsOf(height, size, q)
      ensures q == r
    {
      StartsAreConsecutive(height, size, q);
      StartsAreConsecutive(height, size, r);
      if q < r {
        StartsGrow(height, size, q + 1, r);
      }
      if r < q {
        StartsGrow(height, size, r + 1, q);
      }
    }
  }

  // ---- the halo -------------------------------------------------------------------------------

  /**
   * For every row of a rank and every row of the window the clamped input row lies in what the rank
   * receives, also when ranks outnumber rows.
   */
  lemma HaloSuffices(height: nat, halo: nat, size: nat, rank: nat, y: nat, d: int)
    requires 0 < height && rank < size && -(halo as int) <= d <= halo
    requires StartOf(height, size, rank) <= y < StartOf(height, size, rank) + RowsOf(height, size, rank)
    ensures ReceiveStart(height, halo, size, rank) <= Clamp(y + d, height)
          < ReceiveStart(height, halo, size, rank) + ReceiveRows(height, halo, size, rank)
  {
    IntervalInside(height, size, rank);
  }

  /** Nothing else is sent to a rank with rows: each row it receives is one its window reaches. */
  lemma HaloIsNeeded(height: nat, halo: nat, size: nat, rank: nat, row: nat) returns (y: nat, d: int)
    requires rank < size && 0 < RowsOf(height, size, rank)
    requires ReceiveStart(height, halo, size, rank) <= row
           < ReceiveStart(height, halo, size, rank) + ReceiveRows(height, halo, size, rank)
    ensures StartOf(height, size, rank) <= y < StartOf(height, size, rank) + RowsOf(height, size, rank)
    ensures -(halo as int) <= d <= halo && y + d == row
  {
    IntervalInside(height, size, rank);
    var start, rows := StartOf(height, size, rank), RowsOf(height, size, rank);
    y := if row < start then start else if row < start + rows then row else start + rows - 1;
    d := row - y;
  }

  /** A rank without rows still receives the last ones, as many as the halo has. */
  lemma IdleRanksReceive(height: nat, halo: nat, size: nat, rank: nat)
    requires rank < size && RowsOf(height, size, rank) == 0
    ensures StartOf(height, size, rank) == height
    ensures ReceiveRows(height, halo, size, rank) == if halo < height then halo else height
  {
    assert height / size == 0 && height % size == height;
  }

  lemma ReceiveInside(height: nat, halo: nat, size: nat, rank: nat)
    requires rank < size
    ensures ReceiveStart(height, halo, size, rank) + ReceiveRows(height, halo, size, rank) <= height
    ensures ReceiveRows(height, halo, size, rank) <= RowsOf(height, size, rank) + 2 * halo
    ensures RowsOf(height, size, rank) <= ReceiveRows(height, halo, size, rank)
  {
    IntervalInside(height, size, rank);
  }

  // ---- counts and displacements ---------------------------------------------------------------

  /** The root's own formula for the rows it sends to a rank. */
  function RootSendRows(height: nat, halo: nat, size: nat, rank: nat): int {
    var start := StartOf(height, size, rank) - halo;
    var end := StartOf(height, size, rank) + RowsOf(height, size, rank) + halo;
    (if end > height then height else end) - (if start < 0 then 0 else start)
  }

  /** What the root computes for a rank is what the rank computes for itself. */
  lemma RootAgreesWithRank(height: nat, halo: nat, size: nat, rank: nat)
    requires rank < size
    ensures RootSendRows(height, halo, size, rank) == ReceiveRows(height, halo, size, rank)
  {
    IntervalInside(height, size, rank);
  }

  function SendCount(height: nat, halo: nat, size: nat, stride: nat, rank: nat): nat {
    ReceiveRows(height, halo, size, rank) * stride
  }

  /** Where a rank's bytes begin in the packed buffer. */
  function Displacement(height: nat, halo: nat, size: nat, stride: nat, rank: nat): nat {
    if rank == 0 then 0
    else Displacement(height, halo, size, stride, rank - 1) + SendCount(height, halo, size, stride, rank - 1)
  }

  /** The size of the packed buffer. */
  function PackedBytes(height: nat, halo: nat, size: nat, stride: nat): nat {
    Displacement(height, halo, size, stride, size)
  }

  function ReceiveCount(height: nat, size: nat, stride: nat, rank: nat): nat {
    RowsOf(height, size, rank) * stride
  }

  function ReceiveDisplacement(height: nat, size: nat, stride: nat, rank: nat): nat {
    StartOf(height, size, rank) * stride
  }

  /** The gather displacements are the prefix sums of the gather counts. */
  lemma ReceiveDisplacementsAreSums(height: nat, size: nat, stride: nat, rank: nat)
    requires rank < size
    ensures ReceiveDisplacement(height, size, stride, 0) == 0
    ensures ReceiveDisplacement(height, size, stride, rank + 1)
         == ReceiveDisplacement(height, size, stride, rank) + ReceiveCount(height, size, stride, rank)
    ensures ReceiveDisplacement(height, size, stride, size) == stride * height
  {
    StartsAreConsecutive(height, size, rank);
    LastStart(height, size);
    Distribute(stride, StartOf(height, size, rank), RowsOf(height, size, rank));
  }

  lemma {:induction false} DisplacementAtLeast(height: nat, halo: nat, size: nat, stride: nat, rank: nat)
    requires rank <= size && 0 < size
    ensures stride * StartOf(height, size, rank) <= Displacement(height, halo, size, stride, rank)
  {
    if rank == 0 {
      FirstStart(height, size);
    } else {
      DisplacementAtLeast(height, halo, size, stride, rank - 1);
      ReceiveInside(height, halo, size, rank - 1);
      StartsAreConsecutive(height, size, rank - 1);
      FactorOrder(stride, RowsOf(height, size, rank - 1), ReceiveRows(height, halo, size, rank - 1));
      Distribute(stride, StartOf(height, size, rank - 1), RowsOf(height, size, rank - 1));
    }
  }

  lemma {:induction false} DisplacementAtMost(height: nat, halo: nat, size: nat, stride: nat, rank: nat)
    requires rank <= size && 0 < size
    ensures Displacement(height, halo, size, stride, rank) <= stride * (StartOf(height, size, rank) + 2 * halo * rank)
  {
    if rank > 0 {
      DisplacementAtMost(height, halo, size, stride, rank - 1);
      ReceiveInside(height, halo, size, rank - 1);
      StartsAreConsecutive(height, size, rank - 1);
      var rows := RowsOf(height, size, rank - 1);
      var before := StartOf(height, size, rank - 1) + 2 * halo * (rank - 1);
      FactorOrder(stride, ReceiveRows(height, halo, size, rank - 1), rows + 2 * halo);
      Distribute(stride, before, rows + 2 * halo);
      Distribute(2 * halo, rank - 1, 1);
      assert StartOf(height, size, rank) + 2 * halo * rank == before + (rows + 2 * halo);
    }
  }

  /** The packed buffer holds at least the picture, and exceeds it by at most two halos a rank. */
  lemma PackedBytesBounds(height: nat, halo: nat, size: nat, stride: nat)
    requires 0 < size
    ensures stride * height <= PackedBytes(height, halo, size, stride) <= stride * (height + 2 * halo * size)
  {
    DisplacementAtLeast(height, halo, size, stride, size);
    DisplacementAtMost(height, halo, size, stride, size);
    LastStart(height, size);
  }

  lemma {:induction false} DisplacementsGrow(height: nat, halo: nat, size: nat, stride: nat, p: nat, q: nat)
    requires p <= q
    ensures Displacement(height, halo, size, stride, p) <= Displacement(height, halo, size, stride, q)
    decreases q
  {
    if p < q {
      DisplacementsGrow(height, halo, size, stride, p, q - 1);
    }
  }

  lemma DisplacementNext(height: nat, halo: nat, size: nat, stride: nat, i: nat)
    requires i < size
    ensures Displacement(height, halo, size, stride, i) + SendCount(height, halo, size, stride, i)
         == Displacement(height, halo, size, stride, i + 1) <= PackedBytes(height, halo, size, stride)
  {
    DisplacementsGrow(height, halo, size, stride, i + 1, size);
  }

  // ---- the same, as the code computes it ------------------------------------------------------

  /** The geometry part of `struct img_comm_data`. */
  class CommData {
    var haloSize: nat
    var rowStride: nat
    var myStart: nat
    var myRows: nat
    var sendStart: nat
    var sendRows: nat
    const width: nat
    const height: nat

    constructor (w: nat, h: nat, halo: nat, stride: nat)
      ensures width == w && height == h && haloSize == halo && rowStride == stride
    {
      width, height := w, h;
      haloSize, rowStride := halo, stride;
      myStart, myRows, sendStart, sendRows := 0, 0, 0, 0;
    }

    /** The fields describe the share of a rank. */
    predicate DescribesRank(size: nat, rank: nat)
      reads this
    {
      && myStart == StartOf(height, size, rank) && myRows == RowsOf(height, size, rank)
      && sendStart == ReceiveStart(height, haloSize, size, rank) && sendRows == ReceiveRows(height, haloSize, size, rank)
    }

    /** `mpi_verify_distribution_range`. */
    method VerifyDistributionRange()
      modifies this`sendStart, this`sendRows
      ensures sendStart == if myStart < haloSize then 0 else myStart - haloSize
      ensures var end := if myStart + myRows + haloSize > height then height else myStart + myRows + haloSize;
              sendRows == if sendStart >= end then 0 else end - sendStart
    {
      var startWithHalo := myStart - haloSize;
      var endWithHalo := myStart + myRows + haloSize;
      if startWithHalo < 0 {
        sendStart := 0;
      } else {
        sendStart := startWithHalo;
      }
      if endWithHalo > height {
        endWithHalo := height;
      }
      if sendStart >= endWithHalo {
        sendRows := 0;
      } else {
        sendRows := endWithHalo - sendStart;
      }
    }

    /** `mpi_calculate_row_distribution`; `mpi_calculate_column_distribution` is the same on transposed dimensions. */
    method CalculateDistribution(size: nat, rank: nat)
      modifies this`myStart, this`myRows, this`sendStart, this`sendRows
      ensures DescribesRank(size, rank)
    {
      if size == 0 {
        myStart := 0;
        myRows := if rank == 0 then height else 0;
        VerifyDistributionRange();
        return;
      }
      var rowsPerRank := height / size;
      var remainder := height % size;
      myStart := rank * rowsPerRank + if rank < remainder then rank else remainder;
      myRows := rowsPerRank + if rank < remainder then 1 else 0;
      VerifyDistributionRange();
    }
  }

  /** `struct mpi_comm_arr`, with the displacements in the original picture. */
  datatype CommArrays = CommArrays(sendCounts: seq<int>, displs: seq<int>, originalDispls: seq<int>, recvCounts: seq<int>, recvDispls: seq<int>)

  /** The arrays hold, for every rank, the counts and displacements of the geometry above. */
  predicate ArraysFor(a: CommArrays, height: nat, halo: nat, size: nat, stride: nat) {
    && |a.sendCounts| == |a.displs| == |a.originalDispls| == |a.recvCounts| == |a.recvDispls| == size
    && forall i :: 0 <= i < size ==>
      && a.sendCounts[i] == SendCount(height, halo, size, stride, i)
      && a.displs[i] == Displacement(height, halo, size, stride, i)
      && a.originalDispls[i] == ReceiveStart(height, halo, size, i) * stride
      && a.recvCounts[i] == ReceiveCount(height, size, stride, i)
      && a.recvDispls[i] == ReceiveDisplacement(height, size, stride, i)
  }

  /** If the packed buffer's size fits an `int`, so does everything else the root stores as one. */
  lemma EverythingFits(height: nat, halo: nat, size: nat, stride: nat, i: nat)
    requires i < size
    ensures SendCount(height, halo, size, stride, i) <= PackedBytes(height, halo, size, stride)
    ensures ReceiveStart(height, halo, size, i) * stride <= PackedBytes(height, halo, size, stride)
    ensures ReceiveCount(height, size, stride, i) <= PackedBytes(height, halo, size, stride)
    ensures ReceiveDisplacement(height, size, stride, i) <= PackedBytes(height, halo, size, stride)
  {
    DisplacementsGrow(height, halo, size, stride, i + 1, size);
    PackedBytesBounds(height, halo, size, stride);
    ReceiveInside(height, halo, size, i);
    IntervalInside(height, size, i);
    FactorOrder(stride, ReceiveStart(height, halo, size, i), height);
    FactorOrder(stride, RowsOf(height, size, i), height);
    FactorOrder(stride, StartOf(height, size, i), height);
  }

  /**
   * `mpi_setup_scatter_gather_row_arrays` on the root. It succeeds exactly when the size of the packed
   * buffer fits a C `int`; otherwise some count or offset has left that range.
   */
  method SetupArrays(comm: CommData, size: nat) returns (fits: bool, arrays: CommArrays)
    requires 0 < size
    ensures fits <==> PackedBytes(comm.height, comm.haloSize, size, comm.rowStride) <= INT_MAX
    ensures fits ==> ArraysFor(arrays, comm.height, comm.haloSize, size, comm.rowStride)
  {
    ghost var h, halo, stride := comm.height, comm.haloSize, comm.rowStride;
    var sendCounts, originalDispls, recvCounts, recvDispls := new int[size], new int[size], new int[size], new int[size];
    for i := 0 to size
      invariant forall j :: 0 <= j < i ==> sendCounts[j] == SendCount(h, halo, size, stride, j)
      invariant forall j :: 0 <= j < i ==> originalDispls[j] == ReceiveStart(h, halo, size, j) * stride
      invariant forall j :: 0 <= j < i ==> recvCounts[j] == ReceiveCount(h, size, stride, j)
      invariant forall j :: 0 <= j < i ==> recvDispls[j] == ReceiveDisplacement(h, size, stride, j)
    {
      EverythingFits(h, halo, size, stride, i);
      RootAgreesWithRank(h, halo, size, i);
      var send, original, count, displ := RootEntry(comm, size, i);
      if send > INT_MAX || original > INT_MAX || count > INT_MAX || displ > INT_MAX {
        return false, CommArrays([], [], [], [], []);
      }
      sendCounts[i], originalDispls[i], recvCounts[i], recvDispls[i] := send, original, count, displ;
    }
    var ok, displs := PrefixSums(sendCounts, h, halo, size, stride);
    fits := ok;
    arrays := CommArrays(sendCounts[..], displs, originalDispls[..], recvCounts[..], recvDispls[..]);
  }

  /** One iteration of the root's loop, before the conversion to `int`. */
  method RootEntry(comm: CommData, size: nat, i: nat) returns (send: int, original: int, count: int, displ: int)
    requires i < size
    ensures send == RootSendRows(comm.height, comm.haloSize, size, i) * comm.rowStride
    ensures original == ReceiveStart(comm.height, comm.haloSize, size, i) * comm.rowStride
    ensures count == ReceiveCount(comm.height, size, comm.rowStride, i)
    ensures displ == ReceiveDisplacement(comm.height, size, comm.rowStride, i)
  {
    var temp := new CommData(comm.width, comm.height, comm.haloSize, 0);
    temp.CalculateDistribution(size, i);
    var procSendStart := temp.myStart - comm.haloSize;
    var procSendEnd := temp.myStart + temp.myRows + comm.haloSize;
    if procSendStart < 0 {
      procSendStart := 0;
    }
    if procSendEnd > comm.height {
      procSendEnd := comm.height;
    }
    var procSendRows := procSendEnd - procSendStart;
    send := procSendRows * comm.rowStride;
    original := procSendStart * comm.rowStride;
    count := temp.myRows * comm.rowStride;
    displ := temp.myStart * comm.rowStride;
  }

  /** The second loop: displacements in the packed buffer, as running sums in an `int`. */
  method PrefixSums(sendCounts: array<int>, ghost height: nat, ghost halo: nat, size: nat, ghost stride: nat) returns (ok: bool, displs: seq<int>)
    requires sendCounts.Length == size
    requires forall i :: 0 <= i < size ==> sendCounts[i] == SendCount(height, halo, size, stride, i)
    ensures ok <==> PackedBytes(height, halo, size, stride) <= INT_MAX
    ensures ok ==> |displs| == size && forall i :: 0 <= i < size ==> displs[i] == Displacement(height, halo, size, stride, i)
  {
    var offset := 0;
    var sums := new int[size];
    for i := 0 to size
      invariant offset == Displacement(height, halo, size, stride, i) && offset <= INT_MAX
      invariant forall j :: 0 <= j < i ==> sums[j] == Displacement(height, halo, size, stride, j)
    {
      DisplacementNext(height, halo, size, stride, i);
      sums[i] := offset;
      offset := offset + sendCounts[i];
      if offset > INT_MAX {
        return false, [];
      }
    }
    return true, sums[..];
  }
}
