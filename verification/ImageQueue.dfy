/**
 * The bounded queue between two stages of the pipeline: a ring buffer with a count limit and a memory
 * limit, and the first-in first-out sequence it stands for.
 */
module ImageQueue {
  import opened Arithmetic
  import opened Options
  import opened BitmapFile

  /** An image with the file it belongs to; the file's index stands for its name in the file list. */
  datatype Entry = Entry(file: nat, image: Bitmap)

  // ---- memory estimates -----------------------------------------------------------------------

  const MEGABYTE := 1024 * 1024
  const RAW_MEM_OVERHEAD := 1
  /** Sizes of `bmp_img` and of a row pointer on a 64-bit platform. */
  const IMAGE_STRUCT_BYTES := 64
  const POINTER_BYTES := 8

  /** `estimate_image_memory`, in megabytes. */
  function EstimateImageMemory(img: Bitmap): (megabytes: nat)
    requires 0 <= img.header.biWidth && 0 <= img.header.biHeight
    ensures 2 <= megabytes
  {
    var bytesPerPixel: nat := if img.header.biBitCount / 8 == 0 then 3 else img.header.biBitCount / 8;
    var area: nat := img.header.biWidth * img.header.biHeight;
    var pixelBytes: nat := area * bytesPerPixel;
    var totalBytes := pixelBytes + IMAGE_STRUCT_BYTES + img.header.biHeight * POINTER_BYTES + RAW_MEM_OVERHEAD;
    (totalBytes + (MEGABYTE - 1)) / MEGABYTE + RAW_MEM_OVERHEAD
  }

  /** Less its fixed overhead, the estimate is the least whole number of megabytes that holds the image. */
  lemma EstimateHoldsImage(img: Bitmap)
    requires 0 <= img.header.biWidth && 0 <= img.header.biHeight
    ensures var depth := if img.header.biBitCount < 8 then 3 else img.header.biBitCount / 8;
            var pixelBytes := depth * (img.header.biWidth * img.header.biHeight);
            var bytes := pixelBytes + 64 + 8 * img.header.biHeight + 1;
            var megabytes := EstimateImageMemory(img) - 1;
            (megabytes - 1) * 1048576 < bytes <= megabytes * 1048576
  {
    Commute(img.header.biWidth * img.header.biHeight, if img.header.biBitCount < 8 then 3 else img.header.biBitCount / 8);
  }

  type Queueable = e: Entry | 0 <= e.image.header.biWidth && 0 <= e.image.header.biHeight
    witness Entry(0, Bitmap(Header(0, 0, 0, 0, 0, 0, 0, 0, 0, 0, 0, 0, 0, 0), []))

  function MemoryOf(e: Queueable): (m: nat)
    ensures 2 <= m
  {
    EstimateImageMemory(e.image)
  }

  function TotalMemory(entries: seq<Queueable>): nat {
    if entries == [] then 0 else MemoryOf(entries[0]) + TotalMemory(entries[1..])
  }

  lemma {:induction false} TotalMemoryAppend(entries: seq<Queueable>, e: Queueable)
    ensures TotalMemory(entries + [e]) == TotalMemory(entries) + MemoryOf(e)
  {
    if entries != [] {
      TotalMemoryAppend(entries[1..], e);
      assert (entries + [e])[1..] == entries[1..] + [e];
    }
  }

  lemma {:induction false} TotalMemoryAtLeast(entries: seq<Queueable>)
    ensures 2 * |entries| <= TotalMemory(entries)
  {
    if entries != [] {
      TotalMemoryAtLeast(entries[1..]);
    }
  }

  // ---- the queue as a sequence ----------------------------------------------------------------

  datatype Limits = Limits(capacity: nat, maxMemory: nat)

  /** The contents, oldest first, with the memory counter the code keeps beside them. */
  datatype Queue = Queue(entries: seq<Queueable>, memory: nat)

  const EmptyQueue := Queue([], 0)

  /** The condition on which a push waits. */
  predicate Blocked(l: Limits, q: Queue, e: Queueable) {
    (q.memory + MemoryOf(e) > l.maxMemory && |q.entries| > 0) || |q.entries| >= l.capacity
  }

  function Pushed(q: Queue, e: Queueable): Queue {
    Queue(q.entries + [e], q.memory + MemoryOf(e))
  }

  /** The counter falls by the estimate, or to zero if it were smaller than that. */
  function Popped(q: Queue): Queue
    requires q.entries != []
  {
    var need := MemoryOf(q.entries[0]);
    Queue(q.entries[1..], if q.memory >= need then q.memory - need else 0)
  }

  /** The termination check, on the 8-bit copy that the code compares. */
  predicate SeesAllWritten(written: nat, fileCount: nat) {
    written % 256 >= fileCount
  }

  datatype PopResult = Ended | MustWait | Taken(entry: Queueable)

  /** What a popper does when it holds the mutex. */
  function PopDecision(q: Queue, written: nat, fileCount: nat, timedOut: bool): PopResult {
    if timedOut && SeesAllWritten(written, fileCount) then Ended
    else if q.entries != [] then Taken(q.entries[0])
    else if SeesAllWritten(written, fileCount) then Ended
    else MustWait
  }

  /** The counter is exact, and both limits are kept up to a single oversized image. */
  predicate WithinLimits(l: Limits, q: Queue) {
    q.memory == TotalMemory(q.entries)
    && |q.entries| <= l.capacity
    && (q.memory <= l.maxMemory || |q.entries| <= 1)
  }

  lemma PushKeepsLimits(l: Limits, q: Queue, e: Queueable)
    requires WithinLimits(l, q) && !Blocked(l, q, e)
    ensures WithinLimits(l, Pushed(q, e))
  {
    TotalMemoryAppend(q.entries, e);
  }

  /** A push waits exactly when storing the image would break a limit. */
  lemma BlockedIff(l: Limits, q: Queue, e: Queueable)
    requires WithinLimits(l, q)
    ensures Blocked(l, q, e) <==> !WithinLimits(l, Pushed(q, e))
  {
    TotalMemoryAppend(q.entries, e);
  }

  /** Popping keeps the counter exact, so it never takes the branch that resets the counter to zero. */
  lemma PopKeepsLimits(l: Limits, q: Queue)
    requires WithinLimits(l, q) && q.entries != []
    ensures WithinLimits(l, Popped(q)) && MemoryOf(q.entries[0]) <= q.memory
  {
  }

  /** The memory limit bounds the number of images too, since none is estimated below two megabytes. */
  lemma MemoryBoundsLength(l: Limits, q: Queue)
    requires WithinLimits(l, q)
    ensures |q.entries| <= 1 || 2 * |q.entries| <= l.maxMemory
  {
    TotalMemoryAtLeast(q.entries);
  }

  /** An empty queue of positive capacity blocks nobody, however large the image. */
  lemma EmptyBlocksNobody(l: Limits, q: Queue, e: Queueable)
    requires 0 < l.capacity && Blocked(l, q, e)
    ensures q.entries != []
  {
  }

  // ---- first in, first out --------------------------------------------------------------------

  /** What happens to a queue: an image is stored, or the oldest one is taken. */
  datatype Action = Put(entry: Queueable) | Take

  predicate Possible(q: Queue, actions: seq<Action>)
    decreases |actions|
  {
    actions == [] || match actions[0]
                     case Put(e) => Possible(Pushed(q, e), actions[1..])
                     case Take => q.entries != [] && Possible(Popped(q), actions[1..])
  }

  function Performed(q: Queue, actions: seq<Action>): Queue
    requires Possible(q, actions)
    decreases |actions|
  {
    if actions == [] then q
    else match actions[0]
         case Put(e) => Performed(Pushed(q, e), actions[1..])
         case Take => Performed(Popped(q), actions[1..])
  }

  /** The images stored by a sequence of actions, in the order of the actions. */
  function StoredBy(actions: seq<Action>): seq<Queueable> {
    if actions == [] then []
    else (if actions[0].Put? then [actions[0].entry] else []) + StoredBy(actions[1..])
  }

  /** The images it takes, likewise. */
  function TakenBy(q: Queue, actions: seq<Action>): seq<Queueable>
    requires Possible(q, actions)
    decreases |actions|
  {
    if actions == [] then []
    else match actions[0]
         case Put(e) => TakenBy(Pushed(q, e), actions[1..])
         case Take => [q.entries[0]] + TakenBy(Popped(q), actions[1..])
  }

  function TakeCount(actions: seq<Action>): nat {
    if actions == [] then 0 else (if actions[0].Take? then 1 else 0) + TakeCount(actions[1..])
  }

  lemma OneBefore(e: Queueable, a: seq<Queueable>, b: seq<Queueable>, c: seq<Queueable>, d: seq<Queueable>)
    requires a + b == c + d
    ensures [e] + a + b == [e] + c + d
  {
    assert [e] + a + b == [e] + (a + b);
    assert [e] + c + d == [e] + (c + d);
  }

  /** However stores and takes alternate, what was taken and what is left are what was there and was stored, in order. */
  lemma {:induction false} FirstInFirstOut(q: Queue, actions: seq<Action>)
    requires Possible(q, actions)
    ensures TakenBy(q, actions) + Performed(q, actions).entries == q.entries + StoredBy(actions)
    ensures |TakenBy(q, actions)| == TakeCount(actions)
    decreases |actions|
  {
    if actions != [] {
      var rest := actions[1..];
      match actions[0]
      case Put(e) =>
        FirstInFirstOut(Pushed(q, e), rest);
        assert q.entries + ([e] + StoredBy(rest)) == q.entries + [e] + StoredBy(rest);
      case Take =>
        var left := Popped(q);
        FirstInFirstOut(left, rest);
        assert StoredBy(actions) == StoredBy(rest);
        OneBefore(q.entries[0], TakenBy(left, rest), Performed(left, rest).entries, left.entries, StoredBy(rest));
        assert q.entries == [q.entries[0]] + left.entries;
    }
  }

  /** From an empty queue, the n-th image taken is the n-th image stored. */
  lemma NthTakenIsNthStored(actions: seq<Action>, n: nat)
    requires Possible(EmptyQueue, actions) && n < TakeCount(actions)
    ensures n < |TakenBy(EmptyQueue, actions)| && n < |StoredBy(actions)|
    ensures TakenBy(EmptyQueue, actions)[n] == StoredBy(actions)[n]
  {
    FirstInFirstOut(EmptyQueue, actions);
    var taken, left := TakenBy(EmptyQueue, actions), Performed(EmptyQueue, actions).entries;
    assert taken + left == StoredBy(actions);
    assert (taken + left)[n] == taken[n];
  }

  // ---- what a popper decides ------------------------------------------------------------------

  /** A popper ends when the last file is seen to be written and there is no image, or it no longer waits for one. */
  lemma PopDecisionIs(q: Queue, written: nat, fileCount: nat, timedOut: bool)
    requires written <= fileCount <= 255
    ensures PopDecision(q, written, fileCount, timedOut).Ended? <==> written == fileCount && (timedOut || q.entries == [])
    ensures PopDecision(q, written, fileCount, timedOut).MustWait? <==> written < fileCount && q.entries == []
    ensures forall e: Queueable ::
      PopDecision(q, written, fileCount, timedOut) == Taken(e) <==>
        q.entries != [] && e == q.entries[0] && !(timedOut && written == fileCount)
  {
  }

  // ---- the ring buffer ------------------------------------------------------------------------

  datatype PushResult = Skipped | Waits | Stored

  function RingIndex(front: nat, i: nat, capacity: nat): (r: nat)
    requires 0 < capacity
    ensures r < capacity
  {
    (front + i) % capacity
  }

  /** Two distances below the capacity lead to the same slot only if they are equal. */
  lemma RingIndexInjective(front: nat, i: nat, j: nat, capacity: nat)
    requires i < capacity && j < capacity && i != j
    ensures RingIndex(front, i, capacity) != RingIndex(front, j, capacity)
  {
    if i < j {
      SlotsDiffer(front + i, front + j, capacity);
    } else {
      SlotsDiffer(front + j, front + i, capacity);
    }
  }

  lemma SlotsDiffer(a: nat, b: nat, n: nat)
    requires a < b < a + n
    ensures a % n != b % n
  {
    var q, r := a / n, a % n;
    if r + (b - a) < n {
      DivModUnique(b, n, q, r + (b - a));
    } else {
      Distribute(n, q, 1);
      DivModUnique(b, n, q + 1, r + (b - a) - n);
    }
  }

  lemma RingIndexAfter(front: nat, i: nat, capacity: nat)
    requires 0 < capacity
    ensures RingIndex(RingIndex(front, 1, capacity), i, capacity) == RingIndex(front, i + 1, capacity)
  {
    SumModulo(front + 1, i, capacity);
  }

  lemma RingIndexNext(front: nat, i: nat, capacity: nat)
    requires 0 < capacity
    ensures RingIndex(RingIndex(front, i, capacity), 1, capacity) == RingIndex(front, i + 1, capacity)
  {
    SumModulo(front + i, 1, capacity);
  }

  /** Advancing the front shifts every position by one. */
  lemma RingShift(front: nat, size: nat, capacity: nat)
    requires front < capacity && 0 < size
    ensures RingIndex(front, 0, capacity) == front
    ensures forall i: nat :: i < size ==>
      RingIndex(RingIndex(front, 1, capacity), i, capacity) == RingIndex(front, i + 1, capacity)
  {
    DivModUnique(front, capacity, 0, front);
    forall i: nat | i < size
      ensures RingIndex(RingIndex(front, 1, capacity), i, capacity) == RingIndex(front, i + 1, capacity)
    {
      RingIndexAfter(front, i, capacity);
    }
  }

  /** `struct img_queue` without its mutex and condition variables. */
  class RingQueue {
    const images: array<Queueable>
    const maxMemory: nat
    var front: nat
    var rear: nat
    var size: nat
    var currentMemory: nat

    ghost predicate Valid()
      reads this, images
    {
      var capacity := images.Length;
      0 < capacity && front < capacity && size <= capacity && rear == RingIndex(front, size, capacity)
    }

    function Bounds(): Limits {
      Limits(images.Length, maxMemory)
    }

    ghost function Contents(): (s: seq<Queueable>)
      requires Valid()
      reads this, images
      ensures |s| == size
      ensures forall i :: 0 <= i < size ==> s[i] == images[RingIndex(front, i, images.Length)]
    {
      seq(size, i requires 0 <= i < size && Valid() reads this, images => images[RingIndex(front, i, images.Length)])
    }

    /** The queue this ring buffer stands for. */
    ghost function Abstract(): Queue
      requires Valid()
      reads this, images
    {
      Queue(Contents(), currentMemory)
    }

    /** `queue_init`. */
    constructor (capacity: nat, maxMem: nat)
      requires 0 < capacity
      ensures Valid() && fresh(images) && Abstract() == EmptyQueue && Bounds() == Limits(capacity, maxMem)
    {
      front, rear, size := 0, 0, 0;
      currentMemory := 0;
      maxMemory := maxMem;
      images := new Queueable[capacity];
    }

    /**
     * `queue_push` up to the point where it waits or returns: nothing without a name or an image is
     * stored, a push that would break a limit waits and leaves the queue alone, and any other appends.
     */
    method Push(image: Option<Bitmap>, file: Option<nat>) returns (r: PushResult)
      requires Valid()
      requires image.Some? ==> 0 <= image.value.header.biWidth && 0 <= image.value.header.biHeight
      modifies this, images
      ensures Valid()
      ensures r.Skipped? <==> file.None? || image.None?
      ensures r.Skipped? || r.Waits? ==> Abstract() == old(Abstract())
      ensures !r.Skipped? ==>
        && r.Waits? == Blocked(Bounds(), old(Abstract()), Entry(file.value, image.value))
        && (r.Stored? ==> Abstract() == Pushed(old(Abstract()), Entry(file.value, image.value)))
    {
      if file.None? {
        return Skipped;
      }
      if image.None? {
        return Skipped;
      }
      var info: Queueable := Entry(file.value, image.value);
      var imageMemory := EstimateImageMemory(image.value);
      var isMemLimit := currentMemory + imageMemory > maxMemory && size > 0;
      var isArrLimit := size >= images.Length;
      if isMemLimit || isArrLimit {
        return Waits;
      }
      Store(info, imageMemory);
      return Stored;
    }

    /** The end of `queue_push`: the slot behind the last element, wrapping around. */
    method Store(info: Queueable, imageMemory: nat)
      requires Valid() && size < images.Length && imageMemory == MemoryOf(info)
      modifies this, images
      ensures Valid() && Abstract() == Pushed(old(Abstract()), info)
    {
      ghost var before := Contents();
      images[rear] := info;
      forall i: nat | i < size
        ensures images[RingIndex(front, i, images.Length)] == before[i]
      {
        RingIndexInjective(front, i, size, images.Length);
      }
      RingIndexNext(front, size, images.Length);
      rear := (rear + 1) % images.Length;
      size := size + 1;
      currentMemory := currentMemory + imageMemory;
      assert Contents() == before + [info];
    }

    /** `queue_pop` from the moment it holds the mutex, up to the point where it waits or returns. */
    method Pop(fileCount: nat, written: nat, timedOut: bool) returns (r: PopResult)
      requires Valid()
      modifies this
      ensures Valid()
      ensures r == PopDecision(old(Abstract()), written, fileCount, timedOut)
      ensures Abstract() == if r.Taken? then Popped(old(Abstract())) else old(Abstract())
    {
      if timedOut && written % 256 >= fileCount {
        return Ended;
      }
      if size == 0 {
        if written % 256 >= fileCount {
          return Ended;
        }
        return MustWait;
      }
      var info := TakeFront();
      return Taken(info);
    }

    /** The end of `queue_pop`. */
    method TakeFront() returns (info: Queueable)
      requires Valid() && size > 0
      modifies this
      ensures Valid() && info == old(Contents())[0] && Abstract() == Popped(old(Abstract()))
    {
      ghost var before := Contents();
      RingShift(front, size, images.Length);
      info := images[front];
      var imageMemory := EstimateImageMemory(info.image);
      var next := RingIndex(front, 1, images.Length);
      assert forall i: nat :: i < size - 1 ==> images[RingIndex(next, i, images.Length)] == before[i + 1];
      assert rear == RingIndex(next, size - 1, images.Length);
      front := next;
      size := size - 1;
      if currentMemory >= imageMemory {
        currentMemory := currentMemory - imageMemory;
      } else {
        currentMemory := 0;
      }
      assert Contents() == before[1..];
    }
  }
}
