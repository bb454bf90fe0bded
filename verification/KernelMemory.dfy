/** The heap on top of the frame allocator: it grows by runs of free frames, seen
    through the direct map, so never by memory it has already. */
module KernelMemory {
  import opened Bytes
  import opened HeapList
  import opened Heap
  import opened HeapSearch
  import opened KernelHeap
  import Pmm

  /** Frame `f` as the kernel sees it, for a direct map of the pool at `origin`. */
  function Frame(origin: nat, f: nat): Block { Block(origin + f * PAGE_SIZE, PAGE_SIZE) }

  /** No byte of the heap lies in a free frame. */
  ghost predicate Clear(frames: set<nat>, origin: nat, free: seq<Block>, live: seq<Live>) {
    forall f, a: nat | f in frames && Frame(origin, f).Has(a) :: !Held(free, live, a)
  }

  /** Some run of `count` frames is free. */
  ghost predicate Run(frames: set<nat>, count: nat) { exists i: nat :: Pmm.RunOf(frames, i, count) }

  class FramedHeap {
    const pmm: Pmm.FrameAllocator
    const heap: KernelAllocator
    /** Where the direct map of physical memory begins. */
    const offset: nat

    /** Where it shows the frames of the pool. */
    function Origin(): nat { offset + pmm.base }

    ghost predicate Mapped() {
      && 0 < Origin() && Origin() % PAGE_SIZE == 0
      && Origin() + pmm.totalFrames * PAGE_SIZE <= MAX_ADDR
    }

    ghost predicate Valid()
      reads this, pmm, pmm.bitmap, heap
    {
      pmm.Valid() && heap.Valid() && Mapped() && Clear(pmm.Free(), Origin(), heap.free, heap.live)
    }

    /** The bootstrap heap lies in the kernel's image, outside the pool. */
    constructor (pmm: Pmm.FrameAllocator, heap: KernelAllocator, offset: nat)
      requires pmm.Valid() && heap.Valid() && 0 < offset + pmm.base && (offset + pmm.base) % PAGE_SIZE == 0
      requires offset + pmm.base + pmm.totalFrames * PAGE_SIZE <= MAX_ADDR
      requires Clear(pmm.Free(), offset + pmm.base, heap.free, heap.live)
      ensures Valid() && this.pmm == pmm && this.heap == heap && this.offset == offset
    {
      this.pmm, this.heap, this.offset := pmm, heap, offset;
    }

    /** A run of free frames joins the heap, or nothing changes. It fails exactly
        when the size overflows or no run is long enough. */
    method Grow(min: nat) returns (ok: bool, ghost b: Block)
      requires Valid()
      modifies pmm`freeFrames, pmm.bitmap, heap
      ensures Valid() && heap.live == old(heap.live)
      ensures ok <==> GrowSize(min).Some? && Run(old(pmm.Free()), GrowSize(min).value / PAGE_SIZE)
      ensures !ok ==> heap.free == old(heap.free) && pmm.Free() == old(pmm.Free())
      ensures ok ==>
        && b.size == GrowSize(min).value && Suppliable(old(heap.free), old(heap.live), b)
        && heap.free == Insert(old(heap.free), b) && heap.totalBytes == old(heap.totalBytes) + b.size
        && pmm.freeFrames == old(pmm.freeFrames) - b.size / PAGE_SIZE
    {
      hide Insert, Held, Pmm.RunOf, Suppliable, Clear, GrowSize, Sorted, Linked, Layout, LiveOk, Sum, LiveSum, Pmm.Span;
      b := Block(0, 0);
      var want := GrowSize(min);
      if want.None? {
        return false, b;
      }
      GrowPages(min);
      var count := want.value / PAGE_SIZE;
      var run := pmm.AllocContiguous(count);
      if run.None? {
        return false, b;
      }
      var virt := Origin() + run.value * PAGE_SIZE;
      b := Block(virt, want.value);
      RunBelow(pmm, old(pmm.bitmap[..]), run.value, count);
      RunSuppliable(old(pmm.Free()), Origin(), heap, run.value, count);
      ok := heap.Grow(min, Some(virt));
      RunTaken(old(pmm.Free()), Origin(), old(heap.free), heap.free, heap.live, run.value, count);
    }

    /** Allocation with one retry after growing. If the first search is not
        misled, it fails only if no block fits and no run of frames is long
        enough: after a successful growth the search is right and finds room. */
    method Alloc(size: nat, align: nat) returns (user: nat)
      requires Valid() && Request(size, align)
      modifies pmm`freeFrames, pmm.bitmap, heap
      ensures align > 0
      ensures var want := GrowSize(SlackFor(size, align));
        !Misled(old(heap.free), size, align) ==>
        && Valid()
        && (user != 0 <==>
              || Room(old(heap.free), size, align)
              || (want.Some? && Run(old(pmm.Free()), want.value / PAGE_SIZE)))
        && (Room(old(heap.free), size, align) ==> pmm.Free() == old(pmm.Free()))
        && (user == 0 ==> heap.live == old(heap.live) && heap.free == old(heap.free))
        && (user != 0 ==>
              && user % Max(align, WORD) == 0 && |heap.live| == |old(heap.live)| + 1
              && heap.live[..|old(heap.live)|] == old(heap.live)
              && heap.live[|old(heap.live)|].user == user && heap.live[|old(heap.live)|].payload == Max(size, 1))
      ensures Misled(old(heap.free), size, align) ==>
        && !Room(old(heap.free), size, align)
        && exists b :: b in old(heap.free) && FalseFit(b, size, align) && Spoiled(heap.mem, b, align, user)
    {
      hide Held, FalseFit, Misled, Room, PowerOfTwo, Spoiled, Insert, Run, Suppliable;
      var misled;
      user, misled := heap.AllocFromFreeList(size, align);
      if user == 0 && !misled {
        ghost var bs := heap.free;
        var grown, b := Grow(SlackFor(size, align));
        if grown {
          GrownRoom(bs, heap.live, heap.free, size, align, b);
          user, misled := heap.AllocFromFreeList(size, align);
        }
      }
    }

    /** Release keeps the heap's bytes, so no frame is involved. */
    method Dealloc(user: nat, ghost k: nat)
      requires Valid() && k < |heap.live| && heap.live[k].user == user
      modifies heap
      ensures Valid() && heap.live == old(heap.live)[..k] + old(heap.live)[k + 1..]
      ensures heap.free == Insert(old(heap.free), old(heap.live)[k].block)
    {
      hide Held, Insert;
      heap.Dealloc(user, k);
    }

    /** A frame taken for another purpose. */
    method TakeFrame() returns (frame: Option<nat>)
      requires Valid()
      modifies pmm`freeFrames, pmm.bitmap
      ensures Valid()
      ensures frame.None? <==> old(pmm.Free()) == {}
      ensures frame.Some? ==> frame.value in old(pmm.Free()) && pmm.Free() == old(pmm.Free()) - {frame.value}
    {
      hide Held;
      frame := pmm.AllocFrame();
    }

    /** A frame that is not the heap's comes back. */
    method GiveFrame(f: nat)
      requires Valid() && f < pmm.totalFrames
      requires forall a: nat | Frame(Origin(), f).Has(a) :: !Held(heap.free, heap.live, a)
      modifies pmm`freeFrames, pmm.bitmap
      ensures Valid() && pmm.Free() == old(pmm.Free()) + {f}
    {
      hide Held;
      assert (pmm.base + f * PAGE_SIZE - pmm.base) / PAGE_SIZE == f;
      pmm.FreeFrame(pmm.base + f * PAGE_SIZE);
    }
  }

  lemma GrowPages(min: nat)
    requires GrowSize(min).Some?
    ensures GrowSize(min).value == GrowSize(min).value / PAGE_SIZE * PAGE_SIZE && GrowSize(min).value / PAGE_SIZE > 0
  {
    AlignUpIs(Max(min, GROW_CHUNK), PAGE_SIZE);
  }

  /** A run of free frames is inside the pool. */
  lemma RunBelow(pmm: Pmm.FrameAllocator, bits: seq<u8>, run: nat, count: nat)
    requires count > 0 && Pmm.RunOf(Pmm.FreeIn(bits, pmm.totalFrames), run, count)
    ensures run + count <= pmm.totalFrames
  {
    assert run + count - 1 in Pmm.FreeIn(bits, pmm.totalFrames);
  }

  lemma InRun(origin: nat, run: nat, count: nat, a: nat)
    requires Block(origin + run * PAGE_SIZE, count * PAGE_SIZE).Has(a)
    ensures var f := (a - origin) / PAGE_SIZE; run <= f < run + count && Frame(origin, f).Has(a)
  {
  }

  lemma OutOfRun(origin: nat, run: nat, count: nat, f: nat, a: nat)
    requires Frame(origin, f).Has(a) && !(run <= f < run + count)
    ensures !Block(origin + run * PAGE_SIZE, count * PAGE_SIZE).Has(a)
  {
  }

  /** A run of free frames is memory the heap does not have. */
  lemma RunSuppliable(frames: set<nat>, origin: nat, heap: KernelAllocator, run: nat, count: nat)
    requires heap.Valid() && Clear(frames, origin, heap.free, heap.live) && Pmm.RunOf(frames, run, count) && count > 0
    requires 0 < origin && origin % PAGE_SIZE == 0 && origin + (run + count) * PAGE_SIZE <= MAX_ADDR
    ensures Suppliable(heap.free, heap.live, Block(origin + run * PAGE_SIZE, count * PAGE_SIZE))
  {
    hide Held, Sorted, LiveOk, BlockOk, Layout, Linked, Sum, LiveSum;
    var free, live := heap.free, heap.live;
    var b := Block(origin + run * PAGE_SIZE, count * PAGE_SIZE);
    forall a: nat | b.Has(a)
      ensures !Held(free, live, a)
    {
      InRun(origin, run, count, a);
      var f := (a - origin) / PAGE_SIZE;
      assert f in frames;
    }
    forall i | 0 <= i < |free|
      ensures Apart(free[i], b)
    {
      SortedBlock(free, i);
      FreeHeld(free, live, i);
      ApartByBytes(free[i], b);
    }
    forall j | 0 <= j < |live|
      ensures Apart(b, live[j].block)
    {
      LiveBlock(heap.mem, live[j]);
      LiveHeld(free, live, j);
      ApartByBytes(b, live[j].block);
    }
    PagesOk(b);
  }

  lemma PagesOk(b: Block)
    requires b.start > 0 && b.start % PAGE_SIZE == 0 && b.size > 0 && b.size % PAGE_SIZE == 0
    ensures BlockOk(b)
  {
    WordOfPage(b.start);
    WordOfPage(b.size);
  }

  lemma WordOfPage(x: nat)
    requires x % PAGE_SIZE == 0
    ensures x % WORD == 0
  {
    var q := x / PAGE_SIZE;
    assert x == 8 * (512 * q);
  }

  lemma FreeHeld(free: seq<Block>, live: seq<Live>, i: nat)
    requires i < |free| && BlockOk(free[i])
    ensures free[i].size > 0 && forall a: nat | free[i].Has(a) :: Held(free, live, a)
  {
  }

  lemma LiveHeld(free: seq<Block>, live: seq<Live>, j: nat)
    requires j < |live| && BlockOk(live[j].block)
    ensures live[j].block.size > 0 && forall a: nat | live[j].block.Has(a) :: Held(free, live, a)
  {
  }

  /** Once the run has joined the heap and left the pool, the two are clear again. */
  lemma RunTaken(frames: set<nat>, origin: nat, free: seq<Block>, free': seq<Block>, live: seq<Live>, run: nat,
                 count: nat)
    requires Clear(frames, origin, free, live)
    requires var b := Block(origin + run * PAGE_SIZE, count * PAGE_SIZE);
      forall a: nat :: Held(free', live, a) <==> Held(free, live, a) || b.Has(a)
    ensures Clear(frames - Pmm.Span(run, count), origin, free', live)
  {
    hide Held;
    Pmm.SpanIs(run, count);
    forall f, a: nat | f in frames - Pmm.Span(run, count) && Frame(origin, f).Has(a)
      ensures !Held(free', live, a)
    {
      OutOfRun(origin, run, count, f, a);
    }
  }

  /** The grown heap has room, and with room the search is right. */
  lemma GrownRoom(bs: seq<Block>, live: seq<Live>, free: seq<Block>, size: nat, align: nat, b: Block)
    requires Sorted(bs) && Request(size, align) && Suppliable(bs, live, b)
    requires GrowSize(SlackFor(size, align)) == Some(b.size)
    requires free == Insert(bs, b) && InSpace(free)
    ensures align > 0 && Room(free, size, align) && !Misled(free, size, align)
  {
    hide Sorted, Insert, Misled, Room, PowerOfTwo, BlockOk;
    RoomAfterGrowth(bs, size, align, b);
    RoomIsRight(free, size, align);
  }
}
