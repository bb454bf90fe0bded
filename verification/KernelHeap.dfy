/** The allocator object: allocation, release, growth and client stores, with the
    free list and the headers kept in the same memory the clients use. */
module KernelHeap {
  import opened Bytes
  import opened HeapList
  import opened Heap
  import opened HeapSearch

  /** An allocation: the address handed out, the block behind it, the bytes asked for. */
  datatype Live = Live(user: nat, block: Block, payload: nat)

  // ---- invariant ----------------------------------------------------------------------------

  ghost predicate LiveOk(mem: Memory, l: Live) {
    && BlockOk(l.block) && l.block.End() <= MAX_ADDR
    && l.block.start + HEADER <= l.user && l.user + l.payload <= l.block.End() && l.user % WORD == 0 && l.payload >= 1
    && Word(mem, l.user - HEADER) == l.block.start && Word(mem, l.user - WORD) == l.block.size
  }

  function LiveSum(ls: seq<Live>): nat { if ls == [] then 0 else LiveSum(ls[..|ls| - 1]) + ls[|ls| - 1].block.size }

  lemma {:induction false} LiveConcat(a: seq<Live>, b: seq<Live>)
    ensures LiveSum(a + b) == LiveSum(a) + LiveSum(b)
  {
    if b == [] {
      assert a + b == a;
    } else {
      LiveConcat(a, b[..|b| - 1]);
      assert (a + b)[..|a + b| - 1] == a + b[..|b| - 1];
    }
  }

  lemma LiveWithout(ls: seq<Live>, k: nat)
    requires k < |ls|
    ensures LiveSum(ls) == LiveSum(ls[..k] + ls[k + 1..]) + ls[k].block.size
  {
    hide LiveSum;
    assert ls == ls[..k] + [ls[k]] + ls[k + 1..];
    LiveConcat(ls[..k] + [ls[k]], ls[k + 1..]);
    LiveConcat(ls[..k], [ls[k]]);
    LiveConcat(ls[..k], ls[k + 1..]);
    OneLive(ls[k]);
  }

  /** Free blocks and live blocks keep clear of each other. */
  ghost predicate Layout(free: seq<Block>, live: seq<Live>) {
    && (forall i, j | 0 <= i < |free| && 0 <= j < |live| :: Apart(free[i], live[j].block))
    && (forall i, j | 0 <= i < j < |live| :: Apart(live[i].block, live[j].block))
  }

  /** Byte `a` belongs to the heap: a free block or a live one has it. */
  ghost predicate Held(free: seq<Block>, live: seq<Live>, a: nat) {
    Covers(free, a) || exists j | 0 <= j < |live| :: live[j].block.Has(a)
  }

  class KernelAllocator {
    var mem: Memory
    var freeList: nat
    var totalBytes: nat
    ghost var free: seq<Block>
    ghost var live: seq<Live>

    /** The list part: sorted, merged, and laid out in memory. */
    ghost predicate ListOk()
      reads this
    {
      Sorted(free) && Linked(mem, freeList, free)
    }

    ghost predicate Valid()
      reads this
    {
      && ListOk() && Layout(free, live)
      && (forall j | 0 <= j < |live| :: LiveOk(mem, live[j]))
      && (forall i | 0 <= i < |free| :: free[i].End() <= MAX_ADDR)
      && totalBytes == Sum(free) + LiveSum(live)
    }

    constructor (start: nat, size: nat)
      requires BlockOk(Block(start, size)) && start + size <= MAX_ADDR
      ensures Valid() && free == [Block(start, size)] && live == [] && totalBytes == size
    {
      mem := map[start := size, start + WORD := 0];
      freeList, totalBytes := start, size;
      free, live := [Block(start, size)], [];
      new;
      assert [Block(start, size)][..0] == [];
    }

    /** Where a region starting at `start` belongs. */
    method FindPlace(start: nat) returns (previous: nat, current: nat)
      requires Linked(mem, freeList, free) && Spaced(free)
      ensures current == At(free, Position(free, start))
      ensures previous == if Position(free, start) == 0 then 0 else free[Position(free, start) - 1].start
    {
      ghost var p := 0;
      previous, current := 0, freeList;
      while current != 0 && current < start
        invariant p <= |free| && current == At(free, p) && previous == (if p == 0 then 0 else free[p - 1].start)
        invariant forall i | 0 <= i < p :: free[i].start < start
        decreases |free| - p
      {
        LinkedAt(mem, freeList, free, p);
        previous, current := current, Word(mem, current + WORD);
        p := p + 1;
      }
      PositionIs(free, start, p);
    }

    /** Absorbs the next node into the one at `addr` if they touch. */
    method AbsorbNext(addr: nat, ghost i: nat)
      requires Linked(mem, freeList, free) && Spaced(free) && i < |free| && free[i].start == addr
      modifies this`mem, this`free
      ensures Linked(mem, freeList, free) && Spaced(free)
      ensures free ==
        if i + 1 < |old(free)| && old(free)[i].End() == old(free)[i + 1].start then Joined(old(free), i) else old(free)
      ensures forall a: nat | a != addr && a != addr + WORD :: Word(mem, a) == Word(old(mem), a)
    {
      hide Spaced, Linked, Joined, Word, At;
      NeighbourWords(mem, freeList, free, i);
      var next := Word(mem, addr + WORD);
      if next != 0 && addr + Word(mem, addr) == next {
        LinkAbsorb(mem, freeList, free, i);
        AbsorbFrame(mem, free, i);
        var size, after := Word(mem, addr) + Word(mem, next), Word(mem, next + WORD);
        mem := mem[addr := size][addr + WORD := after];
        free := Joined(free, i);
      }
    }

    /** Adds a region in address order and merges it with its neighbours; only
        words of free blocks are written. */
    method AddFreeRegion(start: nat, size: nat)
      requires ListOk() && BlockOk(Block(start, size))
      requires forall i | 0 <= i < |free| :: Apart(free[i], Block(start, size))
      modifies this`mem, this`freeList, this`free
      ensures ListOk() && free == Insert(old(free), Block(start, size))
      ensures forall a: nat | !Covers(free, a) :: Word(mem, a) == Word(old(mem), a)
    {
      hide Sorted, Linked, Insert, Splice, Joined, Spaced, Covers, BlockOk, Position, JoinsLeft, JoinsRight;
      ghost var b, bs := Block(start, size), free;
      SortedSpaced(bs);
      var previous, current := FindPlace(start);
      ghost var p := Position(free, start);
      InsertSpaced(bs, b);
      LinkInsert(mem, freeList, bs, p, b);
      InsertByMerging(bs, b);
      mem := mem[start := size][start + WORD := current];
      if previous == 0 {
        freeList := start;
      } else {
        mem := mem[previous + WORD := start];
      }
      free := Splice(bs, p, [b], p);
      PlaceFacts(bs, b);
      AbsorbNext(start, p);
      if previous != 0 {
        AbsorbNext(previous, p - 1);
      }
      InsertSorted(bs, b);
      forall a: nat | !Covers(free, a)
        ensures Word(mem, a) == Word(old(mem), a)
      {
        InsertTouches(bs, b, a);
      }
    }

    /** The search, on 64-bit addresses: takes the block that `Search` names. */
    method FindFit(size: nat, align: nat)
      returns (found: bool, previous: nat, current: nat, user: nat, end: nat, ghost i: nat)
      requires ListOk() && Request(size, align) && InSpace(free)
      ensures Search(free, size, align, 0) == if found then Some(i) else None
      ensures align > 0 && ((found <==> Room(free, size, align)) <==> !Misled(free, size, align))
      ensures found ==>
        && i < |free| && Judge(free[i], size, align) == Take(user, end)
        && current == free[i].start && previous == (if i == 0 then 0 else free[i - 1].start)
        && if Misled(free, size, align) then FalseFit(free[i], size, align) else FirstFit(free, size, align, i)
    {
      hide Linked, Sorted, Fits, FalseFit, FirstFit, Overflows, RoundUp, Misled, Room, PowerOfTwo, Reached;
      SearchRightIff(free, size, align);
      ListHead(mem, freeList, free);
      SortedSpaced(free);
      previous, current, user, end, i := 0, freeList, 0, 0, 0;
      while current != 0
        invariant i <= |free| && current == At(free, i) && previous == (if i == 0 then 0 else free[i - 1].start)
        invariant Search(free, size, align, 0) == Search(free, size, align, i)
        decreases |free| - i
      {
        LinkedAt(mem, freeList, free, i);
        var blockEnd := current + Word(mem, current);
        assert Block(current, Word(mem, current)) == free[i];
        user := RoundUp(current + HEADER, Max(align, WORD));
        if blockEnd > MAX_ADDR || user + Max(size, 1) > MAX_ADDR {
          return false, previous, current, user, end, i;
        }
        end := RoundUp(user + Max(size, 1), WORD);
        if end <= blockEnd {
          return true, previous, current, user, end, i;
        }
        previous, current := current, Word(mem, current + WORD);
        i := i + 1;
      }
      return false, previous, current, user, end, i;
    }

    /** Takes a block off the list, but for a tail from `end` on that can hold a
        list node. */
    method CutBlock(previous: nat, current: nat, end: nat) returns (allocatedEnd: nat)
      requires end <= current + Word(mem, current)
      modifies this`mem, this`freeList
      ensures mem == CutMem(old(mem), previous, current, end)
      ensures freeList == CutHead(old(mem), old(freeList), previous, current, end)
      ensures allocatedEnd == CutEnd(end, current + Word(old(mem), current))
    {
      var blockEnd, next := current + Word(mem, current), Word(mem, current + WORD);
      var replacement := next;
      allocatedEnd := blockEnd;
      if blockEnd - end >= MIN_FREE {
        mem := mem[end := blockEnd - end][end + WORD := next];
        allocatedEnd, replacement := end, end;
      }
      if previous == 0 {
        freeList := replacement;
      } else {
        mem := mem[previous + WORD := replacement];
      }
    }

    /** Cuts an allocation out of the front of the block the search took. A block
        that fits gives a new live allocation; a tail too small for a list node
        stays with it. A false fit leaves a header that no allocation can have,
        or null and a header in the last words of the address space. */
    method Carve(previous: nat, current: nat, user: nat, end: nat, ghost size: nat, ghost align: nat, ghost i: nat)
      requires Valid() && Request(size, align) && i < |free| && Judge(free[i], size, align) == Take(user, end)
      requires current == free[i].start && previous == if i == 0 then 0 else free[i - 1].start
      modifies this
      ensures align > 0 && totalBytes == old(totalBytes)
      ensures Fits(old(free)[i], size, align) <==> user > 0 && end > 0
      ensures Fits(old(free)[i], size, align) ==> Valid() && Served(size, align, user) && SameBytes()
      ensures !Fits(old(free)[i], size, align) ==>
        free == old(free) && live == old(live) && Spoiled(mem, old(free)[i], align, user)
    {
      hide Sorted, Linked, Layout, LiveOk, Sum, LiveSum, UserAddr, RequestedEnd, BlockOk, Covers, Fits, FalseFit,
           CutMem, CutHead, PowerOfTwo, RoundUp, Judge, Splice, Tail, Held;
      ghost var b := free[i];
      SortedBlock(free, i);
      JudgeIs(b, size, align);
      LinkedAt(mem, freeList, free, i);
      assert end <= b.End() <= MAX_ADDR by { JudgeEnd(b, size, align); }
      var allocatedEnd := CutBlock(previous, current, end);
      mem := mem[Wrap(user + SPAN - HEADER) := current];
      mem := mem[Wrap(user + SPAN - WORD) := Wrap(allocatedEnd + SPAN - current)];
      if Fits(b, size, align) {
        CarveKeeps(old(mem), old(freeList), free, live, i, size, align);
        ghost var entry := Live(user, Block(current, allocatedEnd - current), Max(size, 1));
        CarveHeld(free, live, i, end, entry);
        free := Splice(free, i, Tail(end, b.End()), i + 1);
        live := live + [entry];
        LiveConcat(old(live), [entry]);
        OneLive(entry);
      } else {
        SpoiledHeader(mem, b, size, align, user, end);
      }
    }

    /** The heap has the bytes it had. */
    twostate predicate SameBytes()
      reads this
    {
      forall a: nat :: Held(free, live, a) <==> Held(old(free), old(live), a)
    }

    /** One more allocation, of `size` bytes at the aligned address `user`, and no
        other word outside free memory changed. */
    twostate predicate Served(size: nat, align: nat, user: nat)
      requires align > 0
      reads this
    {
      && user % Max(align, WORD) == 0 && |live| == |old(live)| + 1 && live[..|old(live)|] == old(live)
      && live[|old(live)|].user == user && live[|old(live)|].payload == Max(size, 1)
      && forall a: nat | !Covers(old(free), a) :: Word(mem, a) == Word(old(mem), a)
    }

    /** An allocation from the free list, or 0. It keeps the heap and is served
        exactly when a block fits, if and only if the search is not misled. */
    method AllocFromFreeList(size: nat, align: nat) returns (user: nat, misled: bool)
      requires Valid() && Request(size, align)
      modifies this
      ensures align > 0 && totalBytes == old(totalBytes) && misled == Misled(old(free), size, align)
      ensures !misled ==>
        && Valid() && (user != 0 <==> Room(old(free), size, align)) && (user != 0 ==> Served(size, align, user))
        && SameBytes()
        && (user == 0 ==> mem == old(mem) && freeList == old(freeList) && free == old(free) && live == old(live))
      ensures misled ==>
        && !Room(old(free), size, align) && free == old(free) && live == old(live)
        && exists b :: b in old(free) && FalseFit(b, size, align) && Spoiled(mem, b, align, user)
    {
      hide Sorted, Linked, Layout, LiveOk, Sum, LiveSum, Fits, FalseFit, Overflows, Covers, Misled, Room, PowerOfTwo,
           Judge, Search, Spoiled, Held;
      var found, previous, current, at, end, i := FindFit(size, align);
      if !found {
        NotFound(free, size, align);
        return 0, false;
      }
      ghost var b := free[i];
      assert Fits(b, size, align) <==> !Misled(free, size, align) by {
        SortedBlock(free, i);
        JudgeIs(b, size, align);
      }
      misled := at == 0 || end == 0;
      user := at;
      Carve(previous, current, at, end, size, align, i);
    }

    /** Gives an allocation back, found through its header. */
    method Dealloc(user: nat, ghost k: nat)
      requires Valid() && k < |live| && live[k].user == user
      modifies this
      ensures Valid() && totalBytes == old(totalBytes)
      ensures live == old(live)[..k] + old(live)[k + 1..] && free == Insert(old(free), old(live)[k].block)
      ensures SameBytes()
      ensures forall a: nat | !Covers(old(free), a) && !old(live)[k].block.Has(a) :: Word(mem, a) == Word(old(mem), a)
    {
      hide Sorted, Linked, Sum, LiveSum, Insert, Covers;
      ghost var l := live[k];
      assert LiveOk(mem, l);
      var start, size := Word(mem, user - HEADER), Word(mem, user - WORD);
      assert l.block == Block(start, size);
      forall i | 0 <= i < |free|
        ensures Apart(free[i], l.block)
      {
      }
      AddFreeRegion(start, size);
      live := live[..k] + live[k + 1..];
      FreedValid(old(mem), mem, old(free), old(live), k);
      InsertSum(old(free), l.block);
      LiveWithout(old(live), k);
      FreedHeld(old(free), old(live), k);
      forall a: nat | !Covers(old(free), a) && !l.block.Has(a)
        ensures Word(mem, a) == Word(old(mem), a)
      {
        InsertCovers(old(free), l.block, a);
      }
    }

    /** A client store into its own payload. */
    method Store(a: nat, x: nat, ghost k: nat)
      requires Valid() && k < |live| && a % WORD == 0 && live[k].user <= a && a + WORD <= live[k].user + live[k].payload
      modifies this`mem
      ensures Valid() && mem == old(mem)[a := x]
    {
      hide Sorted, Sum, LiveSum;
      assert LiveOk(mem, live[k]);
      LiveUncovered(free, live, k, a);
      NoNodeWord(free, a);
      LinkedStays(mem, freeList, free, a, x);
      mem := mem[a := x];
      forall j | 0 <= j < |live|
        ensures LiveOk(mem, live[j])
      {
        assert LiveOk(old(mem), live[j]);
        assert j < k ==> Apart(live[j].block, live[k].block);
        assert k < j ==> Apart(live[k].block, live[j].block);
      }
    }

    /** A region of `GrowSize(min)` bytes joins the heap, if there is one. */
    method Grow(min: nat, supply: Option<nat>) returns (ok: bool)
      requires Valid()
      requires supply.Some? && GrowSize(min).Some? ==> Suppliable(free, live, Block(supply.value, GrowSize(min).value))
      modifies this
      ensures Valid() && live == old(live)
      ensures ok <==> supply.Some? && GrowSize(min).Some?
      ensures !ok ==> free == old(free) && totalBytes == old(totalBytes)
      ensures ok ==> totalBytes == old(totalBytes) + GrowSize(min).value
      ensures ok ==> free == Insert(old(free), Block(supply.value, GrowSize(min).value))
      ensures forall a: nat :: Held(free, live, a) <==>
        Held(old(free), old(live), a) || (ok && Block(supply.value, GrowSize(min).value).Has(a))
    {
      hide Sorted, Linked, Sum, LiveSum, Insert, Covers, LiveOk;
      var want := GrowSize(min);
      if want.None? || supply.None? {
        return false;
      }
      ghost var b := Block(supply.value, want.value);
      AddFreeRegion(supply.value, want.value);
      totalBytes := totalBytes + want.value;
      InsertSum(old(free), b);
      GrownValid(old(mem), mem, old(free), live, b);
      GrownHeld(old(free), live, b);
      return true;
    }
  }

  /** Payload, alignment, header and room to split, saturating at 64 bits. */
  function SlackFor(size: nat, align: nat): nat {
    if size + align + HEADER + MIN_FREE > MAX_ADDR then MAX_ADDR else size + align + HEADER + MIN_FREE
  }

  /** The region that growing adds, merged or not, holds the request. */
  lemma RoomAfterGrowth(bs: seq<Block>, size: nat, align: nat, b: Block)
    requires Sorted(bs) && BlockOk(b) && PowerOfTwo(align) && forall i | 0 <= i < |bs| :: Apart(bs[i], b)
    requires GrowSize(SlackFor(size, align)) == Some(b.size)
    ensures align > 0
    ensures Room(Insert(bs, b), size, align)
  {
    hide Sorted, Splice, Fits, PowerOfTwo, BlockOk;
    WordDivides(align);
    var out, lo := Insert(bs, b), Low(bs, b);
    SpliceLen(bs, lo, [Merged(bs, b)], High(bs, b));
    SpliceAt(bs, lo, [Merged(bs, b)], High(bs, b), lo);
    GrowEnough(size, align);
    InsertSorted(bs, b);
    SortedBlock(out, lo);
    StartAligned(out[lo]);
    BigFits(out[lo], size, align);
  }

  lemma StartAligned(b: Block)
    requires BlockOk(b)
    ensures b.start % WORD == 0
  {
  }

  lemma GrowEnough(size: nat, align: nat)
    requires GrowSize(SlackFor(size, align)).Some?
    ensures GrowSize(SlackFor(size, align)).value >= size + align + HEADER + MIN_FREE
  {
    AlignUpIs(Max(SlackFor(size, align), GROW_CHUNK), PAGE_SIZE);
  }

  /** The bytes asked of the frame allocator: whole pages, at least one chunk. */
  function GrowSize(min: nat): Option<nat> {
    var n := Max(min, GROW_CHUNK);
    if n + PAGE_SIZE - 1 > MAX_ADDR then None else Some(AlignUp(n, PAGE_SIZE))
  }

  /** A region the frame allocator may hand over: usable memory outside the heap. */
  ghost predicate Suppliable(free: seq<Block>, live: seq<Live>, b: Block) {
    && BlockOk(b) && b.End() <= MAX_ADDR
    && (forall i | 0 <= i < |free| :: Apart(free[i], b))
    && (forall j | 0 <= j < |live| :: Apart(b, live[j].block))
  }

  /** The tail of a block after `end`, if it can hold a list node. */
  function Tail(end: nat, blockEnd: nat): seq<Block>
    requires end <= blockEnd
  {
    if blockEnd - end >= MIN_FREE then [Block(end, blockEnd - end)] else []
  }

  lemma ListHead(mem: Memory, head: nat, bs: seq<Block>)
    requires Linked(mem, head, bs)
    ensures head == At(bs, 0)
  {
  }

  /** The words at a node and, if there is one, at the next. */
  lemma NeighbourWords(mem: Memory, head: nat, bs: seq<Block>, i: nat)
    requires Linked(mem, head, bs) && Spaced(bs) && i < |bs|
    ensures Word(mem, bs[i].start) == bs[i].size
    ensures i + 1 == |bs| ==> Word(mem, bs[i].start + WORD) == 0
    ensures i + 1 < |bs| ==>
      && Word(mem, bs[i].start + WORD) == bs[i + 1].start != 0 && Word(mem, bs[i + 1].start) == bs[i + 1].size
      && Word(mem, bs[i + 1].start + WORD) == At(bs, i + 2)
  {
    hide Linked;
    LinkedAt(mem, head, bs, i);
    if i + 1 < |bs| {
      LinkedAt(mem, head, bs, i + 1);
    }
  }

  lemma AbsorbFrame(mem: Memory, bs: seq<Block>, i: nat)
    requires i + 1 < |bs|
    ensures forall a: nat | a != bs[i].start && a != bs[i].start + WORD :: Word(Absorb(mem, bs, i), a) == Word(mem, a)
  {
  }

  lemma PositionIs(bs: seq<Block>, start: nat, p: nat)
    requires Spaced(bs) && p <= |bs| && (forall i | 0 <= i < p :: bs[i].start < start)
    requires (p < |bs| ==> start <= bs[p].start)
    ensures p == Position(bs, start)
  {
  }

  lemma InsertSpaced(bs: seq<Block>, b: Block)
    requires Sorted(bs) && BlockOk(b) && forall i | 0 <= i < |bs| :: Apart(bs[i], b)
    ensures Spaced(Splice(bs, Position(bs, b.start), [b], Position(bs, b.start)))
  {
    hide Splice, Sorted;
    var p := Position(bs, b.start);
    var out := Splice(bs, p, [b], p);
    SortedSpaced(bs);
    SpliceLen(bs, p, [b], p);
    forall i, j | 0 <= i < j < |out|
      ensures out[i].start + 2 * WORD <= out[j].start
    {
      SpliceAt(bs, p, [b], p, i);
      SpliceAt(bs, p, [b], p, j);
      if i == p {
        assert Apart(bs[j - 1], b);
        SortedBlock(bs, j - 1);
      } else if j == p {
        assert Apart(bs[i], b);
        SortedBlock(bs, i);
      }
    }
    forall i | 0 <= i < |out|
      ensures out[i].start > 0
    {
      SpliceAt(bs, p, [b], p, i);
    }
  }

  lemma SortedBlock(bs: seq<Block>, i: nat)
    requires Sorted(bs) && i < |bs|
    ensures BlockOk(bs[i])
  {
  }

  /** What the two merge tests see. */
  lemma PlaceFacts(bs: seq<Block>, b: Block)
    requires Spaced(bs)
    ensures var p := Position(bs, b.start); (p == 0 ==> !JoinsLeft(bs, b)) && (p > 0 ==> bs[p - 1].start > 0)
    ensures var p := Position(bs, b.start); var s1 := Splice(bs, p, [b], p);
      && |s1| == |bs| + 1 && s1[p] == b
      && (JoinsRight(bs, b) <==> p + 1 < |s1| && s1[p].End() == s1[p + 1].start)
      && var s2 := if JoinsRight(bs, b) then Joined(s1, p) else s1;
         p > 0 ==> p < |s2| && s2[p - 1] == bs[p - 1] && (JoinsLeft(bs, b) <==> s2[p - 1].End() == s2[p].start)
  {
    var p := Position(bs, b.start);
    var s1 := Splice(bs, p, [b], p);
    SpliceAt(bs, p, [b], p, p);
    if p < |bs| {
      SpliceAt(bs, p, [b], p, p + 1);
    }
    if p > 0 {
      SpliceAt(bs, p, [b], p, p - 1);
      if JoinsRight(bs, b) {
        JoinedAt(s1, p, p - 1);
        JoinedAt(s1, p, p);
      }
    }
  }

  /** The words written while inserting lie in free blocks. */
  lemma InsertTouches(bs: seq<Block>, b: Block, a: nat)
    requires Sorted(bs) && BlockOk(b) && (forall i | 0 <= i < |bs| :: Apart(bs[i], b)) && !Covers(Insert(bs, b), a)
    ensures var p := Position(bs, b.start);
      && a != b.start && a != b.start + WORD
      && (p > 0 ==> a != bs[p - 1].start && a != bs[p - 1].start + WORD)
  {
    hide Insert;
    InsertCovers(bs, b, a);
    var p := Position(bs, b.start);
    if p > 0 {
      assert !bs[p - 1].Has(a);
      assert BlockOk(bs[p - 1]);
    }
  }

  // ---- carving ------------------------------------------------------------------------------------

  lemma RequestFacts(c: Block, size: nat, align: nat)
    requires BlockOk(c) && PowerOfTwo(align) && Fits(c, size, align)
    ensures c.End() % WORD == 0
    ensures var u, e := UserAddr(c.start, align), RequestedEnd(c.start, size, align);
      && c.start + HEADER <= u && u + Max(size, 1) <= e <= c.End()
      && u % Max(align, WORD) == 0 && u % WORD == 0 && e % WORD == 0
  {
    hide UserAddr, RequestedEnd, PowerOfTwo, AlignUp, Max;
    WordDivides(align);
    RequestBounds(c.start, size, align);
    MaxPositive(align);
    AlignedWord(UserAddr(c.start, align), Max(align, WORD));
  }

  lemma MaxPositive(align: nat)
    ensures Max(align, WORD) > 0
  {
  }

  function CutEnd(end: nat, blockEnd: nat): nat
    requires end <= blockEnd
  {
    if blockEnd - end >= MIN_FREE then end else blockEnd
  }

  /** Memory once the block at `current` is cut at `end`. */
  function CutMem(mem: Memory, previous: nat, current: nat, end: nat): Memory
    requires end <= current + Word(mem, current)
  {
    var blockEnd, next := current + Word(mem, current), Word(mem, current + WORD);
    var split := blockEnd - end >= MIN_FREE;
    var m := if split then mem[end := blockEnd - end][end + WORD := next] else mem;
    if previous == 0 then m else m[previous + WORD := if split then end else next]
  }

  function CutHead(mem: Memory, head: nat, previous: nat, current: nat, end: nat): nat
    requires end <= current + Word(mem, current)
  {
    if previous != 0 then head
    else if current + Word(mem, current) - end >= MIN_FREE then end else Word(mem, current + WORD)
  }

  /** Cutting a block at `end` leaves the list with the tail in its place. */
  lemma CutKeeps(mem: Memory, head: nat, bs: seq<Block>, i: nat, end: nat)
    requires Sorted(bs) && Linked(mem, head, bs) && i < |bs| && bs[i].start + HEADER < end <= bs[i].End()
    requires end % WORD == 0
    ensures Word(mem, bs[i].start) == bs[i].size
    ensures var previous := if i == 0 then 0 else bs[i - 1].start;
      var out := Splice(bs, i, Tail(end, bs[i].End()), i + 1);
      && Sorted(out)
      && Linked(CutMem(mem, previous, bs[i].start, end), CutHead(mem, head, previous, bs[i].start, end), out)
      && Sum(out) + (CutEnd(end, bs[i].End()) - bs[i].start) == Sum(bs)
      && forall a: nat | !Covers(bs, a) :: Word(CutMem(mem, previous, bs[i].start, end), a) == Word(mem, a)
  {
    hide Sorted, Linked, Splice, Relink, Sum, Spaced, BlockOk, Covers;
    var mid, previous := Tail(end, bs[i].End()), if i == 0 then 0 else bs[i - 1].start;
    SortedSpaced(bs);
    SortedBlock(bs, i);
    if i > 0 {
      SortedBlock(bs, i - 1);
      PositiveStart(bs[i - 1]);
    }
    LinkedAt(mem, head, bs, i);
    CarveList(bs, i, mid, end);
    LinkReplace(mem, head, bs, i, mid);
    RelinkIs(mem, bs, i, mid);
    forall a: nat | !Covers(bs, a)
      ensures Word(CutMem(mem, previous, bs[i].start, end), a) == Word(mem, a)
    {
      CarveWords(bs, i, end, a);
    }
  }

  /** Carving a block that fits keeps the heap: the list without what was cut, the
      new allocation beside the others. */
  lemma CarveKeeps(mem: Memory, head: nat, bs: seq<Block>, live: seq<Live>, i: nat, size: nat, align: nat)
    requires InSpace(bs) && Linked(mem, head, bs) && Layout(bs, live)
    requires forall j | 0 <= j < |live| :: LiveOk(mem, live[j])
    requires Request(size, align) && align > 0 && i < |bs| && Fits(bs[i], size, align)
    ensures Word(mem, bs[i].start) == bs[i].size
    ensures var b, previous := bs[i], if i == 0 then 0 else bs[i - 1].start;
      var user, end := UserAddr(b.start, align), RequestedEnd(b.start, size, align);
      var allocatedEnd := CutEnd(end, b.End());
      && b.start + HEADER <= user < SPAN && b.start < allocatedEnd < SPAN && user % Max(align, WORD) == 0
      && var cut := CutMem(mem, previous, b.start, end);
         var mem' := cut[user - HEADER := b.start][user - WORD := allocatedEnd - b.start];
         var head' := CutHead(mem, head, previous, b.start, end);
         var entry := Live(user, Block(b.start, allocatedEnd - b.start), Max(size, 1));
         var out := Splice(bs, i, Tail(end, b.End()), i + 1);
         && InSpace(out) && Linked(mem', head', out) && Layout(out, live + [entry])
         && (forall j | 0 <= j < |live + [entry]| :: LiveOk(mem', (live + [entry])[j]))
         && Sum(out) + entry.block.size == Sum(bs)
         && forall a: nat | !Covers(bs, a) :: Word(mem', a) == Word(mem, a)
  {
    hide Sorted, Linked, Splice, Layout, LiveOk, Sum, UserAddr, RequestedEnd, BlockOk, Covers, CutMem, CutHead,
         PowerOfTwo, Fits;
    var b, previous := bs[i], if i == 0 then 0 else bs[i - 1].start;
    SortedBlock(bs, i);
    RequestFacts(b, size, align);
    var user, end := UserAddr(b.start, align), RequestedEnd(b.start, size, align);
    CutKeeps(mem, head, bs, i, end);
    var cut, head' := CutMem(mem, previous, b.start, end), CutHead(mem, head, previous, b.start, end);
    var mid := Tail(end, b.End());
    var out, allocatedEnd := Splice(bs, i, mid, i + 1), CutEnd(end, b.End());
    HeaderFree(bs, i, mid, end, user - HEADER);
    HeaderFree(bs, i, mid, end, user - WORD);
    LinkedStays(cut, head', out, user - HEADER, b.start);
    LinkedStays(cut[user - HEADER := b.start], head', out, user - WORD, allocatedEnd - b.start);
    var mem': Memory := cut[user - HEADER := b.start][user - WORD := allocatedEnd - b.start];
    var entry := Live(user, Block(b.start, allocatedEnd - b.start), Max(size, 1));
    forall a: nat | !Covers(bs, a)
      ensures Word(mem', a) == Word(mem, a)
    {
      HeaderCovered(bs, i, user, a);
    }
    EntryOk(mem', b, entry);
    CarveValid(mem, mem', bs, live, i, mid, end, entry);
  }

  /** Carving moves bytes from free to live and loses none. */
  lemma CarveHeld(bs: seq<Block>, live: seq<Live>, i: nat, end: nat, l: Live)
    requires i < |bs| && bs[i].start <= end <= bs[i].End()
    requires l.block.start == bs[i].start && l.block.End() == CutEnd(end, bs[i].End())
    ensures forall a: nat :: Held(Splice(bs, i, Tail(end, bs[i].End()), i + 1), live + [l], a) <==> Held(bs, live, a)
  {
    hide Splice;
    var mid := Tail(end, bs[i].End());
    forall a: nat
      ensures Held(Splice(bs, i, mid, i + 1), live + [l], a) <==> Held(bs, live, a)
    {
      SpliceCovers(bs, i, mid, i + 1, a);
      OneMoreHas(live, l, a);
      assert bs[i].Has(a) <==> l.block.Has(a) || Covers(mid, a) by {
        if mid != [] && mid[0].Has(a) {
          assert Covers(mid, a);
        }
      }
      if Covers(bs, a) {
        var j :| 0 <= j < |bs| && bs[j].Has(a);
      }
    }
  }

  lemma OneMoreHas(live: seq<Live>, l: Live, a: nat)
    ensures (exists j | 0 <= j < |live + [l]| :: (live + [l])[j].block.Has(a)) <==>
      (exists j | 0 <= j < |live| :: live[j].block.Has(a)) || l.block.Has(a)
  {
    var all := live + [l];
    assert all[|live|] == l;
    if j :| 0 <= j < |live| && live[j].block.Has(a) {
      assert all[j].block.Has(a);
    }
    if j :| 0 <= j < |all| && all[j].block.Has(a) {
      assert j < |live| ==> live[j] == all[j];
    }
  }

  lemma GrownHeld(bs: seq<Block>, live: seq<Live>, b: Block)
    requires Sorted(bs) && BlockOk(b) && forall i | 0 <= i < |bs| :: Apart(bs[i], b)
    ensures forall a: nat :: Held(Insert(bs, b), live, a) <==> Held(bs, live, a) || b.Has(a)
  {
    hide Insert, Covers, Sorted, BlockOk;
    forall a: nat
      ensures Held(Insert(bs, b), live, a) <==> Held(bs, live, a) || b.Has(a)
    {
      InsertCovers(bs, b, a);
    }
  }

  /** Releasing moves bytes back and loses none. */
  lemma FreedHeld(bs: seq<Block>, live: seq<Live>, k: nat)
    requires Sorted(bs) && k < |live| && BlockOk(live[k].block)
    requires forall i | 0 <= i < |bs| :: Apart(bs[i], live[k].block)
    ensures forall a: nat ::
      Held(Insert(bs, live[k].block), live[..k] + live[k + 1..], a) <==> Held(bs, live, a)
  {
    hide Insert, Covers, Sorted, BlockOk;
    var b, rest := live[k].block, live[..k] + live[k + 1..];
    forall a: nat
      ensures Held(Insert(bs, b), rest, a) <==> Held(bs, live, a)
    {
      InsertCovers(bs, b, a);
      if j :| 0 <= j < |live| && live[j].block.Has(a) && j != k {
        assert rest[if j < k then j else j - 1] == live[j];
      }
      if j :| 0 <= j < |rest| && rest[j].block.Has(a) {
        assert rest[j] == live[if j < k then j else j + 1];
      }
    }
  }

  /** What a false fit leaves: a non-null address that no allocation can have, or
      null with the header written over the last two words of memory. */
  ghost predicate Spoiled(mem: Memory, b: Block, align: nat, user: nat) {
    if UserWraps(b, align) then user == 0 && Word(mem, MAX_ADDR - 15) == b.start
    else user > 0 && forall l: Live | l.user == user :: !LiveOk(mem, l)
  }

  lemma SpoiledHeader(mem: Memory, b: Block, size: nat, align: nat, user: nat, end: nat)
    requires BlockOk(b) && b.End() <= MAX_ADDR && Request(size, align) && align > 0 && FalseFit(b, size, align)
    requires Judge(b, size, align) == Take(user, end) && end <= b.End()
    requires Word(mem, Wrap(user + SPAN - HEADER)) == b.start
    requires Word(mem, Wrap(user + SPAN - WORD)) == Wrap(CutEnd(end, b.End()) + SPAN - b.start)
    ensures Spoiled(mem, b, align, user)
    ensures user == 0 || end == 0
  {
    hide PowerOfTwo, Judge, FalseFit, AlignUp, Wrap;
    JudgeIs(b, size, align);
    if !UserWraps(b, align) {
      AlignUpBounds(b.start + HEADER, Max(align, WORD));
      assert CutEnd(end, b.End()) == 0;
      forall l: Live | l.user == user
        ensures !LiveOk(mem, l)
      {
        assert Word(mem, user - HEADER) == b.start && Word(mem, user - WORD) == SPAN - b.start;
      }
    }
  }

  lemma JudgeEnd(b: Block, size: nat, align: nat)
    requires Judge(b, size, align).Take?
    ensures Judge(b, size, align).end <= b.End() <= MAX_ADDR
  {
  }

  lemma NotFound(bs: seq<Block>, size: nat, align: nat)
    requires InSpace(bs) && Request(size, align) && Search(bs, size, align, 0).None?
    ensures align > 0 && !Room(bs, size, align) && !Misled(bs, size, align)
  {
    hide Search, Misled, Room, PowerOfTwo;
    SearchRightIff(bs, size, align);
  }

  lemma RoomIsRight(bs: seq<Block>, size: nat, align: nat)
    requires InSpace(bs) && Request(size, align) && align > 0 && Room(bs, size, align)
    ensures !Misled(bs, size, align)
  {
    hide Misled, Fits, PowerOfTwo;
    var j :| 0 <= j < |bs| && Fits(bs[j], size, align);
    RoomNotMisled(bs, size, align, j);
  }

  /** The list after carving is sorted, and smaller by what was cut. */
  lemma CarveList(bs: seq<Block>, i: nat, mid: seq<Block>, end: nat)
    requires Sorted(bs) && i < |bs| && bs[i].start + HEADER < end <= bs[i].End() && end % WORD == 0
    requires mid == Tail(end, bs[i].End())
    ensures Sorted(Splice(bs, i, mid, i + 1)) && Spaced(Splice(bs, i, mid, i + 1))
    ensures Sum(Splice(bs, i, mid, i + 1)) + (if mid == [] then bs[i].size else end - bs[i].start) == Sum(bs)
  {
    hide Splice;
    assert BlockOk(bs[i]);
    SpliceSorted(bs, i, mid, i + 1);
    SortedSpaced(Splice(bs, i, mid, i + 1));
    SpliceSum(bs, i, mid, i + 1);
    assert bs[i..i + 1] == [bs[i]] && [bs[i]][..0] == [];
    if mid != [] {
      assert mid[..0] == [];
    }
  }

  lemma RelinkIs(mem: Memory, bs: seq<Block>, i: nat, mid: seq<Block>)
    requires i < |bs| && |mid| <= 1
    ensures var next := At(bs, i + 1);
      var m := if mid == [] then mem else mem[mid[0].start := mid[0].size][mid[0].start + WORD := next];
      Relink(mem, bs, i, mid) ==
        if i == 0 then m else m[bs[i - 1].start + WORD := if mid == [] then next else mid[0].start]
  {
  }

  /** Header words of the new allocation belong to no list node. */
  lemma HeaderFree(bs: seq<Block>, i: nat, mid: seq<Block>, end: nat, a: nat)
    requires Sorted(bs) && i < |bs| && |mid| <= 1 && (mid != [] ==> mid[0].start == end)
    requires bs[i].start <= a < end <= bs[i].End()
    ensures var out := Splice(bs, i, mid, i + 1);
      forall x | 0 <= x < |out| :: a != out[x].start && a != out[x].start + WORD
  {
    hide Splice;
    var out := Splice(bs, i, mid, i + 1);
    SpliceLen(bs, i, mid, i + 1);
    forall x | 0 <= x < |out|
      ensures a != out[x].start && a != out[x].start + WORD
    {
      SpliceAt(bs, i, mid, i + 1, x);
      var y := if x < i then x else x - |mid| + 1;
      if x < i {
        SortedFar(bs, x, i);
        assert BlockOk(bs[x]);
      } else if x >= i + |mid| {
        SortedFar(bs, i, y);
      }
    }
  }

  lemma OneLive(l: Live)
    ensures LiveSum([l]) == l.block.size
  {
    assert [l][..0] == [];
  }

  lemma PositiveStart(b: Block)
    requires BlockOk(b)
    ensures b.start > 0
  {
  }

  /** Every word written while cutting lies in a block that was free. */
  lemma CarveWords(bs: seq<Block>, i: nat, end: nat, a: nat)
    requires Sorted(bs) && i < |bs| && bs[i].start + HEADER <= end <= bs[i].End() && !Covers(bs, a)
    ensures bs[i].End() - end >= MIN_FREE ==> a != end && a != end + WORD
    ensures i > 0 ==> a != bs[i - 1].start + WORD
  {
    assert !bs[i].Has(a);
    if i > 0 {
      assert BlockOk(bs[i - 1]) && !bs[i - 1].Has(a);
    }
  }

  lemma HeaderCovered(bs: seq<Block>, i: nat, user: nat, a: nat)
    requires i < |bs| && bs[i].start + HEADER <= user < bs[i].End() && !Covers(bs, a)
    ensures a != user - HEADER && a != user - WORD
  {
    assert !bs[i].Has(a);
  }

  lemma EntryOk(mem: Memory, c: Block, l: Live)
    requires BlockOk(c) && c.End() <= MAX_ADDR && l.block.start == c.start && c.start + HEADER <= l.user
    requires l.user % WORD == 0
    requires l.payload >= 1 && l.user + l.payload <= l.block.End() <= c.End() && l.block.End() % WORD == 0
    requires Word(mem, l.user - HEADER) == l.block.start && Word(mem, l.user - WORD) == l.block.size
    ensures LiveOk(mem, l)
  {
  }

  /** A word of a live block is in no free block. */
  lemma LiveUncovered(free: seq<Block>, live: seq<Live>, j: nat, a: nat)
    requires Layout(free, live) && j < |live| && live[j].block.Has(a)
    ensures !Covers(free, a)
  {
    forall i | 0 <= i < |free|
      ensures !free[i].Has(a)
    {
      assert Apart(free[i], live[j].block);
    }
  }

  /** Live blocks survive writes that stay in free blocks. */
  lemma LivesStay(mem: Memory, mem': Memory, free: seq<Block>, live: seq<Live>, j: nat)
    requires Layout(free, live) && j < |live| && LiveOk(mem, live[j])
    requires forall a: nat | !Covers(free, a) :: Word(mem', a) == Word(mem, a)
    ensures LiveOk(mem', live[j])
  {
    LiveUncovered(free, live, j, live[j].user - HEADER);
    LiveUncovered(free, live, j, live[j].user - WORD);
  }

  lemma CarveValid(mem: Memory, mem': Memory, bs: seq<Block>, live: seq<Live>, i: nat, mid: seq<Block>, end: nat,
                   l: Live)
    requires Sorted(bs) && Layout(bs, live) && i < |bs| && bs[i].start + HEADER < end <= bs[i].End() <= MAX_ADDR
    requires mid == Tail(end, bs[i].End()) && LiveOk(mem', l)
    requires l.block.start == bs[i].start && l.block.End() == if mid == [] then bs[i].End() else end
    requires forall j | 0 <= j < |live| :: LiveOk(mem, live[j])
    requires forall a: nat | !Covers(bs, a) :: Word(mem', a) == Word(mem, a)
    requires forall x | 0 <= x < |bs| :: bs[x].End() <= MAX_ADDR
    ensures Layout(Splice(bs, i, mid, i + 1), live + [l])
    ensures forall j | 0 <= j < |live + [l]| :: LiveOk(mem', (live + [l])[j])
    ensures var out := Splice(bs, i, mid, i + 1); forall x | 0 <= x < |out| :: out[x].End() <= MAX_ADDR
  {
    hide Splice, LiveOk, Sorted, Covers;
    var out, all := Splice(bs, i, mid, i + 1), live + [l];
    SpliceLen(bs, i, mid, i + 1);
    forall j | 0 <= j < |all|
      ensures LiveOk(mem', all[j])
    {
      if j < |live| {
        LivesStay(mem, mem', bs, live, j);
      }
    }
    forall x | 0 <= x < |out|
      ensures out[x].End() <= MAX_ADDR && Apart(out[x], l.block)
      ensures forall j | 0 <= j < |live| :: Apart(out[x], live[j].block)
    {
      SpliceAt(bs, i, mid, i + 1, x);
      var y := if x < i then x else if x < i + |mid| then i else x - |mid| + 1;
      if x < i {
        SortedFar(bs, x, i);
      } else if x >= i + |mid| {
        SortedFar(bs, i, y);
      }
      forall j | 0 <= j < |live|
        ensures Apart(out[x], live[j].block)
      {
        assert Apart(bs[y], live[j].block);
      }
    }
    forall j | 0 <= j < |live|
      ensures Apart(live[j].block, l.block)
    {
      assert Apart(bs[i], live[j].block);
    }
  }

  // ---- releasing and growing --------------------------------------------------------------------------

  /** Blocks without a common byte are apart. */
  lemma ApartByBytes(x: Block, y: Block)
    requires x.size > 0 && y.size > 0 && forall a: nat :: !(x.Has(a) && y.Has(a))
    ensures Apart(x, y)
  {
    assert !(x.Has(x.start) && y.Has(x.start)) && !(x.Has(y.start) && y.Has(y.start));
  }

  /** A merged insertion stays apart from whatever the parts were apart from. */
  lemma InsertApart(bs: seq<Block>, b: Block, y: Block, i: nat)
    requires Sorted(bs) && BlockOk(b) && BlockOk(y) && (forall x | 0 <= x < |bs| :: Apart(bs[x], b))
    requires i < |Insert(bs, b)|
    requires Apart(b, y) && forall x | 0 <= x < |bs| :: Apart(bs[x], y)
    ensures Apart(Insert(bs, b)[i], y)
  {
    hide Insert;
    var out := Insert(bs, b);
    InsertSorted(bs, b);
    assert BlockOk(out[i]);
    forall a: nat
      ensures !(out[i].Has(a) && y.Has(a))
    {
      InsertCovers(bs, b, a);
    }
    ApartByBytes(out[i], y);
  }

  lemma NoNodeWord(bs: seq<Block>, a: nat)
    requires Sorted(bs) && !Covers(bs, a)
    ensures forall i | 0 <= i < |bs| :: a != bs[i].start && a != bs[i].start + WORD
  {
    forall i | 0 <= i < |bs|
      ensures a != bs[i].start && a != bs[i].start + WORD
    {
      assert !bs[i].Has(a) && BlockOk(bs[i]);
    }
  }

  lemma GrownValid(mem: Memory, mem': Memory, bs: seq<Block>, live: seq<Live>, b: Block)
    requires Sorted(bs) && Layout(bs, live) && Suppliable(bs, live, b)
    requires (forall j | 0 <= j < |live| :: LiveOk(mem, live[j])) && forall i | 0 <= i < |bs| :: bs[i].End() <= MAX_ADDR
    requires forall a: nat | !Covers(Insert(bs, b), a) :: Word(mem', a) == Word(mem, a)
    ensures Layout(Insert(bs, b), live) && forall j | 0 <= j < |live| :: LiveOk(mem', live[j])
    ensures var out := Insert(bs, b); forall i | 0 <= i < |out| :: out[i].End() <= MAX_ADDR
  {
    hide Insert, LiveOk, Covers, Sorted;
    var out := Insert(bs, b);
    forall i, j | 0 <= i < |out| && 0 <= j < |live|
      ensures Apart(out[i], live[j].block)
    {
      LiveBlock(mem, live[j]);
      InsertApart(bs, b, live[j].block, i);
    }
    assert Layout(out, live);
    forall j | 0 <= j < |live|
      ensures LiveOk(mem', live[j])
    {
      LivesStay(mem, mem', out, live, j);
    }
    InsertBound(bs, b);
  }

  lemma LiveBlock(mem: Memory, l: Live)
    requires LiveOk(mem, l)
    ensures BlockOk(l.block)
  {
  }

  lemma InsertBound(bs: seq<Block>, b: Block)
    requires b.End() <= MAX_ADDR && forall i | 0 <= i < |bs| :: bs[i].End() <= MAX_ADDR
    ensures var out := Insert(bs, b); forall i | 0 <= i < |out| :: out[i].End() <= MAX_ADDR
  {
    hide Splice;
    var out := Insert(bs, b);
    forall i | 0 <= i < |out|
      ensures out[i].End() <= MAX_ADDR
    {
      SpliceAt(bs, Low(bs, b), [Merged(bs, b)], High(bs, b), i);
    }
  }

  lemma FreedValid(mem: Memory, mem': Memory, bs: seq<Block>, live: seq<Live>, k: nat)
    requires Sorted(bs) && Layout(bs, live) && k < |live|
    requires (forall j | 0 <= j < |live| :: LiveOk(mem, live[j])) && forall i | 0 <= i < |bs| :: bs[i].End() <= MAX_ADDR
    requires forall a: nat | !Covers(Insert(bs, live[k].block), a) :: Word(mem', a) == Word(mem, a)
    ensures var rest := live[..k] + live[k + 1..]; var out := Insert(bs, live[k].block);
      && Layout(out, rest) && (forall j | 0 <= j < |rest| :: LiveOk(mem', rest[j]))
      && forall i | 0 <= i < |out| :: out[i].End() <= MAX_ADDR
  {
    hide Insert, Covers, Sorted;
    var rest, b := live[..k] + live[k + 1..], live[k].block;
    assert LiveOk(mem, live[k]);
    forall j | 0 <= j < |rest|
      ensures LiveOk(mem, rest[j]) && Apart(b, rest[j].block) && rest[j] == live[if j < k then j else j + 1]
    {
      var y := if j < k then j else j + 1;
      assert rest[j] == live[y] && LiveOk(mem, live[y]);
      assert y < k ==> Apart(live[y].block, live[k].block);
    }
    assert Layout(bs, rest);
    GrownValid(mem, mem', bs, rest, b);
  }
}
