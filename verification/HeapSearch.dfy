/** First fit on 64-bit addresses: what the search decides for one block and for
    the list, and exactly when it is misled by a rounding that wraps. */
module HeapSearch {
  import opened Bytes
  import opened HeapList
  import opened Heap

  const SPAN: nat := MAX_ADDR + 1

  // ---- sizes ------------------------------------------------------------------------------

  function Floor(x: nat, align: nat): nat
    requires align > 0
  {
    x / align * align
  }

  function AlignUp(a: nat, align: nat): nat
    requires align > 0
  {
    Floor(a + align - 1, align)
  }

  lemma AlignUpIs(a: nat, align: nat)
    requires align > 0
    ensures AlignUp(a, align) % align == 0 && a <= AlignUp(a, align) <= a + align - 1
  {
    var q := (a + align - 1) / align;
    MulMod(q, align);
    assert q * align == (a + align - 1) - (a + align - 1) % align;
  }

  lemma AlignUpBounds(a: nat, align: nat)
    requires align > 0
    ensures a <= AlignUp(a, align) <= a + align - 1
  {
    hide AlignUp;
    AlignUpIs(a, align);
  }

  lemma MulMod(q: nat, m: nat)
    requires m > 0
    ensures q * m % m == 0
  {
    if q > 0 {
      MulMod(q - 1, m);
      assert q * m == (q - 1) * m + m;
      AddMod((q - 1) * m, m);
    }
  }

  lemma AddMod(a: nat, m: nat)
    requires m > 0
    ensures (a + m) % m == a % m
  {
    var q, r := a / m, a % m;
    assert a + m == (q + 1) * m + r;
    ModUnique(a + m, m, q + 1, r);
  }

  lemma ModUnique(a: nat, m: nat, q: nat, r: nat)
    requires m > 0 && a == q * m + r && r < m
    ensures a % m == r
  {
    var d := a / m - q;
    assert d * m == r - a % m;
  }

  function UserAddr(start: nat, align: nat): nat
    requires align > 0
  {
    AlignUp(start + HEADER, Max(align, WORD))
  }

  function RequestedEnd(start: nat, size: nat, align: nat): nat
    requires align > 0
  {
    AlignUp(UserAddr(start, align) + Max(size, 1), WORD)
  }

  predicate Fits(b: Block, size: nat, align: nat)
    requires align > 0
  {
    RequestedEnd(b.start, size, align) <= b.End()
  }

  /** Some block can hold the request. */
  ghost predicate Room(bs: seq<Block>, size: nat, align: nat)
    requires align > 0
  {
    exists j :: 0 <= j < |bs| && Fits(bs[j], size, align)
  }

  /** The first block that can hold the request. */
  ghost predicate FirstFit(bs: seq<Block>, size: nat, align: nat, i: nat)
    requires align > 0
  {
    i < |bs| && Fits(bs[i], size, align) && forall j | 0 <= j < i :: !Fits(bs[j], size, align)
  }

  lemma AlignUpMono(a: nat, b: nat, align: nat)
    requires align > 0 && a <= b
    ensures AlignUp(a, align) <= AlignUp(b, align)
  {
    var p, q := (a + align - 1) / align, (b + align - 1) / align;
    assert q * align + align == (q + 1) * align;
    if q < p {
      MulMono(q + 1, p, align);
    }
    MulMono(p, q, align);
  }

  lemma UserMono(a: nat, b: nat, align: nat)
    requires align > 0 && a <= b
    ensures UserAddr(a, align) <= UserAddr(b, align)
  {
    AlignUpMono(a + HEADER, b + HEADER, Max(align, WORD));
  }

  lemma RequestBounds(start: nat, size: nat, align: nat)
    requires align > 0 && start % WORD == 0
    ensures var u, e := UserAddr(start, align), RequestedEnd(start, size, align);
      && start + HEADER <= u <= start + HEADER + Max(align, WORD) - 1 && u % Max(align, WORD) == 0
      && u + Max(size, 1) <= e <= u + Max(size, 1) + WORD - 1 && e % WORD == 0
  {
    AlignUpIs(start + HEADER, Max(align, WORD));
    AlignUpIs(UserAddr(start, align) + Max(size, 1), WORD);
  }

  /** A block with the slack that growing asks for always fits. */
  lemma BigFits(b: Block, size: nat, align: nat)
    requires align > 0 && b.start % WORD == 0 && b.size >= size + align + HEADER + MIN_FREE
    ensures Fits(b, size, align)
  {
    RequestBounds(b.start, size, align);
  }

  /** Layout alignments are powers of two. */
  lemma WordDivides(align: nat)
    requires PowerOfTwo(align)
    ensures align > 0 && Max(align, WORD) % WORD == 0
  {
    if align >= WORD {
      assert PowerOfTwo(align / 2) && PowerOfTwo(align / 2 / 2) && PowerOfTwo(align / 2 / 2 / 2);
    }
  }

  lemma AlignedWord(u: nat, m: nat)
    requires m > 0 && m % WORD == 0 && u % m == 0
    ensures u % WORD == 0
  {
    var q, k := u / m, m / WORD;
    assert u == q * m && m == k * WORD;
    assert u == (q * k) * WORD;
    MulMod(q * k, WORD);
  }

  // ---- rounding on 64 bits ------------------------------------------------------------------

  /** A layout as the allocator gets it: 64-bit numbers, a power of two. */
  predicate Request(size: nat, align: nat) { size <= MAX_ADDR && align <= MAX_ADDR && PowerOfTwo(align) }

  function Wrap(x: nat): (r: nat)
    ensures r < SPAN && (x < SPAN ==> r == x) && (SPAN <= x < 2 * SPAN ==> r == x - SPAN)
  {
    x % SPAN
  }

  lemma FloorSmall(x: nat, align: nat)
    requires x < align
    ensures Floor(x, align) == 0
  {
  }

  /** Rounding up on 64 bits, without a check. */
  function RoundUp(a: nat, align: nat): nat
    requires align > 0
  {
    Floor(Wrap(a + align - 1), align)
  }

  /** It is right unless the sum wraps, and then it is 0. */
  lemma RoundUpIs(a: nat, align: nat)
    requires 0 < align <= MAX_ADDR && a <= MAX_ADDR
    ensures RoundUp(a, align) == if a + align - 1 <= MAX_ADDR then AlignUp(a, align) else 0
  {
    hide Floor, Wrap;
    var n := a + align - 1;
    if n > MAX_ADDR {
      FloorSmall(n - SPAN, align);
    }
  }

  lemma {:induction false} PowerDivides(a: nat, b: nat)
    requires PowerOfTwo(a) && PowerOfTwo(b) && a <= b
    ensures b % a == 0
    decreases b
  {
    if a == b || a == 1 {
      MulMod(b / a, a);
    } else {
      var h := b / 2;
      if a <= h {
        PowerDivides(a, h);
        var q := h / a;
        assert h == q * a;
        assert b == (2 * q) * a;
        MulMod(2 * q, a);
      } else {
        PowerGap(a, b);
      }
    }
  }

  /** Two powers of two are at least a factor of two apart. */
  lemma {:induction false} PowerGap(a: nat, b: nat)
    requires PowerOfTwo(a) && PowerOfTwo(b) && a < b
    ensures 2 * a <= b
    decreases b
  {
    if a > 1 {
      PowerGap(a / 2, b / 2);
    }
  }

  lemma SpanIsPower()
    ensures PowerOfTwo(SPAN)
  {
    assert PowerOfTwo(0x1_0000);
    PowerTimes(0x1_0000, 0x1_0000);
    PowerTimes(0x1_0000_0000, 0x1_0000_0000);
  }

  lemma DoubleTimes(a: nat, b: nat, h: nat)
    requires b == 2 * h
    ensures a * b == 2 * (a * h)
  {
  }

  lemma {:induction false} PowerTimes(a: nat, b: nat)
    requires PowerOfTwo(a) && PowerOfTwo(b)
    ensures PowerOfTwo(a * b)
    decreases b
  {
    if b > 1 {
      var h := b / 2;
      PowerTimes(a, h);
      DoubleTimes(a, b, h);
    }
  }

  /** Aligned addresses do not straddle the end of the address space: one at
      most 2^64 - 1 leaves room for a whole step. */
  lemma AlignedBelow(x: nat, align: nat)
    requires PowerOfTwo(align) && align <= MAX_ADDR && x % align == 0 && x <= MAX_ADDR
    ensures x + align - 1 <= MAX_ADDR
  {
    SpanIsPower();
    PowerDivides(align, SPAN);
    MultipleBelow(x, SPAN, align);
  }

  lemma MultipleBelow(x: nat, y: nat, m: nat)
    requires m > 0 && x % m == 0 && y % m == 0 && x < y
    ensures x + m <= y
  {
    var q, n := x / m, y / m;
    assert x == q * m && y == n * m;
    if n <= q {
      MulMono(n, q, m);
    }
    MulMono(q + 1, n, m);
    assert (q + 1) * m == q * m + m;
  }

  // ---- one block -----------------------------------------------------------------------------

  /** What the loop decides for a block. */
  datatype Verdict = Take(user: nat, end: nat) | Skip | GiveUp

  function Judge(b: Block, size: nat, align: nat): Verdict {
    var user := RoundUp(b.start + HEADER, Max(align, WORD));
    if b.End() > MAX_ADDR || user + Max(size, 1) > MAX_ADDR then GiveUp
    else
      var end := RoundUp(user + Max(size, 1), WORD);
      if end <= b.End() then Take(user, end) else Skip
  }

  /** Rounding the payload's address wraps. */
  predicate UserWraps(b: Block, align: nat) { b.start + HEADER + Max(align, WORD) - 1 > MAX_ADDR }

  /** The payload's end is beyond the address space, and the check sees it. */
  predicate Overflows(b: Block, size: nat, align: nat)
    requires align > 0
  {
    !UserWraps(b, align) && UserAddr(b.start, align) + Max(size, 1) > MAX_ADDR
  }

  /** A block taken because a rounding wraps: the payload's end falls into the
      last seven bytes, or its address wraps to 0 and the size alone passes. */
  predicate FalseFit(b: Block, size: nat, align: nat)
    requires align > 0
  {
    if UserWraps(b, align) then Max(size, 1) + WORD - 1 > MAX_ADDR || AlignUp(Max(size, 1), WORD) <= b.End()
    else MAX_ADDR - WORD + 1 < UserAddr(b.start, align) + Max(size, 1) <= MAX_ADDR
  }

  lemma PositiveAlign(align: nat)
    requires PowerOfTwo(align)
    ensures align > 0 && PowerOfTwo(Max(align, WORD))
  {
    assert PowerOfTwo(4);
  }

  /** The loop takes a block if and only if it fits or is a false fit, and it
      never is both: so its verdict is right if and only if it is no false fit. */
  lemma JudgeIs(b: Block, size: nat, align: nat)
    requires BlockOk(b) && b.End() <= MAX_ADDR && Request(size, align)
    ensures align > 0 && !(Fits(b, size, align) && FalseFit(b, size, align))
    ensures var v := Judge(b, size, align);
      && (v.Take? <==> Fits(b, size, align) || FalseFit(b, size, align))
      && (v.GiveUp? <==> Overflows(b, size, align))
      && (Fits(b, size, align) ==> v == Take(UserAddr(b.start, align), RequestedEnd(b.start, size, align)))
      && (FalseFit(b, size, align) ==> v.user == if UserWraps(b, align) then 0 else UserAddr(b.start, align))
      && (FalseFit(b, size, align) && !UserWraps(b, align) ==> v.end == 0)
  {
    hide PowerOfTwo, AlignUp, RoundUp, BlockOk, Judge, UserAddr;
    PositiveAlign(align);
    if UserWraps(b, align) {
      JudgeWrapped(b, size, align);
    } else {
      JudgePlain(b, size, align);
    }
  }

  /** Where the payload's address wraps, the size alone decides. */
  lemma JudgeWrapped(b: Block, size: nat, align: nat)
    requires BlockOk(b) && b.End() <= MAX_ADDR && Request(size, align) && UserWraps(b, align)
    ensures align > 0 && !Fits(b, size, align)
    ensures Judge(b, size, align) ==
      var end := if Max(size, 1) + WORD - 1 > MAX_ADDR then 0 else AlignUp(Max(size, 1), WORD);
      if end <= b.End() then Take(0, end) else Skip
  {
    hide PowerOfTwo, AlignUp, RoundUp, BlockOk, UserAddr;
    PositiveAlign(align);
    BlockRoom(b);
    RoundUpIs(b.start + HEADER, Max(align, WORD));
    RoundUpIs(Max(size, 1), WORD);
    UserPast(b, align);
    AlignUpBounds(UserAddr(b.start, align) + Max(size, 1), WORD);
  }

  lemma JudgePlain(b: Block, size: nat, align: nat)
    requires BlockOk(b) && b.End() <= MAX_ADDR && Request(size, align) && !UserWraps(b, align)
    ensures align > 0
    ensures var u, e := UserAddr(b.start, align), RequestedEnd(b.start, size, align);
      && u + Max(size, 1) <= e
      && Judge(b, size, align) ==
           if u + Max(size, 1) > MAX_ADDR then GiveUp
           else if u + Max(size, 1) + WORD - 1 > MAX_ADDR then Take(u, 0)
           else if e <= b.End() then Take(u, e) else Skip
    ensures FalseFit(b, size, align) ==> RequestedEnd(b.start, size, align) > MAX_ADDR
  {
    hide PowerOfTwo, AlignUp, RoundUp, BlockOk;
    PositiveAlign(align);
    BlockRoom(b);
    RoundUpIs(b.start + HEADER, Max(align, WORD));
    var e := UserAddr(b.start, align) + Max(size, 1);
    AlignUpBounds(e, WORD);
    if e <= MAX_ADDR {
      RoundUpIs(e, WORD);
      if e + WORD - 1 > MAX_ADDR {
        EndPast(e);
      }
    }
  }

  lemma BlockRoom(b: Block)
    requires BlockOk(b)
    ensures b.start + HEADER <= b.End()
  {
  }

  /** A payload address whose rounding wraps lies beyond the address space. */
  lemma UserPast(b: Block, align: nat)
    requires PowerOfTwo(align) && align <= MAX_ADDR && UserWraps(b, align)
    ensures align > 0 && UserAddr(b.start, align) > MAX_ADDR
  {
    PositiveAlign(align);
    var m := Max(align, WORD);
    AlignUpIs(b.start + HEADER, m);
    if UserAddr(b.start, align) <= MAX_ADDR {
      AlignedBelow(UserAddr(b.start, align), m);
    }
  }

  lemma EndPast(e: nat)
    requires e <= MAX_ADDR < e + WORD - 1
    ensures AlignUp(e, WORD) > MAX_ADDR
  {
    AlignUpIs(e, WORD);
  }

  // ---- the list ------------------------------------------------------------------------------

  /** The block the search takes. */
  function Search(bs: seq<Block>, size: nat, align: nat, i: nat): (r: Option<nat>)
    requires i <= |bs|
    decreases |bs| - i
  {
    if i == |bs| then None
    else match Judge(bs[i], size, align)
      case Take(_, _) => Some(i)
      case GiveUp => None
      case Skip => Search(bs, size, align, i + 1)
  }

  /** The search reaches a false fit before a block that fits and before a
      checked overflow. */
  ghost predicate Misled(bs: seq<Block>, size: nat, align: nat)
    requires align > 0
  {
    exists i :: 0 <= i < |bs| && FalseFit(bs[i], size, align) && Reached(bs, size, align, i)
  }

  ghost predicate Reached(bs: seq<Block>, size: nat, align: nat, i: nat)
    requires align > 0 && i <= |bs|
  {
    forall j | 0 <= j < i :: !Fits(bs[j], size, align) && !Overflows(bs[j], size, align)
  }

  ghost predicate InSpace(bs: seq<Block>) { Sorted(bs) && forall k | 0 <= k < |bs| :: bs[k].End() <= MAX_ADDR }

  /** Up to a block that fits, no candidate overflows and no rounding wraps: the
      list is sorted and lies in the address space. */
  lemma NoOverflowBefore(bs: seq<Block>, size: nat, align: nat, i: nat, j: nat)
    requires InSpace(bs) && Request(size, align) && align > 0 && i <= j < |bs| && Fits(bs[j], size, align)
    ensures !Overflows(bs[i], size, align) && !FalseFit(bs[i], size, align)
    ensures RequestedEnd(bs[i].start, size, align) <= MAX_ADDR
  {
    hide Sorted, UserAddr, PowerOfTwo;
    if i < j {
      SortedFar(bs, i, j);
    }
    var n := Max(size, 1);
    UserMono(bs[i].start, bs[j].start, align);
    AlignUpMono(UserAddr(bs[i].start, align) + n, UserAddr(bs[j].start, align) + n, WORD);
    AlignUpIs(UserAddr(bs[i].start, align) + n, WORD);
    if UserWraps(bs[i], align) {
      UserPast(bs[i], align);
    } else {
      AlignUpIs(UserAddr(bs[i].start, align) + n, WORD);
    }
  }

  /** Where the search stops. */
  lemma {:induction false} SearchIs(bs: seq<Block>, size: nat, align: nat, i: nat)
    requires InSpace(bs) && Request(size, align) && align > 0 && i <= |bs|
    requires Reached(bs, size, align, i) && forall j | 0 <= j < i :: !FalseFit(bs[j], size, align)
    ensures var r := Search(bs, size, align, i);
      && (r.Some? ==> i <= r.value < |bs| && Reached(bs, size, align, r.value))
      && (r.Some? ==> Fits(bs[r.value], size, align) || FalseFit(bs[r.value], size, align))
      && (r.None? ==> !Room(bs, size, align) && !Misled(bs, size, align))
    decreases |bs| - i
  {
    hide Sorted, Fits, FalseFit, Overflows, Judge, PowerOfTwo;
    if i < |bs| {
      InSpaceAt(bs, i);
      JudgeIs(bs[i], size, align);
      if Judge(bs[i], size, align).Skip? {
        SearchIs(bs, size, align, i + 1);
      } else if Judge(bs[i], size, align).GiveUp? {
        if j :| i <= j < |bs| && Fits(bs[j], size, align) {
          NoOverflowBefore(bs, size, align, i, j);
        }
      }
    }
  }

  lemma InSpaceAt(bs: seq<Block>, i: nat)
    requires InSpace(bs) && i < |bs|
    ensures BlockOk(bs[i]) && bs[i].End() <= MAX_ADDR
  {
  }

  /** First fit on 64 bits: the search finds a block exactly when one fits, and
      then the first that does, if and only if it is not misled; misled, it takes
      a false fit although no block fits. */
  lemma SearchRightIff(bs: seq<Block>, size: nat, align: nat)
    requires InSpace(bs) && Request(size, align)
    ensures align > 0
    ensures var r := Search(bs, size, align, 0);
      && ((r.Some? <==> Room(bs, size, align)) <==> !Misled(bs, size, align))
      && (!Misled(bs, size, align) && r.Some? ==> FirstFit(bs, size, align, r.value))
      && (Misled(bs, size, align) ==>
            r.Some? && r.value < |bs| && FalseFit(bs[r.value], size, align) && !Room(bs, size, align))
  {
    hide Sorted, Fits, FalseFit, Overflows, Judge, PowerOfTwo;
    PositiveAlign(align);
    SearchIs(bs, size, align, 0);
    var r := Search(bs, size, align, 0);
    if r.Some? {
      InSpaceAt(bs, r.value);
      JudgeIs(bs[r.value], size, align);
    }
    if j :| 0 <= j < |bs| && Fits(bs[j], size, align) {
      RoomNotMisled(bs, size, align, j);
    }
  }

  /** Room is enough for the search to be right. */
  lemma RoomNotMisled(bs: seq<Block>, size: nat, align: nat, j: nat)
    requires InSpace(bs) && Request(size, align) && align > 0 && j < |bs| && Fits(bs[j], size, align)
    ensures !Misled(bs, size, align)
  {
    hide Sorted, Fits, FalseFit, Overflows, PowerOfTwo;
    if i :| 0 <= i < |bs| && FalseFit(bs[i], size, align) && Reached(bs, size, align, i) {
      if i <= j {
        NoOverflowBefore(bs, size, align, i, j);
      }
    }
  }

  /** A false fit misleads the search of a list of its own. */
  lemma OneMisled(b: Block, size: nat, align: nat)
    requires BlockOk(b) && b.End() <= MAX_ADDR && Request(size, align) && align > 0 && FalseFit(b, size, align)
    ensures InSpace([b]) && Misled([b], size, align) && Search([b], size, align, 0) == Some(0)
    ensures !Room([b], size, align)
  {
    hide PowerOfTwo, FalseFit, Fits, Judge;
    var bs := [b];
    assert bs[0] == b && Reached(bs, size, align, 0);
    SearchRightIff(bs, size, align);
  }

  /** A free block where the kernel's image ends, and two layouts that mislead the
      search: one ends in the last seven bytes, the other aligns past the end. */
  lemma SearchCanBeMisled()
    ensures var bs := [Block(0xffff_ffff_8040_0000, 0x20_0000)];
      && InSpace(bs) && Request(0x7fbf_ffec, 1) && Request(64, 0x8000_0000)
      && Misled(bs, 0x7fbf_ffec, 1) && Search(bs, 0x7fbf_ffec, 1, 0) == Some(0) && !Room(bs, 0x7fbf_ffec, 1)
      && Misled(bs, 64, 0x8000_0000) && Search(bs, 64, 0x8000_0000, 0) == Some(0) && !Room(bs, 64, 0x8000_0000)
  {
    hide Misled, Search, Room, InSpace;
    var b := Block(0xffff_ffff_8040_0000, 0x20_0000);
    assert PowerOfTwo(0x8000_0000) by {
      assert PowerOfTwo(0x8000);
      PowerTimes(0x8000, 0x1_0000);
    }
    OneMisled(b, 0x7fbf_ffec, 1);
    OneMisled(b, 64, 0x8000_0000);
  }
}
