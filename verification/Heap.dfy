/** The kernel heap: free blocks linked through their own first words, headers in
    front of every payload, growth by whole regions. */
module Heap {
  import opened HeapList

  const MAX_ADDR: nat := 0xffff_ffff_ffff_ffff
  const PAGE_SIZE: nat := 4096
  const GROW_CHUNK: nat := 1024 * 1024

  // ---- words ------------------------------------------------------------------------------

  type Memory = map<nat, nat>

  function Word(mem: Memory, a: nat): nat { if a in mem then mem[a] else 0 }

  function At(bs: seq<Block>, i: nat): nat { if i < |bs| then bs[i].start else 0 }

  /** The list `bs` is laid out in memory from `head` on: each block holds its
      size and the address of the next. */
  ghost predicate Linked(mem: Memory, head: nat, bs: seq<Block>) {
    head == At(bs, 0) && forall i | 0 <= i < |bs| :: LinkAt(mem, bs, i)
  }

  ghost predicate LinkAt(mem: Memory, bs: seq<Block>, i: nat)
    requires i < |bs|
  {
    NodeAt(mem, bs[i], At(bs, i + 1))
  }

  ghost predicate NodeAt(mem: Memory, b: Block, next: nat) {
    Word(mem, b.start) == b.size && Word(mem, b.start + WORD) == next
  }

  /** No two nodes share a word. */
  ghost predicate Spaced(bs: seq<Block>) {
    && (forall i | 0 <= i < |bs| :: bs[i].start > 0)
    && forall i, j | 0 <= i < j < |bs| :: bs[i].start + 2 * WORD <= bs[j].start
  }

  lemma SortedSpaced(bs: seq<Block>)
    requires Sorted(bs)
    ensures Spaced(bs)
  {
    forall i, j | 0 <= i < j < |bs|
      ensures bs[i].start + 2 * WORD <= bs[j].start
    {
      SortedFar(bs, i, j);
      assert BlockOk(bs[i]);
    }
  }

  lemma SpacedAt(bs: seq<Block>, i: nat, j: nat)
    requires Spaced(bs) && i < j < |bs|
    ensures bs[i].start + 2 * WORD <= bs[j].start
  {
  }

  lemma LinkedAt(mem: Memory, head: nat, bs: seq<Block>, i: nat)
    requires Linked(mem, head, bs) && i < |bs|
    ensures NodeAt(mem, bs[i], At(bs, i + 1))
  {
    assert LinkAt(mem, bs, i);
  }

  /** Linking a new node between positions `p - 1` and `p`. */
  function LinkIn(mem: Memory, bs: seq<Block>, p: nat, b: Block): Memory
    requires p <= |bs|
  {
    var m := mem[b.start := b.size][b.start + WORD := At(bs, p)];
    if p == 0 then m else m[bs[p - 1].start + WORD := b.start]
  }

  lemma LinkInsert(mem: Memory, head: nat, bs: seq<Block>, p: nat, b: Block)
    requires Linked(mem, head, bs) && p <= |bs| && Spaced(Splice(bs, p, [b], p))
    ensures Linked(LinkIn(mem, bs, p, b), if p == 0 then b.start else head, Splice(bs, p, [b], p))
  {
    hide Splice, NodeAt, Spaced, LinkIn;
    var out, m := Splice(bs, p, [b], p), LinkIn(mem, bs, p, b);
    SpliceLen(bs, p, [b], p);
    SpliceAt(bs, p, [b], p, 0);
    forall i | 0 <= i < |out|
      ensures LinkAt(m, out, i)
    {
      LinkInsertAt(mem, head, bs, p, b, i);
    }
  }

  lemma LinkInsertAt(mem: Memory, head: nat, bs: seq<Block>, p: nat, b: Block, i: nat)
    requires Linked(mem, head, bs) && p <= |bs| && Spaced(Splice(bs, p, [b], p)) && i < |bs| + 1
    ensures |Splice(bs, p, [b], p)| == |bs| + 1
    ensures NodeAt(LinkIn(mem, bs, p, b), Splice(bs, p, [b], p)[i], At(Splice(bs, p, [b], p), i + 1))
  {
    hide Splice, Spaced, Linked;
    var out := Splice(bs, p, [b], p);
    SpliceLen(bs, p, [b], p);
    SpliceAt(bs, p, [b], p, i);
    SpliceAt(bs, p, [b], p, p);
    if i + 1 < |out| {
      SpliceAt(bs, p, [b], p, i + 1);
    }
    if p > 0 {
      SpliceAt(bs, p, [b], p, p - 1);
      SpacedAt(out, p - 1, p);
    }
    if i < p {
      LinkedAt(mem, head, bs, i);
      SpacedAt(out, i, p);
      if i < p - 1 {
        SpacedAt(out, i, p - 1);
      }
    } else if i > p {
      LinkedAt(mem, head, bs, i - 1);
      SpacedAt(out, p, i);
      if p > 0 {
        SpacedAt(out, p - 1, i);
      }
    }
  }

  /** Absorbing node `i + 1` into node `i`. */
  function Absorb(mem: Memory, bs: seq<Block>, i: nat): Memory
    requires i + 1 < |bs|
  {
    mem[bs[i].start := bs[i].size + bs[i + 1].size][bs[i].start + WORD := At(bs, i + 2)]
  }

  function Joined(bs: seq<Block>, i: nat): seq<Block>
    requires i + 1 < |bs|
  {
    Splice(bs, i, [Block(bs[i].start, bs[i].size + bs[i + 1].size)], i + 2)
  }

  /** Node `x` of the joined list is an old node, but for the absorbing one. */
  lemma JoinedAt(bs: seq<Block>, i: nat, x: nat)
    requires i + 1 < |bs| && x < |bs| - 1
    ensures |Joined(bs, i)| == |bs| - 1
    ensures Joined(bs, i)[x] ==
      if x < i then bs[x] else if x == i then Block(bs[i].start, bs[i].size + bs[i + 1].size) else bs[x + 1]
  {
    SpliceLen(bs, i, [Block(bs[i].start, bs[i].size + bs[i + 1].size)], i + 2);
    SpliceAt(bs, i, [Block(bs[i].start, bs[i].size + bs[i + 1].size)], i + 2, x);
  }

  lemma LinkAbsorb(mem: Memory, head: nat, bs: seq<Block>, i: nat)
    requires Linked(mem, head, bs) && Spaced(bs) && i + 1 < |bs|
    ensures Linked(Absorb(mem, bs, i), head, Joined(bs, i)) && Spaced(Joined(bs, i))
  {
    hide Joined, NodeAt, Absorb;
    var out, m := Joined(bs, i), Absorb(mem, bs, i);
    JoinedAt(bs, i, 0);
    forall x | 0 <= x < |out|
      ensures LinkAt(m, out, x)
    {
      LinkAbsorbAt(mem, head, bs, i, x);
    }
    forall x | 0 <= x < |out|
      ensures out[x].start == bs[if x <= i then x else x + 1].start
    {
      JoinedAt(bs, i, x);
    }
  }

  lemma LinkAbsorbAt(mem: Memory, head: nat, bs: seq<Block>, i: nat, x: nat)
    requires Linked(mem, head, bs) && Spaced(bs) && i + 1 < |bs| && x < |bs| - 1
    ensures |Joined(bs, i)| == |bs| - 1
    ensures NodeAt(Absorb(mem, bs, i), Joined(bs, i)[x], At(Joined(bs, i), x + 1))
  {
    hide Joined, Spaced, Linked;
    JoinedAt(bs, i, x);
    if x + 1 < |bs| - 1 {
      JoinedAt(bs, i, x + 1);
    }
    var y := if x <= i then x else x + 1;
    LinkedAt(mem, head, bs, y);
    if y < i {
      SpacedAt(bs, y, i);
    } else if y > i {
      SpacedAt(bs, i, y);
    }
  }

  function Merge(x: Block, y: Block): Block { Block(x.start, x.size + y.size) }

  lemma JoinedIs(a: seq<Block>, x: Block, y: Block, c: seq<Block>)
    ensures var bs := a + [x, y] + c; |a| + 1 < |bs| && Joined(bs, |a|) == a + [Merge(x, y)] + c
  {
    var bs := a + [x, y] + c;
    assert bs[..|a|] == a && bs[|a|] == x && bs[|a| + 1] == y && bs[|a| + 2..] == c;
  }

  /** Linking in and absorbing right, then left, is the merged insertion. */
  lemma InsertByMerging(bs: seq<Block>, b: Block)
    ensures var p := Position(bs, b.start);
      var s1 := Splice(bs, p, [b], p);
      && |s1| == |bs| + 1
      && var s2 := if JoinsRight(bs, b) then Joined(s1, p) else s1;
         && (p > 0 ==> p < |s2|)
         && Insert(bs, b) == if JoinsLeft(bs, b) then Joined(s2, p - 1) else s2
  {
    hide Joined, Position;
    var p := Position(bs, b.start);
    var left, right := bs[..p], bs[p..];
    var s1 := Splice(bs, p, [b], p);
    var mid, rest := b, right;
    if JoinsRight(bs, b) {
      mid, rest := Merge(b, bs[p]), bs[p + 1..];
      assert s1 == left + [b, bs[p]] + rest;
      JoinedIs(left, b, bs[p], rest);
    }
    var s2 := if JoinsRight(bs, b) then Joined(s1, p) else s1;
    assert s2 == left + [mid] + rest;
    if JoinsLeft(bs, b) {
      assert s2 == bs[..p - 1] + [bs[p - 1], mid] + rest;
      JoinedIs(bs[..p - 1], bs[p - 1], mid, rest);
    }
  }

  /** Replacing node `i` by at most one node in its place. */
  function Relink(mem: Memory, bs: seq<Block>, i: nat, mid: seq<Block>): Memory
    requires i < |bs| && |mid| <= 1
  {
    var next := At(bs, i + 1);
    var m := if mid == [] then mem else mem[mid[0].start := mid[0].size][mid[0].start + WORD := next];
    if i == 0 then m else m[bs[i - 1].start + WORD := if mid == [] then next else mid[0].start]
  }

  lemma LinkReplaceAt(mem: Memory, head: nat, bs: seq<Block>, i: nat, mid: seq<Block>, x: nat)
    requires Linked(mem, head, bs) && i < |bs| && |mid| <= 1 && Spaced(Splice(bs, i, mid, i + 1)) && Spaced(bs)
    requires x < |bs| - 1 + |mid|
    ensures |Splice(bs, i, mid, i + 1)| == |bs| - 1 + |mid|
    ensures NodeAt(Relink(mem, bs, i, mid), Splice(bs, i, mid, i + 1)[x], At(Splice(bs, i, mid, i + 1), x + 1))
  {
    hide Splice, Spaced, Linked;
    var out := Splice(bs, i, mid, i + 1);
    SpliceLen(bs, i, mid, i + 1);
    SpliceAt(bs, i, mid, i + 1, x);
    if x + 1 < |out| {
      SpliceAt(bs, i, mid, i + 1, x + 1);
    }
    if i < |out| {
      SpliceAt(bs, i, mid, i + 1, i);
    }
    if i > 0 {
      SpliceAt(bs, i, mid, i + 1, i - 1);
    }
    if x < i {
      LinkedAt(mem, head, bs, x);
      if x < i - 1 {
        SpacedAt(out, x, i - 1);
      }
      if mid != [] {
        SpacedAt(out, x, i);
      }
    } else {
      if x >= i + |mid| {
        LinkedAt(mem, head, bs, x - |mid| + 1);
        if mid != [] {
          SpacedAt(out, i, x);
        }
      }
      if i > 0 {
        SpacedAt(out, i - 1, x);
      }
    }
  }

  lemma LinkReplace(mem: Memory, head: nat, bs: seq<Block>, i: nat, mid: seq<Block>)
    requires Linked(mem, head, bs) && i < |bs| && |mid| <= 1 && Spaced(Splice(bs, i, mid, i + 1)) && Spaced(bs)
    ensures Linked(Relink(mem, bs, i, mid), if i > 0 then head else if mid == [] then At(bs, 1) else mid[0].start,
                   Splice(bs, i, mid, i + 1))
  {
    hide Splice, NodeAt, Spaced, Relink;
    var out, m := Splice(bs, i, mid, i + 1), Relink(mem, bs, i, mid);
    SpliceLen(bs, i, mid, i + 1);
    if |out| > 0 {
      SpliceAt(bs, i, mid, i + 1, 0);
    }
    forall x | 0 <= x < |out|
      ensures LinkAt(m, out, x)
    {
      LinkReplaceAt(mem, head, bs, i, mid, x);
    }
  }

  /** A word that belongs to no node may be written freely. */
  lemma LinkedStays(mem: Memory, head: nat, bs: seq<Block>, a: nat, x: nat)
    requires Linked(mem, head, bs) && forall i | 0 <= i < |bs| :: a != bs[i].start && a != bs[i].start + WORD
    ensures Linked(mem[a := x], head, bs)
  {
    var m := mem[a := x];
    forall i | 0 <= i < |bs|
      ensures LinkAt(m, bs, i)
    {
      assert LinkAt(mem, bs, i);
    }
  }
}
