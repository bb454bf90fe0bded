/** The kernel heap's free list as a sequence of blocks, and as words in memory. */
module HeapList {

  const WORD: nat := 8
  const HEADER: nat := 16
  const MIN_FREE: nat := 16

  datatype Block = Block(start: nat, size: nat) {
    function End(): nat { start + size }

    predicate Has(a: nat) { start <= a < start + size }
  }

  /** A block that can carry its list node in place. */
  predicate BlockOk(b: Block) { 0 < b.start && b.start % WORD == 0 && b.size % WORD == 0 && b.size >= MIN_FREE }

  /** Address-sorted with a gap between neighbours: disjoint and fully merged. */
  ghost predicate Sorted(bs: seq<Block>) {
    && (forall i | 0 <= i < |bs| :: BlockOk(bs[i]))
    && (forall i | 0 <= i < |bs| - 1 :: bs[i].End() < bs[i + 1].start)
  }

  lemma {:induction false} SortedFar(bs: seq<Block>, i: nat, j: nat)
    requires Sorted(bs) && i < j < |bs|
    ensures bs[i].End() < bs[j].start
    decreases j
  {
    if i < j - 1 {
      SortedFar(bs, i, j - 1);
    }
  }

  /** Some block of the list contains `a`. */
  ghost predicate Covers(bs: seq<Block>, a: nat) { exists i | 0 <= i < |bs| :: bs[i].Has(a) }

  ghost predicate Apart(a: Block, b: Block) { a.End() <= b.start || b.End() <= a.start }

  function Sum(bs: seq<Block>): nat { if bs == [] then 0 else Sum(bs[..|bs| - 1]) + bs[|bs| - 1].size }

  lemma {:induction false} SumConcat(a: seq<Block>, b: seq<Block>)
    ensures Sum(a + b) == Sum(a) + Sum(b)
  {
    if b == [] {
      assert a + b == a;
    } else {
      SumConcat(a, b[..|b| - 1]);
      assert (a + b)[..|a + b| - 1] == a + b[..|b| - 1];
    }
  }

  // ---- inserting a region -----------------------------------------------------------------

  /** How many blocks start below `a`. */
  function Position(bs: seq<Block>, a: nat): (p: nat)
    ensures p <= |bs| && (forall i | 0 <= i < p :: bs[i].start < a) && (p < |bs| ==> a <= bs[p].start)
  {
    if bs == [] || a <= bs[0].start then 0 else 1 + Position(bs[1..], a)
  }

  /** `bs` with the blocks `[lo, hi)` replaced by `mid`. */
  function Splice(bs: seq<Block>, lo: nat, mid: seq<Block>, hi: nat): seq<Block>
    requires lo <= hi <= |bs|
  {
    bs[..lo] + mid + bs[hi..]
  }

  lemma SpliceAt(bs: seq<Block>, lo: nat, mid: seq<Block>, hi: nat, i: nat)
    requires lo <= hi <= |bs| && i < |Splice(bs, lo, mid, hi)|
    ensures |Splice(bs, lo, mid, hi)| == lo + |mid| + (|bs| - hi)
    ensures Splice(bs, lo, mid, hi)[i] ==
      if i < lo then bs[i] else if i < lo + |mid| then mid[i - lo] else bs[i - lo - |mid| + hi]
  {
  }

  lemma SpliceSum(bs: seq<Block>, lo: nat, mid: seq<Block>, hi: nat)
    requires lo <= hi <= |bs|
    ensures Sum(Splice(bs, lo, mid, hi)) + Sum(bs[lo..hi]) == Sum(bs) + Sum(mid)
  {
    SumConcat(bs[..lo] + mid, bs[hi..]);
    SumConcat(bs[..lo], mid);
    assert bs == bs[..lo] + bs[lo..hi] + bs[hi..];
    SumConcat(bs[..lo] + bs[lo..hi], bs[hi..]);
    SumConcat(bs[..lo], bs[lo..hi]);
  }

  /** At most one block put between two neighbours it does not touch. */
  lemma SpliceSorted(bs: seq<Block>, lo: nat, mid: seq<Block>, hi: nat)
    requires Sorted(bs) && lo <= hi <= |bs| && |mid| <= 1 && (mid == [] ==> lo < hi)
    requires mid != [] ==> BlockOk(mid[0])
    requires mid != [] && lo > 0 ==> bs[lo - 1].End() < mid[0].start
    requires mid != [] && hi < |bs| ==> mid[0].End() < bs[hi].start
    ensures Sorted(Splice(bs, lo, mid, hi))
  {
    hide Splice, BlockOk;
    var out := Splice(bs, lo, mid, hi);
    forall i | 0 <= i < |out|
      ensures BlockOk(out[i])
    {
      SpliceAt(bs, lo, mid, hi, i);
    }
    forall i | 0 <= i < |out| - 1
      ensures out[i].End() < out[i + 1].start
    {
      SpliceAt(bs, lo, mid, hi, i);
      SpliceAt(bs, lo, mid, hi, i + 1);
      if mid == [] && i == lo - 1 {
        SortedFar(bs, lo - 1, hi);
      }
    }
  }

  /** What a splice covers: the rest, and what the new block covers. */
  lemma SpliceCovers(bs: seq<Block>, lo: nat, mid: seq<Block>, hi: nat, a: nat)
    requires lo <= hi <= |bs|
    ensures Covers(Splice(bs, lo, mid, hi), a) <==>
      (exists i | 0 <= i < |bs| && !(lo <= i < hi) :: bs[i].Has(a)) || Covers(mid, a)
  {
    hide Splice;
    var out := Splice(bs, lo, mid, hi);
    if Covers(out, a) {
      var i :| 0 <= i < |out| && out[i].Has(a);
      SpliceAt(bs, lo, mid, hi, i);
    }
    SpliceLen(bs, lo, mid, hi);
    if i :| 0 <= i < |bs| && !(lo <= i < hi) && bs[i].Has(a) {
      var j := if i < lo then i else i - hi + lo + |mid|;
      SpliceAt(bs, lo, mid, hi, j);
      assert out[j].Has(a);
    }
    if Covers(mid, a) {
      var i :| 0 <= i < |mid| && mid[i].Has(a);
      SpliceAt(bs, lo, mid, hi, lo + i);
      assert out[lo + i].Has(a);
    }
  }

  lemma SpliceLen(bs: seq<Block>, lo: nat, mid: seq<Block>, hi: nat)
    requires lo <= hi <= |bs|
    ensures |Splice(bs, lo, mid, hi)| == lo + |mid| + (|bs| - hi)
  {
  }

  // ---- adding a region ---------------------------------------------------------------------

  predicate JoinsLeft(bs: seq<Block>, b: Block) {
    var p := Position(bs, b.start);
    p > 0 && bs[p - 1].End() == b.start
  }

  predicate JoinsRight(bs: seq<Block>, b: Block) {
    var p := Position(bs, b.start);
    p < |bs| && b.End() == bs[p].start
  }

  function Low(bs: seq<Block>, b: Block): nat {
    if JoinsLeft(bs, b) then Position(bs, b.start) - 1 else Position(bs, b.start)
  }

  function High(bs: seq<Block>, b: Block): nat {
    if JoinsRight(bs, b) then Position(bs, b.start) + 1 else Position(bs, b.start)
  }

  /** Region `b` together with the neighbours it touches. */
  function Merged(bs: seq<Block>, b: Block): Block {
    var p := Position(bs, b.start);
    Block(if JoinsLeft(bs, b) then bs[p - 1].start else b.start,
          (if JoinsLeft(bs, b) then bs[p - 1].size else 0) + b.size + (if JoinsRight(bs, b) then bs[p].size else 0))
  }

  /** The list with region `b` added and merged. */
  function Insert(bs: seq<Block>, b: Block): seq<Block> { Splice(bs, Low(bs, b), [Merged(bs, b)], High(bs, b)) }

  lemma InsertSum(bs: seq<Block>, b: Block)
    ensures Sum(Insert(bs, b)) == Sum(bs) + b.size
  {
    hide Splice;
    var lo, hi, m := Low(bs, b), High(bs, b), Merged(bs, b);
    SpliceSum(bs, lo, [m], hi);
    assert [m][..0] == [];
    SumUpTo2(bs, lo, hi);
  }

  lemma SumUpTo2(bs: seq<Block>, lo: nat, hi: nat)
    requires lo <= hi <= |bs| && hi <= lo + 2
    ensures Sum(bs[lo..hi]) == (if lo < hi then bs[lo].size else 0) + (if lo + 1 < hi then bs[lo + 1].size else 0)
  {
    var s := bs[lo..hi];
    if hi == lo + 2 {
      assert s == [bs[lo]] + [bs[lo + 1]];
      SumConcat([bs[lo]], [bs[lo + 1]]);
      assert [bs[lo]][..0] == [] && [bs[lo + 1]][..0] == [];
    } else if hi == lo + 1 {
      assert s[..0] == [];
    }
  }

  lemma InsertSorted(bs: seq<Block>, b: Block)
    requires Sorted(bs) && BlockOk(b) && forall i | 0 <= i < |bs| :: Apart(bs[i], b)
    ensures Sorted(Insert(bs, b))
  {
    hide Splice;
    var p, lo, hi, m := Position(bs, b.start), Low(bs, b), High(bs, b), Merged(bs, b);
    assert p > 0 ==> Apart(bs[p - 1], b);
    assert p < |bs| ==> Apart(bs[p], b);
    SpliceSorted(bs, lo, [m], hi);
  }

  /** It covers what was covered and the region, and nothing else. */
  lemma InsertCovers(bs: seq<Block>, b: Block, a: nat)
    requires Sorted(bs) && BlockOk(b) && forall i | 0 <= i < |bs| :: Apart(bs[i], b)
    ensures Covers(Insert(bs, b), a) <==> Covers(bs, a) || b.Has(a)
  {
    hide Splice, Sorted, BlockOk;
    var p, lo, hi, m := Position(bs, b.start), Low(bs, b), High(bs, b), Merged(bs, b);
    SpliceCovers(bs, lo, [m], hi, a);
    assert Covers([m], a) <==> m.Has(a) by {
      assert [m][0] == m;
    }
    assert m.Has(a) <==> b.Has(a) || (JoinsLeft(bs, b) && bs[p - 1].Has(a)) || (JoinsRight(bs, b) && bs[p].Has(a));
    if Covers(bs, a) {
      var i :| 0 <= i < |bs| && bs[i].Has(a);
      assert lo <= i < hi ==> m.Has(a);
    }
    if m.Has(a) && !b.Has(a) {
      assert Covers(bs, a) by {
        assert bs[if JoinsLeft(bs, b) && bs[p - 1].Has(a) then p - 1 else p].Has(a);
      }
    }
  }
}
