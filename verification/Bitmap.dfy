/** Allocation bitmaps: one bit per block or frame, least significant bit first,
    and the set of used positions such a bitmap stands for. */
module Bitmap {
  import opened Bytes
  import Crc

  predicate TestBit(b: nat, k: nat) {
    if k == 0 then b % 2 == 1 else TestBit(b / 2, k - 1)
  }

  predicate BitGet(bm: seq<u8>, i: nat) {
    i / 8 < |bm| && TestBit(bm[i / 8] as nat, i % 8)
  }

  /** The blocks whose bits are set. */
  function Unpack(bm: seq<u8>): set<nat> {
    set i | 0 <= i < |bm| * 8 && BitGet(bm, i)
  }

  lemma UnpackHas(bm: seq<u8>, i: nat)
    ensures i in Unpack(bm) <==> BitGet(bm, i)
  {
  }

  function PackBits(used: set<nat>, base: nat, w: nat): (r: nat)
    ensures r < Crc.Pow2(w)
    decreases w, used
  {
    if w == 0 then 0 else (if base in used then 1 else 0) + 2 * PackBits(used, base + 1, w - 1)
  }

  function PackByte(used: set<nat>, base: nat): u8 {
    assert Crc.Pow2(8) == 256;
    PackBits(used, base, 8) as u8
  }

  function Pack(used: set<nat>, n: nat): (bm: seq<u8>)
    ensures |bm| == n
  {
    seq(n, i requires 0 <= i < n => PackByte(used, i * 8))
  }

  lemma {:induction false} PackBitsTest(used: set<nat>, base: nat, w: nat, k: nat)
    requires k < w
    ensures TestBit(PackBits(used, base, w), k) == (base + k in used)
    decreases w
  {
    if k > 0 {
      PackBitsTest(used, base + 1, w - 1, k - 1);
    }
  }

  /** A byte is determined by its bits. */
  lemma {:induction false} PackBitsUnique(used: set<nat>, base: nat, w: nat, b: nat)
    requires b < Crc.Pow2(w) && forall k: nat | k < w :: TestBit(b, k) == (base + k in used)
    ensures PackBits(used, base, w) == b
    decreases w
  {
    if w > 0 {
      assert TestBit(b, 0) == (base + 0 in used);
      forall k: nat | k < w - 1
        ensures TestBit(b / 2, k) == (base + 1 + k in used)
      {
        assert TestBit(b, k + 1) == (base + (k + 1) in used);
      }
      PackBitsUnique(used, base + 1, w - 1, b / 2);
    }
  }

  lemma PackGet(used: set<nat>, n: nat, i: nat)
    ensures BitGet(Pack(used, n), i) <==> i < n * 8 && i in used
  {
    if i < n * 8 {
      PackBitsTest(used, i / 8 * 8, 8, i % 8);
    }
  }

  /** Packing and unpacking are inverse to each other. */
  lemma UnpackPack(used: set<nat>, n: nat)
    requires forall i | i in used :: i < n * 8
    ensures Unpack(Pack(used, n)) == used
  {
    forall i: nat
      ensures i in Unpack(Pack(used, n)) <==> i in used
    {
      PackGet(used, n, i);
    }
  }

  lemma PackUnpack(bm: seq<u8>)
    ensures Pack(Unpack(bm), |bm|) == bm
  {
    var used := Unpack(bm);
    forall j | 0 <= j < |bm|
      ensures Pack(used, |bm|)[j] == bm[j]
    {
      var b := bm[j] as nat;
      assert Crc.Pow2(8) == 256;
      forall k: nat | k < 8
        ensures TestBit(b, k) == (j * 8 + k in used)
      {
        assert (j * 8 + k) / 8 == j && (j * 8 + k) % 8 == k;
      }
      PackBitsUnique(used, j * 8, 8, b);
    }
  }

  // ---- changing one bit in place ---------------------------------------------------

  /** `b` with bit `k` forced to `v`, within `w` bits. */
  function PutBit(b: nat, k: nat, v: bool, w: nat): (r: nat)
    requires b < Crc.Pow2(w) && k < w
    ensures r < Crc.Pow2(w)
    decreases k, w
  {
    if k == 0 then
      var r := b - b % 2 + (if v then 1 else 0);
      assert r <= 2 * (b / 2) + 1 && b / 2 < Crc.Pow2(w - 1);
      r
    else b % 2 + 2 * PutBit(b / 2, k - 1, v, w - 1)
  }

  lemma {:induction false} PutBitTest(b: nat, k: nat, v: bool, w: nat, j: nat)
    requires b < Crc.Pow2(w) && k < w
    ensures TestBit(PutBit(b, k, v, w), j) == if j == k then v else TestBit(b, j)
    decreases k
  {
    if k > 0 && j > 0 {
      PutBitTest(b / 2, k - 1, v, w - 1, j - 1);
    }
  }

  /** `bit_set` and `bit_clear`. */
  function BitPut(bm: seq<u8>, i: nat, v: bool): (r: seq<u8>)
    ensures |r| == |bm|
  {
    if i / 8 < |bm| then
      assert Crc.Pow2(8) == 256;
      bm[i / 8 := PutBit(bm[i / 8] as nat, i % 8, v, 8) as u8]
    else bm
  }

  lemma BitPutGet(bm: seq<u8>, i: nat, v: bool, j: nat)
    requires i < |bm| * 8
    ensures BitGet(BitPut(bm, i, v), j) == if j == i then v else BitGet(bm, j)
  {
    assert Crc.Pow2(8) == 256;
    if i / 8 == j / 8 {
      PutBitTest(bm[i / 8] as nat, i % 8, v, 8, j % 8);
    }
  }

  lemma UnpackPut(bm: seq<u8>, i: nat, v: bool)
    requires i < |bm| * 8
    ensures Unpack(BitPut(bm, i, v)) == if v then Unpack(bm) + {i} else Unpack(bm) - {i}
  {
    forall j: nat
      ensures j in Unpack(BitPut(bm, i, v)) <==> j < |bm| * 8 && if j == i then v else BitGet(bm, j)
    {
      BitPutGet(bm, i, v, j);
    }
  }
}
