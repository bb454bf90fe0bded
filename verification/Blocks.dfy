/** A whole block device: numbered blocks of one size, reads and writes of
    several blocks at a time, either of which may fail. */
module Blocks {
  import opened Bytes

  type Sectors = seq<seq<u8>>

  predicate Sized(s: Sectors, size: nat) { forall i | 0 <= i < |s| :: |s[i]| == size }

  /** The bytes of consecutive blocks. */
  function Flat(s: Sectors): seq<u8> {
    if s == [] then [] else Flat(s[..|s| - 1]) + s[|s| - 1]
  }

  lemma MulNext(n: nat, size: nat)
    ensures (n + 1) * size == n * size + size
  {
  }

  lemma MulUpTo(n: nat, m: nat, size: nat)
    requires n <= m
    ensures n * size <= m * size
  {
    MulMono(n, m, size);
  }

  lemma {:induction false} FlatLen(s: Sectors, size: nat)
    requires Sized(s, size)
    ensures |Flat(s)| == |s| * size
  {
    if s != [] {
      FlatLen(s[..|s| - 1], size);
      MulNext(|s| - 1, size);
    }
  }

  lemma FlatSnoc(s: Sectors, b: seq<u8>)
    ensures Flat(s + [b]) == Flat(s) + b
  {
    assert (s + [b])[..|s|] == s;
  }

  lemma {:induction false} FlatConcat(a: Sectors, b: Sectors)
    ensures Flat(a + b) == Flat(a) + Flat(b)
    decreases |b|
  {
    if b == [] {
      assert a + b == a;
    } else {
      hide Flat;
      var p, last := b[..|b| - 1], b[|b| - 1];
      FlatConcat(a, p);
      assert b == p + [last] && a + b == (a + p) + [last];
      FlatSnoc(p, last);
      FlatSnoc(a + p, last);
    }
  }

  /** Byte `at` of block `k` is byte `k * size + at` of the whole. */
  lemma FlatSlice(s: Sectors, size: nat, k: nat, at: nat, len: nat)
    requires Sized(s, size) && k < |s| && at + len <= size
    ensures |Flat(s)| == |s| * size && k * size + at + len <= |s| * size
    ensures Flat(s)[k * size + at..k * size + at + len] == s[k][at..at + len]
  {
    FlatLen(s, size);
    FlatLen(s[..k], size);
    MulNext(k, size);
    MulUpTo(k + 1, |s|, size);
    FlatAround(s, k);
    SliceInside(Flat(s[..k]), s[k], Flat(s[k + 1..]), at, len);
  }

  lemma FlatAround(s: Sectors, k: nat)
    requires k < |s|
    ensures Flat(s) == Flat(s[..k]) + s[k] + Flat(s[k + 1..])
  {
    hide Flat;
    SplitAt(s, k);
    FlatThree(s[..k], s[k], s[k + 1..]);
  }

  lemma SplitAt(s: Sectors, k: nat)
    requires k < |s|
    ensures s == s[..k] + [s[k]] + s[k + 1..]
  {
  }

  lemma FlatThree(a: Sectors, b: seq<u8>, c: Sectors)
    ensures Flat(a + [b] + c) == Flat(a) + b + Flat(c)
  {
    hide Flat;
    FlatConcat(a + [b], c);
    FlatConcat(a, [b]);
    FlatOne(b);
  }

  lemma SliceInside(a: seq<u8>, b: seq<u8>, c: seq<u8>, at: nat, len: nat)
    requires at + len <= |b|
    ensures (a + b + c)[|a| + at..|a| + at + len] == b[at..at + len]
  {
  }

  lemma FlatOne(b: seq<u8>)
    ensures Flat([b]) == b
  {
    assert [b][..0] == [];
  }

  /** `data` cut into blocks. */
  function Cut(data: seq<u8>, size: nat): Sectors
    requires size > 0
    decreases |data|
  {
    if |data| < size then [] else [data[..size]] + Cut(data[size..], size)
  }

  lemma {:induction false} CutIs(data: seq<u8>, size: nat, n: nat)
    requires size > 0 && |data| == n * size
    ensures |Cut(data, size)| == n && Sized(Cut(data, size), size) && Flat(Cut(data, size)) == data
    decreases n
  {
    if n == 0 {
    } else {
      MulNext(n - 1, size);
      CutIs(data[size..], size, n - 1);
      FlatConcat([data[..size]], Cut(data[size..], size));
      FlatOne(data[..size]);
      assert data == data[..size] + data[size..];
    }
  }

  /** `b` differs from `a` at most in blocks `[lo, hi)`. */
  ghost predicate Same(a: Sectors, b: Sectors, lo: nat, hi: nat) {
    |a| == |b| && forall i | 0 <= i < |a| && !(lo <= i < hi) :: a[i] == b[i]
  }

  lemma Spliced(s: Sectors, size: nat, lba: nat, data: Sectors)
    requires Sized(s, size) && Sized(data, size) && lba + |data| <= |s|
    ensures var r := s[..lba] + data + s[lba + |data|..];
      Sized(r, size) && Same(s, r, lba, lba + |data|) && r[lba..lba + |data|] == data
  {
    var r := s[..lba] + data + s[lba + |data|..];
    forall i | 0 <= i < |r|
      ensures |r[i]| == size
    {
      assert r[i] == if lba <= i < lba + |data| then data[i - lba] else s[i];
    }
  }

  class Drive {
    const size: nat
    const readonly: bool
    var blocks: Sectors
    /** How many requests the device has failed. */
    ghost var faults: nat

    ghost predicate Valid()
      reads this
    {
      0 < size && Sized(blocks, size) && |blocks| < 0x1_0000_0000_0000_0000
    }

    constructor (size: nat, readonly: bool, blocks: Sectors)
      requires 0 < size && Sized(blocks, size) && |blocks| < 0x1_0000_0000_0000_0000
      ensures Valid() && this.size == size && this.readonly == readonly && this.blocks == blocks && faults == 0
    {
      this.size, this.readonly, this.blocks := size, readonly, blocks;
      faults := 0;
    }

    /** Reads `count` blocks, or fails; asking for none is refused. */
    method Read(lba: nat, count: nat) returns (r: Option<Sectors>)
      requires Valid()
      modifies this`faults
      ensures r.Some? ==> 0 < count && lba + count <= |blocks|
      ensures r.Some? ==> r.value == blocks[lba..lba + count] && faults == old(faults)
      ensures r.None? ==> count == 0 || lba + count > |blocks| || faults > old(faults)
      ensures faults >= old(faults)
    {
      if count == 0 || lba + count > |blocks| {
        return None;
      }
      var ok: bool := *;
      if !ok {
        faults := faults + 1;
        return None;
      }
      return Some(blocks[lba..lba + count]);
    }

    /** Writes consecutive blocks; a failed write may leave anything in them. An
        empty write is refused. */
    method Write(lba: nat, data: Sectors) returns (ok: bool)
      requires Valid() && Sized(data, size)
      modifies this
      ensures Valid() && Same(old(blocks), blocks, lba, lba + |data|)
      ensures ok ==> data != [] && lba + |data| <= |blocks|
      ensures ok ==> blocks[lba..lba + |data|] == data && faults == old(faults)
      ensures !ok ==> data == [] || lba + |data| > |blocks| || faults > old(faults)
      ensures faults >= old(faults)
    {
      if data == [] || lba + |data| > |blocks| {
        return false;
      }
      ok := *;
      var landed := data;
      if !ok {
        landed :| |landed| == |data| && Sized(landed, size);
        faults := faults + 1;
      }
      Spliced(blocks, size, lba, landed);
      blocks := blocks[..lba] + landed + blocks[lba + |data|..];
    }
  }
}
