/** CRC-32 (reflected polynomial 0xEDB88320) as the storage code computes it. */
module Crc {
  import opened Bytes

  function Pow2(n: nat): nat {
    if n == 0 then 1 else 2 * Pow2(n - 1)
  }

  /** Bitwise exclusive or of the low `w` bits. */
  function XorBits(a: nat, b: nat, w: nat): (r: nat)
    ensures r < Pow2(w)
    decreases w, a
  {
    if w == 0 then 0 else (a + b) % 2 + 2 * XorBits(a / 2, b / 2, w - 1)
  }

  function Xor(a: u32, b: u32): (r: u32) {
    var r := XorBits(a, b, 32);
    assert Pow2(8) == 0x100 && Pow2(16) == 0x1_0000 && Pow2(24) == 0x100_0000;
    r
  }

  /** One round of the bit loop: shift right, and fold in the polynomial when
      the bit shifted out was set. */
  function Round(crc: u32): u32 {
    if crc % 2 == 1 then Xor(crc / 2, 0xedb8_8320) else crc / 2
  }

  function Rounds(crc: u32, n: nat): u32
    decreases n, crc
  {
    if n == 0 then crc else Rounds(Round(crc), n - 1)
  }

  function Update(crc: u32, data: seq<u8>): u32
    decreases |data|
  {
    if data == [] then crc
    else Rounds(Xor(Update(crc, data[..|data| - 1]), data[|data| - 1] as int), 8)
  }

  function Crc32(data: seq<u8>): (r: u32) {
    0xffff_ffff - Update(0xffff_ffff, data)
  }

  /** Feeding a string in two pieces is the same as feeding it whole. */
  lemma {:induction false} UpdateConcat(crc: u32, a: seq<u8>, b: seq<u8>)
    ensures Update(crc, a + b) == Update(Update(crc, a), b)
    decreases |b|
  {
    if b == [] {
      assert a + b == a;
    } else {
      UpdateConcat(crc, a, b[..|b| - 1]);
      assert (a + b)[..|a + b| - 1] == a + b[..|b| - 1];
    }
  }

  /** The streaming checksum state. */
  class Stream {
    var state: u32
    ghost var fed: seq<u8>

    ghost predicate Valid()
      reads this
    {
      state == Update(0xffff_ffff, fed)
    }

    constructor ()
      ensures Valid() && fed == []
    {
      state := 0xffff_ffff;
      fed := [];
    }

    method Feed(data: seq<u8>)
      requires Valid()
      modifies this
      ensures Valid() && fed == old(fed) + data
    {
      ghost var start := fed;
      var i := 0;
      while i < |data|
        invariant 0 <= i <= |data|
        invariant Valid() && fed == start + data[..i]
      {
        hide Xor, Round;
        var crc := Xor(state, data[i] as int);
        var k := 0;
        while k < 8
          invariant 0 <= k <= 8
          invariant Rounds(crc, 8 - k) == Rounds(Xor(state, data[i] as int), 8)
        {
          crc := Round(crc);
          k := k + 1;
        }
        state := crc;
        assert (fed + [data[i]])[..|fed|] == fed;
        fed := fed + [data[i]];
        assert data[..i + 1] == data[..i] + [data[i]];
        i := i + 1;
      }
      assert data[..i] == data;
    }

    method Finish() returns (r: u32)
      requires Valid()
      ensures r == Crc32(fed)
    {
      r := 0xffff_ffff - state;
    }
  }
}
