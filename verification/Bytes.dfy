/** Fixed-width integers and their little-endian byte encodings, shared by every
    on-disk format of the system. */
module Bytes {

  newtype u8 = x: int | 0 <= x < 0x100
  type u16 = x: int | 0 <= x < 0x1_0000
  type u32 = x: int | 0 <= x < 0x1_0000_0000
  type u64 = x: int | 0 <= x < 0x1_0000_0000_0000_0000

  datatype Option<+T> = None | Some(value: T)

  function Min(a: nat, b: nat): nat { if a < b then a else b }

  function Max(a: nat, b: nat): nat { if a < b then b else a }

  predicate PowerOfTwo(n: nat) { n == 1 || (n > 0 && n % 2 == 0 && PowerOfTwo(n / 2)) }

  function Pow256(n: nat): (p: nat)
    ensures p >= 1
  {
    if n == 0 then 1 else 256 * Pow256(n - 1)
  }

  lemma Pow256Values()
    ensures Pow256(1) == 0x100 && Pow256(2) == 0x1_0000
    ensures Pow256(4) == 0x1_0000_0000
    ensures Pow256(8) == 0x1_0000_0000_0000_0000
  {
    assert Pow256(3) == 0x100_0000;
    assert Pow256(5) == 0x100_0000_0000;
    assert Pow256(6) == 0x1_0000_0000_0000;
    assert Pow256(7) == 0x100_0000_0000_0000;
  }

  /** The low `n` bytes of `x`, least significant first. */
  function LE(x: nat, n: nat): (s: seq<u8>)
    ensures |s| == n
  {
    if n == 0 then [] else [(x % 256) as u8] + LE(x / 256, n - 1)
  }

  /** The number a little-endian byte string denotes. */
  function FromLE(s: seq<u8>): (x: nat)
  {
    if s == [] then 0 else s[0] as nat + 256 * FromLE(s[1..])
  }

  lemma {:induction false} FromLEBound(s: seq<u8>)
    ensures FromLE(s) < Pow256(|s|)
  {
    if s != [] {
      FromLEBound(s[1..]);
    }
  }

  /** Encoding then decoding keeps exactly the low `n` bytes. */
  lemma {:induction false} FromLEOfLE(x: nat, n: nat)
    ensures FromLE(LE(x, n)) == x % Pow256(n)
  {
    if n == 0 {
    } else {
      FromLEOfLE(x / 256, n - 1);
      assert LE(x, n)[1..] == LE(x / 256, n - 1);
      ModStep(x, Pow256(n - 1));
    }
  }

  lemma {:induction false} LEOfFromLE(s: seq<u8>)
    ensures LE(FromLE(s), |s|) == s
  {
    if s != [] {
      LEOfFromLE(s[1..]);
      assert s == [s[0]] + s[1..];
    }
  }

  lemma LEMod(x: nat, n: nat)
    ensures LE(x % Pow256(n), n) == LE(x, n)
  {
    FromLEOfLE(x, n);
    LEOfFromLE(LE(x, n));
  }

  lemma ModStep(x: nat, m: nat)
    requires m > 0
    ensures x % 256 + 256 * ((x / 256) % m) == x % (256 * m)
  {
    var q := (x / 256) / m;
    var r := x % 256 + 256 * ((x / 256) % m);
    assert x == (256 * m) * q + r by {
      assert x == 256 * (x / 256) + x % 256;
      assert x / 256 == m * q + (x / 256) % m;
    }
    assert 0 <= r < 256 * m;
    DivModUnique(x, 256 * m, q, r);
  }

  lemma MulMono(a: int, b: int, d: int)
    requires a <= b && d >= 0
    ensures d * a <= d * b
  {
    assert d * (b - a) >= 0;
  }

  lemma DivModUnique(x: int, d: int, q: int, r: int)
    requires d > 0 && x == d * q + r && 0 <= r < d
    ensures x / d == q && x % d == r
  {
    var q' := x / d;
    assert d * (q + 1) == d * q + d && d * (q' + 1) == d * q' + d;
    if q' > q {
      MulMono(q + 1, q', d);
    } else if q' < q {
      MulMono(q' + 1, q, d);
    }
  }

  lemma LE16(x: u16)
    ensures FromLE(LE(x, 2)) == x
  {
    FromLEOfLE(x, 2);
    Pow256Values();
  }

  lemma LE32(x: u32)
    ensures FromLE(LE(x, 4)) == x
  {
    FromLEOfLE(x, 4);
    Pow256Values();
  }

  lemma LE64(x: u64)
    ensures FromLE(LE(x, 8)) == x
  {
    FromLEOfLE(x, 8);
    Pow256Values();
  }

  function Zeros(n: nat): (s: seq<u8>)
    ensures |s| == n && forall i | 0 <= i < n :: s[i] == 0
  {
    seq(n, i => 0)
  }
}
