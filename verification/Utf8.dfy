/** Well-formed UTF-8 byte strings (Table 3-7 of the Unicode Standard), the
    check a stored path has to pass. */
module Utf8 {
  import opened Bytes

  predicate Continuation(b: u8) { 0x80 <= b <= 0xbf }

  /** Length of the well-formed character `s` starts with, 0 if there is none. */
  function CharLen(s: seq<u8>): (n: nat)
    ensures n <= |s| && n <= 4
  {
    if s == [] then 0
    else if s[0] < 0x80 then 1
    else if |s| >= 2 && 0xc2 <= s[0] <= 0xdf && Continuation(s[1]) then 2
    else if |s| >= 3 && 0xe0 <= s[0] <= 0xef && Continuation(s[1]) && Continuation(s[2])
         && (s[0] == 0xe0 ==> s[1] >= 0xa0) && (s[0] == 0xed ==> s[1] <= 0x9f) then 3
    else if |s| >= 4 && 0xf0 <= s[0] <= 0xf4 && Continuation(s[1]) && Continuation(s[2])
         && Continuation(s[3])
         && (s[0] == 0xf0 ==> s[1] >= 0x90) && (s[0] == 0xf4 ==> s[1] <= 0x8f) then 4
    else 0
  }

  predicate Valid(s: seq<u8>) {
    s == [] || (CharLen(s) > 0 && Valid(s[CharLen(s)..]))
  }

  /** After a well-formed prefix, only the rest decides well-formedness. */
  lemma {:induction false} ValidConcat(a: seq<u8>, b: seq<u8>)
    requires Valid(a)
    ensures Valid(a + b) == Valid(b)
    decreases |a|
  {
    if a == [] {
      assert a + b == b;
    } else {
      var n := CharLen(a);
      assert CharLen(a + b) == n;
      assert (a + b)[n..] == a[n..] + b;
      ValidConcat(a[n..], b);
    }
  }

  /** Cutting a well-formed string in front of an ASCII byte leaves two
      well-formed pieces: no character can straddle the cut. */
  lemma {:induction false} ValidSplit(s: seq<u8>, k: nat)
    requires Valid(s) && k < |s| && s[k] < 0x80
    ensures Valid(s[..k]) && Valid(s[k..])
    decreases |s|
  {
    if k > 0 {
      var n := CharLen(s);
      assert n <= k;
      assert s[n..][k - n] == s[k];
      ValidSplit(s[n..], k - n);
      assert s[n..][..k - n] == s[..k][n..];
      assert s[n..][k - n..] == s[k..];
      assert CharLen(s[..k]) == n;
    }
  }
}
