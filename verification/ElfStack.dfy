/** The initial user stack: argument and environment strings, random bytes,
    auxiliary vector and pointer arrays, and reading them back as a program
    does (section 3.4.1 of the System V AMD64 psABI). */
module ElfStack {
  import opened Bytes
  import opened ElfLoad
  import opened Vmm

  const MAX_ARGS: nat := 16
  const MAX_ARG_LEN: nat := 128
  const AT_PAGESZ: nat := 6
  const AT_SECURE: nat := 23
  const AT_RANDOM: nat := 25

  type Text = seq<u8>

  // ---- layout --------------------------------------------------------------------------

  /** NUL-terminated strings one after another. */
  function Joined(vs: seq<Text>): seq<u8> {
    if vs == [] then [] else vs[0] + [0] + Joined(vs[1..])
  }

  /** Where each string of `vs` starts when they end at `top`. */
  function Pointers(vs: seq<Text>, top: nat): (ps: seq<nat>)
    requires |Joined(vs)| <= top
    ensures |ps| == |vs|
  {
    if vs == [] then [] else [top - |Joined(vs)|] + Pointers(vs[1..], top)
  }

  function WordBytes(ws: seq<nat>): (r: seq<u8>)
    ensures |r| == 8 * |ws|
  {
    if ws == [] then [] else LE(ws[0], 8) + WordBytes(ws[1..])
  }

  function Aux(random: nat): seq<nat> {
    [AT_PAGESZ, PAGE_SIZE, AT_SECURE, 0, AT_RANDOM, random, 0, 0]
  }

  function Pad(n: nat, m: nat): seq<nat> { if (n + m + 3) % 2 == 0 then [0] else [] }

  /** The words of the block, lowest address first. */
  function Words(argv: seq<nat>, env: seq<nat>, random: nat): seq<nat> {
    [|argv|] + (argv + ([0] + (env + ([0] + (Aux(random) + Pad(|argv|, |env|))))))
  }

  predicate Acceptable(argv: seq<Text>, env: seq<Text>) {
    && 1 <= |argv| <= MAX_ARGS && |env| <= MAX_ARGS
    && (forall i | 0 <= i < |argv| :: |argv[i]| <= MAX_ARG_LEN)
    && (forall i | 0 <= i < |env| :: |env[i]| <= MAX_ARG_LEN)
  }

  lemma {:induction false} JoinedBound(vs: seq<Text>)
    requires forall i | 0 <= i < |vs| :: |vs[i]| <= MAX_ARG_LEN
    ensures |Joined(vs)| <= |vs| * (MAX_ARG_LEN + 1)
  {
    if vs != [] {
      JoinedBound(vs[1..]);
    }
  }

  datatype Places = Places(argvEnd: nat, envEnd: nat, random: nat, rsp: nat)

  /** Where everything goes below `STACK_TOP`. */
  function PlacesOf(argv: seq<Text>, env: seq<Text>): (p: Places)
    requires Acceptable(argv, env)
    ensures STACK_TOP - 0x2000 < p.rsp <= p.random <= p.random + 16 <= p.envEnd <= p.argvEnd <= STACK_TOP
    ensures p.envEnd - 16 - p.random < 16 && p.rsp % 16 == 8 && p.random % 16 == 0
  {
    JoinedBound(argv);
    JoinedBound(env);
    var argvEnd := STACK_TOP - |Joined(argv)|;
    var envEnd := argvEnd - |Joined(env)|;
    var random := (envEnd - 16) / 16 * 16;
    assert 8 * |Pad(|argv|, |env|)| <= 8;
    Places(argvEnd, envEnd, random, random - 8 * (|argv| + |env| + 11 + |Pad(|argv|, |env|)|))
  }

  /** The block from `rsp` to `STACK_TOP`; `gap` is what alignment skips. */
  function Block(argv: seq<Text>, env: seq<Text>, random: seq<u8>, gap: seq<u8>): seq<u8>
    requires Acceptable(argv, env)
  {
    var p := PlacesOf(argv, env);
    WordBytes(Words(Pointers(argv, STACK_TOP), Pointers(env, p.argvEnd), p.random))
    + random + gap + Joined(env) + Joined(argv)
  }

  // ---- reading it back -------------------------------------------------------------------

  datatype Startup = Startup(argc: nat, argv: seq<Text>, env: seq<Text>, auxv: seq<(nat, nat)>)

  function WordAt(b: seq<u8>, k: nat): nat
    requires 8 * k + 8 <= |b|
  {
    FromLE(b[8 * k..8 * k + 8])
  }

  /** Words from `k` up to the first zero one. */
  function ListAt(b: seq<u8>, k: nat): seq<nat>
    decreases |b| - k
  {
    if 8 * k + 8 > |b| || WordAt(b, k) == 0 then [] else [WordAt(b, k)] + ListAt(b, k + 1)
  }

  /** Pairs of words from `k` up to the first whose type is zero. */
  function PairsAt(b: seq<u8>, k: nat): seq<(nat, nat)>
    decreases |b| - k
  {
    if 8 * k + 16 > |b| || WordAt(b, k) == 0 then [] else [(WordAt(b, k), WordAt(b, k + 1))] + PairsAt(b, k + 2)
  }

  /** The C string at offset `at`. */
  function StringAt(b: seq<u8>, at: int): Text
    decreases |b| - at
  {
    if at < 0 || at >= |b| || b[at] == 0 then [] else [b[at]] + StringAt(b, at + 1)
  }

  function StringsAt(b: seq<u8>, ptrs: seq<nat>, base: nat): seq<Text> {
    seq(|ptrs|, i requires 0 <= i < |ptrs| => StringAt(b, ptrs[i] - base))
  }

  /** What a program's startup code finds at `rsp`: a count, that many argument
      pointers and a null, environment pointers up to a null, then the vector. */
  function ReadStartup(b: seq<u8>, rsp: nat): Startup
    requires |b| >= 8
  {
    var argc := WordAt(b, 0);
    var argv := ListAt(b, 1);
    var env := ListAt(b, argc + 2);
    Startup(argc, StringsAt(b, argv, rsp), StringsAt(b, env, rsp), PairsAt(b, argc + 2 + |env| + 1))
  }

  function UpToNul(v: Text): Text {
    if v == [] || v[0] == 0 then [] else [v[0]] + UpToNul(v[1..])
  }

  function Cut(vs: seq<Text>): seq<Text> { seq(|vs|, i requires 0 <= i < |vs| => UpToNul(vs[i])) }

  /** A string reads back whole exactly when it holds no NUL. */
  lemma {:induction false} WholeIff(v: Text)
    ensures UpToNul(v) == v <==> 0 !in v
  {
    if v != [] {
      WholeIff(v[1..]);
      assert v == [v[0]] + v[1..];
    }
  }

  // ---- words -----------------------------------------------------------------------------

  lemma {:induction false} WordIs(ws: seq<nat>, rest: seq<u8>, k: nat)
    requires k < |ws| && ws[k] < 0x1_0000_0000_0000_0000
    ensures WordAt(WordBytes(ws) + rest, k) == ws[k]
    decreases k
  {
    hide LE, FromLE;
    var b := WordBytes(ws) + rest;
    var tail := WordBytes(ws[1..]) + rest;
    assert b == LE(ws[0], 8) + tail;
    if k == 0 {
      assert b[0..8] == LE(ws[0], 8);
      LE64(ws[0]);
    } else {
      WordIs(ws[1..], rest, k - 1);
      assert b[8 * k..8 * k + 8] == tail[8 * (k - 1)..8 * (k - 1) + 8];
    }
  }

  ghost predicate AllWords(ws: seq<nat>) { forall i | 0 <= i < |ws| :: ws[i] < 0x1_0000_0000_0000_0000 }

  ghost predicate NonZero(ws: seq<nat>) { forall i | 0 <= i < |ws| :: ws[i] != 0 }

  /** A null-terminated run of words reads back as itself. */
  lemma {:induction false} ListIs(ws: seq<nat>, rest: seq<u8>, pre: seq<nat>, mid: seq<nat>, post: seq<nat>)
    requires ws == pre + (mid + ([0] + post)) && AllWords(ws) && NonZero(mid)
    ensures ListAt(WordBytes(ws) + rest, |pre|) == mid
    decreases |mid|
  {
    hide WordAt;
    var b, k := WordBytes(ws) + rest, |pre|;
    WordIs(ws, rest, k);
    if mid != [] {
      var pre', mid' := pre + [mid[0]], mid[1..];
      assert ws[k] == mid[0];
      assert ws == pre' + (mid' + ([0] + post));
      ListIs(ws, rest, pre', mid', post);
      assert mid == [mid[0]] + mid';
    } else {
      assert ws[k] == 0;
    }
  }

  lemma PairStep(ws: seq<nat>, rest: seq<u8>, k: nat)
    requires AllWords(ws) && k + 1 < |ws|
    ensures PairsAt(WordBytes(ws) + rest, k) ==
      if ws[k] == 0 then [] else [(ws[k], ws[k + 1])] + PairsAt(WordBytes(ws) + rest, k + 2)
  {
    hide WordAt, WordBytes;
    WordIs(ws, rest, k);
    WordIs(ws, rest, k + 1);
  }

  lemma AuxIs(ws: seq<nat>, rest: seq<u8>, k: nat, random: nat)
    requires AllWords(ws) && k + 8 <= |ws| && ws[k..k + 8] == Aux(random)
    ensures PairsAt(WordBytes(ws) + rest, k) == [(AT_PAGESZ, PAGE_SIZE), (AT_SECURE, 0), (AT_RANDOM, random)]
  {
    hide PairsAt, WordBytes;
    var b, x := WordBytes(ws) + rest, ws[k..k + 8];
    assert x[0] == ws[k] && x[1] == ws[k + 1] && x[2] == ws[k + 2] && x[3] == ws[k + 3];
    assert x[4] == ws[k + 4] && x[5] == ws[k + 5] && x[6] == ws[k + 6];
    PairStep(ws, rest, k + 6);
    PairStep(ws, rest, k + 4);
    assert PairsAt(b, k + 4) == [(AT_RANDOM, random)];
    PairStep(ws, rest, k + 2);
    assert PairsAt(b, k + 2) == [(AT_SECURE, 0), (AT_RANDOM, random)];
    PairStep(ws, rest, k);
  }

  // ---- strings ---------------------------------------------------------------------------

  lemma {:induction false} StringIs(b: seq<u8>, at: nat, v: Text)
    requires at + |v| < |b| && b[at..at + |v|] == v && b[at + |v|] == 0
    ensures StringAt(b, at) == UpToNul(v)
    decreases |v|
  {
    if v != [] {
      assert b[at] == b[at..at + |v|][0] == v[0];
      assert b[at + 1..at + 1 + |v[1..]|] == b[at..at + |v|][1..];
      StringIs(b, at + 1, v[1..]);
    }
  }

  /** Every pointer finds its string. */
  lemma {:induction false} JoinedReads(vs: seq<Text>, b: seq<u8>, base: nat, top: nat, i: nat)
    requires i < |vs| && base + |Joined(vs)| <= top <= base + |b| && base <= top - |Joined(vs)|
    requires b[top - |Joined(vs)| - base..top - base] == Joined(vs)
    ensures Pointers(vs, top)[i] >= base && StringAt(b, Pointers(vs, top)[i] - base) == UpToNul(vs[i])
    decreases i
  {
    var at := top - |Joined(vs)| - base;
    var j := Joined(vs);
    assert j == vs[0] + [0] + Joined(vs[1..]);
    if i == 0 {
      assert b[at..at + |vs[0]|] == j[..|vs[0]|] == vs[0];
      assert b[at + |vs[0]|] == j[|vs[0]|];
      StringIs(b, at, vs[0]);
    } else {
      var skip := |vs[0]| + 1;
      assert j[skip..] == Joined(vs[1..]);
      assert b[at + skip..top - base] == b[at..top - base][skip..];
      JoinedReads(vs[1..], b, base, top, i - 1);
    }
  }

  lemma {:induction false} PointersIn(vs: seq<Text>, top: nat)
    requires |Joined(vs)| < top < 0x1_0000_0000_0000_0000
    ensures AllWords(Pointers(vs, top)) && NonZero(Pointers(vs, top))
  {
    if vs != [] {
      PointersIn(vs[1..], top);
    }
  }

  lemma StringsRead(vs: seq<Text>, b: seq<u8>, base: nat, top: nat)
    requires base + |Joined(vs)| <= top <= base + |b|
    requires b[top - |Joined(vs)| - base..top - base] == Joined(vs)
    ensures StringsAt(b, Pointers(vs, top), base) == Cut(vs)
  {
    hide Joined, Pointers, StringAt, UpToNul;
    forall i | 0 <= i < |vs|
      ensures StringAt(b, Pointers(vs, top)[i] - base) == UpToNul(vs[i])
    {
      JoinedReads(vs, b, base, top, i);
    }
  }

  // ---- the whole block -------------------------------------------------------------------

  lemma WordsSize(argv: seq<Text>, env: seq<Text>)
    requires Acceptable(argv, env)
    ensures var p := PlacesOf(argv, env);
      8 * |Words(Pointers(argv, STACK_TOP), Pointers(env, p.argvEnd), p.random)| == p.random - p.rsp
  {
  }

  /** The pointer arrays and the vector read back. */
  lemma WordsRead(ap: seq<nat>, ep: seq<nat>, random: nat, rest: seq<u8>)
    requires AllWords(ap) && NonZero(ap) && AllWords(ep) && NonZero(ep)
    requires |ap| < 0x1_0000_0000_0000_0000 && random < 0x1_0000_0000_0000_0000
    ensures var b := WordBytes(Words(ap, ep, random)) + rest;
      && WordAt(b, 0) == |ap| && ListAt(b, 1) == ap && ListAt(b, |ap| + 2) == ep
      && PairsAt(b, |ap| + 2 + |ep| + 1) == [(AT_PAGESZ, PAGE_SIZE), (AT_SECURE, 0), (AT_RANDOM, random)]
  {
    hide WordBytes, ListAt, PairsAt, WordAt, Pad, Aux, AllWords, NonZero;
    var aux := Aux(random) + Pad(|ap|, |ep|);
    var ws := Words(ap, ep, random);
    AuxWords(random, |ap|, |ep|);
    WordsShape(ap, ep, aux);
    WordIs(ws, rest, 0);
    ListIs(ws, rest, [|ap|], ap, ep + ([0] + aux));
    ListIs(ws, rest, [|ap|] + ap + [0], ep, aux);
    AuxIs(ws, rest, |ap| + 2 + |ep| + 1, random);
  }

  lemma AuxWords(random: nat, n: nat, m: nat)
    requires random < 0x1_0000_0000_0000_0000
    ensures |Aux(random)| == 8 && AllWords(Aux(random) + Pad(n, m)) && (Aux(random) + Pad(n, m))[..8] == Aux(random)
  {
  }

  lemma WordsShape(ap: seq<nat>, ep: seq<nat>, aux: seq<nat>)
    requires AllWords(ap) && AllWords(ep) && AllWords(aux) && |ap| < 0x1_0000_0000_0000_0000 && |aux| >= 8
    ensures var ws := [|ap|] + (ap + ([0] + (ep + ([0] + aux))));
      && AllWords(ws) && ws[0] == |ap| && ws == ([|ap|] + ap + [0]) + (ep + ([0] + aux))
      && ws[|ap| + 2 + |ep| + 1..|ap| + 2 + |ep| + 9] == aux[..8]
  {
    var ws := [|ap|] + (ap + ([0] + (ep + ([0] + aux))));
    var front := [|ap|] + ap + [0] + ep + [0];
    assert ws == front + aux;
  }

  /** The string areas of the block. */
  lemma TextPlaces(argv: seq<Text>, env: seq<Text>, random: seq<u8>, gap: seq<u8>)
    requires Acceptable(argv, env) && |random| == 16
    requires |gap| == PlacesOf(argv, env).envEnd - 16 - PlacesOf(argv, env).random
    ensures var p, b := PlacesOf(argv, env), Block(argv, env, random, gap);
      && |b| == STACK_TOP - p.rsp
      && b[p.argvEnd - p.rsp..STACK_TOP - p.rsp] == Joined(argv)
      && b[p.envEnd - p.rsp..p.argvEnd - p.rsp] == Joined(env)
      && b[p.random - p.rsp..p.random - p.rsp + 16] == random
  {
    WordsSize(argv, env);
    hide Joined, Pointers, WordBytes, Words, Acceptable;
    var p := PlacesOf(argv, env);
    var ws := WordBytes(Words(Pointers(argv, STACK_TOP), Pointers(env, p.argvEnd), p.random));
    FiveParts(ws, random, gap, Joined(env), Joined(argv));
  }

  lemma FiveParts(a: seq<u8>, b: seq<u8>, c: seq<u8>, d: seq<u8>, e: seq<u8>)
    ensures var s := a + b + c + d + e; var n, m := |a| + |b|, |a| + |b| + |c|;
      s[|a|..n] == b && s[m..m + |d|] == d && s[m + |d|..m + |d| + |e|] == e
  {
  }

  /** For every accepted argument and environment list, startup code reads back
      the same count, the same strings up to their first NUL, and the vector;
      the random bytes are where the vector says. */
  lemma StackReads(argv: seq<Text>, env: seq<Text>, random: seq<u8>, gap: seq<u8>)
    requires Acceptable(argv, env) && |random| == 16
    requires |gap| == PlacesOf(argv, env).envEnd - 16 - PlacesOf(argv, env).random
    ensures var p, b := PlacesOf(argv, env), Block(argv, env, random, gap);
      && |b| == STACK_TOP - p.rsp
      && ReadStartup(b, p.rsp) ==
           Startup(|argv|, Cut(argv), Cut(env), [(AT_PAGESZ, PAGE_SIZE), (AT_SECURE, 0), (AT_RANDOM, p.random)])
      && b[p.random - p.rsp..p.random - p.rsp + 16] == random
  {
    hide Joined, Pointers, WordBytes, Words, StringsAt, ListAt, PairsAt, WordAt, Cut;
    var p, b := PlacesOf(argv, env), Block(argv, env, random, gap);
    var ap, ep := Pointers(argv, STACK_TOP), Pointers(env, p.argvEnd);
    var rest := random + gap + Joined(env) + Joined(argv);
    assert b == WordBytes(Words(ap, ep, p.random)) + rest;
    PointersIn(argv, STACK_TOP);
    PointersIn(env, p.argvEnd);
    WordsRead(ap, ep, p.random, rest);
    TextPlaces(argv, env, random, gap);
    StringsRead(argv, b, p.rsp, STACK_TOP);
    StringsRead(env, b, p.rsp, p.argvEnd);
  }

  /** The arguments arrive whole if and only if none holds a NUL. */
  lemma ArgumentsWholeIff(argv: seq<Text>, env: seq<Text>, random: seq<u8>, gap: seq<u8>)
    requires Acceptable(argv, env) && |random| == 16
    requires |gap| == PlacesOf(argv, env).envEnd - 16 - PlacesOf(argv, env).random
    ensures |Block(argv, env, random, gap)| >= 8
    ensures ReadStartup(Block(argv, env, random, gap), PlacesOf(argv, env).rsp).argv == argv <==>
      forall i | 0 <= i < |argv| :: 0 !in argv[i]
  {
    hide Joined, Pointers, WordBytes, Words, ReadStartup, Block, PlacesOf, UpToNul;
    StackReads(argv, env, random, gap);
    WordsSize(argv, env);
    var cut := Cut(argv);
    if cut == argv {
      forall i | 0 <= i < |argv|
        ensures 0 !in argv[i]
      {
        assert cut[i] == UpToNul(argv[i]);
        WholeIff(argv[i]);
      }
    }
    if forall i | 0 <= i < |argv| :: 0 !in argv[i] {
      forall i | 0 <= i < |argv|
        ensures cut[i] == argv[i]
      {
        WholeIff(argv[i]);
      }
    }
  }

  /** Startup code finds an argument `a NUL b` as `a`. */
  lemma ArgumentCanBeCut(random: seq<u8>, gap: seq<u8>)
    requires |random| == 16 && Acceptable([[97, 0, 98]], [])
    requires |gap| == PlacesOf([[97, 0, 98]], []).envEnd - 16 - PlacesOf([[97, 0, 98]], []).random
    ensures var p, b := PlacesOf([[97, 0, 98]], []), Block([[97, 0, 98]], [], random, gap);
      |b| == STACK_TOP - p.rsp >= 8 && ReadStartup(b, p.rsp).argv == [[97]]
  {
    hide Joined, Pointers, WordBytes, Words, ReadStartup, Block;
    var v: Text := [97, 0, 98];
    StackReads([v], [], random, gap);
    WordsSize([v], []);
    var rest: Text := [0, 98];
    assert v[1..] == rest && UpToNul(rest) == [];
    assert UpToNul(v) == [97];
    assert Cut([v])[0] == [97];
  }
}
