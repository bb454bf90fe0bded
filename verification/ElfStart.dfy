/** Building the initial stack in user memory, write by write. */
module ElfStart {
  import opened Bytes
  import opened ElfLoad
  import opened ElfStack
  import opened Vmm

  const STACK_BOTTOM: nat := STACK_TOP - STACK_PAGES * PAGE_SIZE

  datatype InitialStack = InitialStack(rsp: nat, argc: nat, argv: nat, envp: nat)

  /** Every address of the range is on a mapped page. */
  ghost predicate AllMapped(m: Memory, addr: nat, len: nat) {
    forall a: nat | addr <= a < addr + len :: a / PAGE_SIZE in m
  }

  ghost predicate StackReady(m: Memory) { forall v | StackPage(v) :: v in m }

  /** Same pages, same permissions. */
  ghost predicate SameShape(a: Memory, b: Memory) {
    a.Keys == b.Keys && forall v | v in a :: a[v].flags == b[v].flags
  }

  /** Nothing outside the stack changed. */
  ghost predicate OnlyStack(a: Memory, b: Memory) {
    SameShape(a, b) && forall x: nat | !(STACK_BOTTOM <= x < STACK_TOP) :: ByteAt(a, x) == ByteAt(b, x)
  }

  /** Memory from `sp` to the top of the stack reads `block`. */
  ghost predicate StackHas(m: Memory, sp: nat, block: seq<u8>) {
    sp + |block| == STACK_TOP && forall i | 0 <= i < |block| :: ByteAt(m, sp + i) == block[i]
  }

  lemma StackMapped(m: Memory, addr: nat, len: nat)
    requires StackReady(m) && STACK_BOTTOM <= addr && addr + len <= STACK_TOP
    ensures AllMapped(m, addr, len)
  {
  }

  /** Copies bytes page chunk by page chunk. */
  method WriteBytes(space: UserSpace, addr: nat, bytes: seq<u8>) returns (ok: bool)
    modifies space`pages
    ensures SameShape(old(space.pages), space.pages)
    ensures AllMapped(space.pages, addr, |bytes|) ==> ok
    ensures ok ==> forall a: nat ::
      ByteAt(space.pages, a) == if addr <= a < addr + |bytes| then bytes[a - addr] else old(ByteAt(space.pages, a))
  {
    hide ByteAt;
    var written := 0;
    while written < |bytes|
      invariant written <= |bytes| && SameShape(old(space.pages), space.pages)
      invariant forall a: nat ::
        ByteAt(space.pages, a) == if addr <= a < addr + written then bytes[a - addr] else old(ByteAt(space.pages, a))
      decreases |bytes| - written
    {
      var at := addr + written;
      if at >= 0x1_0000_0000_0000_0000 {
        assert at / PAGE_SIZE !in space.pages;
        return false;
      }
      var left := PAGE_SIZE - at % PAGE_SIZE;
      var len := Min(left, |bytes| - written);
      if at / PAGE_SIZE !in space.pages {
        return false;
      }
      space.Copy(at / PAGE_SIZE, at % PAGE_SIZE, bytes[written..written + len]);
      written := written + len;
    }
    return true;
  }

  /** A string and its NUL, below `sp`. */
  method PushString(space: UserSpace, sp: nat, value: Text, ghost block: seq<u8>) returns (at: nat)
    requires StackReady(space.pages) && StackHas(space.pages, sp, block) && STACK_BOTTOM + |value| + 1 <= sp
    modifies space`pages
    ensures OnlyStack(old(space.pages), space.pages) && at == sp - |value| - 1
    ensures StackHas(space.pages, at, value + [0] + block)
  {
    hide ByteAt;
    at := sp - (|value| + 1);
    StackMapped(space.pages, at, |value| + 1);
    var ok := WriteBytes(space, at, value);
    assert ok;
    ok := WriteBytes(space, at + |value|, [0]);
    assert ok;
    var whole := value + [0] + block;
    forall i | 0 <= i < |whole|
      ensures ByteAt(space.pages, at + i) == whole[i]
    {
      if i > |value| {
        assert at + i == sp + (i - |value| - 1);
      }
    }
  }

  /** A list of strings, last one first; refused at the first that is too long. */
  method PushStrings(space: UserSpace, top: nat, values: seq<Text>, ghost block: seq<u8>)
    returns (ok: bool, sp: nat, ptrs: seq<nat>)
    requires StackReady(space.pages) && StackHas(space.pages, top, block)
    requires |values| <= MAX_ARGS && STACK_BOTTOM + MAX_ARGS * (MAX_ARG_LEN + 1) <= top
    modifies space`pages
    ensures OnlyStack(old(space.pages), space.pages)
    ensures ok <==> forall i | 0 <= i < |values| :: |values[i]| <= MAX_ARG_LEN
    ensures ok ==> |Joined(values)| <= |values| * (MAX_ARG_LEN + 1) && sp == top - |Joined(values)|
    ensures ok ==> ptrs == Pointers(values, top) && StackHas(space.pages, sp, Joined(values) + block)
  {
    hide ByteAt, StackHas, Joined, Pointers;
    sp, ptrs := top, [];
    assert values[|values|..] == [];
    NoStrings(top);
    assert Joined([]) + block == block;
    for i := |values| downto 0
      invariant OnlyStack(old(space.pages), space.pages)
      invariant forall j | i <= j < |values| :: |values[j]| <= MAX_ARG_LEN
      invariant |Joined(values[i..])| <= (|values| - i) * (MAX_ARG_LEN + 1) && sp == top - |Joined(values[i..])|
      invariant ptrs == Pointers(values[i..], top) && StackHas(space.pages, sp, Joined(values[i..]) + block)
    {
      if |values[i]| > MAX_ARG_LEN {
        return false, sp, ptrs;
      }
      var rest := values[i + 1..];
      NextString(values, i, top);
      var at := PushString(space, sp, values[i], Joined(rest) + block);
      assert values[i] + [0] + (Joined(rest) + block) == values[i] + [0] + Joined(rest) + block;
      sp, ptrs := at, [at] + ptrs;
    }
    assert values[0..] == values;
    return true, sp, ptrs;
  }

  lemma NoStrings(top: nat)
    ensures Joined([]) == [] && Pointers([], top) == []
  {
  }

  lemma NextString(values: seq<Text>, i: nat, top: nat)
    requires i < |values| && |values[i]| + 1 + |Joined(values[i + 1..])| <= top
    ensures Joined(values[i..]) == values[i] + [0] + Joined(values[i + 1..])
    ensures Pointers(values[i..], top) == [top - |Joined(values[i..])|] + Pointers(values[i + 1..], top)
  {
    assert values[i..][0] == values[i] && values[i..][1..] == values[i + 1..];
  }

  /** The random bytes, at the next multiple of sixteen that leaves room. */
  method PushRandom(space: UserSpace, sp: nat, random: seq<u8>, ghost block: seq<u8>)
    returns (at: nat, ghost gap: seq<u8>)
    requires StackReady(space.pages) && StackHas(space.pages, sp, block) && STACK_BOTTOM + 32 <= sp && |random| == 16
    modifies space`pages
    ensures OnlyStack(old(space.pages), space.pages)
    ensures at == (sp - 16) / 16 * 16 && |gap| == sp - 16 - at && StackHas(space.pages, at, random + gap + block)
  {
    hide ByteAt;
    at := (sp - 16) / 16 * 16;
    ghost var before := space.pages;
    gap := seq(sp - 16 - at, i requires 0 <= i < sp - 16 - at => ByteAt(before, at + 16 + i));
    StackMapped(space.pages, at, 16);
    var ok := WriteBytes(space, at, random);
    assert ok;
    var whole := random + gap + block;
    forall i | 0 <= i < |whole|
      ensures ByteAt(space.pages, at + i) == whole[i]
    {
      if i >= 16 + |gap| {
        assert at + i == sp + (i - 16 - |gap|);
      }
    }
  }

  lemma WordFirst(w: nat, ws: seq<nat>)
    ensures WordBytes([w] + ws) == LE(w, 8) + WordBytes(ws)
  {
    assert ([w] + ws)[1..] == ws;
  }

  /** One word, below the words `ws` at `sp`. */
  method PushWord(space: UserSpace, sp: nat, w: nat, ghost ws: seq<nat>, ghost block: seq<u8>) returns (at: nat)
    requires StackReady(space.pages) && StackHas(space.pages, sp, WordBytes(ws) + block) && STACK_BOTTOM + 8 <= sp
    modifies space`pages
    ensures OnlyStack(old(space.pages), space.pages) && at == sp - 8
    ensures StackHas(space.pages, at, WordBytes([w] + ws) + block)
  {
    hide ByteAt, LE, WordBytes;
    at := sp - 8;
    StackMapped(space.pages, at, 8);
    var ok := WriteBytes(space, at, LE(w, 8));
    assert ok;
    WordFirst(w, ws);
    ghost var above, whole := WordBytes(ws) + block, WordBytes([w] + ws) + block;
    assert whole == LE(w, 8) + above;
    forall i | 0 <= i < |whole|
      ensures ByteAt(space.pages, at + i) == whole[i]
    {
      if i >= 8 {
        assert at + i == sp + (i - 8);
      }
    }
  }

  /** A list of words, last one first. */
  method PushWords(space: UserSpace, top: nat, list: seq<nat>, ghost ws: seq<nat>, ghost block: seq<u8>)
    returns (sp: nat)
    requires StackReady(space.pages) && StackHas(space.pages, top, WordBytes(ws) + block)
    requires STACK_BOTTOM + 8 * |list| <= top
    modifies space`pages
    ensures OnlyStack(old(space.pages), space.pages) && sp == top - 8 * |list|
    ensures StackHas(space.pages, sp, WordBytes(list + ws) + block)
  {
    hide ByteAt, StackHas, WordBytes;
    sp := top;
    assert list[|list|..] + ws == ws;
    for i := |list| downto 0
      invariant OnlyStack(old(space.pages), space.pages) && sp == top - 8 * (|list| - i)
      invariant StackHas(space.pages, sp, WordBytes(list[i..] + ws) + block)
    {
      assert list[i..] + ws == [list[i]] + (list[i + 1..] + ws);
      sp := PushWord(space, sp, list[i], list[i + 1..] + ws, block);
    }
    assert list[0..] == list;
  }

  function Flatten(pairs: seq<(nat, nat)>): (r: seq<nat>)
    ensures |r| == 2 * |pairs|
  {
    if pairs == [] then [] else [pairs[0].0, pairs[0].1] + Flatten(pairs[1..])
  }

  lemma FlattenFrom(pairs: seq<(nat, nat)>, i: nat, below: seq<nat>)
    requires i < |pairs|
    ensures Flatten(pairs[i..]) + below == [pairs[i].0] + ([pairs[i].1] + (Flatten(pairs[i + 1..]) + below))
  {
    assert pairs[i..][0] == pairs[i] && pairs[i..][1..] == pairs[i + 1..];
  }

  lemma AuxFlat(random: nat)
    ensures Aux(random) == Flatten([(AT_PAGESZ, PAGE_SIZE), (AT_SECURE, 0), (AT_RANDOM, random)]) + [0, 0]
  {
    var p: seq<(nat, nat)> := [(AT_PAGESZ, PAGE_SIZE), (AT_SECURE, 0), (AT_RANDOM, random)];
    var q: seq<(nat, nat)> := p[1..];
    var t: seq<(nat, nat)> := q[1..];
    assert q[0] == p[1] && t[0] == p[2] && |t[1..]| == 0;
    assert Flatten(t) == [t[0].0, t[0].1];
    assert Flatten(q) == [q[0].0, q[0].1] + Flatten(t);
    assert Flatten(p) == [p[0].0, p[0].1] + Flatten(q);
  }

  /** The auxiliary vector: terminator first, then the pairs from the last. */
  method PushAux(space: UserSpace, top: nat, random: nat, ghost ws: seq<nat>, ghost block: seq<u8>) returns (sp: nat)
    requires StackReady(space.pages) && StackHas(space.pages, top, WordBytes(ws) + block) && STACK_BOTTOM + 64 <= top
    modifies space`pages
    ensures OnlyStack(old(space.pages), space.pages) && sp == top - 64
    ensures StackHas(space.pages, sp, WordBytes(Aux(random) + ws) + block)
  {
    hide ByteAt, StackHas, WordBytes, Aux, Flatten;
    var pairs := [(AT_PAGESZ, PAGE_SIZE), (AT_SECURE, 0), (AT_RANDOM, random)];
    sp := PushWord(space, top, 0, ws, block);
    sp := PushWord(space, sp, 0, [0] + ws, block);
    ghost var below := [0, 0] + ws;
    assert [0] + ([0] + ws) == below;
    assert Flatten(pairs[3..]) + below == below by { assert |Flatten(pairs[3..])| == 0; }
    for i := 3 downto 0
      invariant OnlyStack(old(space.pages), space.pages) && sp == top - 64 + 16 * i
      invariant StackHas(space.pages, sp, WordBytes(Flatten(pairs[i..]) + below) + block)
    {
      FlattenFrom(pairs, i, below);
      ghost var done := Flatten(pairs[i + 1..]) + below;
      sp := PushWord(space, sp, pairs[i].1, done, block);
      sp := PushWord(space, sp, pairs[i].0, [pairs[i].1] + done, block);
    }
    AuxFlat(random);
    assert pairs[0..] == pairs;
    assert Flatten(pairs) + below == Flatten(pairs) + [0, 0] + ws;
  }

  /** Padding, vector, environment pointers, argument pointers, count. */
  method PushStartup(space: UserSpace, top: nat, ap: seq<nat>, ep: seq<nat>, random: nat, ghost block: seq<u8>)
    returns (rsp: nat, argvAt: nat, envAt: nat)
    requires StackReady(space.pages) && StackHas(space.pages, top, block)
    requires |ap| <= MAX_ARGS && |ep| <= MAX_ARGS && STACK_BOTTOM + 8 * 64 <= top
    modifies space`pages
    ensures OnlyStack(old(space.pages), space.pages)
    ensures rsp == top - 8 * |Words(ap, ep, random)| && argvAt == rsp + 8 && envAt == argvAt + 8 * (|ap| + 1)
    ensures StackHas(space.pages, rsp, WordBytes(Words(ap, ep, random)) + block)
  {
    hide ByteAt, StackHas, WordBytes, Aux;
    var sp := top;
    assert WordBytes([]) + block == block by { NoWords(); }
    if (|ap| + |ep| + 3) % 2 == 0 {
      sp := PushWord(space, sp, 0, [], block);
      assert [0] + [] == [0];
    }
    ghost var w0 := Pad(|ap|, |ep|);
    sp := PushAux(space, sp, random, w0, block);
    ghost var w1 := Aux(random) + w0;
    sp := PushWord(space, sp, 0, w1, block);
    envAt := PushWords(space, sp, ep, [0] + w1, block);
    ghost var w2 := ep + ([0] + w1);
    sp := PushWord(space, envAt, 0, w2, block);
    argvAt := PushWords(space, sp, ap, [0] + w2, block);
    rsp := PushWord(space, argvAt, |ap|, ap + ([0] + w2), block);
    AuxSize(random);
  }

  lemma NoWords()
    ensures WordBytes([]) == []
  {
  }

  lemma AuxSize(random: nat)
    ensures |Aux(random)| == 8
  {
  }

  lemma PlacesAre(argv: seq<Text>, env: seq<Text>)
    requires Acceptable(argv, env)
    ensures var p := PlacesOf(argv, env);
      && p.argvEnd == STACK_TOP - |Joined(argv)| && p.envEnd == p.argvEnd - |Joined(env)|
      && p.random == (p.envEnd - 16) / 16 * 16
      && p.rsp == p.random - 8 * |Words(Pointers(argv, STACK_TOP), Pointers(env, p.argvEnd), p.random)|
  {
    hide Joined, Pointers, Words, Acceptable;
    WordsSize(argv, env);
  }

  /** Strings and random bytes. */
  method PushText(space: UserSpace, argv: seq<Text>, env: seq<Text>, random: seq<u8>)
    returns (ok: bool, at: nat, ap: seq<nat>, ep: seq<nat>, ghost gap: seq<u8>)
    requires StackReady(space.pages) && |random| == 16 && 1 <= |argv| <= MAX_ARGS && |env| <= MAX_ARGS
    modifies space`pages
    ensures OnlyStack(old(space.pages), space.pages)
    ensures ok <==> Acceptable(argv, env)
    ensures ok ==>
      var p := PlacesOf(argv, env);
      && at == p.random && ap == Pointers(argv, STACK_TOP) && ep == Pointers(env, p.argvEnd)
      && |gap| == p.envEnd - 16 - p.random
      && StackHas(space.pages, at, random + gap + (Joined(env) + Joined(argv)))
  {
    hide ByteAt, Joined, Pointers, StackHas, PlacesOf;
    at, ep, gap := 0, [], [];
    var sp;
    assert StackHas(space.pages, STACK_TOP, []) by { EmptyStack(space.pages); }
    ok, sp, ap := PushStrings(space, STACK_TOP, argv, []);
    if !ok {
      return;
    }
    assert Joined(argv) + [] == Joined(argv);
    ok, sp, ep := PushStrings(space, sp, env, Joined(argv));
    if !ok {
      return;
    }
    PlacesAre(argv, env);
    at, gap := PushRandom(space, sp, random, Joined(env) + Joined(argv));
  }

  lemma EmptyStack(m: Memory)
    ensures StackHas(m, STACK_TOP, [])
  {
  }

  /** Builds the initial stack: it succeeds exactly for the accepted lists,
      always fits, and leaves the block and the stack pointer 8 mod 16, so the
      final alignment check of the source never fires. */
  method PrepareStack(space: UserSpace, argv: seq<Text>, env: seq<Text>, random: seq<u8>)
    returns (r: Option<InitialStack>, ghost gap: seq<u8>)
    requires StackReady(space.pages) && |random| == 16
    modifies space`pages
    ensures OnlyStack(old(space.pages), space.pages)
    ensures r.Some? <==> Acceptable(argv, env)
    ensures r.Some? ==>
      var p := PlacesOf(argv, env);
      && r.value == InitialStack(p.rsp, |argv|, p.rsp + 8, p.rsp + 8 * (|argv| + 2)) && p.rsp % 16 == 8
      && |gap| == p.envEnd - 16 - p.random
      && StackHas(space.pages, p.rsp, Block(argv, env, random, gap))
  {
    hide ByteAt, Joined, Pointers, WordBytes, Words, StackHas, PlacesOf;
    if |argv| == 0 || |argv| > MAX_ARGS || |env| > MAX_ARGS {
      return None, [];
    }
    var ok, at, ap, ep;
    ok, at, ap, ep, gap := PushText(space, argv, env, random);
    if !ok {
      return None, [];
    }
    ghost var text := random + gap + (Joined(env) + Joined(argv));
    PlacesAre(argv, env);
    assert at / 16 * 16 == at;
    var rsp, argvAt, envAt := PushStartup(space, at / 16 * 16, ap, ep, at, text);
    BlockParts(WordBytes(Words(ap, ep, at)), random, gap, Joined(env), Joined(argv));
    return Some(InitialStack(rsp, |argv|, argvAt, envAt)), gap;
  }

  lemma BlockParts(a: seq<u8>, b: seq<u8>, c: seq<u8>, d: seq<u8>, e: seq<u8>)
    ensures a + (b + c + (d + e)) == a + b + c + d + e
  {
  }

  /** From the file to the first instruction. It succeeds for well-formed
      segments on user pages and accepted lists, unless memory runs out; then
      memory outside the stack is the program's image and the startup code finds
      its arguments, environment and vector at the stack pointer. */
  method Start(data: seq<u8>, segs: seq<Segment>, argv: seq<Text>, env: seq<Text>, random: seq<u8>)
    returns (space: UserSpace, r: Option<InitialStack>, ghost block: seq<u8>)
    requires |random| == 16
    ensures r.Some? ==> Acceptable(argv, env) && AllWellFormed(data, segs) && AllOnUserPages(segs)
    ensures r.None? ==>
      !Acceptable(argv, env) || !AllWellFormed(data, segs) || !AllOnUserPages(segs) || space.faults > 0
    ensures r.Some? ==> forall a: nat | !(STACK_BOTTOM <= a < STACK_TOP) ::
      ByteAt(space.pages, a) == Image(data, segs, a)
    ensures r.Some? ==> StackHas(space.pages, r.value.rsp, block) && r.value.rsp % 16 == 8 && |block| >= 8
    ensures r.Some? ==>
      ReadStartup(block, r.value.rsp) ==
        Startup(|argv|, ElfStack.Cut(argv), ElfStack.Cut(env),
          [(AT_PAGESZ, PAGE_SIZE), (AT_SECURE, 0), (AT_RANDOM, PlacesOf(argv, env).random)])
    ensures r.Some? ==>
      forall v | v in space.pages ::
        WRITABLE in space.pages[v].flags && NO_EXECUTE !in space.pages[v].flags <==>
          StackPage(v) && WantsExecStack(segs) && !Mapped(segs, v)
  {
    hide ByteAt, Image, StackHas, PlacesOf, ReadStartup, Block, PagePermits, Mapped, WantsExecStack;
    space := new UserSpace();
    var ok := space.LoadImage(data, segs);
    if !ok {
      return space, None, [];
    }
    forall v | v in space.pages
      ensures WRITABLE in space.pages[v].flags && NO_EXECUTE !in space.pages[v].flags <==>
        StackPage(v) && WantsExecStack(segs) && !Mapped(segs, v)
    {
      WriteXorExecute(space.pages, data, segs, v);
    }
    ghost var gap;
    r, gap := PrepareStack(space, argv, env, random);
    block := [];
    if r.Some? {
      StackReads(argv, env, random, gap);
      block := Block(argv, env, random, gap);
    }
  }
}
