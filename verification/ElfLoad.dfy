/** Loading a program: segments copied page by page into a fresh user address
    space, page permissions merged where segments share a page, and the stack. */
module ElfLoad {
  import opened Bytes
  import opened Vmm

  const PT_LOAD: nat := 1
  const PT_GNU_STACK: nat := 0x6474_e551
  const STACK_TOP: nat := 0x7fff_ffff_f000
  const STACK_PAGES: nat := 16

  /** User pages by number; page 0 is never mapped. */
  type Memory = m: map<nat, Page> | forall v | v in m :: 0 < v < USER_PAGES && |m[v].bytes| == PAGE_SIZE witness map[]

  /** A mapped user page: its permissions and content. */
  datatype Page = Page(flags: set<Flag>, bytes: seq<u8>)

  datatype Segment = Segment(kind: u32, flags: u32, offset: u64, vaddr: u64, filesz: u64, memsz: u64) {
    predicate Loads() { kind == PT_LOAD }

    predicate Executable() { flags % 2 == 1 }

    predicate Writable() { flags / 2 % 2 == 1 }

    /** Page `v` is one the segment maps. */
    predicate Touches(v: nat) { vaddr / PAGE_SIZE <= v < EndPage() }

    function EndPage(): nat { (vaddr + memsz + PAGE_SIZE - 1) / PAGE_SIZE }

    /** Every page it maps is one a user may have. */
    predicate OnUserPages() {
      vaddr / PAGE_SIZE < EndPage() ==> 0 < vaddr / PAGE_SIZE && EndPage() <= USER_PAGES
    }

    /** Address `a` takes a byte of the file. */
    predicate InFile(a: nat) { vaddr <= a < vaddr + filesz }

    predicate WellFormed(data: seq<u8>) {
      && filesz <= memsz && vaddr + memsz + PAGE_SIZE - 1 < 0x1_0000_0000_0000_0000
      && offset + filesz <= |data| && !(Writable() && Executable())
    }
  }

  /** The byte at an address; unmapped memory counts as zero. */
  function ByteAt(m: Memory, a: nat): u8 {
    if a / PAGE_SIZE in m then m[a / PAGE_SIZE].bytes[a % PAGE_SIZE] else 0
  }

  function SegmentFlags(s: Segment): set<Flag> {
    {USER} + (if s.Writable() then {WRITABLE} else {}) + (if s.Executable() then {} else {NO_EXECUTE})
  }

  /** Permissions of a page that already exists when it is asked for again. */
  function Merge(existing: set<Flag>, flags: set<Flag>): set<Flag> {
    var merged := existing + flags + {USER};
    var merged := if NO_EXECUTE in existing && NO_EXECUTE in flags then merged else merged - {NO_EXECUTE};
    if WRITABLE in merged then merged + {NO_EXECUTE} else merged
  }

  /** The permissions of page `v` once it has been asked for with `flags`. */
  function Asked(m: Memory, v: nat, flags: set<Flag>): set<Flag> {
    if v in m then Merge(m[v].flags, flags) + {USER, PRESENT} else flags + {PRESENT, USER}
  }

  /** Page `v` has been asked for; the other pages are the same. */
  ghost predicate Added(a: Memory, b: Memory, v: nat, flags: set<Flag>) {
    && b.Keys == a.Keys + {v} && b[v].flags == Asked(a, v, flags)
    && forall w | w in a && w != v :: b[w].flags == a[w].flags
  }

  /** The pages of a segment below `limit` have been asked for. */
  ghost predicate AddedUpTo(a: Memory, b: Memory, s: Segment, limit: nat) {
    && (forall v: nat :: v in b <==> v in a || (s.Touches(v) && v < limit))
    && (forall v | v in b ::
             b[v].flags == if s.Touches(v) && v < limit then Asked(a, v, SegmentFlags(s)) else a[v].flags)
  }

  class UserSpace {
    var pages: Memory
    /** How many pages could not be mapped for want of memory. */
    ghost var faults: nat

    constructor ()
      ensures pages == map[] && faults == 0
    {
      pages, faults := map[], 0;
    }

    /** A zeroed page, unless the address is not a user page or memory is out. */
    method MapPage(v: nat, flags: set<Flag>) returns (ok: bool)
      modifies this
      ensures !ok ==> pages == old(pages)
      ensures ok ==> v !in old(pages) && 0 < v < USER_PAGES && faults == old(faults)
      ensures !ok ==> v in pages || !(0 < v < USER_PAGES) || faults > old(faults)
      ensures faults >= old(faults)
      ensures ok ==> pages == old(pages)[v := Page(flags + {PRESENT, USER}, Zeros(PAGE_SIZE))]
    {
      if v == 0 || v >= USER_PAGES || v in pages {
        return false;
      }
      ok := *;
      if ok {
        pages := pages[v := Page(flags + {PRESENT, USER}, Zeros(PAGE_SIZE))];
      } else {
        faults := faults + 1;
      }
    }

    /** Maps page `v`, or merges the permissions if it is mapped already. */
    method EnsurePage(v: nat, flags: set<Flag>) returns (ok: bool)
      modifies this
      ensures !ok ==> pages == old(pages)
      ensures ok ==> Added(old(pages), pages, v, flags) && 0 < v < USER_PAGES && faults == old(faults)
      ensures !ok ==> !(0 < v < USER_PAGES) || faults > old(faults)
      ensures faults >= old(faults)
      ensures forall a: nat :: ByteAt(pages, a) == old(ByteAt(pages, a))
    {
      if v in pages {
        pages := pages[v := pages[v].(flags := Merge(pages[v].flags, flags) + {USER, PRESENT})];
        return true;
      }
      ok := MapPage(v, flags);
    }

    /** Copies bytes into one mapped page. */
    method Copy(v: nat, at: nat, bytes: seq<u8>)
      requires v in pages && at + |bytes| <= PAGE_SIZE
      modifies this`pages
      ensures pages.Keys == old(pages.Keys) && forall w | w in pages :: pages[w].flags == old(pages)[w].flags
      ensures forall a: nat ::
        ByteAt(pages, a) ==
          var from := v * PAGE_SIZE + at; if from <= a < from + |bytes| then bytes[a - from] else old(ByteAt(pages, a))
    {
      ghost var before := pages;
      var page := pages[v];
      pages := pages[v := page.(bytes := page.bytes[..at] + bytes + page.bytes[at + |bytes|..])];
      forall a: nat
        ensures ByteAt(pages, a) ==
          var from := v * PAGE_SIZE + at; if from <= a < from + |bytes| then bytes[a - from] else ByteAt(before, a)
      {
        CopiedByte(page.bytes, v, at, bytes, a);
      }
    }

    /** One page of a segment: made or merged, then its share of the file. */
    method LoadPage(data: seq<u8>, s: Segment, v: nat) returns (ok: bool)
      requires s.WellFormed(data) && s.Touches(v)
      modifies this
      ensures ok ==> Added(old(pages), pages, v, SegmentFlags(s)) && 0 < v < USER_PAGES && faults == old(faults)
      ensures !ok ==> !(0 < v < USER_PAGES) || faults > old(faults)
      ensures faults >= old(faults)
      ensures ok ==> forall a: nat ::
        ByteAt(pages, a) ==
          if a / PAGE_SIZE == v && s.InFile(a) then data[s.offset + (a - s.vaddr)] else old(ByteAt(pages, a))
    {
      hide ByteAt, Merge, SegmentFlags;
      ok := EnsurePage(v, SegmentFlags(s));
      if !ok {
        return;
      }
      ghost var made := pages;
      var base := v * PAGE_SIZE;
      var from, to := Max(base, s.vaddr), Min(base + PAGE_SIZE, s.vaddr + s.filesz);
      if from < to {
        var source := s.offset + (from - s.vaddr);
        Copy(v, from - base, data[source..source + (to - from)]);
      }
      forall a: nat
        ensures a / PAGE_SIZE == v && s.InFile(a) <==> from <= a < to
      {
        InPage(a, v);
      }
    }

    /** A whole segment: loaded if it is well formed and on user pages, unless
        memory runs out. */
    method LoadSegment(data: seq<u8>, s: Segment) returns (ok: bool)
      modifies this
      ensures ok ==> s.WellFormed(data) && Loadable(data, s) && faults == old(faults)
      ensures !ok ==> !Loadable(data, s) || faults > old(faults)
      ensures faults >= old(faults)
      ensures ok ==> AddedUpTo(old(pages), pages, s, s.EndPage())
      ensures ok ==> forall a: nat ::
        ByteAt(pages, a) == if s.InFile(a) then data[s.offset + (a - s.vaddr)] else old(ByteAt(pages, a))
    {
      hide ByteAt, Merge, SegmentFlags, Loadable;
      LoadableIff(data, s);
      if s.memsz < s.filesz || s.vaddr + s.memsz >= 0x1_0000_0000_0000_0000 || s.offset + s.filesz > |data| {
        return false;
      }
      if s.vaddr + s.memsz + PAGE_SIZE - 1 >= 0x1_0000_0000_0000_0000 || (s.Writable() && s.Executable()) {
        return false;
      }
      for v := s.vaddr / PAGE_SIZE to s.EndPage()
        invariant faults == old(faults) && (s.vaddr / PAGE_SIZE < v ==> 0 < s.vaddr / PAGE_SIZE && v <= USER_PAGES)
        invariant AddedUpTo(old(pages), pages, s, v)
        invariant forall a: nat ::
          ByteAt(pages, a) ==
            if s.InFile(a) && a / PAGE_SIZE < v then data[s.offset + (a - s.vaddr)] else old(ByteAt(pages, a))
      {
        ok := LoadPage(data, s, v);
        if !ok {
          return;
        }
      }
      return true;
    }

    /** Every loadable segment in order, then the stack: loaded exactly when all
        segments are well formed and on user pages, unless memory runs out. */
    method LoadImage(data: seq<u8>, segs: seq<Segment>) returns (ok: bool)
      requires pages == map[]
      modifies this
      ensures ok ==> AllWellFormed(data, segs) && AllOnUserPages(segs) && faults == old(faults)
      ensures !ok ==> !AllWellFormed(data, segs) || !AllOnUserPages(segs) || faults > old(faults)
      ensures faults >= old(faults)
      ensures ok ==> ProgramIn(pages, data, segs)
      ensures ok ==> forall i | 0 <= i < |segs| && segs[i].kind == 1 :: Loadable(data, segs[i])
      ensures !ok ==>
        (exists i | 0 <= i < |segs| && segs[i].kind == 1 :: !Loadable(data, segs[i])) || faults > old(faults)
      ensures ok ==> forall v: nat :: v in pages <==> Covered(segs, v) || 0x7_ffff_ffef <= v < 0x7_ffff_ffff
      ensures ok ==> forall v | v in pages :: Protected(pages[v].flags, segs, v)
    {
      hide Loadable, Covered, Protected, ByteAt, Image, Mapped, Writes, Runs, Merge, SegmentFlags, LoadedAs, AddedUpTo;
      NothingLoaded(data);
      ProgramLoadableIff(data, segs);
      for i := 0 to |segs|
        invariant AllWellFormed(data, segs[..i]) && LoadedAs(pages, data, segs[..i])
        invariant AllOnUserPages(segs[..i]) && faults == old(faults)
      {
        assert segs[..i + 1] == segs[..i] + [segs[i]];
        if segs[i].Loads() {
          ghost var before := pages;
          ok := LoadSegment(data, segs[i]);
          LoadableIff(data, segs[i]);
          if !ok {
            return;
          }
          LoadedStep(before, pages, data, segs[..i], segs[i]);
        } else {
          SkippedStep(pages, data, segs[..i], segs[i]);
        }
      }
      assert segs[..|segs|] == segs;
      var flags := {WRITABLE, NO_EXECUTE};
      for i := 0 to |segs|
        invariant flags == if WantsExecStack(segs[..i]) then {WRITABLE} else {WRITABLE, NO_EXECUTE}
      {
        assert segs[..i + 1][..i] == segs[..i];
        if segs[i].kind == PT_GNU_STACK && segs[i].Executable() {
          flags := flags - {NO_EXECUTE};
        }
      }
      assert segs[..|segs|] == segs;
      ok := MapStack(data, segs, flags);
      if ok {
        forall v: nat {
          ProtectedIff(pages, data, segs, v);
        }
      }
    }

    method MapStack(data: seq<u8>, segs: seq<Segment>, flags: set<Flag>) returns (ok: bool)
      requires AllWellFormed(data, segs) && LoadedAs(pages, data, segs)
      requires flags == if WantsExecStack(segs) then {WRITABLE} else {WRITABLE, NO_EXECUTE}
      modifies this
      ensures ok ==> ProgramIn(pages, data, segs) && faults == old(faults)
      ensures !ok ==> faults > old(faults)
    {
      hide ByteAt, Image, Mapped, Writes, Runs, Merge, WantsExecStack;
      for page := 1 to STACK_PAGES + 1
        invariant faults == old(faults)
        invariant StackedUpTo(pages, data, segs, page)
      {
        ghost var before := pages;
        ok := EnsurePage(STACK_TOP / PAGE_SIZE - page, flags);
        if !ok {
          return;
        }
        StackStep(before, pages, data, segs, page, flags);
      }
      return true;
    }
  }

  // ---- what is loaded ------------------------------------------------------------------

  predicate AllWellFormed(data: seq<u8>, segs: seq<Segment>) {
    forall i | 0 <= i < |segs| && segs[i].Loads() :: segs[i].WellFormed(data)
  }

  predicate AllOnUserPages(segs: seq<Segment>) {
    forall i | 0 <= i < |segs| && segs[i].Loads() :: segs[i].OnUserPages()
  }

  /** The byte the segments put at `a`: the file's, from the last segment whose
      file range covers it, and otherwise zero. */
  function Image(data: seq<u8>, segs: seq<Segment>, a: nat): u8
    requires AllWellFormed(data, segs)
  {
    if segs == [] then 0
    else
      var s := segs[|segs| - 1];
      if s.Loads() && s.InFile(a) then data[s.offset + (a - s.vaddr)] else Image(data, segs[..|segs| - 1], a)
  }

  /** Some loadable segment touches page `v`. */
  predicate Mapped(segs: seq<Segment>, v: nat) {
    exists i :: 0 <= i < |segs| && segs[i].Loads() && segs[i].Touches(v)
  }

  predicate Writes(segs: seq<Segment>, v: nat) {
    exists i :: 0 <= i < |segs| && segs[i].Loads() && segs[i].Touches(v) && segs[i].Writable()
  }

  predicate Runs(segs: seq<Segment>, v: nat) {
    exists i :: 0 <= i < |segs| && segs[i].Loads() && segs[i].Touches(v) && segs[i].Executable()
  }

  predicate WantsExecStack(segs: seq<Segment>) {
    segs != [] &&
    (WantsExecStack(segs[..|segs| - 1]) || (segs[|segs| - 1].kind == PT_GNU_STACK && segs[|segs| - 1].Executable()))
  }

  /** Writable if any segment there is; executable only if one is and none is
      writable. */
  predicate Permits(flags: set<Flag>, writes: bool, runs: bool) {
    {PRESENT, USER} <= flags && (WRITABLE in flags <==> writes) && (NO_EXECUTE in flags <==> writes || !runs)
  }

  ghost predicate LoadedAs(m: Memory, data: seq<u8>, segs: seq<Segment>)
    requires AllWellFormed(data, segs)
  {
    && (forall a: nat :: ByteAt(m, a) == Image(data, segs, a))
    && (forall v: nat :: v in m <==> Mapped(segs, v))
    && (forall v | v in m :: Permits(m[v].flags, Writes(segs, v), Runs(segs, v)))
  }

  lemma NothingLoaded(data: seq<u8>)
    ensures LoadedAs(map[], data, [])
  {
  }

  lemma MappedSnoc(segs: seq<Segment>, s: Segment, v: nat)
    ensures Mapped(segs + [s], v) <==> Mapped(segs, v) || (s.Loads() && s.Touches(v))
    ensures Writes(segs + [s], v) <==> Writes(segs, v) || (s.Loads() && s.Touches(v) && s.Writable())
    ensures Runs(segs + [s], v) <==> Runs(segs, v) || (s.Loads() && s.Touches(v) && s.Executable())
    ensures Writes(segs, v) || Runs(segs, v) ==> Mapped(segs, v)
  {
    var t := segs + [s];
    assert t[|segs|] == s;
    assert forall i | 0 <= i < |segs| :: t[i] == segs[i];
  }

  lemma ImageSnoc(data: seq<u8>, segs: seq<Segment>, s: Segment, a: nat)
    requires AllWellFormed(data, segs) && (s.Loads() ==> s.WellFormed(data))
    ensures AllWellFormed(data, segs + [s])
    ensures Image(data, segs + [s], a) ==
      if s.Loads() && s.InFile(a) then data[s.offset + (a - s.vaddr)] else Image(data, segs, a)
  {
    assert (segs + [s])[..|segs|] == segs;
  }

  lemma AskedPermits(m: Memory, v: nat, s: Segment, writes: bool, runs: bool)
    requires !(s.Writable() && s.Executable())
    requires if v in m then Permits(m[v].flags, writes, runs) else !writes && !runs
    ensures Permits(Asked(m, v, SegmentFlags(s)), writes || s.Writable(), runs || s.Executable())
  {
  }

  lemma LoadedStep(before: Memory, after: Memory, data: seq<u8>, segs: seq<Segment>, s: Segment)
    requires AllWellFormed(data, segs) && LoadedAs(before, data, segs) && s.Loads() && s.WellFormed(data)
    requires AddedUpTo(before, after, s, s.EndPage())
    requires forall a: nat ::
      ByteAt(after, a) == if s.InFile(a) then data[s.offset + (a - s.vaddr)] else ByteAt(before, a)
    ensures AllWellFormed(data, segs + [s]) && LoadedAs(after, data, segs + [s])
  {
    hide ByteAt, Image, Mapped, Writes, Runs, Asked, SegmentFlags, Permits;
    forall a: nat
      ensures AllWellFormed(data, segs + [s]) && ByteAt(after, a) == Image(data, segs + [s], a)
    {
      ImageSnoc(data, segs, s, a);
    }
    forall v: nat
      ensures v in after <==> Mapped(segs + [s], v)
      ensures v in after ==> Permits(after[v].flags, Writes(segs + [s], v), Runs(segs + [s], v))
    {
      MappedSnoc(segs, s, v);
      if v in after && s.Touches(v) {
        AskedPermits(before, v, s, Writes(segs, v), Runs(segs, v));
      }
    }
  }

  lemma SkippedStep(m: Memory, data: seq<u8>, segs: seq<Segment>, s: Segment)
    requires AllWellFormed(data, segs) && LoadedAs(m, data, segs) && !s.Loads()
    ensures AllWellFormed(data, segs + [s]) && LoadedAs(m, data, segs + [s])
  {
    hide ByteAt, Image, Mapped, Writes, Runs, Permits;
    forall a: nat
      ensures AllWellFormed(data, segs + [s]) && ByteAt(m, a) == Image(data, segs + [s], a)
    {
      ImageSnoc(data, segs, s, a);
    }
    forall v: nat
      ensures v in m <==> Mapped(segs + [s], v)
      ensures v in m ==> Permits(m[v].flags, Writes(segs + [s], v), Runs(segs + [s], v))
    {
      MappedSnoc(segs, s, v);
    }
  }

  // ---- the stack -------------------------------------------------------------------------

  predicate StackPage(v: nat) { STACK_TOP / PAGE_SIZE - STACK_PAGES <= v < STACK_TOP / PAGE_SIZE }

  /** The program's pages and the topmost `page - 1` stack pages are there. */
  ghost predicate StackedUpTo(m: Memory, data: seq<u8>, segs: seq<Segment>, page: nat)
    requires AllWellFormed(data, segs)
  {
    && (forall a: nat :: ByteAt(m, a) == Image(data, segs, a))
    && (forall v: nat :: v in m <==> Mapped(segs, v) || STACK_TOP / PAGE_SIZE - page < v < STACK_TOP / PAGE_SIZE)
    && (forall v | v in m :: PagePermits(m[v].flags, segs, v, STACK_TOP / PAGE_SIZE - page < v < STACK_TOP / PAGE_SIZE))
  }

  predicate PagePermits(flags: set<Flag>, segs: seq<Segment>, v: nat, stack: bool) {
    if stack
    then {PRESENT, USER, WRITABLE} <= flags && (NO_EXECUTE in flags <==> !WantsExecStack(segs) || Mapped(segs, v))
    else Permits(flags, Writes(segs, v), Runs(segs, v))
  }

  lemma StackStep(before: Memory, after: Memory, data: seq<u8>, segs: seq<Segment>, page: nat, flags: set<Flag>)
    requires AllWellFormed(data, segs) && 0 < page <= STACK_PAGES && StackedUpTo(before, data, segs, page)
    requires flags == if WantsExecStack(segs) then {WRITABLE} else {WRITABLE, NO_EXECUTE}
    requires Added(before, after, STACK_TOP / PAGE_SIZE - page, flags)
    requires forall a: nat :: ByteAt(after, a) == ByteAt(before, a)
    ensures StackedUpTo(after, data, segs, page + 1)
  {
    hide ByteAt, Image, Mapped, Writes, Runs, WantsExecStack;
    var v := STACK_TOP / PAGE_SIZE - page;
    StackAsked(before, v, segs, flags);
  }

  lemma StackAsked(m: Memory, v: nat, segs: seq<Segment>, flags: set<Flag>)
    requires flags == if WantsExecStack(segs) then {WRITABLE} else {WRITABLE, NO_EXECUTE}
    requires v in m <==> Mapped(segs, v)
    ensures PagePermits(Asked(m, v, flags), segs, v, true)
  {
    hide Mapped, WantsExecStack;
  }

  /** A program in memory: its bytes, exactly its pages and the stack's, and
      their permissions. */
  ghost predicate ProgramIn(m: Memory, data: seq<u8>, segs: seq<Segment>)
    requires AllWellFormed(data, segs)
  {
    && (forall a: nat :: ByteAt(m, a) == Image(data, segs, a))
    && (forall v: nat :: v in m <==> Mapped(segs, v) || StackPage(v))
    && (forall v | v in m :: PagePermits(m[v].flags, segs, v, StackPage(v)))
  }

  /** No page is both writable and executable, except a stack page of a program
      that asks for an executable stack, and that one only if no segment is on
      it. */
  lemma WriteXorExecute(m: Memory, data: seq<u8>, segs: seq<Segment>, v: nat)
    requires AllWellFormed(data, segs) && ProgramIn(m, data, segs) && v in m
    ensures WRITABLE in m[v].flags && NO_EXECUTE !in m[v].flags <==>
      StackPage(v) && WantsExecStack(segs) && !Mapped(segs, v)
  {
    hide Mapped, WantsExecStack, Writes, Runs, Image, ByteAt;
    assert PagePermits(m[v].flags, segs, v, StackPage(v));
  }

  /** The one exception does occur: a program whose only segment asks for an
      executable stack. */
  lemma StackCanRun() returns (m: Memory, segs: seq<Segment>, v: nat)
    ensures AllWellFormed([], segs) && AllOnUserPages(segs) && ProgramIn(m, [], segs)
    ensures v in m && WRITABLE in m[v].flags && NO_EXECUTE !in m[v].flags
  {
    segs := [Segment(PT_GNU_STACK, 7, 0, 0, 0, 0)];
    v := STACK_TOP / PAGE_SIZE - 1;
    var page := Page({PRESENT, USER, WRITABLE}, Zeros(PAGE_SIZE));
    m := map w: nat | w < USER_PAGES && StackPage(w) :: page;
    assert segs[..0] == [];
  }

  // ---- in numbers ------------------------------------------------------------------------

  /** A program header of type 1 covers part of the page at `v * 4096`. */
  predicate OnPage(s: Segment, v: nat) { s.kind == 1 && s.vaddr < (v + 1) * 4096 && v * 4096 < s.vaddr + s.memsz }

  /** Bit value 2 of `p_flags` is set on a segment on the page. */
  predicate MayWrite(segs: seq<Segment>, v: nat) {
    exists i :: 0 <= i < |segs| && OnPage(segs[i], v) && segs[i].flags % 4 >= 2
  }

  /** Bit value 1 of `p_flags` is set on a segment on the page. */
  predicate MayRun(segs: seq<Segment>, v: nat) {
    exists i :: 0 <= i < |segs| && OnPage(segs[i], v) && segs[i].flags % 2 == 1
  }

  predicate Covered(segs: seq<Segment>, v: nat) { exists i :: 0 <= i < |segs| && OnPage(segs[i], v) }

  /** A header of the stack type has bit value 1 set. */
  predicate AsksToRunStack(segs: seq<Segment>) {
    exists i :: 0 <= i < |segs| && segs[i].kind == 0x6474_e551 && segs[i].flags % 2 == 1
  }

  /** The permissions of a page follow from the numbers in the headers on it. */
  predicate Protected(flags: set<Flag>, segs: seq<Segment>, v: nat) {
    && PRESENT in flags && USER in flags
    && if 0x7_ffff_ffef <= v < 0x7_ffff_ffff
       then WRITABLE in flags && (NO_EXECUTE !in flags <==> AsksToRunStack(segs) && !Covered(segs, v))
       else (WRITABLE in flags <==> MayWrite(segs, v))
            && (NO_EXECUTE !in flags <==> MayRun(segs, v) && !MayWrite(segs, v))
  }

  /** What a header must be for its segment to be loaded; both bits together are
      refused. */
  predicate Loadable(data: seq<u8>, s: Segment) {
    && s.filesz <= s.memsz && s.offset + s.filesz <= |data| && s.vaddr + s.memsz <= 0x1_0000_0000_0000_0000 - 4096
    && s.flags % 4 != 3
    && ((s.memsz == 0 && s.vaddr % 4096 == 0) || (4096 <= s.vaddr && s.vaddr + s.memsz <= 0x8000_0000_0000))
  }

  lemma TouchesIff(s: Segment, v: nat)
    ensures s.Loads() && s.Touches(v) <==> OnPage(s, v)
  {
  }

  lemma {:induction false} ExecStackIff(segs: seq<Segment>)
    ensures WantsExecStack(segs) <==> AsksToRunStack(segs)
  {
    if segs != [] {
      var n := |segs| - 1;
      ExecStackIff(segs[..n]);
      assert forall i | 0 <= i < n :: segs[..n][i] == segs[i];
    }
  }

  lemma PermissionsIff(segs: seq<Segment>, v: nat)
    ensures Mapped(segs, v) <==> Covered(segs, v)
    ensures Writes(segs, v) <==> MayWrite(segs, v)
    ensures Runs(segs, v) <==> MayRun(segs, v)
  {
    hide OnPage;
    forall i | 0 <= i < |segs|
      ensures segs[i].Loads() && segs[i].Touches(v) <==> OnPage(segs[i], v)
    {
      TouchesIff(segs[i], v);
    }
  }

  /** A page of a loaded program has exactly the permissions its headers' flag
      bits give it: writable iff a segment there has bit value 2, executable iff
      one has bit value 1 and none has 2; a stack page is executable iff a stack
      header has bit value 1 and no segment is there. */
  lemma ProtectedIff(m: Memory, data: seq<u8>, segs: seq<Segment>, v: nat)
    requires AllWellFormed(data, segs) && ProgramIn(m, data, segs)
    ensures v in m <==> Covered(segs, v) || 0x7_ffff_ffef <= v < 0x7_ffff_ffff
    ensures v in m ==> Protected(m[v].flags, segs, v)
  {
    hide Mapped, WantsExecStack, Writes, Runs, Image, ByteAt, Covered, MayWrite, MayRun, AsksToRunStack;
    PermissionsIff(segs, v);
    ExecStackIff(segs);
    assert v in m ==> PagePermits(m[v].flags, segs, v, StackPage(v));
  }

  lemma LoadableIff(data: seq<u8>, s: Segment)
    ensures s.WellFormed(data) && s.OnUserPages() <==> Loadable(data, s)
  {
  }

  /** A program loads, memory permitting, iff each header of type 1 is loadable. */
  lemma ProgramLoadableIff(data: seq<u8>, segs: seq<Segment>)
    ensures AllWellFormed(data, segs) && AllOnUserPages(segs) <==>
      forall i | 0 <= i < |segs| && segs[i].kind == 1 :: Loadable(data, segs[i])
  {
    hide Loadable;
    forall i | 0 <= i < |segs| {
      LoadableIff(data, segs[i]);
    }
  }

  // ---- file bytes, then zeros ------------------------------------------------------------

  /** Address `a` belongs to the segment. */
  predicate Holds(s: Segment, a: nat) { s.Loads() && s.vaddr <= a < s.vaddr + s.memsz }

  /** No address belongs to two segments. */
  ghost predicate Apart(segs: seq<Segment>) {
    forall i, j, a: nat | 0 <= i < |segs| && 0 <= j < |segs| && Holds(segs[i], a) && Holds(segs[j], a) :: i == j
  }

  /** Where segments do not overlap, in whatever order they come, each one's
      range holds its file bytes followed by zeros, and no other address holds
      anything. */
  lemma {:induction false} FileThenZeros(data: seq<u8>, segs: seq<Segment>, a: nat)
    requires AllWellFormed(data, segs) && Apart(segs)
    ensures forall j | 0 <= j < |segs| && Holds(segs[j], a) ::
      Image(data, segs, a) == if segs[j].InFile(a) then data[segs[j].offset + (a - segs[j].vaddr)] else 0
    ensures (forall j | 0 <= j < |segs| :: !Holds(segs[j], a)) ==> Image(data, segs, a) == 0
  {
    if segs != [] {
      var n := |segs| - 1;
      var init, s := segs[..n], segs[n];
      forall i, j, b: nat | 0 <= i < n && 0 <= j < n && Holds(init[i], b) && Holds(init[j], b)
        ensures i == j
      {
        assert Holds(segs[i], b) && Holds(segs[j], b);
      }
      FileThenZeros(data, init, a);
      assert Holds(s, a) ==> forall j | 0 <= j < n :: !Holds(init[j], a);
      forall j | 0 <= j < |segs| && Holds(segs[j], a)
        ensures Image(data, segs, a) == if segs[j].InFile(a) then data[segs[j].offset + (a - segs[j].vaddr)] else 0
      {
        if j < n {
          assert Holds(init[j], a);
        }
      }
    }
  }

  lemma InPage(a: nat, v: nat)
    ensures a / PAGE_SIZE == v <==> v * PAGE_SIZE <= a < v * PAGE_SIZE + PAGE_SIZE
  {
    if v * PAGE_SIZE <= a < v * PAGE_SIZE + PAGE_SIZE {
      DivModUnique(a, PAGE_SIZE, v, a - v * PAGE_SIZE);
    }
  }

  lemma CopiedByte(page: seq<u8>, v: nat, at: nat, bytes: seq<u8>, a: nat)
    requires |page| == PAGE_SIZE && at + |bytes| <= PAGE_SIZE
    ensures var from := v * PAGE_SIZE + at; var new_ := page[..at] + bytes + page[at + |bytes|..];
      && |new_| == PAGE_SIZE
      && (from <= a < from + |bytes| ==> a / PAGE_SIZE == v && new_[a % PAGE_SIZE] == bytes[a - from])
      && (a / PAGE_SIZE == v && !(from <= a < from + |bytes|) ==> new_[a % PAGE_SIZE] == page[a % PAGE_SIZE])
  {
    var from := v * PAGE_SIZE + at;
    if from <= a < from + |bytes| {
      DivModUnique(a, PAGE_SIZE, v, a - v * PAGE_SIZE);
    }
  }
}
