/** User address spaces: four-level page tables held in physical frames, owned
    frame lists, and the plain map from pages to frames they stand for. */
module Vmm {
  import opened Bytes

  const PAGE_SIZE: nat := 4096
  const USER_SPACE_END: nat := 0x8000_0000_0000
  const USER_PAGES: nat := 0x8_0000_0000
  const KERNEL_START: nat := 256

  type Frame = nat

  datatype Flag = PRESENT | WRITABLE | USER | WRITE_THROUGH | NO_CACHE | ACCESSED | DIRTY | HUGE | GLOBAL | NO_EXECUTE

  datatype Entry = Unused | Entry(frame: Frame, flags: set<Flag>)

  type Table = t: seq<Entry> | |t| == 512 witness seq(512, i => Unused)

  const EMPTY: Table := seq(512, i => Unused)

  type Tables = map<Frame, Table>

  datatype VmError = OutOfMemory | InvalidUserAddress | HugePageInPath | KernelRootNotInitialized

  datatype Result<+T> = Ok(value: T) | Err(error: VmError)

  // ---- indices --------------------------------------------------------------------------

  /** The page number of `v` with its low `l` index groups dropped. */
  function Prefix(l: nat, v: nat): nat { if l == 0 then v else Prefix(l - 1, v) / 512 }

  /** The index of page `v` in its level-`l` table. */
  function Index(l: nat, v: nat): (i: nat)
    requires l > 0
    ensures i < 512
  {
    Prefix(l - 1, v) % 512
  }

  /** They are the nine-bit groups of the address: shifts by 12, 21, 30 and 39. */
  lemma IndexIsShift(virt: nat)
    ensures Index(1, virt / PAGE_SIZE) == virt / 0x1000 % 512
    ensures Index(2, virt / PAGE_SIZE) == virt / 0x20_0000 % 512
    ensures Index(3, virt / PAGE_SIZE) == virt / 0x4000_0000 % 512
    ensures Index(4, virt / PAGE_SIZE) == virt / 0x80_0000_0000 % 512
  {
    var v := virt / PAGE_SIZE;
    assert Prefix(0, v) == v;
    assert Prefix(1, v) == v / 512;
    assert Prefix(2, v) == v / 512 / 512;
    assert Prefix(3, v) == v / 512 / 512 / 512;
  }

  /** A table's place in the tree: its level and the prefix it serves. */
  datatype Key = Key(level: nat, prefix: nat)

  const ROOT: Key := Key(4, 0)

  function Child(k: Key, i: nat): Key
    requires k.level > 0
  {
    Key(k.level - 1, k.prefix * 512 + i)
  }

  function Parent(k: Key): Key { Key(k.level + 1, k.prefix / 512) }

  /** Slots of a table that belong to user space. */
  function Slots(k: Key): nat { if k.level == 4 then KERNEL_START else 512 }

  /** The table of level `l` on the way to page `v`. */
  function KeyOf(l: nat, v: nat): Key { Key(l, Prefix(l, v)) }

  lemma PathStep(l: nat, v: nat)
    requires 1 <= l
    ensures Child(KeyOf(l, v), Index(l, v)) == KeyOf(l - 1, v)
  {
  }

  lemma RootPath(v: nat)
    requires v < USER_PAGES
    ensures KeyOf(4, v) == ROOT && Index(4, v) < KERNEL_START
  {
    assert Prefix(1, v) == v / 512 && Prefix(2, v) == v / 512 / 512 && Prefix(3, v) == v / 512 / 512 / 512;
  }

  // ---- the tree -----------------------------------------------------------------------------

  type Tree = map<Key, Frame>

  /** Slot `i` of the table at `k` is unused exactly when there is no table below
      it, and otherwise points to that table. */
  ghost predicate SlotOk(t: Tables, tree: Tree, k: Key, i: nat)
    requires k in tree && tree[k] in t && k.level > 1 && i < 512
  {
    match t[tree[k]][i]
    case Unused => Child(k, i) !in tree
    case Entry(frame, flags) => Child(k, i) in tree && tree[Child(k, i)] == frame && HUGE !in flags
  }

  ghost predicate TreeOk(t: Tables, root: Frame, tree: Tree, place: map<Frame, Key>) {
    && ROOT in tree && tree[ROOT] == root
    && (forall k | k in tree ::
          && 1 <= k.level <= 4 && tree[k] in t && tree[k] in place && place[tree[k]] == k
          && (k.level < 4 ==> Parent(k) in tree && k.prefix % 512 < Slots(Parent(k))))
    && (forall f | f in place :: place[f] in tree && tree[place[f]] == f)
    && (forall k, i | k in tree && k.level > 1 && 0 <= i < Slots(k) :: SlotOk(t, tree, k, i))
  }

  /** Every link between tables is present, writable and open to the user, so
      that the page's own entry alone decides what a user may do. */
  ghost predicate Linked(t: Tables, tree: Tree) {
    forall k, i | k in tree && k.level > 1 && 0 <= i < Slots(k) && tree[k] in t && t[tree[k]][i].Entry? ::
      PRESENT in t[tree[k]][i].flags && WRITABLE in t[tree[k]][i].flags && USER in t[tree[k]][i].flags
  }

  /** The entry that decides page `v`. */
  ghost function Leaf(t: Tables, tree: Tree, v: nat): Entry
    requires KeyOf(1, v) in tree ==> tree[KeyOf(1, v)] in t
  {
    if KeyOf(1, v) in tree then t[tree[KeyOf(1, v)]][Index(1, v)] else Unused
  }

  // ---- walking ------------------------------------------------------------------------------

  /** One step down, as the translation takes it. */
  lemma WalkStep(t: Tables, root: Frame, tree: Tree, place: map<Frame, Key>, l: nat, v: nat)
    requires TreeOk(t, root, tree, place) && 1 < l <= 4 && v < USER_PAGES && KeyOf(l, v) in tree
    ensures tree[KeyOf(l, v)] in t
    ensures match t[tree[KeyOf(l, v)]][Index(l, v)]
      case Unused => KeyOf(l - 1, v) !in tree
      case Entry(frame, flags) => KeyOf(l - 1, v) in tree && tree[KeyOf(l - 1, v)] == frame && HUGE !in flags
  {
    PathStep(l, v);
    if l == 4 {
      RootPath(v);
    }
    assert SlotOk(t, tree, KeyOf(l, v), Index(l, v));
  }

  /** A missing table on the way means the page is not mapped. */
  lemma {:induction false} MissingBelow(t: Tables, root: Frame, tree: Tree, place: map<Frame, Key>, l: nat, v: nat)
    requires TreeOk(t, root, tree, place) && 1 <= l <= 4 && KeyOf(l, v) !in tree
    ensures KeyOf(1, v) !in tree
  {
    if l > 1 {
      assert Parent(KeyOf(l - 1, v)) == KeyOf(l, v);
      MissingBelow(t, root, tree, place, l - 1, v);
    }
  }

  /** On the way to a mapped page, at every level, the entry followed is present,
      writable and open to the user. */
  lemma PathOpen(t: Tables, root: Frame, tree: Tree, place: map<Frame, Key>, l: nat, v: nat)
    requires TreeOk(t, root, tree, place) && Linked(t, tree) && 1 < l <= 4 && v < USER_PAGES
    requires KeyOf(1, v) in tree
    ensures KeyOf(l, v) in tree && tree[KeyOf(l, v)] in t
    ensures var e := t[tree[KeyOf(l, v)]][Index(l, v)];
      e.Entry? && PRESENT in e.flags && WRITABLE in e.flags && USER in e.flags
  {
    if KeyOf(l, v) !in tree {
      MissingBelow(t, root, tree, place, l, v);
    }
    if KeyOf(l - 1, v) !in tree {
      MissingBelow(t, root, tree, place, l - 1, v);
    }
    WalkStep(t, root, tree, place, l, v);
    if l == 4 {
      RootPath(v);
    }
  }

  // ---- changing one slot ------------------------------------------------------------------------

  function Put(t: Tables, f: Frame, i: nat, e: Entry): Tables
    requires f in t && i < 512
  {
    t[f := t[f][i := e]]
  }

  const LINK: set<Flag> := {PRESENT, WRITABLE, USER}

  /** A fresh, empty table hung into an unused slot. */
  lemma AddTable(t: Tables, root: Frame, tree: Tree, place: map<Frame, Key>, k: Key, i: nat, f: Frame)
    requires TreeOk(t, root, tree, place) && k in tree && k.level > 1 && i < Slots(k)
    requires t[tree[k]][i].Unused? && f !in place
    ensures var t' := Put(t[f := EMPTY], tree[k], i, Entry(f, LINK)); var c := Child(k, i);
      && TreeOk(t', root, tree[c := f], place[f := c]) && (Linked(t, tree) ==> Linked(t', tree[c := f]))
      && forall v :: Leaf(t', tree[c := f], v) == Leaf(t, tree, v)
  {
    var t' := Put(t[f := EMPTY], tree[k], i, Entry(f, LINK));
    var c := Child(k, i);
    var tree' := tree[c := f];
    assert SlotOk(t, tree, k, i);
    assert Parent(c) == k && c.prefix % 512 == i;
    forall q, j | q in tree' && q.level > 1 && 0 <= j < Slots(q)
      ensures SlotOk(t', tree', q, j)
    {
      ChildParent(q, j);
      if q != c {
        assert SlotOk(t, tree, q, j);
        assert Child(q, j) == c ==> q == k && j == i;
      }
    }
  }

  lemma ChildParent(k: Key, i: nat)
    requires k.level > 0 && i < 512
    ensures Parent(Child(k, i)) == k && Child(k, i).prefix % 512 == i
  {
  }

  /** Rewriting a link's flags, without HUGE, changes nothing else. */
  lemma RelinkSlot(t: Tables, root: Frame, tree: Tree, place: map<Frame, Key>, k: Key, i: nat, flags: set<Flag>)
    requires TreeOk(t, root, tree, place) && k in tree && k.level > 1 && i < Slots(k)
    requires t[tree[k]][i].Entry? && HUGE !in flags && t[tree[k]][i].flags <= flags
    ensures var t' := Put(t, tree[k], i, Entry(t[tree[k]][i].frame, flags));
      && TreeOk(t', root, tree, place) && (Linked(t, tree) ==> Linked(t', tree))
      && forall v :: Leaf(t', tree, v) == Leaf(t, tree, v)
  {
    var t' := Put(t, tree[k], i, Entry(t[tree[k]][i].frame, flags));
    assert SlotOk(t, tree, k, i);
    forall q, j | q in tree && q.level > 1 && 0 <= j < Slots(q)
      ensures SlotOk(t', tree, q, j)
    {
      assert SlotOk(t, tree, q, j);
    }
  }

  /** Writing page `v`'s entry changes the entry of page `v` and of no other. */
  lemma PutLeaf(t: Tables, root: Frame, tree: Tree, place: map<Frame, Key>, v: nat, e: Entry)
    requires TreeOk(t, root, tree, place) && KeyOf(1, v) in tree
    ensures var t' := Put(t, tree[KeyOf(1, v)], Index(1, v), e);
      && TreeOk(t', root, tree, place) && (Linked(t, tree) ==> Linked(t', tree))
      && forall w :: Leaf(t', tree, w) == if w == v then e else Leaf(t, tree, w)
  {
    var t' := Put(t, tree[KeyOf(1, v)], Index(1, v), e);
    forall q, j | q in tree && q.level > 1 && 0 <= j < Slots(q)
      ensures SlotOk(t', tree, q, j)
    {
      assert SlotOk(t, tree, q, j);
    }
    forall w: nat
      ensures Leaf(t', tree, w) == if w == v then e else Leaf(t, tree, w)
    {
      SamePage(v, w);
    }
  }

  lemma SamePage(v: nat, w: nat)
    ensures KeyOf(1, v) == KeyOf(1, w) && Index(1, v) == Index(1, w) ==> v == w
  {
    assert Prefix(1, v) == v / 512 && Prefix(1, w) == w / 512;
  }

  // ---- physical memory and frames ----------------------------------------------------------------

  /** Frame contents seen as page tables, the free frames, and the kernel's root. */
  class Machine {
    var tables: Tables
    var free: set<Frame>
    var kernelRoot: Option<Frame>

    constructor (tables: Tables, free: set<Frame>, kernelRoot: Option<Frame>)
      ensures this.tables == tables && this.free == free && this.kernelRoot == kernelRoot
    {
      this.tables, this.free, this.kernelRoot := tables, free, kernelRoot;
    }

    method AllocFrame() returns (frame: Option<Frame>)
      modifies this`free
      ensures frame.None? <==> old(free) == {}
      ensures frame.None? ==> free == {}
      ensures frame.Some? ==> frame.value in old(free) && free == old(free) - {frame.value}
    {
      if free == {} {
        return None;
      }
      var f :| f in free;
      free := free - {f};
      return Some(f);
    }

    method FreeFrame(frame: Frame)
      modifies this`free
      ensures free == old(free) + {frame}
    {
      free := free + {frame};
    }

    method FreeAll(frames: seq<Frame>)
      modifies this`free
      ensures free == old(free) + (set f | f in frames)
      ensures Distinct(frames) && (forall f | f in frames :: f !in old(free)) ==> |free| == old(|free|) + |frames|
    {
      for i := 0 to |frames|
        invariant free == old(free) + (set f | f in frames[..i])
        invariant Distinct(frames) && (forall f | f in frames :: f !in old(free)) ==> |free| == old(|free|) + i
      {
        assert frames[..i + 1] == frames[..i] + [frames[i]];
        FreeFrame(frames[i]);
      }
      assert frames[..|frames|] == frames;
    }
  }

  /** What an address translates to under its page's entry. */
  ghost function Translation(e: Entry, virt: nat): Option<(nat, set<Flag>)> {
    match e case Unused => None case Entry(frame, flags) => Some((frame * PAGE_SIZE + virt % PAGE_SIZE, flags))
  }

  ghost predicate Distinct(s: seq<Frame>) { forall i, j | 0 <= i < j < |s| :: s[i] != s[j] }

  // ---- address spaces ----------------------------------------------------------------------------

  class AddressSpace {
    const machine: Machine
    const root: Frame
    var userFrames: seq<Frame>
    var tableFrames: seq<Frame>
    ghost var tree: Tree
    ghost var place: map<Frame, Key>

    /** Frames this space will give back. */
    ghost function Owned(): set<Frame>
      reads this
    {
      place.Keys + (set f | f in userFrames)
    }

    ghost predicate Valid()
      reads this, machine
    {
      && TreeOk(machine.tables, root, tree, place) && Linked(machine.tables, tree)
      && (forall f :: f in tableFrames <==> f in place) && Distinct(tableFrames) && Distinct(userFrames)
      && (forall f | f in userFrames :: f !in place)
      && (forall f | f in machine.free :: f !in place && f !in userFrames)
    }

    /** The entry of page `v`. */
    ghost function Page(v: nat): Entry
      requires Valid()
      reads this, machine
    {
      Leaf(machine.tables, tree, v)
    }

    /** The hardware reaches every mapped page through open links. */
    lemma MappedReachable(v: nat, l: nat)
      requires Valid() && v < USER_PAGES && Page(v).Entry? && 2 <= l <= 4
      ensures KeyOf(l, v) in tree && tree[KeyOf(l, v)] in machine.tables
      ensures var e := machine.tables[tree[KeyOf(l, v)]][Index(l, v)];
        && e.Entry? && PRESENT in e.flags && WRITABLE in e.flags && USER in e.flags
        && KeyOf(l - 1, v) in tree && tree[KeyOf(l - 1, v)] == e.frame
    {
      hide TreeOk, Linked, Distinct;
      PathOpen(machine.tables, root, tree, place, l, v);
      WalkStep(machine.tables, root, tree, place, l, v);
    }

    /** Nothing outside this space's tables changed, nor the kernel half. */
    twostate predicate Apart()
      requires old(Valid()) && Valid()
      reads this, machine
    {
      && (forall f | f in old(machine.tables) && f !in place ::
              f in machine.tables && machine.tables[f] == old(machine.tables[f]))
      && machine.tables[root][KERNEL_START..] == old(machine.tables[root])[KERNEL_START..]
      && machine.kernelRoot == old(machine.kernelRoot)
    }

    constructor (m: Machine, frame: Frame, table: Table)
      requires m.tables[frame := table] == m.tables && frame !in m.free
      requires forall i | 0 <= i < KERNEL_START :: table[i].Unused?
      ensures machine == m && root == frame && Valid() && userFrames == [] && Owned() == {frame}
      ensures forall v: nat :: Page(v).Unused?
    {
      machine, root := m, frame;
      userFrames, tableFrames := [], [frame];
      tree, place := map[ROOT := frame], map[frame := ROOT];
      new;
      assert m.tables[frame] == table;
      forall i | 0 <= i < Slots(ROOT)
        ensures SlotOk(m.tables, tree, ROOT, i)
      {
      }
    }

    /** A fresh space: an empty user half under a copy of the kernel half. */
    static method New(m: Machine) returns (r: Result<AddressSpace>)
      requires m.kernelRoot.Some? ==> m.kernelRoot.value in m.tables && m.kernelRoot.value !in m.free
      modifies m
      ensures m.kernelRoot == old(m.kernelRoot)
      ensures r.Err? ==> m.free == old(m.free)
      ensures r.Err? <==> old(m.free) == {} || m.kernelRoot.None?
      ensures r.Ok? ==> fresh(r.value) && r.value.machine == m && r.value.Valid()
      ensures r.Ok? ==> m.free + r.value.Owned() == old(m.free) && (forall v: nat :: r.value.Page(v).Unused?)
      ensures r.Ok? ==> m.tables[r.value.root][KERNEL_START..] == old(m.tables)[m.kernelRoot.value][KERNEL_START..]
      ensures forall f | f in old(m.tables) && f !in old(m.free) :: f in m.tables && m.tables[f] == old(m.tables[f])
    {
      var frame := m.AllocFrame();
      if frame.None? {
        return Err(OutOfMemory);
      }
      var f := frame.value;
      m.tables := m.tables[f := EMPTY];
      if m.kernelRoot.None? {
        m.FreeFrame(f);
        return Err(KernelRootNotInitialized);
      }
      var kernel := m.tables[m.kernelRoot.value];
      assert EMPTY == EMPTY[..KERNEL_START] + kernel[KERNEL_START..KERNEL_START] + EMPTY[KERNEL_START..];
      for i := KERNEL_START to 512
        invariant m.free == old(m.free) - {f} && m.kernelRoot == old(m.kernelRoot)
        invariant m.tables == old(m.tables)[f := EMPTY[..KERNEL_START] + kernel[KERNEL_START..i] + EMPTY[i..]]
      {
        m.tables := m.tables[f := m.tables[f][i := kernel[i]]];
        assert m.tables[f] == EMPTY[..KERNEL_START] + kernel[KERNEL_START..i + 1] + EMPTY[i + 1..];
      }
      var space := new AddressSpace(m, f, m.tables[f]);
      return Ok(space);
    }

    /** Translation: the mapping of the page an address lies in. */
    method UserPageMapping(virt: nat) returns (r: Result<Option<(nat, set<Flag>)>>)
      requires Valid()
      ensures virt >= USER_SPACE_END <==> r.Err?
      ensures r.Err? ==> r.error == InvalidUserAddress
      ensures r.Ok? ==> r.value == Translation(Page(virt / PAGE_SIZE), virt)
    {
      if virt >= USER_SPACE_END {
        return Err(InvalidUserAddress);
      }
      ghost var t := machine.tables;
      var v := virt / PAGE_SIZE;
      RootPath(v);
      WalkStep(t, root, tree, place, 4, v);
      var p4 := machine.tables[root][Index(4, v)];
      if p4.Unused? {
        MissingBelow(t, root, tree, place, 3, v);
        return Ok(None);
      }
      if HUGE in p4.flags {
        return Err(HugePageInPath);
      }
      WalkStep(t, root, tree, place, 3, v);
      var p3 := machine.tables[p4.frame][Index(3, v)];
      if p3.Unused? {
        MissingBelow(t, root, tree, place, 2, v);
        return Ok(None);
      }
      if HUGE in p3.flags {
        return Err(HugePageInPath);
      }
      WalkStep(t, root, tree, place, 2, v);
      var p2 := machine.tables[p3.frame][Index(2, v)];
      if p2.Unused? {
        return Ok(None);
      }
      if HUGE in p2.flags {
        return Err(HugePageInPath);
      }
      var p1 := machine.tables[p2.frame][Index(1, v)];
      if p1.Unused? {
        return Ok(None);
      }
      return Ok(Some((p1.frame * PAGE_SIZE + virt % PAGE_SIZE, p1.flags)));
    }

    /** The table below slot `i` of the table at `k`, made if it is missing. */
    method EnsureNextTable(ghost k: Key, table: Frame, i: nat) returns (r: Result<Frame>)
      requires Valid() && k in tree && tree[k] == table && k.level > 1 && i < Slots(k)
      modifies this`tableFrames, this`tree, this`place, machine
      ensures Valid() && Apart() && forall v :: Page(v) == old(Page(v))
      ensures machine.free + Owned() == old(machine.free + Owned())
      ensures old(place.Keys) <= place.Keys && forall x | x in old(tree) :: x in tree && tree[x] == old(tree)[x]
      ensures r.Ok? ==> Child(k, i) in tree && tree[Child(k, i)] == r.value
      ensures r.Err? ==> r.error == OutOfMemory && machine.free == old(machine.free) == {} && Owned() == old(Owned())
    {
      hide TreeOk, Linked, Distinct;
      ghost var t := machine.tables;
      EntryHere(t, root, tree, place, k, i);
      var entry := machine.tables[table][i];
      if entry.Entry? {
        if HUGE in entry.flags {
          return Err(HugePageInPath);
        }
        if USER !in entry.flags {
          RelinkSlot(t, root, tree, place, k, i, entry.flags + {USER});
          machine.tables := Put(machine.tables, table, i, Entry(entry.frame, entry.flags + {USER}));
        }
        return Ok(entry.frame);
      }
      var frame := machine.AllocFrame();
      if frame.None? {
        return Err(OutOfMemory);
      }
      HangTable(k, table, i, frame.value);
      return Ok(frame.value);
    }

    /** Hangs a frame that has just been taken from the free ones into a slot. */
    method HangTable(ghost k: Key, table: Frame, i: nat, f: Frame)
      requires Valid() && k in tree && tree[k] == table && k.level > 1 && i < Slots(k)
      requires machine.tables[table][i].Unused? && f !in machine.free && f !in Owned()
      modifies this`tableFrames, this`tree, this`place, machine`tables
      ensures Valid() && Apart() && forall v :: Page(v) == old(Page(v))
      ensures tree == old(tree)[Child(k, i) := f] && Owned() == old(Owned()) + {f}
      ensures old(place.Keys) <= place.Keys && forall x | x in old(tree) :: x in tree && tree[x] == old(tree)[x]
    {
      hide TreeOk, Linked, Distinct;
      ghost var t := machine.tables;
      EntryHere(t, root, tree, place, k, i);
      AddTable(t, root, tree, place, k, i, f);
      machine.tables := Put(machine.tables[f := EMPTY], table, i, Entry(f, LINK));
      tree, place := tree[Child(k, i) := f], place[f := Child(k, i)];
      DistinctSnoc(tableFrames, f);
      tableFrames := tableFrames + [f];
    }

    /** The three tables on the way to page `v`. */
    method EnsurePath(v: nat) returns (r: Result<Frame>)
      requires Valid() && v < USER_PAGES
      modifies this`tableFrames, this`tree, this`place, machine
      ensures Valid() && Apart() && forall w :: Page(w) == old(Page(w))
      ensures machine.free + Owned() == old(machine.free + Owned())
      ensures r.Ok? ==> KeyOf(1, v) in tree && tree[KeyOf(1, v)] == r.value
      ensures r.Err? ==> r.error == OutOfMemory && machine.free == {}
    {
      hide TreeOk, Linked, Distinct, Leaf;
      RootPath(v);
      RootIn(machine.tables, root, tree, place);
      PathStep(4, v);
      PathStep(3, v);
      PathStep(2, v);
      var p3 := EnsureNextTable(KeyOf(4, v), root, Index(4, v));
      if p3.Err? {
        return Err(p3.error);
      }
      var p2 := EnsureNextTable(KeyOf(3, v), p3.value, Index(3, v));
      if p2.Err? {
        return Err(p2.error);
      }
      r := EnsureNextTable(KeyOf(2, v), p2.value, Index(2, v));
    }

    /** Writes page `v`'s entry in its table. */
    method PutPage(v: nat, table: Frame, e: Entry)
      requires Valid() && KeyOf(1, v) in tree && tree[KeyOf(1, v)] == table
      modifies machine`tables
      ensures Valid() && Apart() && forall w :: Page(w) == if w == v then e else old(Page(w))
    {
      hide TreeOk, Linked, Distinct;
      LeafTable(machine.tables, root, tree, place, v);
      PutLeaf(machine.tables, root, tree, place, v, e);
      machine.tables := Put(machine.tables, table, Index(1, v), e);
    }

    /** Maps a page to a frame: an insertion, refused if the page is taken. */
    method MapUserFrame(virt: nat, phys: nat, flags: set<Flag>) returns (r: Result<()>)
      requires Valid()
      modifies this`tableFrames, this`tree, this`place, machine
      ensures Valid() && Apart() && machine.free + Owned() == old(machine.free + Owned())
      ensures userFrames == old(userFrames)
      ensures r.Ok? ==> old(Page(virt / PAGE_SIZE)).Unused? && virt / PAGE_SIZE < USER_PAGES
      ensures BadUserAddress(virt) || phys % PAGE_SIZE != 0 ==> r == Err(InvalidUserAddress)
      ensures forall w ::
        Page(w) ==
          if r.Ok? && w == virt / PAGE_SIZE then Entry(phys / PAGE_SIZE, flags + {PRESENT, USER}) else old(Page(w))
      ensures r.Err? ==>
        || (r.error == InvalidUserAddress
            && (BadUserAddress(virt) || phys % PAGE_SIZE != 0 || old(Page(virt / PAGE_SIZE)).Entry?))
        || (r.error == OutOfMemory && machine.free == {})
    {
      hide TreeOk, Linked, Distinct, Leaf;
      if BadUserAddress(virt) || phys % PAGE_SIZE != 0 {
        return Err(InvalidUserAddress);
      }
      var v := virt / PAGE_SIZE;
      var p1 := EnsurePath(v);
      if p1.Err? {
        return Err(p1.error);
      }
      LeafHere(machine.tables, root, tree, place, v);
      if machine.tables[p1.value][Index(1, v)].Entry? {
        return Err(InvalidUserAddress);
      }
      PutPage(v, p1.value, Entry(phys / PAGE_SIZE, flags + {PRESENT, USER}));
      return Ok(());
    }

    /** Maps a page to a fresh frame of its own. */
    method MapUserPage(virt: nat, flags: set<Flag>) returns (r: Result<Frame>)
      requires Valid()
      modifies this, machine
      ensures Valid() && Apart() && machine.free + Owned() == old(machine.free + Owned())
      ensures r.Ok? ==> userFrames == old(userFrames) + [r.value] && r.value in old(machine.free)
      ensures r.Ok? ==> old(Page(virt / PAGE_SIZE)).Unused?
      ensures forall w ::
        Page(w) == if r.Ok? && w == virt / PAGE_SIZE then Entry(r.value, flags + {PRESENT, USER}) else old(Page(w))
      ensures r.Err? ==> userFrames == old(userFrames)
      ensures BadUserAddress(virt) ==> r == Err(InvalidUserAddress)
      ensures r.Err? ==>
        || (r.error == InvalidUserAddress && (BadUserAddress(virt) || old(Page(virt / PAGE_SIZE)).Entry?))
        || (r.error == OutOfMemory && forall f, g | f in machine.free && g in machine.free :: f == g)
    {
      hide TreeOk, Linked, Distinct, Leaf;
      if BadUserAddress(virt) {
        return Err(InvalidUserAddress);
      }
      var frame := machine.AllocFrame();
      if frame.None? {
        return Err(OutOfMemory);
      }
      assert forall w :: Page(w) == old(Page(w));
      var f := frame.value;
      var m := MapUserFrame(virt, f * PAGE_SIZE, flags + {PRESENT, USER});
      assert (flags + {PRESENT, USER}) + {PRESENT, USER} == flags + {PRESENT, USER};
      if m.Err? {
        assert forall w :: Page(w) == old(Page(w));
        GiveBack(f);
        return Err(m.error);
      }
      Keep(f);
      return Ok(f);
    }

    /** An unused frame goes back to the free ones. */
    method GiveBack(f: Frame)
      requires Valid() && f !in Owned()
      modifies machine`free
      ensures Valid() && machine.free == old(machine.free) + {f} && forall w :: Page(w) == old(Page(w))
    {
      hide TreeOk, Linked, Distinct, Leaf;
      machine.FreeFrame(f);
    }

    /** The space takes ownership of a mapped frame. */
    method Keep(f: Frame)
      requires Valid() && f !in Owned() && f !in machine.free
      modifies this`userFrames
      ensures Valid() && userFrames == old(userFrames) + [f] && Owned() == old(Owned()) + {f}
      ensures forall w :: Page(w) == old(Page(w))
    {
      hide TreeOk, Linked, Distinct, Leaf;
      DistinctSnoc(userFrames, f);
      userFrames := userFrames + [f];
    }

    /** Removes a page; its frame goes back if this space owns it. */
    method UnmapUserPage(virt: nat) returns (r: Result<bool>)
      requires Valid()
      modifies this, machine
      ensures Valid() && Apart() && machine.free + Owned() == old(machine.free + Owned())
      ensures r.Err? <==> BadUserAddress(virt)
      ensures r.Ok? ==> r.value == old(Page(virt / PAGE_SIZE)).Entry?
      ensures forall w :: Page(w) == if r.Ok? && w == virt / PAGE_SIZE then Unused else old(Page(w))
      ensures r.Ok? && r.value && old(Page(virt / PAGE_SIZE)).frame in old(userFrames) ==>
        old(Page(virt / PAGE_SIZE)).frame in machine.free && old(Page(virt / PAGE_SIZE)).frame !in userFrames
    {
      hide TreeOk, Linked, Distinct, Leaf;
      if BadUserAddress(virt) {
        return Err(InvalidUserAddress);
      }
      var v := virt / PAGE_SIZE;
      var mapping := UserPageMapping(virt);
      if mapping.value.None? {
        return Ok(false);
      }
      var table := WalkToTable(v);
      PutPage(v, table, Unused);
      label cleared:
      var frame := mapping.value.value.0 / PAGE_SIZE;
      if frame in userFrames {
        userFrames := Without(userFrames, frame);
        machine.FreeFrame(frame);
      }
      assert forall w :: Page(w) == old@cleared(Page(w));
      return Ok(true);
    }

    /** Changes the access of a mapped page, keeping its frame. */
    method ProtectUserPage(virt: nat, flags: set<Flag>, present: bool) returns (r: Result<bool>)
      requires Valid()
      modifies machine
      ensures Valid() && Apart() && machine.free == old(machine.free)
      ensures r.Err? <==> BadUserAddress(virt)
      ensures r.Ok? ==> r.value == old(Page(virt / PAGE_SIZE)).Entry?
      ensures forall w ::
        Page(w) == if r.Ok? && r.value && w == virt / PAGE_SIZE
                   then Entry(old(Page(w)).frame, flags + {USER} + if present then {PRESENT} else {})
                   else old(Page(w))
    {
      hide TreeOk, Linked, Distinct, Leaf;
      if BadUserAddress(virt) {
        return Err(InvalidUserAddress);
      }
      var v := virt / PAGE_SIZE;
      var mapping := UserPageMapping(virt);
      if mapping.value.None? {
        return Ok(false);
      }
      var table := WalkToTable(v);
      PutPage(v, table, Entry(mapping.value.value.0 / PAGE_SIZE, flags + {USER} + if present then {PRESENT} else {}));
      return Ok(true);
    }

    /** Follows the links to a mapped page's table. */
    method WalkToTable(v: nat) returns (table: Frame)
      requires Valid() && v < USER_PAGES && Page(v).Entry?
      ensures KeyOf(1, v) in tree && tree[KeyOf(1, v)] == table
    {
      ghost var t := machine.tables;
      RootPath(v);
      WalkStep(t, root, tree, place, 4, v);
      if machine.tables[root][Index(4, v)].Unused? {
        MissingBelow(t, root, tree, place, 3, v);
      }
      WalkStep(t, root, tree, place, 3, v);
      var p3 := machine.tables[root][Index(4, v)].frame;
      if machine.tables[p3][Index(3, v)].Unused? {
        MissingBelow(t, root, tree, place, 2, v);
      }
      WalkStep(t, root, tree, place, 2, v);
      var p2 := machine.tables[p3][Index(3, v)].frame;
      table := machine.tables[p2][Index(2, v)].frame;
    }

    /** Gives every owned frame back, each exactly once. */
    method Drop()
      requires Valid()
      modifies machine`free
      ensures machine.free == old(machine.free) + Owned()
      ensures |machine.free| == old(|machine.free|) + |userFrames| + |tableFrames|
    {
      machine.FreeAll(userFrames);
      machine.FreeAll(tableFrames);
    }
  }

  predicate BadUserAddress(virt: nat) { virt == 0 || virt >= USER_SPACE_END || virt % PAGE_SIZE != 0 }

  function Position(s: seq<Frame>, f: Frame): (i: nat)
    requires f in s
    ensures i < |s| && s[i] == f
  {
    if s[0] == f then 0 else 1 + Position(s[1..], f)
  }

  /** `swap_remove`: the last element takes the place of the removed one. */
  function Without(s: seq<Frame>, f: Frame): (r: seq<Frame>)
    requires f in s
    ensures Distinct(s) ==> Distinct(r) && forall x :: x in r <==> x in s && x != f
  {
    var i, n := Position(s, f), |s| - 1;
    var r := s[i := s[n]][..n];
    assert forall j | 0 <= j < n :: r[j] == if j == i then s[n] else s[j];
    assert Distinct(s) && i < n ==> r[i] == s[n];
    r
  }

  lemma RootIn(t: Tables, root: Frame, tree: Tree, place: map<Frame, Key>)
    requires TreeOk(t, root, tree, place)
    ensures ROOT in tree && tree[ROOT] == root && root in t
  {
  }

  lemma LeafTable(t: Tables, root: Frame, tree: Tree, place: map<Frame, Key>, v: nat)
    requires TreeOk(t, root, tree, place) && KeyOf(1, v) in tree
    ensures tree[KeyOf(1, v)] in t && tree[KeyOf(1, v)] in place && tree[KeyOf(1, v)] != root && root in t
  {
  }

  lemma LeafHere(t: Tables, root: Frame, tree: Tree, place: map<Frame, Key>, v: nat)
    requires TreeOk(t, root, tree, place) && KeyOf(1, v) in tree
    ensures tree[KeyOf(1, v)] in t && Leaf(t, tree, v) == t[tree[KeyOf(1, v)]][Index(1, v)]
  {
  }

  lemma DistinctSnoc(s: seq<Frame>, f: Frame)
    requires Distinct(s) && f !in s
    ensures Distinct(s + [f])
  {
  }

  lemma EntryHere(t: Tables, root: Frame, tree: Tree, place: map<Frame, Key>, k: Key, i: nat)
    requires TreeOk(t, root, tree, place) && k in tree && k.level > 1 && i < Slots(k)
    ensures tree[k] in t && SlotOk(t, tree, k, i) && tree[k] in place
    ensures k != ROOT ==> tree[k] != root
    ensures root in t && root in place
  {
  }

  // ---- whole lives ------------------------------------------------------------------------------

  datatype VmCall =
    | MapPage(virt: nat, flags: set<Flag>)
    | MapFrame(virt: nat, phys: nat, flags: set<Flag>)
    | Unmap(virt: nat)
    | Protect(virt: nat, flags: set<Flag>, present: bool)

  /** Create, any calls, drop: every frame is back, and the kernel's own tables
      are as they were. */
  method Life(m: Machine, calls: seq<VmCall>)
    requires m.kernelRoot.Some? ==> m.kernelRoot.value in m.tables && m.kernelRoot.value !in m.free
    modifies m
    ensures m.free == old(m.free)
    ensures forall f | f in old(m.tables) && f !in old(m.free) :: f in m.tables && m.tables[f] == old(m.tables[f])
  {
    hide TreeOk, Linked, Distinct, Leaf;
    var r := AddressSpace.New(m);
    if r.Err? {
      return;
    }
    var space := r.value;
    for i := 0 to |calls|
      invariant space.Valid() && space.machine == m && m.free + space.Owned() == old(m.free)
      invariant forall f | f in old(m.tables) && f !in old(m.free) :: f in m.tables && m.tables[f] == old(m.tables[f])
    {
      match calls[i] {
        case MapPage(virt, flags) => var _ := space.MapUserPage(virt, flags);
        case MapFrame(virt, phys, flags) => var _ := space.MapUserFrame(virt, phys, flags);
        case Unmap(virt) => var _ := space.UnmapUserPage(virt);
        case Protect(virt, flags, present) => var _ := space.ProtectUserPage(virt, flags, present);
      }
    }
    space.Drop();
  }
}
