/** Paths and the node table as a tree: lookup, parents, and the rename that
    moves a whole subtree. */
module FsTree {
  import opened Bytes
  import opened FsFormat
  import opened FsNode
  import Utf8

  const SLASH: u8 := 47

  // ---- paths ---------------------------------------------------------------

  /** First position at or after `i` that is not a '/'. */
  function SkipSlashes(p: Path, i: nat): (a: nat)
    requires i <= |p|
    ensures i <= a <= |p| && (a < |p| ==> p[a] != SLASH)
    ensures forall j | i <= j < a :: p[j] == SLASH
    decreases |p| - i
  {
    if i < |p| && p[i] == SLASH then SkipSlashes(p, i + 1) else i
  }

  /** Where the slashes that end `p[lo..n]` begin. */
  function DropSlashes(p: Path, lo: nat, n: nat): (b: nat)
    requires lo <= n <= |p|
    ensures lo <= b <= n && (lo < b ==> p[b - 1] != SLASH)
    ensures forall j | b <= j < n :: p[j] == SLASH
  {
    if lo < n && p[n - 1] == SLASH then DropSlashes(p, lo, n - 1) else n
  }

  /** `trim_matches('/')`. */
  function Clean(p: Path): Path {
    var a := SkipSlashes(p, 0);
    p[a..DropSlashes(p, a, |p|)]
  }

  ghost predicate IsClean(p: Path) {
    p != [] && p[0] != SLASH && p[|p| - 1] != SLASH
  }

  lemma CleanIsClean(p: Path)
    ensures Clean(p) != [] ==> IsClean(Clean(p))
    ensures IsClean(p) ==> Clean(p) == p
  {
  }

  lemma {:induction false} SkipUtf8(p: Path, i: nat)
    requires i <= |p| && Utf8.Valid(p[i..])
    ensures Utf8.Valid(p[SkipSlashes(p, i)..])
    decreases |p| - i
  {
    if i < |p| && p[i] == SLASH {
      assert p[i..][1..] == p[i + 1..];
      SkipUtf8(p, i + 1);
    }
  }

  lemma CutUtf8(t: Path, n: nat)
    requires Utf8.Valid(t) && n <= |t| && (n < |t| ==> t[n] == SLASH)
    ensures Utf8.Valid(t[..n])
  {
    if n < |t| {
      Utf8.ValidSplit(t, n);
    } else {
      assert t[..n] == t;
    }
  }

  lemma CleanUtf8(p: Path)
    requires Utf8.Valid(p)
    ensures Utf8.Valid(Clean(p))
  {
    hide Utf8.Valid, SkipSlashes, DropSlashes;
    assert p[0..] == p;
    SkipUtf8(p, 0);
    var a := SkipSlashes(p, 0);
    var b := DropSlashes(p, a, |p|);
    CutUtf8(p[a..], b - a);
    assert p[a..][..b - a] == p[a..b];
  }

  function LastSlash(p: Path, n: nat): (r: Option<nat>)
    requires n <= |p|
    ensures r.Some? ==> r.value < n && p[r.value] == SLASH
    ensures forall i | (if r.Some? then r.value + 1 else 0) <= i < n :: p[i] != SLASH
  {
    if n == 0 then None else if p[n - 1] == SLASH then Some(n - 1) else LastSlash(p, n - 1)
  }

  /** `rfind('/')`. */
  function RFind(p: Path): Option<nat> { LastSlash(p, |p|) }

  /** The cleaned directory part: what the parent lookup searches for. */
  function Parent(p: Path): Option<Path> {
    match RFind(p) case None => None case Some(k) => Some(Clean(p[..k]))
  }

  ghost predicate Under(p: Path, dir: Path) {
    dir + [SLASH] <= p
  }

  lemma CleanOfDirPart(d: Path)
    requires d != [] && d[0] != SLASH
    ensures var q := Clean(d);
      && q != [] && q == d[..|q|] && q[|q| - 1] != SLASH
      && forall i | |q| <= i < |d| :: d[i] == SLASH
  {
    assert SkipSlashes(d, 0) == 0;
    var b := DropSlashes(d, 0, |d|);
    assert d[0..b] == d[..b];
  }

  lemma PrefixUnder(p: Path, m: nat)
    requires m < |p| && p[m] == SLASH
    ensures Under(p, p[..m])
  {
    assert p[..m] + [SLASH] == p[..m + 1];
  }

  lemma UnderSlash(p: Path, dir: Path)
    requires Under(p, dir)
    ensures |dir| < |p| && p[|dir|] == SLASH && p[..|dir|] == dir && p[..|dir| + 1] == dir + [SLASH]
  {
    assert p[..|dir| + 1] == dir + [SLASH];
    assert (dir + [SLASH])[|dir|] == SLASH;
    assert p[..|dir|] == p[..|dir| + 1][..|dir|];
  }

  lemma UnderTrans(p: Path, q: Path, dir: Path)
    requires Under(p, q) && Under(q, dir)
    ensures Under(p, dir)
  {
    UnderSlash(p, q);
    UnderSlash(q, dir);
    assert p[..|dir| + 1] == p[..|q|][..|dir| + 1];
  }

  /** Where the parent of a clean path ends (`m`) and its last '/' (`k`). */
  ghost predicate ParentAt(p: Path, m: nat, k: nat) {
    && 0 < m <= k < |p| && p[m - 1] != SLASH
    && (forall i | m <= i <= k :: p[i] == SLASH)
    && (forall i | k < i < |p| :: p[i] != SLASH)
  }

  lemma ParentShape(p: Path) returns (m: nat, k: nat)
    requires IsClean(p) && SLASH in p
    ensures ParentAt(p, m, k) && Parent(p) == Some(p[..m]) && IsClean(p[..m])
  {
    k := RFind(p).value;
    var d := p[..k];
    assert d[0] == p[0];
    CleanOfDirPart(d);
    var q := Clean(d);
    m := |q|;
    assert q == d[..m] == p[..m];
    assert p[m - 1] == q[m - 1];
    forall i | m <= i <= k
      ensures p[i] == SLASH
    {
      if i < k {
        assert d[i] == p[i];
      }
    }
  }

  lemma ParentUnique(p: Path, m: nat, k: nat)
    requires IsClean(p) && ParentAt(p, m, k)
    ensures SLASH in p && Parent(p) == Some(p[..m])
  {
    assert p[k] in p;
    var m', k' := ParentShape(p);
    assert p[k] == SLASH && p[k'] == SLASH;
    assert k == k';
    assert p[m - 1] != SLASH && p[m' - 1] != SLASH;
    assert m == m';
  }

  // ---- lookups ---------------------------------------------------------------

  function FindPath(nodes: Nodes, p: Path, from: nat): (r: Option<nat>)
    requires from <= MAX_NODES
    ensures r.Some? ==> from <= r.value < MAX_NODES && nodes[r.value].Some? && nodes[r.value].value.path == p
    ensures forall i | from <= i < (if r.Some? then r.value else MAX_NODES) ::
      nodes[i].Some? ==> nodes[i].value.path != p
    decreases MAX_NODES - from, nodes
  {
    if from == MAX_NODES then None
    else if nodes[from].Some? && nodes[from].value.path == p then Some(from)
    else FindPath(nodes, p, from + 1)
  }

  function NodeIndex(nodes: Nodes, path: Path): Option<nat> { FindPath(nodes, Clean(path), 0) }

  function FindFree(nodes: Nodes, from: nat): (r: Option<nat>)
    requires from <= MAX_NODES
    ensures r.Some? ==> from <= r.value < MAX_NODES && nodes[r.value].None?
    ensures forall i | from <= i < (if r.Some? then r.value else MAX_NODES) :: nodes[i].Some?
    decreases MAX_NODES - from, nodes
  {
    if from == MAX_NODES then None else if nodes[from].None? then Some(from) else FindFree(nodes, from + 1)
  }

  predicate IsDirectory(nodes: Nodes, p: Path) {
    var r := FindPath(nodes, p, 0);
    r.Some? && nodes[r.value].value.fileType == Directory
  }

  predicate ParentExists(nodes: Nodes, p: Path) {
    match Parent(p) case None => true case Some(q) => IsDirectory(nodes, q)
  }

  ghost predicate UniquePaths(nodes: Nodes) {
    forall i, j | 0 <= i < j < MAX_NODES && nodes[i].Some? && nodes[j].Some? ::
      nodes[i].value.path != nodes[j].value.path
  }

  ghost predicate CleanPaths(nodes: Nodes) {
    forall i | 0 <= i < MAX_NODES && nodes[i].Some? :: IsClean(nodes[i].value.path)
  }

  /** Every node's parent is the root or an existing directory. */
  ghost predicate ParentsOk(nodes: Nodes) {
    forall i | 0 <= i < MAX_NODES && nodes[i].Some? :: ParentExists(nodes, nodes[i].value.path)
  }

  ghost predicate TreeOk(nodes: Nodes) {
    UniquePaths(nodes) && CleanPaths(nodes) && ParentsOk(nodes)
  }

  lemma FindsAt(nodes: Nodes, i: nat)
    requires UniquePaths(nodes) && i < MAX_NODES && nodes[i].Some?
    ensures FindPath(nodes, nodes[i].value.path, 0) == Some(i)
  {
  }

  /** In a tree, whatever lies under a path implies a directory there. */
  lemma {:induction false} AncestorExists(nodes: Nodes, i: nat, dir: Path)
    requires TreeOk(nodes) && i < MAX_NODES && nodes[i].Some? && IsClean(dir)
    requires Under(nodes[i].value.path, dir)
    ensures IsDirectory(nodes, dir)
    decreases |nodes[i].value.path|
  {
    var p := nodes[i].value.path;
    UnderSlash(p, dir);
    var m, k := ParentShape(p);
    assert ParentExists(nodes, p);
    ParentReaches(p, dir, m, k);
    if m > |dir| {
      AncestorExists(nodes, FindPath(nodes, p[..m], 0).value, dir);
    }
  }

  /** The parent of a path under `dir` is `dir` or again under it. */
  lemma ParentReaches(p: Path, dir: Path, m: nat, k: nat)
    requires IsClean(dir) && Under(p, dir) && ParentAt(p, m, k)
    ensures m >= |dir|
    ensures m == |dir| ==> p[..m] == dir
    ensures m > |dir| ==> Under(p[..m], dir)
  {
    UnderSlash(p, dir);
    assert p[|dir| - 1] == p[..|dir|][|dir| - 1] == dir[|dir| - 1];
    assert k >= |dir|;
    if m > |dir| {
      assert p[..m][..|dir| + 1] == p[..|dir| + 1];
    }
  }

  // ---- rename ------------------------------------------------------------------

  /** The path a descendant of `src` gets when `src` becomes `new`. */
  function Moved(p: Path, src: Path, dst: Path): Path {
    if src + [SLASH] <= p then dst + [SLASH] + p[|src| + 1..] else p
  }

  function RenamedNode(n: Node, isSource: bool, isDir: bool, src: Path, dst: Path, now: u64): Node {
    if isSource then n.(path := dst, mtime := now)
    else if isDir then n.(path := Moved(n.path, src, dst))
    else n
  }

  function RenamedNodes(nodes: Nodes, index: nat, src: Path, dst: Path, now: u64): Nodes
    requires index < MAX_NODES && nodes[index].Some?
  {
    var isDir := nodes[index].value.fileType == Directory;
    seq(MAX_NODES, i requires 0 <= i < MAX_NODES =>
      if nodes[i].None? then None
      else Some(RenamedNode(nodes[i].value, i == index, isDir, src, dst, now)))
  }

  /** No rewritten descendant path exceeds the stored length. */
  predicate MovesFit(nodes: Nodes, src: Path, dst: Path) {
    forall i | 0 <= i < MAX_NODES && nodes[i].Some? && src + [SLASH] <= nodes[i].value.path ::
      |Moved(nodes[i].value.path, src, dst)| <= PATH_SIZE
  }

  /** The guards of rename, in the order they are checked. */
  datatype RenameCheck = Missing | BadName | Exists | NoParent | TooLong | Allowed(index: nat)

  function CheckRename(nodes: Nodes, src: Path, dst: Path): (r: RenameCheck)
    ensures r.Allowed? ==> r.index < MAX_NODES && nodes[r.index].Some? && nodes[r.index].value.path == src
  {
    match FindPath(nodes, src, 0)
    case None => Missing
    case Some(index) =>
      if |dst| == 0 || |dst| > PATH_SIZE then BadName
      else if FindPath(nodes, dst, 0).Some? then Exists
      else if !ParentExists(nodes, dst) then NoParent
      else if nodes[index].value.fileType == Directory && !MovesFit(nodes, src, dst) then TooLong
      else Allowed(index)
  }

  /** Facts shared by the rename lemmas: a successful rename of a tree node. */
  ghost predicate Renaming(nodes: Nodes, index: nat, src: Path, dst: Path) {
    && TreeOk(nodes) && IsClean(src) && IsClean(dst)
    && CheckRename(nodes, src, dst) == Allowed(index)
  }

  lemma MovedClean(p: Path, src: Path, dst: Path)
    requires IsClean(p) && IsClean(dst) && Under(p, src)
    ensures var r := Moved(p, src, dst);
      && |r| == |p| - |src| + |dst| && IsClean(r) && Under(r, dst)
      && (forall i | |src| <= i < |p| :: r[i - |src| + |dst|] == p[i])
  {
    var r := Moved(p, src, dst);
    UnderSlash(p, src);
    assert |src| + 1 < |p|;
    assert r[..|dst| + 1] == dst + [SLASH];
    assert r[0] == dst[0];
    assert r[|r| - 1] == p[|p| - 1];
  }

  lemma MovedParentAt(p: Path, src: Path, dst: Path, m: nat, k: nat)
    requires IsClean(p) && IsClean(src) && IsClean(dst) && Under(p, src) && ParentAt(p, m, k)
    ensures m >= |src| && ParentAt(Moved(p, src, dst), m - |src| + |dst|, k - |src| + |dst|)
  {
    ParentReaches(p, src, m, k);
    MovedClean(p, src, dst);
    var r := Moved(p, src, dst);
    var d := |dst| - |src|;
    UnderSlash(r, dst);
    assert r[m + d - 1] != SLASH by {
      if m == |src| {
        assert r[|dst| - 1] == r[..|dst|][|dst| - 1] == dst[|dst| - 1];
      } else {
        assert r[(m - 1) - |src| + |dst|] == p[m - 1];
      }
    }
    forall i | m + d <= i <= k + d
      ensures r[i] == SLASH
    {
      assert r[(i - d) - |src| + |dst|] == p[i - d];
    }
    forall i | k + d < i < |r|
      ensures r[i] != SLASH
    {
      assert r[(i - d) - |src| + |dst|] == p[i - d];
    }
  }

  lemma MovedPrefix(p: Path, src: Path, dst: Path, m: nat)
    requires IsClean(p) && IsClean(dst) && Under(p, src) && |src| <= m <= |p|
    requires m > |src| ==> Under(p[..m], src)
    ensures |Moved(p, src, dst)| == |p| - |src| + |dst|
    ensures Moved(p, src, dst)[..m - |src| + |dst|] == if m == |src| then dst else Moved(p[..m], src, dst)
  {
    MovedClean(p, src, dst);
    var r := Moved(p, src, dst);
    UnderSlash(r, dst);
    if m > |src| {
      var t := p[|src| + 1..];
      assert p[..m][|src| + 1..] == t[..m - |src| - 1];
      assert r == (dst + [SLASH]) + t;
    }
  }

  lemma MovedParent(p: Path, src: Path, dst: Path)
    requires IsClean(p) && IsClean(src) && IsClean(dst) && Under(p, src)
    ensures Parent(p).Some? && Parent(Moved(p, src, dst)).Some?
    ensures var q := Parent(p).value;
      && (q == src || Under(q, src))
      && Parent(Moved(p, src, dst)).value == (if q == src then dst else Moved(q, src, dst))
  {
    UnderSlash(p, src);
    var m, k := ParentShape(p);
    ParentReaches(p, src, m, k);
    MovedParentAt(p, src, dst, m, k);
    MovedClean(p, src, dst);
    ParentUnique(Moved(p, src, dst), m - |src| + |dst|, k - |src| + |dst|);
    MovedPrefix(p, src, dst, m);
  }

  lemma MovedInjective(p: Path, q: Path, src: Path, dst: Path)
    requires Under(p, src) && Under(q, src) && Moved(p, src, dst) == Moved(q, src, dst)
    ensures p == q
  {
    UnderSlash(p, src);
    UnderSlash(q, src);
    var n := |dst| + 1;
    assert Moved(p, src, dst)[n..] == p[|src| + 1..];
    assert Moved(q, src, dst)[n..] == q[|src| + 1..];
    assert p == p[..|src| + 1] + p[|src| + 1..];
    assert q == q[..|src| + 1] + q[|src| + 1..];
  }

  /** Where slot `i`'s path goes: the source to `dst`, its descendants with it. */
  ghost function NewPath(nodes: Nodes, index: nat, i: nat, src: Path, dst: Path): Path
    requires index < MAX_NODES && nodes[index].Some? && i < MAX_NODES && nodes[i].Some?
  {
    if i == index then dst
    else if nodes[index].value.fileType == Directory then Moved(nodes[i].value.path, src, dst)
    else nodes[i].value.path
  }

  /** Where a renamed path ends up: at `dst`, under `dst`, or where it was. */
  lemma NewPathCases(nodes: Nodes, index: nat, i: nat, src: Path, dst: Path)
    requires Renaming(nodes, index, src, dst) && i < MAX_NODES && nodes[i].Some?
    ensures IsClean(NewPath(nodes, index, i, src, dst))
    ensures i != index && nodes[index].value.fileType == Directory && Under(nodes[i].value.path, src)
      ==> Under(NewPath(nodes, index, i, src, dst), dst)
    ensures i != index && !(nodes[index].value.fileType == Directory && Under(nodes[i].value.path, src))
      ==> NewPath(nodes, index, i, src, dst) == nodes[i].value.path
          && nodes[i].value.path != dst && !Under(nodes[i].value.path, dst)
  {
    if Under(nodes[i].value.path, src) {
      MovedClean(nodes[i].value.path, src, dst);
    }
    if Under(nodes[i].value.path, dst) {
      AncestorExists(nodes, i, dst);
    }
  }

  lemma NewPathsDiffer(nodes: Nodes, index: nat, i: nat, j: nat, src: Path, dst: Path)
    requires Renaming(nodes, index, src, dst) && i < j < MAX_NODES && nodes[i].Some? && nodes[j].Some?
    ensures NewPath(nodes, index, i, src, dst) != NewPath(nodes, index, j, src, dst)
  {
    NewPathCases(nodes, index, i, src, dst);
    NewPathCases(nodes, index, j, src, dst);
    var pi, pj := nodes[i].value.path, nodes[j].value.path;
    if NewPath(nodes, index, i, src, dst) == NewPath(nodes, index, j, src, dst) && Under(pi, src) && Under(pj, src)
       && nodes[index].value.fileType == Directory && i != index && j != index {
      MovedInjective(pi, pj, src, dst);
    }
  }

  /** Renaming re-keys the table without ever making two paths equal. */
  lemma RenameUnique(nodes: Nodes, index: nat, src: Path, dst: Path, now: u64)
    requires Renaming(nodes, index, src, dst)
    ensures UniquePaths(RenamedNodes(nodes, index, src, dst, now))
    ensures CleanPaths(RenamedNodes(nodes, index, src, dst, now))
  {
    var nodes' := RenamedNodes(nodes, index, src, dst, now);
    forall i | 0 <= i < MAX_NODES && nodes'[i].Some?
      ensures IsClean(nodes'[i].value.path)
    {
      NewPathCases(nodes, index, i, src, dst);
    }
    forall i, j | 0 <= i < j < MAX_NODES && nodes'[i].Some? && nodes'[j].Some?
      ensures nodes'[i].value.path != nodes'[j].value.path
    {
      NewPathsDiffer(nodes, index, i, j, src, dst);
    }
  }

  /** A directory that the rename leaves in place is still found afterwards. */
  lemma DirectoryAfter(nodes: Nodes, index: nat, src: Path, dst: Path, now: u64, i: nat)
    requires Renaming(nodes, index, src, dst) && i < MAX_NODES && nodes[i].Some?
    requires nodes[i].value.fileType == Directory
    ensures IsDirectory(RenamedNodes(nodes, index, src, dst, now), NewPath(nodes, index, i, src, dst))
  {
    RenameUnique(nodes, index, src, dst, now);
    FindsAt(RenamedNodes(nodes, index, src, dst, now), i);
  }

  lemma SourceIs(nodes: Nodes, index: nat, src: Path, dst: Path, i: nat)
    requires Renaming(nodes, index, src, dst) && i < MAX_NODES && nodes[i].Some?
    requires nodes[i].value.path == src
    ensures i == index
  {
    FindsAt(nodes, i);
  }

  lemma MovedParentExists(nodes: Nodes, index: nat, src: Path, dst: Path, now: u64, i: nat)
    requires Renaming(nodes, index, src, dst) && i < MAX_NODES && nodes[i].Some? && i != index
    requires nodes[index].value.fileType == Directory && Under(nodes[i].value.path, src)
    ensures ParentExists(RenamedNodes(nodes, index, src, dst, now), Moved(nodes[i].value.path, src, dst))
  {
    var p := nodes[i].value.path;
    MovedParent(p, src, dst);
    var q := Parent(p).value;
    assert ParentExists(nodes, p);
    var j := FindPath(nodes, q, 0).value;
    DirectoryAfter(nodes, index, src, dst, now, j);
    if q == src {
      SourceIs(nodes, index, src, dst, j);
    } else if j == index {
      UnderSlash(q, src);
    }
  }

  lemma StillParentExists(nodes: Nodes, index: nat, src: Path, dst: Path, now: u64, p: Path)
    requires Renaming(nodes, index, src, dst) && ParentExists(nodes, p) && IsClean(p)
    requires nodes[index].value.fileType == Directory ==> !Under(p, src)
    ensures ParentExists(RenamedNodes(nodes, index, src, dst, now), p)
  {
    if SLASH in p {
      var m, k := ParentShape(p);
      var q := p[..m];
      var j := FindPath(nodes, q, 0).value;
      PrefixUnder(p, m);
      if nodes[index].value.fileType == Directory && Under(q, src) {
        UnderTrans(p, q, src);
      }
      assert j != index;
      DirectoryAfter(nodes, index, src, dst, now, j);
    }
  }

  /** Moving a node outside its own subtree keeps the table a tree. */
  lemma RenameKeepsTree(nodes: Nodes, index: nat, src: Path, dst: Path, now: u64)
    requires Renaming(nodes, index, src, dst) && !Under(dst, src)
    ensures TreeOk(RenamedNodes(nodes, index, src, dst, now))
  {
    var nodes' := RenamedNodes(nodes, index, src, dst, now);
    RenameUnique(nodes, index, src, dst, now);
    forall i | 0 <= i < MAX_NODES && nodes'[i].Some?
      ensures ParentExists(nodes', nodes'[i].value.path)
    {
      assert ParentExists(nodes, nodes[i].value.path);
      if i == index {
        StillParentExists(nodes, index, src, dst, now, dst);
      } else if nodes[index].value.fileType == Directory && Under(nodes[i].value.path, src) {
        MovedParentExists(nodes, index, src, dst, now, i);
      } else {
        StillParentExists(nodes, index, src, dst, now, nodes[i].value.path);
      }
    }
  }

  /** Nothing is left at or under the old name when the new one lies below it. */
  lemma NothingBetween(nodes: Nodes, index: nat, src: Path, dst: Path, i: nat, q: Path)
    requires Renaming(nodes, index, src, dst) && nodes[index].value.fileType == Directory
    requires Under(dst, src) && i < MAX_NODES && nodes[i].Some?
    requires (q == src || Under(q, src)) && |q| < |dst|
    ensures NewPath(nodes, index, i, src, dst) != q
  {
    NewPathCases(nodes, index, i, src, dst);
    if i != index {
      if Under(nodes[i].value.path, src) {
        UnderSlash(NewPath(nodes, index, i, src, dst), dst);
      } else if q == src && nodes[i].value.path == src {
        SourceIs(nodes, index, src, dst, i);
      }
    }
  }

  /** Moving a directory into its own subtree orphans it. */
  lemma RenameIntoSubtree(nodes: Nodes, index: nat, src: Path, dst: Path, now: u64)
    requires Renaming(nodes, index, src, dst) && Under(dst, src)
    ensures !ParentsOk(RenamedNodes(nodes, index, src, dst, now))
  {
    var nodes' := RenamedNodes(nodes, index, src, dst, now);
    UnderSlash(dst, src);
    var m, k := ParentShape(dst);
    ParentReaches(dst, src, m, k);
    var q := dst[..m];
    SubtreeNeedsDirectory(nodes, index, src, dst, q);
    var r := FindPath(nodes', q, 0);
    if r.Some? {
      NothingBetween(nodes, index, src, dst, r.value, q);
    }
    assert nodes'[index].value.path == dst;
    assert !ParentExists(nodes', dst);
  }

  lemma SubtreeNeedsDirectory(nodes: Nodes, index: nat, src: Path, dst: Path, q: Path)
    requires Renaming(nodes, index, src, dst) && Parent(dst) == Some(q) && (q == src || Under(q, src))
    ensures nodes[index].value.fileType == Directory
  {
    var j := FindPath(nodes, q, 0).value;
    if q != src {
      AncestorExists(nodes, j, src);
    }
  }

  /** Exactly when a permitted rename keeps every parent in place: the
      destination is not inside the source's own subtree. */
  lemma RenameTreeIff(nodes: Nodes, index: nat, src: Path, dst: Path, now: u64)
    requires Renaming(nodes, index, src, dst)
    ensures TreeOk(RenamedNodes(nodes, index, src, dst, now)) <==> !Under(dst, src)
  {
    if Under(dst, src) {
      RenameIntoSubtree(nodes, index, src, dst, now);
    } else {
      RenameKeepsTree(nodes, index, src, dst, now);
    }
  }
}
