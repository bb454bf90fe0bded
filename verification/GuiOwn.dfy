/** Buffer ownership and the object counters of one connection. */
module GuiOwn {
  import opened GuiModel

  // ---- ownership ----------------------------------------------------------------------

  /** Surface `id` holds what it refers to; `owner` says which surface that is. */
  ghost predicate SurfaceOk(objects: Objects, owner: map<ObjectId, ObjectId>, id: ObjectId, s: Surface) {
    && (!s.pendingAttach ==> s.pendingBuffer == 0)
    && (s.pendingBuffer != 0 ==> Held(objects, owner, id, s.pendingBuffer, Pending, 0))
    && (s.committedBuffer != 0 ==> Held(objects, owner, id, s.committedBuffer, Busy, s.committedToken))
    && (s.committedBuffer == 0 ==> s.committedToken == 0)
    && (s.mapped <==> s.committedBuffer != 0)
    && (s.framePending ==> s.mapped)
  }

  ghost predicate Held(objects: Objects, owner: map<ObjectId, ObjectId>, id: ObjectId, b: ObjectId, state: BufState,
                       token: nat) {
    IsBuffer(objects, b) && objects[b].buffer.state == state && objects[b].buffer.commitToken == token
    && b in owner && owner[b] == id
  }

  /** Buffer `id` is in the hands its state says. */
  ghost predicate BufferOk(objects: Objects, owner: map<ObjectId, ObjectId>, id: ObjectId, b: Buffer) {
    match b.state
    case Available => b.commitToken == 0
    case Pending =>
      && b.commitToken == 0 && id in owner && IsSurface(objects, owner[id])
      && objects[owner[id]].surface.pendingBuffer == id
    case Busy =>
      && id in owner && IsSurface(objects, owner[id])
      && objects[owner[id]].surface.committedBuffer == id
      && objects[owner[id]].surface.committedToken == b.commitToken
  }

  ghost predicate ObjectOk(objects: Objects, owner: map<ObjectId, ObjectId>, id: ObjectId)
    requires id in objects
  {
    match objects[id]
    case Surf(s) => SurfaceOk(objects, owner, id, s)
    case Buf(b) => BufferOk(objects, owner, id, b)
  }

  ghost predicate OwnOk(objects: Objects, owner: map<ObjectId, ObjectId>) {
    0 !in objects && forall id | id in objects :: ObjectOk(objects, owner, id)
  }

  // ---- what it means ---------------------------------------------------------------------

  ghost predicate Reserves(objects: Objects, s: ObjectId, b: ObjectId) {
    IsSurface(objects, s) && objects[s].surface.pendingAttach && objects[s].surface.pendingBuffer == b
  }

  ghost predicate Commits(objects: Objects, s: ObjectId, b: ObjectId) {
    IsSurface(objects, s) && objects[s].surface.committedBuffer == b
  }

  /** A buffer is Pending iff exactly one surface reserves it, Busy iff exactly
      one has it committed, with the same token, and Available iff no surface
      refers to it at all; it is never both reserved and committed. */
  lemma Ownership(objects: Objects, owner: map<ObjectId, ObjectId>, b: ObjectId)
    requires OwnOk(objects, owner) && IsBuffer(objects, b)
    ensures objects[b].buffer.state == Pending <==> exists s :: Reserves(objects, s, b)
    ensures objects[b].buffer.state == Busy <==> exists s :: Commits(objects, s, b)
    ensures forall s, t | Reserves(objects, s, b) && Reserves(objects, t, b) :: s == t
    ensures forall s, t | Commits(objects, s, b) && Commits(objects, t, b) :: s == t
    ensures forall s, t :: !(Reserves(objects, s, b) && Commits(objects, t, b))
    ensures forall s | Commits(objects, s, b) :: objects[s].surface.committedToken == objects[b].buffer.commitToken
  {
    assert ObjectOk(objects, owner, b);
    forall s | Reserves(objects, s, b)
      ensures objects[b].buffer.state == Pending && b in owner && owner[b] == s
    {
      assert ObjectOk(objects, owner, s);
    }
    forall s | Commits(objects, s, b)
      ensures objects[b].buffer.state == Busy && b in owner && owner[b] == s
      ensures objects[s].surface.committedToken == objects[b].buffer.commitToken
    {
      assert ObjectOk(objects, owner, s);
    }
    if objects[b].buffer.state == Pending {
      assert ObjectOk(objects, owner, owner[b]);
      assert Reserves(objects, owner[b], b);
    }
    if objects[b].buffer.state == Busy {
      assert Commits(objects, owner[b], b);
    }
  }

  // ---- each request keeps it ----------------------------------------------------------------

  /** A fresh object that refers to nothing and is referred to by nothing. */
  lemma AddOwn(objects: Objects, owner: map<ObjectId, ObjectId>, id: ObjectId, o: Object)
    requires OwnOk(objects, owner) && id != 0 && id !in objects
    requires match o
      case Surf(s) =>
        s.pendingBuffer == 0 && s.committedBuffer == 0 && s.committedToken == 0 && !s.mapped && !s.framePending
      case Buf(b) => b.state == Available && b.commitToken == 0
    ensures OwnOk(objects[id := o], owner)
  {
    var next := objects[id := o];
    forall x | x in next
      ensures ObjectOk(next, owner, x)
    {
      if x != id {
        assert ObjectOk(objects, owner, x);
      }
    }
  }

  /** Changing a surface's configuration leaves ownership alone. */
  lemma RestyleOwn(objects: Objects, owner: map<ObjectId, ObjectId>, id: ObjectId, s: Surface)
    requires OwnOk(objects, owner) && IsSurface(objects, id)
    requires var was := objects[id].surface;
      && s.pendingBuffer == was.pendingBuffer && s.committedBuffer == was.committedBuffer
      && s.committedToken == was.committedToken && s.mapped == was.mapped
      && (s.framePending ==> was.framePending) && (was.pendingAttach ==> s.pendingAttach)
    ensures OwnOk(objects[id := Surf(s)], owner)
  {
    var next := objects[id := Surf(s)];
    assert ObjectOk(objects, owner, id);
    forall x | x in next
      ensures ObjectOk(next, owner, x)
    {
      if x != id {
        assert ObjectOk(objects, owner, x);
      }
    }
  }

  lemma RemoveBufferOwn(objects: Objects, owner: map<ObjectId, ObjectId>, id: ObjectId)
    requires OwnOk(objects, owner) && IsBuffer(objects, id) && objects[id].buffer.state == Available
    ensures OwnOk(objects - {id}, owner)
  {
    var next := objects - {id};
    forall x | x in next
      ensures ObjectOk(next, owner, x)
    {
      assert ObjectOk(objects, owner, x);
    }
  }

  lemma AttachOwn(objects: Objects, owner: map<ObjectId, ObjectId>, id: ObjectId, b: ObjectId)
    requires OwnOk(objects, owner) && IsSurface(objects, id) && IsBuffer(objects, b)
    requires !objects[id].surface.pendingAttach && objects[b].buffer.state == Available
    ensures var next := objects[b := Buf(objects[b].buffer.(state := Pending))]
                               [id := Surf(objects[id].surface.(pendingAttach := true, pendingBuffer := b))];
      OwnOk(next, owner[b := id])
  {
    var next := objects[b := Buf(objects[b].buffer.(state := Pending))]
                       [id := Surf(objects[id].surface.(pendingAttach := true, pendingBuffer := b))];
    assert ObjectOk(objects, owner, id) && ObjectOk(objects, owner, b);
    forall x | x in next
      ensures ObjectOk(next, owner[b := id], x)
    {
      if x != id && x != b {
        assert ObjectOk(objects, owner, x);
      }
    }
  }

  /** Between dropping a surface's references and releasing the buffers. */
  lemma DestroyOwn(objects: Objects, owner: map<ObjectId, ObjectId>, id: ObjectId)
    requires OwnOk(objects, owner) && IsSurface(objects, id)
    ensures var s := objects[id].surface; var p, q := Reserved(s), s.committedBuffer;
      var o1 := if p != 0 then Released(objects, p) else objects;
      var o2 := if q != 0 then Released(o1, q) else o1;
      OwnOk(o2 - {id}, owner)
  {
    var s := objects[id].surface;
    var p, q := Reserved(s), s.committedBuffer;
    var o1 := if p != 0 then Released(objects, p) else objects;
    var o2 := if q != 0 then Released(o1, q) else o1;
    var next := o2 - {id};
    assert ObjectOk(objects, owner, id);
    forall x | x in next
      ensures ObjectOk(next, owner, x)
    {
      assert ObjectOk(objects, owner, x);
    }
  }

  lemma UnmapOwn(objects: Objects, owner: map<ObjectId, ObjectId>, id: ObjectId)
    requires OwnOk(objects, owner) && IsSurface(objects, id) && objects[id].surface.pendingBuffer == 0
    ensures var s := objects[id].surface; var q := s.committedBuffer;
      var s' := s.(committedBuffer := 0, committedToken := 0, mapped := false, pendingAttach := false,
                   pendingBuffer := 0, framePending := false);
      var o1 := objects[id := Surf(s')];
      OwnOk(if q != 0 then Released(o1, q) else o1, owner)
  {
    var s := objects[id].surface;
    var q := s.committedBuffer;
    var s' := s.(committedBuffer := 0, committedToken := 0, mapped := false, pendingAttach := false,
                 pendingBuffer := 0, framePending := false);
    var o1 := objects[id := Surf(s')];
    var next := if q != 0 then Released(o1, q) else o1;
    assert ObjectOk(objects, owner, id);
    forall x | x in next
      ensures ObjectOk(next, owner, x)
    {
      assert ObjectOk(objects, owner, x);
    }
  }

  lemma MapOwn(objects: Objects, owner: map<ObjectId, ObjectId>, id: ObjectId, s': Surface, serial: nat)
    requires OwnOk(objects, owner) && IsSurface(objects, id)
    requires var s := objects[id].surface;
      && IsBuffer(objects, s.pendingBuffer) && s.pendingBuffer != 0
      && s'.committedBuffer == s.pendingBuffer && s'.committedToken == serial && s'.mapped
      && !s'.pendingAttach && s'.pendingBuffer == 0
    ensures var s := objects[id].surface; var p, q := s.pendingBuffer, s.committedBuffer;
      var o2 := objects[p := Buf(objects[p].buffer.(state := Busy, commitToken := serial))][id := Surf(s')];
      OwnOk(if q != 0 && q != p then Released(o2, q) else o2, owner)
  {
    var s := objects[id].surface;
    var p, q := s.pendingBuffer, s.committedBuffer;
    var o2 := objects[p := Buf(objects[p].buffer.(state := Busy, commitToken := serial))][id := Surf(s')];
    var next := if q != 0 && q != p then Released(o2, q) else o2;
    assert ObjectOk(objects, owner, id);
    forall x | x in next
      ensures ObjectOk(next, owner, x)
    {
      assert ObjectOk(objects, owner, x);
    }
  }

  // ---- counters -------------------------------------------------------------------------------

  datatype Measure = Surfaces | Buffers | BackingBytes

  function WeightAt(objects: Objects, m: Measure, id: ObjectId): nat {
    if id !in objects then 0
    else match m
      case Surfaces => if objects[id].Surf? then 1 else 0
      case Buffers => if objects[id].Buf? then 1 else 0
      case BackingBytes => if objects[id].Buf? then objects[id].buffer.backing else 0
  }

  /** The measure over the objects with id below `n`. */
  function Total(objects: Objects, m: Measure, n: nat): nat {
    if n == 0 then 0 else Total(objects, m, n - 1) + WeightAt(objects, m, n - 1)
  }

  lemma {:induction false} TotalChange(objects: Objects, objects': Objects, m: Measure, id: ObjectId, n: nat)
    requires forall x | x != id :: WeightAt(objects', m, x) == WeightAt(objects, m, x)
    ensures Total(objects', m, n) ==
      Total(objects, m, n) + if id < n then WeightAt(objects', m, id) - WeightAt(objects, m, id) else 0
  {
    hide WeightAt;
    if n > 0 {
      TotalChange(objects, objects', m, id, n - 1);
    }
  }

  lemma {:induction false} TotalBeyond(objects: Objects, m: Measure, n: nat, k: nat)
    requires n <= k && forall x | n <= x < k :: x !in objects
    ensures Total(objects, m, k) == Total(objects, m, n)
  {
    if n < k {
      TotalBeyond(objects, m, n, k - 1);
    }
  }

  /** The counters are the true counts, within their limits. */
  ghost predicate CountsOk(c: Connection) {
    && (forall id | id in c.objects :: 1 <= id <= c.idWatermark)
    && c.surfaces == Total(c.objects, Surfaces, c.idWatermark + 1) <= MAX_SURFACES
    && c.buffers == Total(c.objects, Buffers, c.idWatermark + 1) <= MAX_BUFFERS
    && c.backingBytes == Total(c.objects, BackingBytes, c.idWatermark + 1) <= MAX_BACKING_BYTES_CONN
  }

  ghost predicate SameWeights(a: Objects, b: Objects) {
    forall m, x :: WeightAt(a, m, x) == WeightAt(b, m, x)
  }

  lemma CountsSame(c: Connection, c': Connection)
    requires CountsOk(c) && SameWeights(c.objects, c'.objects)
    requires c'.idWatermark == c.idWatermark && c'.surfaces == c.surfaces && c'.buffers == c.buffers
      && c'.backingBytes == c.backingBytes
    ensures CountsOk(c')
  {
    var n := c.idWatermark + 1;
    forall m
      ensures Total(c'.objects, m, n) == Total(c.objects, m, n)
    {
      TotalChange(c.objects, c'.objects, m, n, n);
    }
    forall id | id in c'.objects
      ensures id in c.objects
    {
      assert WeightAt(c'.objects, Surfaces, id) + WeightAt(c'.objects, Buffers, id) == 1;
    }
  }

  lemma CountsAdd(c: Connection, id: ObjectId, o: Object, m: Measure)
    requires CountsOk(c) && c.idWatermark < id
    ensures var next := c.objects[id := o];
      && Total(next, m, id + 1) == Total(c.objects, m, c.idWatermark + 1) + WeightAt(next, m, id)
      && forall x | x in next :: 1 <= x <= id
  {
    TotalBeyond(c.objects, m, c.idWatermark + 1, id + 1);
    TotalChange(c.objects, c.objects[id := o], m, id, id + 1);
  }

  lemma CountsRemove(c: Connection, objects: Objects, id: ObjectId, m: Measure)
    requires CountsOk(c) && id in c.objects && SameWeights(c.objects, objects)
    ensures var next := objects - {id}; var n := c.idWatermark + 1;
      && Total(next, m, n) == Total(c.objects, m, n) - WeightAt(c.objects, m, id)
      && forall x | x in next :: 1 <= x <= c.idWatermark
  {
    var next := objects - {id};
    TotalChange(c.objects, next, m, id, c.idWatermark + 1);
    forall x | x in next
      ensures x in c.objects
    {
      assert WeightAt(objects, Surfaces, x) + WeightAt(objects, Buffers, x) == 1;
    }
  }

  lemma ReleasedWeights(objects: Objects, id: ObjectId)
    ensures SameWeights(objects, Released(objects, id))
  {
  }
}
