/** What a client is owed: every accepted non-null attach opens a debt that one
    BUFFER_RELEASE settles, every accepted frame callback one that one FRAME_DONE
    settles. No request loses or invents a debt. */
module GuiDebt {
  import opened Bytes
  import opened GuiModel
  import opened GuiOwn

  datatype Debt = BufferDebt(buffer: ObjectId) | FrameDebt(surface: ObjectId, token: nat)

  /** Debts the objects still carry. */
  function Open(objects: Objects, d: Debt): nat {
    match d
    case BufferDebt(b) => if IsBuffer(objects, b) && objects[b].buffer.state != Available then 1 else 0
    case FrameDebt(s, t) =>
      if IsSurface(objects, s) && objects[s].surface.framePending && objects[s].surface.frameToken == t then 1 else 0
  }

  predicate Settles(e: Emit, d: Debt) {
    match d
    case BufferDebt(b) => e.event.BufferRelease? && e.id == b
    case FrameDebt(s, t) => e.event.FrameDone? && e.id == s && e.event.commit == t
  }

  function SettledIn(emits: seq<Emit>, d: Debt): nat {
    if emits == [] then 0
    else SettledIn(emits[..|emits| - 1], d) + if Settles(emits[|emits| - 1], d) then 1 else 0
  }

  lemma {:induction false} SettledConcat(a: seq<Emit>, b: seq<Emit>, d: Debt)
    ensures SettledIn(a + b, d) == SettledIn(a, d) + SettledIn(b, d)
  {
    hide Settles;
    if b == [] {
      assert a + b == a;
    } else {
      SettledConcat(a, b[..|b| - 1], d);
      assert (a + b)[..|a + b| - 1] == a + b[..|b| - 1];
    }
  }

  lemma SettledIf(cond: bool, e: Emit, d: Debt)
    ensures SettledIn(If(cond, e), d) == if cond && Settles(e, d) then 1 else 0
    ensures SettledIn([e], d) == if Settles(e, d) then 1 else 0
  {
    assert [e][..0] == [];
  }

  lemma SettledLeaves(seat: Seat, t: Target, d: Debt)
    ensures SettledIn(Leaves(seat, t), d) == 0
  {
    SettledIf(seat.pointerFocus == Some(t), Emit(t.surface, PointerLeave), d);
    SettledIf(seat.keyboardFocus == Some(t), Emit(t.surface, KeyLeave), d);
    SettledConcat(If(seat.pointerFocus == Some(t), Emit(t.surface, PointerLeave)),
                  If(seat.keyboardFocus == Some(t), Emit(t.surface, KeyLeave)), d);
  }

  // ---- what a request opens -----------------------------------------------------------------

  predicate Accepted(r: Reply) { r.emits != [] && !r.emits[0].event.Error? }

  /** The debt an accepted request opens, if any. */
  function Opened(k: Call, req: Request, r: Reply): Option<Debt> {
    if !Accepted(r) then None
    else match req
      case AttachBuffer(buffer, _) => if buffer != 0 then Some(BufferDebt(buffer)) else None
      case Commit(_, frameCallback) => if frameCallback == 1 then Some(FrameDebt(k.id, k.serial)) else None
      case _ => None
  }

  ghost predicate Balanced(k: Call, req: Request, r: Reply, d: Debt) {
    Open(r.conn.objects, d) + SettledIn(r.emits, d)
    == Open(k.conn.objects, d) + if Opened(k, req, r) == Some(d) then 1 else 0
  }

  /** A cleanup batch: LEAVEs, two releases, a callback, one more event. */
  lemma SettledCleanup(seat: Seat, t: Target, c1: bool, e1: Emit, c2: bool, e2: Emit, c3: bool, e3: Emit, e4: Emit,
                       d: Debt)
    requires !Settles(e4, d)
    ensures SettledIn(Leaves(seat, t) + If(c1, e1) + If(c2, e2) + If(c3, e3) + [e4], d) ==
      (if c1 && Settles(e1, d) then 1 else 0) + (if c2 && Settles(e2, d) then 1 else 0)
      + (if c3 && Settles(e3, d) then 1 else 0)
  {
    hide SettledIn, Settles, If, Leaves;
    var l, f1, f2, f3 := Leaves(seat, t), If(c1, e1), If(c2, e2), If(c3, e3);
    SettledConcat(l + f1 + f2 + f3, [e4], d);
    SettledConcat(l + f1 + f2, f3, d);
    SettledConcat(l + f1, f2, d);
    SettledConcat(l, f1, d);
    SettledLeaves(seat, t, d);
    SettledIf(c1, e1, d);
    SettledIf(c2, e2, d);
    SettledIf(c3, e3, d);
    SettledIf(true, e4, d);
  }

  lemma RefuseBalanced(k: Call, req: Request, r: Reply, d: Debt)
    requires r.conn.objects == k.conn.objects && |r.emits| == 1 && r.emits[0].event.Error?
    ensures Balanced(k, req, r, d)
  {
    SettledIf(true, r.emits[0], d);
    assert r.emits == [r.emits[0]];
  }

  lemma DestroyBalanced(k: Call, owner: map<ObjectId, ObjectId>, d: Debt)
    requires OwnOk(k.conn.objects, owner)
    ensures Balanced(k, DestroySurface, DoDestroySurface(k), d)
  {
    hide SettledIn, Open, Released, Leaves, Settles;
    var c, id, t := k.conn, k.id, Target(k.connId, k.id);
    var r := DoDestroySurface(k);
    if !IsSurface(c.objects, id) {
      RefuseBalanced(k, DestroySurface, r, d);
    } else {
      var s := c.objects[id].surface;
      var p, q := Reserved(s), s.committedBuffer;
      var o1 := if p != 0 then Released(c.objects, p) else c.objects;
      var e1, e2 := Emit(p, BufferRelease(0)), Emit(q, BufferRelease(s.committedToken));
      var e3, e4 := Emit(id, FrameDone(s.frameToken, k.now, FRAME_DISCARDED)), Emit(id, Result(k.serial));
      NotSettled(e4, d);
      SettledCleanup(k.seat, t, p != 0 && IsBuffer(c.objects, p), e1,
                     q != 0 && IsBuffer(o1, q), e2, s.framePending, e3, e4, d);
      DestroyOpen(c.objects, owner, id, d);
      CleanupSettles(e1, e2, e3, d);
      HeldAreBuffers(c.objects, owner, id);
    }
  }

  lemma NotSettled(e: Emit, d: Debt)
    requires !e.event.BufferRelease? && !e.event.FrameDone?
    ensures !Settles(e, d)
  {
  }

  lemma CleanupSettles(e1: Emit, e2: Emit, e3: Emit, d: Debt)
    requires e1.event.BufferRelease? && e2.event.BufferRelease? && e3.event.FrameDone?
    ensures Settles(e1, d) <==> d == BufferDebt(e1.id)
    ensures Settles(e2, d) <==> d == BufferDebt(e2.id)
    ensures Settles(e3, d) <==> d == FrameDebt(e3.id, e3.event.commit)
  {
  }

  /** What a surface refers to are two different buffers. */
  lemma HeldAreBuffers(objects: Objects, owner: map<ObjectId, ObjectId>, id: ObjectId)
    requires OwnOk(objects, owner) && IsSurface(objects, id)
    ensures var s := objects[id].surface; var p, q := Reserved(s), s.committedBuffer;
      && (p != 0 ==> IsBuffer(objects, p)) && (q != 0 ==> IsBuffer(objects, q)) && (p != 0 ==> p != q)
      && (q != 0 ==> IsBuffer(Released(objects, p), q) && IsBuffer(objects, q))
  {
    assert ObjectOk(objects, owner, id);
  }

  /** Debts that vanish with a surface: its two buffers and its callback. */
  lemma DestroyOpen(objects: Objects, owner: map<ObjectId, ObjectId>, id: ObjectId, d: Debt)
    requires OwnOk(objects, owner) && IsSurface(objects, id)
    ensures var s := objects[id].surface; var p, q := Reserved(s), s.committedBuffer;
      var o1 := if p != 0 then Released(objects, p) else objects;
      var o2 := if q != 0 then Released(o1, q) else o1;
      Open(objects, d) == Open(o2 - {id}, d)
        + (match d
           case BufferDebt(b) => if (b == p || b == q) && b != 0 then 1 else 0
           case FrameDebt(x, t) => if x == id && s.framePending && s.frameToken == t then 1 else 0)
  {
    assert ObjectOk(objects, owner, id);
  }

  lemma SettledUnmap(seat: Seat, t: Target, e4: Emit, c1: bool, e1: Emit, c2: bool, e2: Emit, d: Debt)
    requires !Settles(e4, d)
    ensures SettledIn([e4] + Leaves(seat, t) + If(c1, e1) + If(c2, e2), d) ==
      (if c1 && Settles(e1, d) then 1 else 0) + (if c2 && Settles(e2, d) then 1 else 0)
    ensures SettledIn([e4] + If(c1, e1), d) == if c1 && Settles(e1, d) then 1 else 0
  {
    hide SettledIn, Settles, If, Leaves;
    var l, f1, f2 := Leaves(seat, t), If(c1, e1), If(c2, e2);
    SettledConcat([e4] + l + f1, f2, d);
    SettledConcat([e4] + l, f1, d);
    SettledConcat([e4], l, d);
    SettledConcat([e4], f1, d);
    SettledLeaves(seat, t, d);
    SettledIf(c1, e1, d);
    SettledIf(c2, e2, d);
    SettledIf(true, e4, d);
  }

  lemma UnmapBalanced(k: Call, owner: map<ObjectId, ObjectId>, token: nat, frameCallback: nat, d: Debt)
    requires OwnOk(k.conn.objects, owner) && CheckCommit(k, token, frameCallback).None?
    requires k.conn.objects[k.id].surface.pendingBuffer == 0
    ensures Balanced(k, Commit(token, frameCallback), UnmapCommit(k, frameCallback), d)
  {
    hide SettledIn, Released, Leaves, Settles;
    var c, id, t := k.conn, k.id, Target(k.connId, k.id);
    var s := c.objects[id].surface;
    var q := s.committedBuffer;
    var e1, e4 := Emit(q, BufferRelease(s.committedToken)), Emit(id, Result(k.serial));
    var e2 := Emit(id, FrameDone(if s.framePending then s.frameToken else k.serial, k.now, FRAME_DISCARDED));
    NotSettled(e4, d);
    var s' := s.(committedBuffer := 0, committedToken := 0, mapped := false, pendingAttach := false,
                 pendingBuffer := 0, framePending := false);
    var o1 := c.objects[id := Surf(s')];
    SettledUnmap(k.seat, t, e4, q != 0 && IsBuffer(o1, q), e1, s.framePending || frameCallback == 1, e2, d);
    CleanupSettles(e1, e1, e2, d);
    HeldAreBuffers(c.objects, owner, id);
    UnmapOpen(c.objects, owner, id, s', d);
  }

  lemma UnmapOpen(objects: Objects, owner: map<ObjectId, ObjectId>, id: ObjectId, s': Surface, d: Debt)
    requires OwnOk(objects, owner) && IsSurface(objects, id) && !s'.framePending
    ensures var s := objects[id].surface; var q := s.committedBuffer;
      var o1 := objects[id := Surf(s')];
      var o2 := if q != 0 then Released(o1, q) else o1;
      && (q != 0 ==> IsBuffer(o1, q))
      && Open(objects, d) == Open(o2, d)
        + (match d
           case BufferDebt(b) => if b == q && b != 0 then 1 else 0
           case FrameDebt(x, t) => if x == id && s.framePending && s.frameToken == t then 1 else 0)
  {
    assert ObjectOk(objects, owner, id);
  }

  lemma MapBalanced(k: Call, owner: map<ObjectId, ObjectId>, token: nat, frameCallback: nat, d: Debt)
    requires OwnOk(k.conn.objects, owner) && CheckCommit(k, token, frameCallback).None?
    requires k.conn.objects[k.id].surface.pendingBuffer != 0
    ensures Balanced(k, Commit(token, frameCallback), MapCommit(k, frameCallback), d)
  {
    hide SettledIn, Settles, OwnOk;
    var c, id := k.conn, k.id;
    var s := c.objects[id].surface;
    var p, q := s.pendingBuffer, s.committedBuffer;
    var e1, e4 := Emit(q, BufferRelease(s.committedToken)), Emit(id, Result(k.serial));
    NotSettled(e4, d);
    HeldAreBuffers(c.objects, owner, id);
    HeldStates(c.objects, owner, id);
    SettledUnmap(k.seat, Target(0, 0), e4, q != 0 && q != p, e1, false, e1, d);
    CleanupSettles(e1, e1, Emit(0, FrameDone(0, 0, 0)), d);
  }

  lemma HeldStates(objects: Objects, owner: map<ObjectId, ObjectId>, id: ObjectId)
    requires OwnOk(objects, owner) && IsSurface(objects, id)
    ensures var s := objects[id].surface;
      && (s.pendingBuffer != 0 ==>
            IsBuffer(objects, s.pendingBuffer) && objects[s.pendingBuffer].buffer.state == Pending)
      && (s.committedBuffer != 0 ==>
            IsBuffer(objects, s.committedBuffer) && objects[s.committedBuffer].buffer.state == Busy)
  {
    assert ObjectOk(objects, owner, id);
  }

  /** A reply of one neutral event whose objects carry the same debts, but for
      the one it opens. */
  lemma PlainBalanced(k: Call, req: Request, r: Reply, d: Debt)
    requires |r.emits| >= 1
    requires (forall i | 0 <= i < |r.emits| :: !r.emits[i].event.BufferRelease? && !r.emits[i].event.FrameDone?)
    requires Open(r.conn.objects, d) == Open(k.conn.objects, d) + if Opened(k, req, r) == Some(d) then 1 else 0
    ensures Balanced(k, req, r, d)
  {
    hide Open;
    NoneSettled(r.emits, d);
  }

  lemma {:induction false} NoneSettled(emits: seq<Emit>, d: Debt)
    requires forall i | 0 <= i < |emits| :: !emits[i].event.BufferRelease? && !emits[i].event.FrameDone?
    ensures SettledIn(emits, d) == 0
    decreases |emits|
  {
    if emits != [] {
      NoneSettled(emits[..|emits| - 1], d);
    }
  }

  /** For every request and every debt, what was open plus what the request opens
      is what it settles plus what is open after. */
  lemma DispatchBalanced(k: Call, owner: map<ObjectId, ObjectId>, req: Request, cap: Option<nat>, d: Debt)
    requires OwnOk(k.conn.objects, owner) && CountsOk(k.conn)
    ensures Balanced(k, req, Dispatch(k, req, cap), d)
  {
    hide OwnOk, Balanced, RectOk, AppIdOk, SettledIn, UnmapCommit, MapCommit, CheckCommit, DoDestroySurface;
    var r := Dispatch(k, req, cap);
    match req {
      case DestroySurface => DestroyBalanced(k, owner, d);
      case Commit(token, frameCallback) =>
        if CheckCommit(k, token, frameCallback).Some? {
          RefuseBalanced(k, req, r, d);
        } else {
          CommitSurface(k, token, frameCallback);
          if k.conn.objects[k.id].surface.pendingBuffer == 0 {
            UnmapBalanced(k, owner, token, frameCallback, d);
          } else {
            MapBalanced(k, owner, token, frameCallback, d);
          }
        }
      case _ => PlainBalanced(k, req, r, d);
    }
  }

  lemma CommitSurface(k: Call, token: nat, frameCallback: nat)
    requires CheckCommit(k, token, frameCallback).None?
    ensures IsSurface(k.conn.objects, k.id)
  {
  }
}
