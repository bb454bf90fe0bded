/** The input seat: its invariant, and the bracketing that a client observes in
    its event stream. */
module GuiSeat {
  import opened Bytes
  import opened GuiModel
  import opened GuiOwn
  import opened GuiDebt

  // ---- the seat by itself ---------------------------------------------------------------

  ghost predicate Distinct(s: seq<nat>) {
    forall i, j | 0 <= i < j < |s| :: s[i] != s[j]
  }

  /** A grab exists exactly while buttons are held, and pins the pointer focus;
      keys are held only for a focus. */
  ghost predicate SeatOk(seat: Seat) {
    && (seat.grab.Some? <==> seat.buttons != [])
    && (seat.grab.Some? ==> seat.grab == seat.pointerFocus)
    && (seat.keyboardFocus.None? ==> seat.heldKeys == [])
    && |seat.heldKeys| <= MAX_HELD_KEYS && Distinct(seat.heldKeys) && Distinct(seat.buttons)
  }

  lemma DropConnOk(seat: Seat, conn: ConnId)
    requires SeatOk(seat)
    ensures SeatOk(DropConn(seat, conn))
  {
  }

  lemma DropSurfaceOk(seat: Seat, t: Target)
    requires SeatOk(seat)
    ensures SeatOk(DropSurface(seat, t))
  {
  }

  // ---- what a stream of events allows -------------------------------------------------------

  /** Who has been entered and not left, and the keys pressed since. */
  datatype Bracket = Bracket(pointer: Option<Target>, keyboard: Option<Target>, held: set<nat>)

  function BracketOf(seat: Seat): Bracket {
    Bracket(seat.pointerFocus, seat.keyboardFocus, set x | x in seat.heldKeys)
  }

  /** One event: `None` if it is out of place. ENTER needs nothing entered,
      everything else needs its surface entered; a release or a repeat needs the
      key pressed since the ENTER. */
  function Follow(b: Bracket, conn: ConnId, e: Emit): Option<Bracket> {
    var t := Target(conn, e.id);
    match e.event
    case PointerEnter(_, _) => if b.pointer.None? then Some(b.(pointer := Some(t))) else None
    case PointerLeave => if b.pointer == Some(t) then Some(b.(pointer := None)) else None
    case PointerMotion(_, _, _) => if b.pointer == Some(t) then Some(b) else None
    case PointerButton(_, _, _) => if b.pointer == Some(t) then Some(b) else None
    case PointerAxis(_, _, _) => if b.pointer == Some(t) then Some(b) else None
    case KeyEnter(_) => if b.keyboard.None? then Some(b.(keyboard := Some(t), held := {})) else None
    case KeyLeave => if b.keyboard == Some(t) then Some(b.(keyboard := None, held := {})) else None
    case Key(_, usage, pressed, _, repeat) =>
      if b.keyboard != Some(t) || ((!pressed || repeat) && usage !in b.held) then None
      else Some(b.(held := if pressed then b.held + {usage} else b.held - {usage}))
    case TextInput(_, _) => if b.keyboard == Some(t) then Some(b) else None
    case _ => Some(b)
  }

  function FollowAll(b: Bracket, conn: ConnId, emits: seq<Emit>): Option<Bracket> {
    if emits == [] then Some(b)
    else
      match FollowAll(b, conn, emits[..|emits| - 1])
      case None => None
      case Some(b') => Follow(b', conn, emits[|emits| - 1])
  }

  lemma {:induction false} FollowConcat(b: Bracket, conn: ConnId, x: seq<Emit>, y: seq<Emit>)
    ensures FollowAll(b, conn, x + y) ==
      match FollowAll(b, conn, x) case None => None case Some(b') => FollowAll(b', conn, y)
  {
    hide Follow;
    if y == [] {
      assert x + y == x;
    } else {
      FollowConcat(b, conn, x, y[..|y| - 1]);
      assert (x + y)[..|x + y| - 1] == x + y[..|y| - 1];
    }
  }

  lemma FollowOne(b: Bracket, conn: ConnId, e: Emit)
    ensures FollowAll(b, conn, [e]) == Follow(b, conn, e)
  {
    assert [e][..0] == [];
  }

  /** An event that has nothing to do with the seat. */
  predicate Neutral(e: Emit) {
    e.event.Welcome? || e.event.Result? || e.event.Error?
    || e.event.Configure? || e.event.BufferRelease? || e.event.FrameDone?
  }

  lemma {:induction false} NeutralFollow(b: Bracket, conn: ConnId, emits: seq<Emit>)
    requires forall i | 0 <= i < |emits| :: Neutral(emits[i])
    ensures FollowAll(b, conn, emits) == Some(b)
    decreases |emits|
  {
    if emits != [] {
      NeutralFollow(b, conn, emits[..|emits| - 1]);
      assert Neutral(emits[|emits| - 1]);
    }
  }

  lemma LeavesFollow(seat: Seat, t: Target)
    ensures FollowAll(BracketOf(seat), t.conn, Leaves(seat, t)) == Some(BracketOf(DropSurface(seat, t)))
  {
    var b := BracketOf(seat);
    var p, q := Emit(t.surface, PointerLeave), Emit(t.surface, KeyLeave);
    FollowConcat(b, t.conn, If(seat.pointerFocus == Some(t), p), If(seat.keyboardFocus == Some(t), q));
    FollowOne(b, t.conn, p);
    FollowOne(b.(pointer := None), t.conn, q);
    FollowOne(b, t.conn, q);
    var after := BracketOf(DropSurface(seat, t));
    assert after.held == if seat.keyboardFocus == Some(t) then {} else b.held;
    assert after.pointer == if seat.pointerFocus == Some(t) then None else b.pointer;
    assert after.keyboard == if seat.keyboardFocus == Some(t) then None else b.keyboard;
  }

  lemma CleanupFollows(seat: Seat, t: Target, before: seq<Emit>, after: seq<Emit>)
    requires forall i | 0 <= i < |before| :: Neutral(before[i])
    requires forall i | 0 <= i < |after| :: Neutral(after[i])
    ensures FollowAll(BracketOf(seat), t.conn, before + Leaves(seat, t) + after) ==
      Some(BracketOf(DropSurface(seat, t)))
  {
    hide BracketOf, FollowAll, DropSurface, Leaves;
    var b := BracketOf(seat);
    NeutralFollow(b, t.conn, before);
    FollowConcat(b, t.conn, before, Leaves(seat, t));
    LeavesFollow(seat, t);
    FollowConcat(b, t.conn, before + Leaves(seat, t), after);
    NeutralFollow(BracketOf(DropSurface(seat, t)), t.conn, after);
  }

  ghost predicate AllNeutral(s: seq<Emit>) { forall i | 0 <= i < |s| :: Neutral(s[i]) }

  lemma FourFollow(seat: Seat, t: Target, f1: seq<Emit>, f2: seq<Emit>, f3: seq<Emit>, f4: seq<Emit>)
    requires AllNeutral(f1) && AllNeutral(f2) && AllNeutral(f3) && AllNeutral(f4)
    ensures FollowAll(BracketOf(seat), t.conn, Leaves(seat, t) + f1 + f2 + f3 + f4) ==
      Some(BracketOf(DropSurface(seat, t)))
  {
    hide BracketOf, FollowAll, DropSurface, Leaves, Neutral;
    assert Leaves(seat, t) + f1 + f2 + f3 + f4 == [] + Leaves(seat, t) + (f1 + f2 + f3 + f4);
    CleanupFollows(seat, t, [], f1 + f2 + f3 + f4);
  }

  // ---- requests -------------------------------------------------------------------------------

  lemma DestroyFollows(k: Call)
    ensures FollowAll(BracketOf(k.seat), k.connId, DoDestroySurface(k).emits) ==
      Some(BracketOf(DoDestroySurface(k).seat))
  {
    hide FollowAll, BracketOf, DropSurface, Leaves, Released;
    var c, id, t := k.conn, k.id, Target(k.connId, k.id);
    var r := DoDestroySurface(k);
    if !IsSurface(c.objects, id) {
      NeutralFollow(BracketOf(k.seat), k.connId, r.emits);
    } else {
      var s := c.objects[id].surface;
      var p, q := Reserved(s), s.committedBuffer;
      var o1 := if p != 0 then Released(c.objects, p) else c.objects;
      var l := Leaves(k.seat, t);
      var f1 := If(p != 0 && IsBuffer(c.objects, p), Emit(p, BufferRelease(0)));
      var f2 := If(q != 0 && IsBuffer(o1, q), Emit(q, BufferRelease(s.committedToken)));
      var f3 := If(s.framePending, Emit(id, FrameDone(s.frameToken, k.now, FRAME_DISCARDED)));
      var f4 := [Emit(id, Result(k.serial))];
      FourFollow(k.seat, t, f1, f2, f3, f4);
    }
  }

  lemma UnmapFollows(k: Call, frameCallback: nat)
    requires IsSurface(k.conn.objects, k.id)
    ensures FollowAll(BracketOf(k.seat), k.connId, UnmapCommit(k, frameCallback).emits)
      == Some(BracketOf(UnmapCommit(k, frameCallback).seat))
  {
    hide FollowAll, BracketOf, DropSurface, Leaves, Released;
    var c, id, t := k.conn, k.id, Target(k.connId, k.id);
    var s := c.objects[id].surface;
    var q := s.committedBuffer;
    var s' := s.(committedBuffer := 0, committedToken := 0, mapped := false, pendingAttach := false,
                 pendingBuffer := 0, framePending := false);
    var l, f0 := Leaves(k.seat, t), [Emit(id, Result(k.serial))];
    var f1 := If(q != 0 && IsBuffer(c.objects[id := Surf(s')], q), Emit(q, BufferRelease(s.committedToken)));
    var f2 := If(s.framePending || frameCallback == 1,
                 Emit(id, FrameDone(if s.framePending then s.frameToken else k.serial, k.now, FRAME_DISCARDED)));
    assert f0 + l + f1 + f2 == f0 + l + (f1 + f2);
    CleanupFollows(k.seat, t, f0, f1 + f2);
  }

  /** Every request's events keep the brackets, which stay those of the seat. */
  lemma DispatchFollows(k: Call, req: Request, cap: Option<nat>)
    requires SeatOk(k.seat)
    ensures var r := Dispatch(k, req, cap);
      && FollowAll(BracketOf(k.seat), k.connId, r.emits) == Some(BracketOf(r.seat))
      && SeatOk(r.seat)
      && (r.seat == k.seat || r.seat == DropSurface(k.seat, Target(k.connId, k.id)))
  {
    hide FollowAll, BracketOf, DropSurface, Leaves, Released, RectOk, SeatOk, AppIdOk;
    var r := Dispatch(k, req, cap);
    DropSurfaceOk(k.seat, Target(k.connId, k.id));
    match req {
      case DestroySurface => DestroyFollows(k);
      case Commit(token, frameCallback) =>
        if CheckCommit(k, token, frameCallback).None? && k.conn.objects[k.id].surface.pendingBuffer == 0 {
          UnmapFollows(k, frameCallback);
        } else {
          NeutralFollow(BracketOf(k.seat), k.connId, r.emits);
        }
      case _ => NeutralFollow(BracketOf(k.seat), k.connId, r.emits);
    }
  }

  // ---- errors, mapping, configure -----------------------------------------------------------------

  /** A refused request changes neither objects nor seat nor anything else. */
  lemma RefusedChangesNothing(k: Call, req: Request, cap: Option<nat>)
    requires !Accepted(Dispatch(k, req, cap))
    ensures var r := Dispatch(k, req, cap); r.conn == k.conn && r.seat == k.seat && r.nextClient == k.nextClient
  {
    hide RectOk, AppIdOk, DropSurface, Released, Leaves;
    match req {
      case DestroySurface => DestroyAccepted(k);
      case _ =>
    }
  }

  lemma DestroyAccepted(k: Call)
    ensures Accepted(DoDestroySurface(k)) <==> IsSurface(k.conn.objects, k.id)
  {
    var r := DoDestroySurface(k);
    assert IsSurface(k.conn.objects, k.id) ==> !r.emits[0].event.Error?;
  }

  ghost predicate IsMapped(objects: Objects, id: ObjectId) { IsSurface(objects, id) && objects[id].surface.mapped }

  /** A mapped surface stays mapped unless its own request takes it away, and
      then the seat has let go of it. */
  lemma MappedKept(k: Call, req: Request, cap: Option<nat>, id: ObjectId)
    requires IsMapped(k.conn.objects, id) && CountsOk(k.conn)
    ensures var r := Dispatch(k, req, cap);
      IsMapped(r.conn.objects, id) || (id == k.id && r.seat == DropSurface(k.seat, Target(k.connId, k.id)))
  {
    hide RectOk, AppIdOk, DropSurface, Leaves, Total;
  }
}
