/** The whole-server invariant: ownership and counters on every connection, the
    seat, and the agreement of state and history. Kept by every single step. */
module GuiSafe {
  import opened Bytes
  import opened GuiModel
  import opened GuiOwn
  import opened GuiReply
  import opened GuiDebt
  import opened GuiSeat
  import opened GuiRun
  import opened GuiTrace

  type Owners = map<ConnId, map<ObjectId, ObjectId>>

  const NOTHING: Bracket := Bracket(None, None, {})

  ghost predicate ConnsOk(s: State, owners: Owners) {
    forall conn | conn in s.conns :: conn < s.nextConn && conn in owners && ConnOk(s.conns[conn], owners[conn])
  }

  /** Focus and grab name mapped surfaces of active connections. */
  ghost predicate SeatInv(s: State) {
    && SeatOk(s.seat)
    && (s.seat.pointerFocus.Some? ==> Live(s, s.seat.pointerFocus.value))
    && (s.seat.keyboardFocus.Some? ==> Live(s, s.seat.keyboardFocus.value))
  }

  /** One connection agrees with the history. */
  ghost predicate ConnLog(c: Connection, conn: ConnId, log: Log) {
    && (forall d :: OwedIn(log, conn, d) == PaidIn(log, conn, d) + Open(c.objects, d))
    && (forall id | IsSurface(c.objects, id) :: LastConfigure(log, conn, id) == c.objects[id].surface.latestToken)
    && (forall id: ObjectId, t: nat :: OwedIn(log, conn, FrameDebt(id, t)) <= if t <= c.lastClientSerial then 1 else 0)
  }

  ghost predicate LogOk(s: State, log: Log) {
    && Replay(NOTHING, log) == Some(BracketOf(s.seat))
    && (forall i | 0 <= i < |log| :: log[i].conn < s.nextConn)
    && (forall conn | conn in s.conns :: ConnLog(s.conns[conn], conn, log))
  }

  ghost predicate Inv(s: State, owners: Owners, log: Log) {
    ConnsOk(s, owners) && SeatInv(s) && LogOk(s, log)
  }

  // ---- how a connection and its history move together ------------------------------------------

  ghost predicate ConnDelta(c: Connection, c': Connection, conn: ConnId, es: Log) {
    && (forall d :: Open(c'.objects, d) + PaidIn(es, conn, d) == Open(c.objects, d) + OwedIn(es, conn, d))
    && (forall id | IsSurface(c'.objects, id) ::
          if NoConfigure(es, conn, id)
          then IsSurface(c.objects, id) && c'.objects[id].surface.latestToken == c.objects[id].surface.latestToken
          else LastConfigure(es, conn, id) == c'.objects[id].surface.latestToken)
    && c.lastClientSerial <= c'.lastClientSerial
    && (forall id: ObjectId, t: nat ::
            OwedIn(es, conn, FrameDebt(id, t)) <= if c.lastClientSerial < t <= c'.lastClientSerial then 1 else 0)
  }

  lemma {:induction false} ConfigureConcat(a: Log, b: Log, conn: ConnId, id: ObjectId)
    ensures LastConfigure(a + b, conn, id) ==
      if NoConfigure(b, conn, id) then LastConfigure(a, conn, id) else LastConfigure(b, conn, id)
    decreases |b|
  {
    hide Configures;
    if b == [] {
      assert a + b == a;
    } else {
      var n := |b| - 1;
      ConfigureConcat(a, b[..n], conn, id);
      assert (a + b)[..|a + b| - 1] == a + b[..n];
      assert (a + b)[|a + b| - 1] == b[n];
      if !(b[n].Sent? && b[n].conn == conn && Configures(b[n].emit, id)) {
        assert NoConfigure(b, conn, id) <==> NoConfigure(b[..n], conn, id);
      }
    }
  }

  lemma ConnLogStep(c: Connection, c': Connection, conn: ConnId, log: Log, es: Log)
    requires ConnLog(c, conn, log) && ConnDelta(c, c', conn, es)
    ensures ConnLog(c', conn, log + es)
  {
    hide Open, LastConfigure, OwedIn, PaidIn, NoConfigure;
    forall d
      ensures OwedIn(log + es, conn, d) == PaidIn(log + es, conn, d) + Open(c'.objects, d)
    {
      CountsConcat(log, es, conn, d);
    }
    forall id | IsSurface(c'.objects, id)
      ensures LastConfigure(log + es, conn, id) == c'.objects[id].surface.latestToken
    {
      ConfigureConcat(log, es, conn, id);
    }
    forall id: ObjectId, t: nat
      ensures OwedIn(log + es, conn, FrameDebt(id, t)) <= if t <= c'.lastClientSerial then 1 else 0
    {
      CountsConcat(log, es, conn, FrameDebt(id, t));
    }
  }

  /** A connection the entries do not mention. */
  lemma {:induction false} Unmentioned(es: Log, conn: ConnId, d: Debt)
    requires forall i | 0 <= i < |es| :: es[i].conn != conn
    ensures OwedIn(es, conn, d) == 0 && PaidIn(es, conn, d) == 0
    decreases |es|
  {
    if es != [] {
      Unmentioned(es[..|es| - 1], conn, d);
    }
  }

  lemma QuietDelta(c: Connection, conn: ConnId, es: Log)
    requires forall i | 0 <= i < |es| :: es[i].conn != conn
    ensures ConnDelta(c, c, conn, es)
  {
    hide Open, OwedIn, PaidIn, LastConfigure;
    forall d
      ensures OwedIn(es, conn, d) == 0 && PaidIn(es, conn, d) == 0
    {
      Unmentioned(es, conn, d);
    }
  }

  /** Only connection `conn` changes, from `c` to `c'`. */
  lemma LogStep(s: State, log: Log, s': State, es: Log, conn: ConnId)
    requires LogOk(s, log) && Replay(BracketOf(s.seat), es) == Some(BracketOf(s'.seat))
    requires forall i | 0 <= i < |es| :: es[i].conn == conn
    requires conn < s'.nextConn == s.nextConn && conn in s.conns
    requires s'.conns == s.conns - {conn}
      || (conn in s'.conns && s'.conns == s.conns[conn := s'.conns[conn]]
          && ConnDelta(s.conns[conn], s'.conns[conn], conn, es))
    ensures LogOk(s', log + es)
  {
    hide ConnLog, ConnDelta, Replay, BracketOf;
    ReplayConcat(NOTHING, log, es);
    forall x | x in s'.conns
      ensures ConnLog(s'.conns[x], x, log + es)
    {
      if x != conn {
        QuietDelta(s.conns[x], x, es);
      }
      ConnLogStep(s.conns[x], s'.conns[x], x, log, es);
    }
  }

  // ---- input events -------------------------------------------------------------------------

  /** One event on connection `conn` that is neither a CONFIGURE nor settles a
      debt: the connection only moves its serial. */
  lemma OneEventDelta(c: Connection, c': Connection, conn: ConnId, serial: nat, e: Emit)
    requires !e.event.Configure? && !e.event.BufferRelease? && !e.event.FrameDone?
    requires c'.objects == c.objects && c'.lastClientSerial == c.lastClientSerial
    ensures ConnDelta(c, c', conn, [Sent(conn, serial, e)])
  {
    hide Open, OwedIn, PaidIn, LastConfigure;
    forall d
      ensures OwedIn([Sent(conn, serial, e)], conn, d) == 0 && PaidIn([Sent(conn, serial, e)], conn, d) == 0
    {
      CountsOne(Sent(conn, serial, e), conn, d);
    }
  }

  /** A seat event to a live surface, with the seat it leaves. */
  lemma InputStep(s: State, owners: Owners, log: Log, t: Target, ev: Event, seat': Seat)
    requires Inv(s, owners, log) && Live(s, t) && SeatInv(s.(seat := seat'))
    requires !ev.Configure? && !ev.BufferRelease? && !ev.FrameDone?
    requires Follow(BracketOf(s.seat), t.conn, Emit(t.surface, ev)) == Some(BracketOf(seat'))
    ensures var o := EmitTo(s.(seat := seat'), t.conn, Emit(t.surface, ev)); Inv(o.state, owners, log + o.entries)
  {
    hide ConnOk, SeatOk, LogOk, ConnDelta, BracketOf, Follow, IsMapped, Replay;
    var e := Emit(t.surface, ev);
    var s1 := s.(seat := seat');
    var o := EmitTo(s1, t.conn, e);
    var c := s.conns[t.conn];
    var c' := o.state.conns[t.conn];
    OneEventDelta(c, c', t.conn, c.nextServerSerial, e);
    ReplayOne(BracketOf(s.seat), o.entries[0]);
    assert o.entries == [o.entries[0]];
    LogStep(s, log, o.state, o.entries, t.conn);
    SerialKeeps(c, c', owners[t.conn]);
  }

  lemma SerialKeeps(c: Connection, c': Connection, owner: map<ObjectId, ObjectId>)
    requires ConnOk(c, owner)
    requires c' == c.(nextServerSerial := c'.nextServerSerial, lastClientSerial := c'.lastClientSerial,
                  phase := c'.phase)
    requires c'.phase == c.phase || c'.phase == Closed
    ensures ConnOk(c', owner)
  {
  }

  /** A change of the seat that no client sees. */
  lemma SilentStep(s: State, owners: Owners, log: Log, seat': Seat)
    requires Inv(s, owners, log) && SeatInv(s.(seat := seat')) && BracketOf(seat') == BracketOf(s.seat)
    ensures Inv(s.(seat := seat'), owners, log + [])
  {
    hide ConnOk, SeatOk, ConnLog, BracketOf, Replay;
    assert log + [] == log;
  }

  // ---- connections come and go ------------------------------------------------------------------

  lemma ConnectStep(s: State, owners: Owners, log: Log) returns (owners': Owners)
    requires Inv(s, owners, log)
    ensures var o := DoConnect(s); Inv(o.state, owners', log + o.entries)
  {
    hide ConnOk, SeatOk, BracketOf, Replay, ConnLog;
    var o := DoConnect(s);
    assert log + [] == log;
    if |s.conns| >= MAX_CONNECTIONS {
      owners' := owners;
    } else {
      owners' := owners[s.nextConn := map[]];
      FreshConn(s.nextConn, s.now, log);
    }
  }

  lemma FreshConn(conn: ConnId, now: nat, log: Log)
    requires forall i | 0 <= i < |log| :: log[i].conn < conn
    ensures ConnOk(NewConnection(now), map[]) && ConnLog(NewConnection(now), conn, log)
  {
    forall d
      ensures OwedIn(log, conn, d) == 0 && PaidIn(log, conn, d) == 0
    {
      Unmentioned(log, conn, d);
    }
  }

  /** Dropping a connection from the seat leaves the others' focus alone. */
  lemma DropConnSeat(s: State, s': State, conn: ConnId)
    requires SeatInv(s) && s'.seat == DropConn(s.seat, conn)
    requires forall x | x in s.conns && x != conn :: x in s'.conns && s'.conns[x] == s.conns[x]
    ensures SeatInv(s')
  {
    DropConnOk(s.seat, conn);
  }

  lemma NoFocusThere(s: State, conn: ConnId)
    requires SeatInv(s) && conn !in s.conns
    ensures DropConn(s.seat, conn) == s.seat
  {
  }

  lemma PeerGoneStep(s: State, owners: Owners, log: Log, conn: ConnId)
    requires Inv(s, owners, log)
    ensures var o := DoPeerGone(s, conn); Inv(o.state, owners, log + o.entries)
  {
    hide ConnOk, SeatOk, BracketOf, Replay, ConnLog, ConnDelta;
    var o := DoPeerGone(s, conn);
    DropConnSeat(s, o.state, conn);
    if conn in s.conns {
      ForgetIsDrop(s.seat, conn);
      ReplayOne(BracketOf(s.seat), Lost(conn));
      LogStep(s, log, o.state, o.entries, conn);
    } else {
      assert o.state.conns == s.conns;
      NoFocusThere(s, conn);
      assert log + [] == log;
    }
  }

  lemma {:induction false} TimeoutsStep(s: State, owners: Owners, log: Log, n: nat)
    requires Inv(s, owners, log)
    ensures var o := DropTimedOut(s, n); Inv(o.state, owners, log + o.entries)
  {
    hide Inv, TimedOut, DoPeerGone;
    if n == 0 {
      assert log + [] == log;
    } else {
      var a := DropTimedOut(s, n - 1);
      TimeoutsStep(s, owners, log, n - 1);
      if TimedOut(a.state, n - 1) {
        PeerGoneStep(a.state, owners, log + a.entries, n - 1);
        var f := DoPeerGone(a.state, n - 1);
        assert (log + a.entries) + f.entries == log + (a.entries + f.entries);
      }
    }
  }

  lemma TickStep(s: State, owners: Owners, log: Log, now: nat)
    requires Inv(s, owners, log)
    ensures var o := DoTick(s, now); Inv(o.state, owners, log + o.entries)
  {
    hide ConnOk, SeatOk, BracketOf, Replay, ConnLog, DropTimedOut;
    var s1 := if now > s.now then s.(now := now) else s;
    assert Inv(s1, owners, log);
    TimeoutsStep(s1, owners, log, s1.nextConn);
  }

  /** A connection closed by the server: an ERROR, then silence. */
  lemma OverflowStep(s: State, owners: Owners, log: Log, conn: ConnId)
    requires Inv(s, owners, log) && Alive(s, conn)
    ensures var o := Overflow(s, conn); Inv(o.state, owners, log + o.entries)
  {
    hide ConnOk, SeatOk, BracketOf, Replay, ConnLog, ConnDelta;
    var o := Overflow(s, conn);
    var c, c' := s.conns[conn], o.state.conns[conn];
    var e := Emit(0, Error(0, LimitExceeded, true));
    var sent := Sent(conn, c.nextServerSerial, e);
    assert o.entries == [sent] + [Lost(conn)];
    DropConnSeat(s, o.state, conn);
    SerialKeeps(c, c', owners[conn]);
    OneEventDelta(c, c', conn, c.nextServerSerial, e);
    LostDelta(c, c', conn, [sent]);
    var b := BracketOf(s.seat);
    ReplayOne(b, sent);
    ReplayOne(b, Lost(conn));
    ReplayConcat(b, [sent], [Lost(conn)]);
    ForgetIsDrop(s.seat, conn);
    LogStep(s, log, o.state, o.entries, conn);
  }

  /** Losing a connection settles nothing. */
  lemma LostDelta(c: Connection, c': Connection, conn: ConnId, es: Log)
    requires ConnDelta(c, c', conn, es)
    ensures ConnDelta(c, c', conn, es + [Lost(conn)])
  {
    hide Open, OwedIn, PaidIn, LastConfigure;
    var all := es + [Lost(conn)];
    forall d
      ensures OwedIn(all, conn, d) == OwedIn(es, conn, d) && PaidIn(all, conn, d) == PaidIn(es, conn, d)
    {
      CountsConcat(es, [Lost(conn)], conn, d);
      CountsOne(Lost(conn), conn, d);
    }
    forall id: ObjectId
      ensures LastConfigure(all, conn, id) == LastConfigure(es, conn, id)
      ensures NoConfigure(all, conn, id) <==> NoConfigure(es, conn, id)
    {
      ConfigureKept(es, [Lost(conn)], conn, id);
      assert forall i | 0 <= i < |es| :: all[i] == es[i];
    }
  }

  // ---- composition and configuration -----------------------------------------------------------

  /** What completing the callbacks below `n` does, object by object. */
  lemma {:induction false} PresentedIs(objects: Objects, n: nat)
    ensures var o := Presented(objects, n);
      && o.Keys == objects.Keys
      && forall id | id in objects ::
           o[id] ==
             if id < n && objects[id].Surf? then Surf(objects[id].surface.(framePending := false)) else objects[id]
  {
    if n > 0 {
      PresentedIs(objects, n - 1);
    }
  }

  lemma {:induction false} DonesSettle(objects: Objects, now: nat, n: nat, d: Debt)
    ensures SettledIn(FrameDones(objects, now, n), d) ==
      if d.FrameDebt? && d.surface < n then Open(objects, d) else 0
  {
    if n > 0 {
      DonesSettle(objects, now, n - 1, d);
      if IsSurface(objects, n - 1) && objects[n - 1].surface.framePending {
        var s := objects[n - 1].surface;
        var e := Emit(n - 1, FrameDone(s.frameToken, now, if s.mapped then FRAME_PRESENTED else FRAME_DISCARDED));
        SettledConcat(FrameDones(objects, now, n - 1), [e], d);
        SettledIf(true, e, d);
      } else {
        SettledConcat(FrameDones(objects, now, n - 1), [], d);
      }
    }
  }

  lemma {:induction false} DonesNeutral(objects: Objects, now: nat, n: nat)
    ensures forall i | 0 <= i < |FrameDones(objects, now, n)| :: FrameDones(objects, now, n)[i].event.FrameDone?
  {
    if n > 0 {
      DonesNeutral(objects, now, n - 1);
    }
  }

  lemma PresentedOwn(objects: Objects, owner: map<ObjectId, ObjectId>, n: nat)
    requires OwnOk(objects, owner)
    ensures OwnOk(Presented(objects, n), owner) && SameWeights(objects, Presented(objects, n))
  {
    PresentedIs(objects, n);
    var o := Presented(objects, n);
    forall id | id in o
      ensures ObjectOk(o, owner, id)
    {
      assert ObjectOk(objects, owner, id);
    }
  }

  // ---- a batch of events on one connection ---------------------------------------------------------

  ghost predicate NoConfigureIn(emits: seq<Emit>, id: ObjectId) {
    forall i | 0 <= i < |emits| :: !Configures(emits[i], id)
  }

  /** What a batch may do to configure tokens: at most one new surface, whose
      token is the serial its CONFIGURE is about to get. */
  ghost predicate TokensOk(objects: Objects, objects': Objects, base: nat, emits: seq<Emit>) {
    forall id | IsSurface(objects', id) ::
      if NoConfigureIn(emits, id)
      then IsSurface(objects, id) && objects'[id].surface.latestToken == objects[id].surface.latestToken
      else |emits| == 2 && Configures(emits[1], id) && objects'[id].surface.latestToken == base + 1
  }

  function OwedEntry(conn: ConnId, owed: Option<Debt>): Log { if owed.Some? then [Owed(conn, owed.value)] else [] }

  lemma BatchCounts(conn: ConnId, base: nat, emits: seq<Emit>, owed: Option<Debt>, d: Debt)
    ensures var es := OwedEntry(conn, owed) + Sends(conn, base, emits);
      OwedIn(es, conn, d) == (if owed == Some(d) then 1 else 0) && PaidIn(es, conn, d) == SettledIn(emits, d)
  {
    hide SettledIn, Settles;
    CountsConcat(OwedEntry(conn, owed), Sends(conn, base, emits), conn, d);
    SendsCounts(conn, base, emits, conn, d);
    if owed.Some? {
      CountsOne(Owed(conn, owed.value), conn, d);
    }
  }

  lemma SendsConfigure(conn: ConnId, base: nat, emits: seq<Emit>, id: ObjectId)
    ensures NoConfigure(Sends(conn, base, emits), conn, id) <==> NoConfigureIn(emits, id)
    ensures |emits| == 2 && Configures(emits[1], id) ==> LastConfigure(Sends(conn, base, emits), conn, id) == base + 1
  {
    hide Configures;
    var b := Sends(conn, base, emits);
    if NoConfigure(b, conn, id) {
      forall i | 0 <= i < |emits|
        ensures !Configures(emits[i], id)
      {
        assert b[i] == Sent(conn, base + i, emits[i]);
      }
    }
    if |emits| == 2 && Configures(emits[1], id) {
      assert b[|b| - 1] == Sent(conn, base + 1, emits[1]);
    }
  }

  lemma BatchConfigure(conn: ConnId, base: nat, emits: seq<Emit>, owed: Option<Debt>, id: ObjectId)
    ensures var es := OwedEntry(conn, owed) + Sends(conn, base, emits);
      && (NoConfigure(es, conn, id) <==> NoConfigureIn(emits, id))
      && (|emits| == 2 && Configures(emits[1], id) ==> LastConfigure(es, conn, id) == base + 1)
  {
    hide Configures, LastConfigure, NoConfigureIn, Sends;
    var a, b := OwedEntry(conn, owed), Sends(conn, base, emits);
    SendsConfigure(conn, base, emits, id);
    ConfigureConcat(a, b, conn, id);
    NoConfigureSplit(a, b, conn, id);
    if |emits| == 2 && Configures(emits[1], id) {
      HasConfigure(emits, id);
    }
  }

  lemma HasConfigure(emits: seq<Emit>, id: ObjectId)
    requires |emits| == 2 && Configures(emits[1], id)
    ensures !NoConfigureIn(emits, id)
  {
  }

  lemma NoConfigureSplit(a: Log, b: Log, conn: ConnId, id: ObjectId)
    ensures NoConfigure(a + b, conn, id) <==> NoConfigure(a, conn, id) && NoConfigure(b, conn, id)
  {
    hide Configures;
    var es := a + b;
    if NoConfigure(es, conn, id) {
      forall i | 0 <= i < |b|
        ensures !(b[i].Sent? && b[i].conn == conn && Configures(b[i].emit, id))
      {
        assert es[|a| + i] == b[i];
      }
      forall i | 0 <= i < |a|
        ensures !(a[i].Sent? && a[i].conn == conn && Configures(a[i].emit, id))
      {
        assert es[i] == a[i];
      }
    }
  }

  lemma BatchDelta(c: Connection, c': Connection, conn: ConnId, emits: seq<Emit>, owed: Option<Debt>)
    requires forall d ::
      Open(c'.objects, d) + SettledIn(emits, d) == Open(c.objects, d) + if owed == Some(d) then 1 else 0
    requires TokensOk(c.objects, c'.objects, c.nextServerSerial, emits)
    requires c.lastClientSerial <= c'.lastClientSerial
    requires owed.Some? && owed.value.FrameDebt? ==> c.lastClientSerial < owed.value.token <= c'.lastClientSerial
    ensures ConnDelta(c, c', conn, OwedEntry(conn, owed) + Sends(conn, c.nextServerSerial, emits))
  {
    hide Open, OwedIn, PaidIn, LastConfigure, SettledIn, NoConfigure, NoConfigureIn, Sends, OwedEntry;
    var es := OwedEntry(conn, owed) + Sends(conn, c.nextServerSerial, emits);
    forall d
      ensures OwedIn(es, conn, d) == (if owed == Some(d) then 1 else 0) && PaidIn(es, conn, d) == SettledIn(emits, d)
    {
      BatchCounts(conn, c.nextServerSerial, emits, owed, d);
    }
    forall id: ObjectId
      ensures NoConfigure(es, conn, id) <==> NoConfigureIn(emits, id)
      ensures |emits| == 2 && Configures(emits[1], id) ==> LastConfigure(es, conn, id) == c.nextServerSerial + 1
    {
      BatchConfigure(conn, c.nextServerSerial, emits, owed, id);
    }
  }

  lemma CompositeConnStep(s: State, owners: Owners, log: Log, conn: ConnId)
    requires Inv(s, owners, log)
    ensures var o := CompositeConn(s, conn); Inv(o.state, owners, log + o.entries)
  {
    hide ConnDelta, BracketOf, Replay, ConnLog, SeatOk, OwnOk, FrameDones, Presented, Open, SettledIn, Total, Sends;
    var o := CompositeConn(s, conn);
    if conn in s.conns && s.conns[conn].phase == Active {
      var c := s.conns[conn];
      var n := c.idWatermark + 1;
      var emits := FrameDones(c.objects, s.now, n);
      var c' := o.state.conns[conn];
      PresentedOwn(c.objects, owners[conn], n);
      CountsSame(c, c');
      CompositeDelta(c, c', conn, s.now);
      DonesNeutral(c.objects, s.now, n);
      NeutralFollow(BracketOf(s.seat), conn, emits);
      ReplaySends(BracketOf(s.seat), conn, c.nextServerSerial, emits);
      SendsConn(conn, c.nextServerSerial, emits);
      PresentedIs(c.objects, n);
      LogStep(s, log, o.state, o.entries, conn);
    } else {
      assert log + [] == log;
    }
  }

  lemma SendsConn(conn: ConnId, base: nat, emits: seq<Emit>)
    ensures forall i | 0 <= i < |Sends(conn, base, emits)| :: Sends(conn, base, emits)[i].conn == conn
  {
  }

  lemma CompositeDelta(c: Connection, c': Connection, conn: ConnId, now: nat)
    requires CountsOk(c) && c'.objects == Presented(c.objects, c.idWatermark + 1)
    requires c'.lastClientSerial == c.lastClientSerial
    ensures ConnDelta(c, c', conn, Sends(conn, c.nextServerSerial, FrameDones(c.objects, now, c.idWatermark + 1)))
  {
    hide ConnDelta, FrameDones, Presented, SettledIn, Total, Sends;
    var n := c.idWatermark + 1;
    var emits := FrameDones(c.objects, now, n);
    PresentedIs(c.objects, n);
    forall d
      ensures Open(c'.objects, d) + SettledIn(emits, d) == Open(c.objects, d)
    {
      DonesSettle(c.objects, now, n, d);
    }
    DonesNeutral(c.objects, now, n);
    BatchDelta(c, c', conn, emits, None);
    assert [] + Sends(conn, c.nextServerSerial, emits) == Sends(conn, c.nextServerSerial, emits);
  }

  lemma {:induction false} CompositeStep(s: State, owners: Owners, log: Log, n: nat)
    requires Inv(s, owners, log)
    ensures var o := CompositeBelow(s, n); Inv(o.state, owners, log + o.entries)
  {
    hide Inv, CompositeConn;
    if n == 0 {
      assert log + [] == log;
    } else {
      var a := CompositeBelow(s, n - 1);
      CompositeStep(s, owners, log, n - 1);
      CompositeConnStep(a.state, owners, log + a.entries, n - 1);
      var f := CompositeConn(a.state, n - 1);
      assert (log + a.entries) + f.entries == log + (a.entries + f.entries);
    }
  }

  lemma ReconfigureStep(s: State, owners: Owners, log: Log, conn: ConnId, id: ObjectId, width: nat, height: nat,
                        scale: nat, state: nat)
    requires Inv(s, owners, log)
    ensures var o := DoReconfigure(s, conn, id, width, height, scale, state); Inv(o.state, owners, log + o.entries)
  {
    hide ConnDelta, BracketOf, Replay, ConnLog, SeatOk, OwnOk, Total;
    var o := DoReconfigure(s, conn, id, width, height, scale, state);
    if o.entries == [] {
      assert log + [] == log;
      assert o.state == s;
    } else {
      var c, c' := s.conns[conn], o.state.conns[conn];
      var e := Emit(id, Configure(width, height, scale, state));
      RestyleOwn(c.objects, owners[conn], id, c'.objects[id].surface);
      CountsSame(c, c');
      ReconfigureDelta(c, c', conn, id, e);
      ReplayOne(BracketOf(s.seat), o.entries[0]);
      assert o.entries == [o.entries[0]];
      LogStep(s, log, o.state, o.entries, conn);
    }
  }

  lemma ReconfigureDelta(c: Connection, c': Connection, conn: ConnId, id: ObjectId, e: Emit)
    requires IsSurface(c.objects, id) && IsSurface(c'.objects, id) && c'.lastClientSerial == c.lastClientSerial
    requires c'.objects == c.objects[id := c'.objects[id]] && Configures(e, id)
    requires c'.objects[id].surface.framePending == c.objects[id].surface.framePending
    requires c'.objects[id].surface.frameToken == c.objects[id].surface.frameToken
    requires c'.objects[id].surface.latestToken == c.nextServerSerial
    ensures ConnDelta(c, c', conn, [Sent(conn, c.nextServerSerial, e)])
  {
    hide OwedIn, PaidIn, LastConfigure;
    var es := [Sent(conn, c.nextServerSerial, e)];
    forall d
      ensures OwedIn(es, conn, d) == 0 && PaidIn(es, conn, d) == 0
    {
      CountsOne(es[0], conn, d);
    }
    forall x | IsSurface(c'.objects, x)
      ensures if NoConfigure(es, conn, x)
              then IsSurface(c.objects, x) && c'.objects[x].surface.latestToken == c.objects[x].surface.latestToken
              else LastConfigure(es, conn, x) == c'.objects[x].surface.latestToken
    {
      if x == id {
        assert [] + es == es;
        ConfigureLast([], es[0], conn, id);
        assert Configures(es[0].emit, x);
      }
    }
  }

  // ---- packets --------------------------------------------------------------------------------------

  ghost predicate Unconfiguring(emits: seq<Emit>) { forall i | 0 <= i < |emits| :: !emits[i].event.Configure? }

  lemma DestroyUnconfiguring(k: Call)
    ensures Unconfiguring(DoDestroySurface(k).emits)
  {
    hide Released, DropSurface;
  }

  lemma CommitUnconfiguring(k: Call, token: nat, frameCallback: nat)
    ensures Unconfiguring(DoCommit(k, token, frameCallback).emits)
  {
    hide Released, DropSurface;
  }

  /** No request but CREATE_SURFACE touches a configure token. */
  lemma TokensStay(k: Call, req: Request, cap: Option<nat>, id: ObjectId)
    requires !req.CreateSurface? && CountsOk(k.conn)
    ensures var o := Dispatch(k, req, cap).conn.objects;
      IsSurface(o, id) ==>
        IsSurface(k.conn.objects, id) && o[id].surface.latestToken == k.conn.objects[id].surface.latestToken
  {
    hide RectOk, AppIdOk, DropSurface, Leaves, Total;
  }

  /** The only CONFIGURE a request sends is a new surface's first. */
  lemma DispatchTokens(k: Call, req: Request, cap: Option<nat>)
    requires CountsOk(k.conn)
    ensures TokensOk(k.conn.objects, Dispatch(k, req, cap).conn.objects, k.conn.nextServerSerial,
                     Dispatch(k, req, cap).emits)
  {
    hide RectOk, AppIdOk, DropSurface, Total, DoDestroySurface, DoCommit, DoAttach, DoImport, DoAck;
    var r := Dispatch(k, req, cap);
    if !req.CreateSurface? {
      forall id | IsSurface(r.conn.objects, id)
        ensures IsSurface(k.conn.objects, id)
        ensures r.conn.objects[id].surface.latestToken == k.conn.objects[id].surface.latestToken
      {
        TokensStay(k, req, cap, id);
      }
      DispatchUnconfiguring(k, req, cap);
    } else if Accepted(r) {
      assert Configures(r.emits[1], k.id);
    }
  }

  lemma DispatchUnconfiguring(k: Call, req: Request, cap: Option<nat>)
    requires !req.CreateSurface?
    ensures Unconfiguring(Dispatch(k, req, cap).emits)
  {
    hide RectOk, AppIdOk, DoDestroySurface, DoCommit;
    match req {
      case DestroySurface => DestroyUnconfiguring(k);
      case Commit(token, frameCallback) => CommitUnconfiguring(k, token, frameCallback);
      case _ =>
    }
  }

  /** A focus that survives a request still names a mapped surface. */
  lemma ReplyFocus(k: Call, req: Request, cap: Option<nat>, t: Target)
    requires CountsOk(k.conn) && SeatOk(k.seat) && t.conn == k.connId && IsMapped(k.conn.objects, t.surface)
    requires var r := Dispatch(k, req, cap); r.seat.pointerFocus == Some(t) || r.seat.keyboardFocus == Some(t)
    ensures IsMapped(Dispatch(k, req, cap).conn.objects, t.surface)
  {
    hide Dispatch, CountsOk, SeatOk, IsMapped;
    MappedKept(k, req, cap, t.surface);
    DispatchFollows(k, req, cap);
  }

  lemma ReplyPhase(k: Call, req: Request, cap: Option<nat>)
    ensures var r := Dispatch(k, req, cap);
      && (k.conn.phase == Active ==> r.conn.phase == Active)
      && r.conn.lastClientSerial == k.conn.lastClientSerial && r.conn.nextServerSerial == k.conn.nextServerSerial
  {
    hide RectOk, AppIdOk, DropSurface, Leaves, Released;
  }

  /** What one packet makes of its connection. */
  ghost predicate PacketDone(c: Connection, seat: Seat, conn: ConnId, r: Reply, owed: Option<Debt>,
                             owner: map<ObjectId, ObjectId>) {
    && ConnOk(r.conn, owner) && SeatOk(r.seat)
    && (forall d ::
            Open(r.conn.objects, d) + SettledIn(r.emits, d) == Open(c.objects, d) + if owed == Some(d) then 1 else 0)
    && TokensOk(c.objects, r.conn.objects, c.nextServerSerial, r.emits)
    && c.lastClientSerial <= r.conn.lastClientSerial && r.conn.nextServerSerial == c.nextServerSerial
    && (owed.Some? && owed.value.FrameDebt? ==> c.lastClientSerial < owed.value.token <= r.conn.lastClientSerial)
    && FollowAll(BracketOf(seat), conn, r.emits) == Some(BracketOf(r.seat))
    && (c.phase == Active ==> r.conn.phase == Active)
    && (r.seat.pointerFocus.Some? ==> r.seat.pointerFocus == seat.pointerFocus)
    && (r.seat.keyboardFocus.Some? ==> r.seat.keyboardFocus == seat.keyboardFocus)
    && (forall t: Target | t.conn == conn && IsMapped(c.objects, t.surface)
                           && (r.seat.pointerFocus == Some(t) || r.seat.keyboardFocus == Some(t)) ::
          IsMapped(r.conn.objects, t.surface))
  }

  lemma RejectedDone(c: Connection, seat: Seat, conn: ConnId, r: Reply, owner: map<ObjectId, ObjectId>)
    requires ConnOk(c, owner) && SeatOk(seat) && r.seat == seat && |r.emits| == 1 && r.emits[0].event.Error?
    requires r.conn == c.(lastClientSerial := r.conn.lastClientSerial) && c.lastClientSerial <= r.conn.lastClientSerial
    ensures PacketDone(c, seat, conn, r, None, owner)
  {
    hide OwnOk, CountsOk, SeatOk, BracketOf, FollowAll, SettledIn, Open;
    forall d
      ensures SettledIn(r.emits, d) == 0
    {
      NoneSettled(r.emits, d);
    }
    NeutralFollow(BracketOf(seat), conn, r.emits);
    SerialKeeps(c, r.conn, owner);
  }

  lemma PassedDone(c: Connection, k: Call, req: Request, cap: Option<nat>, owner: map<ObjectId, ObjectId>)
    returns (owner': map<ObjectId, ObjectId>)
    requires ConnOk(c, owner) && SeatOk(k.seat) && k.conn == c.(lastClientSerial := k.serial)
    requires c.lastClientSerial < k.serial
    requires c.phase == Active || (c.phase == New && req.Hello?)
    ensures var r := Dispatch(k, req, cap); PacketDone(c, k.seat, k.connId, r, Opened(k, req, r), owner')
  {
    hide OwnOk, CountsOk, SeatOk, BracketOf, FollowAll, SettledIn, Open, Dispatch, IsMapped, TokensOk, DropSurface;
    SerialKeeps(c, k.conn, owner);
    owner' := DispatchOk(k, owner, req, cap);
    var r := Dispatch(k, req, cap);
    forall d
      ensures Open(r.conn.objects, d) + SettledIn(r.emits, d)
        == Open(c.objects, d) + if Opened(k, req, r) == Some(d) then 1 else 0
    {
      DispatchBalanced(k, owner, req, cap, d);
    }
    DispatchTokens(k, req, cap);
    DispatchFollows(k, req, cap);
    ReplyPhase(k, req, cap);
    DropSurfaceFocus(k.seat, Target(k.connId, k.id));
    forall t: Target | t.conn == k.connId && IsMapped(c.objects, t.surface)
                       && (r.seat.pointerFocus == Some(t) || r.seat.keyboardFocus == Some(t))
      ensures IsMapped(r.conn.objects, t.surface)
    {
      ReplyFocus(k, req, cap, t);
    }
  }

  lemma DropSurfaceFocus(seat: Seat, t: Target)
    ensures var d := DropSurface(seat, t);
      && (d.pointerFocus.Some? ==> d.pointerFocus == seat.pointerFocus)
      && (d.keyboardFocus.Some? ==> d.keyboardFocus == seat.keyboardFocus)
  {
  }

  /** From one packet to the whole server. */
  lemma PacketStep(s: State, owners: Owners, log: Log, conn: ConnId, r: Reply, owed: Option<Debt>,
                   owner: map<ObjectId, ObjectId>)
    requires Inv(s, owners, log) && Alive(s, conn)
    requires PacketDone(s.conns[conn], s.seat, conn, r, owed, owner)
    ensures var c := r.conn.(nextServerSerial := r.conn.nextServerSerial + |r.emits|);
      var s' := s.(nextClient := r.nextClient,
                   conns := s.conns[conn := if r.close then c.(phase := Closed) else c],
                   seat := if r.close then DropConn(r.seat, conn) else r.seat);
      Inv(s', owners[conn := owner],
          log + (OwedEntry(conn, owed) + Sends(conn, s.conns[conn].nextServerSerial, r.emits)
                 + (if r.close then [Lost(conn)] else [])))
  {
    hide ConnOk, SeatOk, ConnLog, ConnDelta, BracketOf, FollowAll, Replay, Open, SettledIn, TokensOk, Sends, OwedEntry,
         IsMapped, DropConn;
    var c0 := s.conns[conn];
    var c := r.conn.(nextServerSerial := r.conn.nextServerSerial + |r.emits|);
    var c' := if r.close then c.(phase := Closed) else c;
    var es := OwedEntry(conn, owed) + Sends(conn, c0.nextServerSerial, r.emits);
    BatchDelta(c0, c', conn, r.emits, owed);
    BatchReplay(BracketOf(s.seat), conn, c0.nextServerSerial, r.emits, owed);
    SerialKeeps(r.conn, c', owner);
    var mid := s.(nextClient := r.nextClient, conns := s.conns[conn := c'], seat := r.seat);
    if r.close {
      LostDelta(c0, c', conn, es);
      ForgetIsDrop(r.seat, conn);
      ReplayOne(BracketOf(r.seat), Lost(conn));
      ReplayConcat(BracketOf(s.seat), es, [Lost(conn)]);
      var s' := mid.(seat := DropConn(r.seat, conn));
      BatchConn(conn, c0.nextServerSerial, r.emits, owed);
      LogStep(s, log, s', es + [Lost(conn)], conn);
      ClosedSeat(s, s', r.seat, conn);
    } else {
      assert es + [] == es;
      BatchConn(conn, c0.nextServerSerial, r.emits, owed);
      LogStep(s, log, mid, es, conn);
    }
  }

  lemma BatchConn(conn: ConnId, base: nat, emits: seq<Emit>, owed: Option<Debt>)
    ensures var es := OwedEntry(conn, owed) + Sends(conn, base, emits);
      && (forall i | 0 <= i < |es| :: es[i].conn == conn)
      && forall i | 0 <= i < |es + [Lost(conn)]| :: (es + [Lost(conn)])[i].conn == conn
  {
  }

  lemma BatchReplay(b: Bracket, conn: ConnId, base: nat, emits: seq<Emit>, owed: Option<Debt>)
    ensures Replay(b, OwedEntry(conn, owed) + Sends(conn, base, emits)) == FollowAll(b, conn, emits)
  {
    hide FollowAll, Sends;
    ReplayConcat(b, OwedEntry(conn, owed), Sends(conn, base, emits));
    ReplaySends(b, conn, base, emits);
    if owed.Some? {
      ReplayOne(b, Owed(conn, owed.value));
    }
  }

  lemma ClosedSeat(s: State, s': State, seat: Seat, conn: ConnId)
    requires SeatInv(s) && SeatOk(seat) && s'.seat == DropConn(seat, conn)
    requires seat.pointerFocus.Some? ==> seat.pointerFocus == s.seat.pointerFocus
    requires seat.keyboardFocus.Some? ==> seat.keyboardFocus == s.seat.keyboardFocus
    requires forall x | x in s.conns && x != conn :: x in s'.conns && s'.conns[x] == s.conns[x]
    ensures SeatInv(s')
  {
    DropConnOk(seat, conn);
  }

  lemma DeliverStep(s: State, owners: Owners, log: Log, conn: ConnId, p: Packet, cap: Option<nat>)
    returns (owners': Owners)
    requires Inv(s, owners, log) && PacketOk(p)
    ensures var o := DoDeliver(s, conn, p, cap); Inv(o.state, owners', log + o.entries)
  {
    hide ConnLog, BracketOf, Replay, PacketDone, Dispatch, LogOk, CountsOk, OwnOk;
    if !Alive(s, conn) {
      owners' := owners;
      assert log + [] == log;
    } else {
      var c := s.conns[conn];
      var st := Stage(c, s.nextClient, s.seat, conn, s.now, p, cap);
      var r := Pipeline(st, cap);
      if st.Rejected? {
        RejectedDone(c, s.seat, conn, r, owners[conn]);
        PacketStep(s, owners, log, conn, r, None, owners[conn]);
        owners' := owners[conn := owners[conn]];
      } else {
        var owner := PassedDone(c, st.call, st.request, cap, owners[conn]);
        PacketStep(s, owners, log, conn, r, Opened(st.call, st.request, r), owner);
        owners' := owners[conn := owner];
      }
    }
  }
}
