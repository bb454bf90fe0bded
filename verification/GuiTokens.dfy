/** Serials, configure tokens and acknowledgements over every run: serials only
    grow, a surface has the size its last CONFIGURE announced, and its token
    counts as acknowledged exactly when an ACK_CONFIGURE of it was granted. */
module GuiTokens {
  import opened Bytes
  import opened GuiModel
  import opened GuiDebt
  import opened GuiOwn
  import opened GuiRun
  import opened GuiTrace
  import opened GuiSafe
  import opened GuiRuns

  /** An ACK_CONFIGURE that was answered with RESULT. */
  datatype Ack = Ack(conn: ConnId, surface: ObjectId, token: nat)

  /** The acknowledgement this input is, if the server's answer grants it. */
  function AckedBy(s: State, input: Input): set<Ack> {
    match input
    case Deliver(conn, Framed(id, serial, _, _, Decoded(AckConfigure(token))), _) =>
      if conn in s.conns
         && Step(s, input).entries == [Sent(conn, s.conns[conn].nextServerSerial, Emit(id, Result(serial)))]
      then {Ack(conn, id, token)} else {}
    case _ => {}
  }

  /** The acknowledgements granted during a run. */
  function Acks(inputs: seq<Input>): set<Ack> {
    if inputs == [] then {}
    else
      var n := |inputs| - 1;
      Acks(inputs[..n]) + AckedBy(Run(inputs[..n]).state, inputs[n])
  }

  // ---- the invariant ---------------------------------------------------------------------

  /** Serials on each connection only grow. */
  ghost predicate Rising(log: Log) {
    forall i, j | 0 <= i < j < |log| && log[i].Sent? && log[j].Sent? && log[i].conn == log[j].conn ::
      log[i].serial < log[j].serial
  }

  /** The CONFIGURE that announces a surface as it is. */
  function Announcement(conn: ConnId, id: ObjectId, f: Surface): Entry {
    Sent(conn, f.latestToken, Emit(id, Configure(f.width, f.height, f.scale, f.state)))
  }

  ghost predicate SurfaceTokens(conn: ConnId, id: ObjectId, f: Surface, log: Log, acks: set<Ack>) {
    && f.ackedToken <= f.latestToken && Announcement(conn, id, f) in log
    && (f.ackedToken == f.latestToken <==> Ack(conn, id, f.latestToken) in acks)
  }

  ghost predicate ConnTokens(conn: ConnId, c: Connection, log: Log, acks: set<Ack>) {
    forall id | IsSurface(c.objects, id) ::
      && c.objects[id].surface.latestToken < c.nextServerSerial
      && SurfaceTokens(conn, id, c.objects[id].surface, log, acks)
  }

  ghost predicate Bounded(s: State, conn: ConnId, serial: nat) {
    conn < s.nextConn && (conn in s.conns ==> serial < s.conns[conn].nextServerSerial)
  }

  ghost predicate Tokens(s: State, log: Log, acks: set<Ack>) {
    && Rising(log)
    && (forall a | a in acks :: Bounded(s, a.conn, a.token))
    && (forall i | 0 <= i < |log| && log[i].Sent? :: Bounded(s, log[i].conn, log[i].serial))
    && (forall conn | conn in s.conns :: ConnTokens(conn, s.conns[conn], log, acks))
  }

  // ---- how a step moves them ------------------------------------------------------------------

  predicate SameTokens(f: Surface, g: Surface) {
    && f.width == g.width && f.height == g.height && f.scale == g.scale && f.state == g.state
    && f.latestToken == g.latestToken && f.ackedToken == g.ackedToken
  }

  /** Every surface but `t` keeps its tokens and size, and serials do not fall. */
  ghost predicate ConnAdvances(conn: ConnId, c: Connection, c': Connection, t: Option<Target>) {
    && c.nextServerSerial <= c'.nextServerSerial
    && forall id | IsSurface(c'.objects, id) && t != Some(Target(conn, id)) ::
         IsSurface(c.objects, id) && SameTokens(c.objects[id].surface, c'.objects[id].surface)
  }

  ghost predicate Within(s: State, s': State, e: Entry)
    requires e.Sent?
  {
    && e.conn in s.conns && s.conns[e.conn].nextServerSerial <= e.serial
    && (e.conn in s'.conns ==> e.serial < s'.conns[e.conn].nextServerSerial)
  }

  ghost predicate Advances(s: State, s': State, es: Log, t: Option<Target>) {
    && s'.nextConn == s.nextConn && Rising(es)
    && (forall i | 0 <= i < |es| && es[i].Sent? :: Within(s, s', es[i]))
    && (forall conn | conn in s'.conns :: conn in s.conns && ConnAdvances(conn, s.conns[conn], s'.conns[conn], t))
  }

  lemma AdvancesThen(s: State, a: Outcome, f: Outcome)
    requires Advances(s, a.state, a.entries, None) && Advances(a.state, f.state, f.entries, None)
    ensures Advances(s, f.state, a.entries + f.entries, None)
  {
    hide SameTokens, IsSurface;
    var es := a.entries + f.entries;
    forall i | 0 <= i < |es| && es[i].Sent?
      ensures Within(s, f.state, es[i])
    {
      assert if i < |a.entries| then es[i] == a.entries[i] else es[i] == f.entries[i - |a.entries|];
    }
    forall conn | conn in f.state.conns
      ensures conn in s.conns && ConnAdvances(conn, s.conns[conn], f.state.conns[conn], None)
    {
      ConnAdvancesThen(conn, s.conns[conn], a.state.conns[conn], f.state.conns[conn]);
    }
  }

  lemma ConnAdvancesThen(conn: ConnId, a: Connection, b: Connection, c: Connection)
    requires ConnAdvances(conn, a, b, None) && ConnAdvances(conn, b, c, None)
    ensures ConnAdvances(conn, a, c, None)
  {
  }

  lemma Still(s: State, s': State)
    requires s'.conns == s.conns && s'.nextConn == s.nextConn
    ensures Advances(s, s', [], None)
  {
  }

  lemma EmitAdvances(s: State, conn: ConnId, e: Emit)
    ensures var o := EmitTo(s, conn, e); Advances(s, o.state, o.entries, None)
  {
  }

  lemma TargetAdvances(s: State, t: Option<Target>, e: Event)
    ensures var o := ToTarget(s, t, e); Advances(s, o.state, o.entries, None)
  {
    hide Advances;
    if t.Some? {
      EmitAdvances(s, t.value.conn, Emit(t.value.surface, e));
    } else {
      Still(s, s);
    }
  }

  lemma PeerGoneAdvances(s: State, conn: ConnId)
    ensures var o := DoPeerGone(s, conn); Advances(s, o.state, o.entries, None)
  {
    hide DropConn;
  }

  lemma {:induction false} TimeoutsAdvance(s: State, n: nat)
    ensures var o := DropTimedOut(s, n); Advances(s, o.state, o.entries, None)
  {
    hide Advances, TimedOut, DoPeerGone;
    if n == 0 {
      Still(s, s);
    } else {
      var a := DropTimedOut(s, n - 1);
      TimeoutsAdvance(s, n - 1);
      if TimedOut(a.state, n - 1) {
        PeerGoneAdvances(a.state, n - 1);
        AdvancesThen(s, a, DoPeerGone(a.state, n - 1));
      }
    }
  }

  /** A batch of events on consecutive serials of one connection. */
  lemma BatchAdvances(s: State, s': State, conn: ConnId, owed: Option<Debt>, emits: seq<Emit>, close: bool,
                      t: Option<Target>)
    requires conn in s.conns && conn in s'.conns && s'.nextConn == s.nextConn
    requires s'.conns == s.conns[conn := s'.conns[conn]]
    requires s'.conns[conn].nextServerSerial == s.conns[conn].nextServerSerial + |emits|
    requires ConnAdvances(conn, s.conns[conn], s'.conns[conn], t)
    ensures Advances(s, s',
      OwedEntry(conn, owed) + Sends(conn, s.conns[conn].nextServerSerial, emits)
      + if close then [Lost(conn)] else [], t)
  {
    hide IsSurface;
    var base, d := s.conns[conn].nextServerSerial, |OwedEntry(conn, owed)|;
    var es := OwedEntry(conn, owed) + Sends(conn, base, emits) + if close then [Lost(conn)] else [];
    forall i | 0 <= i < |es| && es[i].Sent?
      ensures d <= i < d + |emits| && es[i] == Sent(conn, base + (i - d), emits[i - d])
    {
    }
    forall x | x in s'.conns
      ensures x in s.conns && ConnAdvances(x, s.conns[x], s'.conns[x], t)
    {
    }
  }

  lemma CompositeConnAdvances(s: State, conn: ConnId)
    ensures var o := CompositeConn(s, conn); Advances(s, o.state, o.entries, None)
  {
    hide Advances, Presented, FrameDones, Sends;
    var o := CompositeConn(s, conn);
    if conn in s.conns && s.conns[conn].phase == Active {
      var c := s.conns[conn];
      var emits := FrameDones(c.objects, s.now, c.idWatermark + 1);
      PresentedIs(c.objects, c.idWatermark + 1);
      BatchAdvances(s, o.state, conn, None, emits, false, None);
      assert OwedEntry(conn, None) + Sends(conn, c.nextServerSerial, emits) + [] ==
             Sends(conn, c.nextServerSerial, emits);
    } else {
      Still(s, s);
    }
  }

  lemma {:induction false} CompositeAdvances(s: State, n: nat)
    ensures var o := CompositeBelow(s, n); Advances(s, o.state, o.entries, None)
  {
    hide Advances, CompositeConn;
    if n == 0 {
      Still(s, s);
    } else {
      CompositeAdvances(s, n - 1);
      var a := CompositeBelow(s, n - 1);
      CompositeConnAdvances(a.state, n - 1);
      AdvancesThen(s, a, CompositeConn(a.state, n - 1));
    }
  }

  lemma OverflowAdvances(s: State, conn: ConnId)
    requires Alive(s, conn)
    ensures var o := Overflow(s, conn); Advances(s, o.state, o.entries, None)
  {
    hide DropConn;
  }

  lemma Reseated(s: State, a: Outcome, seat: Seat)
    requires Advances(s, a.state, a.entries, None)
    ensures Advances(s, a.state.(seat := seat), a.entries, None)
  {
    hide SameTokens, IsSurface;
  }

  /** LEAVE for the old focus, then ENTER for the new one. */
  lemma FocusAdvances(s: State, was: Option<Target>, leave: Event, seat: Seat, t: Option<Target>, enter: Event)
    ensures var a := ToTarget(s, was, leave);
      var f := ToTarget(a.state.(seat := seat), t, enter);
      Advances(s, f.state, a.entries + f.entries, None)
  {
    hide Advances, ToTarget;
    var a := ToTarget(s, was, leave);
    var mid := Outcome(a.state.(seat := seat), a.entries);
    TargetAdvances(s, was, leave);
    TargetAdvances(mid.state, t, enter);
    Reseated(s, a, seat);
    AdvancesThen(s, mid, ToTarget(mid.state, t, enter));
  }

  // ---- the invariant is kept ------------------------------------------------------------------

  /** A step that changes the tokens of at most surface `t` and grants at most
      acknowledgements of it. */
  lemma Kept(s: State, log: Log, acks: set<Ack>, s': State, es: Log, acks': set<Ack>, t: Option<Target>)
    requires Tokens(s, log, acks) && Advances(s, s', es, t) && acks <= acks'
    requires forall conn | conn in s.conns :: conn < s.nextConn
    requires forall a | a in acks' && a !in acks ::
      t == Some(Target(a.conn, a.surface)) && Bounded(s', a.conn, a.token)
    requires t.Some? && t.value.conn in s'.conns && IsSurface(s'.conns[t.value.conn].objects, t.value.surface) ==>
      && s'.conns[t.value.conn].objects[t.value.surface].surface.latestToken < s'.conns[t.value.conn].nextServerSerial
      && SurfaceTokens(t.value.conn, t.value.surface, s'.conns[t.value.conn].objects[t.value.surface].surface,
                       log + es, acks')
    ensures Tokens(s', log + es, acks')
  {
    hide SurfaceTokens, SameTokens;
    RisingJoin(s, s', log, acks, es, t);
    forall i | 0 <= i < |log + es| && (log + es)[i].Sent?
      ensures Bounded(s', (log + es)[i].conn, (log + es)[i].serial)
    {
      assert if i < |log| then (log + es)[i] == log[i] else (log + es)[i] == es[i - |log|];
    }
    forall conn | conn in s'.conns
      ensures ConnTokens(conn, s'.conns[conn], log + es, acks')
    {
      forall id | IsSurface(s'.conns[conn].objects, id)
        ensures s'.conns[conn].objects[id].surface.latestToken < s'.conns[conn].nextServerSerial
        ensures SurfaceTokens(conn, id, s'.conns[conn].objects[id].surface, log + es, acks')
      {
        if t != Some(Target(conn, id)) {
          assert ConnTokens(conn, s.conns[conn], log, acks);
          SurfaceKept(conn, id, s.conns[conn].objects[id].surface, s'.conns[conn].objects[id].surface, log, es,
                      acks, acks');
        }
      }
    }
  }

  lemma RisingJoin(s: State, s': State, log: Log, acks: set<Ack>, es: Log, t: Option<Target>)
    requires Tokens(s, log, acks) && Advances(s, s', es, t)
    ensures Rising(log + es)
  {
    hide ConnTokens, ConnAdvances;
    forall i, j | 0 <= i < j < |log + es| && (log + es)[i].Sent? && (log + es)[j].Sent?
                  && (log + es)[i].conn == (log + es)[j].conn
      ensures (log + es)[i].serial < (log + es)[j].serial
    {
      assert if i < |log| then (log + es)[i] == log[i] else (log + es)[i] == es[i - |log|];
      assert if j < |log| then (log + es)[j] == log[j] else (log + es)[j] == es[j - |log|];
    }
  }

  lemma SurfaceKept(conn: ConnId, id: ObjectId, f: Surface, f': Surface, log: Log, es: Log, acks: set<Ack>,
                    acks': set<Ack>)
    requires SurfaceTokens(conn, id, f, log, acks) && SameTokens(f, f') && acks <= acks'
    requires forall a | a in acks' && a !in acks :: Target(a.conn, a.surface) != Target(conn, id)
    ensures f'.latestToken == f.latestToken && SurfaceTokens(conn, id, f', log + es, acks')
  {
  }

  lemma ConnectTokens(s: State, log: Log, acks: set<Ack>)
    requires Tokens(s, log, acks)
    ensures var o := DoConnect(s); Tokens(o.state, log + o.entries, acks)
  {
    hide SurfaceTokens;
    assert log + [] == log;
  }

  lemma ReconfigureTokens(s: State, log: Log, acks: set<Ack>, conn: ConnId, id: ObjectId, width: nat, height: nat,
                          scale: nat, state: nat)
    requires Tokens(s, log, acks) && forall conn | conn in s.conns :: conn < s.nextConn
    ensures var o := DoReconfigure(s, conn, id, width, height, scale, state); Tokens(o.state, log + o.entries, acks)
  {
    var o := DoReconfigure(s, conn, id, width, height, scale, state);
    if o.entries == [] {
      assert o.state == s && log + [] == log;
    } else {
      var c, c' := s.conns[conn], o.state.conns[conn];
      var f := c'.objects[id].surface;
      ReconfigureSurface(s, log, acks, conn, id, f);
      assert o.entries == [Announcement(conn, id, f)];
      assert Announcement(conn, id, f) in log + o.entries;
      BatchAdvances(s, o.state, conn, None, [o.entries[0].emit], false, Some(Target(conn, id)));
      assert OwedEntry(conn, None) + Sends(conn, c.nextServerSerial, [o.entries[0].emit]) + [] == o.entries;
      hide Tokens, Advances, SurfaceTokens;
      Kept(s, log, acks, o.state, o.entries, acks, Some(Target(conn, id)));
    }
  }

  lemma ReconfigureSurface(s: State, log: Log, acks: set<Ack>, conn: ConnId, id: ObjectId, f: Surface)
    requires Tokens(s, log, acks) && conn in s.conns && IsSurface(s.conns[conn].objects, id)
    requires f.latestToken == s.conns[conn].nextServerSerial
    requires f.ackedToken == s.conns[conn].objects[id].surface.ackedToken
    ensures f.ackedToken < f.latestToken && Ack(conn, id, f.latestToken) !in acks
  {
    assert ConnTokens(conn, s.conns[conn], log, acks);
  }

  /** Only CREATE_SURFACE and a granted ACK_CONFIGURE touch tokens or sizes. */
  lemma DispatchSame(k: Call, req: Request, cap: Option<nat>, id: ObjectId)
    requires !req.CreateSurface? && (req.AckConfigure? ==> !Accepted(Dispatch(k, req, cap))) && CountsOk(k.conn)
    ensures var o := Dispatch(k, req, cap).conn.objects;
      IsSurface(o, id) ==>
        IsSurface(k.conn.objects, id) && SameTokens(k.conn.objects[id].surface, o[id].surface)
  {
    hide RectOk, AppIdOk, DropSurface, Leaves, Total;
  }

  /** The surface whose tokens a request changes. */
  function Touched(k: Call, req: Request, cap: Option<nat>): Option<Target> {
    if (req.CreateSurface? || req.AckConfigure?) && Accepted(Dispatch(k, req, cap)) then Some(Target(k.connId, k.id))
    else None
  }

  lemma DispatchAdvances(k: Call, req: Request, cap: Option<nat>, c': Connection)
    requires CountsOk(k.conn)
    requires c'.objects == Dispatch(k, req, cap).conn.objects && c'.nextServerSerial >= k.conn.nextServerSerial
    ensures ConnAdvances(k.connId, k.conn, c', Touched(k, req, cap))
  {
    hide Dispatch, SameTokens, CountsOk, Accepted;
    forall id | IsSurface(c'.objects, id) && Touched(k, req, cap) != Some(Target(k.connId, id))
      ensures IsSurface(k.conn.objects, id) && SameTokens(k.conn.objects[id].surface, c'.objects[id].surface)
    {
      if Touched(k, req, cap).None? && !req.CreateSurface? {
        DispatchSame(k, req, cap, id);
      } else {
        OthersSame(k, req, cap, id);
      }
    }
  }

  lemma OthersSame(k: Call, req: Request, cap: Option<nat>, id: ObjectId)
    requires req.CreateSurface? || req.AckConfigure?
    requires id != k.id || !Accepted(Dispatch(k, req, cap))
    ensures var o := Dispatch(k, req, cap).conn.objects;
      IsSurface(o, id) ==>
        IsSurface(k.conn.objects, id) && SameTokens(k.conn.objects[id].surface, o[id].surface)
  {
  }

  /** What an accepted request leaves of the surface it touches. */
  lemma TouchedIs(k: Call, req: Request, cap: Option<nat>)
    requires Touched(k, req, cap).Some?
    ensures var r := Dispatch(k, req, cap); var n := k.conn.nextServerSerial;
      && IsSurface(r.conn.objects, k.id) && Opened(k, req, r).None? && !r.close
      && var f := r.conn.objects[k.id].surface;
         match req
         case CreateSurface(_, _, _, _) =>
           && f.ackedToken == 0 && f.latestToken == n + 1 && |r.emits| == 2
           && r.emits[1] == Emit(k.id, Configure(f.width, f.height, f.scale, f.state))
         case AckConfigure(token) =>
           && r.emits == [Emit(k.id, Result(k.serial))] && f.ackedToken == f.latestToken == token
           && IsSurface(k.conn.objects, k.id) && SameTokens(k.conn.objects[k.id].surface.(ackedToken := token), f)
         case _ => true
  {
  }

  /** The acknowledgement a request is, if it is granted. */
  function Granted(k: Call, req: Request, cap: Option<nat>): set<Ack> {
    if req.AckConfigure? && Accepted(Dispatch(k, req, cap)) then {Ack(k.connId, k.id, req.configure)} else {}
  }

  lemma AckedIs(s: State, conn: ConnId, p: Packet, cap: Option<nat>)
    requires Alive(s, conn)
    ensures AckedBy(s, Deliver(conn, p, cap)) ==
      match Stage(s.conns[conn], s.nextClient, s.seat, conn, s.now, p, cap)
      case Rejected(_) => {}
      case Passed(k, req) => Granted(k, req, cap)
  {
    hide DropConn, DoHello, DoDisconnect, DoCreateSurface, DoDestroySurface, DoSetTitle, DoSetAppId, DoImport,
         DoDestroyBuffer, DoAttach, DoCommit;
    var o := DoDeliver(s, conn, p, cap);
    if p.Framed? && p.payload.Decoded? && p.payload.request.AckConfigure? {
      assert |o.entries| > 0 && o.entries[0].Sent?;
    }
  }

  lemma SerialCounts(c: Connection, serial: nat)
    requires CountsOk(c)
    ensures CountsOk(c.(lastClientSerial := serial))
  {
  }

  lemma RejectedTokens(s: State, log: Log, acks: set<Ack>, conn: ConnId, r: Reply, o: Outcome)
    requires Tokens(s, log, acks) && Alive(s, conn) && forall conn | conn in s.conns :: conn < s.nextConn
    requires r.conn.objects == s.conns[conn].objects && r.conn.nextServerSerial == s.conns[conn].nextServerSerial
    requires Packeted(s, conn, r, None, o)
    ensures Tokens(o.state, log + o.entries, acks)
  {
    hide Tokens, Advances, Sends;
    BatchAdvances(s, o.state, conn, None, r.emits, r.close, None);
    Kept(s, log, acks, o.state, o.entries, acks, None);
  }

  /** What `conn` and the history are once a reply is out. */
  ghost predicate Packeted(s: State, conn: ConnId, r: Reply, owed: Option<Debt>, o: Outcome)
    requires conn in s.conns
  {
    && conn in o.state.conns && o.state.nextConn == s.nextConn
    && o.state.conns == s.conns[conn := o.state.conns[conn]]
    && o.state.conns[conn].objects == r.conn.objects
    && o.state.conns[conn].nextServerSerial == r.conn.nextServerSerial + |r.emits|
    && o.entries == OwedEntry(conn, owed) + Sends(conn, s.conns[conn].nextServerSerial, r.emits)
                    + if r.close then [Lost(conn)] else []
  }

  lemma PassedTokens(s: State, log: Log, acks: set<Ack>, k: Call, req: Request, cap: Option<nat>, o: Outcome)
    requires Tokens(s, log, acks) && Alive(s, k.connId) && forall conn | conn in s.conns :: conn < s.nextConn
    requires k.conn.objects == s.conns[k.connId].objects && CountsOk(k.conn)
    requires k.conn.nextServerSerial == s.conns[k.connId].nextServerSerial
    requires var r := Dispatch(k, req, cap); Packeted(s, k.connId, r, Opened(k, req, r), o)
    ensures Tokens(o.state, log + o.entries, acks + Granted(k, req, cap))
  {
    hide Tokens, Advances, Dispatch, CountsOk, Sends, Opened, Accepted, SurfaceTokens, SameTokens;
    var r := Dispatch(k, req, cap);
    var t := Touched(k, req, cap);
    ReplyPhase(k, req, cap);
    DispatchAdvances(k, req, cap, o.state.conns[k.connId]);
    BatchAdvances(s, o.state, k.connId, Opened(k, req, r), r.emits, r.close, t);
    if t.Some? {
      TouchedTokens(s, log, acks, k, req, cap, o);
    }
    Kept(s, log, acks, o.state, o.entries, acks + Granted(k, req, cap), t);
  }

  lemma TouchedTokens(s: State, log: Log, acks: set<Ack>, k: Call, req: Request, cap: Option<nat>, o: Outcome)
    requires Tokens(s, log, acks) && Alive(s, k.connId) && Touched(k, req, cap).Some?
    requires k.connId < s.nextConn
    requires k.conn.objects == s.conns[k.connId].objects
    requires k.conn.nextServerSerial == s.conns[k.connId].nextServerSerial
    requires var r := Dispatch(k, req, cap); Packeted(s, k.connId, r, Opened(k, req, r), o)
    requires Dispatch(k, req, cap).conn.nextServerSerial == k.conn.nextServerSerial
    ensures var c := o.state.conns[k.connId];
      && IsSurface(c.objects, k.id) && c.objects[k.id].surface.latestToken < c.nextServerSerial
      && SurfaceTokens(k.connId, k.id, c.objects[k.id].surface, log + o.entries, acks + Granted(k, req, cap))
      && forall a | a in Granted(k, req, cap) :: Bounded(o.state, a.conn, a.token)
  {
    hide Dispatch, Opened, Accepted;
    TouchedIs(k, req, cap);
    assert ConnTokens(k.connId, s.conns[k.connId], log, acks);
    var f := o.state.conns[k.connId].objects[k.id].surface;
    if req.CreateSurface? {
      assert o.entries[1] == Announcement(k.connId, k.id, f);
    } else {
      assert Announcement(k.connId, k.id, f) in log;
    }
    assert Announcement(k.connId, k.id, f) in log + o.entries;
  }

  lemma DeliverTokens(s: State, log: Log, acks: set<Ack>, conn: ConnId, p: Packet, cap: Option<nat>)
    requires Tokens(s, log, acks) && PacketOk(p)
    requires forall conn | conn in s.conns :: conn < s.nextConn && CountsOk(s.conns[conn])
    ensures var o := DoDeliver(s, conn, p, cap);
      Tokens(o.state, log + o.entries, acks + AckedBy(s, Deliver(conn, p, cap)))
  {
    hide Tokens, Advances, Dispatch, CountsOk, Sends, Opened, DropConn, Accepted;
    var o := DoDeliver(s, conn, p, cap);
    if !Alive(s, conn) {
      assert log + [] == log;
      assert acks + {} == acks;
    } else {
      var st := Stage(s.conns[conn], s.nextClient, s.seat, conn, s.now, p, cap);
      match st {
        case Rejected(r) =>
          RejectedTokens(s, log, acks, conn, r, o);
          assert acks + {} == acks;
        case Passed(k, req) =>
          SerialCounts(s.conns[conn], k.serial);
          ReplyPhase(k, req, cap);
          PassedTokens(s, log, acks, k, req, cap, o);
      }
      AckedIs(s, conn, p, cap);
    }
  }

  // ---- every step, every run ---------------------------------------------------------------------

  lemma PointerFocusAdvances(s: State, want: Option<Target>, x: int, y: int)
    ensures var o := DoPointerFocus(s, want, x, y); Advances(s, o.state, o.entries, None)
  {
    hide Advances, ToTarget;
    var t := Focusable(s, want);
    Still(s, s);
    FocusAdvances(s, s.seat.pointerFocus, PointerLeave, s.seat.(pointerFocus := t, buttons := []), t,
                  PointerEnter(x, y));
  }

  lemma KeyboardFocusAdvances(s: State, want: Option<Target>, modifiers: nat)
    ensures var o := DoKeyboardFocus(s, want, modifiers); Advances(s, o.state, o.entries, None)
  {
    hide Advances, ToTarget;
    var t := Focusable(s, want);
    Still(s, s);
    FocusAdvances(s, s.seat.keyboardFocus, KeyLeave,
                  s.seat.(keyboardFocus := t, heldKeys := [], modifiers := modifiers), t, KeyEnter(modifiers));
  }

  /** An event sent after the seat has changed. */
  lemma SeatThenEvent(s: State, seat: Seat, t: Option<Target>, e: Event)
    ensures var o := ToTarget(s.(seat := seat), t, e); Advances(s, o.state, o.entries, None)
  {
    hide Advances, ToTarget;
    var mid := s.(seat := seat);
    var o := ToTarget(mid, t, e);
    Still(s, mid);
    TargetAdvances(mid, t, e);
    AdvancesThen(s, Outcome(mid, []), o);
    assert [] + o.entries == o.entries;
  }

  lemma ButtonAdvances(s: State, button: nat, pressed: bool)
    ensures var o := DoButton(s, button, pressed); Advances(s, o.state, o.entries, None)
  {
    hide Advances, ToTarget, Without;
    var t := PointerTarget(s.seat);
    if t.None? {
      Still(s, s);
    } else {
      SeatThenEvent(s, s.seat.(buttons := if !pressed then Without(s.seat.buttons, button)
                                          else if button in s.seat.buttons then s.seat.buttons
                                          else s.seat.buttons + [button],
                               grab := if pressed then t
                                       else if Without(s.seat.buttons, button) == [] then None
                                       else s.seat.grab),
                    t, PointerButton(s.now, button, pressed));
    }
  }

  lemma KeyAdvances(s: State, usage: nat, pressed: bool, modifiers: nat, repeat: bool)
    requires s.seat.keyboardFocus.Some? ==> Alive(s, s.seat.keyboardFocus.value.conn)
    ensures var o := DoKey(s, usage, pressed, modifiers, repeat); Advances(s, o.state, o.entries, None)
  {
    hide Advances, ToTarget, Without, Overflow;
    var mid := s.(seat := s.seat.(modifiers := modifiers));
    Still(s, mid);
    if mid.seat.keyboardFocus.Some? {
      var held := usage in mid.seat.heldKeys;
      var o := Overflow(mid, mid.seat.keyboardFocus.value.conn);
      OverflowAdvances(mid, mid.seat.keyboardFocus.value.conn);
      AdvancesThen(s, Outcome(mid, []), o);
      assert [] + o.entries == o.entries;
      var keys :=
        if !pressed then Without(mid.seat.heldKeys, usage)
        else if held then mid.seat.heldKeys
        else mid.seat.heldKeys + [usage];
      SeatThenEvent(s, mid.seat.(heldKeys := keys), mid.seat.keyboardFocus,
                    Key(s.now, usage, pressed, modifiers, pressed && repeat));
      assert s.(seat := mid.seat.(heldKeys := keys)) == mid.(seat := mid.seat.(heldKeys := keys));
    }
  }

  lemma TickAdvances(s: State, now: nat)
    ensures var o := DoTick(s, now); Advances(s, o.state, o.entries, None)
  {
    hide Advances, DropTimedOut;
    var mid := if now > s.now then s.(now := now) else s;
    var o := DropTimedOut(mid, mid.nextConn);
    Still(s, mid);
    TimeoutsAdvance(mid, mid.nextConn);
    AdvancesThen(s, Outcome(mid, []), o);
    assert [] + o.entries == o.entries;
  }

  predicate Special(input: Input) { input.Connect? || input.Deliver? || input.Reconfigure? }

  lemma StepAdvances(s: State, input: Input)
    requires !Special(input) && (s.seat.keyboardFocus.Some? ==> Alive(s, s.seat.keyboardFocus.value.conn))
    ensures var o := Step(s, input); Advances(s, o.state, o.entries, None)
  {
    hide Advances, DoPeerGone, DoTick, CompositeBelow, DoPointerFocus, ToTarget, DoButton, DoKeyboardFocus, DoKey;
    match input {
      case PeerGone(conn) => PeerGoneAdvances(s, conn);
      case Tick(now) => TickAdvances(s, now);
      case Composite => CompositeAdvances(s, s.nextConn);
      case SetPointerFocus(target, x, y) => PointerFocusAdvances(s, target, x, y);
      case Motion(x, y) => TargetAdvances(s, PointerTarget(s.seat), PointerMotion(s.now, x, y));
      case Button(button, pressed) => ButtonAdvances(s, button, pressed);
      case Axis(dx, dy) => TargetAdvances(s, PointerTarget(s.seat), PointerAxis(s.now, dx, dy));
      case SetKeyboardFocus(target, modifiers) => KeyboardFocusAdvances(s, target, modifiers);
      case KeyInput(usage, pressed, modifiers, repeat) => KeyAdvances(s, usage, pressed, modifiers, repeat);
      case Text(text) =>
        Still(s, s);
        TargetAdvances(s, s.seat.keyboardFocus, TextInput(s.now, text));
    }
  }

  lemma InvBasics(s: State, owners: Owners, log: Log)
    requires Inv(s, owners, log)
    ensures forall conn | conn in s.conns :: conn < s.nextConn && CountsOk(s.conns[conn])
    ensures s.seat.keyboardFocus.Some? ==> Alive(s, s.seat.keyboardFocus.value.conn)
  {
    hide CountsOk, OwnOk, LogOk;
  }

  /** Every input keeps serials rising and tokens and acknowledgements in step. */
  lemma StepTokens(s: State, owners: Owners, log: Log, acks: set<Ack>, input: Input)
    requires Inv(s, owners, log) && Tokens(s, log, acks) && InputOk(input)
    ensures var o := Step(s, input); Tokens(o.state, log + o.entries, acks + AckedBy(s, input))
  {
    hide Inv, Tokens, DoConnect, DoPeerGone, DoTick, DoDeliver, CompositeBelow, DoReconfigure, DoPointerFocus,
         ToTarget, DoButton, DoKeyboardFocus, DoKey, DoText, CountsOk, Advances, Alive;
    InvBasics(s, owners, log);
    if !input.Deliver? {
      assert acks + {} == acks;
    }
    match input {
      case Connect => ConnectTokens(s, log, acks);
      case Deliver(conn, packet, cap) => DeliverTokens(s, log, acks, conn, packet, cap);
      case Reconfigure(conn, surface, width, height, scale, state) =>
        ReconfigureTokens(s, log, acks, conn, surface, width, height, scale, state);
      case _ =>
        StepAdvances(s, input);
        Kept(s, log, acks, Step(s, input).state, Step(s, input).entries, acks, None);
    }
  }

  lemma AcksAfter(s: State, owners: Owners, log: Log, acks: set<Ack>, input: Input) returns (acks': set<Ack>)
    requires Inv(s, owners, log) && Tokens(s, log, acks) && InputOk(input)
    ensures acks' == acks + AckedBy(s, input)
    ensures var o := Step(s, input); Tokens(o.state, log + o.entries, acks')
  {
    hide Inv, Tokens, Step, AckedBy;
    StepTokens(s, owners, log, acks, input);
    acks' := acks + AckedBy(s, input);
  }

  lemma {:induction false} RunTokens(inputs: seq<Input>) returns (owners: Owners)
    requires Legal(inputs)
    ensures Inv(Run(inputs).state, owners, Run(inputs).entries)
    ensures Tokens(Run(inputs).state, Run(inputs).entries, Acks(inputs))
    decreases |inputs|
  {
    hide Step, Inv, Tokens, AckedBy;
    if inputs == [] {
      owners := RunKeeps(inputs);
      StartTokens();
    } else {
      var n := |inputs| - 1;
      owners := RunTokens(inputs[..n]);
      var a := Run(inputs[..n]);
      StepTokens(a.state, owners, a.entries, Acks(inputs[..n]), inputs[n]);
      owners := StepKeeps(a.state, owners, a.entries, inputs[n]);
    }
  }

  lemma StartTokens()
    ensures Tokens(INIT, [], {})
  {
  }

  /** Over every run the serials sent on a connection only grow. */
  lemma EveryRunSerials(inputs: seq<Input>)
    requires Legal(inputs)
    ensures Rising(Run(inputs).entries)
  {
    hide Run, Inv, Acks, Rising;
    var owners := RunTokens(inputs);
  }

  // ---- the last CONFIGURE --------------------------------------------------------------------------

  /** The last CONFIGURE sent for a surface. */
  function LastAnnounced(log: Log, conn: ConnId, id: ObjectId): Option<Event> {
    if log == [] then None
    else
      var e := log[|log| - 1];
      if e.Sent? && e.conn == conn && Configures(e.emit, id) then Some(e.emit.event)
      else LastAnnounced(log[..|log| - 1], conn, id)
  }

  lemma {:induction false} LastAnnouncedIs(log: Log, conn: ConnId, id: ObjectId, e: Entry)
    requires Rising(log) && e in log && e.Sent? && e.conn == conn && Configures(e.emit, id)
    requires e.serial == LastConfigure(log, conn, id)
    ensures LastAnnounced(log, conn, id) == Some(e.emit.event)
  {
    var n := |log| - 1;
    var last := log[n];
    var i :| 0 <= i <= n && log[i] == e;
    if last.Sent? && last.conn == conn && Configures(last.emit, id) {
      assert i == n;
    } else {
      assert log[..n][i] == e;
      LastAnnouncedIs(log[..n], conn, id, e);
    }
  }

  /** In step with the history, a surface has the token, the size and the scale
      of the last CONFIGURE sent for it, and that token counts as acknowledged
      exactly when an ACK_CONFIGURE of it was granted. */
  ghost predicate InStep(conn: ConnId, id: ObjectId, f: Surface, log: Log, acks: set<Ack>) {
    && LastConfigure(log, conn, id) == f.latestToken
    && LastAnnounced(log, conn, id) == Some(Configure(f.width, f.height, f.scale, f.state))
    && (f.ackedToken == f.latestToken <==> Ack(conn, id, LastConfigure(log, conn, id)) in acks)
  }

  lemma TokensInStep(s: State, owners: Owners, log: Log, acks: set<Ack>, conn: ConnId, id: ObjectId)
    requires Inv(s, owners, log) && Tokens(s, log, acks) && conn in s.conns && IsSurface(s.conns[conn].objects, id)
    ensures InStep(conn, id, s.conns[conn].objects[id].surface, log, acks)
  {
    hide Inv, LastConfigure, LastAnnounced, Rising;
    InvTokens(s, owners, log, conn, id);
    assert ConnTokens(conn, s.conns[conn], log, acks);
    LastAnnouncedIs(log, conn, id, Announcement(conn, id, s.conns[conn].objects[id].surface));
  }

  /** So it is for every surface of every reachable state. */
  lemma EveryRunInStep(inputs: seq<Input>, conn: ConnId, id: ObjectId)
    requires Legal(inputs) && conn in Run(inputs).state.conns
    requires IsSurface(Run(inputs).state.conns[conn].objects, id)
    ensures InStep(conn, id, Run(inputs).state.conns[conn].objects[id].surface, Run(inputs).entries, Acks(inputs))
  {
    hide Run, Inv, Tokens, InStep, Acks;
    var owners := RunTokens(inputs);
    TokensInStep(Run(inputs).state, owners, Run(inputs).entries, Acks(inputs), conn, id);
  }
}
