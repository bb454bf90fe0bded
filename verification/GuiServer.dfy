/** The server as the object it is: maps, counters and the seat updated in place,
    events appended to the packets each call returns. Every method takes exactly
    one step of the state machine. */
module GuiServer {
  import opened Bytes
  import opened GuiModel
  import opened GuiDebt
  import opened GuiRun
  import opened GuiOwn
  import opened GuiReply
  import opened GuiTrace
  import opened GuiSeat
  import opened GuiSafe
  import opened GuiRuns
  import opened GuiTokens
  import GuiAnswers

  /** The entries of a history that go out on the wire. */
  function Packets(es: seq<Entry>): seq<Entry> {
    if es == [] then [] else Packets(es[..|es| - 1]) + if es[|es| - 1].Sent? then [es[|es| - 1]] else []
  }

  lemma {:induction false} PacketsConcat(a: seq<Entry>, b: seq<Entry>)
    ensures Packets(a + b) == Packets(a) + Packets(b)
  {
    if b == [] {
      assert a + b == a;
    } else {
      PacketsConcat(a, b[..|b| - 1]);
      assert (a + b)[..|a + b| - 1] == a + b[..|b| - 1];
    }
  }

  lemma PacketsOne(e: Entry)
    ensures Packets([]) == []
    ensures Packets([e]) == if e.Sent? then [e] else []
  {
    assert [e][..0] == [];
  }

  /** What goes out is one event for a target, or nothing. */
  predicate Delivered(t: Option<Target>, e: Event, out: seq<Entry>) {
    match t
    case None => out == []
    case Some(t) => |out| == 1 && out[0].Sent? && out[0].conn == t.conn && out[0].emit == Emit(t.surface, e)
  }

  /** A change of focus: LEAVE for the old target, then ENTER for the new one. */
  predicate Handover(was: Option<Target>, leave: Event, now: Option<Target>, enter: Event, out: seq<Entry>) {
    exists k | 0 <= k <= |out| :: Delivered(was, leave, out[..k]) && Delivered(now, enter, out[k..])
  }

  /** Events for one connection, numbered from its next serial on. */
  predicate Consecutive(conn: ConnId, base: nat, out: seq<Entry>) {
    forall k | 0 <= k < |out| :: out[k].Sent? && out[k].conn == conn && out[k].serial == base + k
  }

  /** The answer starts with an error that does not close the connection. */
  predicate Refused(out: seq<Entry>) {
    out != [] && out[0].Sent? && out[0].emit.event.Error? && !out[0].emit.event.fatal
  }

  /** Every pending callback of a connection is done, its objects else as before. */
  predicate FramesDone(c: Connection, c': Connection) {
    && c'.phase == c.phase && c'.objects.Keys == c.objects.Keys
    && forall id | id in c.objects ::
         c'.objects[id] ==
           if c.objects[id].Surf? then Surf(c.objects[id].surface.(framePending := false)) else c.objects[id]
  }

  predicate NeverSeen(id: ConnId, conns: map<ConnId, Connection>, log: Log) {
    id !in conns && forall i | 0 <= i < |log| :: log[i].conn != id
  }

  lemma HandoverBy(was: Option<Target>, leave: Event, now: Option<Target>, enter: Event, left: Log, entered: Log)
    requires Delivered(was, leave, left) && Delivered(now, enter, entered)
    ensures Handover(was, leave, now, enter, left + entered)
  {
    var out := left + entered;
    assert out[..|left|] == left && out[|left|..] == entered;
  }

  class Server {
    var nowNs: nat
    var nextConn: ConnId
    var nextClientId: nat
    var conns: map<ConnId, Connection>
    var seat: Seat

    /** Everything that happened so far. */
    ghost var log: seq<Entry>
    /** Which surface holds each buffer, per connection. */
    ghost var owners: Owners
    /** The acknowledgements granted so far. */
    ghost var acks: set<Ack>

    /** The server invariant over the whole history: ownership and counters on
        every connection, debts, tokens, the seat and its brackets. */
    ghost predicate Valid()
      reads this
    {
      Inv(Value(), owners, log) && Tokens(Value(), log, acks) && |conns| <= MAX_CONNECTIONS
    }

    constructor ()
      ensures Valid() && Value() == INIT && log == [] && acks == {}
    {
      nowNs, nextConn, nextClientId, conns := 0, 1, 1, map[];
      seat := Seat(None, None, None, [], [], 0);
      log, owners, acks := [], map[], {};
      new;
      StartOk();
      StartTokens();
    }

    function Value(): State
      reads this
    {
      State(nowNs, nextConn, nextClientId, conns, seat)
    }

    /** The call behaved as one step of the state machine. */
    twostate predicate Stepped(o: Outcome, out: seq<Entry>)
      reads this
    {
      Value() == o.state && log == old(log) + o.entries && out == Packets(o.entries)
    }

    /** No object of any connection changed, and no connection came or went. */
    twostate predicate SameObjects()
      reads this
    {
      && conns.Keys == old(conns.Keys)
      && forall c | c in conns :: conns[c].objects == old(conns)[c].objects && conns[c].phase == old(conns)[c].phase
    }

    /** What a valid server promises its clients, as over every run. */
    lemma Promises(conn: ConnId, b: ObjectId, d: Debt, id: ObjectId)
      requires Valid() && conn in conns
      ensures OwnershipHolds(conns[conn], b) && PaysHolds(log, conn, conns[conn].objects, d) && SeatHolds(Value(), log)
      ensures Rising(log)
      ensures IsSurface(conns[conn].objects, id) ==> InStep(conn, id, conns[conn].objects[id].surface, log, acks)
    {
      hide Inv, OwnershipHolds, PaysHolds, SeatHolds, InStep, Rising, ConnTokens;
      InvOwnership(Value(), owners, log, conn, b);
      InvPays(Value(), owners, log, conn, d);
      InvSeat(Value(), owners, log);
      if IsSurface(conns[conn].objects, id) {
        TokensInStep(Value(), owners, log, acks, conn, id);
      }
    }

    // ---- sending ------------------------------------------------------------------------

    method Emit(conn: ConnId, e: Emit) returns (out: seq<Entry>)
      modifies this`conns, this`log
      ensures Stepped(EmitTo(old(Value()), conn, e), out) && SameObjects()
    {
      if conn in conns && conns[conn].phase != Closed {
        var c := conns[conn];
        var packet := Sent(conn, c.nextServerSerial, e);
        conns := conns[conn := c.(nextServerSerial := c.nextServerSerial + 1)];
        log := log + [packet];
        PacketsOne(packet);
        return [packet];
      }
      assert log == log + [];
      return [];
    }

    method EmitToTarget(t: Option<Target>, e: Event) returns (out: seq<Entry>)
      modifies this`conns, this`log
      ensures Stepped(ToTarget(old(Value()), t, e), out) && SameObjects()
      ensures (t.Some? ==> Alive(old(Value()), t.value.conn)) ==> Delivered(t, e, out)
    {
      if t.Some? {
        out := Emit(t.value.conn, GuiModel.Emit(t.value.surface, e));
        if Alive(old(Value()), t.value.conn) {
          EmitAlive(old(Value()), t.value.conn, GuiModel.Emit(t.value.surface, e));
        }
      } else {
        assert log == log + [];
        return [];
      }
    }

    // ---- connections -----------------------------------------------------------------------

    /** A new connection under a number never used before, unless the table is
        full. */
    method Connect() returns (id: Option<ConnId>)
      requires Valid()
      modifies this
      ensures Valid() && Stepped(Step(old(Value()), Input.Connect), [])
      ensures id.None? <==> old(|conns|) == MAX_CONNECTIONS
      ensures id.None? ==> conns == old(conns)
      ensures id.Some? ==>
        && NeverSeen(id.value, old(conns), old(log))
        && id.value in conns && conns[id.value].phase == New && conns - {id.value} == old(conns)
    {
      hide Inv, Tokens, AckedBy, Packets;
      PacketsOne(Lost(0));
      assert log == log + [];
      FreshId(Value(), owners, log);
      acks := AcksAfter(Value(), owners, log, acks, Input.Connect);
      owners := StepKeeps(Value(), owners, log, Input.Connect);
      if |conns| >= MAX_CONNECTIONS {
        return None;
      }
      id := Some(nextConn);
      conns := conns[nextConn := NewConnection(nowNs)];
      nextConn := nextConn + 1;
    }

    /** Removes a connection and whatever the seat has of it. */
    method Forget(conn: ConnId)
      modifies this`conns, this`seat, this`log
      ensures Stepped(DoPeerGone(old(Value()), conn), []) && conns == old(conns) - {conn}
    {
      if conn in conns {
        log := log + [Lost(conn)];
        PacketsOne(Lost(conn));
      } else {
        assert log == log + [];
      }
      conns := conns - {conn};
      seat := DropConn(seat, conn);
    }

    /** The peer is gone: so is its connection, every other one is untouched,
        and no focus or grab is left on it. */
    method DisconnectPeer(conn: ConnId)
      requires Valid()
      modifies this
      ensures Valid() && Stepped(Step(old(Value()), PeerGone(conn)), [])
      ensures conns == old(conns) - {conn}
      ensures forall t | seat.pointerFocus == Some(t) || seat.keyboardFocus == Some(t) || seat.grab == Some(t) ::
        t.conn != conn
    {
      hide Inv, Tokens, AckedBy, Packets, DropConn;
      Forget(conn);
      acks := AcksAfter(old(Value()), old(owners), old(log), old(acks), PeerGone(conn));
      owners := StepKeeps(old(Value()), old(owners), old(log), PeerGone(conn));
      Fewer(conns.Keys, old(conns.Keys));
      FocusLive(Value(), owners, log);
    }

    /** Drops every connection still without a HELLO past the time limit. */
    method DropStale() returns (closed: seq<ConnId>)
      modifies this`conns, this`seat, this`log
      ensures Stepped(DropTimedOut(old(Value()), nextConn), [])
      ensures forall c: ConnId :: c in closed <==> c < nextConn && TimedOut(old(Value()), c)
      ensures forall c: ConnId :: c in conns <==> c in old(conns) && c !in closed
      ensures forall c | c in conns :: conns[c] == old(conns)[c]
    {
      hide Packets, DropConn;
      PacketsOne(Lost(0));
      ghost var start, before := Value(), log;
      closed := [];
      assert log == log + [];
      for id := 0 to nextConn
        invariant Value() == DropTimedOut(start, id).state
        invariant log == before + DropTimedOut(start, id).entries && Packets(DropTimedOut(start, id).entries) == []
        invariant forall c: ConnId :: c in closed <==> c < id && TimedOut(start, c)
        invariant forall c: ConnId :: c in conns <==> c in start.conns && c !in closed
        invariant forall c | c in conns :: conns[c] == start.conns[c]
      {
        if id in conns && conns[id].phase == New && nowNs >= conns[id].created + HELLO_TIMEOUT_NS {
          closed := closed + [id];
          PacketsConcat(DropTimedOut(start, id).entries, [Lost(id)]);
          PacketsOne(Lost(id));
          assert (before + DropTimedOut(start, id).entries) + [Lost(id)] ==
                 before + (DropTimedOut(start, id).entries + [Lost(id)]);
          Forget(id);
        }
      }
    }

    /** Advances the clock and drops exactly the connections that have not said
        HELLO within the time limit. */
    method Tick(now: nat) returns (closed: seq<ConnId>)
      requires Valid()
      modifies this
      ensures Valid() && Stepped(Step(old(Value()), Input.Tick(now)), [])
      ensures nowNs == if now > old(nowNs) then now else old(nowNs)
      ensures forall c: ConnId :: c in closed <==>
        c in old(conns) && old(conns)[c].phase == New && nowNs >= old(conns)[c].created + HELLO_TIMEOUT_NS
      ensures forall c: ConnId :: c in conns <==> c in old(conns) && c !in closed
      ensures forall c | c in conns :: conns[c] == old(conns)[c]
    {
      hide Inv, Tokens, AckedBy, Packets, DropTimedOut;
      BelowNext(Value(), owners, log);
      nowNs := if now > nowNs then now else nowNs;
      closed := DropStale();
      acks := AcksAfter(old(Value()), old(owners), old(log), old(acks), Input.Tick(now));
      owners := StepKeeps(old(Value()), old(owners), old(log), Input.Tick(now));
      Fewer(conns.Keys, old(conns.Keys));
    }

    /** The checks a packet passes before it reaches its request, in order. */
    method Screen(conn: ConnId, packet: Packet, cap: Option<nat>) returns (staged: Staged)
      requires conn in conns
      ensures staged == Stage(conns[conn], nextClientId, seat, conn, nowNs, packet, cap)
    {
      var c := conns[conn];
      if packet.Unreadable? {
        return Rejected(Refuse(Call(c, nextClientId, seat, conn, nowNs, 0, 0), Malformed, true));
      }
      var k := Call(c, nextClientId, seat, conn, nowNs, packet.id, packet.serial);
      var wantsBuffer := packet.opcode.RequestOp? && packet.opcode.takesBuffer;
      if wantsBuffer != cap.Some? {
        return Rejected(Refuse(k, Malformed, true));
      }
      if packet.major != VERSION_MAJOR {
        return Rejected(Refuse(k, VersionMismatch, true));
      }
      if packet.serial == 0 || packet.serial <= c.lastClientSerial {
        return Rejected(Refuse(k, BadSerial, true));
      }
      k := k.(conn := c.(lastClientSerial := packet.serial));
      if packet.opcode.PolicyOp? {
        return Rejected(Refuse(k, AccessDenied, false));
      }
      if !packet.opcode.RequestOp? {
        return Rejected(Refuse(k, BadOpcode, true));
      }
      if c.phase == New && !packet.opcode.hello {
        return Rejected(Refuse(k, BadState, true));
      }
      if c.phase == Active && packet.opcode.hello {
        return Rejected(Refuse(k, BadState, false));
      }
      if packet.payload.Undecodable? {
        var malformed := packet.payload.malformed;
        return Rejected(Refuse(k, if malformed then Malformed else BadValue, malformed));
      }
      return Passed(k, packet.payload.request);
    }

    /** Screens and dispatches a packet of a live connection, sends the reply and
        closes the connection if the reply says so. */
    method Answer(conn: ConnId, packet: Packet, cap: Option<nat>) returns (out: seq<Entry>)
      requires Alive(Value(), conn)
      modifies this`conns, this`seat, this`nextClientId, this`log
      ensures Stepped(DoDeliver(old(Value()), conn, packet, cap), out)
      ensures conns.Keys == old(conns.Keys) && forall c | c in conns && c != conn :: conns[c] == old(conns)[c]
      ensures Consecutive(conn, old(conns)[conn].nextServerSerial, out)
      ensures Refused(out) ==> SameObjects() && seat == old(seat)
    {
      hide Stage, Pipeline, Dispatch, DropConn, Opened, Packets;
      var base := conns[conn].nextServerSerial;
      var staged := Screen(conn, packet, cap);
      var reply := Pipeline(staged, cap);
      RefusalInert(conns[conn], nextClientId, seat, conn, nowNs, packet, cap);
      var c := reply.conn;
      out := Sends(conn, base, reply.emits);
      c := c.(nextServerSerial := c.nextServerSerial + |reply.emits|);
      nextClientId, seat := reply.nextClient, reply.seat;
      if reply.close {
        c := c.(phase := Closed);
        seat := DropConn(seat, conn);
      }
      conns := conns[conn := c];
      ghost var owed := if staged.Passed? then Opened(staged.call, staged.request, reply) else None;
      assert Refused(out) ==> reply.emits != [] && out[0].emit == reply.emits[0];
      DeliverPackets(conn, owed, base, reply.emits, reply.close);
      log := log + ((if owed.Some? then [Owed(conn, owed.value)] else []) + out
                    + (if reply.close then [Lost(conn)] else []));
    }

    /** One client packet with its optional attachment. It is granted or refused
        as the sender's objects and the history so far say; the events go to its
        sender on consecutive serials; no other connection changes; a non-fatal
        error answer leaves every object and the seat as they were. */
    method Deliver(conn: ConnId, packet: Packet, cap: Option<nat>) returns (out: seq<Entry>)
      requires Valid() && PacketOk(packet)
      modifies this
      ensures Valid() && Stepped(Step(old(Value()), Input.Deliver(conn, packet, cap)), out)
      ensures GuiAnswers.Handled(old(Value()), old(log), old(acks), conn, packet, cap,
                                 Outcome(Value(), log[|old(log)|..]))
      ensures conns.Keys == old(conns.Keys) && forall c | c in conns && c != conn :: conns[c] == old(conns)[c]
      ensures if Alive(old(Value()), conn) then Consecutive(conn, old(conns)[conn].nextServerSerial, out) else out == []
      ensures Refused(out) ==> SameObjects() && seat == old(seat)
    {
      hide Inv, Tokens, AckedBy, Packets, Consecutive, Refused, GuiAnswers.Handled;
      PacketsOne(Lost(0));
      if conn in conns && conns[conn].phase != Closed {
        out := Answer(conn, packet, cap);
      } else {
        out := [];
        assert log == log + [];
        assert DoDeliver(Value(), conn, packet, cap) == Outcome(Value(), []);
      }
      GuiAnswers.DeliverHandled(old(Value()), old(owners), old(log), old(acks), conn, packet, cap);
      acks := AcksAfter(old(Value()), old(owners), old(log), old(acks), Input.Deliver(conn, packet, cap));
      owners := StepKeeps(old(Value()), old(owners), old(log), Input.Deliver(conn, packet, cap));
      Fewer(conns.Keys, old(conns.Keys));
    }

    // ---- frames and configuration ---------------------------------------------------------

    /** Completes the pending callbacks of one connection, in id order. */
    method CompleteFrames(conn: ConnId) returns (out: seq<Entry>)
      requires conn in conns && conns[conn].phase == Active
      modifies this`conns, this`log
      ensures Stepped(CompositeConn(old(Value()), conn), out) && conns.Keys == old(conns.Keys)
    {
      hide Presented, FrameDones, Sends, Packets, EmitTo;
      var c := conns[conn];
      var base, objects := c.nextServerSerial, c.objects;
      FramesStart(conn, base, objects, nowNs);
      out := [];
      for id := 0 to c.idWatermark + 1
        invariant out == Sends(conn, base, FrameDones(objects, nowNs, id)) && log == old(log) + out
        invariant conns == old(conns)[conn := c.(objects := Presented(objects, id), nextServerSerial := base + |out|)]
      {
        PresentedTurn(objects, nowNs, id);
        var k := conns[conn];
        if IsSurface(k.objects, id) && k.objects[id].surface.framePending {
          var s := k.objects[id].surface;
          var e := GuiModel.Emit(id,
                                 FrameDone(s.frameToken, nowNs, if s.mapped then FRAME_PRESENTED else FRAME_DISCARDED));
          SendsSnoc(conn, base, FrameDones(objects, nowNs, id), e);
          conns := conns[conn := k.(objects := k.objects[id := Surf(s.(framePending := false))])];
          EmitAlive(Value(), conn, e);
          var sent := Emit(conn, e);
          out := out + sent;
        } else {
          assert FrameDones(objects, nowNs, id) + [] == FrameDones(objects, nowNs, id);
        }
      }
      SendsPackets(conn, base, FrameDones(objects, nowNs, c.idWatermark + 1));
    }

    /** Completes the callbacks of every active connection, in id order. */
    method CompleteAll() returns (out: seq<Entry>)
      modifies this`conns, this`log
      ensures Stepped(CompositeBelow(old(Value()), nextConn), out) && conns.Keys == old(conns.Keys)
    {
      hide CompositeConn;
      ghost var start := Value();
      out := [];
      assert log == log + [];
      for conn := 0 to nextConn
        invariant Value() == CompositeBelow(start, conn).state && conns.Keys == old(conns.Keys)
        invariant log == old(log) + CompositeBelow(start, conn).entries
        invariant out == Packets(CompositeBelow(start, conn).entries)
      {
        ghost var a := CompositeBelow(start, conn);
        CompositeNext(a.state, conn);
        if conn in conns && conns[conn].phase == Active {
          var done := CompleteFrames(conn);
          ghost var f := CompositeConn(a.state, conn);
          PacketsConcat(a.entries, f.entries);
          assert (old(log) + a.entries) + f.entries == old(log) + (a.entries + f.entries);
          out := out + done;
        } else {
          assert a.entries + [] == a.entries;
        }
      }
    }

    /** A composition tick: every pending callback of every active connection is
        presented, and nothing else changes. */
    method Composite() returns (out: seq<Entry>)
      requires Valid()
      modifies this
      ensures Valid() && Stepped(Step(old(Value()), Input.Composite), out)
      ensures GuiAnswers.AllPresented(log[|old(log)|..], nowNs)
      ensures seat == old(seat) && conns.Keys == old(conns.Keys)
      ensures forall c | c in conns ::
        if old(conns)[c].phase == Active then FramesDone(old(conns)[c], conns[c]) else conns[c] == old(conns)[c]
    {
      hide Inv, Tokens, AckedBy, CompositeBelow, FramesDone, GuiAnswers.AllPresented;
      out := CompleteAll();
      GuiAnswers.CompositePresents(old(Value()), old(owners), old(log), nextConn);
      forall c | c in conns
        ensures if old(conns)[c].phase == Active then FramesDone(old(conns)[c], conns[c]) else conns[c] == old(conns)[c]
      {
        CompositeDone(old(Value()), old(owners), old(log), nextConn, c);
      }
      acks := AcksAfter(old(Value()), old(owners), old(log), old(acks), Input.Composite);
      owners := StepKeeps(old(Value()), old(owners), old(log), Input.Composite);
      Fewer(conns.Keys, old(conns.Keys));
    }

    /** Records a new size and sends it, with its serial as the new token. */
    method SendConfigure(conn: ConnId, surface: ObjectId, width: nat, height: nat, scale: nat, state: nat)
      returns (out: seq<Entry>)
      requires DimOk(width) && DimOk(height) && scale > 0
      requires conn in conns && conns[conn].phase == Active && IsSurface(conns[conn].objects, surface)
      modifies this`conns, this`log
      ensures Stepped(DoReconfigure(old(Value()), conn, surface, width, height, scale, state), out)
      ensures conns.Keys == old(conns.Keys) && forall c | c in conns && c != conn :: conns[c] == old(conns)[c]
      ensures Delivered(Some(Target(conn, surface)), Configure(width, height, scale, state), out)
      ensures IsSurface(conns[conn].objects, surface)
      ensures conns[conn].objects[surface].surface.latestToken == out[0].serial
    {
      hide Packets;
      var c := conns[conn];
      var s := c.objects[surface].surface.(width := width, height := height, scale := scale, state := state,
                                           latestToken := c.nextServerSerial);
      conns := conns[conn := c.(objects := c.objects[surface := Surf(s)])];
      EmitAlive(Value(), conn, GuiModel.Emit(surface, Configure(width, height, scale, state)));
      out := Emit(conn, GuiModel.Emit(surface, Configure(width, height, scale, state)));
    }

    /** Tells a client its new size. It is refused for a bad size or no such
        surface; otherwise one CONFIGURE goes out and its serial becomes the
        token the surface must answer. */
    method Reconfigure(conn: ConnId, surface: ObjectId, width: nat, height: nat, scale: nat, state: nat)
      returns (out: seq<Entry>)
      requires Valid()
      modifies this
      ensures Valid() && Stepped(Step(old(Value()), Input.Reconfigure(conn, surface, width, height, scale, state)), out)
      ensures conns.Keys == old(conns.Keys) && forall c | c in conns && c != conn :: conns[c] == old(conns)[c]
      ensures out != [] <==>
        && DimOk(width) && DimOk(height) && scale > 0
        && conn in old(conns) && old(conns)[conn].phase == Active && IsSurface(old(conns)[conn].objects, surface)
      ensures out == [] ==> conns == old(conns)
      ensures out != [] ==>
        && Delivered(Some(Target(conn, surface)), Configure(width, height, scale, state), out)
        && IsSurface(conns[conn].objects, surface) && conns[conn].objects[surface].surface.latestToken == out[0].serial
    {
      hide Inv, Tokens, AckedBy, Packets;
      PacketsOne(Lost(0));
      if DimOk(width) && DimOk(height) && scale != 0 && conn in conns && conns[conn].phase == Active
         && IsSurface(conns[conn].objects, surface) {
        out := SendConfigure(conn, surface, width, height, scale, state);
      } else {
        out := [];
        assert log == log + [];
      }
      acks := AcksAfter(old(Value()), old(owners), old(log), old(acks),
                          Input.Reconfigure(conn, surface, width, height, scale, state));
      owners := StepKeeps(old(Value()), old(owners), old(log),
                          Input.Reconfigure(conn, surface, width, height, scale, state));
      Fewer(conns.Keys, old(conns.Keys));
    }

    // ---- input ---------------------------------------------------------------------------------

    /** Hands a focus over: LEAVE to one target, the new seat, ENTER to the other. */
    method HandOver(was: Option<Target>, leave: Event, seat': Seat, now: Option<Target>, enter: Event)
      returns (out: seq<Entry>)
      requires was.Some? ==> Alive(Value(), was.value.conn)
      requires now.Some? ==> Alive(Value(), now.value.conn)
      modifies this`conns, this`seat, this`log
      ensures var a := ToTarget(old(Value()), was, leave);
        Stepped(Then(a, ToTarget(a.state.(seat := seat'), now, enter)), out)
      ensures SameObjects() && seat == seat' && Handover(was, leave, now, enter, out)
    {
      hide ToTarget, Packets, Alive, Delivered, Handover;
      ghost var a := ToTarget(Value(), was, leave);
      var left := EmitToTarget(was, leave);
      seat := seat';
      ghost var f := ToTarget(Value(), now, enter);
      StillAlive(old(Value()), Value(), now);
      var entered := EmitToTarget(now, enter);
      ToTargetSeat(a.state.(seat := seat'), now, enter);
      PacketsConcat(a.entries, f.entries);
      assert (old(log) + a.entries) + f.entries == old(log) + (a.entries + f.entries);
      out := left + entered;
      HandoverBy(was, leave, now, enter, left, entered);
    }

    /** Moves the pointer focus to a mapped surface or to nothing, with LEAVE and
        ENTER, unless a grab pins it. */
    method SetPointerFocus(target: Option<Target>, x: int, y: int) returns (out: seq<Entry>)
      requires Valid()
      modifies this
      ensures Valid() && Stepped(Step(old(Value()), Input.SetPointerFocus(target, x, y)), out) && SameObjects()
      ensures old(seat).grab.Some? ==> seat == old(seat) && out == []
      ensures old(seat).grab.None? ==>
        seat.pointerFocus == if target.Some? && Live(old(Value()), target.value) then target else None
      ensures seat.pointerFocus == old(seat).pointerFocus ==> out == []
      ensures seat.pointerFocus != old(seat).pointerFocus ==>
        Handover(old(seat).pointerFocus, PointerLeave, seat.pointerFocus, PointerEnter(x, y), out)
    {
      hide Inv, Tokens, AckedBy, ToTarget, Focusable, Packets, Alive, Delivered, Handover, Live;
      PacketsOne(Lost(0));
      FocusLive(Value(), owners, log);
      FocusableIs(Value(), target);
      out := [];
      assert log == log + [];
      var t := Focusable(Value(), target);
      if !(seat.grab.Some? || seat.pointerFocus == t) {
        out := HandOver(seat.pointerFocus, PointerLeave, seat.(pointerFocus := t, buttons := []), t,
                        PointerEnter(x, y));
      }
      acks := AcksAfter(old(Value()), old(owners), old(log), old(acks), Input.SetPointerFocus(target, x, y));
      owners := StepKeeps(old(Value()), old(owners), old(log), Input.SetPointerFocus(target, x, y));
      Fewer(conns.Keys, old(conns.Keys));
    }

    /** An event of the pointer: it reaches the focused surface, and only it. */
    method SendToPointer(e: Event) returns (out: seq<Entry>)
      requires Valid()
      modifies this`conns, this`log
      ensures Stepped(ToTarget(old(Value()), PointerTarget(old(seat)), e), out) && SameObjects()
      ensures Delivered(seat.pointerFocus, e, out)
    {
      hide Inv, Tokens, AckedBy, ToTarget, Packets, Alive, Delivered, Live;
      FocusLive(Value(), owners, log);
      out := EmitToTarget(PointerTarget(seat), e);
    }

    /** Motion reaches the pointer focus, whether or not it is grabbed. */
    method PointerMotion(x: int, y: int) returns (out: seq<Entry>)
      requires Valid()
      modifies this
      ensures Valid() && Stepped(Step(old(Value()), Motion(x, y)), out) && SameObjects() && seat == old(seat)
      ensures Delivered(seat.pointerFocus, Event.PointerMotion(nowNs, x, y), out)
    {
      hide Inv, Tokens, AckedBy, ToTarget, Packets, Delivered;
      out := SendToPointer(Event.PointerMotion(nowNs, x, y));
      acks := AcksAfter(old(Value()), old(owners), old(log), old(acks), Motion(x, y));
      owners := StepKeeps(old(Value()), old(owners), old(log), Motion(x, y));
      Fewer(conns.Keys, old(conns.Keys));
    }

    /** So does a scroll. */
    method PointerAxis(dx: int, dy: int) returns (out: seq<Entry>)
      requires Valid()
      modifies this
      ensures Valid() && Stepped(Step(old(Value()), Axis(dx, dy)), out) && SameObjects() && seat == old(seat)
      ensures Delivered(seat.pointerFocus, Event.PointerAxis(nowNs, dx, dy), out)
    {
      hide Inv, Tokens, AckedBy, ToTarget, Packets, Delivered;
      out := SendToPointer(Event.PointerAxis(nowNs, dx, dy));
      acks := AcksAfter(old(Value()), old(owners), old(log), old(acks), Axis(dx, dy));
      owners := StepKeeps(old(Value()), old(owners), old(log), Axis(dx, dy));
      Fewer(conns.Keys, old(conns.Keys));
    }

    /** A button reaches the pointer focus; the first one held grabs it, the last
        one released lets go. */
    method PointerButton(button: nat, pressed: bool) returns (out: seq<Entry>)
      requires Valid()
      modifies this
      ensures Valid() && Stepped(Step(old(Value()), Button(button, pressed)), out) && SameObjects()
      ensures seat.pointerFocus == old(seat).pointerFocus
      ensures Delivered(seat.pointerFocus, Event.PointerButton(nowNs, button, pressed), out)
      ensures seat.pointerFocus.None? ==> seat == old(seat)
      ensures seat.pointerFocus.Some? ==> (button in seat.buttons <==> pressed)
    {
      hide Inv, Tokens, AckedBy, ToTarget, Packets, Alive, Delivered, Live, Without;
      PacketsOne(Lost(0));
      FocusLive(Value(), owners, log);
      WithoutGone(seat.buttons, button);
      out := [];
      assert log == log + [];
      var t := PointerTarget(seat);
      if t.Some? {
        if pressed {
          if button !in seat.buttons {
            seat := seat.(buttons := seat.buttons + [button]);
          }
          if seat.grab.None? {
            seat := seat.(grab := t);
          }
        } else {
          seat := seat.(buttons := Without(seat.buttons, button));
        }
        if !pressed && seat.buttons == [] {
          seat := seat.(grab := None);
        }
        StillAlive(old(Value()), Value(), t);
        out := EmitToTarget(t, Event.PointerButton(nowNs, button, pressed));
      } else {
        NothingDelivered(Event.PointerButton(nowNs, button, pressed));
      }
      acks := AcksAfter(old(Value()), old(owners), old(log), old(acks), Button(button, pressed));
      owners := StepKeeps(old(Value()), old(owners), old(log), Button(button, pressed));
      Fewer(conns.Keys, old(conns.Keys));
    }

    /** Moves the keyboard focus to a mapped surface or to nothing, with LEAVE
        and ENTER, and forgets the held keys. */
    method SetKeyboardFocus(target: Option<Target>, modifiers: nat) returns (out: seq<Entry>)
      requires Valid()
      modifies this
      ensures Valid() && Stepped(Step(old(Value()), Input.SetKeyboardFocus(target, modifiers)), out) && SameObjects()
      ensures seat.keyboardFocus == if target.Some? && Live(old(Value()), target.value) then target else None
      ensures seat.keyboardFocus == old(seat).keyboardFocus ==> seat == old(seat) && out == []
      ensures seat.keyboardFocus != old(seat).keyboardFocus ==>
        && seat.heldKeys == []
        && Handover(old(seat).keyboardFocus, KeyLeave, seat.keyboardFocus, KeyEnter(modifiers), out)
    {
      hide Inv, Tokens, AckedBy, ToTarget, Focusable, Packets, Alive, Delivered, Handover, Live;
      PacketsOne(Lost(0));
      FocusLive(Value(), owners, log);
      FocusableIs(Value(), target);
      out := [];
      assert log == log + [];
      var t := Focusable(Value(), target);
      if seat.keyboardFocus != t {
        out := HandOver(seat.keyboardFocus, KeyLeave,
                        seat.(keyboardFocus := t, heldKeys := [], modifiers := modifiers), t,
                        KeyEnter(modifiers));
      }
      acks := AcksAfter(old(Value()), old(owners), old(log), old(acks), Input.SetKeyboardFocus(target, modifiers));
      owners := StepKeeps(old(Value()), old(owners), old(log), Input.SetKeyboardFocus(target, modifiers));
      Fewer(conns.Keys, old(conns.Keys));
    }

    /** Too many held keys: a fatal error, and the connection is closed. */
    method InputOverflow(conn: ConnId) returns (out: seq<Entry>)
      modifies this`conns, this`seat, this`log
      ensures Stepped(Overflow(old(Value()), conn), out) && conns.Keys == old(conns.Keys)
    {
      hide DropConn, Packets;
      ghost var a := EmitTo(Value(), conn, GuiModel.Emit(0, Error(0, LimitExceeded, true)));
      out := Emit(conn, GuiModel.Emit(0, Error(0, LimitExceeded, true)));
      if conn in conns {
        conns := conns[conn := conns[conn].(phase := Closed)];
      }
      seat := DropConn(seat, conn);
      PacketsConcat(a.entries, [Lost(conn)]);
      PacketsOne(Lost(conn));
      assert (old(log) + a.entries) + [Lost(conn)] == old(log) + (a.entries + [Lost(conn)]);
      log := log + [Lost(conn)];
    }

    /** A key reaches the keyboard focus, but for releases and repeats of keys
        not held; one held key too many closes the connection instead. */
    method Key(usage: nat, pressed: bool, modifiers: nat, repeat: bool) returns (out: seq<Entry>)
      requires Valid()
      modifies this
      ensures Valid() && Stepped(Step(old(Value()), KeyInput(usage, pressed, modifiers, repeat)), out)
      ensures conns.Keys == old(conns.Keys)
      ensures var focus, held := old(seat).keyboardFocus, usage in old(seat).heldKeys;
        if focus.None? || (!held && (!pressed || repeat)) then out == [] && seat.heldKeys == old(seat).heldKeys
        else if !held && |old(seat).heldKeys| >= MAX_HELD_KEYS then
          && Delivered(Some(Target(focus.value.conn, 0)), Error(0, LimitExceeded, true), out)
          && focus.value.conn in conns && conns[focus.value.conn].phase == Closed
        else
          && Delivered(focus, Event.Key(nowNs, usage, pressed, modifiers, pressed && repeat), out)
          && seat.keyboardFocus == focus && (usage in seat.heldKeys <==> pressed)
    {
      hide Inv, Tokens, AckedBy, ToTarget, Packets, Alive, Delivered, Live, Without, Overflow;
      PacketsOne(Lost(0));
      FocusLive(Value(), owners, log);
      WithoutGone(seat.heldKeys, usage);
      out := [];
      seat := seat.(modifiers := modifiers);
      var t := seat.keyboardFocus;
      assert log == log + [];
      if t.Some? {
        StillAlive(old(Value()), Value(), t);
        var held := usage in seat.heldKeys;
        if held || (pressed && !repeat) {
          if !held && |seat.heldKeys| >= MAX_HELD_KEYS {
            OverflowMeans(Value(), t.value.conn);
            out := InputOverflow(t.value.conn);
          } else {
            if !pressed {
              seat := seat.(heldKeys := Without(seat.heldKeys, usage));
            } else if !held {
              seat := seat.(heldKeys := seat.heldKeys + [usage]);
            }
            StillAlive(old(Value()), Value(), t);
            out := EmitToTarget(t, Event.Key(nowNs, usage, pressed, modifiers, pressed && repeat));
          }
        }
      }
      acks := AcksAfter(old(Value()), old(owners), old(log), old(acks), KeyInput(usage, pressed, modifiers, repeat));
      owners := StepKeeps(old(Value()), old(owners), old(log), KeyInput(usage, pressed, modifiers, repeat));
      Fewer(conns.Keys, old(conns.Keys));
    }

    /** Text of one to 160 bytes reaches the keyboard focus. */
    method TextInput(text: seq<u8>) returns (out: seq<Entry>)
      requires Valid()
      modifies this
      ensures Valid() && Stepped(Step(old(Value()), Text(text)), out) && SameObjects() && seat == old(seat)
      ensures if 1 <= |text| <= MAX_TEXT_BYTES then Delivered(seat.keyboardFocus, Event.TextInput(nowNs, text), out)
        else out == []
    {
      hide Inv, Tokens, AckedBy, ToTarget, Packets, Alive, Delivered, Live;
      PacketsOne(Lost(0));
      FocusLive(Value(), owners, log);
      out := [];
      assert log == log + [];
      if text != [] && |text| <= MAX_TEXT_BYTES {
        out := EmitToTarget(seat.keyboardFocus, Event.TextInput(nowNs, text));
      }
      acks := AcksAfter(old(Value()), old(owners), old(log), old(acks), Text(text));
      owners := StepKeeps(old(Value()), old(owners), old(log), Text(text));
      Fewer(conns.Keys, old(conns.Keys));
    }
  }

  // ---- facts the methods use -----------------------------------------------------------------

  lemma {:induction false} Fewer(a: set<ConnId>, b: set<ConnId>)
    requires a <= b
    ensures |a| <= |b|
    decreases a
  {
    if a != {} {
      var x :| x in a;
      Fewer(a - {x}, b - {x});
    }
  }

  /** A composition tick, connection by connection. */
  lemma {:induction false} CompositeDone(s: State, owners: Owners, log: Log, n: nat, c: ConnId)
    requires Inv(s, owners, log) && c in s.conns
    ensures c < s.nextConn
    ensures var s' := CompositeBelow(s, n).state;
      && s'.conns.Keys == s.conns.Keys
      && if c < n && s.conns[c].phase == Active then FramesDone(s.conns[c], s'.conns[c]) else s'.conns[c] == s.conns[c]
  {
    hide SeatInv, LogOk, OwnOk, CountsOk, FramesDone, CompositeConn;
    assert ConnOk(s.conns[c], owners[c]);
    if n > 0 {
      CompositeDone(s, owners, log, n - 1, c);
      CompositeOne(CompositeBelow(s, n - 1).state, n - 1, c);
    }
  }

  lemma CompositeOne(s: State, conn: ConnId, c: ConnId)
    requires c in s.conns
    ensures var s' := CompositeConn(s, conn).state;
      && s'.conns.Keys == s.conns.Keys
      && (c != conn || s.conns[c].phase != Active ==> s'.conns[c] == s.conns[c])
      && (c == conn && s.conns[c].phase == Active && CountsOk(s.conns[c]) ==> FramesDone(s.conns[c], s'.conns[c]))
  {
    PresentedIs(s.conns[c].objects, s.conns[c].idWatermark + 1);
  }

  /** The next number is on no connection and in no history. */
  lemma FreshId(s: State, owners: Owners, log: Log)
    requires Inv(s, owners, log)
    ensures NeverSeen(s.nextConn, s.conns, log)
  {
  }

  lemma BelowNext(s: State, owners: Owners, log: Log)
    requires Inv(s, owners, log)
    ensures forall c | c in s.conns :: c < s.nextConn
  {
  }

  /** Focus and grab are on live connections, and a grab is the pointer focus. */
  lemma FocusLive(s: State, owners: Owners, log: Log)
    requires Inv(s, owners, log)
    ensures PointerTarget(s.seat) == s.seat.pointerFocus
    ensures forall t | s.seat.pointerFocus == Some(t) || s.seat.keyboardFocus == Some(t) || s.seat.grab == Some(t) ::
      t.conn in s.conns && Alive(s, t.conn)
  {
    hide ConnsOk, LogOk, IsMapped;
  }

  lemma FocusableIs(s: State, t: Option<Target>)
    ensures Focusable(s, t) == if t.Some? && Live(s, t.value) then t else None
    ensures Focusable(s, t).Some? ==> Alive(s, Focusable(s, t).value.conn)
  {
  }

  /** A target stays reachable when only serials and the seat change. */
  lemma StillAlive(s: State, s': State, t: Option<Target>)
    requires t.Some? ==> Alive(s, t.value.conn)
    requires s'.conns.Keys == s.conns.Keys && forall c | c in s.conns :: s'.conns[c].phase == s.conns[c].phase
    ensures t.Some? ==> Alive(s', t.value.conn)
  {
  }

  lemma {:induction false} WithoutGone(s: seq<nat>, x: nat)
    ensures x !in Without(s, x)
  {
    if s != [] {
      WithoutGone(s[..|s| - 1], x);
    }
  }

  lemma NothingDelivered(e: Event)
    ensures Delivered(None, e, [])
  {
  }

  lemma OverflowMeans(s: State, conn: ConnId)
    requires Alive(s, conn)
    ensures var o := Overflow(s, conn);
      && Delivered(Some(Target(conn, 0)), Error(0, LimitExceeded, true), Packets(o.entries))
      && conn in o.state.conns && o.state.conns[conn].phase == Closed
  {
    var sent := Sent(conn, s.conns[conn].nextServerSerial, Emit(0, Error(0, LimitExceeded, true)));
    PacketsConcat([sent], [Lost(conn)]);
    PacketsOne(sent);
    PacketsOne(Lost(conn));
    assert [sent] + [Lost(conn)] == [sent, Lost(conn)];
  }

  /** A reply whose first event is a non-fatal error is that error alone. */
  lemma RefusalInert(c: Connection, nextClient: nat, seat: Seat, conn: ConnId, now: nat, p: Packet, cap: Option<nat>)
    ensures var r := Pipeline(Stage(c, nextClient, seat, conn, now, p, cap), cap);
      && r.conn.nextServerSerial == c.nextServerSerial
      && (r.emits != [] && r.emits[0].event.Error? && !r.emits[0].event.fatal ==>
            r.seat == seat && r.conn.objects == c.objects && r.conn.phase == c.phase && !r.close)
  {
    hide Dispatch;
    var st := Stage(c, nextClient, seat, conn, now, p, cap);
    if st.Passed? {
      DispatchRefusal(st.call, st.request, cap);
    }
  }

  lemma DispatchRefusal(k: Call, req: Request, cap: Option<nat>)
    ensures var r := Dispatch(k, req, cap);
      && r.conn.nextServerSerial == k.conn.nextServerSerial
      && (r.emits != [] && r.emits[0].event.Error? ==>
            r.seat == k.seat && r.conn == k.conn && (r.close ==> r.emits[0].event.fatal))
  {
    if !Accepted(Dispatch(k, req, cap)) {
      RefusedChangesNothing(k, req, cap);
    }
  }

  lemma {:induction false} SendsPackets(conn: ConnId, base: nat, emits: seq<Emit>)
    ensures Packets(Sends(conn, base, emits)) == Sends(conn, base, emits)
    decreases |emits|
  {
    if emits != [] {
      var n := |emits| - 1;
      SendsPackets(conn, base, emits[..n]);
      assert Sends(conn, base, emits)[..n] == Sends(conn, base, emits[..n]);
    }
  }

  lemma FramesStart(conn: ConnId, base: nat, objects: Objects, now: nat)
    ensures FrameDones(objects, now, 0) == [] && Presented(objects, 0) == objects && Sends(conn, base, []) == []
  {
  }

  lemma EmitAlive(s: State, conn: ConnId, e: Emit)
    requires Alive(s, conn)
    ensures var c := s.conns[conn]; var o := EmitTo(s, conn, e);
      && o == Outcome(s.(conns := s.conns[conn := c.(nextServerSerial := c.nextServerSerial + 1)]),
                      [Sent(conn, c.nextServerSerial, e)])
      && Packets(o.entries) == o.entries
  {
    PacketsOne(Sent(conn, s.conns[conn].nextServerSerial, e));
  }

  lemma SendsSnoc(conn: ConnId, base: nat, emits: seq<Emit>, e: Emit)
    ensures Sends(conn, base, emits + [e]) == Sends(conn, base, emits) + [Sent(conn, base + |emits|, e)]
  {
  }

  lemma DeliverPackets(conn: ConnId, owed: Option<Debt>, base: nat, emits: seq<Emit>, close: bool)
    ensures var es := (if owed.Some? then [Owed(conn, owed.value)] else [])
                      + Sends(conn, base, emits) + (if close then [Lost(conn)] else []);
      Packets(es) == Sends(conn, base, emits)
  {
    hide Sends;
    var a := if owed.Some? then [Owed(conn, owed.value)] else [];
    var z := if close then [Lost(conn)] else [];
    PacketsConcat(a + Sends(conn, base, emits), z);
    PacketsConcat(a, Sends(conn, base, emits));
    SendsPackets(conn, base, emits);
    if owed.Some? {
      PacketsOne(Owed(conn, owed.value));
    }
    PacketsOne(Lost(conn));
  }

  /** One turn of the loop over a connection's objects. */
  lemma PresentedTurn(objects: Objects, now: nat, n: nat)
    ensures var o := Presented(objects, n);
      && (n in o <==> n in objects) && (n in objects ==> o[n] == objects[n])
      && Presented(objects, n + 1) ==
           (if IsSurface(objects, n) && objects[n].surface.framePending
            then o[n := Surf(objects[n].surface.(framePending := false))] else o)
      && FrameDones(objects, now, n + 1) == FrameDones(objects, now, n)
           + (if IsSurface(objects, n) && objects[n].surface.framePending then
                var s := objects[n].surface;
                [Emit(n, FrameDone(s.frameToken, now, if s.mapped then FRAME_PRESENTED else FRAME_DISCARDED))]
              else [])
  {
    PresentedIs(objects, n);
  }

  lemma ToTargetSeat(s: State, t: Option<Target>, e: Event)
    ensures ToTarget(s, t, e).state.seat == s.seat
  {
  }

  lemma CompositeNext(s: State, conn: ConnId)
    ensures !(conn in s.conns && s.conns[conn].phase == Active) ==> CompositeConn(s, conn) == Outcome(s, [])
    ensures CompositeConn(s, conn).state.nextConn == s.nextConn
  {
  }
}
