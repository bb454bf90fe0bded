/** The server as a state machine over injected inputs, with the log of all it
    sends. */
module GuiRun {
  import opened Bytes
  import opened GuiModel
  import opened GuiDebt
  import opened GuiSeat

  datatype State = State(now: nat, nextConn: ConnId, nextClient: nat, conns: map<ConnId, Connection>, seat: Seat)

  const INIT: State := State(0, 1, 1, map[], Seat(None, None, None, [], [], 0))

  /** One line of the server's history: a debt a request opened, an event sent on
      a connection's serial stream, or a connection that is gone. */
  datatype Entry = Owed(conn: ConnId, debt: Debt) | Sent(conn: ConnId, serial: nat, emit: Emit) | Lost(conn: ConnId)

  datatype Outcome = Outcome(state: State, entries: seq<Entry>)

  datatype Input =
    | Connect
    | PeerGone(conn: ConnId)
    | Tick(now: nat)
    | Deliver(conn: ConnId, packet: Packet, cap: Option<nat>)
    | Composite
    | Reconfigure(conn: ConnId, surface: ObjectId, width: nat, height: nat, scale: nat, state: nat)
    | SetPointerFocus(target: Option<Target>, x: int, y: int)
    | Motion(x: int, y: int)
    | Button(button: nat, pressed: bool)
    | Axis(dx: int, dy: int)
    | SetKeyboardFocus(target: Option<Target>, modifiers: nat)
    | KeyInput(usage: nat, pressed: bool, modifiers: nat, repeat: bool)
    | Text(text: seq<u8>)

  // ---- sending ------------------------------------------------------------------------

  function Sends(conn: ConnId, base: nat, emits: seq<Emit>): (s: seq<Entry>)
    ensures |s| == |emits|
  {
    seq(|emits|, i requires 0 <= i < |emits| => Sent(conn, base + i, emits[i]))
  }

  predicate Alive(s: State, conn: ConnId) { conn in s.conns && s.conns[conn].phase != Closed }

  /** Sends one event, unless the connection is unknown or closed. */
  function EmitTo(s: State, conn: ConnId, e: Emit): Outcome {
    if !Alive(s, conn) then Outcome(s, [])
    else
      var c := s.conns[conn];
      Outcome(s.(conns := s.conns[conn := c.(nextServerSerial := c.nextServerSerial + 1)]),
              [Sent(conn, c.nextServerSerial, e)])
  }

  function Then(a: Outcome, f: Outcome): Outcome { Outcome(f.state, a.entries + f.entries) }

  function ToTarget(s: State, t: Option<Target>, e: Event): Outcome {
    if t.None? then Outcome(s, []) else EmitTo(s, t.value.conn, Emit(t.value.surface, e))
  }

  // ---- connections --------------------------------------------------------------------

  function DoConnect(s: State): Outcome {
    if |s.conns| >= MAX_CONNECTIONS then Outcome(s, [])
    else Outcome(s.(nextConn := s.nextConn + 1, conns := s.conns[s.nextConn := NewConnection(s.now)]), [])
  }

  function DoPeerGone(s: State, conn: ConnId): Outcome {
    Outcome(s.(conns := s.conns - {conn}, seat := DropConn(s.seat, conn)), if conn in s.conns then [Lost(conn)] else [])
  }

  predicate TimedOut(s: State, conn: ConnId) {
    conn in s.conns && s.conns[conn].phase == New && s.now >= s.conns[conn].created + HELLO_TIMEOUT_NS
  }

  /** Drops the connections below `n` that never said HELLO in time. */
  function DropTimedOut(s: State, n: nat): Outcome {
    if n == 0 then Outcome(s, [])
    else
      var a := DropTimedOut(s, n - 1);
      if TimedOut(a.state, n - 1) then Then(a, DoPeerGone(a.state, n - 1)) else a
  }

  function DoTick(s: State, now: nat): Outcome {
    var s1 := if now > s.now then s.(now := now) else s;
    DropTimedOut(s1, s1.nextConn)
  }

  function DoDeliver(s: State, conn: ConnId, p: Packet, cap: Option<nat>): Outcome {
    if !Alive(s, conn) then Outcome(s, [])
    else
      var st := Stage(s.conns[conn], s.nextClient, s.seat, conn, s.now, p, cap);
      var r := Pipeline(st, cap);
      var c := r.conn.(nextServerSerial := r.conn.nextServerSerial + |r.emits|);
      var owed := if st.Passed? then Opened(st.call, st.request, r) else None;
      Outcome(
        s.(nextClient := r.nextClient,
           conns := s.conns[conn := if r.close then c.(phase := Closed) else c],
           seat := if r.close then DropConn(r.seat, conn) else r.seat),
        (if owed.Some? then [Owed(conn, owed.value)] else [])
        + Sends(conn, s.conns[conn].nextServerSerial, r.emits) + (if r.close then [Lost(conn)] else []))
  }

  // ---- frames and configuration -----------------------------------------------------------

  /** Completes the pending callbacks of the surfaces below `n`. */
  function Presented(objects: Objects, n: nat): Objects {
    if n == 0 then objects
    else
      var o := Presented(objects, n - 1);
      if IsSurface(o, n - 1) && o[n - 1].surface.framePending
      then o[n - 1 := Surf(o[n - 1].surface.(framePending := false))] else o
  }

  function FrameDones(objects: Objects, now: nat, n: nat): seq<Emit> {
    if n == 0 then []
    else
      FrameDones(objects, now, n - 1)
      + (if IsSurface(objects, n - 1) && objects[n - 1].surface.framePending then
           var s := objects[n - 1].surface;
           [Emit(n - 1, FrameDone(s.frameToken, now, if s.mapped then FRAME_PRESENTED else FRAME_DISCARDED))]
         else [])
  }

  function CompositeConn(s: State, conn: ConnId): Outcome {
    if !(conn in s.conns && s.conns[conn].phase == Active) then Outcome(s, [])
    else
      var c := s.conns[conn];
      var emits := FrameDones(c.objects, s.now, c.idWatermark + 1);
      Outcome(s.(conns := s.conns[conn := c.(objects := Presented(c.objects, c.idWatermark + 1),
                                             nextServerSerial := c.nextServerSerial + |emits|)]),
              Sends(conn, c.nextServerSerial, emits))
  }

  function CompositeBelow(s: State, n: nat): Outcome {
    if n == 0 then Outcome(s, [])
    else
      var a := CompositeBelow(s, n - 1);
      Then(a, CompositeConn(a.state, n - 1))
  }

  function DoReconfigure(s: State, conn: ConnId, id: ObjectId, width: nat, height: nat, scale: nat,
                         state: nat): Outcome {
    if !(DimOk(width) && DimOk(height)) || scale == 0 then Outcome(s, [])
    else if !(conn in s.conns && s.conns[conn].phase == Active && IsSurface(s.conns[conn].objects, id))
    then Outcome(s, [])
    else
      var c := s.conns[conn];
      var n := c.objects[id].surface.(width := width, height := height, scale := scale, state := state,
                                      latestToken := c.nextServerSerial);
      EmitTo(s.(conns := s.conns[conn := c.(objects := c.objects[id := Surf(n)])]), conn,
             Emit(id, Configure(width, height, scale, state)))
  }

  // ---- input ------------------------------------------------------------------------------

  ghost predicate Live(s: State, t: Target) {
    t.conn in s.conns && s.conns[t.conn].phase == Active && IsMapped(s.conns[t.conn].objects, t.surface)
  }

  /** A target that may take focus. */
  function Focusable(s: State, t: Option<Target>): Option<Target> {
    if t.Some? && t.value.conn in s.conns && s.conns[t.value.conn].phase == Active
       && IsSurface(s.conns[t.value.conn].objects, t.value.surface)
       && s.conns[t.value.conn].objects[t.value.surface].surface.mapped
    then t else None
  }

  function DoPointerFocus(s: State, want: Option<Target>, x: int, y: int): Outcome {
    var t := Focusable(s, want);
    if s.seat.grab.Some? || s.seat.pointerFocus == t then Outcome(s, [])
    else
      var a := ToTarget(s, s.seat.pointerFocus, PointerLeave);
      var s1 := a.state.(seat := s.seat.(pointerFocus := t, buttons := []));
      Then(a, ToTarget(s1, t, PointerEnter(x, y)))
  }

  function PointerTarget(seat: Seat): Option<Target> { if seat.grab.Some? then seat.grab else seat.pointerFocus }

  function Without(s: seq<nat>, x: nat): seq<nat> {
    if s == [] then [] else Without(s[..|s| - 1], x) + if s[|s| - 1] == x then [] else [s[|s| - 1]]
  }

  function DoButton(s: State, button: nat, pressed: bool): Outcome {
    var t := PointerTarget(s.seat);
    if t.None? then Outcome(s, [])
    else
      var buttons :=
        if !pressed then Without(s.seat.buttons, button)
        else if button in s.seat.buttons then s.seat.buttons
        else s.seat.buttons + [button];
      var grab :=
        if pressed then t else if buttons == [] then None else s.seat.grab;
      ToTarget(s.(seat := s.seat.(buttons := buttons, grab := grab)), t, PointerButton(s.now, button, pressed))
  }

  function DoKeyboardFocus(s: State, want: Option<Target>, modifiers: nat): Outcome {
    var t := Focusable(s, want);
    if s.seat.keyboardFocus == t then Outcome(s, [])
    else
      var a := ToTarget(s, s.seat.keyboardFocus, KeyLeave);
      var s1 := a.state.(seat := s.seat.(keyboardFocus := t, heldKeys := [], modifiers := modifiers));
      Then(a, ToTarget(s1, t, KeyEnter(modifiers)))
  }

  /** Too many held keys: a fatal error and the connection is closed. */
  function Overflow(s: State, conn: ConnId): Outcome {
    var a := EmitTo(s, conn, Emit(0, Error(0, LimitExceeded, true)));
    var s1 := if conn in a.state.conns
      then a.state.(conns := a.state.conns[conn := a.state.conns[conn].(phase := Closed)]) else a.state;
    Outcome(s1.(seat := DropConn(s1.seat, conn)), a.entries + [Lost(conn)])
  }

  function DoKey(s0: State, usage: nat, pressed: bool, modifiers: nat, repeat: bool): Outcome {
    var s := s0.(seat := s0.seat.(modifiers := modifiers));
    var t := s.seat.keyboardFocus;
    if t.None? then Outcome(s, [])
    else
      var held := usage in s.seat.heldKeys;
      if !held && (!pressed || repeat) then Outcome(s, [])
      else if !held && |s.seat.heldKeys| >= MAX_HELD_KEYS then Overflow(s, t.value.conn)
      else
        var keys :=
          if !pressed then Without(s.seat.heldKeys, usage)
          else if held then s.seat.heldKeys
          else s.seat.heldKeys + [usage];
        ToTarget(s.(seat := s.seat.(heldKeys := keys)), t, Key(s.now, usage, pressed, modifiers, pressed && repeat))
  }

  function DoText(s: State, text: seq<u8>): Outcome {
    if text == [] || |text| > MAX_TEXT_BYTES then Outcome(s, [])
    else ToTarget(s, s.seat.keyboardFocus, TextInput(s.now, text))
  }

  function Step(s: State, input: Input): Outcome {
    match input
    case Connect => DoConnect(s)
    case PeerGone(conn) => DoPeerGone(s, conn)
    case Tick(now) => DoTick(s, now)
    case Deliver(conn, packet, cap) => DoDeliver(s, conn, packet, cap)
    case Composite => CompositeBelow(s, s.nextConn)
    case Reconfigure(conn, surface, width, height, scale, state) =>
      DoReconfigure(s, conn, surface, width, height, scale, state)
    case SetPointerFocus(target, x, y) => DoPointerFocus(s, target, x, y)
    case Motion(x, y) => ToTarget(s, PointerTarget(s.seat), PointerMotion(s.now, x, y))
    case Button(button, pressed) => DoButton(s, button, pressed)
    case Axis(dx, dy) => ToTarget(s, PointerTarget(s.seat), PointerAxis(s.now, dx, dy))
    case SetKeyboardFocus(target, modifiers) => DoKeyboardFocus(s, target, modifiers)
    case KeyInput(usage, pressed, modifiers, repeat) => DoKey(s, usage, pressed, modifiers, repeat)
    case Text(text) => DoText(s, text)
  }
}
