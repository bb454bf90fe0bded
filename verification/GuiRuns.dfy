/** Every run of the server, from start, over any inputs. */
module GuiRuns {
  import opened Bytes
  import opened GuiModel
  import opened GuiOwn
  import opened GuiDebt
  import opened GuiSeat
  import opened GuiRun
  import opened GuiTrace
  import opened GuiSafe

  // ---- input routing ---------------------------------------------------------------------

  lemma FocusableLive(s: State, want: Option<Target>)
    ensures var t := Focusable(s, want); t.Some? ==> Live(s, t.value)
  {
  }

  /** Leaving the old pointer focus, then entering the new one. */
  lemma PointerFocusStep(s: State, owners: Owners, log: Log, want: Option<Target>, x: int, y: int)
    requires Inv(s, owners, log)
    ensures var o := DoPointerFocus(s, want, x, y); Inv(o.state, owners, log + o.entries)
  {
    hide ConnsOk, LogOk, IsMapped;
    var t := Focusable(s, want);
    var o := DoPointerFocus(s, want, x, y);
    FocusableLive(s, want);
    assert log + [] == log;
    if s.seat.grab.None? && s.seat.pointerFocus != t {
      var none := s.seat.(pointerFocus := None, buttons := []);
      var a := ToTarget(s, s.seat.pointerFocus, PointerLeave);
      var mid := a.state.(seat := none);
      if s.seat.pointerFocus.Some? {
        InputStep(s, owners, log, s.seat.pointerFocus.value, PointerLeave, none);
        assert mid == EmitTo(s.(seat := none), s.seat.pointerFocus.value.conn,
                             Emit(s.seat.pointerFocus.value.surface, PointerLeave)).state;
      } else {
        assert none == s.seat && mid == s;
      }
      assert Inv(mid, owners, log + a.entries);
      if t.Some? {
        var seat' := none.(pointerFocus := t);
        assert Live(mid, t.value) && SeatInv(mid.(seat := seat'));
        InputStep(mid, owners, log + a.entries, t.value, PointerEnter(x, y), seat');
        var f := ToTarget(mid.(seat := seat'), t, PointerEnter(x, y));
        assert (log + a.entries) + f.entries == log + (a.entries + f.entries);
        assert mid.(seat := seat') == a.state.(seat := s.seat.(pointerFocus := t, buttons := []));
      } else {
        assert a.entries + [] == a.entries;
      }
    }
  }

  lemma KeyboardFocusStep(s: State, owners: Owners, log: Log, want: Option<Target>, modifiers: nat)
    requires Inv(s, owners, log)
    ensures var o := DoKeyboardFocus(s, want, modifiers); Inv(o.state, owners, log + o.entries)
  {
    hide ConnsOk, LogOk, IsMapped;
    var t := Focusable(s, want);
    var o := DoKeyboardFocus(s, want, modifiers);
    FocusableLive(s, want);
    assert log + [] == log;
    if s.seat.keyboardFocus != t {
      var none := s.seat.(keyboardFocus := None, heldKeys := [], modifiers := modifiers);
      var a := ToTarget(s, s.seat.keyboardFocus, KeyLeave);
      var mid := a.state.(seat := none);
      assert BracketOf(none) == BracketOf(s.seat).(keyboard := None, held := {});
      if s.seat.keyboardFocus.Some? {
        InputStep(s, owners, log, s.seat.keyboardFocus.value, KeyLeave, none);
      } else {
        SilentStep(s, owners, log, none);
      }
      assert Inv(mid, owners, log + a.entries);
      if t.Some? {
        var seat' := none.(keyboardFocus := t);
        assert Live(mid, t.value) && SeatInv(mid.(seat := seat'));
        assert BracketOf(seat') == BracketOf(none).(keyboard := t, held := {});
        InputStep(mid, owners, log + a.entries, t.value, KeyEnter(modifiers), seat');
        var f := ToTarget(mid.(seat := seat'), t, KeyEnter(modifiers));
        assert (log + a.entries) + f.entries == log + (a.entries + f.entries);
      } else {
        assert a.entries + [] == a.entries;
      }
    }
  }

  /** An event to the pointer's target that leaves the seat as it is. */
  lemma PointerEventStep(s: State, owners: Owners, log: Log, ev: Event)
    requires Inv(s, owners, log) && (ev.PointerMotion? || ev.PointerAxis?)
    ensures var o := ToTarget(s, PointerTarget(s.seat), ev); Inv(o.state, owners, log + o.entries)
  {
    hide ConnsOk, LogOk, IsMapped;
    var t := PointerTarget(s.seat);
    if t.Some? {
      InputStep(s, owners, log, t.value, ev, s.seat);
    } else {
      assert log + [] == log;
    }
  }

  lemma {:induction false} WithoutIs(s: seq<nat>, x: nat)
    ensures forall y :: y in Without(s, x) <==> y in s && y != x
    ensures Distinct(s) ==> Distinct(Without(s, x))
    ensures |Without(s, x)| <= |s|
  {
    if s != [] {
      var n := |s| - 1;
      WithoutIs(s[..n], x);
      assert s == s[..n] + [s[n]];
      if Distinct(s) {
        assert Distinct(s[..n]) && s[n] !in s[..n];
      }
    }
  }

  lemma ButtonStep(s: State, owners: Owners, log: Log, button: nat, pressed: bool)
    requires Inv(s, owners, log)
    ensures var o := DoButton(s, button, pressed); Inv(o.state, owners, log + o.entries)
  {
    hide ConnsOk, LogOk, IsMapped, Without;
    var t := PointerTarget(s.seat);
    if t.Some? {
      WithoutIs(s.seat.buttons, button);
      var buttons :=
        if !pressed then Without(s.seat.buttons, button)
        else if button in s.seat.buttons then s.seat.buttons
        else s.seat.buttons + [button];
      var grab := if pressed then t else if buttons == [] then None else s.seat.grab;
      var seat' := s.seat.(buttons := buttons, grab := grab);
      assert Distinct(buttons);
      assert SeatInv(s.(seat := seat'));
      assert BracketOf(seat') == BracketOf(s.seat);
      InputStep(s, owners, log, t.value, PointerButton(s.now, button, pressed), seat');
    } else {
      assert log + [] == log;
    }
  }

  lemma TextStep(s: State, owners: Owners, log: Log, text: seq<u8>)
    requires Inv(s, owners, log)
    ensures var o := DoText(s, text); Inv(o.state, owners, log + o.entries)
  {
    hide ConnsOk, LogOk, IsMapped;
    if text != [] && |text| <= MAX_TEXT_BYTES && s.seat.keyboardFocus.Some? {
      InputStep(s, owners, log, s.seat.keyboardFocus.value, TextInput(s.now, text), s.seat);
    } else {
      assert log + [] == log;
    }
  }

  /** A delivered key: the held keys are exactly those pressed since ENTER. */
  lemma HeldKeyStep(s: State, owners: Owners, log: Log, usage: nat, pressed: bool, modifiers: nat, repeat: bool,
                    keys: seq<nat>)
    requires Inv(s, owners, log) && s.seat.keyboardFocus.Some?
    requires usage !in s.seat.heldKeys ==> pressed && !repeat && |s.seat.heldKeys| < MAX_HELD_KEYS
    requires keys ==
      if !pressed then Without(s.seat.heldKeys, usage)
      else if usage in s.seat.heldKeys then s.seat.heldKeys
      else s.seat.heldKeys + [usage]
    ensures var o := ToTarget(s.(seat := s.seat.(heldKeys := keys)), s.seat.keyboardFocus,
                              Key(s.now, usage, pressed, modifiers, pressed && repeat));
      Inv(o.state, owners, log + o.entries)
  {
    hide ConnsOk, LogOk, IsMapped, Without;
    WithoutIs(s.seat.heldKeys, usage);
    var seat' := s.seat.(heldKeys := keys);
    var held := BracketOf(s.seat).held;
    assert BracketOf(seat').held == if pressed then held + {usage} else held - {usage};
    assert Distinct(keys);
    assert SeatInv(s.(seat := seat'));
    InputStep(s, owners, log, s.seat.keyboardFocus.value,
              Key(s.now, usage, pressed, modifiers, pressed && repeat), seat');
  }

  lemma KeyStep(s: State, owners: Owners, log: Log, usage: nat, pressed: bool, modifiers: nat, repeat: bool)
    requires Inv(s, owners, log)
    ensures var o := DoKey(s, usage, pressed, modifiers, repeat); Inv(o.state, owners, log + o.entries)
  {
    hide ConnsOk, LogOk, IsMapped, Without, Overflow, ToTarget;
    var s1 := s.(seat := s.seat.(modifiers := modifiers));
    assert BracketOf(s1.seat) == BracketOf(s.seat);
    SilentStep(s, owners, log, s1.seat);
    assert log + [] == log;
    var t := s1.seat.keyboardFocus;
    if t.Some? {
      var held := usage in s1.seat.heldKeys;
      if !held && (!pressed || repeat) {
      } else if !held && |s1.seat.heldKeys| >= MAX_HELD_KEYS {
        OverflowStep(s1, owners, log, t.value.conn);
      } else {
        var keys :=
          if !pressed then Without(s1.seat.heldKeys, usage)
          else if held then s1.seat.heldKeys
          else s1.seat.heldKeys + [usage];
        HeldKeyStep(s1, owners, log, usage, pressed, modifiers, repeat, keys);
      }
    }
  }

  // ---- runs -----------------------------------------------------------------------------------

  ghost predicate InputOk(input: Input) { input.Deliver? ==> PacketOk(input.packet) }

  /** Every input keeps the invariant. */
  lemma StepKeeps(s: State, owners: Owners, log: Log, input: Input) returns (owners': Owners)
    requires Inv(s, owners, log) && InputOk(input)
    ensures var o := Step(s, input); Inv(o.state, owners', log + o.entries)
  {
    hide Inv, DoConnect, DoPeerGone, DoTick, DoDeliver, CompositeBelow, DoReconfigure, DoPointerFocus,
         ToTarget, DoButton,
      DoKeyboardFocus, DoKey, DoText;
    owners' := owners;
    match input {
      case Connect => owners' := ConnectStep(s, owners, log);
      case PeerGone(conn) => PeerGoneStep(s, owners, log, conn);
      case Tick(now) => TickStep(s, owners, log, now);
      case Deliver(conn, packet, cap) => owners' := DeliverStep(s, owners, log, conn, packet, cap);
      case Composite => CompositeStep(s, owners, log, s.nextConn);
      case Reconfigure(conn, surface, width, height, scale, state) =>
        ReconfigureStep(s, owners, log, conn, surface, width, height, scale, state);
      case SetPointerFocus(target, x, y) => PointerFocusStep(s, owners, log, target, x, y);
      case Motion(x, y) => PointerEventStep(s, owners, log, PointerMotion(s.now, x, y));
      case Button(button, pressed) => ButtonStep(s, owners, log, button, pressed);
      case Axis(dx, dy) => PointerEventStep(s, owners, log, PointerAxis(s.now, dx, dy));
      case SetKeyboardFocus(target, modifiers) => KeyboardFocusStep(s, owners, log, target, modifiers);
      case KeyInput(usage, pressed, modifiers, repeat) => KeyStep(s, owners, log, usage, pressed, modifiers, repeat);
      case Text(text) => TextStep(s, owners, log, text);
    }
  }

  /** The state after a run, and everything sent during it. */
  function Run(inputs: seq<Input>): Outcome {
    if inputs == [] then Outcome(INIT, [])
    else
      var a := Run(inputs[..|inputs| - 1]);
      Then(a, Step(a.state, inputs[|inputs| - 1]))
  }

  lemma {:induction false} RunKeeps(inputs: seq<Input>) returns (owners: Owners)
    requires forall i | 0 <= i < |inputs| :: InputOk(inputs[i])
    ensures Inv(Run(inputs).state, owners, Run(inputs).entries)
    decreases |inputs|
  {
    hide Step, Inv;
    if inputs == [] {
      owners := map[];
      StartOk();
    } else {
      var n := |inputs| - 1;
      owners := RunKeeps(inputs[..n]);
      var a := Run(inputs[..n]);
      owners := StepKeeps(a.state, owners, a.entries, inputs[n]);
    }
  }

  lemma StartOk()
    ensures Inv(INIT, map[], [])
  {
    assert BracketOf(INIT.seat) == NOTHING;
  }

  // ---- what every run guarantees -----------------------------------------------------------------

  ghost predicate Legal(inputs: seq<Input>) { forall i | 0 <= i < |inputs| :: InputOk(inputs[i]) }

  ghost predicate OwnershipHolds(c: Connection, b: ObjectId) {
    var o := c.objects;
    && CountsOk(c)
    && (IsBuffer(o, b) ==>
         && (o[b].buffer.state == Pending <==> exists s :: Reserves(o, s, b))
         && (o[b].buffer.state == Busy <==> exists s :: Commits(o, s, b))
         && (forall s, t | Reserves(o, s, b) && Reserves(o, t, b) :: s == t)
         && (forall s, t | Commits(o, s, b) && Commits(o, t, b) :: s == t)
         && (forall s, t :: !(Reserves(o, s, b) && Commits(o, t, b)))
         && (forall s | Commits(o, s, b) :: o[s].surface.committedToken == o[b].buffer.commitToken))
  }

  ghost predicate PaysHolds(log: Log, conn: ConnId, o: Objects, d: Debt) {
    && OwedIn(log, conn, d) == PaidIn(log, conn, d) + Open(o, d)
    && (d.FrameDebt? ==> OwedIn(log, conn, d) <= 1)
    && (forall s | IsSurface(o, s) && o[s].surface.framePending :: o[s].surface.mapped)
  }

  ghost predicate SeatHolds(s: State, log: Log) {
    && (forall t | s.seat.pointerFocus == Some(t) || s.seat.keyboardFocus == Some(t) || s.seat.grab == Some(t) ::
            Live(s, t))
    && (s.seat.grab.Some? <==> s.seat.buttons != []) && (s.seat.grab.Some? ==> s.seat.grab == s.seat.pointerFocus)
    && Replay(NOTHING, log) == Some(BracketOf(s.seat))
  }

  lemma InvOwnership(s: State, owners: Owners, log: Log, conn: ConnId, b: ObjectId)
    requires Inv(s, owners, log) && conn in s.conns
    ensures OwnershipHolds(s.conns[conn], b)
  {
    hide CountsOk, OwnOk, LogOk, SeatInv, Reserves, Commits;
    if IsBuffer(s.conns[conn].objects, b) {
      Ownership(s.conns[conn].objects, owners[conn], b);
    }
  }

  lemma InvPays(s: State, owners: Owners, log: Log, conn: ConnId, d: Debt)
    requires Inv(s, owners, log) && conn in s.conns
    ensures PaysHolds(log, conn, s.conns[conn].objects, d)
  {
    hide CountsOk, SeatInv, OwedIn, PaidIn, Open, LastConfigure, Replay, BracketOf;
    var o := s.conns[conn].objects;
    assert ConnLog(s.conns[conn], conn, log);
    match d {
      case FrameDebt(id, t) => assert OwedIn(log, conn, FrameDebt(id, t)) <= 1;
      case BufferDebt(_) =>
    }
    forall id | IsSurface(o, id) && o[id].surface.framePending
      ensures o[id].surface.mapped
    {
      assert ObjectOk(o, owners[conn], id);
    }
  }

  lemma InvTokens(s: State, owners: Owners, log: Log, conn: ConnId, id: ObjectId)
    requires Inv(s, owners, log) && conn in s.conns && IsSurface(s.conns[conn].objects, id)
    ensures LastConfigure(log, conn, id) == s.conns[conn].objects[id].surface.latestToken
  {
    hide ConnsOk, SeatInv, OwedIn, PaidIn, Open, LastConfigure, Replay, BracketOf;
    assert ConnLog(s.conns[conn], conn, log);
  }

  lemma InvSeat(s: State, owners: Owners, log: Log)
    requires Inv(s, owners, log)
    ensures SeatHolds(s, log)
  {
    hide ConnsOk, ConnLog, Replay, BracketOf, IsMapped;
  }

  /** On every connection of every reachable state: a buffer is Pending iff
      exactly one surface reserves it, Busy iff exactly one has it committed,
      with the same token, else Available; and the three counters are the true
      counts, within their limits. */
  lemma EveryRunOwnership(inputs: seq<Input>, conn: ConnId, b: ObjectId)
    requires Legal(inputs) && conn in Run(inputs).state.conns
    ensures OwnershipHolds(Run(inputs).state.conns[conn], b)
  {
    hide Run, Inv, OwnershipHolds;
    var owners := RunKeeps(inputs);
    InvOwnership(Run(inputs).state, owners, Run(inputs).entries, conn, b);
  }

  /** Over every run: what a connection was owed is what it was paid plus what is
      still open. So accepted non-null attaches of a buffer are its releases plus
      one if it is not Available, and an accepted frame callback has had its one
      FRAME_DONE or is pending on a mapped surface. */
  lemma EveryRunPays(inputs: seq<Input>, conn: ConnId, d: Debt)
    requires Legal(inputs) && conn in Run(inputs).state.conns
    ensures PaysHolds(Run(inputs).entries, conn, Run(inputs).state.conns[conn].objects, d)
  {
    hide Run, Inv, PaysHolds;
    var owners := RunKeeps(inputs);
    InvPays(Run(inputs).state, owners, Run(inputs).entries, conn, d);
  }

  /** A surface's token is always the serial of the last CONFIGURE sent for it. */
  lemma EveryRunTokens(inputs: seq<Input>, conn: ConnId, s: ObjectId)
    requires Legal(inputs) && conn in Run(inputs).state.conns && IsSurface(Run(inputs).state.conns[conn].objects, s)
    ensures var r := Run(inputs);
      LastConfigure(r.entries, conn, s) == r.state.conns[conn].objects[s].surface.latestToken
  {
    hide Run, Inv, LastConfigure;
    var owners := RunKeeps(inputs);
    InvTokens(Run(inputs).state, owners, Run(inputs).entries, conn, s);
  }

  /** Focus and grab name mapped surfaces of active connections; a grab exists
      iff buttons are held and is the pointer focus; and the whole event history
      is bracketed: pointer and key events only between their surface's ENTER
      and LEAVE, releases and repeats only for keys pressed since the ENTER. */
  lemma EveryRunSeat(inputs: seq<Input>)
    requires Legal(inputs)
    ensures SeatHolds(Run(inputs).state, Run(inputs).entries)
  {
    hide Run, Inv, SeatHolds;
    var owners := RunKeeps(inputs);
    InvSeat(Run(inputs).state, owners, Run(inputs).entries);
  }

  /** A packet answered with a non-fatal error leaves every object, every other
      connection and the seat as they were. */
  lemma RecoverableErrorIsInert(s: State, conn: ConnId, p: Packet, cap: Option<nat>)
    requires Alive(s, conn)
    requires var r := Pipeline(Stage(s.conns[conn], s.nextClient, s.seat, conn, s.now, p, cap), cap);
      !Accepted(r) && !r.close
    ensures var o := DoDeliver(s, conn, p, cap);
      && o.state.seat == s.seat && o.state.conns.Keys == s.conns.Keys
      && (forall x | x in s.conns :: o.state.conns[x].objects == s.conns[x].objects)
      && (forall x | x in s.conns && x != conn :: o.state.conns[x] == s.conns[x])
  {
    hide Dispatch, Sends;
    var st := Stage(s.conns[conn], s.nextClient, s.seat, conn, s.now, p, cap);
    if st.Passed? {
      RefusedChangesNothing(st.call, st.request, cap);
    }
  }

  /** Destroying a surface: every LEAVE it is due comes before its RESULT, which
      is the last event of the batch; unmapping: RESULT first, then the LEAVEs. */
  lemma LeaveOrder(k: Call, frameCallback: nat)
    requires IsSurface(k.conn.objects, k.id)
    ensures var r := DoDestroySurface(k); var l := Leaves(k.seat, Target(k.connId, k.id));
      && l <= r.emits && r.emits[|r.emits| - 1] == Emit(k.id, Result(k.serial)) && |l| < |r.emits|
    ensures var r := UnmapCommit(k, frameCallback); var l := Leaves(k.seat, Target(k.connId, k.id));
      [Emit(k.id, Result(k.serial))] + l <= r.emits
  {
    hide Released, DropSurface, Leaves;
  }
}
