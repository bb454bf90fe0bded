/** Reading a history: debts opened and settled, the last CONFIGURE of a surface,
    and whether input events are properly bracketed. */
module GuiTrace {
  import opened Bytes
  import opened GuiModel
  import opened GuiDebt
  import opened GuiSeat
  import opened GuiRun

  type Log = seq<Entry>

  // ---- debts ----------------------------------------------------------------------------

  /** How often `conn` was owed `d`. */
  function OwedIn(log: Log, conn: ConnId, d: Debt): nat {
    if log == [] then 0
    else OwedIn(log[..|log| - 1], conn, d) + if log[|log| - 1] == Owed(conn, d) then 1 else 0
  }

  /** How often `conn` was sent what settles `d`. */
  function PaidIn(log: Log, conn: ConnId, d: Debt): nat {
    if log == [] then 0
    else
      var e := log[|log| - 1];
      PaidIn(log[..|log| - 1], conn, d) + if e.Sent? && e.conn == conn && Settles(e.emit, d) then 1 else 0
  }

  lemma {:induction false} CountsConcat(a: Log, b: Log, conn: ConnId, d: Debt)
    ensures OwedIn(a + b, conn, d) == OwedIn(a, conn, d) + OwedIn(b, conn, d)
    ensures PaidIn(a + b, conn, d) == PaidIn(a, conn, d) + PaidIn(b, conn, d)
  {
    hide Settles;
    if b == [] {
      assert a + b == a;
    } else {
      CountsConcat(a, b[..|b| - 1], conn, d);
      assert (a + b)[..|a + b| - 1] == a + b[..|b| - 1];
    }
  }

  lemma CountsOne(e: Entry, conn: ConnId, d: Debt)
    ensures OwedIn([e], conn, d) == if e == Owed(conn, d) then 1 else 0
    ensures PaidIn([e], conn, d) == if e.Sent? && e.conn == conn && Settles(e.emit, d) then 1 else 0
  {
    assert [e][..0] == [];
  }

  lemma {:induction false} SendsCounts(to: ConnId, base: nat, emits: seq<Emit>, conn: ConnId, d: Debt)
    ensures OwedIn(Sends(to, base, emits), conn, d) == 0
    ensures PaidIn(Sends(to, base, emits), conn, d) == if to == conn then SettledIn(emits, d) else 0
    decreases |emits|
  {
    hide Settles;
    if emits != [] {
      var n := |emits| - 1;
      SendsCounts(to, base, emits[..n], conn, d);
      assert Sends(to, base, emits)[..n] == Sends(to, base, emits[..n]);
    }
  }

  // ---- configure tokens --------------------------------------------------------------------

  predicate Configures(e: Emit, id: ObjectId) { e.id == id && e.event.Configure? }

  /** The serial of the last CONFIGURE sent for a surface, or 0. */
  function LastConfigure(log: Log, conn: ConnId, id: ObjectId): nat {
    if log == [] then 0
    else
      var e := log[|log| - 1];
      if e.Sent? && e.conn == conn && Configures(e.emit, id) then e.serial
      else LastConfigure(log[..|log| - 1], conn, id)
  }

  ghost predicate NoConfigure(log: Log, conn: ConnId, id: ObjectId) {
    forall i | 0 <= i < |log| :: !(log[i].Sent? && log[i].conn == conn && Configures(log[i].emit, id))
  }

  lemma {:induction false} ConfigureKept(a: Log, b: Log, conn: ConnId, id: ObjectId)
    requires NoConfigure(b, conn, id)
    ensures LastConfigure(a + b, conn, id) == LastConfigure(a, conn, id)
    decreases |b|
  {
    hide Configures;
    if b == [] {
      assert a + b == a;
    } else {
      ConfigureKept(a, b[..|b| - 1], conn, id);
      assert (a + b)[..|a + b| - 1] == a + b[..|b| - 1];
      assert (a + b)[|a + b| - 1] == b[|b| - 1];
    }
  }

  lemma ConfigureLast(a: Log, e: Entry, conn: ConnId, id: ObjectId)
    requires e.Sent? && e.conn == conn && Configures(e.emit, id)
    ensures LastConfigure(a + [e], conn, id) == e.serial
  {
    assert (a + [e])[|a + [e]| - 1] == e;
  }

  // ---- brackets -----------------------------------------------------------------------------

  /** A vanished connection closes its brackets silently. */
  function Forget(b: Bracket, conn: ConnId): Bracket {
    var p := if b.pointer.Some? && b.pointer.value.conn == conn then b.(pointer := None) else b;
    if p.keyboard.Some? && p.keyboard.value.conn == conn then p.(keyboard := None, held := {}) else p
  }

  function Advance(b: Bracket, e: Entry): Option<Bracket> {
    match e
    case Owed(_, _) => Some(b)
    case Sent(conn, _, emit) => Follow(b, conn, emit)
    case Lost(conn) => Some(Forget(b, conn))
  }

  /** The brackets open after `log`, or `None` if some event is out of place. */
  function Replay(b: Bracket, log: Log): Option<Bracket> {
    if log == [] then Some(b)
    else
      match Replay(b, log[..|log| - 1])
      case None => None
      case Some(b') => Advance(b', log[|log| - 1])
  }

  lemma {:induction false} ReplayConcat(b: Bracket, x: Log, y: Log)
    ensures Replay(b, x + y) == match Replay(b, x) case None => None case Some(b') => Replay(b', y)
  {
    hide Advance;
    if y == [] {
      assert x + y == x;
    } else {
      ReplayConcat(b, x, y[..|y| - 1]);
      assert (x + y)[..|x + y| - 1] == x + y[..|y| - 1];
    }
  }

  lemma ReplayOne(b: Bracket, e: Entry)
    ensures Replay(b, [e]) == Advance(b, e)
  {
    assert [e][..0] == [];
  }

  lemma {:induction false} ReplaySends(b: Bracket, conn: ConnId, base: nat, emits: seq<Emit>)
    ensures Replay(b, Sends(conn, base, emits)) == FollowAll(b, conn, emits)
    decreases |emits|
  {
    hide Follow;
    if emits != [] {
      var n := |emits| - 1;
      ReplaySends(b, conn, base, emits[..n]);
      assert Sends(conn, base, emits)[..n] == Sends(conn, base, emits[..n]);
    }
  }

  lemma ForgetIsDrop(seat: Seat, conn: ConnId)
    ensures Forget(BracketOf(seat), conn) == BracketOf(DropConn(seat, conn))
  {
    var after := BracketOf(DropConn(seat, conn));
    var b := Forget(BracketOf(seat), conn);
    assert after.held == b.held && after.pointer == b.pointer && after.keyboard == b.keyboard;
  }
}
