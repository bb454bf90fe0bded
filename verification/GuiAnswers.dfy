/** When the server grants a packet and how it refuses one, read off the objects
    of the connection and the history alone: the size and token of a surface are
    those of the last CONFIGURE sent for it, a token is acknowledged if an ACK of
    it was granted, and a buffer is free if no surface holds it. */
module GuiAnswers {
  import opened Bytes
  import opened GuiModel
  import opened GuiDebt
  import opened GuiOwn
  import opened GuiReply
  import opened GuiSeat
  import opened GuiRun
  import opened GuiTrace
  import opened GuiSafe
  import opened GuiRuns
  import opened GuiTokens

  datatype Refusal = Refusal(code: ErrorCode, fatal: bool)

  // ---- what a packet must meet --------------------------------------------------------------

  /** A packet that reaches its request. */
  predicate Passes(c: Connection, p: Packet, cap: Option<nat>) {
    && p.Framed? && p.opcode.RequestOp? && p.payload.Decoded?
    && (p.opcode.takesBuffer <==> cap.Some?)
    && p.major == 1 && p.serial > c.lastClientSerial
    && (p.opcode.hello <==> c.phase == New)
  }

  predicate FormatGranted(c: Connection, format: nat) { format == 1 || (format == 2 && 0 in c.features) }

  predicate SizeGranted(width: nat, height: nat) { 1 <= width <= 4096 && 1 <= height <= 4096 }

  predicate Letter(b: u8) {
    var c := b as int as char;
    '0' <= c <= '9' || 'A' <= c <= 'Z' || 'a' <= c <= 'z' || c in {'.', '_', '-'}
  }

  ghost predicate HeldBuffer(o: Objects, b: ObjectId) { exists s :: Reserves(o, s, b) || Commits(o, s, b) }

  predicate Inside(r: Rect, b: Buffer) {
    && 0 < r.w && 0 < r.h && 0 <= r.x <= b.width - r.w && 0 <= r.y <= b.height - r.h
  }

  /** The attached buffer has the announced size times its scale, in pixels that
      32 bits can count, and the surface's format. */
  predicate Fits(b: Buffer, f: Surface, e: Option<Event>) {
    && e.Some? && e.value.Configure? && b.format == f.format
    && b.width == e.value.width * e.value.scale < 0x1_0000_0000
    && b.height == e.value.height * e.value.scale < 0x1_0000_0000
  }

  /** The buffer a commit would show. */
  predicate AttachFits(o: Objects, f: Surface, e: Option<Event>) {
    f.pendingBuffer == 0 || (IsBuffer(o, f.pendingBuffer) && Fits(o[f.pendingBuffer].buffer, f, e))
  }

  /** The request is granted. */
  ghost predicate Grants(conn: ConnId, c: Connection, log: Log, acks: set<Ack>, id: ObjectId, req: Request, size: nat) {
    var o := c.objects;
    match req
    case Hello(minMinor, _, offered, required) => minMinor == 0 && required <= offered && required <= {0}
    case Disconnect => true
    case CreateSurface(role, width, height, format) =>
      id > c.idWatermark && role == 1 && FormatGranted(c, format) && SizeGranted(width, height) && c.surfaces < 64
    case DestroySurface => IsSurface(o, id)
    case SetTitle(title) => IsSurface(o, id) && |title| <= 160
    case SetAppId(appId) => IsSurface(o, id) && 1 <= |appId| <= 128 && forall b | b in appId :: Letter(b)
    case AckConfigure(token) =>
      IsSurface(o, id) && token == LastConfigure(log, conn, id) && Ack(conn, id, token) !in acks
    case ImportBuffer(width, height, stride, format, offset) =>
      && id > c.idWatermark && FormatGranted(c, format) && SizeGranted(width, height)
      && stride % 4 == 0 && offset % 4 == 0 && 4 * width <= stride <= 16384
      && stride * (height - 1) + offset + 4 * width <= size <= 0x400_0000
      && c.buffers < 192 && c.backingBytes + size <= 0x1000_0000
    case DestroyBuffer => IsBuffer(o, id) && !HeldBuffer(o, id)
    case AttachBuffer(buffer, damage) =>
      && IsSurface(o, id) && !o[id].surface.pendingAttach
      && if buffer == 0 then damage == []
         else IsBuffer(o, buffer) && !HeldBuffer(o, buffer) && |damage| <= 8
              && forall r | r in damage :: Inside(r, o[buffer].buffer)
    case Commit(token, frameCallback) =>
      && frameCallback <= 1 && IsSurface(o, id) && o[id].surface.pendingAttach
      && token == LastConfigure(log, conn, id) && Ack(conn, id, token) in acks
      && !(frameCallback == 1 && o[id].surface.framePending)
      && AttachFits(o, o[id].surface, LastAnnounced(log, conn, id))
  }

  // ---- how it is refused otherwise ------------------------------------------------------------

  /** The first check a packet fails before it reaches its request. */
  function Screened(c: Connection, p: Packet, cap: Option<nat>): Option<Refusal> {
    match p
    case Unreadable => Some(Refusal(Malformed, true))
    case Framed(_, serial, major, opcode, payload) =>
      var request, hello := opcode.RequestOp?, opcode.RequestOp? && opcode.hello;
      if cap.Some? != (request && opcode.takesBuffer) then Some(Refusal(Malformed, true))
      else if major != 1 then Some(Refusal(VersionMismatch, true))
      else if serial <= c.lastClientSerial then Some(Refusal(BadSerial, true))
      else if opcode.PolicyOp? then Some(Refusal(AccessDenied, false))
      else if !request then Some(Refusal(BadOpcode, true))
      else if hello != (c.phase == New) then Some(Refusal(BadState, !hello))
      else if payload == Undecodable(true) then Some(Refusal(Malformed, true))
      else if payload == Undecodable(false) then Some(Refusal(BadValue, false))
      else None
  }

  function No(code: ErrorCode): Option<Refusal> { Some(Refusal(code, false)) }

  function NoFormat(format: nat): Option<Refusal> {
    No(if format == 2 then Unsupported else BadValue)
  }

  function NotThere(o: Objects, id: ObjectId): Option<Refusal> { No(if id in o then WrongObjectType else StaleObject) }

  /** The first condition a request fails, in the order they are checked. */
  ghost function Refused(conn: ConnId, c: Connection, log: Log, acks: set<Ack>, id: ObjectId, req: Request, size: nat)
    : Option<Refusal>
  {
    var o := c.objects;
    match req
    case Hello(minMinor, _, offered, required) =>
      if minMinor > 0 then Some(Refusal(VersionMismatch, true))
      else if !(required <= offered) then Some(Refusal(Malformed, true))
      else if !(required <= {0}) then Some(Refusal(Unsupported, true))
      else None
    case Disconnect => None
    case CreateSurface(role, width, height, format) =>
      if id <= c.idWatermark then No(BadValue)
      else if role != 1 then No(Unsupported)
      else if !FormatGranted(c, format) then NoFormat(format)
      else if !SizeGranted(width, height) then No(BadValue)
      else if c.surfaces >= 64 then No(LimitExceeded)
      else None
    case DestroySurface => if IsSurface(o, id) then None else NotThere(o, id)
    case SetTitle(title) =>
      if !IsSurface(o, id) then NotThere(o, id) else if |title| > 160 then No(BadValue) else None
    case SetAppId(appId) =>
      if !IsSurface(o, id) then NotThere(o, id)
      else if |appId| == 0 || |appId| > 128 || exists b | b in appId :: !Letter(b) then No(BadValue)
      else None
    case AckConfigure(token) =>
      if !IsSurface(o, id) then NotThere(o, id)
      else if token != LastConfigure(log, conn, id) || Ack(conn, id, token) in acks then No(BadSerial)
      else None
    case ImportBuffer(width, height, stride, format, offset) =>
      if id <= c.idWatermark then No(BadValue)
      else if !FormatGranted(c, format) then NoFormat(format)
      else if !SizeGranted(width, height) || stride % 4 != 0 || offset % 4 != 0 || stride < 4 * width then No(BadValue)
      else if stride > 16384 || size > 0x400_0000 then No(LimitExceeded)
      else if stride * (height - 1) + offset + 4 * width > size then No(OutOfBounds)
      else if c.buffers >= 192 || c.backingBytes + size > 0x1000_0000 then No(LimitExceeded)
      else None
    case DestroyBuffer =>
      if !IsBuffer(o, id) then NotThere(o, id) else if HeldBuffer(o, id) then No(BusyObject) else None
    case AttachBuffer(buffer, damage) =>
      if !IsSurface(o, id) then NotThere(o, id)
      else if buffer != 0 && !IsBuffer(o, buffer) then NotThere(o, buffer)
      else if o[id].surface.pendingAttach then No(BadState)
      else if buffer == 0 then if damage == [] then None else No(BadValue)
      else if HeldBuffer(o, buffer) then No(BusyObject)
      else if exists r | r in damage :: !Inside(r, o[buffer].buffer) then No(OutOfBounds)
      else if |damage| > 8 then No(LimitExceeded)
      else None
    case Commit(token, frameCallback) =>
      if frameCallback > 1 then No(BadValue)
      else if !IsSurface(o, id) then NotThere(o, id)
      else if !o[id].surface.pendingAttach then No(BadState)
      else if token != LastConfigure(log, conn, id) || Ack(conn, id, token) !in acks then No(BadSerial)
      else if frameCallback == 1 && o[id].surface.framePending then No(BusyObject)
      else if AttachFits(o, o[id].surface, LastAnnounced(log, conn, id)) then None
      else if Countable(LastAnnounced(log, conn, id)) then No(BadValue)
      else No(OutOfBounds)
  }

  /** 32 bits can count the pixels of each side. */
  predicate Countable(e: Option<Event>) {
    && e.Some? && e.value.Configure?
    && e.value.width * e.value.scale < 0x1_0000_0000 && e.value.height * e.value.scale < 0x1_0000_0000
  }

  ghost function Answer(conn: ConnId, c: Connection, log: Log, acks: set<Ack>, p: Packet, cap: Option<nat>)
    : Option<Refusal>
  {
    if Screened(c, p, cap).Some? then Screened(c, p, cap)
    else match p
      case Unreadable => None
      case Framed(id, _, _, _, payload) =>
        if payload.Undecodable? then None
        else Refused(conn, c, log, acks, id, payload.request, if cap.Some? then cap.value else 0)
  }

  // ---- the reply says so ------------------------------------------------------------------------

  predicate Grant(e: Event, serial: nat) { (e.Result? || e.Welcome?) && e.request == serial }

  ghost predicate Verdict(k: Call, r: Reply, answer: Option<Refusal>) {
    match answer
    case Some(no) => r == Refuse(k, no.code, no.fatal)
    case None =>
      && (exists i | 0 <= i < |r.emits| :: Grant(r.emits[i].event, k.serial))
      && forall i | 0 <= i < |r.emits| :: !r.emits[i].event.Error?
  }

  lemma LettersAre(b: u8)
    ensures Letter(b) <==> AppIdByte(b)
  {
  }

  lemma PlainVerdict(k: Call, log: Log, acks: set<Ack>, req: Request, cap: Option<nat>)
    requires req.Hello? || req.Disconnect? || req.CreateSurface? || req.SetTitle? || req.SetAppId?
    ensures Verdict(k, Dispatch(k, req, cap),
                    Refused(k.connId, k.conn, log, acks, k.id, req, if cap.Some? then cap.value else 0))
  {
    hide Letter, AppIdByte, LastConfigure, LastAnnounced;
    var r := Dispatch(k, req, cap);
    forall b: u8
      ensures Letter(b) <==> AppIdByte(b)
    {
      LettersAre(b);
    }
    assert Accepted(r) ==> Grant(r.emits[0].event, k.serial);
  }

  lemma ImportVerdict(k: Call, log: Log, acks: set<Ack>, req: Request, cap: Option<nat>)
    requires req.ImportBuffer?
    ensures Verdict(k, Dispatch(k, req, cap),
                    Refused(k.connId, k.conn, log, acks, k.id, req, if cap.Some? then cap.value else 0))
  {
    hide LastConfigure, LastAnnounced;
    var r := Dispatch(k, req, cap);
    assert Accepted(r) ==> Grant(r.emits[0].event, k.serial);
  }

  lemma HeldIff(c: Connection, owner: map<ObjectId, ObjectId>, b: ObjectId)
    requires ConnOk(c, owner) && IsBuffer(c.objects, b)
    ensures HeldBuffer(c.objects, b) <==> c.objects[b].buffer.state != Available
  {
    hide CountsOk, OwnOk, Reserves, Commits;
    Ownership(c.objects, owner, b);
  }

  lemma BufferVerdict(k: Call, owner: map<ObjectId, ObjectId>, log: Log, acks: set<Ack>, req: Request,
                      cap: Option<nat>)
    requires ConnOk(k.conn, owner) && (req.DestroyBuffer? || req.AttachBuffer?)
    ensures Verdict(k, Dispatch(k, req, cap),
                    Refused(k.connId, k.conn, log, acks, k.id, req, if cap.Some? then cap.value else 0))
  {
    hide LastConfigure, LastAnnounced, HeldBuffer, ConnOk;
    var r := Dispatch(k, req, cap);
    var b := if req.AttachBuffer? then req.buffer else k.id;
    if IsBuffer(k.conn.objects, b) {
      HeldIff(k.conn, owner, b);
      assert forall x: Rect :: RectOk(x, k.conn.objects[b].buffer) <==> Inside(x, k.conn.objects[b].buffer);
    }
    assert Accepted(r) ==> Grant(r.emits[0].event, k.serial);
  }

  lemma AckVerdict(k: Call, log: Log, acks: set<Ack>, req: Request, cap: Option<nat>)
    requires req.AckConfigure?
    requires IsSurface(k.conn.objects, k.id) ==> InStep(k.connId, k.id, k.conn.objects[k.id].surface, log, acks)
    ensures Verdict(k, Dispatch(k, req, cap),
                    Refused(k.connId, k.conn, log, acks, k.id, req, if cap.Some? then cap.value else 0))
  {
    hide LastConfigure, LastAnnounced;
    var r := Dispatch(k, req, cap);
    assert Accepted(r) ==> Grant(r.emits[0].event, k.serial);
  }

  lemma LeavesSound(seat: Seat, t: Target)
    ensures forall i | 0 <= i < |Leaves(seat, t)| :: !Leaves(seat, t)[i].event.Error?
  {
  }

  lemma DestroyVerdict(k: Call, log: Log, acks: set<Ack>, cap: Option<nat>)
    ensures Verdict(k, Dispatch(k, DestroySurface, cap),
                    Refused(k.connId, k.conn, log, acks, k.id, DestroySurface, if cap.Some? then cap.value else 0))
  {
    hide LastConfigure, LastAnnounced, Released, DropSurface, Leaves;
    var r := Dispatch(k, DestroySurface, cap);
    LeavesSound(k.seat, Target(k.connId, k.id));
    if IsSurface(k.conn.objects, k.id) {
      assert Grant(r.emits[|r.emits| - 1].event, k.serial);
    }
  }

  /** The token counts as ready when the last CONFIGURE is acknowledged. */
  lemma CommitChecked(k: Call, owner: map<ObjectId, ObjectId>, log: Log, acks: set<Ack>, token: nat, frameCallback: nat)
    requires ConnOk(k.conn, owner)
    requires IsSurface(k.conn.objects, k.id) ==> InStep(k.connId, k.id, k.conn.objects[k.id].surface, log, acks)
    ensures var no := Refused(k.connId, k.conn, log, acks, k.id, Commit(token, frameCallback), 0);
      match CheckCommit(k, token, frameCallback)
      case None => no == None
      case Some(code) => no == Some(Refusal(code, false))
  {
    hide LastConfigure, LastAnnounced, CountsOk;
    if IsSurface(k.conn.objects, k.id) {
      assert ObjectOk(k.conn.objects, owner, k.id);
    }
  }

  lemma CommitVerdict(k: Call, owner: map<ObjectId, ObjectId>, log: Log, acks: set<Ack>, req: Request, cap: Option<nat>)
    requires ConnOk(k.conn, owner) && req.Commit?
    requires IsSurface(k.conn.objects, k.id) ==> InStep(k.connId, k.id, k.conn.objects[k.id].surface, log, acks)
    ensures Verdict(k, Dispatch(k, req, cap),
                    Refused(k.connId, k.conn, log, acks, k.id, req, if cap.Some? then cap.value else 0))
  {
    hide LastConfigure, LastAnnounced, ConnOk, InStep, CheckCommit, Released, DropSurface, AttachFits, Countable,
         Leaves;
    var r := Dispatch(k, req, cap);
    LeavesSound(k.seat, Target(k.connId, k.id));
    CommitChecked(k, owner, log, acks, req.token, req.frameCallback);
    if CheckCommit(k, req.token, req.frameCallback).None? {
      assert Grant(r.emits[0].event, k.serial);
    }
  }

  lemma DispatchVerdict(k: Call, owner: map<ObjectId, ObjectId>, log: Log, acks: set<Ack>, req: Request,
                        cap: Option<nat>)
    requires ConnOk(k.conn, owner)
    requires IsSurface(k.conn.objects, k.id) ==> InStep(k.connId, k.id, k.conn.objects[k.id].surface, log, acks)
    ensures Verdict(k, Dispatch(k, req, cap),
                    Refused(k.connId, k.conn, log, acks, k.id, req, if cap.Some? then cap.value else 0))
  {
    hide Verdict, Dispatch, Refused, ConnOk, InStep;
    match req {
      case ImportBuffer(_, _, _, _, _) => ImportVerdict(k, log, acks, req, cap);
      case DestroyBuffer => BufferVerdict(k, owner, log, acks, req, cap);
      case AttachBuffer(_, _) => BufferVerdict(k, owner, log, acks, req, cap);
      case AckConfigure(_) => AckVerdict(k, log, acks, req, cap);
      case DestroySurface => DestroyVerdict(k, log, acks, cap);
      case Commit(_, _) => CommitVerdict(k, owner, log, acks, req, cap);
      case _ => PlainVerdict(k, log, acks, req, cap);
    }
  }

  // ---- what the client sees -----------------------------------------------------------------------

  /** What a packet is answered with: one ERROR, fatal or not, or RESULT or
      WELCOME and no error at all. A fatal error closes the connection. */
  ghost predicate Answered(conn: ConnId, base: nat, p: Packet, es: Log, answer: Option<Refusal>) {
    var id, serial := if p.Framed? then p.id else 0, if p.Framed? then p.serial else 0;
    match answer
    case Some(no) =>
      es == [Sent(conn, base, Emit(id, Error(serial, no.code, no.fatal)))] + if no.fatal then [Lost(conn)] else []
    case None =>
      && (exists i | 0 <= i < |es| && es[i].Sent? :: es[i].conn == conn && Grant(es[i].emit.event, serial))
      && forall i | 0 <= i < |es| && es[i].Sent? :: !es[i].emit.event.Error?
  }

  lemma StageIs(c: Connection, nextClient: nat, seat: Seat, conn: ConnId, now: nat, p: Packet, cap: Option<nat>)
    requires c.phase != Closed
    ensures var st := Stage(c, nextClient, seat, conn, now, p, cap);
      match Screened(c, p, cap)
      case Some(no) =>
        && st.Rejected?
        && st.reply.emits == [Emit(if p.Framed? then p.id else 0,
                                   Error(if p.Framed? then p.serial else 0, no.code, no.fatal))]
        && st.reply.close == no.fatal
      case None =>
        && p.Framed? && p.payload.Decoded?
        && st == Passed(Call(c.(lastClientSerial := p.serial), nextClient, seat, conn, now, p.id, p.serial),
                        p.payload.request)
    ensures Screened(c, p, cap).None? <==> Passes(c, p, cap)
  {
  }

  lemma ReplyAnswers(s: State, conn: ConnId, p: Packet, r: Reply, owed: Option<Debt>, answer: Option<Refusal>)
    requires conn in s.conns && (owed.Some? ==> answer.None?)
    requires match answer
      case Some(no) =>
        && r.emits == [Emit(if p.Framed? then p.id else 0,
                            Error(if p.Framed? then p.serial else 0, no.code, no.fatal))]
        && r.close == no.fatal
      case None =>
        && p.Framed? && (exists i | 0 <= i < |r.emits| :: Grant(r.emits[i].event, p.serial))
        && forall i | 0 <= i < |r.emits| :: !r.emits[i].event.Error?
    ensures Answered(conn, s.conns[conn].nextServerSerial, p,
                     OwedEntry(conn, owed) + Sends(conn, s.conns[conn].nextServerSerial, r.emits)
                     + if r.close then [Lost(conn)] else [], answer)
  {
    var base, d := s.conns[conn].nextServerSerial, |OwedEntry(conn, owed)|;
    var es := OwedEntry(conn, owed) + Sends(conn, base, r.emits) + if r.close then [Lost(conn)] else [];
    if answer.None? {
      var i :| 0 <= i < |r.emits| && Grant(r.emits[i].event, p.serial);
      assert es[d + i] == Sent(conn, base + i, r.emits[i]);
      forall j | 0 <= j < |es| && es[j].Sent?
        ensures !es[j].emit.event.Error?
      {
        assert es[j] == Sent(conn, base + (j - d), r.emits[j - d]);
      }
    }
  }

  lemma GrantsIff(conn: ConnId, c: Connection, log: Log, acks: set<Ack>, id: ObjectId, req: Request, size: nat)
    ensures Refused(conn, c, log, acks, id, req, size).None? <==> Grants(conn, c, log, acks, id, req, size)
  {
    hide HeldBuffer, LastConfigure, LastAnnounced;
  }

  /** Every packet on a live connection is granted exactly when it passes and its
      request is granted, and is refused with the error of the first condition
      it fails. */
  lemma AnswerIff(s: State, owners: Owners, log: Log, acks: set<Ack>, conn: ConnId, p: Packet, cap: Option<nat>)
    requires Inv(s, owners, log) && Tokens(s, log, acks) && Alive(s, conn)
    ensures var c := s.conns[conn];
      Answered(conn, c.nextServerSerial, p, DoDeliver(s, conn, p, cap).entries, Answer(conn, c, log, acks, p, cap))
    ensures var c := s.conns[conn];
      Answer(conn, c, log, acks, p, cap).None? <==>
        && Passes(c, p, cap)
        && Grants(conn, c, log, acks, p.id, p.payload.request, if cap.Some? then cap.value else 0)
  {
    hide Inv, Tokens, Refused, Grants, Stage, Dispatch, Screened, Opened, Sends, DropConn, Verdict, Answered, Passes,
         InStep;
    var c := s.conns[conn];
    StageIs(c, s.nextClient, s.seat, conn, s.now, p, cap);
    var st := Stage(c, s.nextClient, s.seat, conn, s.now, p, cap);
    match st {
      case Rejected(r) => ReplyAnswers(s, conn, p, r, None, Answer(conn, c, log, acks, p, cap));
      case Passed(k, req) =>
        PassedAnswers(s, owners, log, acks, k, req, p, cap);
        GrantsIff(conn, c, log, acks, p.id, req, if cap.Some? then cap.value else 0);
    }
  }

  lemma SameConn(conn: ConnId, c: Connection, serial: nat, log: Log, acks: set<Ack>, id: ObjectId, req: Request,
                 size: nat)
    ensures Refused(conn, c.(lastClientSerial := serial), log, acks, id, req, size) ==
      Refused(conn, c, log, acks, id, req, size)
  {
    hide HeldBuffer, LastConfigure, LastAnnounced;
  }

  lemma PassedAnswers(s: State, owners: Owners, log: Log, acks: set<Ack>, k: Call, req: Request, p: Packet,
                      cap: Option<nat>)
    requires Inv(s, owners, log) && Tokens(s, log, acks) && Alive(s, k.connId) && p.Framed?
    requires k.conn == s.conns[k.connId].(lastClientSerial := p.serial) && k.id == p.id && k.serial == p.serial
    ensures var r := Dispatch(k, req, cap);
      Answered(k.connId, s.conns[k.connId].nextServerSerial, p,
               OwedEntry(k.connId, Opened(k, req, r))
               + Sends(k.connId, s.conns[k.connId].nextServerSerial, r.emits)
               + if r.close then [Lost(k.connId)] else [],
               Refused(k.connId, s.conns[k.connId], log, acks, p.id, req, if cap.Some? then cap.value else 0))
  {
    hide Inv, Tokens, Refused, Dispatch, Sends, Answered, InStep, ConnOk;
    var size := if cap.Some? then cap.value else 0;
    var answer := Refused(k.connId, k.conn, log, acks, k.id, req, size);
    SameConn(k.connId, s.conns[k.connId], p.serial, log, acks, k.id, req, size);
    PassedOk(s, owners, log, k.connId, p.serial);
    if IsSurface(k.conn.objects, k.id) {
      TokensInStep(s, owners, log, acks, k.connId, k.id);
    }
    DispatchVerdict(k, owners[k.connId], log, acks, req, cap);
    var r := Dispatch(k, req, cap);
    ReplyAnswers(s, k.connId, p, r, Opened(k, req, r), answer);
  }

  lemma PassedOk(s: State, owners: Owners, log: Log, conn: ConnId, serial: nat)
    requires Inv(s, owners, log) && conn in s.conns
    ensures conn in owners && ConnOk(s.conns[conn].(lastClientSerial := serial), owners[conn])
  {
    hide OwnOk, Total, SeatInv, LogOk;
  }

  // ---- what a granted packet does ---------------------------------------------------------------------

  ghost predicate HeldBy(o: Objects, s: ObjectId, b: ObjectId) { Reserves(o, s, b) || Commits(o, s, b) }

  function Freed(b: Buffer): Buffer { b.(state := Available, commitToken := 0) }

  /** The buffers a surface lets go of when it is destroyed. */
  ghost predicate Destroyed(o: Objects, o': Objects, id: ObjectId) {
    && o'.Keys == o.Keys - {id}
    && forall x | x in o' ::
         o'[x] == if o[x].Buf? && HeldBy(o, id, x) then Buf(Freed(o[x].buffer)) else o[x]
  }

  ghost predicate Attached(o: Objects, o': Objects, id: ObjectId, buffer: ObjectId) {
    && o'.Keys == o.Keys && IsSurface(o, id)
    && forall x | x in o' ::
         o'[x] ==
           if x == id then Surf(o[x].surface.(pendingAttach := true, pendingBuffer := buffer))
           else if x == buffer && o[x].Buf? then Buf(o[x].buffer.(state := Pending))
           else o[x]
  }

  /** The pending buffer, if any, is shown from now on; the one shown before is
      free; a callback stays due only while something is shown. */
  ghost predicate Committed(o: Objects, o': Objects, id: ObjectId, serial: nat, frameCallback: nat) {
    && o'.Keys == o.Keys && IsSurface(o, id) && IsSurface(o', id)
    && var f, g := o[id].surface, o'[id].surface;
       var shown := f.pendingBuffer;
       && !g.pendingAttach && g.pendingBuffer == 0 && g.committedBuffer == shown && (g.mapped <==> shown != 0)
       && g.committedToken == (if shown == 0 then 0 else serial)
       && (g.framePending <==> shown != 0 && (f.framePending || frameCallback == 1))
       && (g.framePending ==> g.frameToken == if frameCallback == 1 then serial else f.frameToken)
       && SameTokens(f, g) && f.format == g.format
       && forall x | x in o' && x != id ::
            o'[x] ==
              if o[x].Buf? && x == shown then Buf(o[x].buffer.(state := Busy, commitToken := serial))
              else if o[x].Buf? && Commits(o, id, x) then Buf(Freed(o[x].buffer))
              else o[x]
  }

  ghost predicate Created(o: Objects, o': Objects, id: ObjectId, width: nat, height: nat, format: nat) {
    && IsSurface(o', id) && o' == o[id := o'[id]]
    && var f := o'[id].surface;
       && f.width == width && f.height == height && f.format == format && f.scale == 1 && f.state == 1
       && !f.pendingAttach && !f.mapped && !f.framePending && f.pendingBuffer == 0 && f.committedBuffer == 0
  }

  ghost predicate Welcomed(c': Connection, offered: set<nat>, nextClient: nat) {
    c'.phase == Active && c'.clientId == nextClient && c'.features <= {0} && (0 in c'.features <==> 0 in offered)
  }

  /** The connection after a granted request. */
  ghost predicate Effect(c: Connection, c': Connection, nextClient: nat, id: ObjectId, serial: nat, req: Request,
                         size: nat) {
    var o, o' := c.objects, c'.objects;
    && c'.idWatermark == (if req.CreateSurface? || req.ImportBuffer? then id else c.idWatermark)
    && c'.lastClientSerial == serial
    && match req
       case Hello(_, _, offered, _) => o' == o && Welcomed(c', offered, nextClient)
       case Disconnect => o' == o && c'.phase == Closed
       case CreateSurface(_, width, height, format) => Created(o, o', id, width, height, format)
       case DestroySurface => Destroyed(o, o', id)
       case SetTitle(_) => o' == o
       case SetAppId(_) => o' == o
       case AckConfigure(token) => IsSurface(o, id) && o' == o[id := Surf(o[id].surface.(ackedToken := token))]
       case ImportBuffer(width, height, _, format, _) =>
         o' == o[id := Buf(Buffer(width, height, format, size, Available, 0))]
       case DestroyBuffer => o' == o - {id}
       case AttachBuffer(buffer, _) => Attached(o, o', id, buffer)
       case Commit(_, frameCallback) => Committed(o, o', id, serial, frameCallback)
  }

  lemma DestroyedIs(k: Call, owner: map<ObjectId, ObjectId>)
    requires ConnOk(k.conn, owner) && IsSurface(k.conn.objects, k.id)
    ensures Destroyed(k.conn.objects, DoDestroySurface(k).conn.objects, k.id)
  {
    hide CountsOk, Leaves, DropSurface;
    HeldAreBuffers(k.conn.objects, owner, k.id);
  }

  lemma CommittedIs(k: Call, owner: map<ObjectId, ObjectId>, token: nat, frameCallback: nat)
    requires ConnOk(k.conn, owner) && CheckCommit(k, token, frameCallback).None?
    ensures Committed(k.conn.objects, DoCommit(k, token, frameCallback).conn.objects, k.id, k.serial, frameCallback)
  {
    hide CountsOk, Leaves, DropSurface;
    assert ObjectOk(k.conn.objects, owner, k.id);
  }

  lemma AttachedIs(k: Call, owner: map<ObjectId, ObjectId>, buffer: ObjectId, damage: seq<Rect>)
    requires ConnOk(k.conn, owner) && Accepted(DoAttach(k, buffer, damage))
    ensures Attached(k.conn.objects, DoAttach(k, buffer, damage).conn.objects, k.id, buffer)
  {
    hide CountsOk, RectOk, ObjectOk;
  }

  lemma DispatchEffect(k: Call, owner: map<ObjectId, ObjectId>, req: Request, cap: Option<nat>, c': Connection)
    requires ConnOk(k.conn, owner) && Accepted(Dispatch(k, req, cap)) && k.conn.lastClientSerial == k.serial
    requires var r := Dispatch(k, req, cap); c' == r.conn.(phase := if r.close then Closed else r.conn.phase,
                                                           nextServerSerial := r.conn.nextServerSerial + |r.emits|)
    ensures Effect(k.conn, c', k.nextClient, k.id, k.serial, req, if cap.Some? then cap.value else 0)
  {
    hide ConnOk, Leaves, DropSurface, Released, DoDestroySurface, DoCommit, Destroyed, Committed, Attached, RectOk,
         AppIdOk;
    match req {
      case DestroySurface =>
        DestroyAccepted(k);
        DestroyedIs(k, owner);
        DestroyRest(k);
      case Commit(token, frameCallback) =>
        CommitRest(k, token, frameCallback);
        CommittedIs(k, owner, token, frameCallback);
      case AttachBuffer(buffer, damage) => AttachedIs(k, owner, buffer, damage);
      case _ =>
    }
  }

  lemma DestroyRest(k: Call)
    ensures var r := DoDestroySurface(k);
      r.conn.idWatermark == k.conn.idWatermark && r.conn.lastClientSerial == k.conn.lastClientSerial
  {
    hide Leaves, DropSurface, Released;
  }

  lemma CommitRest(k: Call, token: nat, frameCallback: nat)
    requires Accepted(DoCommit(k, token, frameCallback))
    ensures CheckCommit(k, token, frameCallback).None?
    ensures var r := DoCommit(k, token, frameCallback);
      r.conn.idWatermark == k.conn.idWatermark && r.conn.lastClientSerial == k.conn.lastClientSerial
  {
    hide Leaves, DropSurface, Released;
  }

  /** What the events of a granted packet say: WELCOME names the client and its
      features, and a callback that ends here is discarded now. */
  ghost predicate Tells(c': Connection, now: nat, e: Event) {
    match e
    case Welcome(_, clientId, features) => clientId == c'.clientId && features == c'.features
    case FrameDone(_, time, status) => time == now && status == 1
    case _ => true
  }

  ghost predicate AllTell(c': Connection, now: nat, emits: seq<Emit>) {
    forall i | 0 <= i < |emits| :: Tells(c', now, emits[i].event)
  }

  lemma LeavesTell(c': Connection, now: nat, seat: Seat, t: Target)
    ensures AllTell(c', now, Leaves(seat, t))
  {
  }

  lemma DestroyTells(k: Call)
    ensures AllTell(DoDestroySurface(k).conn, k.now, DoDestroySurface(k).emits)
  {
    hide Leaves, DropSurface, Released;
    LeavesTell(DoDestroySurface(k).conn, k.now, k.seat, Target(k.connId, k.id));
  }

  lemma CommitTells(k: Call, token: nat, frameCallback: nat)
    ensures var r := DoCommit(k, token, frameCallback); AllTell(r.conn, k.now, r.emits)
  {
    hide Leaves, DropSurface, Released;
    LeavesTell(DoCommit(k, token, frameCallback).conn, k.now, k.seat, Target(k.connId, k.id));
  }

  lemma DispatchTells(k: Call, req: Request, cap: Option<nat>)
    ensures AllTell(Dispatch(k, req, cap).conn, k.now, Dispatch(k, req, cap).emits)
  {
    hide DoDestroySurface, DoCommit, RectOk, AppIdOk;
    match req {
      case DestroySurface => DestroyTells(k);
      case Commit(token, frameCallback) => CommitTells(k, token, frameCallback);
      case _ =>
    }
  }

  /** A granted packet has its effect, and its events say what it did. */
  lemma GrantedEffect(s: State, owners: Owners, log: Log, acks: set<Ack>, conn: ConnId, p: Packet, cap: Option<nat>)
    requires Inv(s, owners, log) && Tokens(s, log, acks) && Alive(s, conn)
    requires Answer(conn, s.conns[conn], log, acks, p, cap).None?
    ensures p.Framed? && p.payload.Decoded?
    ensures var o := DoDeliver(s, conn, p, cap);
      && Effect(s.conns[conn], o.state.conns[conn], s.nextClient, p.id, p.serial, p.payload.request,
                if cap.Some? then cap.value else 0)
      && (forall i | 0 <= i < |o.entries| && o.entries[i].Sent? ::
            Tells(o.state.conns[conn], s.now, o.entries[i].emit.event))
  {
    hide Inv, Tokens, Refused, Stage, Dispatch, Screened, Opened, DropConn, Verdict, InStep, Effect, Tells, ConnOk;
    var c := s.conns[conn];
    StageIs(c, s.nextClient, s.seat, conn, s.now, p, cap);
    var k := Call(c.(lastClientSerial := p.serial), s.nextClient, s.seat, conn, s.now, p.id, p.serial);
    var req := p.payload.request;
    var size := if cap.Some? then cap.value else 0;
    PassedOk(s, owners, log, conn, p.serial);
    SameConn(conn, c, p.serial, log, acks, p.id, req, size);
    if IsSurface(k.conn.objects, k.id) {
      TokensInStep(s, owners, log, acks, conn, k.id);
    }
    DispatchVerdict(k, owners[conn], log, acks, req, cap);
    VerdictAccepts(k, Dispatch(k, req, cap));
    var o := DoDeliver(s, conn, p, cap);
    DispatchEffect(k, owners[conn], req, cap, o.state.conns[conn]);
    EffectFrom(c, k.conn, o.state.conns[conn], s.nextClient, p.id, p.serial, req, size);
    DispatchTells(k, req, cap);
    BatchTells(s, k, req, cap, o);
  }

  lemma VerdictAccepts(k: Call, r: Reply)
    requires Verdict(k, r, None)
    ensures Accepted(r)
  {
  }

  lemma EffectFrom(c: Connection, d: Connection, c': Connection, nextClient: nat, id: ObjectId, serial: nat,
                   req: Request, size: nat)
    requires d == c.(lastClientSerial := serial) && Effect(d, c', nextClient, id, serial, req, size)
    ensures Effect(c, c', nextClient, id, serial, req, size)
  {
    hide Created, Destroyed, Attached, Committed, Welcomed;
  }

  lemma BatchTells(s: State, k: Call, req: Request, cap: Option<nat>, o: Outcome)
    requires var r := Dispatch(k, req, cap); k.connId in s.conns && Packeted(s, k.connId, r, Opened(k, req, r), o)
    requires AllTell(Dispatch(k, req, cap).conn, k.now, Dispatch(k, req, cap).emits)
    requires var c, d := o.state.conns[k.connId], Dispatch(k, req, cap).conn;
      c.clientId == d.clientId && c.features == d.features
    ensures forall i | 0 <= i < |o.entries| && o.entries[i].Sent? ::
      Tells(o.state.conns[k.connId], k.now, o.entries[i].emit.event)
  {
    hide Dispatch, Opened;
    var r := Dispatch(k, req, cap);
    var d := |OwedEntry(k.connId, Opened(k, req, r))|;
    forall i | 0 <= i < |o.entries| && o.entries[i].Sent?
      ensures Tells(o.state.conns[k.connId], k.now, o.entries[i].emit.event)
    {
      assert o.entries[i].emit == r.emits[i - d];
    }
  }

  // ---- composition ----------------------------------------------------------------------------------------

  /** Every event is a callback presented now. */
  ghost predicate AllPresented(es: Log, now: nat) {
    forall i | 0 <= i < |es| :: es[i].Sent? && es[i].emit.event.FrameDone?
      && es[i].emit.event.time == now && es[i].emit.event.status == 0
  }

  lemma {:induction false} DonesPresented(o: Objects, now: nat, n: nat)
    requires forall id | IsSurface(o, id) && o[id].surface.framePending :: o[id].surface.mapped
    ensures forall i | 0 <= i < |FrameDones(o, now, n)| ::
      var e := FrameDones(o, now, n)[i].event; e.FrameDone? && e.time == now && e.status == 0
  {
    if n > 0 {
      DonesPresented(o, now, n - 1);
    }
  }

  lemma PendingMapped(s: State, owners: Owners, log: Log, conn: ConnId)
    requires Inv(s, owners, log) && conn in s.conns
    ensures var o := s.conns[conn].objects;
      forall id | IsSurface(o, id) && o[id].surface.framePending :: o[id].surface.mapped
  {
    hide Inv, Open, OwedIn, PaidIn;
    InvPays(s, owners, log, conn, BufferDebt(0));
  }

  lemma {:induction false} CompositePresents(s: State, owners: Owners, log: Log, n: nat)
    requires Inv(s, owners, log)
    ensures CompositeBelow(s, n).state.now == s.now && AllPresented(CompositeBelow(s, n).entries, s.now)
  {
    hide Inv, FrameDones, Presented;
    if n > 0 {
      CompositePresents(s, owners, log, n - 1);
      CompositeStep(s, owners, log, n - 1);
      var a := CompositeBelow(s, n - 1);
      if n - 1 in a.state.conns {
        var c := a.state.conns[n - 1];
        PendingMapped(a.state, owners, log + a.entries, n - 1);
        DonesPresented(c.objects, a.state.now, c.idWatermark + 1);
      }
    }
  }

  // ---- one packet, all told ------------------------------------------------------------------------------

  /** A packet on a live connection is granted or refused as the objects and the
      history say; if granted it has its effect and its events say so. */
  ghost predicate Handled(s: State, log: Log, acks: set<Ack>, conn: ConnId, p: Packet, cap: Option<nat>, o: Outcome) {
    Alive(s, conn) ==>
      var c, size := s.conns[conn], if cap.Some? then cap.value else 0;
      var answer := Answer(conn, c, log, acks, p, cap);
      && Answered(conn, c.nextServerSerial, p, o.entries, answer)
      && (answer.None? <==> Passes(c, p, cap) && Grants(conn, c, log, acks, p.id, p.payload.request, size))
      && (answer.None? ==>
           && conn in o.state.conns
           && Effect(c, o.state.conns[conn], s.nextClient, p.id, p.serial, p.payload.request, size)
           && forall i | 0 <= i < |o.entries| && o.entries[i].Sent? ::
                Tells(o.state.conns[conn], s.now, o.entries[i].emit.event))
  }

  lemma DeliverHandled(s: State, owners: Owners, log: Log, acks: set<Ack>, conn: ConnId, p: Packet, cap: Option<nat>)
    requires Inv(s, owners, log) && Tokens(s, log, acks)
    ensures Handled(s, log, acks, conn, p, cap, Step(s, Deliver(conn, p, cap)))
  {
    hide Inv, Tokens, Answer, Answered, Grants, DoDeliver, Effect, Tells, Passes;
    if Alive(s, conn) {
      AnswerIff(s, owners, log, acks, conn, p, cap);
      if Answer(conn, s.conns[conn], log, acks, p, cap).None? {
        GrantedEffect(s, owners, log, acks, conn, p, cap);
        DeliverKeepsConn(s, conn, p, cap);
      }
    }
  }

  lemma DeliverKeepsConn(s: State, conn: ConnId, p: Packet, cap: Option<nat>)
    requires Alive(s, conn)
    ensures conn in DoDeliver(s, conn, p, cap).state.conns
  {
    hide Stage, Pipeline;
  }

  /** So it is after every run. */
  lemma EveryAnswer(inputs: seq<Input>, conn: ConnId, p: Packet, cap: Option<nat>)
    requires Legal(inputs)
    ensures var r := Run(inputs);
      Handled(r.state, r.entries, Acks(inputs), conn, p, cap, Step(r.state, Deliver(conn, p, cap)))
  {
    hide Run, Acks, Inv, Tokens, Handled, Step;
    var owners := RunTokens(inputs);
    DeliverHandled(Run(inputs).state, owners, Run(inputs).entries, Acks(inputs), conn, p, cap);
  }
}
