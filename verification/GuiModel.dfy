/** GUI protocol v1 reference server: connections, objects, the input seat, and
    the reply of every request as a value. Wire framing is abstract: a packet is
    already split into its header fields and a decoded payload. */
module GuiModel {
  import opened Bytes

  const HELLO_TIMEOUT_NS: nat := 5_000_000_000
  const MAX_CONNECTIONS: nat := 64
  const MAX_SURFACES: nat := 64
  const MAX_BUFFERS: nat := 192
  const MAX_BACKING_BYTES: nat := 64 * 1024 * 1024
  const MAX_BACKING_BYTES_CONN: nat := 256 * 1024 * 1024
  const MAX_STRIDE: nat := 16384
  const MAX_TITLE_BYTES: nat := 160
  const MAX_APP_ID_BYTES: nat := 128
  const MAX_TEXT_BYTES: nat := 160
  const MAX_HELD_KEYS: nat := 256
  const MAX_DAMAGE_RECTS: nat := 8
  const DIM_MIN: nat := 1
  const DIM_MAX: nat := 4096
  const VERSION_MAJOR: nat := 1
  const VERSION_MINOR: nat := 0
  const FORMAT_XRGB8888: nat := 1
  const FORMAT_ARGB8888: nat := 2
  const ROLE_TOPLEVEL: nat := 1
  const FRAME_PRESENTED: nat := 0
  const FRAME_DISCARDED: nat := 1
  const STATE_ACTIVATED: nat := 1
  const U32: nat := 0x1_0000_0000

  /** Feature masks as sets of bit numbers; ARGB8888 is bit 0. */
  const ARGB: nat := 0

  type ConnId = nat
  type ObjectId = nat
  datatype Target = Target(conn: ConnId, surface: ObjectId)

  // ---- objects ------------------------------------------------------------------------

  datatype BufState = Available | Pending | Busy

  datatype Buffer = Buffer(width: nat, height: nat, format: nat, backing: nat, state: BufState, commitToken: nat)

  datatype Surface = Surface(
    format: nat, width: nat, height: nat, scale: nat, state: nat,
    latestToken: nat, ackedToken: nat,
    pendingAttach: bool, pendingBuffer: ObjectId,
    committedBuffer: ObjectId, committedToken: nat,
    mapped: bool, framePending: bool, frameToken: nat)
  {
    predicate ConfigureReady(token: nat) { token == latestToken && ackedToken == latestToken }
  }

  function NewSurface(format: nat, width: nat, height: nat, token: nat): Surface {
    Surface(format, width, height, 1, STATE_ACTIVATED, token, 0, false, 0, 0, 0, false, false, 0)
  }

  datatype Object = Surf(surface: Surface) | Buf(buffer: Buffer)

  type Objects = map<ObjectId, Object>

  datatype Phase = New | Active | Closed

  datatype Connection = Connection(
    phase: Phase, created: nat, lastClientSerial: nat, nextServerSerial: nat,
    features: set<nat>, clientId: nat,
    objects: Objects, idWatermark: ObjectId,
    surfaces: int, buffers: int, backingBytes: int)

  function NewConnection(now: nat): Connection {
    Connection(New, now, 0, 1, {}, 0, map[], 0, 0, 0, 0)
  }

  /** The single input seat. */
  datatype Seat = Seat(
    pointerFocus: Option<Target>, keyboardFocus: Option<Target>, grab: Option<Target>,
    buttons: seq<nat>, heldKeys: seq<nat>, modifiers: nat)

  // ---- messages -------------------------------------------------------------------------

  datatype ErrorCode =
    | Malformed | VersionMismatch | BadOpcode | BadState | StaleObject | WrongObjectType | BadSerial
    | BadValue | Unsupported | AccessDenied | OutOfBounds | BusyObject | LimitExceeded

  datatype Rect = Rect(x: int, y: int, w: nat, h: nat)

  datatype Request =
    | Hello(minMinor: nat, maxMinor: nat, offered: set<nat>, required: set<nat>)
    | Disconnect
    | CreateSurface(role: nat, width: nat, height: nat, format: nat)
    | DestroySurface
    | SetTitle(title: seq<u8>)
    | SetAppId(appId: seq<u8>)
    | AckConfigure(configure: nat)
    | ImportBuffer(bufWidth: nat, bufHeight: nat, stride: nat, bufFormat: nat, offset: nat)
    | DestroyBuffer
    | AttachBuffer(buffer: ObjectId, damage: seq<Rect>)
    | Commit(token: nat, frameCallback: nat)

  datatype Event =
    | Welcome(request: nat, clientId: nat, features: set<nat>)
    | Result(request: nat)
    | Error(request: nat, code: ErrorCode, fatal: bool)
    | Configure(width: nat, height: nat, scale: nat, state: nat)
    | BufferRelease(commit: nat)
    | FrameDone(commit: nat, time: nat, status: nat)
    | PointerEnter(x: int, y: int)
    | PointerLeave
    | PointerMotion(time: nat, x: int, y: int)
    | PointerButton(time: nat, button: nat, pressed: bool)
    | PointerAxis(time: nat, dx: int, dy: int)
    | KeyEnter(modifiers: nat)
    | KeyLeave
    | Key(time: nat, usage: nat, pressed: bool, modifiers: nat, repeat: bool)
    | TextInput(time: nat, text: seq<u8>)

  /** An event with the object its header names. */
  datatype Emit = Emit(id: ObjectId, event: Event)

  /** What an opcode number means to the server. */
  datatype Opcode = RequestOp(hello: bool, takesBuffer: bool) | EventOp | PolicyOp | UnknownOp

  datatype Payload = Decoded(request: Request) | Undecodable(malformed: bool)

  datatype Packet =
    | Unreadable
    | Framed(id: ObjectId, serial: nat, major: nat, opcode: Opcode, payload: Payload)

  /** The opcode of a decoded payload is that of its request. */
  ghost predicate PacketOk(p: Packet) {
    p.Framed? && p.payload.Decoded? ==>
      p.opcode == RequestOp(p.payload.request.Hello?, p.payload.request.ImportBuffer?)
  }

  // ---- checks -----------------------------------------------------------------------------

  predicate DimOk(v: nat) { DIM_MIN <= v <= DIM_MAX }

  function CheckFormat(format: nat, argb: bool): Option<ErrorCode> {
    if format == FORMAT_XRGB8888 then None
    else if format == FORMAT_ARGB8888 then (if argb then None else Some(Unsupported))
    else Some(BadValue)
  }

  predicate AppIdByte(b: u8) {
    (48 <= b <= 57) || (65 <= b <= 90) || (97 <= b <= 122) || b == 46 || b == 95 || b == 45
  }

  predicate AppIdOk(s: seq<u8>) { 1 <= |s| <= MAX_APP_ID_BYTES && forall b | b in s :: AppIdByte(b) }

  function CheckFresh(c: Connection, id: ObjectId): Option<ErrorCode> {
    if id == 0 || id <= c.idWatermark then Some(BadValue) else None
  }

  predicate IsSurface(objects: Objects, id: ObjectId) { id in objects && objects[id].Surf? }

  predicate IsBuffer(objects: Objects, id: ObjectId) { id in objects && objects[id].Buf? }

  /** Why `id` is not the kind of object asked for. */
  function Missing(objects: Objects, id: ObjectId): ErrorCode {
    if id in objects then WrongObjectType else StaleObject
  }

  /** A damage rectangle is nonempty and inside the buffer. */
  predicate RectOk(r: Rect, b: Buffer) {
    r.w != 0 && r.h != 0 && 0 <= r.x && 0 <= r.y && r.x + r.w <= b.width && r.y + r.h <= b.height
  }

  // ---- seat -------------------------------------------------------------------------------

  /** A connection vanishes: its bindings go without a LEAVE. */
  function DropConn(seat: Seat, conn: ConnId): Seat {
    var s := if seat.pointerFocus.Some? && seat.pointerFocus.value.conn == conn
      then seat.(pointerFocus := None, buttons := []) else seat;
    var s := if s.grab.Some? && s.grab.value.conn == conn then s.(grab := None, buttons := []) else s;
    if s.keyboardFocus.Some? && s.keyboardFocus.value.conn == conn
    then s.(keyboardFocus := None, heldKeys := [], modifiers := 0) else s
  }

  /** A surface leaves the scene: the seat after, and the LEAVEs. */
  function DropSurface(seat: Seat, t: Target): Seat {
    var s := if seat.pointerFocus == Some(t) then seat.(pointerFocus := None, buttons := []) else seat;
    var s := if s.grab == Some(t) then s.(grab := None, buttons := []) else s;
    if s.keyboardFocus == Some(t) then s.(keyboardFocus := None, heldKeys := [], modifiers := 0) else s
  }

  function If(cond: bool, e: Emit): seq<Emit> { if cond then [e] else [] }

  function Leaves(seat: Seat, t: Target): seq<Emit> {
    If(seat.pointerFocus == Some(t), Emit(t.surface, PointerLeave))
    + If(seat.keyboardFocus == Some(t), Emit(t.surface, KeyLeave))
  }

  // ---- the reply to each request --------------------------------------------------------------

  datatype Reply = Reply(conn: Connection, nextClient: nat, seat: Seat, emits: seq<Emit>, close: bool)

  /** Everything a request is dispatched with. */
  datatype Call = Call(
    conn: Connection, nextClient: nat, seat: Seat, connId: ConnId, now: nat, id: ObjectId, serial: nat)

  function Refuse(k: Call, code: ErrorCode, fatal: bool): Reply {
    Reply(k.conn, k.nextClient, k.seat, [Emit(k.id, Error(k.serial, code, fatal))], fatal)
  }

  function Accept(k: Call, c: Connection): Reply {
    Reply(c, k.nextClient, k.seat, [Emit(k.id, Result(k.serial))], false)
  }

  function DoHello(k: Call, minMinor: nat, maxMinor: nat, offered: set<nat>, required: set<nat>): Reply {
    if minMinor > maxMinor || minMinor > VERSION_MINOR then Refuse(k, VersionMismatch, true)
    else if !(required <= offered) then Refuse(k, Malformed, true)
    else if !(required <= {ARGB}) then Refuse(k, Unsupported, true)
    else
      var features := offered * {ARGB};
      Reply(k.conn.(features := features, phase := Active, clientId := k.nextClient), k.nextClient + 1, k.seat,
            [Emit(0, Welcome(k.serial, k.nextClient, features))], false)
  }

  function DoDisconnect(k: Call): Reply {
    Reply(k.conn, k.nextClient, k.seat, [Emit(0, Result(k.serial))], true)
  }

  /** RESULT then the initial CONFIGURE, whose serial is the configure token. */
  function DoCreateSurface(k: Call, role: nat, width: nat, height: nat, format: nat): Reply {
    var c := k.conn;
    if CheckFresh(c, k.id).Some? then Refuse(k, CheckFresh(c, k.id).value, false)
    else if role != ROLE_TOPLEVEL then Refuse(k, Unsupported, false)
    else if CheckFormat(format, ARGB in c.features).Some? then
      Refuse(k, CheckFormat(format, ARGB in c.features).value, false)
    else if !(DimOk(width) && DimOk(height)) then Refuse(k, BadValue, false)
    else if c.surfaces >= MAX_SURFACES then Refuse(k, LimitExceeded, false)
    else
      var s := NewSurface(format, width, height, c.nextServerSerial + 1);
      Reply(c.(objects := c.objects[k.id := Surf(s)], idWatermark := k.id, surfaces := c.surfaces + 1),
            k.nextClient, k.seat,
            [Emit(k.id, Result(k.serial)), Emit(k.id, Configure(width, height, 1, STATE_ACTIVATED))], false)
  }

  /** Gives a buffer back, if `id` names one. */
  function Released(objects: Objects, id: ObjectId): Objects {
    if IsBuffer(objects, id) then objects[id := Buf(objects[id].buffer.(state := Available, commitToken := 0))]
    else objects
  }

  /** The buffer a surface holds reserved, or 0. */
  function Reserved(s: Surface): ObjectId { if s.pendingAttach then s.pendingBuffer else 0 }

  /** LEAVEs, buffer releases and the discarded callback come before RESULT. */
  function DoDestroySurface(k: Call): Reply {
    var c, id, t := k.conn, k.id, Target(k.connId, k.id);
    if !IsSurface(c.objects, id) then Refuse(k, Missing(c.objects, id), false)
    else
      var s := c.objects[id].surface;
      var p, q := Reserved(s), s.committedBuffer;
      var o1 := if p != 0 then Released(c.objects, p) else c.objects;
      var o2 := if q != 0 then Released(o1, q) else o1;
      Reply(c.(objects := o2 - {id}, surfaces := c.surfaces - 1), k.nextClient,
            DropSurface(k.seat, t),
            Leaves(k.seat, t)
            + If(p != 0 && IsBuffer(c.objects, p), Emit(p, BufferRelease(0)))
            + If(q != 0 && IsBuffer(o1, q), Emit(q, BufferRelease(s.committedToken)))
            + If(s.framePending, Emit(id, FrameDone(s.frameToken, k.now, FRAME_DISCARDED)))
            + [Emit(id, Result(k.serial))], false)
  }

  function DoSetTitle(k: Call, title: seq<u8>): Reply {
    if !IsSurface(k.conn.objects, k.id) then Refuse(k, Missing(k.conn.objects, k.id), false)
    else if |title| > MAX_TITLE_BYTES then Refuse(k, BadValue, false)
    else Accept(k, k.conn)
  }

  function DoSetAppId(k: Call, appId: seq<u8>): Reply {
    if !IsSurface(k.conn.objects, k.id) then Refuse(k, Missing(k.conn.objects, k.id), false)
    else if !AppIdOk(appId) then Refuse(k, BadValue, false)
    else Accept(k, k.conn)
  }

  /** Valid once, and only for the latest token. */
  function DoAck(k: Call, configure: nat): Reply {
    var c := k.conn;
    if !IsSurface(c.objects, k.id) then Refuse(k, Missing(c.objects, k.id), false)
    else
      var s := c.objects[k.id].surface;
      if configure != s.latestToken || s.ackedToken == s.latestToken then Refuse(k, BadSerial, false)
      else Accept(k, c.(objects := c.objects[k.id := Surf(s.(ackedToken := configure))]))
  }

  function DoImport(k: Call, width: nat, height: nat, stride: nat, format: nat, offset: nat, size: nat): Reply {
    var c := k.conn;
    if CheckFresh(c, k.id).Some? then Refuse(k, CheckFresh(c, k.id).value, false)
    else if CheckFormat(format, ARGB in c.features).Some? then
      Refuse(k, CheckFormat(format, ARGB in c.features).value, false)
    else if !(DimOk(width) && DimOk(height)) then Refuse(k, BadValue, false)
    else if stride % 4 != 0 || offset % 4 != 0 || stride < width * 4 then Refuse(k, BadValue, false)
    else if stride > MAX_STRIDE || size > MAX_BACKING_BYTES then Refuse(k, LimitExceeded, false)
    else if stride * (height - 1) + offset + width * 4 > size then Refuse(k, OutOfBounds, false)
    else if c.buffers >= MAX_BUFFERS then Refuse(k, LimitExceeded, false)
    else if c.backingBytes + size > MAX_BACKING_BYTES_CONN then Refuse(k, LimitExceeded, false)
    else
      Accept(k, c.(objects := c.objects[k.id := Buf(Buffer(width, height, format, size, Available, 0))],
                   idWatermark := k.id, buffers := c.buffers + 1, backingBytes := c.backingBytes + size))
  }

  function DoDestroyBuffer(k: Call): Reply {
    var c := k.conn;
    if !IsBuffer(c.objects, k.id) then Refuse(k, Missing(c.objects, k.id), false)
    else
      var b := c.objects[k.id].buffer;
      if b.state != Available then Refuse(k, BusyObject, false)
      else
        Accept(k, c.(objects := c.objects - {k.id}, buffers := c.buffers - 1,
                     backingBytes := c.backingBytes - b.backing))
  }

  function DoAttach(k: Call, buffer: ObjectId, damage: seq<Rect>): Reply {
    var c := k.conn;
    if !IsSurface(c.objects, k.id) then Refuse(k, Missing(c.objects, k.id), false)
    else
      var s := c.objects[k.id].surface;
      if buffer == 0 then
        if s.pendingAttach then Refuse(k, BadState, false)
        else if damage != [] then Refuse(k, BadValue, false)
        else Accept(k, c.(objects := c.objects[k.id := Surf(s.(pendingAttach := true, pendingBuffer := 0))]))
      else if !IsBuffer(c.objects, buffer) then Refuse(k, Missing(c.objects, buffer), false)
      else
        var b := c.objects[buffer].buffer;
        if s.pendingAttach then Refuse(k, BadState, false)
        else if b.state != Available then Refuse(k, BusyObject, false)
        else if exists r | r in damage :: !RectOk(r, b) then Refuse(k, OutOfBounds, false)
        else if |damage| > MAX_DAMAGE_RECTS then Refuse(k, LimitExceeded, false)
        else
          Accept(k, c.(objects := c.objects[buffer := Buf(b.(state := Pending))]
                                           [k.id := Surf(s.(pendingAttach := true, pendingBuffer := buffer))]))
  }

  /** The guards of COMMIT, in the order they are checked. */
  function CheckCommit(k: Call, token: nat, frameCallback: nat): Option<ErrorCode> {
    var objects := k.conn.objects;
    if frameCallback > 1 then Some(BadValue)
    else if !IsSurface(objects, k.id) then Some(Missing(objects, k.id))
    else
      var s := objects[k.id].surface;
      if !s.pendingAttach then Some(BadState)
      else if !s.ConfigureReady(token) then Some(BadSerial)
      else if frameCallback == 1 && s.framePending then Some(BusyObject)
      else if s.pendingBuffer == 0 then None
      else if !IsBuffer(objects, s.pendingBuffer) then Some(Missing(objects, s.pendingBuffer))
      else if s.width * s.scale >= U32 || s.height * s.scale >= U32 then Some(OutOfBounds)
      else
        var b := objects[s.pendingBuffer].buffer;
        if b.width != s.width * s.scale || b.height != s.height * s.scale || b.format != s.format
        then Some(BadValue) else None
  }

  /** RESULT, then LEAVEs, the release and the discarded callback. */
  function UnmapCommit(k: Call, frameCallback: nat): Reply
    requires IsSurface(k.conn.objects, k.id)
  {
    var c, id, t := k.conn, k.id, Target(k.connId, k.id);
    var s := c.objects[id].surface;
    var q := s.committedBuffer;
    var s' := s.(committedBuffer := 0, committedToken := 0, mapped := false, pendingAttach := false,
                 pendingBuffer := 0, framePending := false);
    var o1 := c.objects[id := Surf(s')];
    var o2 := if q != 0 then Released(o1, q) else o1;
    Reply(c.(objects := o2), k.nextClient, DropSurface(k.seat, t),
          [Emit(id, Result(k.serial))] + Leaves(k.seat, t)
          + If(q != 0 && IsBuffer(o1, q), Emit(q, BufferRelease(s.committedToken)))
          + If(s.framePending || frameCallback == 1,
               Emit(id, FrameDone(if s.framePending then s.frameToken else k.serial, k.now, FRAME_DISCARDED))), false)
  }

  /** The reserved buffer replaces the committed one, which is released. */
  function MapCommit(k: Call, frameCallback: nat): Reply
    requires IsSurface(k.conn.objects, k.id) && IsBuffer(k.conn.objects, k.conn.objects[k.id].surface.pendingBuffer)
  {
    var c, id := k.conn, k.id;
    var s := c.objects[id].surface;
    var p, q := s.pendingBuffer, s.committedBuffer;
    var o1 := c.objects[p := Buf(c.objects[p].buffer.(state := Busy, commitToken := k.serial))];
    var s' := s.(committedBuffer := p, committedToken := k.serial, mapped := true, pendingAttach := false,
                 pendingBuffer := 0, framePending := s.framePending || frameCallback == 1,
                 frameToken := if frameCallback == 1 then k.serial else s.frameToken);
    var o2 := o1[id := Surf(s')];
    var o3 := if q != 0 && q != p then Released(o2, q) else o2;
    Reply(c.(objects := o3), k.nextClient, k.seat,
          [Emit(id, Result(k.serial))]
          + If(q != 0 && q != p && IsBuffer(o2, q), Emit(q, BufferRelease(s.committedToken))), false)
  }

  function DoCommit(k: Call, token: nat, frameCallback: nat): Reply {
    var bad := CheckCommit(k, token, frameCallback);
    if bad.Some? then Refuse(k, bad.value, false)
    else if k.conn.objects[k.id].surface.pendingBuffer == 0 then UnmapCommit(k, frameCallback)
    else MapCommit(k, frameCallback)
  }

  function Dispatch(k: Call, req: Request, cap: Option<nat>): Reply {
    match req
    case Hello(minMinor, maxMinor, offered, required) => DoHello(k, minMinor, maxMinor, offered, required)
    case Disconnect => DoDisconnect(k)
    case CreateSurface(role, width, height, format) => DoCreateSurface(k, role, width, height, format)
    case DestroySurface => DoDestroySurface(k)
    case SetTitle(title) => DoSetTitle(k, title)
    case SetAppId(appId) => DoSetAppId(k, appId)
    case AckConfigure(configure) => DoAck(k, configure)
    case ImportBuffer(width, height, stride, format, offset) =>
      DoImport(k, width, height, stride, format, offset, if cap.Some? then cap.value else 0)
    case DestroyBuffer => DoDestroyBuffer(k)
    case AttachBuffer(buffer, damage) => DoAttach(k, buffer, damage)
    case Commit(token, frameCallback) => DoCommit(k, token, frameCallback)
  }

  datatype Staged = Rejected(reply: Reply) | Passed(call: Call, request: Request)

  /** The validation stages before dispatch, in order. */
  function Stage(c: Connection, nextClient: nat, seat: Seat, connId: ConnId, now: nat, p: Packet,
                 cap: Option<nat>): Staged {
    match p
    case Unreadable => Rejected(Refuse(Call(c, nextClient, seat, connId, now, 0, 0), Malformed, true))
    case Framed(id, serial, major, opcode, payload) =>
      var k := Call(c, nextClient, seat, connId, now, id, serial);
      if (opcode.RequestOp? && opcode.takesBuffer) != cap.Some? then Rejected(Refuse(k, Malformed, true))
      else if major != VERSION_MAJOR then Rejected(Refuse(k, VersionMismatch, true))
      else if serial == 0 || serial <= c.lastClientSerial then Rejected(Refuse(k, BadSerial, true))
      else
        var k := k.(conn := c.(lastClientSerial := serial));
        if opcode.PolicyOp? then Rejected(Refuse(k, AccessDenied, false))
        else if !opcode.RequestOp? then Rejected(Refuse(k, BadOpcode, true))
        else if c.phase == New && !opcode.hello then Rejected(Refuse(k, BadState, true))
        else if c.phase == Active && opcode.hello then Rejected(Refuse(k, BadState, false))
        else match payload
          case Undecodable(malformed) => Rejected(Refuse(k, if malformed then Malformed else BadValue, malformed))
          case Decoded(req) => Passed(k, req)
  }

  function Pipeline(st: Staged, cap: Option<nat>): Reply {
    match st case Rejected(reply) => reply case Passed(k, req) => Dispatch(k, req, cap)
  }
}
