/** What each request does to its connection, for all inputs: the connection
    invariant is kept, attaches and callbacks are settled by releases and
    FRAME_DONEs, errors change nothing, and LEAVEs match the seat. */
module GuiReply {
  import opened Bytes
  import opened GuiModel
  import opened GuiOwn

  // ---- connection invariant ---------------------------------------------------------------

  ghost predicate ConnOk(c: Connection, owner: map<ObjectId, ObjectId>) {
    && OwnOk(c.objects, owner) && CountsOk(c)
    && (c.phase == New ==> c.objects == map[])
  }

  lemma CreateSurfaceOk(k: Call, owner: map<ObjectId, ObjectId>, role: nat, width: nat, height: nat, format: nat)
    requires ConnOk(k.conn, owner) && k.conn.phase == Active
    ensures ConnOk(DoCreateSurface(k, role, width, height, format).conn, owner)
  {
    hide OwnOk, Total;
    var r := DoCreateSurface(k, role, width, height, format);
    if !r.emits[0].event.Error? {
      var o := Surf(NewSurface(format, width, height, k.conn.nextServerSerial + 1));
      AddOwn(k.conn.objects, owner, k.id, o);
      CountsAdd(k.conn, k.id, o, Surfaces);
      CountsAdd(k.conn, k.id, o, Buffers);
      CountsAdd(k.conn, k.id, o, BackingBytes);
    }
  }

  lemma ImportOk(k: Call, owner: map<ObjectId, ObjectId>, width: nat, height: nat, stride: nat, format: nat,
                 offset: nat, size: nat)
    requires ConnOk(k.conn, owner) && k.conn.phase == Active
    ensures ConnOk(DoImport(k, width, height, stride, format, offset, size).conn, owner)
  {
    hide OwnOk, Total;
    var r := DoImport(k, width, height, stride, format, offset, size);
    if !r.emits[0].event.Error? {
      var o := Buf(Buffer(width, height, format, size, Available, 0));
      AddOwn(k.conn.objects, owner, k.id, o);
      CountsAdd(k.conn, k.id, o, Surfaces);
      CountsAdd(k.conn, k.id, o, Buffers);
      CountsAdd(k.conn, k.id, o, BackingBytes);
    }
  }

  lemma DestroyBufferOk(k: Call, owner: map<ObjectId, ObjectId>)
    requires ConnOk(k.conn, owner) && k.conn.phase == Active
    ensures ConnOk(DoDestroyBuffer(k).conn, owner)
  {
    hide OwnOk, Total;
    if !DoDestroyBuffer(k).emits[0].event.Error? {
      RemoveBufferOwn(k.conn.objects, owner, k.id);
      CountsRemove(k.conn, k.conn.objects, k.id, Surfaces);
      CountsRemove(k.conn, k.conn.objects, k.id, Buffers);
      CountsRemove(k.conn, k.conn.objects, k.id, BackingBytes);
    }
  }

  lemma DestroySurfaceOk(k: Call, owner: map<ObjectId, ObjectId>)
    requires ConnOk(k.conn, owner) && k.conn.phase == Active
    ensures ConnOk(DoDestroySurface(k).conn, owner)
  {
    hide OwnOk, Total, Released;
    var c, id := k.conn, k.id;
    if IsSurface(c.objects, id) {
      var s := c.objects[id].surface;
      var p, q := Reserved(s), s.committedBuffer;
      var o1 := if p != 0 then Released(c.objects, p) else c.objects;
      var o2 := if q != 0 then Released(o1, q) else o1;
      DestroyOwn(c.objects, owner, id);
      ReleasedWeights(c.objects, p);
      ReleasedWeights(o1, q);
      CountsRemove(c, o2, id, Surfaces);
      CountsRemove(c, o2, id, Buffers);
      CountsRemove(c, o2, id, BackingBytes);
    }
  }

  lemma AckOk(k: Call, owner: map<ObjectId, ObjectId>, configure: nat)
    requires ConnOk(k.conn, owner) && k.conn.phase == Active
    ensures ConnOk(DoAck(k, configure).conn, owner)
  {
    hide OwnOk, Total;
    var r := DoAck(k, configure);
    if !r.emits[0].event.Error? {
      RestyleOwn(k.conn.objects, owner, k.id, r.conn.objects[k.id].surface);
      CountsSame(k.conn, r.conn);
    }
  }

  lemma AttachOk(k: Call, owner: map<ObjectId, ObjectId>, buffer: ObjectId, damage: seq<Rect>)
    returns (owner': map<ObjectId, ObjectId>)
    requires ConnOk(k.conn, owner) && k.conn.phase == Active
    ensures ConnOk(DoAttach(k, buffer, damage).conn, owner')
  {
    hide Total, RectOk;
    owner' := owner;
    var r := DoAttach(k, buffer, damage);
    if !r.emits[0].event.Error? {
      if buffer == 0 {
        assert ObjectOk(k.conn.objects, owner, k.id);
        RestyleOwn(k.conn.objects, owner, k.id, r.conn.objects[k.id].surface);
      } else {
        AttachOwn(k.conn.objects, owner, k.id, buffer);
        owner' := owner[buffer := k.id];
      }
      CountsSame(k.conn, r.conn);
    }
  }

  lemma CommitOk(k: Call, owner: map<ObjectId, ObjectId>, token: nat, frameCallback: nat)
    requires ConnOk(k.conn, owner) && k.conn.phase == Active
    ensures ConnOk(DoCommit(k, token, frameCallback).conn, owner)
  {
    hide OwnOk, Total;
    var r := DoCommit(k, token, frameCallback);
    if CheckCommit(k, token, frameCallback).None? {
      var s := k.conn.objects[k.id].surface;
      if s.pendingBuffer == 0 {
        UnmapOwn(k.conn.objects, owner, k.id);
      } else {
        var s' := s.(committedBuffer := s.pendingBuffer, committedToken := k.serial, mapped := true,
                     pendingAttach := false,
                     pendingBuffer := 0, framePending := s.framePending || frameCallback == 1,
                     frameToken := if frameCallback == 1 then k.serial else s.frameToken);
        MapOwn(k.conn.objects, owner, k.id, s', k.serial);
      }
      CountsSame(k.conn, r.conn);
    }
  }

  /** Every request keeps the connection invariant. */
  lemma DispatchOk(k: Call, owner: map<ObjectId, ObjectId>, req: Request, cap: Option<nat>)
    returns (owner': map<ObjectId, ObjectId>)
    requires ConnOk(k.conn, owner) && (k.conn.phase == Active || (k.conn.phase == New && req.Hello?))
    ensures ConnOk(Dispatch(k, req, cap).conn, owner')
  {
    hide OwnOk, CountsOk, DoCreateSurface, DoDestroySurface, DoAck, DoImport, DoDestroyBuffer, DoAttach, DoCommit;
    owner' := owner;
    match req {
      case CreateSurface(role, width, height, format) => CreateSurfaceOk(k, owner, role, width, height, format);
      case DestroySurface => DestroySurfaceOk(k, owner);
      case AckConfigure(configure) => AckOk(k, owner, configure);
      case ImportBuffer(width, height, stride, format, offset) =>
        ImportOk(k, owner, width, height, stride, format, offset, if cap.Some? then cap.value else 0);
      case DestroyBuffer => DestroyBufferOk(k, owner);
      case AttachBuffer(buffer, damage) => owner' := AttachOk(k, owner, buffer, damage);
      case Commit(token, frameCallback) => CommitOk(k, owner, token, frameCallback);
      case Hello(a, b, c, d) => HelloOk(k, owner, a, b, c, d);
      case _ =>
    }
  }

  lemma HelloOk(k: Call, owner: map<ObjectId, ObjectId>, minMinor: nat, maxMinor: nat, offered: set<nat>,
                required: set<nat>)
    requires ConnOk(k.conn, owner)
    ensures ConnOk(DoHello(k, minMinor, maxMinor, offered, required).conn, owner)
  {
  }
}
