/**
 The bridge: a session table shared by concurrent tasks.  Every action of a task between two points
 where another task may run is one step; `Next` gives the effect of each, and the class performs it.
 */
module Bridge {
  import opened Wire
  import opened Crypto
  import opened Protocol
  import Syn

  datatype SessionKey = SessionKey(clientAddr: SocketAddr, connectionId: u32)

  /** `dest` is what the session's socket is connected to. */
  datatype SessionRec = SessionRec(aeadKey: Key, dest: ConnectRequest, txSequence: u64, lastActive: Instant)

  datatype DownstreamPacket = DownstreamPacket(key: SessionKey, payload: bytes)

  /** A datagram put on the wire for `key` by the session object `session`. */
  datatype Emission<Id> = Emission(key: SessionKey, session: Id, sequence: u64, wire: bytes)

  /** Why a request for a session is turned down, in the order of the checks. */
  datatype Refusal = TableFull | BadSyn(cause: Syn.AcceptError) | NoConnection

  datatype Config = Config(maxSessions: nat, idleTimeout: nat)

  /**
   The state between two steps.  Session objects are shared: a task may hold one that the table no
   longer lists, so objects have an identity of their own.  Each has a reader, which goes on reading
   from its destination for as long as that lasts, listed or not.  `emitted` is what has been sent.
   */
  datatype State<Id> = State(
    table: map<SessionKey, Id>,
    sessions: map<Id, SessionRec>,
    readers: map<Id, SessionKey>,              // the key each session's reader queues packets under
    pending: nat,                              // accepts that passed the capacity check and have not ended
    queue: seq<DownstreamPacket>,
    inHand: Option<(DownstreamPacket, Id)>,    // what the sender task holds
    toDrop: Option<set<SessionKey>>,           // what the reaper found idle
    emitted: seq<Emission<Id>>)

  datatype Step<Id> =
    | AcceptCheck
    | AcceptFail
    | AcceptInsert(key: SessionKey, id: Id, aeadKey: Key, dest: ConnectRequest, now: Instant)
    | Forward(id: Id, now: Instant)
    | Drain(key: SessionKey, id: Id, payload: bytes)
    | Dequeue
    | Send
    | ReapScan(now: Instant, unlocked: set<SessionKey>)
    | ReapRemove

  function Initial<Id>(): State<Id> {
    State(map[], map[], map[], 0, [], None, None, [])
  }

  predicate Enabled<Id(==)>(s: State<Id>, step: Step<Id>) {
    match step
    case AcceptCheck => true
    case AcceptFail => s.pending > 0
    case AcceptInsert(_, id, _, _, _) => s.pending > 0 && id !in s.sessions
    case Forward(id, _) => id in s.sessions
    case Drain(key, id, payload) =>
      id in s.readers && s.readers[id] == key && |payload| <= MAX_PAYLOAD_LEN  // the read buffer is no larger
    case Dequeue => s.inHand == None && s.queue != []
    case Send => s.inHand.Some? && s.inHand.value.1 in s.sessions
    case ReapScan(_, _) => s.toDrop == None && forall k :: k in s.table ==> s.table[k] in s.sessions
    case ReapRemove => s.toDrop.Some?
  }

  /** Which session a datagram belongs to, and whether it asks to open it. */
  function Dispatch(peer: SocketAddr, pkt: bytes): Result<(SessionKey, bool), ProtocolError> {
    match Header.Decode(pkt)
    case Err(e) => Err(e)
    case Ok(h) => Ok((SessionKey(peer, h.connectionId), h.flags.syn))
  }

  /** In octets: the connection id is the second to fifth, and the sixth bit of the first asks to open. */
  lemma DispatchReads(peer: SocketAddr, pkt: bytes)
    ensures Dispatch(peer, pkt).Ok? <==> |pkt| >= 13 && pkt[0] % 16 == 1
    ensures Dispatch(peer, pkt).Ok? ==>
              && Dispatch(peer, pkt).value.0.clientAddr == peer
              && Dispatch(peer, pkt).value.0.connectionId == FromBE(pkt[1..5])
              && (Dispatch(peer, pkt).value.1 <==> pkt[0] / 32 % 2 == 1)
  {
    HeaderReencodes(pkt);
    if Dispatch(peer, pkt).Ok? {
      HeaderLayout(Header.Decode(pkt).value);
      assert pkt[..13][1..5] == pkt[1..5];
    }
  }

  function DataHeader(key: SessionKey, sequence: u64): Header {
    Header(PROTO_VERSION, NO_FLAGS, key.connectionId, sequence)
  }

  /** The sender numbers its packet in the session it holds, listed or not, and sends the frame if one can be built. */
  function AfterSend<Id(==)>(c: Suite, s: State<Id>, pkt: DownstreamPacket, id: Id): State<Id>
    requires id in s.sessions
  {
    var s' := Numbered(s, id);
    var frame := FrameWire(c, s'.sessions[id].aeadKey, DataHeader(pkt.key, s'.sessions[id].txSequence), pkt.payload);
    Posted(s', pkt, id, frame)
  }

  function Numbered<Id(==)>(s: State<Id>, id: Id): (s': State<Id>)
    requires id in s.sessions
    ensures id in s'.sessions
  {
    var sess := s.sessions[id];
    s.(sessions := s.sessions[id := sess.(txSequence := (sess.txSequence + 1) % TWO_TO_64)])
  }

  function Posted<Id(==)>(s: State<Id>, pkt: DownstreamPacket, id: Id, frame: Result<bytes, ProtocolError>): State<Id>
    requires id in s.sessions
  {
    match frame
    case Err(_) => s.(inHand := None)
    case Ok(wire) =>
      var sess := s.sessions[id];
      s.(inHand := None, emitted := s.emitted + [Emission(pkt.key, id, sess.txSequence, wire)])
  }

  function Next<Id(==)>(c: Suite, cfg: Config, s: State<Id>, step: Step<Id>): State<Id>
    requires Enabled(s, step)
  {
    match step
    case AcceptCheck => if |s.table| >= cfg.maxSessions then s else s.(pending := s.pending + 1)
    case AcceptFail => s.(pending := s.pending - 1)
    case AcceptInsert(key, id, aeadKey, dest, now) =>
      s.(pending := s.pending - 1, table := s.table[key := id], readers := s.readers[id := key],
         sessions := s.sessions[id := SessionRec(aeadKey, dest, 0, now)])
    case Forward(id, now) => s.(sessions := s.sessions[id := s.sessions[id].(lastActive := now)])
    case Drain(key, _, payload) => s.(queue := s.queue + [DownstreamPacket(key, payload)])
    case Dequeue =>
      var key := s.queue[0].key;
      s.(queue := s.queue[1..], inHand := if key in s.table then Some((s.queue[0], s.table[key])) else None)
    case Send => AfterSend(c, s, s.inHand.value.0, s.inHand.value.1)
    case ReapScan(now, unlocked) =>
      s.(toDrop := Some(set k | && k in s.table && k in unlocked
                                && s.sessions[s.table[k]].lastActive < now - cfg.idleTimeout))
    case ReapRemove => s.(table := s.table - s.toDrop.value, toDrop := None)
  }

  /** Why a client's data is not passed on. */
  datatype DataRefusal = NoSession | BadFrame(cause: ProtocolError)

  /** What is written, and where, for a data frame of a client. */
  function Upstream<Id(==)>(c: Suite, s: State<Id>, key: SessionKey,
                            pkt: bytes): Result<(ConnectRequest, bytes), DataRefusal>
    requires key in s.table ==> s.table[key] in s.sessions
  {
    if key !in s.table then Err(NoSession)
    else
      var sess := s.sessions[s.table[key]];
      match DecryptFrame(c, sess.aeadKey, pkt)
      case Err(e) => Err(BadFrame(e))
      case Ok((_, payload)) => Ok((sess.dest, payload))
  }

  // ---------- the tasks themselves ----------

  class Session {
    const aeadKey: Key
    const dest: ConnectRequest
    var txSequence: u64
    var lastActive: Instant

    constructor (aeadKey: Key, dest: ConnectRequest, now: Instant)
      ensures this.aeadKey == aeadKey && this.dest == dest && txSequence == 0 && lastActive == now
    {
      this.aeadKey, this.dest, txSequence, lastActive := aeadKey, dest, 0, now;
    }

    function Rec(): SessionRec
      reads this
    {
      SessionRec(aeadKey, dest, txSequence, lastActive)
    }
  }

  class BridgeState {
    const c: Suite
    const cfg: Config
    var sessions: map<SessionKey, Session>
    var queue: seq<DownstreamPacket>
    ghost var objects: set<Session>
    ghost var pending: nat
    ghost var inHand: Option<(DownstreamPacket, Session)>
    ghost var toDrop: Option<set<SessionKey>>
    ghost var readers: map<Session, SessionKey>
    ghost var emitted: seq<Emission<Session>>

    ghost predicate Valid()
      reads this
    {
      && (forall k :: k in sessions ==> sessions[k] in objects)
      && (inHand.Some? ==> inHand.value.1 in objects)
    }

    ghost function Abs(): State<Session>
      reads this, objects
    {
      State(sessions, map o | o in objects :: o.Rec(), readers, pending, queue, inHand, toDrop, emitted)
    }

    constructor (c: Suite, cfg: Config)
      ensures Valid() && Abs() == Initial() && this.c == c && this.cfg == cfg
    {
      this.c, this.cfg := c, cfg;
      sessions, queue := map[], [];
      objects, pending, inHand, toDrop := {}, 0, None, None;
      readers, emitted := map[], [];
    }

    method AcceptCheck() returns (ok: bool)
      requires Valid()
      modifies this
      ensures Valid() && Abs() == Next(c, cfg, old(Abs()), Step.AcceptCheck)
      ensures ok <==> |old(sessions)| < cfg.maxSessions
      ensures unchanged(`objects)
    {
      ok := |sessions| < cfg.maxSessions;
      if ok {
        pending := pending + 1;
      }
    }

    /** The accept path gave up after the check: bad SYN, bad licence or no connection. */
    method AcceptFail()
      requires Valid() && pending > 0
      modifies this
      ensures Valid() && Abs() == Next(c, cfg, old(Abs()), Step.AcceptFail)
    {
      pending := pending - 1;
    }

    method AcceptInsert(key: SessionKey, aeadKey: Key, dest: ConnectRequest, now: Instant) returns (session: Session)
      requires Valid() && pending > 0
      modifies this
      ensures Valid() && fresh(session) && objects == old(objects) + {session}
      ensures session !in old(Abs().sessions)
      ensures Abs() == Next(c, cfg, old(Abs()), Step.AcceptInsert(key, session, aeadKey, dest, now))
    {
      session := new Session(aeadKey, dest, now);
      sessions := sessions[key := session];
      objects := objects + {session};
      readers := readers[session := key];
      pending := pending - 1;
      assert Abs().sessions == old(Abs().sessions)[session := session.Rec()];
    }

    /**
     The accept path with no other task in between.  `connects` says whether the destination of the
     request it is given can be reached.
     */
    method AcceptNewSession(keys: Syn.BridgeKeys, key: SessionKey, pkt: bytes, wallClock: i64, now: Instant,
                            connects: Syn.Accepted -> bool) returns (r: Result<Session, Refusal>)
      requires Valid()
      modifies this
      ensures Valid()
      ensures var syn := Syn.AcceptSyn(c, keys, wallClock, pkt);
              if |old(sessions)| >= cfg.maxSessions then r == Err(TableFull) && Abs() == old(Abs())
              else if syn.Err? then r == Err(BadSyn(syn.error)) && Abs() == old(Abs())
              else if !connects(syn.value) then r == Err(NoConnection) && Abs() == old(Abs())
              else
                && r.Ok? && fresh(r.value)
                && var s := Next(c, cfg, old(Abs()), Step.AcceptCheck);
                   s.pending > 0 && r.value !in s.sessions &&
                   Abs() == Next(c, cfg, s, Step.AcceptInsert(key, r.value, syn.value.key, syn.value.request, now))
    {
      var ok := AcceptCheck();
      if !ok {
        return Err(TableFull);
      }
      match Syn.AcceptSyn(c, keys, wallClock, pkt) {
        case Err(e) =>
          AcceptFail();
          r := Err(BadSyn(e));
        case Ok(accepted) =>
          if !connects(accepted) {
            AcceptFail();
            return Err(NoConnection);
          }
          var session := AcceptInsert(key, accepted.key, accepted.request, now);
          r := Ok(session);
      }
    }

    /** Look the session up under the lock; the caller goes on with the object it got. */
    method Lookup(key: SessionKey) returns (session: Option<Session>)
      requires Valid()
      ensures session == if key in sessions then Some(sessions[key]) else None
      ensures session.Some? ==> session.value in objects
    {
      session := if key in sessions then Some(sessions[key]) else None;
    }

    /** Decrypt a client datagram in the session found for it; only good ones count as activity. */
    method ForwardData(session: Session, pkt: bytes, now: Instant) returns (r: Result<bytes, ProtocolError>)
      requires Valid() && session in objects
      modifies session
      ensures Valid()
      ensures match DecryptFrame(c, session.aeadKey, pkt)
              case Err(e) => r == Err(e) && Abs() == old(Abs())
              case Ok((_, payload)) => r == Ok(payload) && Abs() == Next(c, cfg, old(Abs()), Step.Forward(session, now))
    {
      match DecryptFrame(c, session.aeadKey, pkt) {
        case Err(e) =>
          r := Err(e);
        case Ok((_, payload)) =>
          session.lastActive := now;
          assert Abs().sessions == old(Abs().sessions)[session := session.Rec()];
          r := Ok(payload);
      }
    }

    /** The whole of it, with no other task in between. */
    method ForwardPacket(key: SessionKey, pkt: bytes, now: Instant)
      returns (r: Result<(ConnectRequest, bytes), DataRefusal>)
      requires Valid()
      modifies objects
      ensures Valid() && r == Upstream(c, old(Abs()), key, pkt)
      ensures if r.Ok? then Abs() == Next(c, cfg, old(Abs()), Step.Forward(sessions[key], now)) else Abs() == old(Abs())
    {
      var session := Lookup(key);
      match session {
        case None =>
          r := Err(NoSession);
        case Some(session) =>
          var payload := ForwardData(session, pkt, now);
          match payload {
            case Err(e) => r := Err(BadFrame(e));
            case Ok(payload) => r := Ok((session.dest, payload));
          }
      }
    }

    /** One read from the destination of `session`: at most a buffer full, queued for the client. */
    method DrainDest(key: SessionKey, ghost session: Session, chunk: bytes)
      requires Valid() && |chunk| <= MAX_PAYLOAD_LEN
      requires session in readers && readers[session] == key
      modifies this
      ensures Valid() && Abs() == Next(c, cfg, old(Abs()), Step.Drain(key, session, chunk))
    {
      queue := queue + [DownstreamPacket(key, chunk)];
    }

    method DownstreamReceive() returns (pkt: DownstreamPacket, session: Option<Session>)
      requires Valid() && inHand == None && queue != []
      modifies this
      ensures Valid() && Abs() == Next(c, cfg, old(Abs()), Step.Dequeue)
      ensures inHand == if session.Some? then Some((pkt, session.value)) else None
    {
      pkt := queue[0];
      queue := queue[1..];
      session := Lookup(pkt.key);
      if session.Some? {
        inHand := Some((pkt, session.value));
      }
    }

    method DownstreamSend(pkt: DownstreamPacket, session: Session) returns (wire: Option<bytes>)
      requires Valid() && inHand == Some((pkt, session))
      modifies this, session
      ensures Valid() && session in old(objects)
      ensures Abs() == Next(c, cfg, old(Abs()), Step.Send)
      ensures emitted ==
              if wire.Some? then old(emitted) + [Emission(pkt.key, session, session.txSequence, wire.value)]
              else old(emitted)
    {
      var r := NextFrame(pkt, session);
      wire := Post(pkt, session, r);
    }

    method Post(pkt: DownstreamPacket, session: Session,
                frame: Result<bytes, ProtocolError>) returns (wire: Option<bytes>)
      requires Valid() && session in objects
      modifies this`inHand, this`emitted
      ensures Valid() && Abs() == Posted(old(Abs()), pkt, session, frame)
      ensures emitted ==
              if wire.Some? then old(emitted) + [Emission(pkt.key, session, session.txSequence, wire.value)]
              else old(emitted)
    {
      inHand := None;
      match frame {
        case Ok(w) =>
          emitted := emitted + [Emission(pkt.key, session, session.txSequence, w)];
          wire := Some(w);
        case Err(_) =>
          wire := None;
      }
    }

    method NextFrame(pkt: DownstreamPacket, session: Session) returns (r: Result<bytes, ProtocolError>)
      requires Valid() && session in objects
      modifies session`txSequence
      ensures Valid() && Abs() == Numbered(old(Abs()), session)
      ensures r == FrameWire(c, session.aeadKey, DataHeader(pkt.key, session.txSequence), pkt.payload)
    {
      session.txSequence := (session.txSequence + 1) % TWO_TO_64;
      assert Abs().sessions == old(Abs().sessions)[session := session.Rec()];
      r := EncryptFrame(c, session.aeadKey, DataHeader(pkt.key, session.txSequence), pkt.payload);
    }

    /** The reaper's first pass, under the read lock; a session whose own lock is taken is skipped. */
    method ReapScan(now: Instant, unlocked: set<SessionKey>) returns (idle: set<SessionKey>)
      requires Valid() && toDrop == None
      modifies this`toDrop
      ensures Valid() && Abs() == Next(c, cfg, old(Abs()), Step.ReapScan(now, unlocked))
      ensures toDrop == Some(idle)
    {
      var cutoff := now - cfg.idleTimeout;
      idle := set k | k in sessions && k in unlocked && sessions[k].lastActive < cutoff;
      toDrop := Some(idle);
      assert idle == set k | && k in sessions && k in unlocked
                             && old(Abs()).sessions[sessions[k]].lastActive < now - cfg.idleTimeout;
    }

    /** Its second pass, under the write lock. */
    method ReapRemove(idle: set<SessionKey>)
      requires Valid() && toDrop == Some(idle)
      modifies this
      ensures Valid() && Abs() == Next(c, cfg, old(Abs()), Step.ReapRemove)
    {
      sessions := sessions - idle;
      toDrop := None;
    }
  }
}
