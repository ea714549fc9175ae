/** What holds of every interleaving of the bridge's tasks. */
module BridgeRuns {
  import opened Wire
  import opened Crypto
  import opened Protocol
  import opened Bridge

  /** The steps can be taken one after another from the start. */
  ghost predicate Possible<Id(!new)>(c: Suite, cfg: Config, steps: seq<Step<Id>>)
    decreases |steps|, 0
  {
    steps != [] ==> Possible(c, cfg, Front(steps)) && Enabled(Run(c, cfg, Front(steps)), Last(steps))
  }

  ghost function Run<Id(!new)>(c: Suite, cfg: Config, steps: seq<Step<Id>>): State<Id>
    requires Possible(c, cfg, steps)
    decreases |steps|, 1
  {
    if steps == [] then Initial() else Next(c, cfg, Run(c, cfg, Front(steps)), Last(steps))
  }

  lemma {:induction false} PrefixPossible<Id(!new)>(c: Suite, cfg: Config, steps: seq<Step<Id>>, n: nat)
    requires Possible(c, cfg, steps) && n <= |steps|
    ensures Possible(c, cfg, steps[..n])
    decreases |steps| - n
  {
    if n == |steps| {
      assert steps[..n] == steps;
    } else {
      PrefixPossible(c, cfg, steps, n + 1);
      assert Front(steps[..n + 1]) == steps[..n];
    }
  }

  // ---------- capacity ----------

  /** At most `limit` accepts are ever in flight at once. */
  ghost predicate AcceptsBounded<Id(!new)>(c: Suite, cfg: Config, steps: seq<Step<Id>>, limit: nat)
    requires Possible(c, cfg, steps)
  {
    forall n :: 0 <= n <= |steps| ==> Possible(c, cfg, steps[..n]) && Run(c, cfg, steps[..n]).pending <= limit
  }

  /**
   The capacity check and the insertion are separate steps, so the table can outgrow its limit, but
   by no more than the accepts in flight: with at most `limit` of them, sessions and pending accepts
   together never exceed max_sessions - 1 + limit.  (With no sessions allowed there are none.)
   */
  lemma {:induction false} TableStaysBounded<Id(!new)>(c: Suite, cfg: Config, steps: seq<Step<Id>>, limit: nat)
    requires Possible(c, cfg, steps) && AcceptsBounded(c, cfg, steps, limit)
    ensures var s := Run(c, cfg, steps);
            |s.table| + s.pending <= if cfg.maxSessions == 0 then 0 else cfg.maxSessions - 1 + limit
  {
    if steps != [] {
      var n := |steps| - 1;
      assert steps[..n] == Front(steps) && steps[..n + 1] == steps;
      assert forall m :: 0 <= m <= n ==> steps[..n][..m] == steps[..m];
      TableStaysBounded(c, cfg, Front(steps), limit);
      LoadStep(c, cfg, Run(c, cfg, Front(steps)), Last(steps));
    }
  }

  lemma {:induction false} SubsetIsSmaller<T>(a: set<T>, b: set<T>)
    requires a <= b
    ensures |a| <= |b|
  {
    if x :| x in a {
      SubsetIsSmaller(a - {x}, b - {x});
    }
  }

  /** Only a check that passes adds to the sessions and pending accepts, and it passes below the limit. */
  lemma LoadStep<Id(!new)>(c: Suite, cfg: Config, s: State<Id>, step: Step<Id>)
    requires Enabled(s, step)
    ensures var s' := Next(c, cfg, s, step);
            || |s'.table| + s'.pending <= |s.table| + s.pending
            || (s'.table == s.table && |s.table| < cfg.maxSessions)
  {
    if step.AcceptInsert? {
      InsertAddsOne(s.table, step.key, step.id);
    } else if step.ReapRemove? {
      RemoveAddsNone(s.table, s.toDrop.value);
    } else {
      assert Next(c, cfg, s, step).table == s.table;
    }
  }

  lemma InsertAddsOne<K, V>(m: map<K, V>, k: K, v: V)
    ensures |m[k := v]| <= |m| + 1
  {
    assert m[k := v].Keys == m.Keys + {k};
  }

  lemma RemoveAddsNone<K, V>(m: map<K, V>, ks: set<K>)
    ensures |m - ks| <= |m|
  {
    SubsetIsSmaller((m - ks).Keys, m.Keys);
  }

  /** With accepts one at a time the configured limit is a limit. */
  lemma OneAcceptAtATimeKeepsLimit<Id(!new)>(c: Suite, cfg: Config, steps: seq<Step<Id>>)
    requires Possible(c, cfg, steps) && AcceptsBounded(c, cfg, steps, 1)
    ensures |Run(c, cfg, steps).table| <= cfg.maxSessions
  {
    TableStaysBounded(c, cfg, steps, 1);
  }

  lemma Extend<Id(!new)>(c: Suite, cfg: Config, steps: seq<Step<Id>>, step: Step<Id>)
    requires Possible(c, cfg, steps) && Enabled(Run(c, cfg, steps), step)
    ensures Possible(c, cfg, steps + [step])
    ensures Run(c, cfg, steps + [step]) == Next(c, cfg, Run(c, cfg, steps), step)
    ensures forall limit: nat ::
              AcceptsBounded(c, cfg, steps, limit) && Next(c, cfg, Run(c, cfg, steps), step).pending <= limit ==>
              AcceptsBounded(c, cfg, steps + [step], limit)
  {
    assert Front(steps + [step]) == steps;
    forall n | 0 <= n <= |steps| + 1
      ensures (steps + [step])[..n] == if n <= |steps| then steps[..n] else steps + [step]
    {
    }
  }

  /** The number of IPv6 addresses clients can come from; a 64-bit machine counts no further. */
  const CLIENTS: int := 0x1_0000_0000_0000_0000_0000_0000_0000_0000

  const ANYWHERE := ConnectRequest(Udp, SocketAddr(V4(0), 0))

  function ClientKey(n: u128): SessionKey { SessionKey(SocketAddr(V6(n), 0), 0) }

  /** Clients 0 to n-1 have sessions, and `m` accepts are pending. */
  ghost predicate Filled(s: State<nat>, n: nat, m: nat) {
    && |s.table| == n && s.pending == m
    && (forall k :: k in s.table ==> k.clientAddr.ip.V6? && k.clientAddr.ip.v6 < n)
    && (forall id :: id in s.sessions ==> id < n)
  }

  lemma InsertClient(c: Suite, cfg: Config, s: State<nat>, n: u128, m: nat)
    requires Filled(s, n, m + 1)
    ensures Enabled(s, AcceptInsert(ClientKey(n), n, [], ANYWHERE, 0))
    ensures Filled(Next(c, cfg, s, AcceptInsert(ClientKey(n), n, [], ANYWHERE, 0)), n + 1, m)
  {
  }

  lemma {:induction false} FillOneByOne(c: Suite, cfg: Config, limit: nat, n: nat) returns (steps: seq<Step<nat>>)
    requires n < cfg.maxSessions && limit >= 1 && n < CLIENTS
    ensures Possible(c, cfg, steps) && AcceptsBounded(c, cfg, steps, limit) && Filled(Run(c, cfg, steps), n, 0)
  {
    if n == 0 {
      steps := [];
    } else {
      steps := FillOneByOne(c, cfg, limit, n - 1);
      Extend(c, cfg, steps, AcceptCheck);
      steps := steps + [AcceptCheck];
      InsertClient(c, cfg, Run(c, cfg, steps), n - 1, 0);
      Extend(c, cfg, steps, AcceptInsert(ClientKey(n - 1), n - 1, [], ANYWHERE, 0));
      steps := steps + [AcceptInsert(ClientKey(n - 1), n - 1, [], ANYWHERE, 0)];
    }
  }

  lemma {:induction false} CheckTogether(c: Suite, cfg: Config, limit: nat, m: nat) returns (steps: seq<Step<nat>>)
    requires 1 <= cfg.maxSessions <= CLIENTS && m <= limit && limit >= 1
    ensures Possible(c, cfg, steps) && AcceptsBounded(c, cfg, steps, limit)
    ensures Filled(Run(c, cfg, steps), cfg.maxSessions - 1, m)
  {
    if m == 0 {
      steps := FillOneByOne(c, cfg, limit, cfg.maxSessions - 1);
    } else {
      steps := CheckTogether(c, cfg, limit, m - 1);
      Extend(c, cfg, steps, AcceptCheck);
      steps := steps + [AcceptCheck];
    }
  }

  lemma {:induction false} InsertTogether(c: Suite, cfg: Config, limit: nat, m: nat) returns (steps: seq<Step<nat>>)
    requires cfg.maxSessions >= 1 && m <= limit && limit >= 1 && cfg.maxSessions - 1 + limit <= CLIENTS
    ensures Possible(c, cfg, steps) && AcceptsBounded(c, cfg, steps, limit)
    ensures Filled(Run(c, cfg, steps), cfg.maxSessions - 1 + m, limit - m)
  {
    if m == 0 {
      steps := CheckTogether(c, cfg, limit, limit);
    } else {
      steps := InsertTogether(c, cfg, limit, m - 1);
      var n := cfg.maxSessions - 1 + (m - 1);
      InsertClient(c, cfg, Run(c, cfg, steps), n, limit - m);
      Extend(c, cfg, steps, AcceptInsert(ClientKey(n), n, [], ANYWHERE, 0));
      steps := steps + [AcceptInsert(ClientKey(n), n, [], ANYWHERE, 0)];
    }
  }

  /** The bound is reached: when the table has one place left and `limit` accepts pass the check
      before any of them inserts, they all do. */
  lemma {:induction false} BoundIsReached(c: Suite, cfg: Config, limit: nat) returns (steps: seq<Step<nat>>)
    requires cfg.maxSessions >= 1 && limit >= 1 && cfg.maxSessions - 1 + limit <= CLIENTS
    ensures Possible(c, cfg, steps) && AcceptsBounded(c, cfg, steps, limit)
    ensures |Run(c, cfg, steps).table| == cfg.maxSessions - 1 + limit
  {
    steps := InsertTogether(c, cfg, limit, limit);
  }

  // ---------- the reaper ----------

  /** The step gives key `k` a new session, or its current session activity. */
  predicate Disturbs<Id(==)>(s: State<Id>, step: Step<Id>, k: SessionKey) {
    match step
    case AcceptInsert(key, _, _, _, _) => key == k
    case Forward(id, _) => k in s.table && s.table[k] == id
    case _ => false
  }

  /** Key `k` is due to be dropped; it is idle, or else it has been active since the scan at `t`. */
  ghost predicate Condemned<Id>(cfg: Config, s: State<Id>, k: SessionKey, t: Instant, active: bool) {
    && s.toDrop.Some? && k in s.toDrop.value
    && k in s.table && s.table[k] in s.sessions
    && var last := s.sessions[s.table[k]].lastActive;
       if active then last >= t else last < t - cfg.idleTimeout
  }

  predicate NotBefore<Id>(step: Step<Id>, t: Instant) {
    match step
    case AcceptInsert(_, _, _, _, now) => now >= t
    case Forward(_, now) => now >= t
    case _ => true
  }

  lemma CondemnedStep<Id(!new)>(c: Suite, cfg: Config, s: State<Id>, step: Step<Id>, k: SessionKey, t: Instant,
                         active: bool)
    requires Condemned(cfg, s, k, t, active) && Enabled(s, step) && !step.ReapRemove? && NotBefore(step, t)
    ensures Condemned(cfg, Next(c, cfg, s, step), k, t, active || Disturbs(s, step, k))
  {
  }

  /** The reaper's latest phase was a scan at time `t`, which found `k` idle; the clock has not gone back. */
  ghost predicate Scanned<Id(!new)>(c: Suite, cfg: Config, steps: seq<Step<Id>>, k: SessionKey, t: Instant)
    requires Possible(c, cfg, steps)
    decreases |steps|
  {
    && steps != []
    && if Last(steps).ReapScan? then Last(steps).now == t && k in Run(c, cfg, steps).toDrop.value
       else !Last(steps).ReapRemove? && NotBefore(Last(steps), t) && Scanned(c, cfg, Front(steps), k, t)
  }

  /** Since that scan some step gave `k` a new session, or its session activity. */
  ghost predicate ActiveSinceScan<Id(!new)>(c: Suite, cfg: Config, steps: seq<Step<Id>>, k: SessionKey)
    requires Possible(c, cfg, steps)
    decreases |steps|
  {
    && steps != [] && !Last(steps).ReapScan?
    && (Disturbs(Run(c, cfg, Front(steps)), Last(steps), k) || ActiveSinceScan(c, cfg, Front(steps), k))
  }

  lemma {:induction false} ScannedIsCondemned<Id(!new)>(c: Suite, cfg: Config, steps: seq<Step<Id>>, k: SessionKey,
                                                 t: Instant)
    requires Possible(c, cfg, steps) && Scanned(c, cfg, steps, k, t)
    ensures Condemned(cfg, Run(c, cfg, steps), k, t, ActiveSinceScan(c, cfg, steps, k))
    decreases |steps|
  {
    if !Last(steps).ReapScan? {
      ScannedIsCondemned(c, cfg, Front(steps), k, t);
      CondemnedStep(c, cfg, Run(c, cfg, Front(steps)), Last(steps), k, t, ActiveSinceScan(c, cfg, Front(steps), k));
    }
  }

  /**
   The reaper works in two phases. Every key its scan found idle is dropped by the second phase, and
   the session dropped is still idle exactly when no step in between gave the key a new session or
   its session activity: one that came alive, or was just accepted, in that gap is dropped all the same.
   */
  lemma {:induction false} ReaperDropsIdleExactlyWhen<Id(!new)>(
    c: Suite, cfg: Config, steps: seq<Step<Id>>, k: SessionKey, t: Instant)
    requires Possible(c, cfg, steps) && Scanned(c, cfg, steps, k, t)
    ensures var s := Run(c, cfg, steps);
            && Enabled(s, ReapRemove)
            && k in s.table && k !in Next(c, cfg, s, ReapRemove).table
            && s.table[k] in s.sessions
            && (s.sessions[s.table[k]].lastActive < t - cfg.idleTimeout <==> !ActiveSinceScan(c, cfg, steps, k))
  {
    ScannedIsCondemned(c, cfg, steps, k, t);
  }

  lemma ScannedExtends<Id(!new)>(c: Suite, cfg: Config, steps: seq<Step<Id>>, step: Step<Id>, k: SessionKey, t: Instant)
    requires Possible(c, cfg, steps) && Enabled(Run(c, cfg, steps), step) && Scanned(c, cfg, steps, k, t)
    requires !step.ReapScan? && !step.ReapRemove? && NotBefore(step, t)
    ensures Possible(c, cfg, steps + [step]) && Scanned(c, cfg, steps + [step], k, t)
    ensures Run(c, cfg, steps + [step]) == Next(c, cfg, Run(c, cfg, steps), step)
  {
  }

  /** One client has signed on and fallen idle, and the reaper has noticed. */
  lemma IdleClientScanned(c: Suite, cfg: Config, t: Instant) returns (steps: seq<Step<nat>>)
    requires cfg.maxSessions >= 2
    ensures Possible(c, cfg, steps) && Scanned(c, cfg, steps, ClientKey(0), t)
    ensures var s := Run(c, cfg, steps);
            s.table == map[ClientKey(0) := 0] && s.sessions.Keys == {0} && s.toDrop == Some({ClientKey(0)})
  {
    var k := ClientKey(0);
    steps := [];
    Extend(c, cfg, steps, AcceptCheck);
    steps := steps + [AcceptCheck];
    Extend(c, cfg, steps, AcceptInsert(k, 0, [], ANYWHERE, t - cfg.idleTimeout - 1));
    steps := steps + [AcceptInsert(k, 0, [], ANYWHERE, t - cfg.idleTimeout - 1)];
    ghost var s := Run(c, cfg, steps);
    assert s.table == map[k := 0] && s.sessions == map[0 := SessionRec([], ANYWHERE, 0, t - cfg.idleTimeout - 1)];
    Extend(c, cfg, steps, ReapScan(t, {k}));
    steps := steps + [ReapScan(t, {k})];
    assert Run(c, cfg, steps).toDrop.value == {k};
  }

  /** It does happen: a client whose old session was found idle signs on again before the second
      phase, and its new session is dropped. */
  lemma {:induction false} FreshSessionCanBeDropped(c: Suite, cfg: Config, t: Instant) returns (steps: seq<Step<nat>>)
    requires cfg.maxSessions >= 2
    ensures Possible(c, cfg, steps) && Scanned(c, cfg, steps, ClientKey(0), t)
    ensures var s := Run(c, cfg, steps);
            && s.table == map[ClientKey(0) := 1] && 1 in s.sessions && s.sessions[1].lastActive == t
            && Enabled(s, ReapRemove) && Next(c, cfg, s, ReapRemove).table == map[]
  {
    steps := IdleClientScanned(c, cfg, t);
    ScannedExtends(c, cfg, steps, AcceptCheck, ClientKey(0), t);
    steps := steps + [AcceptCheck];
    ScannedExtends(c, cfg, steps, AcceptInsert(ClientKey(0), 1, [], ANYWHERE, t), ClientKey(0), t);
    steps := steps + [AcceptInsert(ClientKey(0), 1, [], ANYWHERE, t)];
  }

  // ---------- delivery ----------

  /** One read by the reader of session object `reader`, queued under its key. */
  datatype Drained<Id> = Drained(key: SessionKey, reader: Id, payload: bytes)

  function DrainedBy<Id>(step: Step<Id>): seq<Drained<Id>> {
    if step.Drain? then [Drained(step.key, step.id, step.payload)] else []
  }

  /** Everything read from the destinations in a run, in order. */
  function Reads<Id>(steps: seq<Step<Id>>): seq<Drained<Id>> {
    if steps == [] then [] else Reads(Front(steps)) + DrainedBy(Last(steps))
  }

  /** The session the table lists for the packet at the head of the queue, if this step takes it off. */
  function TakenBy<Id(==)>(s: State<Id>, step: Step<Id>): seq<Option<Id>>
    requires Enabled(s, step)
  {
    if !step.Dequeue? then []
    else if s.queue[0].key in s.table then [Some(s.table[s.queue[0].key])]
    else [None]
  }

  /** For each packet taken off the queue, the session the table listed for it at that moment. */
  ghost function Takes<Id(!new)>(c: Suite, cfg: Config, steps: seq<Step<Id>>): seq<Option<Id>>
    requires Possible(c, cfg, steps)
    decreases |steps|
  {
    if steps == [] then []
    else Takes(c, cfg, Front(steps)) + TakenBy(Run(c, cfg, Front(steps)), Last(steps))
  }

  /** A packet and the session it is to be sent in. */
  datatype Handed<Id> = Handed(from: Drained<Id>, session: Id)

  /** The packets that found a session, in order. */
  function HandedOut<Id>(got: seq<Drained<Id>>, takes: seq<Option<Id>>): seq<Handed<Id>>
    requires |takes| <= |got|
  {
    if takes == [] then []
    else
      HandedOut(got, Front(takes)) +
      if Last(takes).Some? then [Handed(got[|takes| - 1], Last(takes).value)] else []
  }

  lemma {:induction false} HandedIgnoresTail<Id>(got: seq<Drained<Id>>, more: seq<Drained<Id>>, takes: seq<Option<Id>>)
    requires |takes| <= |got|
    ensures HandedOut(got + more, takes) == HandedOut(got, takes)
  {
    if takes != [] {
      HandedIgnoresTail(got, more, Front(takes));
    }
  }

  predicate IsPacketOf<Id>(pkt: DownstreamPacket, r: Drained<Id>) {
    pkt.key == r.key && pkt.payload == r.payload
  }

  /** The queue holds what was read and not yet taken, and the sender's hand what was taken last. */
  ghost predicate QueueSound<Id>(s: State<Id>, got: seq<Drained<Id>>, takes: seq<Option<Id>>) {
    && |got| == |takes| + |s.queue|
    && (forall i :: 0 <= i < |s.queue| ==> IsPacketOf(s.queue[i], got[|takes| + i]))
    && (forall r :: r in got ==> |r.payload| <= MAX_PAYLOAD_LEN)
    && (s.inHand.Some? ==>
        && takes != [] && IsPacketOf(s.inHand.value.0, got[|takes| - 1])
        && Last(takes) == Some(s.inHand.value.1))
  }

  lemma QueueUntouched<Id(!new)>(c: Suite, cfg: Config, s: State<Id>, step: Step<Id>)
    requires Enabled(s, step) && !step.Drain? && !step.Dequeue?
    ensures Next(c, cfg, s, step).queue == s.queue
    ensures Next(c, cfg, s, step).inHand == if step.Send? then None else s.inHand
  {
  }

  lemma QueueStep<Id(!new)>(c: Suite, cfg: Config, s: State<Id>, step: Step<Id>, got: seq<Drained<Id>>,
                            takes: seq<Option<Id>>)
    requires Enabled(s, step) && QueueSound(s, got, takes)
    ensures QueueSound(Next(c, cfg, s, step), got + DrainedBy(step), takes + TakenBy(s, step))
  {
    if !step.Drain? && !step.Dequeue? {
      QueueUntouched(c, cfg, s, step);
      assert got + [] == got && takes + [] == takes;
    }
  }

  /** The queue is first in, first out: the n-th packet taken off it is the n-th that was read. */
  lemma {:induction false} QueueStaysSound<Id(!new)>(c: Suite, cfg: Config, steps: seq<Step<Id>>)
    requires Possible(c, cfg, steps)
    ensures QueueSound(Run(c, cfg, steps), Reads(steps), Takes(c, cfg, steps))
  {
    if steps != [] {
      QueueStaysSound(c, cfg, Front(steps));
      QueueStep(c, cfg, Run(c, cfg, Front(steps)), Last(steps), Reads(Front(steps)), Takes(c, cfg, Front(steps)));
    }
  }

  /** What has been sent: all that found a session but a packet still in hand. */
  function Sent<Id>(s: State<Id>, got: seq<Drained<Id>>, takes: seq<Option<Id>>): seq<Handed<Id>>
    requires |takes| <= |got|
  {
    var hs := HandedOut(got, takes);
    if s.inHand.Some? && hs != [] then Front(hs) else hs
  }

  /** The datagram was sent in this session, to its packet's client, and opens to its payload under this key. */
  predicate Carries<Id(==)>(c: Suite, key: Key, e: Emission<Id>, h: Handed<Id>) {
    && e.key == h.from.key && e.session == h.session
    && DecryptFrame(c, key, e.wire) ==
       Ok((Header(1, Flags(false, false, false, false), e.key.connectionId, e.sequence), h.from.payload))
  }

  predicate CarriesIn<Id(==)>(c: Suite, sessions: map<Id, SessionRec>, e: Emission<Id>, h: Handed<Id>) {
    h.session in sessions && Carries(c, sessions[h.session].aeadKey, e, h)
  }

  ghost predicate EmittedSound<Id>(c: Suite, sessions: map<Id, SessionRec>, es: seq<Emission<Id>>,
                                   hs: seq<Handed<Id>>)
  {
    |es| == |hs| && forall i :: 0 <= i < |hs| ==> CarriesIn(c, sessions, es[i], hs[i])
  }

  ghost predicate KeepsKeys<Id>(sessions: map<Id, SessionRec>, sessions': map<Id, SessionRec>) {
    forall id :: id in sessions ==> id in sessions' && sessions'[id].aeadKey == sessions[id].aeadKey
  }

  lemma StepKeepsKeys<Id(!new)>(c: Suite, cfg: Config, s: State<Id>, step: Step<Id>)
    requires Enabled(s, step)
    ensures KeepsKeys(s.sessions, Next(c, cfg, s, step).sessions)
  {
  }

  lemma EmittedKept<Id(!new)>(c: Suite, sessions: map<Id, SessionRec>, sessions': map<Id, SessionRec>,
                              es: seq<Emission<Id>>, hs: seq<Handed<Id>>)
    requires EmittedSound(c, sessions, es, hs) && KeepsKeys(sessions, sessions')
    ensures EmittedSound(c, sessions', es, hs)
  {
    forall i | 0 <= i < |hs| ensures CarriesIn(c, sessions', es[i], hs[i]) {
      assert CarriesIn(c, sessions, es[i], hs[i]);
    }
  }

  lemma HandedSnoc<Id>(got: seq<Drained<Id>>, takes: seq<Option<Id>>, take: Option<Id>)
    requires |takes| < |got|
    ensures HandedOut(got, takes + [take]) ==
            HandedOut(got, takes) + if take.Some? then [Handed(got[|takes|], take.value)] else []
  {
    assert Front(takes + [take]) == takes;
  }

  /** A packet that fits is sent, numbered next in its session, and opens to its payload under the session's key. */
  lemma SendCarries<Id(!new)>(c: Suite, cfg: Config, s: State<Id>)
    requires Enabled(s, Send) && |s.inHand.value.0.payload| <= MAX_PAYLOAD_LEN
    ensures var (pkt, id) := s.inHand.value;
            var s' := Next(c, cfg, s, Send);
            && s'.emitted != [] && s'.emitted == s.emitted + [Last(s'.emitted)]
            && var e := Last(s'.emitted);
               && e.key == pkt.key && e.session == id && e.sequence == (s.sessions[id].txSequence + 1) % TWO_TO_64
               && DecryptFrame(c, s.sessions[id].aeadKey, e.wire) == Ok((DataHeader(e.key, e.sequence), pkt.payload))
  {
    var (pkt, id) := s.inHand.value;
    var sequence := (s.sessions[id].txSequence + 1) % TWO_TO_64;
    FrameRoundTrip(c, s.sessions[id].aeadKey, DataHeader(pkt.key, sequence), pkt.payload);
  }

  lemma SentWhenTaking<Id(!new)>(c: Suite, cfg: Config, s: State<Id>, got: seq<Drained<Id>>, takes: seq<Option<Id>>)
    requires Enabled(s, Dequeue) && QueueSound(s, got, takes)
    ensures var s', takes' := Next(c, cfg, s, Dequeue), takes + TakenBy(s, Dequeue);
            |takes'| <= |got| && Sent(s', got, takes') == Sent(s, got, takes) && s'.emitted == s.emitted
  {
    HandedSnoc(got, takes, TakenBy(s, Dequeue)[0]);
  }

  lemma NothingEmitted<Id(!new)>(c: Suite, cfg: Config, s: State<Id>, step: Step<Id>)
    requires Enabled(s, step) && !step.Send?
    ensures Next(c, cfg, s, step).emitted == s.emitted
  {
  }

  lemma SentWithoutSend<Id(!new)>(c: Suite, cfg: Config, s: State<Id>, step: Step<Id>, got: seq<Drained<Id>>,
                                  takes: seq<Option<Id>>)
    requires Enabled(s, step) && !step.Send? && QueueSound(s, got, takes)
    ensures var s', got', takes' := Next(c, cfg, s, step), got + DrainedBy(step), takes + TakenBy(s, step);
            |takes'| <= |got'| && Sent(s', got', takes') == Sent(s, got, takes) && s'.emitted == s.emitted
  {
    assert got + [] == got && takes + [] == takes;
    NothingEmitted(c, cfg, s, step);
    if step.Drain? {
      HandedIgnoresTail(got, DrainedBy(step), takes);
    } else if step.Dequeue? {
      SentWhenTaking(c, cfg, s, got, takes);
    } else {
      QueueUntouched(c, cfg, s, step);
    }
  }

  lemma SentWithSend<Id(!new)>(c: Suite, cfg: Config, s: State<Id>, got: seq<Drained<Id>>, takes: seq<Option<Id>>)
    requires Enabled(s, Send) && QueueSound(s, got, takes)
    ensures Sent(Next(c, cfg, s, Send), got, takes) ==
            Sent(s, got, takes) + [Handed(got[|takes| - 1], s.inHand.value.1)]
  {
    assert Next(c, cfg, s, Send).inHand == None;
  }

  lemma EmittedStep<Id(!new)>(c: Suite, cfg: Config, s: State<Id>, step: Step<Id>, got: seq<Drained<Id>>,
                              takes: seq<Option<Id>>)
    requires Enabled(s, step) && QueueSound(s, got, takes)
    requires EmittedSound(c, s.sessions, s.emitted, Sent(s, got, takes))
    ensures var s', got', takes' := Next(c, cfg, s, step), got + DrainedBy(step), takes + TakenBy(s, step);
            |takes'| <= |got'| && EmittedSound(c, s'.sessions, s'.emitted, Sent(s', got', takes'))
  {
    var s' := Next(c, cfg, s, step);
    StepKeepsKeys(c, cfg, s, step);
    EmittedKept(c, s.sessions, s'.sessions, s.emitted, Sent(s, got, takes));
    if step.Send? {
      assert got + [] == got && takes + [] == takes && got[|takes| - 1] in got;
      SendCarries(c, cfg, s);
      SentWithSend(c, cfg, s, got, takes);
    } else {
      SentWithoutSend(c, cfg, s, step, got, takes);
    }
  }

  /** The packets of a run that have been sent, with their sessions. */
  ghost function SentInRun<Id(!new)>(c: Suite, cfg: Config, steps: seq<Step<Id>>): seq<Handed<Id>>
    requires Possible(c, cfg, steps)
  {
    QueueStaysSound(c, cfg, steps);
    Sent(Run(c, cfg, steps), Reads(steps), Takes(c, cfg, steps))
  }

  lemma {:induction false} EmittedStaysSound<Id(!new)>(c: Suite, cfg: Config, steps: seq<Step<Id>>)
    requires Possible(c, cfg, steps)
    ensures EmittedSound(c, Run(c, cfg, steps).sessions, Run(c, cfg, steps).emitted, SentInRun(c, cfg, steps))
  {
    if steps != [] {
      var front := Front(steps);
      EmittedStaysSound(c, cfg, front);
      QueueStaysSound(c, cfg, front);
      EmittedStep(c, cfg, Run(c, cfg, front), Last(steps), Reads(front), Takes(c, cfg, front));
    }
  }

  /** The step that opened this session object. */
  function Opening<Id(==)>(steps: seq<Step<Id>>, id: Id): Option<Step<Id>> {
    if steps == [] then None
    else if Last(steps).AcceptInsert? && Last(steps).id == id then Some(Last(steps))
    else Opening(Front(steps), id)
  }

  /** The session object and its reader are there if and only if a step opened them, and have its keys. */
  ghost predicate OpenedBy<Id>(s: State<Id>, id: Id, o: Option<Step<Id>>) {
    && (id in s.sessions <==> o.Some?) && (id in s.readers <==> o.Some?)
    && (o.Some? ==>
        && o.value.AcceptInsert? && s.readers[id] == o.value.key
        && s.sessions[id].aeadKey == o.value.aeadKey && s.sessions[id].dest == o.value.dest)
  }

  lemma OpenedStep<Id(!new)>(c: Suite, cfg: Config, s: State<Id>, step: Step<Id>, id: Id, o: Option<Step<Id>>)
    requires Enabled(s, step) && OpenedBy(s, id, o)
    ensures OpenedBy(Next(c, cfg, s, step), id, if step.AcceptInsert? && step.id == id then Some(step) else o)
  {
  }

  /** Session objects have the key they were opened with, and their readers the client's. */
  lemma {:induction false} OpenedOnce<Id(!new)>(c: Suite, cfg: Config, steps: seq<Step<Id>>, id: Id)
    requires Possible(c, cfg, steps)
    ensures OpenedBy(Run(c, cfg, steps), id, Opening(steps, id))
  {
    if steps != [] {
      OpenedOnce(c, cfg, Front(steps), id);
      OpenedStep(c, cfg, Run(c, cfg, Front(steps)), Last(steps), id, Opening(Front(steps), id));
    }
  }

  /**
   Downstream delivery: under every interleaving, the datagrams sent are, in order, exactly the packets
   read from the destinations whose client had a session listed when they were taken off the queue
   (but one still in hand); each is sent in that session, and opens to the packet under the key that
   session was opened with.  Nothing else is lost, duplicated or reordered.
   */
  lemma {:induction false} DownstreamIsDelivered<Id(!new)>(c: Suite, cfg: Config, steps: seq<Step<Id>>)
    requires Possible(c, cfg, steps)
    ensures var es, hs := Run(c, cfg, steps).emitted, SentInRun(c, cfg, steps);
            && |es| == |hs|
            && forall i :: 0 <= i < |hs| ==>
                 var o := Opening(steps, hs[i].session);
                 o.Some? && o.value.AcceptInsert? && Carries(c, o.value.aeadKey, es[i], hs[i])
  {
    EmittedStaysSound(c, cfg, steps);
    var s, hs := Run(c, cfg, steps), SentInRun(c, cfg, steps);
    forall i | 0 <= i < |hs|
      ensures var o := Opening(steps, hs[i].session);
              o.Some? && o.value.AcceptInsert? && Carries(c, o.value.aeadKey, s.emitted[i], hs[i])
    {
      assert CarriesIn(c, s.sessions, s.emitted[i], hs[i]);
      OpenedOnce(c, cfg, steps, hs[i].session);
    }
  }

  /** The payloads of the packets handed to one session. */
  function PayloadsFor<Id(==)>(hs: seq<Handed<Id>>, id: Id): seq<bytes> {
    if hs == [] then []
    else PayloadsFor(Front(hs), id) + if Last(hs).session == id then [Last(hs).from.payload] else []
  }

  /** What opens under `key` of the datagrams one session sent. */
  function Opens<Id(==)>(c: Suite, key: Key, es: seq<Emission<Id>>, id: Id): seq<bytes> {
    if es == [] then []
    else
      Opens(c, key, Front(es), id) +
      if Last(es).session != id then []
      else match DecryptFrame(c, key, Last(es).wire) { case Ok((_, payload)) => [payload] case Err(_) => [] }
  }

  /** What the client that opened a session can open with its key, of the datagrams sent in it, is
      exactly the packets handed to that session, in order. */
  lemma {:induction false} EachSessionGetsItsStream<Id(!new)>(c: Suite, cfg: Config, steps: seq<Step<Id>>, id: Id)
    requires Possible(c, cfg, steps) && Opening(steps, id).Some?
    ensures var o := Opening(steps, id).value;
            && o.AcceptInsert?
            && Opens(c, o.aeadKey, Run(c, cfg, steps).emitted, id) == PayloadsFor(SentInRun(c, cfg, steps), id)
  {
    DownstreamIsDelivered(c, cfg, steps);
    OpenedOnce(c, cfg, steps, id);
    StreamsAgree(c, Opening(steps, id).value.aeadKey, Run(c, cfg, steps).emitted, SentInRun(c, cfg, steps), id);
  }

  lemma {:induction false} StreamsAgree<Id>(c: Suite, key: Key, es: seq<Emission<Id>>, hs: seq<Handed<Id>>, id: Id)
    requires |es| == |hs|
    requires forall i :: 0 <= i < |es| ==> es[i].session == hs[i].session
    requires forall i :: 0 <= i < |es| && es[i].session == id ==> Carries(c, key, es[i], hs[i])
    ensures Opens(c, key, es, id) == PayloadsFor(hs, id)
  {
    if es != [] {
      StreamsAgree(c, key, Front(es), Front(hs), id);
      assert Last(es).session == id ==> Carries(c, key, Last(es), Last(hs));
    }
  }

  // ---------- whose data a session sends ----------

  predicate OpensFor<Id>(step: Step<Id>, key: SessionKey) {
    step.AcceptInsert? && step.key == key
  }

  /** The index of the latest step that opened a session for this client, or -1. */
  function LatestOpening<Id>(steps: seq<Step<Id>>, key: SessionKey): (o: int)
    ensures -1 <= o < |steps|
    ensures o >= 0 ==> OpensFor(steps[o], key)
    ensures forall j :: o < j < |steps| ==> !OpensFor(steps[j], key)
  {
    if steps == [] then -1
    else if OpensFor(Last(steps), key) then |steps| - 1
    else LatestOpening(Front(steps), key)
  }

  /** The session last opened for a client, whether or not it is still listed. */
  function LatestFor<Id>(steps: seq<Step<Id>>, key: SessionKey): Option<Id> {
    var o := LatestOpening(steps, key);
    if o >= 0 then Some(steps[o].id) else None
  }

  lemma {:induction false} TableListsLatest<Id(!new)>(c: Suite, cfg: Config, steps: seq<Step<Id>>, key: SessionKey)
    requires Possible(c, cfg, steps) && key in Run(c, cfg, steps).table
    ensures LatestFor(steps, key) == Some(Run(c, cfg, steps).table[key])
  {
    var s, step := Run(c, cfg, Front(steps)), Last(steps);
    if !OpensFor(step, key) {
      assert key in s.table && s.table[key] == Run(c, cfg, steps).table[key];
      TableListsLatest(c, cfg, Front(steps), key);
    }
  }

  /** The index of the step that takes the n-th packet off the queue. */
  function TakingStep<Id>(steps: seq<Step<Id>>, n: nat): (m: int)
    ensures -1 <= m < |steps| && (m >= 0 ==> steps[m].Dequeue?)
  {
    if steps == [] then -1
    else
      var m := TakingStep(Front(steps), n);
      if m >= 0 || !Last(steps).Dequeue? || n != Dequeues(Front(steps)) then m else |steps| - 1
  }

  function Dequeues<Id>(steps: seq<Step<Id>>): nat {
    if steps == [] then 0 else Dequeues(Front(steps)) + if Last(steps).Dequeue? then 1 else 0
  }

  lemma {:induction false} OneTakePerDequeue<Id(!new)>(c: Suite, cfg: Config, steps: seq<Step<Id>>)
    requires Possible(c, cfg, steps)
    ensures |Takes(c, cfg, steps)| == Dequeues(steps)
  {
    if steps != [] {
      OneTakePerDequeue(c, cfg, Front(steps));
    }
  }

  /** The n-th packet taken off the queue is the n-th read, and finds the session its client has listed
      just then, which is the one last opened for that client. */
  ghost predicate FindsLatest<Id(!new)>(c: Suite, cfg: Config, steps: seq<Step<Id>>, n: nat)
    requires Possible(c, cfg, steps) && n < |Takes(c, cfg, steps)|
  {
    var m := TakingStep(steps, n);
    && 0 <= m && n < |Reads(steps)| && Possible(c, cfg, steps[..m])
    && var table, key := Run(c, cfg, steps[..m]).table, Reads(steps)[n].key;
       && Takes(c, cfg, steps)[n] == (if key in table then Some(table[key]) else None)
       && (key in table ==> LatestFor(steps[..m], key) == Some(table[key]))
  }

  lemma {:induction false} TakingFindsLatest<Id(!new)>(c: Suite, cfg: Config, steps: seq<Step<Id>>)
    requires Possible(c, cfg, steps) && steps != [] && Last(steps).Dequeue?
    ensures |Takes(c, cfg, steps)| == Dequeues(Front(steps)) + 1
    ensures FindsLatest(c, cfg, steps, Dequeues(Front(steps)))
  {
    var front, n := Front(steps), Dequeues(Front(steps));
    OneTakePerDequeue(c, cfg, front);
    QueueStaysSound(c, cfg, front);
    NotYetTaken(front, n);
    var s := Run(c, cfg, front);
    assert IsPacketOf(s.queue[0], Reads(front)[n]);
    assert steps[..|steps| - 1] == front;
    if s.queue[0].key in s.table {
      TableListsLatest(c, cfg, front, s.queue[0].key);
    }
  }

  lemma {:induction false} TakesFindLatest<Id(!new)>(c: Suite, cfg: Config, steps: seq<Step<Id>>, n: nat)
    requires Possible(c, cfg, steps) && n < |Takes(c, cfg, steps)|
    ensures FindsLatest(c, cfg, steps, n)
  {
    OneTakePerDequeue(c, cfg, steps);
    if n < Dequeues(Front(steps)) {
      OneTakePerDequeue(c, cfg, Front(steps));
      TakesFindLatest(c, cfg, Front(steps), n);
      assert Front(steps)[..TakingStep(Front(steps), n)] == steps[..TakingStep(Front(steps), n)];
    } else {
      TakingFindsLatest(c, cfg, steps);
    }
  }

  lemma {:induction false} NotYetTaken<Id>(steps: seq<Step<Id>>, n: nat)
    requires n >= Dequeues(steps)
    ensures TakingStep(steps, n) == -1
  {
    if steps != [] {
      NotYetTaken(Front(steps), n);
    }
  }

  /**
   Readers outlive the listing of their session.  A packet that finds a session is sent in that of its
   own reader if and only if no later session had been opened for its client by the time it was taken
   off the queue; otherwise the client's new session is sent data from the old one's destination.
   */
  lemma {:induction false} SessionSendsOwnDataExactlyWhen<Id(!new)>(c: Suite, cfg: Config, steps: seq<Step<Id>>, n: nat)
    requires Possible(c, cfg, steps) && n < |Takes(c, cfg, steps)| && Takes(c, cfg, steps)[n].Some?
    ensures n < |Reads(steps)| && 0 <= TakingStep(steps, n)
    ensures var r, before := Reads(steps)[n], steps[..TakingStep(steps, n)];
            Takes(c, cfg, steps)[n] == Some(r.reader) <==> LatestFor(before, r.key) == Some(r.reader)
  {
    TakesFindLatest(c, cfg, steps, n);
  }

  /** A client has signed on, and a packet has been read for it. */
  lemma {:induction false} PacketRead(c: Suite, cfg: Config, key: Key, payload: bytes, now: Instant)
    returns (steps: seq<Step<nat>>)
    requires cfg.maxSessions >= 2 && |payload| <= MAX_PAYLOAD_LEN
    ensures Possible(c, cfg, steps)
    ensures Reads(steps) == [Drained(ClientKey(0), 0, payload)]
    ensures Opening(steps, 0) == Some(AcceptInsert(ClientKey(0), 0, key, ANYWHERE, now))
    ensures Run(c, cfg, steps) ==
            State(map[ClientKey(0) := 0], map[0 := SessionRec(key, ANYWHERE, 0, now)], map[0 := ClientKey(0)], 0,
                  [DownstreamPacket(ClientKey(0), payload)], None, None, [])
  {
    var k := ClientKey(0);
    steps := Then(c, cfg, [], AcceptCheck);
    steps := Then(c, cfg, steps, AcceptInsert(k, 0, key, ANYWHERE, now));
    steps := Then(c, cfg, steps, Drain(k, 0, payload));
  }

  /** The client has then signed on again. */
  lemma {:induction false} SignedOnAgain(
    c: Suite, cfg: Config, oldKey: Key, newKey: Key, payload: bytes, now: Instant) returns (steps: seq<Step<nat>>)
    requires cfg.maxSessions >= 2 && |payload| <= MAX_PAYLOAD_LEN
    ensures Possible(c, cfg, steps)
    ensures Reads(steps) == [Drained(ClientKey(0), 0, payload)]
    ensures Opening(steps, 0) == Some(AcceptInsert(ClientKey(0), 0, oldKey, ANYWHERE, now))
    ensures var s := Run(c, cfg, steps);
            && s.queue == [DownstreamPacket(ClientKey(0), payload)] && s.inHand == None && s.emitted == []
            && ClientKey(0) in s.table && s.table[ClientKey(0)] == 1
            && 1 in s.sessions && s.sessions[1] == SessionRec(newKey, ANYWHERE, 0, now)
  {
    steps := PacketRead(c, cfg, oldKey, payload, now);
    assert Reads(steps) + [] == Reads(steps);
    steps := Then(c, cfg, steps, AcceptCheck);
    steps := Then(c, cfg, steps, AcceptInsert(ClientKey(0), 1, newKey, ANYWHERE, now));
  }

  lemma {:induction false} InNewHands(
    c: Suite, cfg: Config, oldKey: Key, newKey: Key, payload: bytes, now: Instant) returns (steps: seq<Step<nat>>)
    requires cfg.maxSessions >= 2 && |payload| <= MAX_PAYLOAD_LEN
    ensures Possible(c, cfg, steps)
    ensures Reads(steps) == [Drained(ClientKey(0), 0, payload)]
    ensures Opening(steps, 0) == Some(AcceptInsert(ClientKey(0), 0, oldKey, ANYWHERE, now))
    ensures var s := Run(c, cfg, steps);
            && s.inHand == Some((DownstreamPacket(ClientKey(0), payload), 1)) && s.emitted == []
            && 1 in s.sessions && s.sessions[1] == SessionRec(newKey, ANYWHERE, 0, now)
  {
    steps := SignedOnAgain(c, cfg, oldKey, newKey, payload, now);
    assert Reads(steps) + [] == Reads(steps);
    steps := Then(c, cfg, steps, Dequeue);
  }

  /** The packet then goes out in the client's new session, under the new session's key. */
  lemma {:induction false} OldDataReachesNewSession(
    c: Suite, cfg: Config, oldKey: Key, newKey: Key, payload: bytes, now: Instant) returns (steps: seq<Step<nat>>)
    requires cfg.maxSessions >= 2 && |payload| <= MAX_PAYLOAD_LEN
    ensures Possible(c, cfg, steps)
    ensures Reads(steps) == [Drained(ClientKey(0), 0, payload)]
    ensures Opening(steps, 0) == Some(AcceptInsert(ClientKey(0), 0, oldKey, ANYWHERE, now))
    ensures var es := Run(c, cfg, steps).emitted;
            |es| == 1 && Carries(c, newKey, es[0], Handed(Reads(steps)[0], 1))
  {
    steps := InNewHands(c, cfg, oldKey, newKey, payload, now);
    assert Reads(steps) + [] == Reads(steps);
    SendCarries(c, cfg, Run(c, cfg, steps));
    steps := Then(c, cfg, steps, Send);
  }

  lemma Then(c: Suite, cfg: Config, steps: seq<Step<nat>>, step: Step<nat>) returns (steps': seq<Step<nat>>)
    requires Possible(c, cfg, steps) && Enabled(Run(c, cfg, steps), step)
    ensures Possible(c, cfg, steps') && Run(c, cfg, steps') == Next(c, cfg, Run(c, cfg, steps), step)
    ensures Reads(steps') == Reads(steps) + DrainedBy(step)
    ensures forall id ::
              Opening(steps', id) == if step.AcceptInsert? && step.id == id then Some(step) else Opening(steps, id)
  {
    Extend(c, cfg, steps, step);
    steps' := steps + [step];
    assert Front(steps') == steps;
  }

  // ---------- sequence numbers ----------

  /** The sequence numbers one session object has put on the wire. */
  function Sequences<Id(==)>(es: seq<Emission<Id>>, id: Id): seq<u64> {
    if es == [] then [] else Sequences(Front(es), id) + if Last(es).session == id then [Last(es).sequence] else []
  }

  /** 1, 2, 3, ... for as long as 64 bits last. */
  predicate CountsFromOne(qs: seq<u64>) {
    forall i :: 0 <= i < |qs| ==> qs[i] == (i + 1) % TWO_TO_64
  }

  ghost predicate Counted<Id>(s: State<Id>, id: Id) {
    var qs := Sequences(s.emitted, id);
    && CountsFromOne(qs)
    && (if id in s.sessions then s.sessions[id].txSequence == |qs| % TWO_TO_64 else qs == [])
  }

  lemma {:induction false} SendCounts<Id(!new)>(c: Suite, cfg: Config, s: State<Id>, id: Id, got: seq<Drained<Id>>,
                                                 takes: seq<Option<Id>>)
    requires QueueSound(s, got, takes) && Enabled(s, Send) && Counted(s, id)
    ensures Counted(Next(c, cfg, s, Send), id)
  {
    assert got[|takes| - 1] in got;
    SendCarries(c, cfg, s);
    var s' := Next(c, cfg, s, Send);
    assert Front(s'.emitted) == s.emitted;
    NextCount(Sequences(s.emitted, id));
  }

  lemma {:induction false} CountStep<Id(!new)>(c: Suite, cfg: Config, s: State<Id>, step: Step<Id>, id: Id,
                                                got: seq<Drained<Id>>, takes: seq<Option<Id>>)
    requires QueueSound(s, got, takes) && Enabled(s, step) && Counted(s, id)
    ensures Counted(Next(c, cfg, s, step), id)
  {
    if step.Send? {
      SendCounts(c, cfg, s, id, got, takes);
    } else {
      assert Next(c, cfg, s, step).emitted == s.emitted;
    }
  }

  lemma NextCount(qs: seq<u64>)
    requires CountsFromOne(qs)
    ensures CountsFromOne(qs + [(|qs| % TWO_TO_64 + 1) % TWO_TO_64])
    ensures (|qs| % TWO_TO_64 + 1) % TWO_TO_64 == (|qs| + 1) % TWO_TO_64
  {
  }

  /** Each session object numbers its frames 1, 2, 3, ... without a gap: no frame the bridge builds is
      too large to encrypt, so no number is used up without being sent. */
  lemma {:induction false} SessionsCountFromOne<Id(!new)>(c: Suite, cfg: Config, steps: seq<Step<Id>>, id: Id)
    requires Possible(c, cfg, steps)
    ensures Counted(Run(c, cfg, steps), id)
  {
    if steps != [] {
      SessionsCountFromOne(c, cfg, Front(steps), id);
      QueueStaysSound(c, cfg, Front(steps));
      CountStep(c, cfg, Run(c, cfg, Front(steps)), Last(steps), id, Reads(Front(steps)), Takes(c, cfg, Front(steps)));
    }
  }

  lemma {:induction false} SequenceOf<Id(!new)>(es: seq<Emission<Id>>, id: Id, i: nat) returns (r: nat)
    requires i < |es| && es[i].session == id
    ensures r < |Sequences(es, id)| && Sequences(es, id)[r] == es[i].sequence
    ensures r == |Sequences(es[..i], id)|
  {
    if i == |es| - 1 {
      r := |Sequences(Front(es), id)|;
    } else {
      r := SequenceOf(Front(es), id, i);
      assert Front(es)[..i] == es[..i];
    }
  }

  lemma {:induction false} SequencesGrow<Id(!new)>(es: seq<Emission<Id>>, id: Id, i: nat, j: nat)
    requires i < j <= |es| && es[i].session == id
    ensures |Sequences(es[..i], id)| < |Sequences(es[..j], id)|
  {
    assert Front(es[..j]) == es[..j - 1];
    if i < j - 1 {
      SequencesGrow(es, id, i, j - 1);
    }
  }

  /** Every session is listed under its client's key, and sends to that client only. */
  ghost predicate ServesOneClient<Id>(s: State<Id>) {
    && s.readers.Keys == s.sessions.Keys
    && (forall k :: k in s.table ==> s.table[k] in s.readers && s.readers[s.table[k]] == k)
    && (s.inHand.Some? ==> s.inHand.value.1 in s.readers && s.readers[s.inHand.value.1] == s.inHand.value.0.key)
    && (forall e :: e in s.emitted ==> e.session in s.readers && s.readers[e.session] == e.key)
  }

  lemma OneClientStep<Id(!new)>(c: Suite, cfg: Config, s: State<Id>, step: Step<Id>)
    requires Enabled(s, step) && ServesOneClient(s)
    ensures ServesOneClient(Next(c, cfg, s, step))
  {
  }

  lemma {:induction false} SessionsServeOneClient<Id(!new)>(c: Suite, cfg: Config, steps: seq<Step<Id>>)
    requires Possible(c, cfg, steps)
    ensures ServesOneClient(Run(c, cfg, steps))
  {
    if steps != [] {
      SessionsServeOneClient(c, cfg, Front(steps));
      OneClientStep(c, cfg, Run(c, cfg, Front(steps)), Last(steps));
    }
  }

  lemma {:induction false} OneClientEach<Id(!new)>(c: Suite, cfg: Config, steps: seq<Step<Id>>, i: nat, j: nat)
    requires Possible(c, cfg, steps) && i < |Run(c, cfg, steps).emitted| && j < |Run(c, cfg, steps).emitted|
    requires Run(c, cfg, steps).emitted[i].session == Run(c, cfg, steps).emitted[j].session
    ensures Run(c, cfg, steps).emitted[i].key == Run(c, cfg, steps).emitted[j].key
  {
    SessionsServeOneClient(c, cfg, steps);
  }

  /** How many datagrams a session had sent before the `i`-th of all. */
  function SentBefore<Id(==)>(es: seq<Emission<Id>>, i: nat): nat
    requires i < |es|
  {
    |Sequences(es[..i], es[i].session)|
  }

  /** The header on the wire of the `i`-th datagram of all: plain data, for its client, numbered in its
      session from 1. */
  predicate IsNumbered<Id(==)>(es: seq<Emission<Id>>, i: nat)
    requires i < |es|
  {
    Header.Decode(es[i].wire) ==
    Ok(Header(1, Flags(false, false, false, false), es[i].key.connectionId, (SentBefore(es, i) + 1) % TWO_TO_64))
  }

  lemma {:induction false} SequenceIsCount<Id(!new)>(es: seq<Emission<Id>>, i: nat)
    requires i < |es| && CountsFromOne(Sequences(es, es[i].session))
    ensures es[i].sequence == (SentBefore(es, i) + 1) % TWO_TO_64
  {
    var r := SequenceOf(es, es[i].session, i);
  }

  lemma CarriedHeader<Id>(c: Suite, key: Key, e: Emission<Id>, h: Handed<Id>)
    requires Carries(c, key, e, h)
    ensures Header.Decode(e.wire) == Ok(Header(1, Flags(false, false, false, false), e.key.connectionId, e.sequence))
  {
    OpenedHeader(c, key, e.wire, Header(1, Flags(false, false, false, false), e.key.connectionId, e.sequence),
                 h.from.payload);
  }

  /** In every run the headers on the wire number each session's datagrams 1, 2, 3, ... */
  lemma {:induction false} HeadersCountFromOne<Id(!new)>(c: Suite, cfg: Config, steps: seq<Step<Id>>, i: nat)
    requires Possible(c, cfg, steps) && i < |Run(c, cfg, steps).emitted|
    ensures IsNumbered(Run(c, cfg, steps).emitted, i)
  {
    var es := Run(c, cfg, steps).emitted;
    SessionsCountFromOne(c, cfg, steps, es[i].session);
    SequenceIsCount(es, i);
    DownstreamIsDelivered(c, cfg, steps);
    var h := SentInRun(c, cfg, steps)[i];
    CarriedHeader(c, Opening(steps, h.session).value.aeadKey, es[i], h);
  }

  /** The nonces of the `i`-th and `j`-th datagram of all, as read off the wire, agree exactly when whole
      turns of their session apart. */
  predicate RepeatNonceExactly<Id(==)>(es: seq<Emission<Id>>, i: nat, j: nat)
    requires i < j < |es|
  {
    && SentBefore(es, i) < SentBefore(es, j)
    && NonceOf(es[i].wire).Some? && NonceOf(es[j].wire).Some?
    && (NonceOf(es[i].wire) == NonceOf(es[j].wire) <==> WholeTurns(SentBefore(es, j) - SentBefore(es, i)))
  }

  lemma NonceOfNumbered<Id>(es: seq<Emission<Id>>, i: nat)
    requires i < |es| && IsNumbered(es, i)
    ensures NonceOf(es[i].wire) == Some(NonceBytes(es[i].key.connectionId, (SentBefore(es, i) + 1) % TWO_TO_64))
  {
  }

  lemma {:induction false} EmissionsRepeatNonce<Id(!new)>(es: seq<Emission<Id>>, i: nat, j: nat)
    requires i < j < |es| && es[i].session == es[j].session && es[i].key == es[j].key
    requires IsNumbered(es, i) && IsNumbered(es, j)
    ensures RepeatNonceExactly(es, i, j)
  {
    var a, b := SentBefore(es, i), SentBefore(es, j);
    SequencesGrow(es, es[i].session, i, j);
    CountsAgree(a + 1, b + 1);
    NonceOfNumbered(es, i);
    NonceOfNumbered(es, j);
    var cid := es[i].key.connectionId;
    NonceInjective(cid, (a + 1) % TWO_TO_64, cid, (b + 1) % TWO_TO_64);
  }

  /** Two datagrams of one session share a nonce exactly when a multiple of 2^64 of its datagrams apart. */
  lemma {:induction false} SessionRepeatsNonceExactlyWhen<Id(!new)>(
    c: Suite, cfg: Config, steps: seq<Step<Id>>, i: nat, j: nat)
    requires Possible(c, cfg, steps)
    requires i < j < |Run(c, cfg, steps).emitted|
    requires Run(c, cfg, steps).emitted[i].session == Run(c, cfg, steps).emitted[j].session
    ensures RepeatNonceExactly(Run(c, cfg, steps).emitted, i, j)
  {
    HeadersCountFromOne(c, cfg, steps, i);
    HeadersCountFromOne(c, cfg, steps, j);
    OneClientEach(c, cfg, steps, i, j);
    EmissionsRepeatNonce(Run(c, cfg, steps).emitted, i, j);
  }
}
