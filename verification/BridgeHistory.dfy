/** The bridge's session table as a replay of the steps taken. */
module BridgeHistory {
  import opened Wire
  import opened Crypto
  import opened Protocol
  import opened Bridge
  import opened BridgeRuns

  // ---------- activity ----------

  /** When the session was opened, or a client's datagram was last decrypted in it. */
  function LastHeard<Id(==)>(steps: seq<Step<Id>>, id: Id): Option<Instant> {
    if steps == [] then None
    else
      match Last(steps)
      case AcceptInsert(_, i, _, _, now) => if i == id then Some(now) else LastHeard(Front(steps), id)
      case Forward(i, now) => if i == id then Some(now) else LastHeard(Front(steps), id)
      case _ => LastHeard(Front(steps), id)
  }

  predicate HeardAt<Id(==)>(s: State<Id>, id: Id, heard: Option<Instant>) {
    (id in s.sessions <==> heard.Some?) && (id in s.sessions ==> s.sessions[id].lastActive == heard.value)
  }

  lemma HeardStep<Id(!new)>(c: Suite, cfg: Config, s: State<Id>, step: Step<Id>, id: Id, heard: Option<Instant>)
    requires Enabled(s, step) && HeardAt(s, id, heard)
    ensures HeardAt(Next(c, cfg, s, step), id,
                    if step.AcceptInsert? && step.id == id then Some(step.now)
                    else if step.Forward? && step.id == id then Some(step.now)
                    else heard)
  {
  }

  /** A session's last activity is its opening or its latest datagram from the client: nothing the
      destination sends, however much, counts. */
  lemma {:induction false} OnlyClientsKeepSessionsAlive<Id(!new)>(c: Suite, cfg: Config, steps: seq<Step<Id>>, id: Id)
    requires Possible(c, cfg, steps)
    ensures HeardAt(Run(c, cfg, steps), id, LastHeard(steps, id))
  {
    if steps != [] {
      OnlyClientsKeepSessionsAlive(c, cfg, Front(steps), id);
      HeardStep(c, cfg, Run(c, cfg, Front(steps)), Last(steps), id, LastHeard(Front(steps), id));
    }
  }

  // ---------- the table ----------

  /** The index of the reaper's latest scan, or -1. */
  function LatestScan<Id>(steps: seq<Step<Id>>): (m: int)
    ensures -1 <= m < |steps|
    ensures m >= 0 ==> steps[m].ReapScan?
  {
    if steps == [] then -1
    else if Last(steps).ReapScan? then |steps| - 1
    else LatestScan(Front(steps))
  }

  /** A session was opened for the client, and no removal since then follows a scan that found the
      client's session idle. */
  ghost predicate Listed<Id>(cfg: Config, steps: seq<Step<Id>>, key: SessionKey)
    decreases |steps|, 0
  {
    && LatestOpening(steps, key) >= 0
    && forall j :: LatestOpening(steps, key) < j < |steps| ==> Spared(cfg, steps, key, j)
  }

  /** If step `j` is a removal, the scan before it did not find the client's session idle. */
  ghost predicate Spared<Id>(cfg: Config, steps: seq<Step<Id>>, key: SessionKey, j: nat)
    requires j < |steps|
    decreases j, 2
  {
    steps[j].ReapRemove? ==> LatestScan(steps[..j]) >= 0 ==> !FoundIdle(cfg, steps, key, LatestScan(steps[..j]))
  }

  /** The scan at step `m` finds the client listed, its session unlocked, and not heard from in time. */
  ghost predicate FoundIdle<Id>(cfg: Config, steps: seq<Step<Id>>, key: SessionKey, m: nat)
    requires m < |steps| && steps[m].ReapScan?
    decreases m, 1
  {
    && Listed(cfg, steps[..m], key) && key in steps[m].unlocked
    && var heard := LastHeard(steps[..m], steps[LatestOpening(steps[..m], key)].id);
       heard.Some? && heard.value < steps[m].now - cfg.idleTimeout
  }

  lemma FoundIdleSoFar<Id>(cfg: Config, steps: seq<Step<Id>>, key: SessionKey, m: nat)
    requires m + 1 < |steps| && steps[m].ReapScan?
    ensures FoundIdle(cfg, Front(steps), key, m) <==> FoundIdle(cfg, steps, key, m)
  {
    assert Front(steps)[..m] == steps[..m];
  }

  lemma SparedSoFar<Id>(cfg: Config, steps: seq<Step<Id>>, key: SessionKey, j: nat)
    requires j + 1 < |steps|
    ensures Spared(cfg, Front(steps), key, j) <==> Spared(cfg, steps, key, j)
  {
    assert Front(steps)[..j] == steps[..j];
    if LatestScan(steps[..j]) >= 0 {
      FoundIdleSoFar(cfg, steps, key, LatestScan(steps[..j]));
    }
  }

  /** What one more step does to the listing. */
  lemma ListedStep<Id>(cfg: Config, steps: seq<Step<Id>>, key: SessionKey)
    requires steps != []
    ensures Listed(cfg, steps, key) <==>
            || OpensFor(Last(steps), key)
            || (Listed(cfg, Front(steps), key) && Spared(cfg, steps, key, |steps| - 1))
  {
    if !OpensFor(Last(steps), key) {
      forall j | 0 <= j < |steps| - 1 ensures Spared(cfg, Front(steps), key, j) <==> Spared(cfg, steps, key, j) {
        SparedSoFar(cfg, steps, key, j);
      }
    }
  }

  /** The table lists the client exactly when the history does, with the session last opened for it. */
  ghost predicate TableAgrees<Id>(cfg: Config, steps: seq<Step<Id>>, s: State<Id>, key: SessionKey) {
    && (key in s.table <==> Listed(cfg, steps, key))
    && (key in s.table ==>
        var opening := steps[LatestOpening(steps, key)];
        && s.table[key] == opening.id && s.table[key] in s.sessions
        && s.sessions[s.table[key]].aeadKey == opening.aeadKey && s.sessions[s.table[key]].dest == opening.dest)
  }

  /** What the reaper holds is what its latest scan found idle. */
  ghost predicate ReaperAgrees<Id>(cfg: Config, steps: seq<Step<Id>>, s: State<Id>, key: SessionKey) {
    s.toDrop.Some? ==>
      && LatestScan(steps) >= 0
      && (key in s.toDrop.value <==> FoundIdle(cfg, steps, key, LatestScan(steps)))
  }

  lemma ReaperStep<Id(!new)>(c: Suite, cfg: Config, steps: seq<Step<Id>>, key: SessionKey)
    requires Possible(c, cfg, steps) && steps != []
    requires TableAgrees(cfg, Front(steps), Run(c, cfg, Front(steps)), key)
    requires ReaperAgrees(cfg, Front(steps), Run(c, cfg, Front(steps)), key)
    ensures ReaperAgrees(cfg, steps, Run(c, cfg, steps), key)
  {
    var s, step, n := Run(c, cfg, Front(steps)), Last(steps), |steps| - 1;
    if step.ReapScan? {
      assert steps[..n] == Front(steps);
      if key in s.table {
        OnlyClientsKeepSessionsAlive(c, cfg, Front(steps), s.table[key]);
      }
    } else if !step.ReapRemove? {
      assert Run(c, cfg, steps).toDrop == s.toDrop;
      if s.toDrop.Some? {
        FoundIdleSoFar(cfg, steps, key, LatestScan(steps));
      }
    }
  }

  lemma TableStep<Id(!new)>(c: Suite, cfg: Config, steps: seq<Step<Id>>, key: SessionKey)
    requires Possible(c, cfg, steps) && steps != []
    requires TableAgrees(cfg, Front(steps), Run(c, cfg, Front(steps)), key)
    requires ReaperAgrees(cfg, Front(steps), Run(c, cfg, Front(steps)), key)
    ensures TableAgrees(cfg, steps, Run(c, cfg, steps), key)
  {
    var s, step, n := Run(c, cfg, Front(steps)), Last(steps), |steps| - 1;
    ListedStep(cfg, steps, key);
    if step.ReapRemove? {
      assert steps[..n] == Front(steps);
      FoundIdleSoFar(cfg, steps, key, LatestScan(Front(steps)));
    } else if !OpensFor(step, key) {
      Unaffected(c, cfg, s, step, key);
    }
  }

  lemma Unaffected<Id(!new)>(c: Suite, cfg: Config, s: State<Id>, step: Step<Id>, key: SessionKey)
    requires Enabled(s, step) && !step.ReapRemove? && !OpensFor(step, key)
    ensures var s' := Next(c, cfg, s, step);
            && (key in s'.table <==> key in s.table)
            && (key in s.table && s.table[key] in s.sessions ==>
                && s'.table[key] == s.table[key] && s.table[key] in s'.sessions
                && s'.sessions[s.table[key]].aeadKey == s.sessions[s.table[key]].aeadKey
                && s'.sessions[s.table[key]].dest == s.sessions[s.table[key]].dest)
  {
  }

  /**
   The session table is determined by the steps: a client is listed exactly when a session was opened
   for it and no removal since then followed a scan that found its session idle, and then with the
   session last opened for it, under that session's key and destination.
   */
  lemma {:induction false} TableIsReplayOfSteps<Id(!new)>(c: Suite, cfg: Config, steps: seq<Step<Id>>, key: SessionKey)
    requires Possible(c, cfg, steps)
    ensures TableAgrees(cfg, steps, Run(c, cfg, steps), key)
    ensures ReaperAgrees(cfg, steps, Run(c, cfg, steps), key)
  {
    if steps != [] {
      TableIsReplayOfSteps(c, cfg, Front(steps), key);
      TableStep(c, cfg, steps, key);
      ReaperStep(c, cfg, steps, key);
    }
  }

  /** Once a client is not listed it stays so until a session is opened for it. */
  lemma {:induction false} UnlistedUntilReopened<Id>(cfg: Config, steps: seq<Step<Id>>, key: SessionKey, n: nat)
    requires n <= |steps| && !Listed(cfg, steps[..n], key)
    requires forall j :: n <= j < |steps| ==> !OpensFor(steps[j], key)
    ensures !Listed(cfg, steps, key)
  {
    if n == |steps| {
      assert steps[..n] == steps;
    } else {
      assert Front(steps)[..n] == steps[..n];
      UnlistedUntilReopened(cfg, Front(steps), key, n);
      ListedStep(cfg, steps, key);
    }
  }

  /**
   A data frame that decrypts under the key of the session last opened for its client is passed on to
   that session's destination if and only if the client is listed; otherwise it is dropped.
   */
  lemma {:induction false} FramesArePassedOnExactlyWhen<Id(!new)>(
    c: Suite, cfg: Config, steps: seq<Step<Id>>, key: SessionKey, pkt: bytes, h: Header, payload: bytes)
    requires Possible(c, cfg, steps) && LatestOpening(steps, key) >= 0
    requires DecryptFrame(c, steps[LatestOpening(steps, key)].aeadKey, pkt) == Ok((h, payload))
    ensures var s, dest := Run(c, cfg, steps), steps[LatestOpening(steps, key)].dest;
            && (key in s.table ==> s.table[key] in s.sessions)
            && Upstream(c, s, key, pkt) == if Listed(cfg, steps, key) then Ok((dest, payload)) else Err(NoSession)
  {
    TableIsReplayOfSteps(c, cfg, steps, key);
  }

  /** And any other frame is refused: for want of a session if and only if the client is not listed, and
      otherwise for what is wrong with it. */
  lemma {:induction false} FramesAreRefusedExactlyWhen<Id(!new)>(
    c: Suite, cfg: Config, steps: seq<Step<Id>>, key: SessionKey, pkt: bytes)
    requires Possible(c, cfg, steps)
    ensures var s, o := Run(c, cfg, steps), LatestOpening(steps, key);
            && (key in s.table ==> s.table[key] in s.sessions)
            && (Upstream(c, s, key, pkt) == Err(NoSession) <==> !Listed(cfg, steps, key))
            && (Listed(cfg, steps, key) && DecryptFrame(c, steps[o].aeadKey, pkt).Err? ==>
                Upstream(c, s, key, pkt) == Err(BadFrame(DecryptFrame(c, steps[o].aeadKey, pkt).error)))
  {
    TableIsReplayOfSteps(c, cfg, steps, key);
  }
}
