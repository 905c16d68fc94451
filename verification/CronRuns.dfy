/** Whole runs of the outbox: many workers, one clock, lease deadlines, and what survives every run. */
module CronRuns {
  import opened Prelude
  import opened CronOutbox

  /** One popped copy of a row in the hands of some worker, with the retry count it was read with. */
  datatype Lease = Lease(token: nat, id: string, at: int, retries: nat)

  datatype World = World(rows: Table, now: int, leases: set<Lease>, nextToken: nat)

  datatype Event =
    | Tick(secs: nat)
    | Insert(p: Payload, newId: string)
    | Pop(batchSize: int)
    | Deliver(lease: Lease)
    | Retry(lease: Lease, error: string, nextRetryAt: int)
    | Fail(lease: Lease, error: string)
    | Reclaim(threshold: int)
    | Stamp(id: string)
  {
    predicate IsMark() { Deliver? || Retry? || Fail? }
  }

  function Popped(w: World, batchSize: int): set<string>
  {
    Members(PopIds(w.rows, batchSize, w.now))
  }

  function LeaseOf(w: World, id: string): Lease
    requires id in w.rows
  {
    Lease(w.nextToken, id, w.now, w.rows[id].retryCount)
  }

  function Step(w: World, e: Event): World
  {
    match e
    case Tick(secs) => w.(now := w.now + secs)
    case Insert(p, newId) => w.(rows := Inserted(w.rows, p, newId, w.now))
    case Pop(b) =>
      var ids := Popped(w, b);
      World(Leased(w.rows, ids, w.now), w.now,
            w.leases + (set id | id in ids && id in w.rows :: LeaseOf(w, id)), w.nextToken + 1)
    case Deliver(l) => w.(rows := MarkedDelivered(w.rows, l.id, w.now), leases := w.leases - {l})
    case Retry(l, err, next) => w.(rows := MarkedRetry(w.rows, l.id, err, next), leases := w.leases - {l})
    case Fail(l, err) => w.(rows := MarkedFailed(w.rows, l.id, err), leases := w.leases - {l})
    case Reclaim(thr) => w.(rows := Reclaimed(w.rows, Stuck(w.rows, w.now - thr)))
    case Stamp(id) => w.(rows := Stamped(w.rows, id, w.now))
  }

  function Run(w: World, tr: seq<Event>): World
  {
    if tr == [] then w else Step(Run(w, tr[..|tr| - 1]), tr[|tr| - 1])
  }

  function Start(now: int): World { World(map[], now, {}, 0) }

  /** The only thing assumed of every run: a new uuid is not the id of a row. */
  predicate Possible(w: World, e: Event)
  {
    e.Insert? ==> e.newId !in w.rows
  }

  predicate PossibleRun(w: World, tr: seq<Event>)
  {
    tr == [] || (PossibleRun(w, tr[..|tr| - 1]) && Possible(Run(w, tr[..|tr| - 1]), tr[|tr| - 1]))
  }

  // ---------- What holds whatever the order of marks ----------

  predicate RowOk(r: Row)
  {
    (r.leasedAt.Some? <==> r.status == Delivering) && (r.status == Delivered ==> r.deliveredAt.Some?)
  }

  predicate UniqueKeys(t: Table)
  {
    forall a, b {:trigger KeyOf(t[a].payload), KeyOf(t[b].payload)} |
      a in t && b in t && KeyOf(t[a].payload) == KeyOf(t[b].payload) :: a == b
  }

  predicate Structural(t: Table)
  {
    (forall id | id in t :: RowOk(t[id])) && UniqueKeys(t)
  }

  /** The mark_retry calls of a run that found the row. */
  function RetryCalls(w: World, tr: seq<Event>, id: string): nat
  {
    if tr == [] then 0 else
      var before, e := tr[..|tr| - 1], tr[|tr| - 1];
      RetryCalls(w, before, id) + if e.Retry? && e.lease.id == id && id in Run(w, before).rows then 1 else 0
  }

  function RetriesStored(t: Table, id: string): nat { if id in t then t[id].retryCount else 0 }

  function InsertedKeys(tr: seq<Event>): set<Key>
  {
    if tr == [] then {} else
      InsertedKeys(tr[..|tr| - 1])
      + if tr[|tr| - 1].Insert? then {KeyOf(tr[|tr| - 1].p)} else {}
  }

  function KeysOf(t: Table): set<Key> { set id | id in t :: KeyOf(t[id].payload) }

  lemma HasKeyIsMembership(t: Table, k: Key)
    ensures HasKey(t, k) <==> k in KeysOf(t)
  {
  }

  lemma NewRowKeys(t: Table, p: Payload, newId: string, now: int)
    requires newId !in t
    ensures KeysOf(t[newId := NewRow(p, now)]) == KeysOf(t) + {KeyOf(p)}
  {
    var t' := t[newId := NewRow(p, now)];
    forall x ensures x in KeysOf(t') <==> x in KeysOf(t) + {KeyOf(p)} {
      if x in KeysOf(t) { var id :| id in t && KeyOf(t[id].payload) == x; assert KeyOf(t'[id].payload) == x; }
      if x == KeyOf(p) { assert KeyOf(t'[newId].payload) == x; }
    }
  }

  lemma InsertKeepsStructure(t: Table, p: Payload, newId: string, now: int)
    requires Structural(t) && newId !in t
    ensures var t' := Inserted(t, p, newId, now);
            && Structural(t')
            && KeysOf(t') == KeysOf(t) + {KeyOf(p)}
            && (KeyOf(p) in KeysOf(t) ==> t' == t)
            && |t'| == |t| + if KeyOf(p) in KeysOf(t) then 0 else 1
  {
    HasKeyIsMembership(t, KeyOf(p));
    if HasKey(t, KeyOf(p)) {
      assert KeysOf(t) == KeysOf(t) + {KeyOf(p)};
    } else {
      NewRowKeys(t, p, newId, now);
    }
  }

  predicate SamePayloads(t: Table, u: Table)
  {
    u.Keys == t.Keys && forall id | id in t :: u[id].payload == t[id].payload
  }

  lemma SamePayloadsSameKeys(t: Table, u: Table)
    requires SamePayloads(t, u)
    ensures KeysOf(u) == KeysOf(t) && |u| == |t|
    ensures UniqueKeys(t) ==> UniqueKeys(u)
  {
  }

  lemma StepKeepsStructure(w: World, e: Event)
    requires Structural(w.rows) && Possible(w, e)
    ensures Structural(Step(w, e).rows)
    ensures KeysOf(Step(w, e).rows) == KeysOf(w.rows) + (if e.Insert? then {KeyOf(e.p)} else {})
    ensures |Step(w, e).rows| == |w.rows| + if e.Insert? && KeyOf(e.p) !in KeysOf(w.rows) then 1 else 0
  {
    if e.Insert? {
      InsertKeepsStructure(w.rows, e.p, e.newId, w.now);
    } else {
      RewriteKeepsRows(w, e);
      SamePayloadsSameKeys(w.rows, Step(w, e).rows);
    }
  }

  /** No step drops a row or rewrites its payload; only mark_retry moves the retry counter. */
  lemma StepKeepsRows(w: World, e: Event, id: string)
    requires Possible(w, e) && id in w.rows
    ensures id in Step(w, e).rows && Step(w, e).rows[id].payload == w.rows[id].payload
    ensures RowOk(w.rows[id]) ==> RowOk(Step(w, e).rows[id])
    ensures Step(w, e).rows[id].retryCount
            == w.rows[id].retryCount + if e.Retry? && e.lease.id == id then 1 else 0
  {
  }

  lemma RewriteKeepsRows(w: World, e: Event)
    requires !e.Insert? && forall id | id in w.rows :: RowOk(w.rows[id])
    ensures SamePayloads(w.rows, Step(w, e).rows)
    ensures forall id | id in Step(w, e).rows :: RowOk(Step(w, e).rows[id])
  {
    var t, u := w.rows, Step(w, e).rows;
    forall id ensures id in u <==> id in t { }
    forall id | id in t ensures u[id].payload == t[id].payload && RowOk(u[id]) {
      StepKeepsRows(w, e, id);
    }
  }

  /**
   Every reachable table: leased_at is set exactly on delivering rows, delivered rows carry their time, keys are
   unique, one row per distinct inserted key, and retry_count counts the mark_retry calls on the row.
   */
  lemma {:induction false} ReachableStructure(now: int, tr: seq<Event>)
    requires PossibleRun(Start(now), tr)
    ensures var t := Run(Start(now), tr).rows;
            && Structural(t)
            && KeysOf(t) == InsertedKeys(tr)
            && |t| == |InsertedKeys(tr)|
            && forall id :: RetryCalls(Start(now), tr, id) == RetriesStored(t, id)
  {
    if tr != [] {
      var before, e := tr[..|tr| - 1], tr[|tr| - 1];
      ReachableStructure(now, before);
      StepKeepsStructure(Run(Start(now), before), e);
      RetryCountStep(Start(now), tr);
      InsertedKeysStep(tr);
    } else {
      assert KeysOf(map[]) == {};
    }
  }

  lemma InsertedKeysStep(tr: seq<Event>)
    requires tr != []
    ensures var before, e := tr[..|tr| - 1], tr[|tr| - 1];
            |InsertedKeys(tr)|
            == |InsertedKeys(before)| + if e.Insert? && KeyOf(e.p) !in InsertedKeys(before) then 1 else 0
  {
    var before, e := tr[..|tr| - 1], tr[|tr| - 1];
    if e.Insert? && KeyOf(e.p) in InsertedKeys(before) {
      assert InsertedKeys(tr) == InsertedKeys(before);
    } else if !e.Insert? {
      assert InsertedKeys(tr) == InsertedKeys(before);
    }
  }

  lemma RetryCountStep(w: World, tr: seq<Event>)
    requires tr != [] && PossibleRun(w, tr)
    requires var b := tr[..|tr| - 1]; forall id :: RetryCalls(w, b, id) == RetriesStored(Run(w, b).rows, id)
    ensures forall id :: RetryCalls(w, tr, id) == RetriesStored(Run(w, tr).rows, id)
  {
    var b, e := tr[..|tr| - 1], tr[|tr| - 1];
    var v := Run(w, b);
    forall id ensures RetryCalls(w, tr, id) == RetriesStored(Run(w, tr).rows, id) {
      if id in v.rows {
        StepKeepsRows(v, e, id);
      }
    }
  }

  /** The id first stored under a key stays the answer for that key, and repeating the insert changes nothing. */
  lemma {:induction false} FirstIdForever(w: World, tr: seq<Event>, id: string, p: Payload, newId: string)
    requires Structural(w.rows) && PossibleRun(w, tr)
    requires id in w.rows && KeyOf(w.rows[id].payload) == KeyOf(p)
    ensures var t := Run(w, tr).rows;
            && Structural(t)
            && id in t && t[id].payload == w.rows[id].payload
            && (forall x | x in t && KeyOf(t[x].payload) == KeyOf(p) :: x == id)
            && Inserted(t, p, newId, Run(w, tr).now) == t
  {
    if tr != [] {
      FirstIdForever(w, tr[..|tr| - 1], id, p, newId);
      StepKeepsRows(Run(w, tr[..|tr| - 1]), tr[|tr| - 1], id);
      StepKeepsStructure(Run(w, tr[..|tr| - 1]), tr[|tr| - 1]);
    }
    assert KeyOf(Run(w, tr).rows[id].payload) == KeyOf(p);
  }

  /** A row inserted under a new key is in the queue at once, as given and with nothing recorded. */
  lemma InsertedRowIsQueued(w: World, p: Payload, newId: string)
    requires newId !in w.rows && !HasKey(w.rows, KeyOf(p))
    ensures var v := Step(w, Insert(p, newId));
            && newId in Eligible(v.rows, v.now) && v.rows[newId].payload == p && v.rows[newId].createdAt == w.now
            && v.rows[newId].retryCount == 0 && v.rows[newId].lastError == None && v.rows[newId].leasedAt == None
            && v.rows[newId].deliveredAt == None && v.rows[newId].legacyDeliveredAt == None
            && forall id | id in w.rows :: id in v.rows && v.rows[id] == w.rows[id]
  {
  }

  /** What a row is for and when it came never change. */
  lemma {:induction false} OriginStays(w: World, tr: seq<Event>, id: string)
    requires PossibleRun(w, tr) && id in w.rows
    ensures var v := Run(w, tr);
            id in v.rows && v.rows[id].payload == w.rows[id].payload && v.rows[id].createdAt == w.rows[id].createdAt
  {
    if tr != [] {
      var u, e := Run(w, tr[..|tr| - 1]), tr[|tr| - 1];
      OriginStays(w, tr[..|tr| - 1], id);
      StepKeepsRows(u, e, id);
      assert Step(u, e).rows[id].createdAt == u.rows[id].createdAt;
    }
  }

  /** First come, first served: a row inserted later sorts later, by run time and then by id when the clock stood. */
  lemma LaterInsertsSortLater(w: World, p: Payload, a: string, tr: seq<Event>, q: Payload, b: string)
    requires a !in w.rows && !HasKey(w.rows, KeyOf(p))
    requires PossibleRun(Step(w, Insert(p, a)), tr)
    requires var u := Run(Step(w, Insert(p, a)), tr); b !in u.rows && !HasKey(u.rows, KeyOf(q))
    ensures var u := Run(Step(w, Insert(p, a)), tr);
            var t := Step(u, Insert(q, b)).rows;
            && a in t && b in t && w.now <= u.now
            && (w.now < u.now ==> Before(t, a, b))
            && (TextLess(p.ranAtIso, q.ranAtIso) ==> Before(t, a, b))
            && (p.ranAtIso == q.ranAtIso && TextLess(a, b) ==> Before(t, a, b))
  {
    var v := Step(w, Insert(p, a));
    OriginStays(v, tr, a);
    RunClockIsMonotone(v, tr);
  }

  lemma {:induction false} RunClockIsMonotone(w: World, tr: seq<Event>)
    ensures w.now <= Run(w, tr).now
  {
    if tr != [] { RunClockIsMonotone(w, tr[..|tr| - 1]); }
  }

  /** When the row was last stamped by the run, or before it. */
  function LastStamp(w: World, tr: seq<Event>, id: string): Option<int>
    requires id in w.rows
  {
    if tr == [] then w.rows[id].legacyDeliveredAt
    else if tr[|tr| - 1] == Stamp(id) then Some(Run(w, tr[..|tr| - 1]).now)
    else LastStamp(w, tr[..|tr| - 1], id)
  }

  /** A row carries the time of its last stamp, and nothing else writes it. */
  lemma {:induction false} LastStampIsRecorded(w: World, tr: seq<Event>, id: string)
    requires PossibleRun(w, tr) && id in w.rows
    ensures id in Run(w, tr).rows && Run(w, tr).rows[id].legacyDeliveredAt == LastStamp(w, tr, id)
  {
    if tr != [] { LastStampIsRecorded(w, tr[..|tr| - 1], id); }
  }

  // ---------- Lease exclusivity under a deadline ----------

  predicate Live(w: World, l: Lease, deadline: int)
  {
    l in w.leases && w.now - l.at <= deadline
  }

  /** Workers mark only rows they hold, within the deadline; the sweeper uses one threshold. */
  predicate OnTime(w: World, e: Event, deadline: int, threshold: int)
  {
    && Possible(w, e)
    && (e.IsMark() ==> Live(w, e.lease, deadline))
    && (e.Reclaim? ==> e.threshold == threshold)
  }

  predicate OnTimeRun(w: World, tr: seq<Event>, deadline: int, threshold: int)
  {
    tr == [] || (OnTimeRun(w, tr[..|tr| - 1], deadline, threshold)
                 && OnTime(Run(w, tr[..|tr| - 1]), tr[|tr| - 1], deadline, threshold))
  }

  predicate HeldBy(w: World, id: string, l: Lease)
    requires id in w.rows
  {
    l in w.leases && l.id == id && w.rows[id].leasedAt == Some(l.at)
  }

  ghost predicate LeaseInv(w: World, deadline: nat)
  {
    && (forall l | l in w.leases :: l.id in w.rows && l.at <= w.now && l.token < w.nextToken)
    && (forall l | Live(w, l, deadline) :: w.rows[l.id].status == Delivering && HeldBy(w, l.id, l))
    && (forall l, m | l in w.leases && m in w.leases && l.id == m.id && l.at == m.at :: l == m)
    && (forall id | id in w.rows && w.rows[id].status == Delivering ::
          && (exists l :: HeldBy(w, id, l))
          && (w.rows[id].nextRetryAt.None? || w.rows[id].nextRetryAt.value <= w.now))
  }

  /** A live lease always points at the delivering row it leased, so no mark of one hits anything else. */
  lemma MarkKeepsLeases(w: World, e: Event, deadline: nat)
    requires LeaseInv(w, deadline) && e.IsMark() && Live(w, e.lease, deadline)
    ensures LeaseInv(Step(w, e), deadline)
  {
    var v, l := Step(w, e), e.lease;
    assert HeldBy(w, l.id, l);
    forall m | Live(v, m, deadline) ensures v.rows[m.id].status == Delivering && HeldBy(v, m.id, m) {
      assert Live(w, m, deadline);
    }
    forall id | id in v.rows && v.rows[id].status == Delivering ensures exists m :: HeldBy(v, id, m) {
      var m :| HeldBy(w, id, m);
      assert HeldBy(v, id, m);
    }
  }

  /** A row in the queue has no live lease, so every older lease on it has an earlier time. */
  lemma PoppedWereNotLive(w: World, b: int, deadline: nat, l: Lease)
    requires LeaseInv(w, deadline) && l in w.leases && l.id in Popped(w, b)
    ensures !Live(w, l, deadline) && l.at != w.now
  {
    PopIdsAreTheEarliest(w.rows, b, w.now);
    assert l.id in Eligible(w.rows, w.now);
  }

  lemma PopKeepsTimesApart(w: World, b: int, deadline: nat, l: Lease, m: Lease)
    requires LeaseInv(w, deadline)
    requires var v := Step(w, Pop(b)); l in v.leases && m in v.leases && l.id == m.id && l.at == m.at
    ensures l == m
  {
    if l in w.leases && m !in w.leases { PoppedWereNotLive(w, b, deadline, l); }
    if m in w.leases && l !in w.leases { PoppedWereNotLive(w, b, deadline, m); }
  }

  lemma PopKeepsLiveHeld(w: World, b: int, deadline: nat, l: Lease)
    requires LeaseInv(w, deadline) && Live(Step(w, Pop(b)), l, deadline)
    ensures var v := Step(w, Pop(b));
            l.id in v.rows && v.rows[l.id].status == Delivering && HeldBy(v, l.id, l)
  {
    PopIdsAreTheEarliest(w.rows, b, w.now);
    if l in w.leases {
      assert Live(w, l, deadline);
      if l.id in Popped(w, b) { PoppedWereNotLive(w, b, deadline, l); }
    }
  }

  lemma PopKeepsHolder(w: World, b: int, deadline: nat, id: string)
    requires LeaseInv(w, deadline)
    requires var v := Step(w, Pop(b)); id in v.rows && v.rows[id].status == Delivering
    ensures var v := Step(w, Pop(b));
            && (exists m :: HeldBy(v, id, m))
            && (v.rows[id].nextRetryAt.None? || v.rows[id].nextRetryAt.value <= v.now)
  {
    var v := Step(w, Pop(b));
    PopIdsAreTheEarliest(w.rows, b, w.now);
    if id in Popped(w, b) {
      assert id in Eligible(w.rows, w.now);
      assert HeldBy(v, id, LeaseOf(w, id));
    } else {
      var m :| HeldBy(w, id, m);
      assert HeldBy(v, id, m);
    }
  }

  lemma PopKeepsLeases(w: World, b: int, deadline: nat)
    requires LeaseInv(w, deadline)
    ensures LeaseInv(Step(w, Pop(b)), deadline)
  {
    var v := Step(w, Pop(b));
    forall l | Live(v, l, deadline)
      ensures l.id in v.rows && v.rows[l.id].status == Delivering && HeldBy(v, l.id, l)
    {
      PopKeepsLiveHeld(w, b, deadline, l);
    }
    forall id | id in v.rows && v.rows[id].status == Delivering
      ensures && (exists m :: HeldBy(v, id, m))
              && (v.rows[id].nextRetryAt.None? || v.rows[id].nextRetryAt.value <= v.now)
    {
      PopKeepsHolder(w, b, deadline, id);
    }
    forall l, m | l in v.leases && m in v.leases && l.id == m.id && l.at == m.at ensures l == m {
      PopKeepsTimesApart(w, b, deadline, l, m);
    }
  }

  lemma ReclaimKeepsLeases(w: World, threshold: int, deadline: nat)
    requires LeaseInv(w, deadline) && threshold >= deadline
    ensures LeaseInv(Step(w, Reclaim(threshold)), deadline)
  {
    var v := Step(w, Reclaim(threshold));
    forall l | Live(v, l, deadline) ensures v.rows[l.id].status == Delivering && HeldBy(v, l.id, l) {
      assert Live(w, l, deadline);
      assert HeldBy(w, l.id, l);
    }
    forall id | id in v.rows && v.rows[id].status == Delivering ensures exists m :: HeldBy(v, id, m) {
      var m :| HeldBy(w, id, m);
      assert HeldBy(v, id, m);
    }
  }

  lemma QuietStepKeepsLeases(w: World, e: Event, deadline: nat)
    requires LeaseInv(w, deadline) && Possible(w, e) && (e.Tick? || e.Insert? || e.Stamp?)
    ensures LeaseInv(Step(w, e), deadline)
  {
    var v := Step(w, e);
    forall l | Live(v, l, deadline) ensures v.rows[l.id].status == Delivering && HeldBy(v, l.id, l) {
      assert Live(w, l, deadline);
      assert HeldBy(w, l.id, l);
    }
    forall id | id in v.rows && v.rows[id].status == Delivering ensures exists m :: HeldBy(v, id, m) {
      var m :| HeldBy(w, id, m);
      assert HeldBy(v, id, m);
    }
  }

  lemma StepKeepsLeases(w: World, e: Event, deadline: nat, threshold: int)
    requires LeaseInv(w, deadline) && OnTime(w, e, deadline, threshold) && threshold >= deadline
    ensures LeaseInv(Step(w, e), deadline)
  {
    match e
    case Pop(b) => PopKeepsLeases(w, b, deadline);
    case Reclaim(_) => ReclaimKeepsLeases(w, threshold, deadline);
    case Tick(_) => QuietStepKeepsLeases(w, e, deadline);
    case Insert(_, _) => QuietStepKeepsLeases(w, e, deadline);
    case Stamp(_) => QuietStepKeepsLeases(w, e, deadline);
    case _ => MarkKeepsLeases(w, e, deadline);
  }

  lemma {:induction false} RunKeepsLeases(w: World, tr: seq<Event>, deadline: nat, threshold: int)
    requires LeaseInv(w, deadline) && OnTimeRun(w, tr, deadline, threshold) && threshold >= deadline
    ensures LeaseInv(Run(w, tr), deadline)
  {
    if tr != [] {
      RunKeepsLeases(w, tr[..|tr| - 1], deadline, threshold);
      StepKeepsLeases(Run(w, tr[..|tr| - 1]), tr[|tr| - 1], deadline, threshold);
    }
  }

  lemma LiveIsHeld(w: World, l: Lease, deadline: nat)
    requires LeaseInv(w, deadline)
    ensures Live(w, l, deadline) ==> l.id in w.rows && w.rows[l.id].status == Delivering && HeldBy(w, l.id, l)
  {
  }

  /** In an on-time run a delivering row has exactly one current lease; any other copy of it is past its deadline. */
  lemma OneHolderPerDeliveringRow(now: int, tr: seq<Event>, deadline: nat, threshold: int, id: string)
    requires OnTimeRun(Start(now), tr, deadline, threshold) && threshold >= deadline
    requires var w := Run(Start(now), tr); id in w.rows && w.rows[id].status == Delivering
    ensures var w := Run(Start(now), tr);
            exists l ::
              && HeldBy(w, id, l)
              && forall m | m in w.leases && m.id == id && m != l :: !HeldBy(w, id, m) && !Live(w, m, deadline)
  {
    var w := Run(Start(now), tr);
    RunKeepsLeases(Start(now), tr, deadline, threshold);
    var l :| HeldBy(w, id, l);
    forall m | m in w.leases && m.id == id && m != l ensures !HeldBy(w, id, m) && !Live(w, m, deadline) {
      assert HeldBy(w, id, m) ==> l.at == m.at;
      LiveIsHeld(w, m, deadline);
    }
  }

  predicate Terminal(t: Table, id: string)
  {
    id in t && (t[id].status == Delivered || t[id].status == Failed)
  }

  lemma StepKeepsTerminal(w: World, e: Event, deadline: nat, threshold: int, id: string)
    requires LeaseInv(w, deadline) && OnTime(w, e, deadline, threshold) && Terminal(w.rows, id)
    ensures id in Step(w, e).rows && Step(w, e).rows[id].status == w.rows[id].status
    ensures !(e.IsMark() && e.lease.id == id)
  {
    if e.IsMark() { assert HeldBy(w, e.lease.id, e.lease); }
    if e.Pop? { PopIdsAreTheEarliest(w.rows, e.batchSize, w.now); }
  }

  /** Delivered and failed rows never change status again. */
  lemma {:induction false} TerminalForever(w: World, tr: seq<Event>, deadline: nat, threshold: int, id: string)
    requires LeaseInv(w, deadline) && OnTimeRun(w, tr, deadline, threshold) && threshold >= deadline
    requires Terminal(w.rows, id)
    ensures id in Run(w, tr).rows && Run(w, tr).rows[id].status == w.rows[id].status
    ensures var r := Run(w, tr).rows[id];
            r.(legacyDeliveredAt := w.rows[id].legacyDeliveredAt) == w.rows[id]
  {
    if tr != [] {
      var before := tr[..|tr| - 1];
      TerminalForever(w, before, deadline, threshold, id);
      RunKeepsLeases(w, before, deadline, threshold);
      StepKeepsTerminal(Run(w, before), tr[|tr| - 1], deadline, threshold, id);
    }
  }

  /** What an on-time delivery or final failure records stays recorded in every later on-time run. */
  lemma MarkIsRecordedForever(w: World, e: Event, tr: seq<Event>, deadline: nat, threshold: int)
    requires LeaseInv(w, deadline) && threshold >= deadline
    requires (e.Deliver? || e.Fail?) && Live(w, e.lease, deadline)
    requires OnTimeRun(Step(w, e), tr, deadline, threshold)
    ensures var v := Run(Step(w, e), tr);
            && e.lease.id in v.rows && v.rows[e.lease.id].leasedAt == None
            && (e.Deliver? ==> && v.rows[e.lease.id].status == Delivered
                               && v.rows[e.lease.id].deliveredAt == Some(w.now))
            && (e.Fail? ==> && v.rows[e.lease.id].status == Failed && v.rows[e.lease.id].lastError == Some(e.error)
                            && v.rows[e.lease.id].deliveredAt == w.rows[e.lease.id].deliveredAt)
  {
    LiveIsHeld(w, e.lease, deadline);
    MarkKeepsLeases(w, e, deadline);
    TerminalForever(Step(w, e), tr, deadline, threshold, e.lease.id);
  }

  function DeliverCalls(tr: seq<Event>, id: string): nat
  {
    if tr == [] then 0 else
      DeliverCalls(tr[..|tr| - 1], id)
      + if tr[|tr| - 1].Deliver? && tr[|tr| - 1].lease.id == id then 1 else 0
  }

  predicate IsDelivered(t: Table, id: string) { id in t && t[id].status == Delivered }

  lemma StepCountsDeliveries(w: World, e: Event, deadline: nat, threshold: int, id: string)
    requires LeaseInv(w, deadline) && OnTime(w, e, deadline, threshold)
    ensures var call := e.Deliver? && e.lease.id == id;
            && (call ==> !IsDelivered(w.rows, id))
            && (IsDelivered(Step(w, e).rows, id) <==> call || IsDelivered(w.rows, id))
  {
    if e.IsMark() { assert HeldBy(w, e.lease.id, e.lease); }
    if e.Pop? { PopIdsAreTheEarliest(w.rows, e.batchSize, w.now); }
    if IsDelivered(w.rows, id) { StepKeepsTerminal(w, e, deadline, threshold, id); }
  }

  lemma {:induction false} DeliveriesCounted(now: int, tr: seq<Event>, deadline: nat, threshold: int, id: string)
    requires OnTimeRun(Start(now), tr, deadline, threshold) && threshold >= deadline
    ensures DeliverCalls(tr, id) == if IsDelivered(Run(Start(now), tr).rows, id) then 1 else 0
  {
    if tr != [] {
      var before := tr[..|tr| - 1];
      DeliveriesCounted(now, before, deadline, threshold, id);
      RunKeepsLeases(Start(now), before, deadline, threshold);
      StepCountsDeliveries(Run(Start(now), before), tr[|tr| - 1], deadline, threshold, id);
    }
  }

  /** What the lease is for: no row is delivered twice, and no two workers may still mark the same row. */
  ghost predicate Exclusive(now: int, tr: seq<Event>, deadline: nat)
  {
    && (forall id :: DeliverCalls(tr, id) <= 1)
    && (forall l, m | Live(Run(Start(now), tr), l, deadline) && Live(Run(Start(now), tr), m, deadline)
                      && l.id == m.id :: l == m)
  }

  lemma OnTimeRunIsExclusive(now: int, tr: seq<Event>, deadline: nat, threshold: int)
    requires OnTimeRun(Start(now), tr, deadline, threshold) && threshold >= deadline
    ensures Exclusive(now, tr, deadline)
  {
    forall id ensures DeliverCalls(tr, id) <= 1 { DeliveriesCounted(now, tr, deadline, threshold, id); }
    RunKeepsLeases(Start(now), tr, deadline, threshold);
    var w := Run(Start(now), tr);
    forall l, m | Live(w, l, deadline) && Live(w, m, deadline) && l.id == m.id ensures l == m {
      assert HeldBy(w, l.id, l) && HeldBy(w, m.id, m);
    }
  }

  const SAMPLE := Payload("u", "j", "c", "r", "", None)

  lemma PopOnlyRow(t: Table, id: string, now: int)
    requires t.Keys == {id} && id in Eligible(t, now)
    ensures Members(PopIds(t, 1, now)) == {id}
  {
  }

  const WAITING: Table := map["r" := NewRow(SAMPLE, 0)]

  function LeasedSince(at: int): Table
  {
    map["r" := NewRow(SAMPLE, 0).(status := Delivering, leasedAt := Some(at))]
  }

  lemma PopTheRow(now: nat, leases: set<Lease>, token: nat)
    ensures Step(World(WAITING, now, leases, token), Pop(1))
            == World(LeasedSince(now), now, leases + {Lease(token, "r", now, 0)}, token + 1)
  {
    PopOnlyRow(WAITING, "r", now);
    assert Leased(WAITING, {"r"}, now) == LeasedSince(now);
    var w := World(WAITING, now, leases, token);
    assert (set id | id in {"r"} && id in WAITING :: LeaseOf(w, id)) == {Lease(token, "r", now, 0)};
  }

  lemma SweepTheRow(at: int, now: int, leases: set<Lease>, token: nat, threshold: int)
    requires now - at > threshold
    ensures Step(World(LeasedSince(at), now, leases, token), Reclaim(threshold)) == World(WAITING, now, leases, token)
  {
  }

  /** tr is an on-time run from an empty table to w that delivered row "r" the given number of times. */
  predicate Leads(tr: seq<Event>, w: World, calls: nat, deadline: nat, threshold: int)
  {
    OnTimeRun(Start(0), tr, deadline, threshold) && Run(Start(0), tr) == w && DeliverCalls(tr, "r") == calls
  }

  lemma Extend(tr: seq<Event>, w: World, calls: nat, e: Event, v: World, deadline: nat, threshold: int)
      returns (longer: seq<Event>)
    requires Leads(tr, w, calls, deadline, threshold) && OnTime(w, e, deadline, threshold) && Step(w, e) == v
    ensures Leads(longer, v, calls + if e.Deliver? && e.lease.id == "r" then 1 else 0, deadline, threshold)
  {
    longer := tr + [e];
    assert longer[..|longer| - 1] == tr;
  }

  /** The row is inserted and leased at time 0. */
  lemma LeasedAtOnce(deadline: nat, threshold: int) returns (tr: seq<Event>)
    ensures Leads(tr, World(LeasedSince(0), 0, {Lease(0, "r", 0, 0)}, 1), 0, deadline, threshold)
  {
    var l := Lease(0, "r", 0, 0);
    tr := Extend([], Start(0), 0, Insert(SAMPLE, "r"), World(WAITING, 0, {}, 0), deadline, threshold);
    PopTheRow(0, {}, 0);
    assert {} + {l} == {l};
    tr := Extend(tr, World(WAITING, 0, {}, 0), 0, Pop(1), World(LeasedSince(0), 0, {l}, 1), deadline, threshold);
  }

  /** A worker leases the row; it waits, and a sweep takes the row back before the worker's deadline has passed. */
  lemma SweptTooEarly(wait: nat, deadline: nat, threshold: int) returns (tr: seq<Event>)
    requires wait > threshold
    ensures Leads(tr, World(WAITING, wait, {Lease(0, "r", 0, 0)}, 1), 0, deadline, threshold)
  {
    var l := Lease(0, "r", 0, 0);
    tr := LeasedAtOnce(deadline, threshold);
    tr := Extend(tr, World(LeasedSince(0), 0, {l}, 1), 0, Tick(wait), World(LeasedSince(0), wait, {l}, 1),
                 deadline, threshold);
    SweepTheRow(0, wait, {l}, 1, threshold);
    tr := Extend(tr, World(LeasedSince(0), wait, {l}, 1), 0, Reclaim(threshold), World(WAITING, wait, {l}, 1),
                 deadline, threshold);
  }

  /** A run in which a sweep with too short a threshold makes two workers deliver one row, both in time. */
  lemma ShortThresholdRun(deadline: nat, threshold: int) returns (tr: seq<Event>)
    requires threshold < deadline
    ensures OnTimeRun(Start(0), tr, deadline, threshold)
    ensures DeliverCalls(tr, "r") == 2
  {
    var wait: nat := if threshold < 0 then 0 else threshold + 1;
    var l, m := Lease(0, "r", 0, 0), Lease(1, "r", wait, 0);
    var w := World(WAITING, wait, {l}, 1);
    var both := World(LeasedSince(wait), wait, {l} + {m}, 2);
    var one := Step(both, Deliver(l));
    tr := SweptTooEarly(wait, deadline, threshold);
    PopTheRow(wait, {l}, 1);
    tr := Extend(tr, w, 0, Pop(1), both, deadline, threshold);
    tr := Extend(tr, both, 0, Deliver(l), one, deadline, threshold);
    tr := Extend(tr, one, 1, Deliver(m), Step(one, Deliver(m)), deadline, threshold);
  }

  /** The lease protocol is exclusive in every run exactly when the sweep threshold is no shorter than the deadline. */
  lemma ExclusiveIffThresholdCoversDeadline(deadline: nat, threshold: int)
    ensures (forall now, tr | OnTimeRun(Start(now), tr, deadline, threshold) :: Exclusive(now, tr, deadline))
            <==> threshold >= deadline
  {
    if threshold >= deadline {
      forall now, tr | OnTimeRun(Start(now), tr, deadline, threshold) ensures Exclusive(now, tr, deadline) {
        OnTimeRunIsExclusive(now, tr, deadline, threshold);
      }
    } else {
      var tr := ShortThresholdRun(deadline, threshold);
      assert !Exclusive(0, tr, deadline);
    }
  }

  // ---------- Crashed workers ----------

  predicate Untouched(w: World, tr: seq<Event>, id: string, leasedAt: int)
  {
    tr == [] || (var before, e := tr[..|tr| - 1], tr[|tr| - 1];
                 && Untouched(w, before, id, leasedAt)
                 && !(e.IsMark() && e.lease.id == id)
                 && (e.Reclaim? ==> Run(w, before).now - leasedAt <= e.threshold))
  }

  /**
   A row whose worker crashed keeps its lease until the first sweep past the threshold; that sweep, and no earlier
   one, makes it eligible again.
   */
  lemma {:induction false} CrashedRowComesBack(w: World, tr: seq<Event>, deadline: nat, threshold: int, id: string)
    requires LeaseInv(w, deadline) && OnTimeRun(w, tr, deadline, threshold) && threshold >= deadline
    requires id in w.rows && w.rows[id].status == Delivering && w.rows[id].leasedAt.Some?
    requires Untouched(w, tr, id, w.rows[id].leasedAt.value)
    ensures var v := Run(w, tr);
            && id in v.rows && v.rows[id].status == Delivering && v.rows[id].leasedAt == w.rows[id].leasedAt
            && (id in Eligible(Step(v, Reclaim(threshold)).rows, v.now)
                <==> v.now - w.rows[id].leasedAt.value > threshold)
  {
    if tr != [] {
      var before, e := tr[..|tr| - 1], tr[|tr| - 1];
      CrashedRowComesBack(w, before, deadline, threshold, id);
      OthersKeepTheLease(Run(w, before), e, id, w.rows[id].leasedAt.value);
    }
    RunKeepsLeases(w, tr, deadline, threshold);
    SweepFrees(Run(w, tr), threshold, id);
  }

  lemma OthersKeepTheLease(w: World, e: Event, id: string, at: int)
    requires Possible(w, e) && !(e.IsMark() && e.lease.id == id)
    requires id in w.rows && w.rows[id].status == Delivering && w.rows[id].leasedAt == Some(at)
    requires e.Reclaim? ==> w.now - at <= e.threshold
    ensures var t := Step(w, e).rows; id in t && t[id].status == Delivering && t[id].leasedAt == Some(at)
  {
    if e.Pop? { PopIdsAreTheEarliest(w.rows, e.batchSize, w.now); }
  }

  lemma SweepFrees(w: World, threshold: int, id: string)
    requires id in w.rows && w.rows[id].status == Delivering && w.rows[id].leasedAt.Some?
    requires w.rows[id].nextRetryAt.None? || w.rows[id].nextRetryAt.value <= w.now
    ensures id in Eligible(Step(w, Reclaim(threshold)).rows, w.now) <==> w.now - w.rows[id].leasedAt.value > threshold
  {
  }

  /** A row scheduled for a retry is left alone until its time has come, and is then eligible. */
  lemma {:induction false} RetriedRowWaits(w: World, tr: seq<Event>, deadline: nat, threshold: int, id: string,
                                           due: int)
    requires LeaseInv(w, deadline) && OnTimeRun(w, tr, deadline, threshold) && threshold >= deadline
    requires id in w.rows && w.rows[id].status == Pending && w.rows[id].nextRetryAt == Some(due)
    requires tr != [] ==> Run(w, tr[..|tr| - 1]).now < due
    ensures var v := Run(w, tr);
            && id in v.rows && v.rows[id].status == Pending && v.rows[id].nextRetryAt == Some(due)
            && v.rows[id].retryCount == w.rows[id].retryCount && v.rows[id].lastError == w.rows[id].lastError
            && (id in Eligible(v.rows, v.now) <==> due <= v.now)
  {
    if tr != [] {
      var before, e := tr[..|tr| - 1], tr[|tr| - 1];
      var u := Run(w, before);
      if before != [] { ClockIsMonotone(Run(w, before[..|before| - 1]), before[|before| - 1]); }
      RetriedRowWaits(w, before, deadline, threshold, id, due);
      RunKeepsLeases(w, before, deadline, threshold);
      if e.IsMark() { LiveIsHeld(u, e.lease, deadline); }
      if e.Pop? { PopIdsAreTheEarliest(u.rows, e.batchSize, u.now); }
      StepTouchesOnly(u, e, id);
    }
  }

  /**
   A worker that holds a row schedules its retry: the row goes back to the queue with the error and one more attempt
   counted, no pop before the scheduled time serves it, and from that time on it is eligible.
   */
  lemma RetryBacksOff(w: World, l: Lease, error: string, next: int, tr: seq<Event>, deadline: nat, threshold: int,
                      batchSize: int)
    requires LeaseInv(w, deadline) && Live(w, l, deadline) && threshold >= deadline
    requires var v := Step(w, Retry(l, error, next));
             && OnTimeRun(v, tr, deadline, threshold)
             && (tr != [] ==> Run(v, tr[..|tr| - 1]).now < next)
    ensures l.id in w.rows
    ensures var u := Run(Step(w, Retry(l, error, next)), tr);
            && l.id in u.rows && u.rows[l.id].status == Pending && u.rows[l.id].lastError == Some(error)
            && u.rows[l.id].retryCount == w.rows[l.id].retryCount + 1
            && (l.id in Eligible(u.rows, u.now) <==> next <= u.now)
            && (u.now < next ==> l.id !in Popped(u, batchSize))
  {
    var v := Step(w, Retry(l, error, next));
    LiveIsHeld(w, l, deadline);
    MarkKeepsLeases(w, Retry(l, error, next), deadline);
    RetriedRowWaits(v, tr, deadline, threshold, l.id, next);
    PopIdsAreTheEarliest(Run(v, tr).rows, batchSize, Run(v, tr).now);
  }

  lemma ClockIsMonotone(w: World, e: Event)
    ensures w.now <= Step(w, e).now
  {
  }

  /** The rows a step may rewrite. */
  predicate Touches(w: World, e: Event, id: string)
  {
    match e
    case Pop(b) => id in Popped(w, b)
    case Reclaim(thr) => id in Stuck(w.rows, w.now - thr)
    case Stamp(x) => id == x
    case Tick(_) => false
    case Insert(_, _) => false
    case _ => e.lease.id == id
  }

  /** Every other row is the same afterwards, and a stamp rewrites nothing but its own column. */
  lemma StepTouchesOnly(w: World, e: Event, id: string)
    requires Possible(w, e) && id in w.rows
    ensures id in Step(w, e).rows
    ensures !Touches(w, e, id) ==> Step(w, e).rows[id] == w.rows[id]
    ensures e.Stamp? ==> Step(w, e).rows[id].(legacyDeliveredAt := w.rows[id].legacyDeliveredAt) == w.rows[id]
  {
  }

  // ---------- No starvation ----------

  function Ahead(w: World, id: string): set<string>
    requires id in w.rows
  {
    set x | x in Eligible(w.rows, w.now) && Before(w.rows, x, id)
  }

  /** A pop serves every eligible row that has fewer than b eligible rows before it, and no other. */
  lemma PopServes(w: World, id: string, b: nat)
    requires id in Eligible(w.rows, w.now) && b > 0
    ensures id in Popped(w, b) <==> |Ahead(w, id)| < b
    ensures id !in Popped(w, b) ==> Popped(w, b) <= Ahead(w, id) && |Popped(w, b)| == b
  {
    var ids, ahead, el := Popped(w, b), Ahead(w, id), Eligible(w.rows, w.now);
    PopIdsAreTheEarliest(w.rows, b, w.now);
    if id in ids {
      forall y | y in ahead ensures y in ids - {id} { BeforeTotal(w.rows, y, id); }
      SubsetSize(ahead, ids - {id});
    } else {
      SubsetSize(ids, el);
      SubsetSize(ids, ahead);
    }
  }

  lemma LeasedEligible(t: Table, ids: set<string>, now: int)
    ensures Eligible(Leased(t, ids, now), now) == Eligible(t, now) - ids
  {
  }

  /** One pop either serves an eligible row or shortens the queue before it by a full batch. */
  lemma PopServesOrAdvances(w: World, id: string, b: nat)
    requires id in Eligible(w.rows, w.now) && b > 0 && id !in Popped(w, b)
    ensures var v := Step(w, Pop(b));
            id in Eligible(v.rows, v.now) && |Ahead(v, id)| == |Ahead(w, id)| - b
  {
    var ids, ahead, v := Popped(w, b), Ahead(w, id), Step(w, Pop(b));
    PopServes(w, id, b);
    LeasedEligible(w.rows, ids, w.now);
    assert Ahead(v, id) == ahead - ids by {
      forall x | x in v.rows ensures Before(v.rows, x, id) <==> Before(w.rows, x, id) { }
    }
    assert ahead == (ahead - ids) + ids && |ahead| == |ahead - ids| + |ids|;
  }

  predicate Overtakes(w: World, e: Event, id: string)
    requires id in w.rows
  {
    id in Step(w, e).rows && !(Ahead(Step(w, e), id) <= Ahead(w, id))
  }

  /** From w, every pop takes b rows and nothing that sorts before id becomes eligible. */
  predicate FairRun(w: World, tr: seq<Event>, id: string, b: nat)
  {
    tr == [] || (var before, e := tr[..|tr| - 1], tr[|tr| - 1];
                 && FairRun(w, before, id, b)
                 && (e.Pop? ==> e.batchSize == b)
                 && (id in Run(w, before).rows ==> !Overtakes(Run(w, before), e, id)))
  }

  function Pops(tr: seq<Event>): nat
  {
    if tr == [] then 0 else Pops(tr[..|tr| - 1]) + if tr[|tr| - 1].Pop? then 1 else 0
  }

  predicate ServedAt(w: World, tr: seq<Event>, id: string, i: nat)
  {
    i < |tr| && tr[i].Pop? && id in Popped(Run(w, tr[..i]), tr[i].batchSize)
  }

  /** How many rows the pops of a run can lease when each takes b. */
  function Capacity(tr: seq<Event>, b: nat): nat
  {
    if tr == [] then 0 else Capacity(tr[..|tr| - 1], b) + if tr[|tr| - 1].Pop? then b else 0
  }

  lemma {:induction false} CapacityIsProduct(tr: seq<Event>, b: nat)
    ensures Capacity(tr, b) == b * Pops(tr)
  {
    if tr != [] { CapacityIsProduct(tr[..|tr| - 1], b); }
  }

  lemma CloserStep(u: World, e: Event, deadline: nat, threshold: int, id: string, b: nat)
    requires LeaseInv(u, deadline) && OnTime(u, e, deadline, threshold)
    requires id in Eligible(u.rows, u.now) && b > 0 && !Overtakes(u, e, id)
    requires e.Pop? ==> e.batchSize == b && id !in Popped(u, b)
    ensures var v := Step(u, e);
            id in Eligible(v.rows, v.now) && |Ahead(v, id)| + (if e.Pop? then b else 0) <= |Ahead(u, id)|
  {
    if e.Pop? {
      PopServesOrAdvances(u, id, b);
    } else {
      if e.IsMark() { LiveIsHeld(u, e.lease, deadline); }
      StepKeepsEligible(u, e, id);
      SubsetSize(Ahead(Step(u, e), id), Ahead(u, id));
    }
  }

  lemma StepKeepsEligible(u: World, e: Event, id: string)
    requires Possible(u, e) && id in Eligible(u.rows, u.now) && !e.Pop? && !(e.IsMark() && e.lease.id == id)
    ensures id in Eligible(Step(u, e).rows, Step(u, e).now)
  {
  }

  lemma {:induction false} ServedOrCloser(w: World, tr: seq<Event>, deadline: nat, threshold: int, id: string, b: nat)
    requires LeaseInv(w, deadline) && OnTimeRun(w, tr, deadline, threshold) && threshold >= deadline
    requires id in Eligible(w.rows, w.now) && b > 0 && FairRun(w, tr, id, b)
    ensures (exists i :: ServedAt(w, tr, id, i))
            || (var v := Run(w, tr);
                id in Eligible(v.rows, v.now) && |Ahead(v, id)| + Capacity(tr, b) <= |Ahead(w, id)|)
  {
    if tr != [] {
      var before, e := tr[..|tr| - 1], tr[|tr| - 1];
      ServedOrCloser(w, before, deadline, threshold, id, b);
      RunKeepsLeases(w, before, deadline, threshold);
      if i: nat :| ServedAt(w, before, id, i) {
        assert tr[..i] == before[..i];
        assert ServedAt(w, tr, id, i);
      } else if e.Pop? && id in Popped(Run(w, before), b) {
        assert ServedAt(w, tr, id, |tr| - 1);
      } else {
        CloserStep(Run(w, before), e, deadline, threshold, id, b);
      }
    }
  }

  /** An eligible row with k eligible rows before it is leased within k / b + 1 pops of b rows. */
  lemma NoStarvation(w: World, tr: seq<Event>, deadline: nat, threshold: int, id: string, b: nat)
    requires LeaseInv(w, deadline) && OnTimeRun(w, tr, deadline, threshold) && threshold >= deadline
    requires id in Eligible(w.rows, w.now) && b > 0 && FairRun(w, tr, id, b)
    requires Pops(tr) >= |Ahead(w, id)| / b + 1
    ensures exists i :: ServedAt(w, tr, id, i)
  {
    ServedOrCloser(w, tr, deadline, threshold, id, b);
    CapacityIsProduct(tr, b);
    EnoughBatches(|Ahead(w, id)|, b, Pops(tr));
  }

  lemma EnoughBatches(k: nat, b: nat, pops: nat)
    requires b > 0 && pops >= k / b + 1
    ensures b * pops > k
  {
    assert k == b * (k / b) + k % b;
    assert b * pops >= b * (k / b + 1);
  }

  // ---------- The worker's attempt limit ----------

  const MAX_ATTEMPTS: nat := 5

  /** A failed delivery is retried while the copy's next attempt is below the limit, and failed for good otherwise. */
  predicate WorkerPolicy(e: Event)
  {
    && (e.Retry? ==> e.lease.retries + 1 < MAX_ATTEMPTS)
    && (e.Fail? ==> e.lease.retries + 1 >= MAX_ATTEMPTS)
  }

  /** So a failed delivery of a copy read with four retries fails for good, and of one with fewer is retried. */
  lemma WorkerDecides(l: Lease, error: string, next: int)
    ensures WorkerPolicy(Fail(l, error)) <==> l.retries >= 4
    ensures WorkerPolicy(Retry(l, error, next)) <==> l.retries < 4
  {
  }

  predicate AttemptsOk(r: Row)
  {
    r.retryCount < MAX_ATTEMPTS && (r.status == Failed ==> r.retryCount == MAX_ATTEMPTS - 1)
  }

  ghost predicate AttemptInv(w: World, deadline: nat)
  {
    && (forall id | id in w.rows :: AttemptsOk(w.rows[id]))
    && (forall l | Live(w, l, deadline) && l.id in w.rows :: w.rows[l.id].retryCount == l.retries)
  }

  lemma StepKeepsAttempts(w: World, e: Event, deadline: nat, threshold: int)
    requires LeaseInv(w, deadline) && OnTime(w, e, deadline, threshold) && WorkerPolicy(e)
    requires AttemptInv(w, deadline)
    ensures AttemptInv(Step(w, e), deadline)
  {
    var v := Step(w, e);
    if e.IsMark() { LiveIsHeld(w, e.lease, deadline); }
    forall id | id in v.rows ensures AttemptsOk(v.rows[id]) {
      if id in w.rows { StepKeepsRows(w, e, id); }
    }
    forall l | Live(v, l, deadline) && l.id in v.rows ensures v.rows[l.id].retryCount == l.retries {
      if l in w.leases {
        assert Live(w, l, deadline);
        LiveIsHeld(w, l, deadline);
        StepKeepsRows(w, e, l.id);
      }
    }
  }

  lemma {:induction false} RunKeepsAttempts(now: int, tr: seq<Event>, deadline: nat, threshold: int)
    requires OnTimeRun(Start(now), tr, deadline, threshold) && threshold >= deadline
    requires forall e | e in tr :: WorkerPolicy(e)
    ensures AttemptInv(Run(Start(now), tr), deadline)
  {
    if tr != [] {
      var before, e := tr[..|tr| - 1], tr[|tr| - 1];
      assert e in tr;
      RunKeepsAttempts(now, before, deadline, threshold);
      RunKeepsLeases(Start(now), before, deadline, threshold);
      StepKeepsAttempts(Run(Start(now), before), e, deadline, threshold);
    }
  }

  lemma {:induction false} OnTimeIsPossible(w: World, tr: seq<Event>, deadline: int, threshold: int)
    requires OnTimeRun(w, tr, deadline, threshold)
    ensures PossibleRun(w, tr)
  {
    if tr != [] { OnTimeIsPossible(w, tr[..|tr| - 1], deadline, threshold); }
  }

  /** No row is ever retried more than four times, and a row fails for good only after exactly four retries. */
  lemma FourRetriesThenFailure(now: int, tr: seq<Event>, deadline: nat, threshold: int, id: string)
    requires OnTimeRun(Start(now), tr, deadline, threshold) && threshold >= deadline
    requires forall e | e in tr :: WorkerPolicy(e)
    ensures RetryCalls(Start(now), tr, id) <= 4
    ensures var t := Run(Start(now), tr).rows;
            id in t && t[id].status == Failed ==> RetryCalls(Start(now), tr, id) == 4
  {
    OnTimeIsPossible(Start(now), tr, deadline, threshold);
    ReachableStructure(now, tr);
    RunKeepsAttempts(now, tr, deadline, threshold);
  }
}
