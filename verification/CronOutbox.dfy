/** The cron delivery outbox: a lease-based work queue over one table of rows. */
module CronOutbox {
  import opened Prelude

  datatype Status = Pending | Delivering | Delivered | Failed

  datatype Payload = Payload(userId: string, jobId: string, chatId: string, ranAtIso: string,
                             content: string, metadataJson: Option<string>)

  datatype Row = Row(payload: Payload, status: Status, retryCount: nat, nextRetryAt: Option<int>,
                     lastError: Option<string>, leasedAt: Option<int>, createdAt: int,
                     deliveredAt: Option<int>, legacyDeliveredAt: Option<int>)

  /** Rows by primary key. */
  type Table = map<string, Row>

  /** The idempotency key of a delivery. */
  datatype Key = Key(jobId: string, ranAtIso: string)

  function KeyOf(p: Payload): Key { Key(p.jobId, p.ranAtIso) }

  predicate HasKey(t: Table, k: Key) { exists id :: id in t && KeyOf(t[id].payload) == k }

  // ---------- What each statement does to the table ----------

  function NewRow(p: Payload, now: int): Row
  {
    Row(p, Pending, 0, None, None, None, now, None, None)
  }

  function Inserted(t: Table, p: Payload, newId: string, now: int): Table
  {
    if HasKey(t, KeyOf(p)) then t else t[newId := NewRow(p, now)]
  }

  function Eligible(t: Table, now: int): set<string>
  {
    set id | id in t && t[id].status == Pending
             && (t[id].nextRetryAt.None? || t[id].nextRetryAt.value <= now)
  }

  function Leased(t: Table, ids: set<string>, now: int): Table
  {
    map id | id in t :: if id in ids then t[id].(status := Delivering, leasedAt := Some(now)) else t[id]
  }

  function MarkedDelivered(t: Table, rowId: string, now: int): Table
  {
    if rowId in t
    then t[rowId := t[rowId].(status := Delivered, deliveredAt := Some(now), leasedAt := None)] else t
  }

  function MarkedRetry(t: Table, rowId: string, error: string, nextRetryAt: int): Table
  {
    if rowId in t
    then t[rowId := t[rowId].(status := Pending, retryCount := t[rowId].retryCount + 1,
                              lastError := Some(error), nextRetryAt := Some(nextRetryAt), leasedAt := None)]
    else t
  }

  function MarkedFailed(t: Table, rowId: string, error: string): Table
  {
    if rowId in t
    then t[rowId := t[rowId].(status := Failed, lastError := Some(error), leasedAt := None)] else t
  }

  /** Leases strictly older than the cutoff; an unset leased_at never compares below it. */
  function Stuck(t: Table, cutoff: int): set<string>
  {
    set id | id in t && t[id].status == Delivering && t[id].leasedAt.Some? && t[id].leasedAt.value < cutoff
  }

  function Reclaimed(t: Table, ids: set<string>): Table
  {
    map id | id in t :: if id in ids then t[id].(status := Pending, leasedAt := None) else t[id]
  }

  function Stamped(t: Table, rowId: string, now: int): Table
  {
    if rowId in t then t[rowId := t[rowId].(legacyDeliveredAt := Some(now))] else t
  }

  /** An insert is ignored exactly when a row of the same job and run time is there; otherwise it adds the new row. */
  lemma InsertIgnoredIff(t: Table, p: Payload, newId: string, now: int)
    requires newId !in t
    ensures var known := exists id :: id in t && t[id].payload.jobId == p.jobId
                                      && t[id].payload.ranAtIso == p.ranAtIso;
            Inserted(t, p, newId, now) == if known then t else t[newId := NewRow(p, now)]
  {
    if id :| id in t && t[id].payload.jobId == p.jobId && t[id].payload.ranAtIso == p.ranAtIso {
      assert KeyOf(t[id].payload) == KeyOf(p);
    }
  }

  // ---------- The queue order ----------

  /** Row a is served before row b: created_at, then ran_at_iso, then id. */
  predicate Before(t: Table, a: string, b: string)
    requires a in t && b in t
  {
    var x, y := t[a], t[b];
    x.createdAt < y.createdAt
    || (x.createdAt == y.createdAt
        && (TextLess(x.payload.ranAtIso, y.payload.ranAtIso)
            || (x.payload.ranAtIso == y.payload.ranAtIso && TextLess(a, b))))
  }

  lemma BeforeTotal(t: Table, a: string, b: string)
    requires a in t && b in t
    ensures Before(t, a, b) || Before(t, b, a) || a == b
    ensures !(Before(t, a, b) && Before(t, b, a))
    ensures Before(t, a, b) ==> a != b
  {
    TextLessTotal(a, b);
    TextLessTotal(t[a].payload.ranAtIso, t[b].payload.ranAtIso);
  }

  lemma BeforeTransitive(t: Table, a: string, b: string, c: string)
    requires a in t && b in t && c in t && Before(t, a, b) && Before(t, b, c)
    ensures Before(t, a, c)
  {
    var x, y, z := t[a].payload.ranAtIso, t[b].payload.ranAtIso, t[c].payload.ranAtIso;
    if TextLess(x, y) && TextLess(y, z) { TextLessTransitive(x, y, z); }
    if TextLess(a, b) && TextLess(b, c) { TextLessTransitive(a, b, c); }
  }

  predicate IsFirst(t: Table, s: set<string>, m: string)
    requires s <= t.Keys
  {
    m in s && forall x | x in s && x != m :: Before(t, m, x)
  }

  lemma {:induction false} FirstExists(t: Table, s: set<string>)
    requires s <= t.Keys && s != {}
    ensures exists m :: IsFirst(t, s, m)
    decreases s
  {
    var x :| x in s;
    if s == {x} {
      assert IsFirst(t, s, x);
    } else {
      FirstExists(t, s - {x});
      var m :| IsFirst(t, s - {x}, m);
      BeforeTotal(t, m, x);
      if Before(t, m, x) {
        assert IsFirst(t, s, m);
      } else {
        forall y | y in s && y != x ensures Before(t, x, y) {
          if y != m { BeforeTransitive(t, x, m, y); }
        }
        assert IsFirst(t, s, x);
      }
    }
  }

  lemma FirstUnique(t: Table, s: set<string>, m: string, n: string)
    requires s <= t.Keys && IsFirst(t, s, m) && IsFirst(t, s, n)
    ensures m == n
  {
    BeforeTotal(t, m, n);
  }

  function First(t: Table, s: set<string>): (m: string)
    requires s <= t.Keys && s != {}
    ensures IsFirst(t, s, m)
  {
    FirstExists(t, s);
    assert forall m, n | IsFirst(t, s, m) && IsFirst(t, s, n) :: m == n by {
      forall m, n | IsFirst(t, s, m) && IsFirst(t, s, n) ensures m == n { FirstUnique(t, s, m, n); }
    }
    var m :| m in s && IsFirst(t, s, m);
    m
  }

  /** The rows of s in queue order. */
  function Sorted(t: Table, s: set<string>): (r: seq<string>)
    requires s <= t.Keys
    ensures |r| == |s| && forall x :: x in r <==> x in s
    decreases s
  {
    if s == {} then [] else
      var m := First(t, s);
      [m] + Sorted(t, s - {m})
  }

  predicate InOrder(t: Table, r: seq<string>)
    requires forall x | x in r :: x in t
  {
    forall i, j | 0 <= i < j < |r| :: Before(t, r[i], r[j])
  }

  lemma {:induction false} SortedInOrder(t: Table, s: set<string>)
    requires s <= t.Keys
    ensures InOrder(t, Sorted(t, s))
    decreases s
  {
    if s != {} {
      var m := First(t, s);
      SortedInOrder(t, s - {m});
    }
  }

  /** There is only one way to list a set in queue order. */
  lemma {:induction false} SortedUnique(t: Table, s: set<string>, r: seq<string>)
    requires s <= t.Keys
    requires forall x :: x in r <==> x in s
    requires InOrder(t, r)
    ensures r == Sorted(t, s)
    decreases s
  {
    assert |r| > 0 ==> r[0] in r;
    if s != {} {
      var m := First(t, s);
      var k :| 0 <= k < |r| && r[k] == m;
      assert r[0] in r;
      if k != 0 { BeforeTotal(t, r[0], m); }
      forall x ensures x in r[1..] <==> x in s - {m} {
        if x in r[1..] {
          var i :| 1 <= i < |r| && r[i] == x;
          BeforeTotal(t, r[0], r[i]);
        }
      }
      SortedUnique(t, s - {m}, r[1..]);
      assert r == [m] + r[1..];
    }
  }

  /** SQL LIMIT: a negative limit is no limit. */
  function Limit<T>(s: seq<T>, n: int): seq<T>
  {
    if n < 0 || n >= |s| then s else s[..n]
  }

  function PopIds(t: Table, batchSize: int, now: int): seq<string>
  {
    Limit(Sorted(t, Eligible(t, now)), batchSize)
  }

  /** The popped rows are eligible, in order, as many as the batch allows, and nothing left behind is earlier. */
  lemma PopIdsAreTheEarliest(t: Table, batchSize: int, now: int)
    ensures var ids, el := PopIds(t, batchSize, now), Eligible(t, now);
            && (forall x | x in ids :: x in el)
            && InOrder(t, ids)
            && |ids| == (if batchSize < 0 || batchSize >= |el| then |el| else batchSize)
            && |Members(ids)| == |ids|
            && forall x, y | x in ids && y in el && y !in ids :: Before(t, x, y)
  {
    var el := Eligible(t, now);
    var all, ids := Sorted(t, el), PopIds(t, batchSize, now);
    SortedInOrder(t, el);
    forall x, y | x in ids && y in el && y !in ids ensures Before(t, x, y) {
      var i :| 0 <= i < |ids| && ids[i] == x;
      assert y in all;
      var j :| 0 <= j < |all| && all[j] == y;
      assert all[i] == x;
    }
    assert InOrder(t, ids);
    DistinctCount(t, ids);
  }

  lemma {:induction false} DistinctCount(t: Table, r: seq<string>)
    requires forall x | x in r :: x in t
    requires InOrder(t, r)
    ensures |Members(r)| == |r|
  {
    if r != [] {
      var rest, last := r[..|r| - 1], r[|r| - 1];
      DistinctCount(t, rest);
      assert last !in rest by {
        if last in rest {
          var i :| 0 <= i < |rest| && rest[i] == last;
          BeforeTotal(t, r[i], r[|r| - 1]);
        }
      }
      assert Members(r) == Members(rest) + {last};
    }
  }

  /** Leasing touches no sort column, so the second query lists the batch in the same order. */
  lemma LeasingKeepsOrder(t: Table, s: set<string>, now: int, r: seq<string>)
    requires s <= t.Keys && Members(r) == s && (forall x | x in r :: x in t) && InOrder(t, r)
    ensures s <= Leased(t, s, now).Keys && Sorted(Leased(t, s, now), s) == r
  {
    assert InOrder(Leased(t, s, now), r);
    SortedUnique(Leased(t, s, now), s, r);
  }

  /** Copies of the listed rows, in list order. */
  function Pick(t: Table, ids: seq<string>): (r: seq<(string, Row)>)
    requires forall x | x in ids :: x in t
    ensures |r| == |ids| && forall i | 0 <= i < |r| :: r[i] == (ids[i], t[ids[i]])
  {
    seq(|ids|, i requires 0 <= i < |ids| => (ids[i], t[ids[i]]))
  }

  // ---------- The table object ----------

  class CronDeliveries {
    var rows: Table

    constructor ()
      ensures rows == map[]
    {
      rows := map[];
    }

    /** newId is the fresh uuid drawn by the call. */
    method InsertIdempotent(p: Payload, newId: string, now: int) returns (id: string)
      requires newId !in rows
      modifies this
      ensures rows == Inserted(old(rows), p, newId, now)
      ensures id in rows && rows[id].payload.jobId == p.jobId && rows[id].payload.ranAtIso == p.ranAtIso
      ensures HasKey(old(rows), KeyOf(p)) ==> id in old(rows)
      ensures !HasKey(old(rows), KeyOf(p)) ==> id == newId
    {
      if !HasKey(rows, KeyOf(p)) {
        rows := rows[newId := NewRow(p, now)];
        assert KeyOf(rows[newId].payload) == KeyOf(p);
      }
      var existing :| existing in rows && KeyOf(rows[existing].payload) == KeyOf(p);
      id := existing;
    }

    method PopPending(batchSize: int, leaseTtlSecs: int, now: int) returns (leased: seq<(string, Row)>)
      modifies this
      ensures var ids := PopIds(old(rows), batchSize, now);
              && rows == Leased(old(rows), Members(ids), now)
              && (forall x | x in ids :: x in rows && rows[x].status == Delivering && rows[x].leasedAt == Some(now))
              && leased == Pick(rows, ids)
    {
      var idList := PopIds(rows, batchSize, now);
      PopIdsAreTheEarliest(rows, batchSize, now);
      if idList == [] {
        assert rows == Leased(rows, Members(idList), now);
        return [];
      }
      ghost var before := rows;
      rows := Leased(rows, Members(idList), now);
      LeasingKeepsOrder(before, Members(idList), now, idList);
      var again := Sorted(rows, Members(idList));
      leased := Pick(rows, again);
    }

    method MarkDelivered(rowId: string, now: int)
      modifies this
      ensures rows == MarkedDelivered(old(rows), rowId, now)
    {
      if rowId in rows {
        rows := rows[rowId := rows[rowId].(status := Delivered, deliveredAt := Some(now), leasedAt := None)];
      }
    }

    method MarkRetry(rowId: string, error: string, nextRetryAt: int)
      modifies this
      ensures rows == MarkedRetry(old(rows), rowId, error, nextRetryAt)
    {
      if rowId in rows {
        var row := rows[rowId];
        rows := rows[rowId := row.(status := Pending, retryCount := row.retryCount + 1, lastError := Some(error),
                                   nextRetryAt := Some(nextRetryAt), leasedAt := None)];
      }
    }

    method MarkFailed(rowId: string, error: string)
      modifies this
      ensures rows == MarkedFailed(old(rows), rowId, error)
    {
      if rowId in rows {
        rows := rows[rowId := rows[rowId].(status := Failed, lastError := Some(error), leasedAt := None)];
      }
    }

    method ReclaimStuckLeases(stuckThresholdSecs: int, now: int) returns (reclaimed: set<string>)
      modifies this
      ensures reclaimed == Stuck(old(rows), now - stuckThresholdSecs)
      ensures rows == Reclaimed(old(rows), reclaimed)
      ensures forall id | id in reclaimed :: id in rows && rows[id].status == Pending
    {
      reclaimed := Stuck(rows, now - stuckThresholdSecs);
      if reclaimed != {} {
        rows := Reclaimed(rows, reclaimed);
      }
    }

    method StampLegacyDeliveredAt(rowId: string, now: int)
      modifies this
      ensures rows == Stamped(old(rows), rowId, now)
    {
      if rowId in rows {
        rows := rows[rowId := rows[rowId].(legacyDeliveredAt := Some(now))];
      }
    }
  }
}
