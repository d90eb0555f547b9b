/**
  The scheduler's claim step (models/automations.py) on a database with SELECT ... FOR UPDATE SKIP
  LOCKED.  A worker selects and locks a batch, works out when each automation runs next, and commits;
  the rows it holds are invisible to other workers and closed to other writers until then.

  Selecting and committing are separate calls, so any interleaving of workers, users and the clock
  is a sequence of calls.
 */
module Automations {
  import opened Prelude

  type Id = string

  datatype Row = Row(active: bool, nextRunAt: Option<int>, lastRunAt: Option<int>)

  /** An open claim transaction: the time it was started with and the rows it locked. */
  datatype Batch = Batch(now: int, ids: seq<Id>)

  /** What `next_run_ns` gave for a row, or that it ran out of time. */
  datatype Outcome = TimedOut | NextRun(at: Option<int>)

  datatype Claim = Claim(id: Id, due: int, now: int)

  predicate IsDue(rows: map<Id, Row>, id: Id, now: int) {
    id in rows && rows[id].active && rows[id].nextRunAt.Some? && rows[id].nextRunAt.value <= now
  }

  function DueTime(rows: map<Id, Row>, id: Id): int {
    if id in rows && rows[id].nextRunAt.Some? then rows[id].nextRunAt.value else 0
  }

  ghost predicate Locked(batches: map<nat, Batch>, id: Id) {
    exists w :: w in batches && id in batches[w].ids
  }

  // ---------- No due time is claimed twice ----------

  ghost predicate NoDoubleClaim(claims: seq<Claim>) {
    forall i, j :: 0 <= i < j < |claims| ==> (claims[i].id, claims[i].due) != (claims[j].id, claims[j].due)
  }

  ghost predicate Claimed(claims: seq<Claim>, id: Id, due: int) {
    exists k :: 0 <= k < |claims| && claims[k].id == id && claims[k].due == due
  }

  /** No active row waits for a due time that it was already claimed at. */
  ghost predicate Unclaimed(claims: seq<Claim>, rows: map<Id, Row>) {
    forall id :: id in rows && rows[id].active && rows[id].nextRunAt.Some? ==> !Claimed(claims, id, rows[id].nextRunAt.value)
  }

  /** All claims of a row were due by time t. */
  ghost predicate ClaimsUpTo(claims: seq<Claim>, id: Id, t: int) {
    forall k :: 0 <= k < |claims| && claims[k].id == id ==> claims[k].due <= t
  }

  /** Claims lie in the past, those of a held row before the time of its batch. */
  ghost predicate ClaimsPast(claims: seq<Claim>, batches: map<nat, Batch>, clock: int) {
    (forall k :: 0 <= k < |claims| ==> claims[k].due <= clock) &&
    forall w, id :: w in batches && id in batches[w].ids ==> ClaimsUpTo(claims, id, batches[w].now)
  }

  ghost predicate LocksHold(batches: map<nat, Batch>, rows: map<Id, Row>, clock: int) {
    (forall w, id :: w in batches && id in batches[w].ids ==> batches[w].now <= clock && IsDue(rows, id, batches[w].now)) &&
    (forall w :: w in batches ==> Distinct(batches[w].ids)) &&
    forall w, w', id :: w in batches && w' in batches && id in batches[w].ids && id in batches[w'].ids ==> w == w'
  }

  lemma LocksUnaffected(batches: map<nat, Batch>, rows: map<Id, Row>, clock: int, id: Id, row: Row)
    requires LocksHold(batches, rows, clock) && !Locked(batches, id)
    ensures LocksHold(batches, rows[id := row], clock)
  {
    forall w, x | w in batches && x in batches[w].ids
      ensures IsDue(rows[id := row], x, batches[w].now)
    {
      assert x != id;
    }
  }

  lemma LockMore(batches: map<nat, Batch>, rows: map<Id, Row>, clock: int, worker: nat, ids: seq<Id>)
    requires LocksHold(batches, rows, clock) && worker !in batches && Distinct(ids)
    requires forall id :: id in ids ==> IsDue(rows, id, clock) && !Locked(batches, id)
    ensures LocksHold(batches[worker := Batch(clock, ids)], rows, clock)
  {
    forall w, id | w in batches && id in batches[w].ids
      ensures id !in ids
    {
      assert Locked(batches, id);
    }
  }

  // ---------- The effect of a commit ----------

  /** The ids among the first k whose next run could be worked out. */
  function Chosen(ids: seq<Id>, outcomes: seq<Outcome>, k: nat): seq<Id>
    requires k <= |ids| == |outcomes|
  {
    if k == 0 then []
    else Chosen(ids, outcomes, k - 1) + if outcomes[k - 1].NextRun? then [ids[k - 1]] else []
  }

  function Rescheduled(rows: map<Id, Row>, batch: Batch, outcomes: seq<Outcome>, k: nat): map<Id, Row>
    requires k <= |batch.ids| == |outcomes|
  {
    if k == 0 then rows
    else
      var before := Rescheduled(rows, batch, outcomes, k - 1);
      if outcomes[k - 1].NextRun? then before[batch.ids[k - 1] := Row(true, outcomes[k - 1].at, Some(batch.now))]
      else before
  }

  function ClaimsOf(rows: map<Id, Row>, ids: seq<Id>, now: int): seq<Claim> {
    seq(|ids|, k requires 0 <= k < |ids| => Claim(ids[k], DueTime(rows, ids[k]), now))
  }

  lemma {:induction false} ChosenAt(ids: seq<Id>, outcomes: seq<Outcome>, k: nat, j: nat)
    requires k <= |ids| == |outcomes| && j < |ids| && Distinct(ids)
    ensures ids[j] in Chosen(ids, outcomes, k) <==> j < k && outcomes[j].NextRun?
    ensures forall id :: id in Chosen(ids, outcomes, k) ==> id in ids
  {
    if k > 0 {
      ChosenAt(ids, outcomes, k - 1, j);
      assert j != k - 1 ==> ids[j] != ids[k - 1];
    }
  }

  lemma {:induction false} RescheduledAt(rows: map<Id, Row>, batch: Batch, outcomes: seq<Outcome>, k: nat, id: Id)
    requires k <= |batch.ids| == |outcomes| && Distinct(batch.ids)
    ensures id !in Chosen(batch.ids, outcomes, k) ==>
              (id in rows <==> id in Rescheduled(rows, batch, outcomes, k)) &&
              (id in rows ==> Rescheduled(rows, batch, outcomes, k)[id] == rows[id])
    ensures forall j :: 0 <= j < k && outcomes[j].NextRun? && batch.ids[j] == id ==>
              id in Rescheduled(rows, batch, outcomes, k) &&
              Rescheduled(rows, batch, outcomes, k)[id] == Row(true, outcomes[j].at, Some(batch.now))
  {
    if k > 0 {
      RescheduledAt(rows, batch, outcomes, k - 1, id);
      assert forall j :: 0 <= j < k - 1 ==> batch.ids[j] != batch.ids[k - 1];
    }
  }

  /** Releasing a batch leaves its rows, still due, with nobody. */
  lemma Release(batches: map<nat, Batch>, rows: map<Id, Row>, clock: int, claims: seq<Claim>, worker: nat)
    requires worker in batches && LocksHold(batches, rows, clock) && ClaimsPast(claims, batches, clock)
    ensures LocksHold(batches - {worker}, rows, clock) && ClaimsPast(claims, batches - {worker}, clock)
    ensures Distinct(batches[worker].ids)
    ensures forall id :: id in batches[worker].ids ==>
              batches[worker].now <= clock && !Locked(batches - {worker}, id) && IsDue(rows, id, batches[worker].now) &&
              ClaimsUpTo(claims, id, batches[worker].now)
  {
  }

  /** When its turn comes a row of the batch is what it was at the start. */
  lemma RoundFinds(rows: map<Id, Row>, batch: Batch, outcomes: seq<Outcome>, k: nat)
    requires k < |batch.ids| == |outcomes| && Distinct(batch.ids) && batch.ids[k] in rows
    ensures batch.ids[k] in Rescheduled(rows, batch, outcomes, k)
    ensures Rescheduled(rows, batch, outcomes, k)[batch.ids[k]] == rows[batch.ids[k]]
  {
    ChosenAt(batch.ids, outcomes, k, k);
    RescheduledAt(rows, batch, outcomes, k, batch.ids[k]);
  }

  lemma ClaimsOfMore(rows: map<Id, Row>, ids: seq<Id>, id: Id, now: int)
    ensures ClaimsOf(rows, ids + [id], now) == ClaimsOf(rows, ids, now) + [Claim(id, DueTime(rows, id), now)]
  {
  }

  /** The k-th row of a batch is claimed and no longer due at the batch's time, or left as it was. */
  ghost predicate CommittedAt(rows: map<Id, Row>, rows': map<Id, Row>, batch: Batch, claimed: seq<Id>,
                              outcomes: seq<Outcome>, k: nat)
    requires k < |batch.ids| == |outcomes|
  {
    var id := batch.ids[k];
    if outcomes[k].NextRun? then id in claimed && !IsDue(rows', id, batch.now)
    else id !in claimed && id in rows' && id in rows && rows'[id] == rows[id]
  }

  /** The next run lies after the time the batch was claimed at. */
  predicate RunsLater(outcomes: seq<Outcome>, now: int) {
    forall k :: 0 <= k < |outcomes| && outcomes[k].NextRun? && outcomes[k].at.Some? ==> outcomes[k].at.value > now
  }

  lemma CommitAll(rows: map<Id, Row>, batch: Batch, outcomes: seq<Outcome>)
    requires |batch.ids| == |outcomes| && Distinct(batch.ids) && RunsLater(outcomes, batch.now)
    requires forall id :: id in batch.ids ==> IsDue(rows, id, batch.now)
    ensures forall k :: 0 <= k < |outcomes| ==>
              CommittedAt(rows, Rescheduled(rows, batch, outcomes, |outcomes|), batch,
                          Chosen(batch.ids, outcomes, |outcomes|), outcomes, k)
  {
    forall k | 0 <= k < |outcomes|
      ensures CommittedAt(rows, Rescheduled(rows, batch, outcomes, |outcomes|), batch,
                          Chosen(batch.ids, outcomes, |outcomes|), outcomes, k)
    {
      assert batch.ids[k] in batch.ids;
      ChosenAt(batch.ids, outcomes, |outcomes|, k);
      RescheduledAt(rows, batch, outcomes, |outcomes|, batch.ids[k]);
    }
  }

  /** Writing a row is safe exactly when it is not active with a due time that was claimed before. */
  lemma SafeWrite(claims: seq<Claim>, rows: map<Id, Row>, id: Id, row: Row)
    requires Unclaimed(claims, rows)
    ensures Unclaimed(claims, rows[id := row]) <==>
            (row.active && row.nextRunAt.Some? ==> !Claimed(claims, id, row.nextRunAt.value))
  {
    var rows' := rows[id := row];
    assert id in rows' && rows'[id] == row;
    forall x | x in rows' && x != id && rows'[x].active && rows'[x].nextRunAt.Some?
      ensures !Claimed(claims, x, rows'[x].nextRunAt.value)
    {
      assert x in rows && rows[x] == rows'[x];
    }
  }

  lemma ClaimedMore(claims: seq<Claim>, c: Claim, id: Id, due: int)
    ensures Claimed(claims + [c], id, due) <==> Claimed(claims, id, due) || (c.id == id && c.due == due)
  {
    var claims' := claims + [c];
    assert claims'[|claims|] == c;
    assert forall k :: 0 <= k < |claims| ==> claims'[k] == claims[k];
  }

  /** A claim moves its row to a later run, or to none, and so can never be repeated. */
  lemma ClaimStep(claims: seq<Claim>, rows: map<Id, Row>, id: Id, row: Row, now: int)
    requires IsDue(rows, id, now) && ClaimsUpTo(claims, id, now)
    requires row.nextRunAt.Some? ==> row.nextRunAt.value > now
    requires Unclaimed(claims, rows) && NoDoubleClaim(claims)
    ensures var claims' := claims + [Claim(id, DueTime(rows, id), now)];
            Unclaimed(claims', rows[id := row]) && NoDoubleClaim(claims')
  {
    var due := DueTime(rows, id);
    var claims' := claims + [Claim(id, due, now)];
    var rows' := rows[id := row];
    forall k | 0 <= k < |claims|
      ensures (claims[k].id, claims[k].due) != (id, due)
    {
      assert !Claimed(claims, id, due);
    }
    forall x | x in rows' && rows'[x].active && rows'[x].nextRunAt.Some?
      ensures !Claimed(claims', x, rows'[x].nextRunAt.value)
    {
      var at := rows'[x].nextRunAt.value;
      ClaimedMore(claims, Claim(id, due, now), x, at);
    }
  }

  class Table {
    var rows: map<Id, Row>
    var batches: map<nat, Batch>      // by worker
    var clock: int
    ghost var claims: seq<Claim>      // every claim ever committed
    ghost var everIds: set<Id>

    ghost predicate Valid()
      reads this
    {
      rows.Keys <= everIds && (forall k :: 0 <= k < |claims| ==> claims[k].id in everIds) &&
      LocksHold(batches, rows, clock) && ClaimsPast(claims, batches, clock)
    }

    /** No due time was claimed twice, and none is about to be. */
    ghost predicate Safe()
      reads this
    {
      NoDoubleClaim(claims) && Unclaimed(claims, rows)
    }

    constructor (now: int)
      ensures Valid() && Safe() && rows == map[] && batches == map[] && claims == [] && clock == now
      ensures everIds == {}
    {
      rows, batches, clock, claims, everIds := map[], map[], now, [], {};
    }

    method Tick(now: int)
      requires Valid() && clock <= now
      modifies this`clock
      ensures Valid() && clock == now
    {
      clock := now;
    }

    /** Some candidate with the earliest due time. */
    method Earliest(candidates: set<Id>, now: int) returns (id: Id)
      requires candidates != {} && forall x :: x in candidates ==> IsDue(rows, x, now)
      ensures id in candidates
      ensures forall x :: x in candidates ==> DueTime(rows, id) <= DueTime(rows, x)
    {
      id :| id in candidates;
      var rest := candidates - {id};
      while rest != {}
        invariant id in candidates && rest <= candidates
        invariant forall x :: x in candidates && x !in rest ==> DueTime(rows, id) <= DueTime(rows, x)
        decreases rest
      {
        var x :| x in rest;
        if DueTime(rows, x) < DueTime(rows, id) {
          id := x;
        }
        rest := rest - {x};
      }
    }

    /** ORDER BY next_run_at LIMIT. */
    method TakeEarliest(candidates: set<Id>, now: int, limit: nat) returns (ids: seq<Id>)
      requires forall x :: x in candidates ==> IsDue(rows, x, now)
      ensures |ids| <= limit && Distinct(ids) && forall id :: id in ids ==> id in candidates
      ensures forall i, j :: 0 <= i < j < |ids| ==> DueTime(rows, ids[i]) <= DueTime(rows, ids[j])
      ensures forall x :: x in candidates && x !in ids ==>
                |ids| == limit && forall id :: id in ids ==> DueTime(rows, id) <= DueTime(rows, x)
    {
      var rest := candidates;
      ids := [];
      while |ids| < limit && rest != {}
        invariant |ids| <= limit && Distinct(ids) && rest <= candidates
        invariant forall id :: id in candidates <==> id in ids || id in rest
        invariant forall id :: id in ids ==> id !in rest
        invariant forall i, j :: 0 <= i < j < |ids| ==> DueTime(rows, ids[i]) <= DueTime(rows, ids[j])
        invariant forall id, x :: id in ids && x in rest ==> DueTime(rows, id) <= DueTime(rows, x)
        decreases rest
      {
        var id := Earliest(rest, now);
        ids := ids + [id];
        rest := rest - {id};
      }
    }

    /** The SELECT of `claim_due`: at most `limit` due rows that nobody holds, earliest first. */
    method SelectDue(worker: nat, limit: nat) returns (ids: seq<Id>)
      requires Valid() && worker !in batches
      modifies this`batches
      ensures Valid() && batches == old(batches)[worker := Batch(clock, ids)]
      ensures |ids| <= limit && Distinct(ids)
      ensures forall id :: id in ids ==> IsDue(rows, id, clock) && !Locked(old(batches), id)
      ensures forall id :: id in ids ==>
                id in rows && rows[id].active && rows[id].nextRunAt.Some? && rows[id].nextRunAt.value <= clock
      ensures forall i, j :: 0 <= i < j < |ids| ==>
                ids[i] in rows && ids[j] in rows && rows[ids[i]].nextRunAt.Some? && rows[ids[j]].nextRunAt.Some? &&
                rows[ids[i]].nextRunAt.value <= rows[ids[j]].nextRunAt.value
      ensures forall x :: x in rows && rows[x].active && rows[x].nextRunAt.Some? && rows[x].nextRunAt.value <= clock &&
                          !Locked(old(batches), x) && x !in ids ==>
                |ids| == limit &&
                forall id :: id in ids ==>
                  (id in rows && rows[id].nextRunAt.Some? && rows[id].nextRunAt.value <= rows[x].nextRunAt.value)
    {
      var held := set w, id | w in batches && id in batches[w].ids :: id;
      assert forall id :: id in held <==> Locked(batches, id);
      var candidates := set id | id in rows && IsDue(rows, id, clock) && id !in held;
      ids := TakeEarliest(candidates, clock, limit);
      LockMore(batches, rows, clock, worker, ids);
      batches := batches[worker := Batch(clock, ids)];
    }

    /** Claim one row that the worker held. */
    method ClaimRow(id: Id, nextRunAt: Option<int>, now: int)
      requires Valid() && !Locked(batches, id) && IsDue(rows, id, now) && now <= clock
      requires ClaimsUpTo(claims, id, now) && (nextRunAt.Some? ==> nextRunAt.value > now)
      modifies this`rows, this`claims
      ensures Valid() && rows == old(rows)[id := Row(true, nextRunAt, Some(now))]
      ensures claims == old(claims) + [Claim(id, DueTime(old(rows), id), now)]
      ensures old(Safe()) ==> Safe()
    {
      var row := rows[id].(lastRunAt := Some(now), nextRunAt := nextRunAt);
      LocksUnaffected(batches, rows, clock, id, row);
      if Safe() {
        ClaimStep(claims, rows, id, row, now);
      }
      claims := claims + [Claim(id, rows[id].nextRunAt.value, now)];
      rows := rows[id := row];
      assert forall w, x :: w in batches && x in batches[w].ids ==> x != id;
    }

    /** The rest of `claim_due`: reschedule what could be evaluated, commit, release the locks. */
    method Commit(worker: nat, outcomes: seq<Outcome>) returns (claimed: seq<Id>)
      requires Valid() && worker in batches && |outcomes| == |batches[worker].ids|
      requires RunsLater(outcomes, batches[worker].now)
      modifies this`rows, this`batches, this`claims
      ensures Valid() && batches == old(batches) - {worker}
      ensures old(Safe()) ==> Safe()
      // exactly the rows that could be evaluated are claimed, each with the due time it had
      ensures var batch := old(batches)[worker];
              claimed == Chosen(batch.ids, outcomes, |outcomes|) &&
              rows == Rescheduled(old(rows), batch, outcomes, |outcomes|) &&
              claims == old(claims) + ClaimsOf(old(rows), claimed, batch.now)
      ensures forall k :: 0 <= k < |outcomes| ==>
                CommittedAt(old(rows), rows, old(batches)[worker], claimed, outcomes, k)
    {
      var batch := batches[worker];
      Release(batches, rows, clock, claims, worker);
      claimed := [];
      batches := batches - {worker};
      assert ClaimsOf(rows, claimed, batch.now) == [];
      for k := 0 to |outcomes|
        invariant Valid() && batches == old(batches) - {worker}
        invariant old(Safe()) ==> Safe()
        invariant forall j :: k <= j < |outcomes| ==> ClaimsUpTo(claims, batch.ids[j], batch.now)
        invariant claimed == Chosen(batch.ids, outcomes, k)
        invariant rows == Rescheduled(old(rows), batch, outcomes, k)
        invariant claims == old(claims) + ClaimsOf(old(rows), claimed, batch.now)
      {
        var id := batch.ids[k];
        assert id in batch.ids;
        RoundFinds(old(rows), batch, outcomes, k);
        if outcomes[k].NextRun? {
          ClaimsOfMore(old(rows), claimed, id, batch.now);
          ClaimRow(id, outcomes[k].at, batch.now);
          claimed := claimed + [id];
        }
      }
      CommitAll(old(rows), batch, outcomes);
    }

    /** Write a row that no worker holds. */
    method Put(id: Id, row: Row)
      requires Valid() && !Locked(batches, id) && id in everIds
      modifies this`rows
      ensures Valid() && rows == old(rows)[id := row]
      ensures old(Safe()) ==> (Safe() <==> (row.active && row.nextRunAt.Some? ==> !Claimed(claims, id, row.nextRunAt.value)))
    {
      LocksUnaffected(batches, rows, clock, id, row);
      if Safe() {
        SafeWrite(claims, rows, id, row);
      }
      rows := rows[id := row];
    }

    /** `toggle`, with a next run that the caller worked out at some earlier time. */
    method Toggle(id: Id, nextRunAt: Option<int>) returns (ok: bool)
      requires Valid() && !Locked(batches, id)
      modifies this`rows
      ensures Valid() && (ok <==> id in old(rows))
      ensures rows == if !ok then old(rows) else
                var row := old(rows)[id];
                old(rows)[id := row.(active := !row.active, nextRunAt := if row.active then None else nextRunAt)]
      ensures old(Safe()) ==>
                (Safe() <==> (ok && rows[id].active && nextRunAt.Some? ==> !Claimed(claims, id, nextRunAt.value)))
    {
      if id !in rows {
        return false;
      }
      var active := !rows[id].active;
      Put(id, rows[id].(active := active, nextRunAt := if active then nextRunAt else None));
      ok := true;
    }

    /** `update_by_id`, as far as scheduling goes, with such a next run. */
    method UpdateById(id: Id, active: Option<bool>, nextRunAt: Option<int>) returns (ok: bool)
      requires Valid() && !Locked(batches, id)
      modifies this`rows
      ensures Valid() && (ok <==> id in old(rows))
      ensures rows == if !ok then old(rows) else
                old(rows)[id := old(rows)[id].(active := if active.Some? then active.value else old(rows)[id].active,
                                               nextRunAt := nextRunAt)]
      ensures old(Safe()) ==>
                (Safe() <==> (ok && rows[id].active && nextRunAt.Some? ==> !Claimed(claims, id, nextRunAt.value)))
    {
      if id !in rows {
        return false;
      }
      var row := rows[id];
      if active.Some? {
        row := row.(active := active.value);
      }
      Put(id, row.(nextRunAt := nextRunAt));
      ok := true;
    }

    method Insert(id: Id, row: Row)
      requires Valid() && id !in everIds
      modifies this`rows, this`everIds
      ensures Valid() && rows == old(rows)[id := row] && everIds == old(everIds) + {id}
      ensures old(Safe()) ==> Safe()
    {
      assert !Locked(batches, id);
      everIds := everIds + {id};
      Put(id, row);
    }

    method Delete(id: Id)
      requires Valid() && !Locked(batches, id)
      modifies this`rows
      ensures Valid() && rows == old(rows) - {id}
      ensures old(Safe()) ==> Safe()
    {
      assert forall w :: w in batches ==> id !in batches[w].ids;
      rows := rows - {id};
    }
  }

  // ---------- An unsafe state leads to a second claim ----------

  lemma {:induction false} FewerThanRows(ids: seq<Id>, all: set<Id>)
    requires Distinct(ids) && forall id :: id in ids ==> id in all
    ensures |ids| <= |all|
  {
    if ids != [] {
      var rest := all - {ids[0]};
      assert forall id :: id in ids[1..] ==> id in rest;
      FewerThanRows(ids[1..], rest);
    }
  }

  /** An active row that waits for a claimed due time is claimed at it again, by its holder or by a new worker. */
  method UnsafeIsClaimedAgain(t: Table, id: Id, worker: nat)
    requires t.Valid() && worker !in t.batches
    requires id in t.rows && t.rows[id].active && t.rows[id].nextRunAt.Some?
    requires Claimed(t.claims, id, t.rows[id].nextRunAt.value)
    modifies t
    ensures t.Valid() && !NoDoubleClaim(t.claims)
  {
    ghost var claims, rows := t.claims, t.rows;
    var w := worker;
    if holder :| holder in t.batches && id in t.batches[holder].ids {
      w := holder;
    } else {
      var chosen := t.SelectDue(worker, |t.rows| + 1);
      FewerThanRows(chosen, t.rows.Keys);
    }
    var batch := t.batches[w];
    assert id in batch.ids;
    var outcomes := seq(|batch.ids|, k requires 0 <= k < |batch.ids| => NextRun(None));
    var claimed := t.Commit(w, outcomes);
    ghost var j :| 0 <= j < |batch.ids| && batch.ids[j] == id;
    assert CommittedAt(rows, t.rows, batch, claimed, outcomes, j);
    ClaimedAgain(claims, rows, claimed, batch.now, id, rows[id].nextRunAt.value);
  }

  lemma ClaimedAgain(claims: seq<Claim>, rows: map<Id, Row>, ids: seq<Id>, now: int, id: Id, due: int)
    requires Claimed(claims, id, due) && id in ids && DueTime(rows, id) == due
    ensures !NoDoubleClaim(claims + ClaimsOf(rows, ids, now))
  {
    var k :| 0 <= k < |claims| && claims[k].id == id && claims[k].due == due;
    var c :| 0 <= c < |ids| && ids[c] == id;
    var all := claims + ClaimsOf(rows, ids, now);
    assert all[k] == claims[k] && all[|claims| + c] == Claim(id, due, now);
  }

  lemma OnlyRow(rows: map<Id, Row>, now: int, ids: seq<Id>)
    requires rows.Keys == {"a"} && |ids| <= 1 && ("a" !in ids ==> |ids| == 1)
    requires forall id :: id in ids ==> IsDue(rows, id, now)
    ensures ids == ["a"]
  {
    if |ids| == 1 {
      assert ids[0] in ids;
    }
  }

  /** Such a run from the start: claimed at 5, written back by an update worked out earlier, claimed again. */
  method ClaimedTwice() returns (t: Table)
    ensures fresh(t) && t.Valid() && !NoDoubleClaim(t.claims)
  {
    t := new Table(0);
    t.Insert("a", Row(true, Some(5), None));
    t.Tick(5);
    assert t.rows == map["a" := Row(true, Some(5), None)];
    assert IsDue(t.rows, "a", t.clock) && !Locked(t.batches, "a");
    var ids := t.SelectDue(0, 1);
    OnlyRow(t.rows, t.clock, ids);
    var claimed := t.Commit(0, [NextRun(None)]);
    assert claimed == Chosen(["a"], [NextRun(None)], 1) == Chosen(["a"], [NextRun(None)], 0) + ["a"] == ["a"];
    assert t.claims[0] == Claim("a", 5, 5);
    assert "a" in t.rows;
    assert Claimed(t.claims, "a", 5);
    var ok := t.UpdateById("a", None, Some(5));
    UnsafeIsClaimedAgain(t, "a", 0);
  }
}
