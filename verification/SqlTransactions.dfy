/** Interleaved SQL transactions that each run the audit callbacks of one
    statement: allocate a version, save the audit row, notify, for every audited
    element in turn, then commit or roll back.

    Assumed of the database: a counter row stays locked by the transaction that
    incremented it until that transaction ends, rollback discards everything the
    transaction wrote, and a failed statement leaves no trace. */
module SqlTransactions {
  import opened Values
  import opened VersionKeys
  import opened VersionSequences

  type TxId = nat

  /** An audit row; `owner` and `slot` say which transaction saved it and for
      which element of its statement. */
  datatype Row = Row(key: Key, version: nat, owner: TxId, slot: nat)

  datatype Stage = Allocating | Saving(version: nat) | Notifying

  datatype Status = Active | Committed | RolledBack

  /** `work` lists the entities the statement must audit; `next` is the element
      being audited. `counters` and `rows` are the transaction's own writes,
      `lost` the versions allocated here whose row could not be saved, and
      `failed` whether an audit error was attached to the statement. */
  datatype Tx = Tx(
    work: seq<Key>,
    next: nat,
    stage: Stage,
    counters: map<Key, nat>,
    rows: seq<Row>,
    lost: multiset<Key>,
    failed: bool,
    status: Status)

  /** The database as committed, the counter locks, and every transaction.
      A business mutation is visible exactly when its transaction committed. */
  datatype Db = Db(
    failClosed: bool,
    counters: map<Key, nat>,
    rows: seq<Row>,
    lost: multiset<Key>,
    locks: map<Key, TxId>,
    txs: map<TxId, Tx>)

  /** `ok` is the outcome of the call: the store's, or the callback's. */
  datatype Step =
    | Begin(t: TxId, work: seq<Key>)
    | Allocate(t: TxId, ok: bool)
    | Save(t: TxId, ok: bool)
    | Notify(t: TxId, ok: bool)
    | Commit(t: TxId)
    | Rollback(t: TxId)

  function Counter(counters: map<Key, nat>, key: Key): nat {
    if key in counters then counters[key] else 0
  }

  function Versions(rows: seq<Row>, key: Key): seq<nat> {
    if rows == [] then []
    else Versions(rows[..|rows| - 1], key) +
         (if rows[|rows| - 1].key == key then [rows[|rows| - 1].version] else [])
  }

  /** The counter value the transaction sees: its own write, or the committed one. */
  function Seen(db: Db, t: TxId, key: Key): nat
    requires t in db.txs
  {
    if key in db.txs[t].counters then db.txs[t].counters[key] else Counter(db.counters, key)
  }

  predicate LockFree(db: Db, t: TxId, key: Key) {
    key in db.locks ==> db.locks[key] == t
  }

  /** The unique index over entity and version, as the transaction sees it. */
  predicate IsNew(db: Db, t: TxId, key: Key, version: nat)
    requires t in db.txs
  {
    forall r | r in db.rows + db.txs[t].rows :: !(r.key == key && r.version == version)
  }

  predicate Enabled(db: Db, s: Step) {
    match s
    case Begin(t, _) => t !in db.txs
    case Allocate(t, ok) =>
      && t in db.txs && db.txs[t].status == Active && db.txs[t].stage == Allocating
      && db.txs[t].next < |db.txs[t].work|
      && (ok ==> LockFree(db, t, db.txs[t].work[db.txs[t].next]))
    case Save(t, ok) =>
      && t in db.txs && db.txs[t].status == Active && db.txs[t].stage.Saving?
      && db.txs[t].next < |db.txs[t].work|
      && (ok ==> IsNew(db, t, db.txs[t].work[db.txs[t].next], db.txs[t].stage.version))
    case Notify(t, _) =>
      && t in db.txs && db.txs[t].status == Active && db.txs[t].stage == Notifying
      && db.txs[t].next < |db.txs[t].work|
    case Commit(t) =>
      && t in db.txs && db.txs[t].status == Active && db.txs[t].stage == Allocating
      && db.txs[t].next == |db.txs[t].work| && !db.txs[t].failed
    case Rollback(t) => t in db.txs && db.txs[t].status == Active
  }

  function Unlocked(db: Db, t: TxId): map<Key, TxId> {
    map k | k in db.locks && db.locks[k] != t :: db.locks[k]
  }

  function Apply(db: Db, s: Step): Db
    requires Enabled(db, s)
  {
    match s
    case Begin(t, work) =>
      db.(txs := db.txs[t := Tx(work, 0, Allocating, map[], [], multiset{}, false, Active)])
    case Allocate(t, ok) =>
      var tx := db.txs[t];
      var key := tx.work[tx.next];
      if ok then
        var version := Seen(db, t, key) + 1;
        db.(locks := db.locks[key := t],
            txs := db.txs[t := tx.(counters := tx.counters[key := version], stage := Saving(version))])
      else
        db.(txs := db.txs[t := tx.(next := tx.next + 1, failed := tx.failed || db.failClosed)])
    case Save(t, ok) =>
      var tx := db.txs[t];
      var key := tx.work[tx.next];
      if ok then
        db.(txs := db.txs[t := tx.(rows := tx.rows + [Row(key, tx.stage.version, t, tx.next)], stage := Notifying)])
      else
        db.(txs := db.txs[t := tx.(lost := tx.lost + multiset{key}, next := tx.next + 1, stage := Allocating,
                                   failed := tx.failed || db.failClosed)])
    case Notify(t, ok) =>
      var tx := db.txs[t];
      db.(txs := db.txs[t := tx.(next := tx.next + 1, stage := Allocating,
                                 failed := tx.failed || (db.failClosed && !ok))])
    case Commit(t) =>
      var tx := db.txs[t];
      db.(counters := db.counters + tx.counters,
          rows := db.rows + tx.rows,
          lost := db.lost + tx.lost,
          locks := Unlocked(db, t),
          txs := db.txs[t := tx.(status := Committed)])
    case Rollback(t) =>
      db.(locks := Unlocked(db, t), txs := db.txs[t := db.txs[t].(status := RolledBack)])
  }

  function Start(failClosed: bool): Db {
    Db(failClosed, map[], [], multiset{}, map[], map[])
  }

  /** Whether the steps can be taken one after the other. */
  predicate Legal(db: Db, steps: seq<Step>)
    decreases |steps|
  {
    steps == [] || (Enabled(db, steps[0]) && Legal(Apply(db, steps[0]), steps[1..]))
  }

  function Exec(db: Db, steps: seq<Step>): Db
    requires Legal(db, steps)
    decreases |steps|
  {
    if steps == [] then db else Exec(Apply(db, steps[0]), steps[1..])
  }

  lemma {:induction false} VersionsAppend(a: seq<Row>, b: seq<Row>, key: Key)
    ensures Versions(a + b, key) == Versions(a, key) + Versions(b, key)
  {
    if b == [] {
      assert a + b == a;
    } else {
      VersionsAppend(a, b[..|b| - 1], key);
      assert (a + b)[..|a + b| - 1] == a + b[..|b| - 1];
    }
  }

  lemma {:induction false} VersionsIn(rows: seq<Row>, key: Key, v: nat)
    ensures v in Versions(rows, key) <==> exists r :: r in rows && r.key == key && r.version == v
  {
    if rows != [] {
      var init, last := rows[..|rows| - 1], rows[|rows| - 1];
      VersionsIn(init, key, v);
      assert forall r :: r in rows <==> r in init || r == last;
    }
  }

  // ---------------------------------------------------------------------
  // Versions: the invariant
  // ---------------------------------------------------------------------

  /** One counter of the committed state. */
  ghost predicate CounterOk(db: Db, key: Key) {
    var versions := Versions(db.rows, key);
    && Increasing(versions) && Between(versions, 0, Counter(db.counters, key))
    && |versions| + db.lost[key] == Counter(db.counters, key)
  }

  function InFlight(tx: Tx, key: Key): nat {
    if tx.stage.Saving? && tx.next < |tx.work| && tx.work[tx.next] == key then 1 else 0
  }

  /** One counter as an active transaction has moved it. */
  ghost predicate PendingOk(db: Db, t: TxId, key: Key)
    requires t in db.txs
  {
    var tx := db.txs[t];
    var versions := Versions(tx.rows, key);
    var low, high := Counter(db.counters, key), Seen(db, t, key);
    && low + InFlight(tx, key) <= high
    && Increasing(versions) && Between(versions, low, high - InFlight(tx, key))
    && |versions| + tx.lost[key] + InFlight(tx, key) == high - low
    && (InFlight(tx, key) == 1 ==> tx.stage.version == high && key in tx.counters)
  }

  ghost predicate LocksOk(db: Db) {
    && (forall k | k in db.locks ::
          db.locks[k] in db.txs && db.txs[db.locks[k]].status == Active && k in db.txs[db.locks[k]].counters)
    && (forall t, k | t in db.txs && db.txs[t].status == Active && k in db.txs[t].counters ::
          k in db.locks && db.locks[k] == t)
  }

  ghost predicate TxOk(db: Db, t: TxId)
    requires t in db.txs
  {
    && (forall k :: PendingOk(db, t, k))
    && (db.failClosed && db.txs[t].lost != multiset{} ==> db.txs[t].failed)
  }

  ghost predicate Inv(db: Db) {
    && (forall k :: CounterOk(db, k))
    && (forall t | t in db.txs && db.txs[t].status == Active :: TxOk(db, t))
    && LocksOk(db)
    && (db.failClosed ==> db.lost == multiset{})
  }

  /** Steps of `t` that leave the committed state alone cannot disturb others. */
  lemma OthersKept(db: Db, s: Step, t: TxId)
    requires Inv(db) && Enabled(db, s) && t in db.txs && db.txs[t].status == Active
    requires !s.Commit? && s.t != t
    ensures t in Apply(db, s).txs && TxOk(Apply(db, s), t)
  {
    assert TxOk(db, t);
    var after := Apply(db, s);
    forall k
      ensures PendingOk(after, t, k)
    {
      assert PendingOk(db, t, k);
    }
  }

  lemma AllocateKept(db: Db, t: TxId, ok: bool, k: Key)
    requires Enabled(db, Allocate(t, ok)) && PendingOk(db, t, k)
    ensures PendingOk(Apply(db, Allocate(t, ok)), t, k)
  {
  }

  lemma SaveKept(db: Db, t: TxId, ok: bool, k: Key)
    requires Enabled(db, Save(t, ok)) && PendingOk(db, t, k)
    ensures PendingOk(Apply(db, Save(t, ok)), t, k)
  {
    var tx := db.txs[t];
    if ok {
      var row := Row(tx.work[tx.next], tx.stage.version, t, tx.next);
      assert (tx.rows + [row])[..|tx.rows|] == tx.rows;
      assert Versions(tx.rows + [row], k) == Versions(tx.rows, k) + (if row.key == k then [row.version] else []);
    }
  }

  lemma NotifyKept(db: Db, t: TxId, ok: bool, k: Key)
    requires Enabled(db, Notify(t, ok)) && PendingOk(db, t, k)
    ensures PendingOk(Apply(db, Notify(t, ok)), t, k)
  {
  }

  lemma OwnStepKept(db: Db, s: Step)
    requires Inv(db) && Enabled(db, s)
    requires s.Begin? || s.Allocate? || s.Save? || s.Notify?
    ensures TxOk(Apply(db, s), s.t)
  {
    forall k
      ensures PendingOk(Apply(db, s), s.t, k)
    {
      if !s.Begin? {
        assert TxOk(db, s.t) && PendingOk(db, s.t, k);
        match s {
          case Allocate(t, ok) => AllocateKept(db, t, ok, k);
          case Save(t, ok) => SaveKept(db, t, ok, k);
          case Notify(t, ok) => NotifyKept(db, t, ok, k);
        }
      }
    }
    assert !s.Begin? ==> TxOk(db, s.t);
  }

  /** Committing appends the transaction's versions to those of each counter it
      moved: its lock guarantees that nobody moved the counter meanwhile. */
  lemma CommittedCounterKept(db: Db, t: TxId, k: Key)
    requires Inv(db) && Enabled(db, Commit(t))
    ensures CounterOk(Apply(db, Commit(t)), k)
  {
    var tx := db.txs[t];
    assert CounterOk(db, k);
    assert TxOk(db, t) && PendingOk(db, t, k);
    VersionsAppend(db.rows, tx.rows, k);
    IncreasingAppend(Versions(db.rows, k), Versions(tx.rows, k), 0, Counter(db.counters, k), Seen(db, t, k));
  }

  lemma CommitKeepsOthers(db: Db, t: TxId, u: TxId)
    requires Inv(db) && Enabled(db, Commit(t))
    requires u != t && u in db.txs && db.txs[u].status == Active
    ensures TxOk(Apply(db, Commit(t)), u)
  {
    var after := Apply(db, Commit(t));
    assert TxOk(db, u);
    forall k
      ensures PendingOk(after, u, k)
    {
      assert PendingOk(db, u, k);
      // Only one of the two can have moved the counter.
      assert k in db.txs[t].counters ==> k in db.locks && db.locks[k] == t;
      assert k in db.txs[u].counters ==> k in db.locks && db.locks[k] == u;
    }
  }

  lemma LockTaken(db: Db, t: TxId)
    requires LocksOk(db) && Enabled(db, Allocate(t, true))
    ensures LocksOk(Apply(db, Allocate(t, true)))
  {
  }

  lemma LocksReleased(db: Db, s: Step)
    requires LocksOk(db) && Enabled(db, s) && (s.Commit? || s.Rollback?)
    ensures LocksOk(Apply(db, s))
  {
  }

  /** A change of one transaction that leaves its counters alone. */
  lemma LocksFrame(db: Db, t: TxId, tx: Tx)
    requires LocksOk(db)
    requires if t in db.txs then tx.status == db.txs[t].status && tx.counters == db.txs[t].counters
             else tx.counters == map[]
    ensures LocksOk(db.(txs := db.txs[t := tx]))
  {
  }

  lemma LocksUntouched(db: Db, s: Step)
    requires LocksOk(db) && Enabled(db, s)
    requires s.Begin? || s.Save? || s.Notify? || (s.Allocate? && !s.ok)
    ensures LocksOk(Apply(db, s))
  {
    LocksFrame(db, s.t, Apply(db, s).txs[s.t]);
  }

  lemma LocksKept(db: Db, s: Step)
    requires LocksOk(db) && Enabled(db, s)
    ensures LocksOk(Apply(db, s))
  {
    if s.Commit? || s.Rollback? {
      LocksReleased(db, s);
    } else if s.Allocate? && s.ok {
      LockTaken(db, s.t);
    } else {
      LocksUntouched(db, s);
    }
  }

  lemma InvStep(db: Db, s: Step)
    requires Inv(db) && Enabled(db, s)
    ensures Inv(Apply(db, s))
  {
    var after := Apply(db, s);
    LocksKept(db, s);
    forall k
      ensures CounterOk(after, k)
    {
      assert CounterOk(db, k);
      if s.Commit? { CommittedCounterKept(db, s.t, k); }
    }
    forall u | u in after.txs && after.txs[u].status == Active
      ensures TxOk(after, u)
    {
      if u == s.t {
        OwnStepKept(db, s);
      } else if s.Commit? {
        CommitKeepsOthers(db, s.t, u);
      } else {
        OthersKept(db, s, u);
      }
    }
    if s.Commit? { assert TxOk(db, s.t); }
  }

  lemma {:induction false} InvExec(db: Db, steps: seq<Step>)
    requires Inv(db) && Legal(db, steps)
    ensures Inv(Exec(db, steps))
    decreases |steps|
  {
    if steps != [] {
      InvStep(db, steps[0]);
      InvExec(Apply(db, steps[0]), steps[1..]);
    }
  }

  lemma StartInv(failClosed: bool)
    ensures Inv(Start(failClosed))
  {
  }

  // ---------------------------------------------------------------------
  // Versions: whole-run safety
  // ---------------------------------------------------------------------

  /** Fail closed or open, in every interleaving: the committed versions of an
      entity increase strictly up to its counter, so they are unique, and the
      counter has moved once for every committed row and every committed loss. */
  lemma VersionsIncrease(failClosed: bool, steps: seq<Step>, key: Key)
    requires Legal(Start(failClosed), steps)
    ensures var db := Exec(Start(failClosed), steps);
      && Increasing(Versions(db.rows, key))
      && Between(Versions(db.rows, key), 0, Counter(db.counters, key))
      && |Versions(db.rows, key)| + db.lost[key] == Counter(db.counters, key)
  {
    StartInv(failClosed);
    InvExec(Start(failClosed), steps);
    assert CounterOk(Exec(Start(failClosed), steps), key);
  }

  /** In every interleaving the committed rows of an entity are exactly versions
      1..n of its committed counter if and only if no allocated version was
      committed without its row. */
  lemma GaplessIffNothingLost(failClosed: bool, steps: seq<Step>, key: Key)
    requires Legal(Start(failClosed), steps)
    ensures var db := Exec(Start(failClosed), steps);
      Versions(db.rows, key) == Run(0, Counter(db.counters, key)) <==> key !in db.lost
  {
    VersionsIncrease(failClosed, steps, key);
    var db := Exec(Start(failClosed), steps);
    GaplessIff(Versions(db.rows, key), 0, Counter(db.counters, key));
  }

  /** Fail closed, that is always so. */
  lemma FailClosedIsGapless(steps: seq<Step>, key: Key)
    requires Legal(Start(true), steps)
    ensures var db := Exec(Start(true), steps);
      Versions(db.rows, key) == Run(0, Counter(db.counters, key))
  {
    StartInv(true);
    InvExec(Start(true), steps);
    FailClosedKept(Start(true), steps);
    GaplessIffNothingLost(true, steps, key);
  }

  /** No allocated version lost its row. */
  predicate NoSaveFails(steps: seq<Step>) {
    forall s | s in steps :: s.Save? ==> s.ok
  }

  lemma {:induction false} NoLossWithoutFailedSave(db: Db, steps: seq<Step>)
    requires Legal(db, steps) && NoSaveFails(steps)
    requires db.lost == multiset{} && forall t | t in db.txs :: db.txs[t].lost == multiset{}
    ensures var after := Exec(db, steps);
      after.lost == multiset{} && forall t | t in after.txs :: after.txs[t].lost == multiset{}
    decreases |steps|
  {
    if steps != [] {
      assert steps[0] in steps;
      assert db.lost + multiset{} == db.lost;
      NoLossWithoutFailedSave(Apply(db, steps[0]), steps[1..]);
    }
  }

  lemma {:induction false} FailClosedKept(db: Db, steps: seq<Step>)
    requires Legal(db, steps)
    ensures Exec(db, steps).failClosed == db.failClosed
    decreases |steps|
  {
    if steps != [] {
      FailClosedKept(Apply(db, steps[0]), steps[1..]);
    }
  }

  // ---------------------------------------------------------------------
  // Which errors stick
  // ---------------------------------------------------------------------

  /** A call of t's callbacks that fails: the store's, or a panicking OnAudit. */
  predicate IsFailure(s: Step, t: TxId) {
    s.t == t && match s
                case Allocate(_, ok) => !ok
                case Save(_, ok) => !ok
                case Notify(_, ok) => !ok
                case _ => false
  }

  function WasFailed(db: Db, t: TxId): bool {
    t in db.txs && db.txs[t].failed
  }

  lemma StepFailsIff(db: Db, s: Step, t: TxId)
    requires Enabled(db, s)
    ensures WasFailed(Apply(db, s), t) <==> WasFailed(db, t) || (db.failClosed && IsFailure(s, t))
  {
  }

  /** In every run: a statement carries an error exactly when it did before, or
      errors fail the statement and one of its calls failed. */
  lemma {:induction false} FailedIff(db: Db, steps: seq<Step>, t: TxId)
    requires Legal(db, steps)
    ensures WasFailed(Exec(db, steps), t) <==>
            WasFailed(db, t) || (db.failClosed && exists s :: s in steps && IsFailure(s, t))
    decreases |steps|
  {
    if steps != [] {
      StepFailsIff(db, steps[0], t);
      FailedIff(Apply(db, steps[0]), steps[1..], t);
      assert forall s :: s in steps <==> s == steps[0] || s in steps[1..];
    }
  }

  lemma {:induction false} CommittedDidNotFail(db: Db, steps: seq<Step>, t: TxId)
    requires Legal(db, steps)
    requires t in db.txs && db.txs[t].status == Committed ==> !db.txs[t].failed
    ensures var after := Exec(db, steps);
      t in after.txs && after.txs[t].status == Committed ==> !after.txs[t].failed
    decreases |steps|
  {
    if steps != [] {
      CommittedDidNotFail(Apply(db, steps[0]), steps[1..], t);
    }
  }

  /** Fail closed, a mutation commits only if none of its calls failed: neither an
      allocation nor a save nor the callback. */
  lemma CommittedMeansNoFailure(steps: seq<Step>, t: TxId)
    requires Legal(Start(true), steps)
    requires t in Exec(Start(true), steps).txs && Exec(Start(true), steps).txs[t].status == Committed
    ensures forall s | s in steps :: !IsFailure(s, t)
  {
    FailedIff(Start(true), steps, t);
    CommittedDidNotFail(Start(true), steps, t);
  }

  /** While `t` saves a version, nobody else has uncommitted rows of the entity. */
  lemma HoldsCounterAlone(db: Db, t: TxId, u: TxId, key: Key)
    requires Inv(db) && t != u && t in db.txs && u in db.txs
    requires db.txs[t].status == Active && db.txs[u].status == Active
    requires InFlight(db.txs[t], key) == 1
    ensures Versions(db.txs[u].rows, key) == []
  {
    assert TxOk(db, t) && PendingOk(db, t, key);
    assert db.locks[key] == t;
    assert key !in db.txs[u].counters;
    assert TxOk(db, u) && PendingOk(db, u, key);
  }

  lemma SavedVersionIsNew(db: Db, t: TxId)
    requires Inv(db) && t in db.txs && db.txs[t].status == Active
    requires db.txs[t].stage.Saving? && db.txs[t].next < |db.txs[t].work|
    ensures IsNew(db, t, db.txs[t].work[db.txs[t].next], db.txs[t].stage.version)
  {
    var key, version := db.txs[t].work[db.txs[t].next], db.txs[t].stage.version;
    assert TxOk(db, t) && PendingOk(db, t, key) && CounterOk(db, key);
    VersionsIn(db.rows, key, version);
    VersionsIn(db.txs[t].rows, key, version);
  }

  /** The unique index never stands in the way: a version about to be saved is in
      no committed row, and in no uncommitted row of any transaction. */
  lemma AllocatedVersionIsNew(failClosed: bool, steps: seq<Step>, t: TxId)
    requires Legal(Start(failClosed), steps)
    requires var db := Exec(Start(failClosed), steps);
      t in db.txs && db.txs[t].status == Active && db.txs[t].stage.Saving? && db.txs[t].next < |db.txs[t].work|
    ensures var db := Exec(Start(failClosed), steps);
      var key, version := db.txs[t].work[db.txs[t].next], db.txs[t].stage.version;
      && IsNew(db, t, key, version)
      && forall u | u in db.txs && db.txs[u].status == Active :: version !in Versions(db.txs[u].rows, key)
  {
    StartInv(failClosed);
    InvExec(Start(failClosed), steps);
    var db := Exec(Start(failClosed), steps);
    var key, version := db.txs[t].work[db.txs[t].next], db.txs[t].stage.version;
    SavedVersionIsNew(db, t);
    VersionsIn(db.txs[t].rows, key, version);
    forall u | u in db.txs && db.txs[u].status == Active
      ensures version !in Versions(db.txs[u].rows, key)
    {
      if u != t { HoldsCounterAlone(db, t, u, key); }
    }
  }

  lemma {:induction false} ExecAppend(db: Db, a: seq<Step>, b: seq<Step>)
    requires Legal(db, a) && Legal(Exec(db, a), b)
    ensures Legal(db, a + b) && Exec(db, a + b) == Exec(Exec(db, a), b)
    decreases |a|
  {
    if a == [] {
      assert a + b == b;
    } else {
      ExecAppend(Apply(db, a[0]), a[1..], b);
      assert (a + b)[0] == a[0] && (a + b)[1..] == a[1..] + b;
    }
  }

  lemma ExecThen(db: Db, steps: seq<Step>, s: Step)
    requires Legal(db, steps) && Enabled(Exec(db, steps), s)
    ensures Legal(db, steps + [s]) && Exec(db, steps + [s]) == Apply(Exec(db, steps), s)
  {
    var next := Exec(db, steps);
    assert [s][1..] == [];
    assert Legal(Apply(next, s), []) && Legal(next, [s]) && Exec(next, [s]) == Apply(next, s);
    ExecAppend(db, steps, [s]);
  }

  /** Fail open, a save that fails after its allocation leaves a gap behind. */
  lemma FailOpenLeavesGaps(key: Key) returns (steps: seq<Step>)
    ensures Legal(Start(false), steps)
    ensures var db := Exec(Start(false), steps);
      Counter(db.counters, key) == 1 && Versions(db.rows, key) == []
  {
    var s0 := Start(false);
    var s1 := Apply(s0, Begin(0, [key]));
    var s2 := Apply(s1, Allocate(0, true));
    var s3 := Apply(s2, Save(0, false));
    assert s3.txs[0].counters == map[key := 1] && s3.txs[0].rows == [];
    ExecThen(s0, [], Begin(0, [key]));
    steps := [Begin(0, [key])];
    ExecThen(s0, steps, Allocate(0, true));
    steps := steps + [Allocate(0, true)];
    ExecThen(s0, steps, Save(0, false));
    steps := steps + [Save(0, false)];
    ExecThen(s0, steps, Commit(0));
    steps := steps + [Commit(0)];
  }
}
