/** The plugin's callbacks as they run inside one statement's transaction. The
    state they change is the machine of SqlTransactions; every method says which
    of its steps it took. */
module GormPlugin {
  import opened Values
  import opened VersionKeys
  import opened SqlTransactions
  import opened GormChanges
  import opened SqlAtomicity

  /** One row of the statement; `id` is empty when it has no primary key. */
  datatype Element = Element(id: string, rec: Record)

  /** The outcomes of one element's calls to the store and the OnAudit callback. */
  datatype Outcome = Outcome(allocateFails: bool, saveFails: bool, callbackPanics: bool)

  const Smooth := Outcome(false, false, false)

  datatype Model = Model(typeName: string, fields: seq<FieldSpec>, mask: Value)

  function ChangesOfElement(m: Model, action: Single, e: Element): Changes {
    Entries(m.fields, SingleEntry(e.rec, action, OnlyMode(m.fields), m.mask))
  }

  /** A delete needs a primary key to be attributable; a create does not. */
  predicate IsAudited(m: Model, action: Single, e: Element) {
    (e.id != "" || action.SingleCreate?) && ChangesOfElement(m, action, e) != map[]
  }

  /** The entities the statement has to audit, in order. */
  function WorkOf(m: Model, action: Single, elements: seq<Element>): seq<Key> {
    if elements == [] then []
    else
      var last := elements[|elements| - 1];
      WorkOf(m, action, elements[..|elements| - 1]) +
      (if IsAudited(m, action, last) then [EntityKey(m.typeName, last.id)] else [])
  }

  lemma WorkOfOne(m: Model, action: Single, e: Element)
    ensures WorkOf(m, action, [e]) == if IsAudited(m, action, e) then [EntityKey(m.typeName, e.id)] else []
  {
    assert [e][..0] == [];
  }

  lemma {:induction false} WorkOfParts(m: Model, action: Single, a: seq<Element>, b: seq<Element>)
    ensures WorkOf(m, action, a + b) == WorkOf(m, action, a) + WorkOf(m, action, b)
  {
    if b == [] {
      assert a + b == a;
    } else {
      WorkOfParts(m, action, a, b[..|b| - 1]);
      assert (a + b)[..|a + b| - 1] == a + b[..|b| - 1];
    }
  }

  /** An element is audited exactly when some column is, and it can be named or is
      being created. */
  lemma IsAuditedIff(m: Model, action: Single, e: Element)
    ensures IsAudited(m, action, e) <==>
            (e.id != "" || action == SingleCreate) && exists f :: f in m.fields && Audited(f, OnlyMode(m.fields))
  {
    var entry := SingleEntry(e.rec, action, OnlyMode(m.fields), m.mask);
    EntriesAt(m.fields, entry);
    if f :| f in m.fields && Audited(f, OnlyMode(m.fields)) {
      assert entry(f).Some? && f.dbName in Entries(m.fields, entry);
    } else {
      assert Entries(m.fields, entry).Keys == {};
    }
  }

  /** A fully audited statement has a row for every element it had to audit. */
  lemma ElementHasRow(db: Db, t: TxId, m: Model, action: Single, elements: seq<Element>, i: nat)
    requires t in db.txs && db.txs[t].work == WorkOf(m, action, elements) && FullyAudited(db, t)
    requires i < |elements| && IsAudited(m, action, elements[i])
    ensures exists r :: r in db.rows && r.owner == t && r.key == EntityKey(m.typeName, elements[i].id)
  {
    var before, rest := elements[..i], elements[i + 1..];
    assert elements == before + ([elements[i]] + rest);
    WorkOfParts(m, action, before, [elements[i]] + rest);
    WorkOfParts(m, action, [elements[i]], rest);
    WorkOfOne(m, action, elements[i]);
    var j := |WorkOf(m, action, before)|;
    assert db.txs[t].work[j] == EntityKey(m.typeName, elements[i].id);
    assert HasRow(db, t, j);
    var r :| r in db.rows && RowFor(db.txs[t], t, r, j);
  }

  lemma {:induction false} WorkPrefix(m: Model, action: Single, elements: seq<Element>, i: nat)
    requires i <= |elements|
    ensures WorkOf(m, action, elements[..i]) <= WorkOf(m, action, elements)
    decreases |elements|
  {
    if i < |elements| {
      WorkPrefix(m, action, elements[..|elements| - 1], i);
      assert elements[..|elements| - 1][..i] == elements[..i];
    } else {
      assert elements[..i] == elements;
    }
  }

  /** The statement's mutation went through with every audit row, or not at all. */
  ghost predicate AllOrNothing(db: Db, t: TxId, ok: bool)
    requires t in db.txs
  {
    && AtomicInv(db)
    && (ok ==> FullyAudited(db, t))
    && (!ok ==> forall r | r in db.rows :: r.owner != t)
  }

  lemma RunIsAtomic(db: Db, steps: seq<Step>, t: TxId, ok: bool)
    requires AtomicInv(db) && db.failClosed && Legal(db, steps)
    requires t in Exec(db, steps).txs && Exec(db, steps).txs[t].status == (if ok then Committed else RolledBack)
    ensures AllOrNothing(Exec(db, steps), t, ok)
  {
    AtomicExec(db, steps);
    FailClosedKept(db, steps);
    AtomicMeaning(Exec(db, steps), t);
  }

  /** Steps the callbacks of `t` may take. */
  predicate IsAuditStep(s: Step, t: TxId) {
    s.t == t && (s.Allocate? || s.Save? || s.Notify?)
  }

  /** The entity whose version is allocated next. */
  function HeadOf(db: Db, t: TxId): Key
    requires t in db.txs && db.txs[t].next < |db.txs[t].work|
  {
    db.txs[t].work[db.txs[t].next]
  }

  /** What auditing one element leaves of the statement, done or not. */
  ghost predicate ElementDone(before: Db, after: Db, t: TxId) {
    && t in before.txs && t in after.txs
    && after.txs[t].status == Active && after.txs[t].stage == Allocating
    && after.txs[t].next == before.txs[t].next + 1 && after.txs[t].work == before.txs[t].work
    && (forall k | k in after.locks :: after.locks[k] == t || (k in before.locks && after.locks[k] == before.locks[k]))
  }

  /** The callbacks of `t` took the database from `a` to `b` by the steps of the
      trace, and `t` is between two elements. */
  ghost predicate Walked(a: Db, b: Db, t: TxId, trace: seq<Step>) {
    && Legal(a, trace) && Exec(a, trace) == b
    && (forall s | s in trace :: IsAuditStep(s, t))
    && t in a.txs && t in b.txs && b.txs[t].work == a.txs[t].work
    && b.txs[t].status == Active && b.txs[t].stage == Allocating
  }

  lemma WalkOn(a: Db, b: Db, c: Db, t: TxId, first: seq<Step>, second: seq<Step>)
    requires Walked(a, b, t, first) && Walked(b, c, t, second)
    ensures Walked(a, c, t, first + second)
  {
    ExecAppend(a, first, second);
  }

  /** Nothing failed so far, and `t` is the only holder of locks. */
  ghost predicate Quiet(a: Db, b: Db, t: TxId) {
    && t in a.txs && t in b.txs && NothingFailed(a, b, t)
    && Inv(b) && forall k | k in b.locks :: b.locks[k] == t
  }

  lemma QuietOn(a: Db, b: Db, c: Db, t: TxId, part: seq<Step>)
    requires Quiet(a, b, t) && Legal(b, part) && Exec(b, part) == c
    requires b == c || (ElementDone(b, c, t) && NothingFailed(b, c, t))
    ensures Quiet(a, c, t)
  {
    InvExec(b, part);
  }

  /** No audit error was attached and no version lost. */
  ghost predicate NothingFailed(before: Db, after: Db, t: TxId)
    requires t in before.txs && t in after.txs
  {
    after.txs[t].failed == before.txs[t].failed && after.txs[t].lost == before.txs[t].lost
  }

  /** What becomes of errors met on the way: fail closed they stick to the
      statement, and stay there; fail open they leave no mark on it. */
  ghost predicate ErrorsStick(before: Db, after: Db, t: TxId, errors: bool) {
    && t in before.txs && t in after.txs && after.failClosed == before.failClosed
    && (if before.failClosed then before.txs[t].failed || errors ==> after.txs[t].failed
        else after.txs[t].failed == before.txs[t].failed)
  }

  /** A call fails for an element that has to be audited. */
  ghost predicate MeetsErrors(m: Model, action: Single, elements: seq<Element>, outcomes: seq<Outcome>)
    requires |outcomes| == |elements|
  {
    exists i :: 0 <= i < |elements| && IsAudited(m, action, elements[i]) && outcomes[i] != Smooth
  }

  lemma MeetsErrorsNext(m: Model, action: Single, elements: seq<Element>, outcomes: seq<Outcome>, i: nat)
    requires |outcomes| == |elements| && i < |elements|
    ensures MeetsErrors(m, action, elements[..i + 1], outcomes[..i + 1]) <==>
            MeetsErrors(m, action, elements[..i], outcomes[..i]) ||
            (IsAudited(m, action, elements[i]) && outcomes[i] != Smooth)
  {
    var longer, longerOutcomes := elements[..i + 1], outcomes[..i + 1];
    assert longer[i] == elements[i] && longerOutcomes[i] == outcomes[i];
    assert forall j :: 0 <= j < i ==> longer[j] == elements[..i][j] && longerOutcomes[j] == outcomes[..i][j];
  }

  lemma SticksOn(a: Db, b: Db, c: Db, t: TxId, before: bool, here: bool)
    requires ErrorsStick(a, b, t, before) && ErrorsStick(b, c, t, here)
    ensures ErrorsStick(a, c, t, before || here)
  {
  }

  /** After an allocation the save cannot meet the unique index. */
  lemma HeadAllocated(a: Db, t: TxId)
    requires Enabled(a, Allocate(t, true))
    ensures var b := Apply(a, Allocate(t, true));
      && ErrorsStick(a, b, t, false) && NothingFailed(a, b, t) && Enabled(b, Save(t, false))
      && (Inv(a) ==> IsNew(b, t, HeadOf(b, t), b.txs[t].stage.version))
  {
    if Inv(a) {
      InvStep(a, Allocate(t, true));
      SavedVersionIsNew(Apply(a, Allocate(t, true)), t);
    }
  }

  lemma HeadPersisted(a: Db, b: Db, c: Db, t: TxId, saving: seq<Step>)
    requires Enabled(a, Allocate(t, true)) && b == Apply(a, Allocate(t, true))
    requires Legal(b, saving) && Exec(b, saving) == c && ElementDone(b, c, t)
    requires forall s | s in saving :: IsAuditStep(s, t)
    ensures Walked(a, c, t, [Allocate(t, true)] + saving) && ElementDone(a, c, t)
  {
    ExecThen(a, [], Allocate(t, true));
    ExecAppend(a, [Allocate(t, true)], saving);
  }

  class Session {
    var db: Db

    constructor (db: Db)
      ensures this.db == db
    {
      this.db := db;
    }

    /** Allocates in the statement's own transaction; a held lock that does not
        come free is an error like any other. */
    method NextVersion(t: TxId, fails: bool) returns (version: Option<nat>)
      requires Enabled(db, Allocate(t, false))
      modifies this
      ensures version.Some? <==> !fails && LockFree(old(db), t, HeadOf(old(db), t))
      ensures version.Some? ==> version.value == Seen(old(db), t, HeadOf(old(db), t)) + 1
      ensures db == Apply(old(db), Allocate(t, version.Some?))
    {
      var tx := db.txs[t];
      var key := tx.work[tx.next];
      if fails || (key in db.locks && db.locks[key] != t) {
        // The element is given up; fail closed, the error sticks to the statement.
        db := db.(txs := db.txs[t := tx.(next := tx.next + 1, failed := tx.failed || db.failClosed)]);
        return None;
      }
      var current := 0;
      if key in tx.counters {
        current := tx.counters[key];
      } else if key in db.counters {
        current := db.counters[key];
      }
      db := db.(locks := db.locks[key := t],
                txs := db.txs[t := tx.(counters := tx.counters[key := current + 1], stage := Saving(current + 1))]);
      return Some(current + 1);
    }

    method Persist(t: TxId, saveFails: bool, callbackPanics: bool) returns (ghost trace: seq<Step>)
      requires Enabled(db, Save(t, false))
      modifies this
      ensures Legal(old(db), trace) && Exec(old(db), trace) == db
      ensures trace == if saveFails || !IsNew(old(db), t, HeadOf(old(db), t), old(db.txs[t].stage.version))
                       then [Save(t, false)] else [Save(t, true), Notify(t, !callbackPanics)]
      ensures ElementDone(old(db), db, t)
      ensures |trace| == 2 && !callbackPanics ==> NothingFailed(old(db), db, t)
      ensures ErrorsStick(old(db), db, t, saveFails || callbackPanics || |trace| == 1)
    {
      var tx := db.txs[t];
      var key := tx.work[tx.next];
      if saveFails || !IsNew(db, t, key, tx.stage.version) {
        ExecThen(db, [], Save(t, false));
        db := db.(txs := db.txs[t := tx.(lost := tx.lost + multiset{key}, next := tx.next + 1, stage := Allocating,
                                         failed := tx.failed || db.failClosed)]);
        return [Save(t, false)];
      }
      trace := [Save(t, true)];
      ExecThen(db, [], Save(t, true));
      ghost var before := db;
      tx := tx.(rows := tx.rows + [Row(key, tx.stage.version, t, tx.next)], stage := Notifying);
      db := db.(txs := db.txs[t := tx]);
      ExecThen(before, trace, Notify(t, !callbackPanics));
      trace := trace + [Notify(t, !callbackPanics)];
      db := db.(txs := db.txs[t := tx.(next := tx.next + 1, stage := Allocating,
                                       failed := tx.failed || (db.failClosed && callbackPanics))]);
    }

    /** Allocation and persistence for the entity at the head of the work. */
    method AuditHead(t: TxId, o: Outcome) returns (ghost trace: seq<Step>)
      requires Enabled(db, Allocate(t, false))
      modifies this
      ensures Walked(old(db), db, t, trace) && ElementDone(old(db), db, t)
      ensures o == Smooth && Inv(old(db)) && LockFree(old(db), t, HeadOf(old(db), t)) ==> NothingFailed(old(db), db, t)
      ensures ErrorsStick(old(db), db, t, o != Smooth)
    {
      ghost var start := db;
      var version := NextVersion(t, o.allocateFails);
      ExecThen(start, [], Allocate(t, version.Some?));
      trace := [Allocate(t, version.Some?)];
      if version.None? { return; }
      ghost var between := db;
      HeadAllocated(start, t);
      ghost var saving := Persist(t, o.saveFails, o.callbackPanics);
      HeadPersisted(start, between, db, t, saving);
      SticksOn(start, between, db, t, false, o.saveFails || o.callbackPanics || |saving| == 1);
      trace := trace + saving;
    }

    /** One element of a create or delete: skipped, or audited. */
    method AuditSingle(m: Model, action: Single, e: Element, t: TxId, o: Outcome) returns (ghost trace: seq<Step>)
      requires t in db.txs && db.txs[t].status == Active && db.txs[t].stage == Allocating
      requires IsAudited(m, action, e) ==> db.txs[t].next < |db.txs[t].work|
      modifies this
      ensures Walked(old(db), db, t, trace)
      ensures if IsAudited(m, action, e) then ElementDone(old(db), db, t) else db == old(db)
      ensures IsAudited(m, action, e) && o == Smooth && Inv(old(db)) && LockFree(old(db), t, HeadOf(old(db), t)) ==>
        NothingFailed(old(db), db, t)
      ensures ErrorsStick(old(db), db, t, IsAudited(m, action, e) && o != Smooth)
    {
      if e.id == "" && action != SingleCreate { return []; }
      var changes := SingleChanges(m.fields, e.rec, action, m.mask);
      if changes == map[] { return []; }
      trace := AuditHead(t, o);
    }

    /** The callback after a create or delete, over every element of the statement.
        A failing element does not stop the loop. */
    method Audit(m: Model, action: Single, elements: seq<Element>, t: TxId, outcomes: seq<Outcome>)
      returns (ghost trace: seq<Step>)
      requires |outcomes| == |elements|
      requires t in db.txs && db.txs[t].status == Active && db.txs[t].stage == Allocating && db.txs[t].next == 0
      requires db.txs[t].work == WorkOf(m, action, elements)
      modifies this
      ensures Walked(old(db), db, t, trace) && db.txs[t].next == |db.txs[t].work|
      ensures Inv(old(db)) && (forall o | o in outcomes :: o == Smooth) && old(db).locks == map[] ==>
        NothingFailed(old(db), db, t)
      ensures ErrorsStick(old(db), db, t, MeetsErrors(m, action, elements, outcomes))
    {
      trace := [];
      ghost var start := db;
      ghost var quiet := Inv(db) && (forall o | o in outcomes :: o == Smooth) && db.locks == map[];
      assert elements[..0] == [];
      for i := 0 to |elements|
        invariant Walked(start, db, t, trace)
        invariant db.txs[t].next == |WorkOf(m, action, elements[..i])|
        invariant quiet ==> Quiet(start, db, t)
        invariant ErrorsStick(start, db, t, MeetsErrors(m, action, elements[..i], outcomes[..i]))
      {
        ghost var before := db;
        WorkPrefix(m, action, elements, i + 1);
        assert elements[..i + 1][..i] == elements[..i];
        assert outcomes[i] in outcomes;
        ghost var part := AuditSingle(m, action, elements[i], t, outcomes[i]);
        WalkOn(start, before, db, t, trace, part);
        MeetsErrorsNext(m, action, elements, outcomes, i);
        SticksOn(start, before, db, t, MeetsErrors(m, action, elements[..i], outcomes[..i]),
                 IsAudited(m, action, elements[i]) && outcomes[i] != Smooth);
        trace := trace + part;
        if quiet { QuietOn(start, before, db, t, part); }
      }
      assert elements[..|elements|] == elements && outcomes[..|outcomes|] == outcomes;
    }

    /** The mutation itself fails: no callback audits it, and GORM rolls back. */
    method FailedMutation(t: TxId) returns (ghost trace: seq<Step>)
      requires t !in db.txs
      modifies this
      ensures Legal(old(db), trace) && Exec(old(db), trace) == db
      ensures forall s | s in trace :: s.t == t
      ensures t in db.txs && db.txs[t].status == RolledBack && db.txs[t].work == []
      ensures AtomicInv(old(db)) && old(db).failClosed ==> AllOrNothing(db, t, false)
    {
      ghost var start := db;
      ghost var step := Open(t, []);
      trace := [step];
      ExecThen(start, trace, Rollback(t));
      trace := trace + [Rollback(t)];
      db := db.(locks := Unlocked(db, t), txs := db.txs[t := db.txs[t].(status := RolledBack)]);
      if AtomicInv(start) && start.failClosed { RunIsAtomic(start, trace, t, false); }
    }

    /** A create or delete in GORM's default transaction. */
    method RunStatement(m: Model, action: Single, elements: seq<Element>, t: TxId, outcomes: seq<Outcome>,
                        skipped: bool, mutationFails: bool, rowsAffected: nat)
      returns (ok: bool, ghost trace: seq<Step>)
      requires |outcomes| == |elements| && t !in db.txs
      modifies this
      ensures Legal(old(db), trace) && Exec(old(db), trace) == db
      ensures forall s | s in trace :: s.t == t
      ensures t in db.txs && db.txs[t].status == (if ok then Committed else RolledBack)
      ensures db.txs[t].work == if mutationFails || skipped || rowsAffected == 0 then [] else WorkOf(m, action, elements)
      ensures AtomicInv(old(db)) && old(db).failClosed ==> AllOrNothing(db, t, ok)
      ensures mutationFails ==> !ok
      ensures old(db).failClosed && !skipped && rowsAffected > 0 && MeetsErrors(m, action, elements, outcomes) ==> !ok
      ensures !old(db).failClosed ==> ok == !mutationFails
      ensures Inv(old(db)) && (forall o | o in outcomes :: o == Smooth) && old(db).locks == map[] && !mutationFails ==> ok
    {
      if mutationFails {
        trace := FailedMutation(t);
        return false, trace;
      }
      var audited := if skipped || rowsAffected == 0 then [] else elements;
      assert forall o :: o in outcomes[..|audited|] ==> o in outcomes;
      ok, trace := RunElements(m, action, audited, t, outcomes[..|audited|]);
    }

    method RunElements(m: Model, action: Single, elements: seq<Element>, t: TxId, outcomes: seq<Outcome>)
      returns (ok: bool, ghost trace: seq<Step>)
      requires |outcomes| == |elements| && t !in db.txs
      modifies this
      ensures Legal(old(db), trace) && Exec(old(db), trace) == db
      ensures forall s | s in trace :: s.t == t
      ensures t in db.txs && db.txs[t].status == (if ok then Committed else RolledBack)
      ensures db.txs[t].work == WorkOf(m, action, elements)
      ensures AtomicInv(old(db)) && old(db).failClosed ==> AllOrNothing(db, t, ok)
      ensures old(db).failClosed && MeetsErrors(m, action, elements, outcomes) ==> !ok
      ensures !old(db).failClosed ==> ok
      ensures Inv(old(db)) && (forall o | o in outcomes :: o == Smooth) && old(db).locks == map[] ==> ok
    {
      ghost var start := db;
      ghost var step := Open(t, WorkOf(m, action, elements));
      trace := [step];
      ghost var audit := Audit(m, action, elements, t, outcomes);
      ExecAppend(start, trace, audit);
      trace := trace + audit;
      ok, step := Close(t);
      ExecThen(start, trace, step);
      trace := trace + [step];
      if AtomicInv(start) && start.failClosed { RunIsAtomic(start, trace, t, ok); }
    }

    /** The mutation has happened; its transaction is open. */
    method Open(t: TxId, work: seq<Key>) returns (ghost step: Step)
      requires t !in db.txs
      modifies this
      ensures step == Begin(t, work) && Legal(old(db), [step]) && Exec(old(db), [step]) == db
      ensures db.failClosed == old(db).failClosed
      ensures db.locks == old(db).locks && t in db.txs && db.txs[t] == Tx(work, 0, Allocating, map[], [], multiset{}, false, Active)
      ensures Inv(old(db)) ==> Inv(db)
    {
      step := Begin(t, work);
      ExecThen(db, [], step);
      if Inv(db) { InvStep(db, step); }
      db := db.(txs := db.txs[t := Tx(work, 0, Allocating, map[], [], multiset{}, false, Active)]);
    }

    /** GORM commits unless an error is attached to the statement. */
    method Close(t: TxId) returns (ok: bool, ghost step: Step)
      requires t in db.txs && db.txs[t].status == Active && db.txs[t].stage == Allocating
      requires db.txs[t].next == |db.txs[t].work|
      modifies this
      ensures ok == !old(db).txs[t].failed
      ensures step == (if ok then Commit(t) else Rollback(t))
      ensures Enabled(old(db), step) && db == Apply(old(db), step)
    {
      var tx := db.txs[t];
      ok := !tx.failed;
      step := if ok then Commit(t) else Rollback(t);
      if ok {
        db := db.(counters := db.counters + tx.counters, rows := db.rows + tx.rows, lost := db.lost + tx.lost,
                  locks := Unlocked(db, t), txs := db.txs[t := tx.(status := Committed)]);
      } else {
        db := db.(locks := Unlocked(db, t), txs := db.txs[t := tx.(status := RolledBack)]);
      }
    }

    /** Before an update: the primary key guard, then the snapshot of the row
        (`current`, None when it cannot be read). */
    method BeforeUpdate(pk: string, current: Option<Record>, skipped: bool, allowBulk: bool)
      returns (snapshot: Option<Record>, refused: bool)
      ensures skipped ==> snapshot == None && !refused
      ensures !skipped && pk == "" ==> snapshot == None && refused == !allowBulk
      ensures !skipped && pk != "" ==> snapshot == current && refused == (current.None? && db.failClosed)
    {
      snapshot, refused := None, false;
      if skipped { return; }
      if pk == "" {
        refused := !allowBulk;
        return;
      }
      if current.None? {
        refused := db.failClosed;
        return;
      }
      snapshot := current;
    }

    /** Save and Updates(struct) in GORM's default transaction. An update that goes
        through records the columns that differ from the row as far as it could be
        read; fail closed and without the bulk opt-out, it was read. A Save of an
        unread row, where GORM reports nothing, commits unaudited. */
    method RunUpdate(m: Model, pk: string, current: Option<Record>, dest: Record, reported: set<string>, t: TxId,
                     o: Outcome, skipped: bool, allowBulk: bool, mutationFails: bool, rowsAffected: nat)
      returns (ok: bool, recorded: Changes, ghost trace: seq<Step>)
      requires t !in db.txs
      modifies this
      ensures Legal(old(db), trace) && Exec(old(db), trace) == db
      ensures forall s | s in trace :: s.t == t
      ensures ok ==> t in db.txs && db.txs[t].status == Committed
      ensures !ok ==> t !in db.txs || db.txs[t].status == RolledBack
      ensures ok ==> db.txs[t].work == if recorded == map[] then [] else [EntityKey(m.typeName, pk)]
      ensures ok && AtomicInv(old(db)) && old(db).failClosed ==> AllOrNothing(db, t, true)
      ensures !ok && AtomicInv(old(db)) && old(db).failClosed ==> forall r | r in db.rows :: r.owner != t
      ensures ok && old(db).failClosed && !allowBulk && !skipped ==> pk != "" && current.Some?
      ensures ok ==>
        if skipped || rowsAffected == 0 || pk == "" then recorded == map[]
        else recorded == Entries(m.fields, ColumnEntry(current, dest, reported, OnlyMode(m.fields), m.mask))
      ensures ok && current.None? && (forall f | f in m.fields && Audited(f, OnlyMode(m.fields)) :: f.name !in reported) ==>
        recorded == map[] && db.txs[t].work == []
      ensures mutationFails ==> !ok
      ensures old(db).failClosed && recorded != map[] && o != Smooth ==> !ok
      ensures !old(db).failClosed ==> (ok <==> !mutationFails && (skipped || pk != "" || allowBulk))
      ensures Inv(old(db)) && o == Smooth && old(db).locks == map[] && !mutationFails ==>
        (ok <==> skipped || (if pk == "" then allowBulk else current.Some? || !old(db).failClosed))
    {
      recorded := map[];
      var snapshot, refused := BeforeUpdate(pk, current, skipped, allowBulk);
      if refused { return false, recorded, []; }
      if mutationFails {
        trace := FailedMutation(t);
        return false, recorded, trace;
      }
      if !skipped && rowsAffected > 0 && pk != "" {
        UnreadUpdateRecordsNothingIff(m.fields, dest, reported, OnlyMode(m.fields), m.mask);
        recorded := ChangedColumns(m.fields, snapshot, dest, reported, m.mask);
      }
      var work := if recorded == map[] then [] else [EntityKey(m.typeName, pk)];
      ok, trace := RunOne(t, work, o);
    }

    /** Updates(map) in GORM's default transaction, under the same guard. */
    method RunMapUpdate(m: Model, pk: string, current: Option<Record>, dest: Record, t: TxId,
                        o: Outcome, skipped: bool, allowBulk: bool, mutationFails: bool, rowsAffected: nat)
      returns (ok: bool, recorded: Changes, ghost trace: seq<Step>)
      requires t !in db.txs
      modifies this
      ensures Legal(old(db), trace) && Exec(old(db), trace) == db
      ensures forall s | s in trace :: s.t == t
      ensures ok ==> t in db.txs && db.txs[t].status == Committed
      ensures !ok ==> t !in db.txs || db.txs[t].status == RolledBack
      ensures ok ==> db.txs[t].work == if recorded == map[] then [] else [EntityKey(m.typeName, pk)]
      ensures ok && AtomicInv(old(db)) && old(db).failClosed ==> AllOrNothing(db, t, true)
      ensures !ok && AtomicInv(old(db)) && old(db).failClosed ==> forall r | r in db.rows :: r.owner != t
      ensures ok && old(db).failClosed && !allowBulk && !skipped ==> pk != "" && current.Some?
      ensures ok ==>
        if skipped || rowsAffected == 0 || pk == "" then recorded == map[]
        else MapRecorded(m.fields, current, dest, m.mask, recorded)
      ensures mutationFails ==> !ok
      ensures old(db).failClosed && recorded != map[] && o != Smooth ==> !ok
      ensures !old(db).failClosed ==> (ok <==> !mutationFails && (skipped || pk != "" || allowBulk))
      ensures Inv(old(db)) && o == Smooth && old(db).locks == map[] && !mutationFails ==>
        (ok <==> skipped || (if pk == "" then allowBulk else current.Some? || !old(db).failClosed))
    {
      recorded := map[];
      var snapshot, refused := BeforeUpdate(pk, current, skipped, allowBulk);
      if refused { return false, recorded, []; }
      if mutationFails {
        trace := FailedMutation(t);
        return false, recorded, trace;
      }
      if !skipped && rowsAffected > 0 && pk != "" {
        recorded := ChangesFromMap(m.fields, snapshot, dest, m.mask);
      }
      var work := if recorded == map[] then [] else [EntityKey(m.typeName, pk)];
      ok, trace := RunOne(t, work, o);
    }

    /** Before a delete: the primary key guard. `modelPk` is None when the model is
        not a single struct. */
    method BeforeDelete(modelPk: Option<string>, skipped: bool, allowBulk: bool) returns (refused: bool)
      ensures refused <==> modelPk == Some("") && !skipped && !allowBulk
    {
      if skipped || allowBulk { return false; }
      refused := modelPk.Some? && modelPk.value == "";
    }

    /** A delete with its guard. Without the bulk opt-out, deleting one row goes
        through only if the row can be named, and then audits it whenever any of
        its columns is. */
    method RunDelete(m: Model, modelPk: Option<string>, elements: seq<Element>, t: TxId, outcomes: seq<Outcome>,
                     skipped: bool, allowBulk: bool, mutationFails: bool, rowsAffected: nat)
      returns (ok: bool, ghost trace: seq<Step>)
      requires |outcomes| == |elements| && t !in db.txs
      modifies this
      ensures Legal(old(db), trace) && Exec(old(db), trace) == db
      ensures forall s | s in trace :: s.t == t
      ensures ok ==> t in db.txs && db.txs[t].status == Committed
      ensures !ok ==> t !in db.txs || db.txs[t].status == RolledBack
      ensures ok && AtomicInv(old(db)) && old(db).failClosed ==> AllOrNothing(db, t, true)
      ensures !ok && AtomicInv(old(db)) && old(db).failClosed ==> forall r | r in db.rows :: r.owner != t
      ensures ok && !allowBulk && !skipped && rowsAffected > 0 && |elements| == 1 && modelPk == Some(elements[0].id) ==>
        && modelPk.value != ""
        && db.txs[t].work == if ChangesOfElement(m, SingleDelete, elements[0]) == map[] then []
                             else [EntityKey(m.typeName, modelPk.value)]
      ensures old(db).failClosed && !skipped && rowsAffected > 0 && MeetsErrors(m, SingleDelete, elements, outcomes) ==> !ok
      ensures !old(db).failClosed || (Inv(old(db)) && (forall o | o in outcomes :: o == Smooth) && old(db).locks == map[]) ==>
        (ok <==> !mutationFails && !(modelPk == Some("") && !skipped && !allowBulk))
    {
      var refused := BeforeDelete(modelPk, skipped, allowBulk);
      if refused { return false, []; }
      ok, trace := RunStatement(m, SingleDelete, elements, t, outcomes, skipped, mutationFails, rowsAffected);
      if |elements| == 1 { WorkOfOne(m, SingleDelete, elements[0]); assert elements == [elements[0]]; }
    }

    /** A transaction that audits at most one entity. */
    method RunOne(t: TxId, work: seq<Key>, o: Outcome) returns (ok: bool, ghost trace: seq<Step>)
      requires t !in db.txs && |work| <= 1
      modifies this
      ensures Legal(old(db), trace) && Exec(old(db), trace) == db
      ensures forall s | s in trace :: s.t == t
      ensures t in db.txs && db.txs[t].work == work && db.txs[t].status == (if ok then Committed else RolledBack)
      ensures AtomicInv(old(db)) && old(db).failClosed ==> AllOrNothing(db, t, ok)
      ensures old(db).failClosed && work != [] && o != Smooth ==> !ok
      ensures !old(db).failClosed ==> ok
      ensures Inv(old(db)) && o == Smooth && old(db).locks == map[] ==> ok
    {
      ghost var start := db;
      ghost var step := Open(t, work);
      trace := [step];
      if work != [] {
        ghost var audit := AuditHead(t, o);
        ExecAppend(start, trace, audit);
        trace := trace + audit;
      }
      ok, step := Close(t);
      ExecThen(start, trace, step);
      trace := trace + [step];
      if AtomicInv(start) && start.failClosed { RunIsAtomic(start, trace, t, ok); }
    }
  }
}
