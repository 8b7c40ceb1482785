/** All or nothing: a business mutation and its audit rows commit together. */
module SqlAtomicity {
  import opened VersionKeys
  import opened VersionSequences
  import opened SqlTransactions

  /** The row saved for element i of the statement. */
  predicate RowFor(tx: Tx, t: TxId, r: Row, i: nat) {
    i < |tx.work| && r.key == tx.work[i] && r.owner == t && r.slot == i
  }

  /** How many elements are done, counting one that only awaits its callback. */
  function Saved(tx: Tx): nat {
    tx.next + if tx.stage == Notifying then 1 else 0
  }

  ghost predicate SlotsOk(db: Db, t: TxId)
    requires t in db.txs
  {
    var tx := db.txs[t];
    && tx.next <= |tx.work| && (tx.stage != Allocating ==> tx.next < |tx.work|)
    && (forall r | r in tx.rows :: RowFor(tx, t, r, r.slot) && r.slot < Saved(tx))
    && (db.failClosed && !tx.failed ==>
          |tx.rows| == Saved(tx) && forall i :: 0 <= i < |tx.rows| ==> RowFor(tx, t, tx.rows[i], i))
    && (tx.status == Committed ==>
          tx.stage == Allocating && tx.next == |tx.work| && !tx.failed && forall r | r in tx.rows :: r in db.rows)
  }

  ghost predicate OwnersOk(db: Db) {
    forall r | r in db.rows ::
      r.owner in db.txs && db.txs[r.owner].status == Committed && r in db.txs[r.owner].rows
  }

  ghost predicate AtomicInv(db: Db) {
    (forall t | t in db.txs :: SlotsOk(db, t)) && OwnersOk(db)
  }

  lemma OtherSlots(db: Db, s: Step, t: TxId)
    requires Enabled(db, s) && t in db.txs && t != s.t && SlotsOk(db, t)
    ensures t in Apply(db, s).txs && SlotsOk(Apply(db, s), t)
  {
    assert Apply(db, s).txs[t] == db.txs[t];
    assert forall r :: r in db.rows ==> r in Apply(db, s).rows;
  }

  lemma SaveSlots(db: Db, t: TxId, ok: bool)
    requires Enabled(db, Save(t, ok)) && SlotsOk(db, t)
    ensures SlotsOk(Apply(db, Save(t, ok)), t)
  {
  }

  lemma CallSlots(db: Db, s: Step)
    requires Enabled(db, s) && (s.Allocate? || s.Notify?) && SlotsOk(db, s.t)
    ensures SlotsOk(Apply(db, s), s.t)
  {
  }

  lemma EndSlots(db: Db, s: Step)
    requires Enabled(db, s) && (s.Begin? || s.Commit? || s.Rollback?) && (s.t in db.txs ==> SlotsOk(db, s.t))
    ensures SlotsOk(Apply(db, s), s.t)
  {
  }

  lemma OwnSlots(db: Db, s: Step)
    requires Enabled(db, s) && (s.t in db.txs ==> SlotsOk(db, s.t))
    ensures SlotsOk(Apply(db, s), s.t)
  {
    match s {
      case Save(t, ok) => SaveSlots(db, t, ok);
      case Allocate(_, _) => CallSlots(db, s);
      case Notify(_, _) => CallSlots(db, s);
      case _ => EndSlots(db, s);
    }
  }

  lemma OwnersStep(db: Db, s: Step)
    requires AtomicInv(db) && Enabled(db, s)
    ensures OwnersOk(Apply(db, s))
  {
    assert !s.Begin? ==> SlotsOk(db, s.t);
    forall r | r in Apply(db, s).rows
      ensures r.owner in Apply(db, s).txs && Apply(db, s).txs[r.owner].status == Committed
      ensures r in Apply(db, s).txs[r.owner].rows
    {
      if r in db.rows {
        assert r.owner in db.txs && db.txs[r.owner].status == Committed;
      }
    }
  }

  lemma AtomicStep(db: Db, s: Step)
    requires AtomicInv(db) && Enabled(db, s)
    ensures AtomicInv(Apply(db, s))
  {
    OwnersStep(db, s);
    forall t | t in Apply(db, s).txs
      ensures SlotsOk(Apply(db, s), t)
    {
      if t == s.t {
        OwnSlots(db, s);
      } else {
        OtherSlots(db, s, t);
      }
    }
  }

  lemma {:induction false} AtomicExec(db: Db, steps: seq<Step>)
    requires AtomicInv(db) && Legal(db, steps)
    ensures AtomicInv(Exec(db, steps))
    decreases |steps|
  {
    if steps != [] {
      AtomicStep(db, steps[0]);
      AtomicExec(Apply(db, steps[0]), steps[1..]);
    }
  }

  ghost predicate HasRow(db: Db, t: TxId, i: nat)
    requires t in db.txs
  {
    exists r :: r in db.rows && RowFor(db.txs[t], t, r, i)
  }

  /** Every element of the statement has its committed row. */
  ghost predicate FullyAudited(db: Db, t: TxId)
    requires t in db.txs
  {
    forall i: nat | i < |db.txs[t].work| :: HasRow(db, t, i)
  }

  /** What the invariant says of one fail-closed transaction. */
  lemma AtomicMeaning(db: Db, t: TxId)
    requires AtomicInv(db) && db.failClosed && t in db.txs
    ensures db.txs[t].status == Committed ==> FullyAudited(db, t)
    ensures db.txs[t].status != Committed ==> forall r | r in db.rows :: r.owner != t
  {
    var tx := db.txs[t];
    assert SlotsOk(db, t);
    if tx.status == Committed {
      forall i: nat | i < |tx.work|
        ensures HasRow(db, t, i)
      {
        assert tx.rows[i] in tx.rows && RowFor(tx, t, tx.rows[i], i);
      }
    }
  }

  /** Fail closed, in every interleaving and with faults anywhere: a mutation
      that recorded a change is committed if and only if every one of its audit
      rows is, and otherwise not a single row of it is. */
  lemma CommittedIffAudited(steps: seq<Step>, t: TxId)
    requires Legal(Start(true), steps) && t in Exec(Start(true), steps).txs
    ensures var db := Exec(Start(true), steps);
      && (db.txs[t].status == Committed ==> FullyAudited(db, t))
      && (db.txs[t].status != Committed ==> forall r | r in db.rows :: r.owner != t)
      && (db.txs[t].work != [] ==> (db.txs[t].status == Committed <==> FullyAudited(db, t)))
  {
    AtomicExec(Start(true), steps);
    FailClosedKept(Start(true), steps);
    var db := Exec(Start(true), steps);
    AtomicMeaning(db, t);
    assert db.txs[t].status != Committed && db.txs[t].work != [] ==> !HasRow(db, t, 0);
  }

  /** In either mode rows of uncommitted mutations never appear. */
  lemma RowsOnlyOfCommitted(failClosed: bool, steps: seq<Step>, r: Row)
    requires Legal(Start(failClosed), steps) && r in Exec(Start(failClosed), steps).rows
    ensures var db := Exec(Start(failClosed), steps);
      && r.owner in db.txs && db.txs[r.owner].status == Committed
      && RowFor(db.txs[r.owner], r.owner, r, r.slot)
  {
    AtomicExec(Start(failClosed), steps);
    assert SlotsOk(Exec(Start(failClosed), steps), r.owner);
  }

  // ---------------------------------------------------------------------
  // Which committed mutations miss rows
  // ---------------------------------------------------------------------

  /** The step gives up an element of `t`. */
  predicate GivesUpElement(s: Step, t: TxId) {
    s.t == t && ((s.Allocate? && !s.ok) || (s.Save? && !s.ok))
  }

  predicate NothingGivenUp(steps: seq<Step>, t: TxId) {
    forall s | s in steps :: !GivesUpElement(s, t)
  }

  ghost predicate SlotsFilled(db: Db, t: TxId) {
    t in db.txs ==>
      && |db.txs[t].rows| == Saved(db.txs[t])
      && forall i :: 0 <= i < |db.txs[t].rows| ==> RowFor(db.txs[t], t, db.txs[t].rows[i], i)
  }

  /** Element j is behind `t` and has no row. */
  ghost predicate SlotMissed(db: Db, t: TxId, j: nat) {
    t in db.txs && j < db.txs[t].next && j < |db.txs[t].work| && forall r | r in db.txs[t].rows :: r.slot != j
  }

  lemma {:induction false} FilledSlots(db: Db, steps: seq<Step>, t: TxId)
    requires Legal(db, steps) && SlotsFilled(db, t) && NothingGivenUp(steps, t)
    ensures SlotsFilled(Exec(db, steps), t)
    decreases |steps|
  {
    if steps != [] {
      assert steps[0] in steps;
      FilledStep(db, steps[0], t);
      FilledSlots(Apply(db, steps[0]), steps[1..], t);
    }
  }

  lemma FilledStep(db: Db, s: Step, t: TxId)
    requires Enabled(db, s) && SlotsFilled(db, t) && !GivesUpElement(s, t)
    ensures SlotsFilled(Apply(db, s), t)
  {
  }

  lemma MissedStep(db: Db, s: Step, t: TxId, j: nat)
    requires Enabled(db, s) && SlotMissed(db, t, j)
    ensures SlotMissed(Apply(db, s), t, j)
  {
  }

  lemma {:induction false} MissedStaysMissed(db: Db, steps: seq<Step>, t: TxId, j: nat)
    requires Legal(db, steps) && SlotMissed(db, t, j)
    ensures SlotMissed(Exec(db, steps), t, j)
    decreases |steps|
  {
    if steps != [] {
      MissedStep(db, steps[0], t, j);
      MissedStaysMissed(Apply(db, steps[0]), steps[1..], t, j);
    }
  }

  lemma {:induction false} GivenUpIsMissed(db: Db, steps: seq<Step>, t: TxId) returns (j: nat)
    requires AtomicInv(db) && Legal(db, steps) && !NothingGivenUp(steps, t)
    ensures SlotMissed(Exec(db, steps), t, j)
    decreases |steps|
  {
    var next := Apply(db, steps[0]);
    if GivesUpElement(steps[0], t) {
      j := db.txs[t].next;
      assert SlotsOk(db, t);
      MissedStaysMissed(next, steps[1..], t, j);
    } else {
      AtomicStep(db, steps[0]);
      assert forall s :: s in steps <==> s == steps[0] || s in steps[1..];
      j := GivenUpIsMissed(next, steps[1..], t);
    }
  }

  /** In either mode, in every interleaving: a committed mutation has all its audit
      rows if and only if none of its allocations and saves failed. */
  lemma CommittedFullyIff(failClosed: bool, steps: seq<Step>, t: TxId)
    requires Legal(Start(failClosed), steps) && t in Exec(Start(failClosed), steps).txs
    requires Exec(Start(failClosed), steps).txs[t].status == Committed
    ensures FullyAudited(Exec(Start(failClosed), steps), t) <==> NothingGivenUp(steps, t)
  {
    var db := Exec(Start(failClosed), steps);
    AtomicExec(Start(failClosed), steps);
    assert SlotsOk(db, t);
    if NothingGivenUp(steps, t) {
      FilledSlots(Start(failClosed), steps, t);
      forall i: nat | i < |db.txs[t].work|
        ensures HasRow(db, t, i)
      {
        assert db.txs[t].rows[i] in db.txs[t].rows && RowFor(db.txs[t], t, db.txs[t].rows[i], i);
      }
    } else {
      var j := GivenUpIsMissed(Start(failClosed), steps, t);
      assert !HasRow(db, t, j);
    }
  }

  /** Once an audit error is attached to a fail-closed statement, whatever its
      remaining elements do, it can never commit. */
  lemma {:induction false} FailedNeverCommits(db: Db, steps: seq<Step>, t: TxId)
    requires Legal(db, steps) && t in db.txs
    requires db.txs[t].failed && db.txs[t].status != Committed
    ensures t in Exec(db, steps).txs && Exec(db, steps).txs[t].status != Committed
    decreases |steps|
  {
    if steps != [] {
      FailedNeverCommits(Apply(db, steps[0]), steps[1..], t);
    }
  }
}
