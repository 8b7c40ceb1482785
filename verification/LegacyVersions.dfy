/** The root plugin's scheme, MAX(version) + 1, against the counters that
    replaced it. */
module LegacyVersions {
  import opened VersionKeys
  import opened VersionSequences
  import opened SqlTransactions

  function MaxVersion(versions: seq<nat>): nat {
    if versions == [] then 0
    else
      var rest, last := MaxVersion(versions[..|versions| - 1]), versions[|versions| - 1];
      if last > rest then last else rest
  }

  /** COALESCE(MAX(version), 0) + 1 over the rows of one entity. */
  function NextByMax(rows: seq<Row>, key: Key): nat {
    MaxVersion(Versions(rows, key)) + 1
  }

  lemma {:induction false} MaxOfRun(low: nat, high: nat, versions: seq<nat>)
    requires low <= high && versions == Run(low, high)
    ensures versions != [] ==> MaxVersion(versions) == high
    decreases high
  {
    if low < high {
      assert versions[..|versions| - 1] == Run(low, high - 1);
      MaxOfRun(low, high - 1, versions[..|versions| - 1]);
    }
  }

  // ---------------------------------------------------------------------
  // The counter refines MAX
  // ---------------------------------------------------------------------

  /** Every version is the one MAX + 1 hands out over the versions before it. */
  predicate NumberedByMax(versions: seq<nat>) {
    forall i :: 0 <= i < |versions| ==> versions[i] == MaxVersion(versions[..i]) + 1
  }

  lemma NumberedOneMore(versions: seq<nat>, v: nat)
    ensures NumberedByMax(versions + [v]) <==> NumberedByMax(versions) && v == MaxVersion(versions) + 1
  {
    var longer := versions + [v];
    assert longer[..|versions|] == versions && longer[|versions|] == v;
    assert forall i :: 0 <= i < |versions| ==> longer[i] == versions[i] && longer[..i] == versions[..i];
    if NumberedByMax(versions) && v == MaxVersion(versions) + 1 {
      forall i | 0 <= i < |longer|
        ensures longer[i] == MaxVersion(longer[..i]) + 1
      {
        assert i < |versions| ==> versions[i] == MaxVersion(versions[..i]) + 1;
      }
    }
    if NumberedByMax(longer) {
      forall i | 0 <= i < |versions|
        ensures versions[i] == MaxVersion(versions[..i]) + 1
      {
        assert longer[i] == MaxVersion(longer[..i]) + 1;
      }
    }
  }

  lemma AppendToRun(versions: seq<nat>, v: nat)
    ensures var longer := versions + [v];
      longer == Run(0, |longer|) <==> versions == Run(0, |versions|) && v == |versions| + 1
  {
    var longer := versions + [v];
    assert longer[|versions|] == v && longer[..|versions|] == versions;
    if longer == Run(0, |longer|) {
      forall i | 0 <= i < |versions|
        ensures versions[i] == i + 1
      {
        assert longer[i] == i + 1;
      }
    }
  }

  lemma {:induction false} NumberedByMaxIff(versions: seq<nat>)
    ensures NumberedByMax(versions) <==> versions == Run(0, |versions|)
  {
    if versions != [] {
      var n := |versions| - 1;
      var init := versions[..n];
      assert versions == init + [versions[n]];
      NumberedByMaxIff(init);
      NumberedOneMore(init, versions[n]);
      AppendToRun(init, versions[n]);
      if init == Run(0, n) { MaxOfRun(0, n, init); }
    }
  }

  /** A counter agrees with MAX + 1, now and for every version handed out, exactly
      when the versions are as many as the counter counts. */
  lemma AgreesWithMaxIff(versions: seq<nat>, counter: nat)
    requires Increasing(versions) && Between(versions, 0, counter)
    ensures NumberedByMax(versions) && MaxVersion(versions) == counter <==> |versions| == counter
  {
    NumberedByMaxIff(versions);
    GaplessIff(versions, 0, counter);
    if NumberedByMax(versions) { MaxOfRun(0, |versions|, versions); }
  }

  /** In every interleaving, whether or not audit errors fail the statement: the
      committed versions of an entity are the ones MAX + 1 would have handed out,
      and its counter is the MAX, if and only if none of its versions was lost. */
  lemma CounterRefinesMaxIff(failClosed: bool, steps: seq<Step>, key: Key)
    requires Legal(Start(failClosed), steps)
    ensures var db := Exec(Start(failClosed), steps);
      var versions := Versions(db.rows, key);
      NumberedByMax(versions) && MaxVersion(versions) == Counter(db.counters, key) <==> key !in db.lost
  {
    VersionsIncrease(failClosed, steps, key);
    var db := Exec(Start(failClosed), steps);
    AgreesWithMaxIff(Versions(db.rows, key), Counter(db.counters, key));
  }

  /** The same for the version a statement is about to allocate, over the rows it
      sees: its own losses count as well. */
  lemma AllocationRefinesMaxIff(failClosed: bool, steps: seq<Step>, t: TxId)
    requires Legal(Start(failClosed), steps)
    requires Enabled(Exec(Start(failClosed), steps), Allocate(t, true))
    ensures var db := Exec(Start(failClosed), steps);
      var key, rows := db.txs[t].work[db.txs[t].next], db.rows + db.txs[t].rows;
      NumberedByMax(Versions(rows, key)) && NextByMax(rows, key) == Seen(db, t, key) + 1
      <==> key !in db.lost && key !in db.txs[t].lost
  {
    StartInv(failClosed);
    InvExec(Start(failClosed), steps);
    var db := Exec(Start(failClosed), steps);
    var key := db.txs[t].work[db.txs[t].next];
    SeenRowsCount(db, t, key);
    AgreesWithMaxIff(Versions(db.rows + db.txs[t].rows, key), Seen(db, t, key));
  }

  lemma SeenRowsCount(db: Db, t: TxId, key: Key)
    requires Inv(db) && t in db.txs && db.txs[t].status == Active && db.txs[t].stage == Allocating
    ensures var versions := Versions(db.rows + db.txs[t].rows, key);
      && Increasing(versions) && Between(versions, 0, Seen(db, t, key))
      && |versions| + db.lost[key] + db.txs[t].lost[key] == Seen(db, t, key)
  {
    assert CounterOk(db, key) && TxOk(db, t) && PendingOk(db, t, key);
    VersionsAppend(db.rows, db.txs[t].rows, key);
    IncreasingAppend(Versions(db.rows, key), Versions(db.txs[t].rows, key), 0, Counter(db.counters, key), Seen(db, t, key));
  }

  /** With nothing lost so far, the counter is the MAX over the committed rows. */
  lemma CounterIsMax(failClosed: bool, steps: seq<Step>, key: Key)
    requires Legal(Start(failClosed), steps)
    ensures var db := Exec(Start(failClosed), steps);
      key !in db.lost ==> MaxVersion(Versions(db.rows, key)) == Counter(db.counters, key)
    ensures failClosed || NoSaveFails(steps) ==> key !in Exec(Start(failClosed), steps).lost
  {
    CounterRefinesMaxIff(failClosed, steps, key);
    if failClosed || NoSaveFails(steps) { NothingLost(failClosed, steps, key); }
  }

  lemma NothingLost(failClosed: bool, steps: seq<Step>, key: Key)
    requires Legal(Start(failClosed), steps) && (failClosed || NoSaveFails(steps))
    ensures key !in Exec(Start(failClosed), steps).lost
  {
    if failClosed {
      FailClosedIsGapless(steps, key);
      GaplessIffNothingLost(true, steps, key);
    } else {
      NoLossWithoutFailedSave(Start(false), steps);
    }
  }

  /** A statement that lost nothing allocates MAX + 1 over the rows it sees. In
      particular when no save fails, and, if audit errors fail the statement, as
      long as it has met none. */
  lemma CounterHandsOutMaxPlusOne(failClosed: bool, steps: seq<Step>, t: TxId)
    requires Legal(Start(failClosed), steps)
    requires Enabled(Exec(Start(failClosed), steps), Allocate(t, true))
    ensures var db := Exec(Start(failClosed), steps);
      var key := db.txs[t].work[db.txs[t].next];
      && (key !in db.lost && key !in db.txs[t].lost ==>
            NextByMax(db.rows + db.txs[t].rows, key) == Seen(db, t, key) + 1)
      && (NoSaveFails(steps) || (failClosed && !db.txs[t].failed) ==> key !in db.lost && key !in db.txs[t].lost)
  {
    AllocationRefinesMaxIff(failClosed, steps, t);
    StartInv(failClosed);
    InvExec(Start(failClosed), steps);
    FailClosedKept(Start(failClosed), steps);
    var db := Exec(Start(failClosed), steps);
    assert TxOk(db, t);
    if NoSaveFails(steps) { NoLossWithoutFailedSave(Start(failClosed), steps); }
    if failClosed { NothingLost(failClosed, steps, db.txs[t].work[db.txs[t].next]); }
  }

  // ---------------------------------------------------------------------
  // MAX + 1 with concurrent writers
  // ---------------------------------------------------------------------

  /** A row about to be inserted, and how many rows of its entity there were when
      its version was taken from them; a failed query looked at none. */
  datatype Claim = Claim(row: Row, seen: nat)

  datatype Table = Table(rows: seq<Row>, pending: map<nat, Claim>)

  /** A writer queries the maximum and inserts its row in separate steps. A failed
      query falls back to version 1, a failed insert drops the row. */
  datatype Move =
    | Query(writer: nat, entity: Key)
    | QueryFails(writer: nat, entity: Key)
    | Insert(writer: nat)
    | InsertFails(writer: nat)

  predicate CanMove(s: Table, m: Move) {
    if m.Insert? || m.InsertFails? then m.writer in s.pending else m.writer !in s.pending
  }

  function Count(s: Table, key: Key): nat {
    |Versions(s.rows, key)|
  }

  function Moved(s: Table, m: Move): Table
    requires CanMove(s, m)
  {
    match m
    case Query(w, entity) =>
      s.(pending := s.pending[w := Claim(Row(entity, NextByMax(s.rows, entity), w, 0), Count(s, entity))])
    case QueryFails(w, entity) => s.(pending := s.pending[w := Claim(Row(entity, 1, w, 0), 0)])
    case Insert(w) => Table(s.rows + [s.pending[w].row], s.pending - {w})
    case InsertFails(w) => s.(pending := s.pending - {w})
  }

  predicate Possible(s: Table, moves: seq<Move>)
    decreases |moves|
  {
    moves == [] || (CanMove(s, moves[0]) && Possible(Moved(s, moves[0]), moves[1..]))
  }

  function After(s: Table, moves: seq<Move>): Table
    requires Possible(s, moves)
    decreases |moves|
  {
    if moves == [] then s else After(Moved(s, moves[0]), moves[1..])
  }

  const NoRows := Table([], map[])

  /** An insert into the entity whose version is out of date: rows of the entity
      came in since the query, or were there when the query failed. */
  predicate IsStale(s: Table, m: Move, key: Key)
    requires CanMove(s, m)
  {
    m.Insert? && s.pending[m.writer].row.key == key && s.pending[m.writer].seen != Count(s, key)
  }

  /** No insert into the entity is out of date. */
  predicate NeverStale(s: Table, moves: seq<Move>, key: Key)
    requires Possible(s, moves)
    decreases |moves|
  {
    moves == [] || (!IsStale(s, moves[0], key) && NeverStale(Moved(s, moves[0]), moves[1..], key))
  }

  ghost predicate IsGapless(s: Table, key: Key) {
    Versions(s.rows, key) == Run(0, Count(s, key))
  }

  ghost predicate IsUnique(s: Table, key: Key) {
    var versions := Versions(s.rows, key);
    forall i, j :: 0 <= i < j < |versions| ==> versions[i] != versions[j]
  }

  /** While an entity is gapless, its pending rows carry one above what they saw;
      once it is not, a version has been repeated. */
  ghost predicate EntityInv(s: Table, key: Key) {
    && (forall w | w in s.pending && s.pending[w].row.key == key ::
          s.pending[w].seen <= Count(s, key) &&
          (IsGapless(s, key) ==> s.pending[w].row.version == s.pending[w].seen + 1))
    && (IsUnique(s, key) <==> IsGapless(s, key))
  }

  lemma VersionsGrow(s: Table, m: Move, key: Key)
    requires CanMove(s, m)
    ensures Versions(Moved(s, m).rows, key) ==
      Versions(s.rows, key) +
      (if m.Insert? && s.pending[m.writer].row.key == key then [s.pending[m.writer].row.version] else [])
  {
    if m.Insert? {
      assert Moved(s, m).rows[..|s.rows|] == s.rows;
    }
  }

  /** An insert into the entity: in date it goes on numbering, out of date it
      repeats a version. */
  lemma InsertedStep(s: Table, w: nat)
    requires w in s.pending && EntityInv(s, s.pending[w].row.key)
    ensures var key := s.pending[w].row.key;
      var next := Moved(s, Insert(w));
      && (IsGapless(next, key) <==> IsGapless(s, key) && !IsStale(s, Insert(w), key))
      && (IsUnique(next, key) <==> IsGapless(next, key))
  {
    var key, v := s.pending[w].row.key, s.pending[w].row.version;
    var versions, longer := Versions(s.rows, key), Versions(Moved(s, Insert(w)).rows, key);
    VersionsGrow(s, Insert(w), key);
    AppendToRun(versions, v);
    assert longer[..|versions|] == versions;
    if IsGapless(s, key) {
      if IsStale(s, Insert(w), key) {
        assert longer[v - 1] == v == longer[|versions|];
      }
    } else {
      var i, j :| 0 <= i < j < |versions| && versions[i] == versions[j];
      assert longer[i] == longer[j];
    }
  }

  lemma EntityStep(s: Table, m: Move, key: Key)
    requires EntityInv(s, key) && CanMove(s, m)
    ensures EntityInv(Moved(s, m), key)
    ensures IsGapless(Moved(s, m), key) <==> IsGapless(s, key) && !IsStale(s, m, key)
  {
    VersionsGrow(s, m, key);
    if m.Insert? && s.pending[m.writer].row.key == key {
      InsertedStep(s, m.writer);
    } else {
      assert Versions(Moved(s, m).rows, key) == Versions(s.rows, key);
      if m.Query? && IsGapless(s, key) {
        MaxOfRun(0, Count(s, key), Versions(s.rows, key));
      }
    }
  }

  lemma {:induction false} GaplessRun(s: Table, moves: seq<Move>, key: Key)
    requires EntityInv(s, key) && Possible(s, moves)
    ensures EntityInv(After(s, moves), key)
    ensures IsGapless(After(s, moves), key) <==> IsGapless(s, key) && NeverStale(s, moves, key)
    decreases |moves|
  {
    if moves != [] {
      EntityStep(s, moves[0], key);
      GaplessRun(Moved(s, moves[0]), moves[1..], key);
    }
  }

  /** In every schedule with any faults: MAX + 1 numbers the rows of an entity
      1, 2, 3, ..., as the counter does, if and only if no insert into it was out
      of date; and otherwise it has given some version twice. */
  lemma MaxPlusOneIff(moves: seq<Move>, key: Key)
    requires Possible(NoRows, moves)
    ensures IsGapless(After(NoRows, moves), key) <==> NeverStale(NoRows, moves, key)
    ensures IsUnique(After(NoRows, moves), key) <==> NeverStale(NoRows, moves, key)
  {
    assert Versions(NoRows.rows, key) == [];
    GaplessRun(NoRows, moves, key);
  }

  /** Writers of one entity taking turns: no query fails, and no writer queries an
      entity while another holds a row of it. */
  predicate Serial(s: Table, moves: seq<Move>)
    requires Possible(s, moves)
    decreases |moves|
  {
    moves == [] ||
    (!moves[0].QueryFails? &&
     (moves[0].Query? ==> forall w | w in s.pending :: s.pending[w].row.key != moves[0].entity) &&
     Serial(Moved(s, moves[0]), moves[1..]))
  }

  ghost predicate TakingTurns(s: Table) {
    && (forall w | w in s.pending :: s.pending[w].seen == Count(s, s.pending[w].row.key))
    && (forall v, w | v in s.pending && w in s.pending && v != w :: s.pending[v].row.key != s.pending[w].row.key)
  }

  lemma TurnTaken(s: Table, m: Move)
    requires TakingTurns(s) && CanMove(s, m) && !m.QueryFails?
    requires m.Query? ==> forall w | w in s.pending :: s.pending[w].row.key != m.entity
    ensures TakingTurns(Moved(s, m))
  {
    forall w | w in Moved(s, m).pending
      ensures Moved(s, m).pending[w].seen == Count(Moved(s, m), Moved(s, m).pending[w].row.key)
    {
      VersionsGrow(s, m, Moved(s, m).pending[w].row.key);
    }
  }

  lemma {:induction false} SerialIsNeverStale(s: Table, moves: seq<Move>, key: Key)
    requires TakingTurns(s) && Possible(s, moves) && Serial(s, moves)
    ensures NeverStale(s, moves, key)
    decreases |moves|
  {
    if moves != [] {
      TurnTaken(s, moves[0]);
      SerialIsNeverStale(Moved(s, moves[0]), moves[1..], key);
    }
  }

  /** In particular when the writers take turns. */
  lemma SerialIsGapless(moves: seq<Move>, key: Key)
    requires Possible(NoRows, moves) && Serial(NoRows, moves)
    ensures IsGapless(After(NoRows, moves), key)
  {
    SerialIsNeverStale(NoRows, moves, key);
    MaxPlusOneIff(moves, key);
  }

  /** Without turns two writers read the same maximum, and without the query the
      fallback repeats version 1: either way the entity gets it twice. */
  lemma MaxPlusOneRepeats(key: Key)
    ensures var moves := [Query(0, key), Query(1, key), Insert(0), Insert(1)];
      Possible(NoRows, moves) && Versions(After(NoRows, moves).rows, key) == [1, 1]
    ensures var moves := [Query(0, key), Insert(0), QueryFails(0, key), Insert(0)];
      Possible(NoRows, moves) && Versions(After(NoRows, moves).rows, key) == [1, 1]
  {
    var first, second := Row(key, 1, 0, 0), Row(key, 1, 1, 0);
    MovesUnfold(NoRows, Query(0, key), Query(1, key), Insert(0), Insert(1));
    MovesUnfold(NoRows, Query(0, key), Insert(0), QueryFails(0, key), Insert(0));
    TwoRows(first, second);
    TwoRows(first, first);
  }

  lemma AfterCons(s: Table, m: Move, rest: seq<Move>)
    requires CanMove(s, m) && Possible(Moved(s, m), rest)
    ensures Possible(s, [m] + rest) && After(s, [m] + rest) == After(Moved(s, m), rest)
  {
    assert ([m] + rest)[1..] == rest;
  }

  lemma MovesUnfold(s: Table, a: Move, b: Move, c: Move, d: Move)
    requires CanMove(s, a) && CanMove(Moved(s, a), b) && CanMove(Moved(Moved(s, a), b), c)
    requires CanMove(Moved(Moved(Moved(s, a), b), c), d)
    ensures Possible(s, [a, b, c, d]) && After(s, [a, b, c, d]) == Moved(Moved(Moved(Moved(s, a), b), c), d)
  {
    var s1 := Moved(s, a);
    var s2 := Moved(s1, b);
    var s3 := Moved(s2, c);
    AfterCons(s3, d, []);
    assert [d] + [] == [d];
    AfterCons(s2, c, [d]);
    assert [c] + [d] == [c, d];
    AfterCons(s1, b, [c, d]);
    assert [b] + [c, d] == [b, c, d];
    AfterCons(s, a, [b, c, d]);
    assert [a] + [b, c, d] == [a, b, c, d];
  }

  lemma TwoRows(a: Row, b: Row)
    ensures Versions([a, b], a.key) == [a.version] + (if b.key == a.key then [b.version] else [])
  {
    VersionsOfOne(a, a.key);
    VersionsOfOne(b, a.key);
    VersionsAppend([a], [b], a.key);
    assert [a] + [b] == [a, b];
  }

  lemma VersionsOfOne(r: Row, key: Key)
    ensures Versions([r], key) == if r.key == key then [r.version] else []
  {
    assert [r][..0] == [];
  }
}
