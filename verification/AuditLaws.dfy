/** What every write keeps, over whole runs, and what a batch leaves behind when
    some of its writes fail. */
module AuditLaws {
  import opened Values
  import opened VersionKeys
  import opened VersionSequences
  import opened FieldPolicies
  import opened DeferredRequests
  import opened ChangeBuilders
  import opened AuditTrail
  import DepthGate

  // ---------------------------------------------------------------------
  // Outcomes of one write
  // ---------------------------------------------------------------------

  /** Either nothing is stored and no version is consumed (the request was refused,
      or an update had nothing to record); or a version is asked for, and exactly
      when it is granted and the insert succeeds, one record carrying it is
      appended. A panicking callback is reported but its record stays. */
  lemma WriteOutcome(cfg: Config, s: Trail, w: Write, order: seq<string>)
    ensures var (after, err) := Written(cfg, s, w, order);
      var computed := Computed(cfg, w, order);
      if IsUnconvertible(w) || computed.Err? || IsNoOp(w, computed.value) then
        && after.log == s.log && after.counters == s.counters
        && (err.Some? <==> IsUnconvertible(w) || computed.Err?)
      else
        && (after.log == s.log || exists v: nat ::
              after.log == s.log + [RecordOf(w, computed.value, v)] &&
              v == CounterOf(cfg, after, w.id) > CounterOf(cfg, s, w.id))
        && (err.None? ==> after.log != s.log)
        && (err.Some? ==> after.log == s.log || err.value == CallbackPanicked)
    ensures var (after, err) := Written(cfg, s, w, order);
      after.reported == s.reported + if err.Some? then [err.value] else []
  {
    if !IsUnconvertible(w) {
      StoredOutcome(cfg, s.(handed := s.handed + HandedOver(cfg, w, order)), w, Computed(cfg, w, order));
    }
  }

  lemma StoredOutcome(cfg: Config, s: Trail, w: Write, computed: Result<ChangeResult, Error>)
    ensures var (after, err) := Stored(cfg, s, w, computed);
      if computed.Err? || IsNoOp(w, computed.value) then
        after.log == s.log && after.counters == s.counters && (err.Some? <==> computed.Err?)
      else
        && (after.log == s.log || exists v: nat ::
              after.log == s.log + [RecordOf(w, computed.value, v)] &&
              v == CounterOf(cfg, after, w.id) > CounterOf(cfg, s, w.id))
        && (err.None? ==> after.log != s.log)
        && (err.Some? ==> after.log == s.log || err.value == CallbackPanicked)
    ensures var (after, err) := Stored(cfg, s, w, computed);
      after.reported == s.reported + if err.Some? then [err.value] else []
  {
    var (after, err) := Stored(cfg, s, w, computed);
    if after.log != s.log {
      var v := after.counters[KeyOf(cfg, w.id)];
      assert after.log == s.log + [RecordOf(w, computed.value, v)];
    }
  }

  // ---------------------------------------------------------------------
  // Invariant of the audit collection
  // ---------------------------------------------------------------------

  /** Inline records are small and carry no reference, deferred ones carry one,
      and an update record is never empty. */
  predicate RecordOk(cfg: Config, r: AuditRecord) {
    && r.version >= 1
    && (r.status == Inline ==> r.reference == "" && |r.changes| <= cfg.maxChangedFields)
    && (r.status == Deferred ==> r.reference != "")
    && (r.action == ActionUpdate ==> r.changes != map[] || r.reference != "")
  }

  function RecordsOf(log: seq<AuditRecord>, id: string): seq<AuditRecord> {
    if log == [] then []
    else RecordsOf(log[..|log| - 1], id) + (if log[|log| - 1].id == id then [log[|log| - 1]] else [])
  }

  function VersionsOf(log: seq<AuditRecord>, id: string): seq<nat> {
    if log == [] then []
    else VersionsOf(log[..|log| - 1], id) + (if log[|log| - 1].id == id then [log[|log| - 1].version] else [])
  }

  function CounterOf(cfg: Config, s: Trail, id: string): nat {
    var counter := CounterAt(s.counters, KeyOf(cfg, id));
    if counter.Some? then counter.value else 0
  }

  ghost predicate EntityOk(cfg: Config, s: Trail, id: string) {
    Increasing(VersionsOf(s.log, id)) && Between(VersionsOf(s.log, id), 0, CounterOf(cfg, s, id))
  }

  ghost predicate TrailOk(cfg: Config, s: Trail) {
    && (forall r | r in s.log :: RecordOk(cfg, r))
    && (forall id :: EntityOk(cfg, s, id))
    && (forall req | req in s.handed :: Readable(req.update) && Clean(req) == req)
  }

  /** The states agree on everything recorded about one entity. */
  predicate SameEntity(cfg: Config, a: Trail, b: Trail, id: string) {
    RecordsOf(a.log, id) == RecordsOf(b.log, id)
    && CounterAt(a.counters, KeyOf(cfg, id)) == CounterAt(b.counters, KeyOf(cfg, id))
  }

  lemma KeysDiffer(cfg: Config, a: string, b: string)
    requires a != b
    ensures KeyOf(cfg, a) != KeyOf(cfg, b)
  {
    var n := |cfg.collection| + 1;
    assert KeyOf(cfg, a)[n..] == a && KeyOf(cfg, b)[n..] == b;
  }

  /** What storing does to the counter and the records of the write's entity. */
  function StoredAt(w: Write, computed: Result<ChangeResult, Error>, counter: Option<nat>)
    : (Option<nat>, seq<AuditRecord>, Option<Error>)
  {
    if computed.Err? then (counter, [], Some(computed.error))
    else if IsNoOp(w, computed.value) then (counter, [], None)
    else
      var (counter', version) := Allocation(counter, w.env);
      if version.None? then (counter', [], Some(VersionUnavailable))
      else if w.env.insertFails then (counter', [], Some(InsertFailed))
      else (counter', [RecordOf(w, computed.value, version.value)],
            if w.env.callbackPanics then Some(CallbackPanicked) else None)
  }

  /** Storing is that, and nothing to any other entity. */
  lemma StoredFactors(cfg: Config, s: Trail, w: Write, computed: Result<ChangeResult, Error>)
    ensures var (after, err) := Stored(cfg, s, w, computed);
      var (counter, records, failure) := StoredAt(w, computed, CounterAt(s.counters, KeyOf(cfg, w.id)));
      && err == failure && after.handed == s.handed && after.log == s.log + records
      && CounterAt(after.counters, KeyOf(cfg, w.id)) == counter
      && forall k | k != KeyOf(cfg, w.id) :: CounterAt(after.counters, k) == CounterAt(s.counters, k)
  {
  }

  /** A record carries the value its counter was moved to. */
  lemma StoredAtMoves(w: Write, computed: Result<ChangeResult, Error>, counter: Option<nat>)
    ensures var (counter', records, _) := StoredAt(w, computed, counter);
      && |records| <= 1
      && (counter.Some? ==> counter'.Some? && counter.value <= counter'.value)
      && (records != [] ==>
            && counter'.Some? && records[0].version == counter'.value >= 1
            && (counter.Some? ==> counter.value < counter'.value)
            && computed.Ok? && !IsNoOp(w, computed.value)
            && records[0] == RecordOf(w, computed.value, counter'.value))
  {
  }

  lemma AppendedRecords(log: seq<AuditRecord>, records: seq<AuditRecord>, id: string)
    requires |records| <= 1
    ensures RecordsOf(log + records, id) ==
            RecordsOf(log, id) + (if records != [] && records[0].id == id then records else [])
    ensures VersionsOf(log + records, id) ==
            VersionsOf(log, id) + (if records != [] && records[0].id == id then [records[0].version] else [])
  {
    if records == [] {
      assert log + records == log;
    } else {
      assert (log + records)[..|log|] == log;
      assert records == [records[0]];
    }
  }

  lemma StoredIsLocal(cfg: Config, s: Trail, w: Write, computed: Result<ChangeResult, Error>, id: string)
    requires id != w.id
    ensures var after := Stored(cfg, s, w, computed).0;
      SameEntity(cfg, after, s, id) && VersionsOf(after.log, id) == VersionsOf(s.log, id)
  {
    KeysDiffer(cfg, id, w.id);
    var counter := CounterAt(s.counters, KeyOf(cfg, w.id));
    StoredFactors(cfg, s, w, computed);
    StoredAtMoves(w, computed, counter);
    AppendedRecords(s.log, StoredAt(w, computed, counter).1, id);
  }

  lemma EntityUnchanged(cfg: Config, s: Trail, after: Trail, id: string)
    requires EntityOk(cfg, s, id) && VersionsOf(after.log, id) == VersionsOf(s.log, id)
    requires CounterOf(cfg, s, id) <= CounterOf(cfg, after, id)
    ensures EntityOk(cfg, after, id)
  {
  }

  lemma EntityExtended(cfg: Config, s: Trail, after: Trail, id: string, v: nat)
    requires EntityOk(cfg, s, id) && VersionsOf(after.log, id) == VersionsOf(s.log, id) + [v]
    requires CounterOf(cfg, s, id) < v == CounterOf(cfg, after, id)
    ensures EntityOk(cfg, after, id)
  {
    IncreasingAppend(VersionsOf(s.log, id), [v], 0, CounterOf(cfg, s, id), v);
  }

  lemma EntityGrows(cfg: Config, s: Trail, after: Trail, records: seq<AuditRecord>, id: string)
    requires EntityOk(cfg, s, id) && after.log == s.log + records && |records| <= 1
    requires CounterOf(cfg, s, id) <= CounterOf(cfg, after, id)
    requires records != [] ==>
      records[0].id == id && CounterOf(cfg, s, id) < records[0].version == CounterOf(cfg, after, id)
    ensures EntityOk(cfg, after, id)
  {
    AppendedRecords(s.log, records, id);
    if records == [] {
      EntityUnchanged(cfg, s, after, id);
    } else {
      EntityExtended(cfg, s, after, id, records[0].version);
    }
  }

  lemma StoredKeepsEntity(cfg: Config, s: Trail, w: Write, computed: Result<ChangeResult, Error>, id: string)
    requires EntityOk(cfg, s, id)
    ensures EntityOk(cfg, Stored(cfg, s, w, computed).0, id)
  {
    if id != w.id {
      StoredIsLocal(cfg, s, w, computed, id);
    } else {
      var counter := CounterAt(s.counters, KeyOf(cfg, id));
      StoredFactors(cfg, s, w, computed);
      StoredAtMoves(w, computed, counter);
      EntityGrows(cfg, s, Stored(cfg, s, w, computed).0, StoredAt(w, computed, counter).1, id);
    }
  }

  /** A write concerns its own entity alone. */
  lemma WriteIsLocal(cfg: Config, s: Trail, w: Write, order: seq<string>, id: string)
    requires id != w.id
    ensures SameEntity(cfg, Written(cfg, s, w, order).0, s, id)
  {
    if !IsUnconvertible(w) {
      StoredIsLocal(cfg, s.(handed := s.handed + HandedOver(cfg, w, order)), w, Computed(cfg, w, order), id);
    }
  }

  lemma ComputedOk(cfg: Config, w: Write, order: seq<string>, version: nat)
    requires version >= 1
    requires Computed(cfg, w, order).Ok? && !IsNoOp(w, Computed(cfg, w, order).value)
    ensures RecordOk(cfg, RecordOf(w, Computed(cfg, w, order).value, version))
  {
  }

  /** Every write, with whatever faults, keeps the invariant of the trail. */
  lemma WriteKeepsTrail(cfg: Config, s: Trail, w: Write, order: seq<string>)
    requires TrailOk(cfg, s)
    ensures TrailOk(cfg, Written(cfg, s, w, order).0)
  {
    if IsUnconvertible(w) {
      assert forall id :: EntityOk(cfg, s, id) ==> EntityOk(cfg, Reported(s, Unencodable), id);
      return;
    }
    var s1 := s.(handed := s.handed + HandedOver(cfg, w, order));
    var computed := Computed(cfg, w, order);
    forall id
      ensures EntityOk(cfg, Stored(cfg, s1, w, computed).0, id)
    {
      assert EntityOk(cfg, s, id);
      StoredKeepsEntity(cfg, s1, w, computed, id);
    }
    var counter := CounterAt(s.counters, KeyOf(cfg, w.id));
    StoredFactors(cfg, s1, w, computed);
    StoredAtMoves(w, computed, counter);
    var records := StoredAt(w, computed, counter).1;
    if records != [] {
      ComputedOk(cfg, w, order, records[0].version);
    }
    if Readable(w.req.update) { SanitisingIsIdempotent(w.req); }
  }

  // ---------------------------------------------------------------------
  // Gaps
  // ---------------------------------------------------------------------

  /** The write moves its counter by more than the record it stores: it loses the
      version it allocated, or others overtook the first allocation. */
  predicate Wastes(cfg: Config, s: Trail, w: Write, order: seq<string>) {
    var computed := Computed(cfg, w, order);
    && !IsUnconvertible(w) && computed.Ok? && !IsNoOp(w, computed.value)
    && w.env.faultyAttempt != Some(0)
    && (w.env.insertFails || (KeyOf(cfg, w.id) !in s.counters && w.env.others > 0))
  }

  /** Every version the counter counts has its record. */
  predicate IsFull(cfg: Config, s: Trail, id: string) {
    |VersionsOf(s.log, id)| == CounterOf(cfg, s, id)
  }

  predicate IsCovered(cfg: Config, s: Trail, id: string) {
    |VersionsOf(s.log, id)| <= CounterOf(cfg, s, id)
  }

  function ValueOf(counter: Option<nat>): nat {
    if counter.Some? then counter.value else 0
  }

  lemma StoredAtCounts(w: Write, computed: Result<ChangeResult, Error>, counter: Option<nat>)
    ensures var (counter', records, _) := StoredAt(w, computed, counter);
      && ValueOf(counter) + |records| <= ValueOf(counter')
      && (ValueOf(counter) + |records| == ValueOf(counter') <==>
            computed.Err? || IsNoOp(w, computed.value) || w.env.faultyAttempt == Some(0) ||
            (!w.env.insertFails && (counter.Some? || w.env.others == 0)))
  {
  }

  lemma CountsAreFull(cfg: Config, s: Trail, after: Trail, id: string, n: nat)
    requires IsCovered(cfg, s, id) && |VersionsOf(after.log, id)| == |VersionsOf(s.log, id)| + n
    requires CounterOf(cfg, s, id) + n <= CounterOf(cfg, after, id)
    ensures IsCovered(cfg, after, id)
    ensures IsFull(cfg, after, id) <==> IsFull(cfg, s, id) && CounterOf(cfg, s, id) + n == CounterOf(cfg, after, id)
  {
  }

  lemma OwnWriteFullIff(cfg: Config, s: Trail, w: Write, order: seq<string>)
    requires IsCovered(cfg, s, w.id) && !IsUnconvertible(w)
    ensures var after := Written(cfg, s, w, order).0;
      IsCovered(cfg, after, w.id) && (IsFull(cfg, after, w.id) <==> IsFull(cfg, s, w.id) && !Wastes(cfg, s, w, order))
  {
    var computed, counter := Computed(cfg, w, order), CounterAt(s.counters, KeyOf(cfg, w.id));
    var records := StoredAt(w, computed, counter).1;
    StoredFactors(cfg, s.(handed := s.handed + HandedOver(cfg, w, order)), w, computed);
    StoredAtMoves(w, computed, counter);
    StoredAtCounts(w, computed, counter);
    AppendedRecords(s.log, records, w.id);
    CountsAreFull(cfg, s, Written(cfg, s, w, order).0, w.id, |records|);
  }

  /** A write keeps an entity full exactly when it is another's or wastes nothing. */
  lemma WriteFullIff(cfg: Config, s: Trail, w: Write, order: seq<string>, id: string)
    requires IsCovered(cfg, s, id)
    ensures var after := Written(cfg, s, w, order).0;
      && IsCovered(cfg, after, id)
      && (IsFull(cfg, after, id) <==> IsFull(cfg, s, id) && !(w.id == id && Wastes(cfg, s, w, order)))
  {
    if !IsUnconvertible(w) {
      if w.id == id {
        OwnWriteFullIff(cfg, s, w, order);
      } else {
        StoredIsLocal(cfg, s.(handed := s.handed + HandedOver(cfg, w, order)), w, Computed(cfg, w, order), id);
      }
    }
  }

  // ---------------------------------------------------------------------
  // Batches
  // ---------------------------------------------------------------------

  /** What the i-th pass of an audit loop does. */
  type Pass = (Trail, nat) -> (Trail, Option<Error>)

  function WritePass(cfg: Config, writes: seq<Write>, orders: seq<seq<string>>): Pass {
    (s: Trail, i: nat) =>
      if i < |writes| && i < |orders| then Written(cfg, s, writes[i], orders[i]) else (s, None)
  }

  /** The state after the first n passes, errors ignored. */
  function AttemptAll(pass: Pass, s: Trail, n: nat): Trail {
    if n == 0 then s else pass(AttemptAll(pass, s, n - 1), n - 1).0
  }

  /** How pass i ends when all before it were attempted. */
  function ErrorAt(pass: Pass, s: Trail, i: nat): Option<Error> {
    pass(AttemptAll(pass, s, i), i).1
  }

  /** The loop: state reached, error it stopped on, passes attempted. */
  function Loop(pass: Pass, s: Trail, n: nat, failFast: bool): (Trail, Option<Error>, nat) {
    if n == 0 then (s, None, 0)
    else
      var (before, err, done) := Loop(pass, s, n - 1, failFast);
      if err.Some? then (before, err, done)
      else
        var (after, failure) := pass(before, n - 1);
        (after, if failFast then failure else None, n)
  }

  /** The loop has attempted exactly its first `done` passes. Fail closed it stops
      on the first error, having attempted nothing after it; otherwise, or when
      none fails, it attempts them all. */
  lemma {:induction false} LoopIsPrefix(pass: Pass, s: Trail, n: nat, failFast: bool)
    ensures var (after, err, done) := Loop(pass, s, n, failFast);
      && done <= n && after == AttemptAll(pass, s, done)
      && (err.None? ==> done == n)
      && (err.Some? ==> failFast && 0 < done && ErrorAt(pass, s, done - 1) == err)
      && (failFast ==> forall i: nat :: i < (if err.Some? then done - 1 else done) ==> ErrorAt(pass, s, i) == None)
  {
    if n > 0 {
      LoopIsPrefix(pass, s, n - 1, failFast);
    }
  }

  lemma {:induction false} QuietLoop(pass: Pass, s: Trail, n: nat, failFast: bool)
    requires forall i: nat | i < n :: ErrorAt(pass, s, i) == None
    ensures Loop(pass, s, n, failFast) == (AttemptAll(pass, s, n), None, n)
  {
    if n > 0 {
      QuietLoop(pass, s, n - 1, failFast);
      assert ErrorAt(pass, s, n - 1) == None;
    }
  }

  /** The loop's first n passes only depend on the first n orders. */
  lemma {:induction false} LoopSameOrders(cfg: Config, writes: seq<Write>, a: seq<seq<string>>, b: seq<seq<string>>,
                                          s: Trail, n: nat, failFast: bool)
    requires n <= |writes| && n <= |a| && n <= |b| && a[..n] == b[..n]
    ensures Loop(WritePass(cfg, writes, a), s, n, failFast) == Loop(WritePass(cfg, writes, b), s, n, failFast)
  {
    if n > 0 {
      assert a[..n - 1] == a[..n][..n - 1] && b[..n - 1] == b[..n][..n - 1];
      assert a[n - 1] == a[..n][n - 1] == b[..n][n - 1];
      LoopSameOrders(cfg, writes, a, b, s, n - 1, failFast);
    }
  }

  lemma LoopNext(cfg: Config, writes: seq<Write>, orders: seq<seq<string>>, order: seq<string>, s: Trail, now: Trail,
                 after: Trail, failure: Option<Error>, failFast: bool)
    requires |orders| < |writes|
    requires Loop(WritePass(cfg, writes, orders), s, |orders|, failFast) == (now, None, |orders|)
    requires (after, failure) == Written(cfg, now, writes[|orders|], order)
    ensures Loop(WritePass(cfg, writes, orders + [order]), s, |orders| + 1, failFast) ==
      (after, if failFast then failure else None, |orders| + 1)
  {
    var longer := orders + [order];
    assert longer[..|orders|] == orders[..|orders|];
    LoopSameOrders(cfg, writes, orders, longer, s, |orders|, failFast);
    assert WritePass(cfg, writes, longer)(now, |orders|) == (after, failure);
  }

  /** Once stopped, the loop stays stopped. */
  lemma {:induction false} LoopStays(pass: Pass, s: Trail, n: nat, m: nat, failFast: bool)
    requires n <= m && Loop(pass, s, n, failFast).1.Some?
    ensures Loop(pass, s, m, failFast) == Loop(pass, s, n, failFast)
  {
    if n < m {
      LoopStays(pass, s, n, m - 1, failFast);
    }
  }

  /** Pass i leaves everything about the entity alone, whatever state it meets. */
  ghost predicate Spares(cfg: Config, pass: Pass, i: nat, id: string) {
    forall s: Trail :: SameEntity(cfg, pass(s, i).0, s, id)
  }

  lemma PassSpares(cfg: Config, writes: seq<Write>, orders: seq<seq<string>>, i: nat, id: string)
    requires i < |writes| ==> writes[i].id != id
    ensures Spares(cfg, WritePass(cfg, writes, orders), i, id)
  {
    var pass := WritePass(cfg, writes, orders);
    forall s: Trail
      ensures SameEntity(cfg, pass(s, i).0, s, id)
    {
      if i < |writes| && i < |orders| {
        WriteIsLocal(cfg, s, writes[i], orders[i], id);
      }
    }
  }

  /** Entities outside the attempted writes are untouched. */
  lemma {:induction false} AttemptLeavesOthers(cfg: Config, pass: Pass, s: Trail, from: nat, n: nat, id: string)
    requires from <= n && forall i: nat :: from <= i < n ==> Spares(cfg, pass, i, id)
    ensures SameEntity(cfg, AttemptAll(pass, s, n), AttemptAll(pass, s, from), id)
  {
    if from < n {
      AttemptLeavesOthers(cfg, pass, s, from, n - 1, id);
      assert Spares(cfg, pass, n - 1, id);
    }
  }

  lemma StoredDependsOnItsEntity(cfg: Config, a: Trail, b: Trail, w: Write, computed: Result<ChangeResult, Error>)
    requires SameEntity(cfg, a, b, w.id)
    ensures SameEntity(cfg, Stored(cfg, a, w, computed).0, Stored(cfg, b, w, computed).0, w.id)
    ensures Stored(cfg, a, w, computed).1 == Stored(cfg, b, w, computed).1
  {
    var counter := CounterAt(a.counters, KeyOf(cfg, w.id));
    StoredFactors(cfg, a, w, computed);
    StoredFactors(cfg, b, w, computed);
    StoredAtMoves(w, computed, counter);
    AppendedRecords(a.log, StoredAt(w, computed, counter).1, w.id);
    AppendedRecords(b.log, StoredAt(w, computed, counter).1, w.id);
  }

  /** What a write does to its entity depends on that entity alone. */
  lemma WriteDependsOnItsEntity(cfg: Config, a: Trail, b: Trail, w: Write, order: seq<string>)
    requires SameEntity(cfg, a, b, w.id)
    ensures SameEntity(cfg, Written(cfg, a, w, order).0, Written(cfg, b, w, order).0, w.id)
    ensures Written(cfg, a, w, order).1 == Written(cfg, b, w, order).1
  {
    var extra := HandedOver(cfg, w, order);
    StoredDependsOnItsEntity(cfg, a.(handed := a.handed + extra), b.(handed := b.handed + extra),
                             w, Computed(cfg, w, order));
  }

  lemma PassDependsOnItsEntity(cfg: Config, writes: seq<Write>, orders: seq<seq<string>>, a: Trail, b: Trail, i: nat)
    requires i < |writes| && SameEntity(cfg, a, b, writes[i].id)
    ensures var pass := WritePass(cfg, writes, orders);
      SameEntity(cfg, pass(a, i).0, pass(b, i).0, writes[i].id) && pass(a, i).1 == pass(b, i).1
  {
    if i < |orders| {
      WriteDependsOnItsEntity(cfg, a, b, writes[i], orders[i]);
    }
  }

  lemma OthersSpare(cfg: Config, s: Trail, writes: seq<Write>, orders: seq<seq<string>>, from: nat, n: nat, id: string)
    requires from <= n <= |writes| && forall j :: from <= j < n ==> writes[j].id != id
    ensures var pass := WritePass(cfg, writes, orders);
      SameEntity(cfg, AttemptAll(pass, s, n), AttemptAll(pass, s, from), id)
  {
    forall j: nat | from <= j < n
      ensures Spares(cfg, WritePass(cfg, writes, orders), j, id)
    {
      PassSpares(cfg, writes, orders, j, id);
    }
    AttemptLeavesOthers(cfg, WritePass(cfg, writes, orders), s, from, n, id);
  }

  /** After n passes the entity of pass i is as if that pass had been the only one. */
  ghost predicate AsIfAlone(cfg: Config, pass: Pass, s: Trail, n: nat, i: nat, id: string) {
    SameEntity(cfg, AttemptAll(pass, s, n), pass(s, i).0, id) && ErrorAt(pass, s, i) == pass(s, i).1
  }

  lemma NextIsAsIfAlone(cfg: Config, s: Trail, writes: seq<Write>, orders: seq<seq<string>>, i: nat)
    requires i < |writes|
    requires forall j :: 0 <= j < i ==> writes[j].id != writes[i].id
    ensures AsIfAlone(cfg, WritePass(cfg, writes, orders), s, i + 1, i, writes[i].id)
  {
    OthersSpare(cfg, s, writes, orders, 0, i, writes[i].id);
    PassDependsOnItsEntity(cfg, writes, orders, AttemptAll(WritePass(cfg, writes, orders), s, i), s, i);
  }

  lemma StaysAsIfAlone(cfg: Config, pass: Pass, s: Trail, n: nat, i: nat, id: string)
    requires i < n && AsIfAlone(cfg, pass, s, i + 1, i, id)
    requires forall j: nat :: i + 1 <= j < n ==> Spares(cfg, pass, j, id)
    ensures AsIfAlone(cfg, pass, s, n, i, id)
  {
    AttemptLeavesOthers(cfg, pass, s, i + 1, n, id);
  }

  predicate DistinctEntities(writes: seq<Write>) {
    forall j, k :: 0 <= j < k < |writes| ==> writes[j].id != writes[k].id
  }

  /** Of the first n writes, each entity ends up as if its write were the only one. */
  lemma AttemptedAsIfAlone(cfg: Config, s: Trail, writes: seq<Write>, orders: seq<seq<string>>, n: nat, i: nat)
    requires i < n <= |writes| && DistinctEntities(writes)
    ensures AsIfAlone(cfg, WritePass(cfg, writes, orders), s, n, i, writes[i].id)
  {
    var pass, id := WritePass(cfg, writes, orders), writes[i].id;
    NextIsAsIfAlone(cfg, s, writes, orders, i);
    forall j: nat | i + 1 <= j < n
      ensures Spares(cfg, pass, j, id)
    {
      PassSpares(cfg, writes, orders, j, id);
    }
    StaysAsIfAlone(cfg, pass, s, n, i, id);
  }

  /** A failed write costs only its own record: in a batch over distinct entities
      each ends up exactly as if its write had been the only one. */
  lemma FailureCostsOnlyItself(cfg: Config, s: Trail, writes: seq<Write>, orders: seq<seq<string>>, i: nat)
    requires i < |writes| && DistinctEntities(writes)
    ensures AsIfAlone(cfg, WritePass(cfg, writes, orders), s, |writes|, i, writes[i].id)
  {
    AttemptedAsIfAlone(cfg, s, writes, orders, |writes|, i);
  }

  /** The entity of a write stands as if that write had been the only one. */
  ghost predicate WrittenAlone(cfg: Config, s: Trail, after: Trail, w: Write, order: seq<string>) {
    SameEntity(cfg, after, Written(cfg, s, w, order).0, w.id)
  }

  lemma AttemptedWrites(cfg: Config, s: Trail, writes: seq<Write>, orders: seq<seq<string>>, n: nat)
    requires n <= |writes| && n <= |orders| && DistinctEntities(writes)
    ensures var pass := WritePass(cfg, writes, orders);
      && (forall i :: 0 <= i < n ==> WrittenAlone(cfg, s, AttemptAll(pass, s, n), writes[i], orders[i]))
      && (forall i :: 0 <= i < n ==> ErrorAt(pass, s, i) == Written(cfg, s, writes[i], orders[i]).1)
      && (forall i :: n <= i < |writes| ==> SameEntity(cfg, AttemptAll(pass, s, n), s, writes[i].id))
  {
    var pass := WritePass(cfg, writes, orders);
    forall i | 0 <= i < n
      ensures WrittenAlone(cfg, s, AttemptAll(pass, s, n), writes[i], orders[i])
      ensures ErrorAt(pass, s, i) == Written(cfg, s, writes[i], orders[i]).1
    {
      AttemptedAsIfAlone(cfg, s, writes, orders, n, i);
    }
    forall i | n <= i < |writes|
      ensures SameEntity(cfg, AttemptAll(pass, s, n), s, writes[i].id)
    {
      OthersSpare(cfg, s, writes, orders, 0, n, writes[i].id);
    }
  }

  lemma FailedWriteStoresNothing(cfg: Config, s: Trail, after: Trail, w: Write, order: seq<string>)
    requires WrittenAlone(cfg, s, after, w, order) && Written(cfg, s, w, order).1.Some?
    ensures Written(cfg, s, w, order).1 != Some(CallbackPanicked) ==> RecordsOf(after.log, w.id) == RecordsOf(s.log, w.id)
  {
    WriteOutcome(cfg, s, w, order);
  }

  /** The audit loop over distinct entities. It attempts the first `done` writes;
      each of their entities stands as if its write had been the only one, and the
      entities after them are untouched. Fail closed the loop stops on the first
      failing write and returns its error; that write has stored nothing unless
      only its callback panicked. Fail open it attempts every write. */
  lemma LoopOutcome(cfg: Config, s: Trail, writes: seq<Write>, orders: seq<seq<string>>, failFast: bool)
    requires DistinctEntities(writes)
    requires Loop(WritePass(cfg, writes, orders), s, |writes|, failFast).2 <= |orders|
    ensures var (after, err, done) := Loop(WritePass(cfg, writes, orders), s, |writes|, failFast);
      && done <= |writes|
      && (forall i :: 0 <= i < done ==> WrittenAlone(cfg, s, after, writes[i], orders[i]))
      && (forall i :: done <= i < |writes| ==> SameEntity(cfg, after, s, writes[i].id))
      && (failFast ==> forall i :: 0 <= i < (if err.Some? then done - 1 else done) ==>
            Written(cfg, s, writes[i], orders[i]).1 == None)
      && (err.None? ==> done == |writes|)
      && (err.Some? ==>
            && failFast && 0 < done && Written(cfg, s, writes[done - 1], orders[done - 1]).1 == err
            && (err.value != CallbackPanicked ==>
                  RecordsOf(after.log, writes[done - 1].id) == RecordsOf(s.log, writes[done - 1].id)))
  {
    var pass := WritePass(cfg, writes, orders);
    var (after, err, done) := Loop(pass, s, |writes|, failFast);
    LoopIsPrefix(pass, s, |writes|, failFast);
    AttemptedWrites(cfg, s, writes, orders, done);
    if err.Some? {
      FailedWriteStoresNothing(cfg, s, after, writes[done - 1], orders[done - 1]);
    }
  }

  // ---------------------------------------------------------------------
  // Deferred and refused writes
  // ---------------------------------------------------------------------

  lemma GateErrorIs(cfg: Config, w: Write)
    ensures var g, bytes, depth := w.env.heap, cfg.maxDocumentBytes, cfg.maxDepth;
      var beforeFits := w.req.before.Some? ==> DepthGate.WithinLimits(g, w.env.before, bytes, depth);
      var afterFits := w.req.after.Some? ==> DepthGate.WithinLimits(g, w.env.after, bytes, depth);
      GateError(cfg, w) ==
        if !beforeFits then (if w.env.before.bytes.None? then Some(Unencodable) else Some(TooComplex))
        else if !afterFits then (if w.env.after.bytes.None? then Some(Unencodable) else Some(TooComplex))
        else None
  {
    DepthGate.DepthLimitIff(w.env.heap, w.env.before.root, cfg.maxDepth);
    DepthGate.DepthLimitIff(w.env.heap, w.env.after.root, cfg.maxDepth);
    var last := [if w.req.after.Some? then Some(w.env.after) else None];
    assert last[1..] == [];
    assert Snapshots(w)[1..] == last;
    assert DepthGate.Complexity(w.env.heap, last, cfg.maxDocumentBytes, cfg.maxDepth) ==
      if w.req.after.Some? then DepthGate.VerdictOn(w.env.heap, w.env.after, cfg.maxDocumentBytes, cfg.maxDepth)
      else DepthGate.Passed;
  }

  /** Past the gate, why a request is not recorded inline. */
  lemma ReasonPastTheGate(cfg: Config, w: Write, order: seq<string>)
    ensures GateError(cfg, w).Some? ==> DeferralReason(cfg, w, order) == GateError(cfg, w)
    ensures GateError(cfg, w).None? ==>
      DeferralReason(cfg, w, order) ==
        if w.env.expiredBefore then Some(DeadlineExceeded)
        else if w.req.mode.OtherMode? then Some(UnsupportedMode)
        else if w.env.expiredAfter then Some(DeadlineExceeded)
        else if |ChangesOf(w.req, order).value| > cfg.maxChangedFields then Some(TooComplex)
        else None
  {
  }

  /** A write that is deferred hands over its own sanitised request, and stores what
      the handler answered: its changes and its reference, marked as deferred. */
  lemma DeferredWrite(cfg: Config, s: Trail, w: Write, order: seq<string>)
    requires !IsUnconvertible(w) && DeferralReason(cfg, w, order).Some?
    requires cfg.hasDeferral && Readable(w.req.update)
    requires w.env.handler.Some? && w.env.handler.value.reference != ""
    requires w.env.faultyAttempt.None? && !w.env.insertFails
    ensures var (after, answer) := (Written(cfg, s, w, order).0, w.env.handler.value);
      && after.handed == s.handed + [Clean(w.req)]
      && exists v: nat ::
           after.log == s.log + [AuditRecord(w.id, w.action, answer.changes, answer.reference, Deferred, v)]
  {
    var s1, computed := s.(handed := s.handed + HandedOver(cfg, w, order)), Computed(cfg, w, order);
    StoredFactors(cfg, s1, w, computed);
    StoredAtMoves(w, computed, CounterAt(s.counters, KeyOf(cfg, w.id)));
  }

  /** A write that cannot be deferred stores nothing and consumes no version, and its
      error says why: the reason itself when there is no handler, otherwise what
      went wrong on the way to a usable answer. */
  lemma RefusedWrite(cfg: Config, s: Trail, w: Write, order: seq<string>)
    requires !IsUnconvertible(w) && DeferralReason(cfg, w, order).Some?
    requires !cfg.hasDeferral || !Readable(w.req.update) || w.env.handler.None? || w.env.handler.value.reference == ""
    ensures var (after, err) := Written(cfg, s, w, order);
      && after.log == s.log && after.counters == s.counters
      && err == (if !cfg.hasDeferral then DeferralReason(cfg, w, order)
                 else if !Readable(w.req.update) then Some(Unserialisable)
                 else if w.env.handler.None? then Some(HandlerFailed)
                 else Some(EmptyReference))
      && after.handed == s.handed + (if cfg.hasDeferral && Readable(w.req.update) then [Clean(w.req)] else [])
      && after.reported == s.reported + [err.value]
  {
  }

  /** What the faults after the changes are known do to a write: a failing server
      leaves counter and trail alone, a failing insert costs the version, and a
      panicking callback costs nothing. */
  lemma WriteFaults(cfg: Config, s: Trail, w: Write, order: seq<string>)
    requires !IsUnconvertible(w) && Computed(cfg, w, order).Ok? && !IsNoOp(w, Computed(cfg, w, order).value)
    ensures var (after, err) := Written(cfg, s, w, order);
      && (w.env.faultyAttempt == Some(0) ==>
            err == Some(VersionUnavailable) && after.log == s.log && after.counters == s.counters)
      && (w.env.faultyAttempt.None? && w.env.insertFails ==>
            err == Some(InsertFailed) && after.log == s.log && CounterOf(cfg, after, w.id) > CounterOf(cfg, s, w.id))
      && (w.env.faultyAttempt.None? && !w.env.insertFails ==>
            && |after.log| == |s.log| + 1
            && err == if w.env.callbackPanics then Some(CallbackPanicked) else None)
  {
    var s1, computed := s.(handed := s.handed + HandedOver(cfg, w, order)), Computed(cfg, w, order);
    StoredFactors(cfg, s1, w, computed);
    StoredAtMoves(w, computed, CounterAt(s.counters, KeyOf(cfg, w.id)));
  }

  /** Entities of different collections never share a counter. */
  lemma CollectionsCountApart(a: Config, b: Config, idA: string, idB: string)
    requires '\0' !in a.collection && '\0' !in b.collection
    ensures KeyOf(a, idA) == KeyOf(b, idB) <==> a.collection == b.collection && idA == idB
  {
    if KeyOf(a, idA) == KeyOf(b, idB) {
      KeysAreInjective(a.collection, idA, b.collection, idB);
    }
  }

  // ---------------------------------------------------------------------
  // Hidden values and the trail
  // ---------------------------------------------------------------------

  /** The environments differ at most in where the documents sit and how large
      their encodings are, which is all of a hidden value that the gate sees. */
  predicate SameButForSizes(a: Env, b: Env) {
    a == b.(heap := a.heap, before := a.before, after := a.after)
  }

  /** Both are recorded inline, or both are deferred, or both refused alike. */
  predicate SameTreatment(cfg: Config, a: Write, b: Write, order: seq<string>) {
    var ra, rb := DeferralReason(cfg, a, order), DeferralReason(cfg, b, order);
    (ra.None? <==> rb.None?) && (cfg.hasDeferral || ra == rb)
  }

  lemma SameAnswers(cfg: Config, a: Write, b: Write, order: seq<string>)
    requires SameButForSizes(a.env, b.env) && ChangesOf(a.req, order) == ChangesOf(b.req, order)
    requires Readable(a.req.update) == Readable(b.req.update) && Clean(a.req) == Clean(b.req)
    requires SameTreatment(cfg, a, b, order)
    ensures HandedOver(cfg, a, order) == HandedOver(cfg, b, order)
    ensures Computed(cfg, a, order) == Computed(cfg, b, order)
  {
  }

  predicate RefusesToRecord(e: Error) {
    e in {TooComplex, Unencodable, DeadlineExceeded, UnsupportedMode, Unserialisable}
  }

  lemma ReasonsRefuse(cfg: Config, w: Write, order: seq<string>)
    ensures DeferralReason(cfg, w, order).Some? ==> RefusesToRecord(DeferralReason(cfg, w, order).value)
  {
  }

  lemma StoringDoesNotRefuse(cfg: Config, s: Trail, w: Write, computed: Result<ChangeResult, Error>)
    ensures Stored(cfg, s, w, computed).0.handed == s.handed
    ensures computed.Err? ==> Stored(cfg, s, w, computed).1 == Some(computed.error)
    ensures computed.Ok? && Stored(cfg, s, w, computed).1.Some? ==> !RefusesToRecord(Stored(cfg, s, w, computed).1.value)
  {
    StoredFactors(cfg, s, w, computed);
  }

  lemma DifferentAnswers(cfg: Config, a: Write, b: Write, order: seq<string>)
    requires Readable(a.req.update) == Readable(b.req.update)
    requires !SameTreatment(cfg, a, b, order)
    ensures var ca, cb := Computed(cfg, a, order), Computed(cfg, b, order);
      || |HandedOver(cfg, a, order)| != |HandedOver(cfg, b, order)|
      || (ca.Err? && cb.Err? && ca.error != cb.error)
      || (ca.Err? && cb.Ok? && RefusesToRecord(ca.error))
      || (cb.Err? && ca.Ok? && RefusesToRecord(cb.error))
  {
    ReasonsRefuse(cfg, a, order);
    ReasonsRefuse(cfg, b, order);
  }

  lemma DifferentTrails(cfg: Config, s: Trail, a: Write, b: Write, order: seq<string>)
    requires Readable(a.req.update) == Readable(b.req.update)
    requires !IsUnconvertible(a) && !IsUnconvertible(b) && !SameTreatment(cfg, a, b, order)
    ensures Written(cfg, s, a, order) != Written(cfg, s, b, order)
  {
    DifferentAnswers(cfg, a, b, order);
    StoringDoesNotRefuse(cfg, s.(handed := s.handed + HandedOver(cfg, a, order)), a, Computed(cfg, a, order));
    StoringDoesNotRefuse(cfg, s.(handed := s.handed + HandedOver(cfg, b, order)), b, Computed(cfg, b, order));
    assert |HandedOver(cfg, a, order)| != |HandedOver(cfg, b, order)| ==>
      |s.handed + HandedOver(cfg, a, order)| != |s.handed + HandedOver(cfg, b, order)|;
  }

  /** Two writes that differ only in values the policy hides leave the same trail
      if and only if the gate, which measures the documents as they are, does not
      tell them apart: it lets both through or neither, and where nothing is
      deferred it refuses both for one reason. */
  lemma SameTrailIff(cfg: Config, s: Trail, a: Write, b: Write, order: seq<string>)
    requires a.id == b.id && a.action == b.action && SameButForSizes(a.env, b.env)
    requires SameRequestView(a.req, b.req) && SameReading(a.req, b.req)
    ensures Written(cfg, s, a, order) == Written(cfg, s, b, order)
       <==> IsUnconvertible(a) || SameTreatment(cfg, a, b, order)
  {
    if !IsUnconvertible(a) {
      HiddenValuesDoNotReachChanges(a.req, b.req, order);
      SanitisedAlikeIff(a.req, b.req);
      SameCleanRequestIff(a.req, b.req);
      if SameTreatment(cfg, a, b, order) {
        SameAnswers(cfg, a, b, order);
        SameStored(cfg, s.(handed := s.handed + HandedOver(cfg, a, order)), a, b, Computed(cfg, a, order));
      } else {
        DifferentTrails(cfg, s, a, b, order);
      }
    }
  }

  lemma SameStored(cfg: Config, s: Trail, a: Write, b: Write, computed: Result<ChangeResult, Error>)
    requires a.id == b.id && a.action == b.action && SameButForSizes(a.env, b.env)
    ensures Stored(cfg, s, a, computed) == Stored(cfg, s, b, computed)
  {
  }

  lemma SameDeferralReason(cfg: Config, a: Write, b: Write, order: seq<string>)
    requires a.env == b.env && ChangesOf(a.req, order) == ChangesOf(b.req, order)
    requires a.req.before.Some? == b.req.before.Some? && a.req.after.Some? == b.req.after.Some?
    ensures DeferralReason(cfg, a, order) == DeferralReason(cfg, b, order)
  {
    assert Snapshots(a) == Snapshots(b);
    assert GateError(cfg, a) == GateError(cfg, b);
  }

  /** In particular when the documents also have the same shape and size. */
  lemma HiddenValuesLeaveNoTrace(cfg: Config, s: Trail, a: Write, b: Write, order: seq<string>)
    requires a.id == b.id && a.action == b.action && a.env == b.env
    requires SameRequestView(a.req, b.req) && SameReading(a.req, b.req)
    ensures Written(cfg, s, a, order) == Written(cfg, s, b, order)
  {
    HiddenValuesDoNotReachChanges(a.req, b.req, order);
    SameDeferralReason(cfg, a, b, order);
    SameTrailIff(cfg, s, a, b, order);
  }

  /** An insert whose one field, a redacted text, takes the given room. */
  function Sized(secret: string, bytes: nat): Write {
    var p := FieldPolicy({}, {"secret"}, None, "-");
    var snapshot := DepthGate.Snapshot(DepthGate.At(0), Some(bytes));
    Write("1", ActionCreate,
          ChangeRequest(CreateMode, None, Some(map["secret" := Text(secret)]), NoUpdate, p, "c", "1"),
          Env(DepthGate.Graph(map[0 := DepthGate.Scalar]), snapshot, snapshot, false, false, false, None, None, 0, false,
              false))
  }

  /** The size of a hidden value can show: under a limit of 100 bytes the short
      secret is recorded and the long one refused. */
  lemma HiddenSizesCanShow(secret: string, longer: string, s: Trail)
    ensures var cfg := Config("c", None, 10, 100, 5, false, false);
      var a, b := Sized(secret, 10), Sized(longer, 1000);
      && SameRequestView(a.req, b.req) && SameReading(a.req, b.req) && SameButForSizes(a.env, b.env)
      && Written(cfg, s, a, []).1 == None && Written(cfg, s, b, []).1 == Some(TooComplex)
  {
    var cfg := Config("c", None, 10, 100, 5, false, false);
    var a, b := Sized(secret, 10), Sized(longer, 1000);
    GateOnInserts(cfg, a);
    GateOnInserts(cfg, b);
    assert DepthGate.Capped(a.env.heap, DepthGate.At(0), 6) == 1;
    assert ChangesOf(a.req, []).value.Keys == {"secret"};
  }

  lemma GateOnInserts(cfg: Config, w: Write)
    requires w.req.before.None? && w.req.after.Some?
    ensures GateError(cfg, w) ==
      VerdictError(DepthGate.VerdictOn(w.env.heap, w.env.after, cfg.maxDocumentBytes, cfg.maxDepth))
  {
    var docs := [Some(w.env.after)];
    assert docs[1..] == [];
    assert Snapshots(w)[0] == None && Snapshots(w)[1..] == docs;
    assert DepthGate.Complexity(w.env.heap, docs, cfg.maxDocumentBytes, cfg.maxDepth) ==
           DepthGate.VerdictOn(w.env.heap, w.env.after, cfg.maxDocumentBytes, cfg.maxDepth);
  }

  /** What decides between recording inline and deferring: the depth and size of
      the documents, the deadline and the number of changed fields. */
  lemma RecordedInlineIff(cfg: Config, w: Write, order: seq<string>)
    ensures Computed(cfg, w, order).Ok? && Computed(cfg, w, order).value.status == Inline
       <==> && (w.req.before.Some? ==> DepthGate.WithinLimits(w.env.heap, w.env.before, cfg.maxDocumentBytes, cfg.maxDepth))
            && (w.req.after.Some? ==> DepthGate.WithinLimits(w.env.heap, w.env.after, cfg.maxDocumentBytes, cfg.maxDepth))
            && !w.env.expiredBefore && !w.env.expiredAfter
            && ChangesOf(w.req, order).Ok? && |ChangesOf(w.req, order).value| <= cfg.maxChangedFields
  {
    DepthGate.PassedIff(w.env.heap, Snapshots(w), cfg.maxDocumentBytes, cfg.maxDepth);
    assert Snapshots(w)[0] in Snapshots(w) && Snapshots(w)[1] in Snapshots(w);
  }

  /** The i-th write of a batch is the entity's and wastes a version. */
  predicate PassWastes(cfg: Config, s: Trail, writes: seq<Write>, orders: seq<seq<string>>, i: nat, id: string) {
    && i < |writes| && i < |orders| && writes[i].id == id
    && Wastes(cfg, AttemptAll(WritePass(cfg, writes, orders), s, i), writes[i], orders[i])
  }

  ghost predicate NoPassWastes(cfg: Config, s: Trail, writes: seq<Write>, orders: seq<seq<string>>, n: nat, id: string) {
    forall i: nat | i < n :: !PassWastes(cfg, s, writes, orders, i, id)
  }

  /** After n writes of a batch the entity is full exactly when it was before and none
      of them wasted a version of it. */
  ghost predicate FullAfter(cfg: Config, s: Trail, writes: seq<Write>, orders: seq<seq<string>>, n: nat, id: string) {
    var after := AttemptAll(WritePass(cfg, writes, orders), s, n);
    IsCovered(cfg, after, id) &&
    (IsFull(cfg, after, id) <==> IsFull(cfg, s, id) && NoPassWastes(cfg, s, writes, orders, n, id))
  }

  lemma {:induction false} AttemptFullIff(cfg: Config, s: Trail, writes: seq<Write>, orders: seq<seq<string>>, n: nat,
                                          id: string)
    requires IsCovered(cfg, s, id)
    ensures FullAfter(cfg, s, writes, orders, n, id)
  {
    if n > 0 {
      AttemptFullIff(cfg, s, writes, orders, n - 1, id);
      PassFullIff(cfg, s, writes, orders, n - 1, id);
    }
  }

  lemma OnePassMore(cfg: Config, s: Trail, writes: seq<Write>, orders: seq<seq<string>>, n: nat, id: string)
    ensures NoPassWastes(cfg, s, writes, orders, n + 1, id) <==>
            (NoPassWastes(cfg, s, writes, orders, n, id) && !PassWastes(cfg, s, writes, orders, n, id))
  {
  }

  lemma PassFullIff(cfg: Config, s: Trail, writes: seq<Write>, orders: seq<seq<string>>, i: nat, id: string)
    requires FullAfter(cfg, s, writes, orders, i, id)
    ensures FullAfter(cfg, s, writes, orders, i + 1, id)
  {
    var pass := WritePass(cfg, writes, orders);
    OnePassMore(cfg, s, writes, orders, i, id);
    if i < |writes| && i < |orders| {
      WriteFullIff(cfg, AttemptAll(pass, s, i), writes[i], orders[i], id);
      assert AttemptAll(pass, s, i + 1) == Written(cfg, AttemptAll(pass, s, i), writes[i], orders[i]).0;
    } else {
      assert AttemptAll(pass, s, i + 1) == AttemptAll(pass, s, i);
    }
  }

  ghost predicate KeepsTrail(cfg: Config, pass: Pass, i: nat) {
    forall s: Trail :: TrailOk(cfg, s) ==> TrailOk(cfg, pass(s, i).0)
  }

  lemma PassKeepsTrail(cfg: Config, writes: seq<Write>, orders: seq<seq<string>>, i: nat)
    ensures KeepsTrail(cfg, WritePass(cfg, writes, orders), i)
  {
    var pass := WritePass(cfg, writes, orders);
    forall s: Trail | TrailOk(cfg, s)
      ensures TrailOk(cfg, pass(s, i).0)
    {
      if i < |writes| && i < |orders| {
        WriteKeepsTrail(cfg, s, writes[i], orders[i]);
      }
    }
  }

  lemma {:induction false} PassesKeepTrail(cfg: Config, pass: Pass, s: Trail, n: nat)
    requires TrailOk(cfg, s) && forall i: nat :: i < n ==> KeepsTrail(cfg, pass, i)
    ensures TrailOk(cfg, AttemptAll(pass, s, n))
  {
    if n > 0 {
      PassesKeepTrail(cfg, pass, s, n - 1);
      assert KeepsTrail(cfg, pass, n - 1);
    }
  }

  /** The invariant of the trail survives every batch. */
  lemma AttemptKeepsTrail(cfg: Config, s: Trail, writes: seq<Write>, orders: seq<seq<string>>, n: nat)
    requires TrailOk(cfg, s)
    ensures TrailOk(cfg, AttemptAll(WritePass(cfg, writes, orders), s, n))
  {
    forall i: nat | i < n
      ensures KeepsTrail(cfg, WritePass(cfg, writes, orders), i)
    {
      PassKeepsTrail(cfg, writes, orders, i);
    }
    PassesKeepTrail(cfg, WritePass(cfg, writes, orders), s, n);
  }
}
