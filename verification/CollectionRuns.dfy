/** Whole runs of an audited collection: the invariant of its trail, and the
    replay of the trail into the live documents. */
module CollectionRuns {
  import opened Values
  import opened FieldPolicies
  import opened ChangeBuilders
  import opened ChangeLaws
  import opened DeferredRequests
  import opened VersionSequences
  import opened AuditTrail
  import opened AuditLaws
  import opened AuditedCollection

  const Empty := World(map[], Trail(map[], [], [], []))

  // ---------------------------------------------------------------------
  // The trail's invariant
  // ---------------------------------------------------------------------

  ghost predicate WorldOk(cfg: Config, w: World) {
    TrailOk(cfg, w.trail) && AllAllowed(cfg, w.trail.log)
  }

  lemma WriteAddsItsAction(cfg: Config, s: Trail, w: Write, order: seq<string>)
    ensures forall r | r in Written(cfg, s, w, order).0.log :: r in s.log || r.action == w.action
  {
  }

  predicate IsRefused(cfg: Config, c: Call) {
    !c.op.Insert? && c.readFails && cfg.failOnAuditError
  }

  /** The call gets as far as its audit write. */
  predicate IsWritten(cfg: Config, w: World, c: Call) {
    && !IsRefused(cfg, c) && !c.serverFails && Matches(w, c) && IsAudited(cfg, w, c)
  }

  function AfterRead(w: World, c: Call): Trail {
    if ReadsFirst(c.op) && c.readFails then Reported(w.trail, ReadFailed) else w.trail
  }

  /** A call does to the trail what its audit write does, if it gets that far. */
  lemma EffectOnTrail(cfg: Config, w: World, c: Call, order: seq<string>)
    ensures var after := Effect(cfg, w, c, order).0;
      if IsWritten(cfg, w, c)
      then after == World(Mutated(Met(w, c), c.op), Written(cfg, AfterRead(w, c), WriteOf(cfg, w, c), order).0)
      else after.trail == AfterRead(w, c)
  {
  }

  lemma CallKeepsWorld(cfg: Config, w: World, c: Call, order: seq<string>)
    requires WorldOk(cfg, w)
    ensures WorldOk(cfg, Effect(cfg, w, c, order).0)
  {
    var trail := AfterRead(w, c);
    assert TrailOk(cfg, trail) by {
      assert forall id :: EntityOk(cfg, w.trail, id) ==> EntityOk(cfg, trail, id);
    }
    EffectOnTrail(cfg, w, c, order);
    if IsWritten(cfg, w, c) {
      WriteKeepsTrail(cfg, trail, WriteOf(cfg, w, c), order);
      WriteAddsItsAction(cfg, trail, WriteOf(cfg, w, c), order);
    }
  }

  function History(cfg: Config, events: seq<Event>): World {
    if events == [] then Empty
    else Happened(cfg, History(cfg, events[..|events| - 1]), events[|events| - 1])
  }

  predicate AllAllowed(cfg: Config, log: seq<AuditRecord>) {
    forall r | r in log :: Allows(cfg, r.action)
  }

  lemma PassAddsItsAction(cfg: Config, s: Trail, writes: seq<Write>, orders: seq<seq<string>>, i: nat)
    requires AllAllowed(cfg, s.log) && forall w | w in writes :: Allows(cfg, w.action)
    ensures AllAllowed(cfg, WritePass(cfg, writes, orders)(s, i).0.log)
  {
    if i < |writes| && i < |orders| {
      WriteAddsItsAction(cfg, s, writes[i], orders[i]);
      assert writes[i] in writes;
    }
  }

  lemma {:induction false} BatchAddsItsActions(cfg: Config, s: Trail, writes: seq<Write>, orders: seq<seq<string>>, n: nat)
    requires AllAllowed(cfg, s.log) && forall w | w in writes :: Allows(cfg, w.action)
    ensures AllAllowed(cfg, AttemptAll(WritePass(cfg, writes, orders), s, n).log)
  {
    if n > 0 {
      BatchAddsItsActions(cfg, s, writes, orders, n - 1);
      PassAddsItsAction(cfg, AttemptAll(WritePass(cfg, writes, orders), s, n - 1), writes, orders, n - 1);
    }
  }

  lemma EventKeepsWorld(cfg: Config, w: World, e: Event)
    requires WorldOk(cfg, w) && Permitted(cfg, e)
    ensures WorldOk(cfg, Happened(cfg, w, e))
  {
    match e {
      case Single(c, order) => CallKeepsWorld(cfg, w, c, order);
      case Batch(writes, orders, _) =>
        var pass := WritePass(cfg, writes, orders);
        LoopIsPrefix(pass, w.trail, |writes|, cfg.failOnAuditError);
        var done := Loop(pass, w.trail, |writes|, cfg.failOnAuditError).2;
        AttemptKeepsTrail(cfg, w.trail, writes, orders, done);
        BatchAddsItsActions(cfg, w.trail, writes, orders, done);
      case Unread(_) =>
        assert forall id :: EntityOk(cfg, w.trail, id) ==> EntityOk(cfg, Reported(w.trail, ReadFailed), id);
      case Others(_, _, _) =>
        forall id
          ensures EntityOk(cfg, Happened(cfg, w, e).trail, id)
        {
          assert EntityOk(cfg, w.trail, id);
          EntityUnchanged(cfg, w.trail, Happened(cfg, w, e).trail, id);
        }
    }
  }

  /** After any sequence of calls and batches with any faults, other clients
      changing documents and allocating versions in between, every stored record
      has an allowed action and a positive version; it is inline, small and without
      reference, or deferred with one; updates are never empty; the versions of an
      entity increase strictly up to its counter; and everything ever handed to the
      deferral handler had been sanitised. */
  lemma {:induction false} EveryRunKeepsTheTrail(cfg: Config, events: seq<Event>)
    requires forall e | e in events :: Permitted(cfg, e)
    ensures WorldOk(cfg, History(cfg, events))
  {
    if events == [] {
      assert forall id :: VersionsOf(Empty.trail.log, id) == [];
    } else {
      var init, last := events[..|events| - 1], events[|events| - 1];
      EveryRunKeepsTheTrail(cfg, init);
      EventKeepsWorld(cfg, History(cfg, init), last);
    }
  }

  // ---------------------------------------------------------------------
  // Gaps in an entity's versions
  // ---------------------------------------------------------------------

  /** The event moves the entity's counter by more than the records it stores. */
  ghost predicate EventWastes(cfg: Config, w: World, e: Event, id: string) {
    match e
    case Single(c, order) =>
      IsWritten(cfg, w, c) && WriteOf(cfg, w, c).id == id && Wastes(cfg, w.trail, WriteOf(cfg, w, c), order)
    case Batch(writes, orders, _) =>
      var done := Loop(WritePass(cfg, writes, orders), w.trail, |writes|, cfg.failOnAuditError).2;
      !NoPassWastes(cfg, w.trail, writes, orders, done, id)
    case Unread(_) => false
    case Others(_, key, versions) => key == KeyOf(cfg, id) && versions > 0
  }

  ghost predicate NeverWastes(cfg: Config, events: seq<Event>, id: string) {
    events == [] ||
    (NeverWastes(cfg, events[..|events| - 1], id) &&
     !EventWastes(cfg, History(cfg, events[..|events| - 1]), events[|events| - 1], id))
  }

  lemma CallFullIff(cfg: Config, w: World, c: Call, order: seq<string>, id: string)
    requires IsCovered(cfg, w.trail, id)
    ensures var after := Effect(cfg, w, c, order).0.trail;
      && IsCovered(cfg, after, id)
      && (IsFull(cfg, after, id) <==> IsFull(cfg, w.trail, id) && !EventWastes(cfg, w, Single(c, order), id))
  {
    EffectOnTrail(cfg, w, c, order);
    if IsWritten(cfg, w, c) {
      WriteFullIff(cfg, AfterRead(w, c), WriteOf(cfg, w, c), order, id);
    }
  }

  lemma EventFullIff(cfg: Config, w: World, e: Event, id: string)
    requires IsCovered(cfg, w.trail, id)
    ensures var after := Happened(cfg, w, e).trail;
      && IsCovered(cfg, after, id)
      && (IsFull(cfg, after, id) <==> IsFull(cfg, w.trail, id) && !EventWastes(cfg, w, e, id))
  {
    match e {
      case Single(c, order) => CallFullIff(cfg, w, c, order, id);
      case Batch(writes, orders, _) =>
        var pass := WritePass(cfg, writes, orders);
        LoopIsPrefix(pass, w.trail, |writes|, cfg.failOnAuditError);
        AttemptFullIff(cfg, w.trail, writes, orders, Loop(pass, w.trail, |writes|, cfg.failOnAuditError).2, id);
      case Unread(_) =>
      case Others(_, _, _) =>
    }
  }

  lemma {:induction false} RunFullIff(cfg: Config, events: seq<Event>, id: string)
    ensures IsCovered(cfg, History(cfg, events).trail, id)
    ensures IsFull(cfg, History(cfg, events).trail, id) <==> NeverWastes(cfg, events, id)
  {
    if events != [] {
      var init, last := events[..|events| - 1], events[|events| - 1];
      RunFullIff(cfg, init, id);
      EventFullIff(cfg, History(cfg, init), last, id);
    }
  }

  /** After every run the versions this client recorded for an entity are exactly
      1..n of its counter if and only if nothing was wasted: no insert failed after
      its allocation, nobody overtook a first allocation, and no other client
      allocated for the entity. */
  lemma TrailGaplessIff(cfg: Config, events: seq<Event>, id: string)
    requires forall e | e in events :: Permitted(cfg, e)
    ensures var trail := History(cfg, events).trail;
      VersionsOf(trail.log, id) == Run(0, CounterOf(cfg, trail, id)) <==> NeverWastes(cfg, events, id)
  {
    EveryRunKeepsTheTrail(cfg, events);
    RunFullIff(cfg, events, id);
    var trail := History(cfg, events).trail;
    assert EntityOk(cfg, trail, id);
    GaplessIff(VersionsOf(trail.log, id), 0, CounterOf(cfg, trail, id));
  }

  // ---------------------------------------------------------------------
  // Replay
  // ---------------------------------------------------------------------

  /** The world after the calls, made one after the other. */
  function WorldAfter(cfg: Config, calls: seq<Call>, orders: seq<seq<string>>): World
    requires |calls| == |orders|
  {
    if calls == [] then Empty
    else
      var n := |calls| - 1;
      Effect(cfg, WorldAfter(cfg, calls[..n], orders[..n]), calls[n], orders[n]).0
  }

  /** Folds the records of one entity into the document they describe. */
  function Replayed(log: seq<AuditRecord>, id: string, p: FieldPolicy): Option<Document> {
    if log == [] then None
    else
      var before, r := Replayed(log[..|log| - 1], id, p), log[|log| - 1];
      if r.id != id then before
      else match r.action
        case ActionCreate => Some(Forward(map[], r.changes, p))
        case ActionUpdate => Some(Forward(DocOf(before), r.changes, p))
        case ActionDelete => None
  }

  predicate NilFree(doc: Document, p: FieldPolicy) {
    forall k | k in doc && Clear(p, k) :: doc[k] != Null
  }

  /** What MongoDB makes of a document under top-level $set and $unset. */
  function ApplyOps(doc: Document, ops: map<string, OperatorArg>): Document {
    var set', unset := FieldsUnder(ops, "$set"), FieldsUnder(ops, "$unset");
    map k | k in doc.Keys + set'.Keys && k !in unset :: if k in set' then set'[k] else doc[k]
  }

  /** $set and $unset only, on different fields, not on "_id", setting no nil.
      (The server refuses updates that conflict or touch "_id".) */
  predicate PlainUpdate(ops: map<string, OperatorArg>, p: FieldPolicy) {
    && (forall op | op in ops :: op == "$set" || op == "$unset")
    && (forall k | k in FieldsUnder(ops, "$set") :: k !in FieldsUnder(ops, "$unset"))
    && ID_FIELD !in FieldsUnder(ops, "$set") && ID_FIELD !in FieldsUnder(ops, "$unset")
    && NilFree(FieldsUnder(ops, "$set"), p)
  }

  /** The write is recorded inline and meets no fault (a panicking callback does
      not matter). */
  predicate NothingFails(cfg: Config, w: Write, order: seq<string>) {
    && GateError(cfg, w).None? && !w.env.unconvertible && !w.env.expiredBefore && !w.env.expiredAfter
    && w.env.faultyAttempt.None? && !w.env.insertFails
    && ChangesOf(w.req, order).Ok? && |ChangesOf(w.req, order).value| <= cfg.maxChangedFields
  }

  /** One writer's ordinary call: the fixed policy, nil-free values, and no fault
      but a refusal by the server (a panicking callback does not matter either). */
  ghost predicate Ordinary(cfg: Config, p: FieldPolicy, w: World, c: Call, order: seq<string>) {
    && c.policy == p && !c.readFails && c.raced.None? && (c.upsert ==> Matches(w, c))
    && NothingFails(cfg, WriteOf(cfg, w, c), order)
    && match c.op {
         case Insert(_, doc) => ID_FIELD in doc && NilFree(doc, p)
         case Replace(_, doc) => NilFree(doc, p)
         case Delete(_) => true
         case Update(id, update, result) =>
           && PlainUpdate(OpsOf(update), p) && IsOrder(order, OpsOf(update).Keys)
           && (id in w.docs ==> result == ApplyOps(w.docs[id], OpsOf(update)))
       }
  }

  ghost predicate OrdinaryRun(cfg: Config, p: FieldPolicy, calls: seq<Call>, orders: seq<seq<string>>)
    requires |calls| == |orders|
  {
    calls == [] ||
    (var n := |calls| - 1;
     && OrdinaryRun(cfg, p, calls[..n], orders[..n])
     && Ordinary(cfg, p, WorldAfter(cfg, calls[..n], orders[..n]), calls[n], orders[n]))
  }

  /** Ordinary runs go on: any nil-free document that meets no fault can be
      inserted next, whether or not its `_id` is free. */
  lemma OrdinaryRunsGoOn(cfg: Config, p: FieldPolicy, calls: seq<Call>, orders: seq<seq<string>>, id: string,
                         doc: Document, env: Env)
    requires |calls| == |orders| && OrdinaryRun(cfg, p, calls, orders)
    requires ID_FIELD in doc && NilFree(doc, p)
    requires NothingFails(cfg, WriteOf(cfg, Empty, Call(Insert(id, doc), p, false, None, false, false, env)), [])
    ensures OrdinaryRun(cfg, p, calls + [Call(Insert(id, doc), p, false, None, false, false, env)], orders + [[]])
  {
    var insert := Call(Insert(id, doc), p, false, None, false, false, env);
    assert (calls + [insert])[..|calls|] == calls && (orders + [[]])[..|orders|] == orders;
    assert Ordinary(cfg, p, WorldAfter(cfg, calls, orders), insert, []);
  }

  /** What the trail should say about an entity. */
  function Live(w: World, id: string, p: FieldPolicy): Option<Document> {
    if id in w.docs then Some(Project(w.docs[id], p)) else None
  }

  ghost predicate Mirrors(w: World, p: FieldPolicy) {
    && (forall id :: Replayed(w.trail.log, id, p) == Live(w, id, p))
    && (forall id | id in w.docs :: ID_FIELD in w.docs[id] && NilFree(w.docs[id], p))
  }

  /** An ordinary write records its changes, unless it is an update without any. */
  lemma OrdinaryWrite(cfg: Config, s: Trail, w: Write, order: seq<string>)
    requires NothingFails(cfg, w, order)
    ensures var log, changes := Written(cfg, s, w, order).0.log, ChangesOf(w.req, order).value;
      if w.action == ActionUpdate && changes == map[] then log == s.log
      else exists v: nat :: log == s.log + [AuditRecord(w.id, w.action, changes, "", Inline, v)]
  {
    var result := ChangeResult(ChangesOf(w.req, order).value, "", Inline);
    StoredFactors(cfg, s, w, Ok(result));
    StoredAtMoves(w, Ok(result), CounterAt(s.counters, KeyOf(cfg, w.id)));
    assert Computed(cfg, w, order) == Ok(result);
  }

  /** With nothing failing, an operator update goes unrecorded, and without any
      error, exactly when no operator touches a field the policy keeps. In
      particular every update that does not read as a document of operators
      (an aggregation pipeline, say) is applied and never audited. */
  lemma UnrecordedUpdateIff(cfg: Config, s: Trail, w: Write, order: seq<string>)
    requires w.action == ActionUpdate && w.req.mode == OperatorMode
    requires NothingFails(cfg, w, order) && !w.env.callbackPanics
    requires IsOrder(order, OpsOf(w.req.update).Keys)
    ensures Written(cfg, s, w, order).1 == None
    ensures Written(cfg, s, w, order).0.log == s.log
       <==> forall op, k :: !Touches(OpsOf(w.req.update), w.req.policy, op, k)
    ensures w.req.update.Unreadable? ==> Written(cfg, s, w, order).0.log == s.log
  {
    var ops, p := OpsOf(w.req.update), w.req.policy;
    var changes := ChangesOf(w.req, order).value;
    OrdinaryWrite(cfg, s, w, order);
    var log := Written(cfg, s, w, order).0.log;
    assert log == s.log <==> changes == map[];
    if changes == map[] {
      forall op, k
        ensures !Touches(ops, p, op, k)
      {
        ExtractionAt(order, ops, p, k);
        assert k !in changes;
      }
    } else {
      var k :| k in changes;
      ExtractionAt(order, ops, p, k);
    }
  }

  // ---------------------------------------------------------------------
  // Whom a record is attributed to
  // ---------------------------------------------------------------------

  lemma RecordedOnce(cfg: Config, s: Trail, w: Write, order: seq<string>, id: string)
    requires NothingFails(cfg, w, order)
    ensures |RecordsOf(Written(cfg, s, w, order).0.log, id)| == |RecordsOf(s.log, id)| +
      (if id == w.id && !(w.action == ActionUpdate && ChangesOf(w.req, order).value == map[]) then 1 else 0)
  {
    OrdinaryWrite(cfg, s, w, order);
    var changes := ChangesOf(w.req, order).value;
    if !(w.action == ActionUpdate && changes == map[]) {
      var v: nat :| Written(cfg, s, w, order).0.log == s.log + [AuditRecord(w.id, w.action, changes, "", Inline, v)];
      AppendedRecords(s.log, [AuditRecord(w.id, w.action, changes, "", Inline, v)], id);
    }
  }

  /** The call has something to audit: an insert always, a delete when a document
      was read and not empty, an update or replacement when it records a change. */
  predicate HasSomethingToRecord(cfg: Config, w: World, c: Call, order: seq<string>)
    requires NothingFails(cfg, WriteOf(cfg, w, c), order)
  {
    match c.op
    case Insert(_, _) => true
    case Delete(id) => !c.readFails && id in w.docs && w.docs[id] != map[]
    case _ => ChangesOf(WriteOf(cfg, w, c).req, order).value != map[]
  }

  /** The pre-read failed, or came before the document did. */
  predicate IsUnread(w: World, c: Call) {
    !c.op.Insert? && (c.readFails || c.op.id !in w.docs)
  }

  /** Calls of this kind are audited: inserts as creates, updates and replacements as
      updates, deletes as deletes, all of them unless the collection lists some. */
  predicate IsEnabled(cfg: Config, op: Op) {
    cfg.ops.None? || match op
                     case Insert(_, _) => ActionCreate in cfg.ops.value
                     case Delete(_) => ActionDelete in cfg.ops.value
                     case _ => ActionUpdate in cfg.ops.value
  }

  /** With nothing else failing, the entity a call changed gets a record (exactly
      one) if and only if there is something to record, the collection audits calls of
      its kind, and the document was read before: an unread one is taken for the entity "<nil>", so it only gets its
      record if that is its name. */
  lemma AttributedIff(cfg: Config, w: World, c: Call, order: seq<string>)
    requires Matches(w, c) && !c.serverFails
    requires NothingFails(cfg, WriteOf(cfg, w, c), order)
    ensures var log := Effect(cfg, w, c, order).0.trail.log;
      |RecordsOf(log, c.op.id)| == |RecordsOf(w.trail.log, c.op.id)| +
        (if HasSomethingToRecord(cfg, w, c, order) && IsEnabled(cfg, c.op) &&
            (!IsUnread(w, c) || (c.op.id == "<nil>" && !IsRefused(cfg, c)))
         then 1 else 0)
  {
    EffectOnTrail(cfg, w, c, order);
    RecordedOnce(cfg, AfterRead(w, c), WriteOf(cfg, w, c), order, c.op.id);
  }

  lemma UnreadWriteGoesToNil(cfg: Config, w: World, c: Call, order: seq<string>)
    requires IsUnread(w, c) && !IsRefused(cfg, c)
    requires Matches(w, c) && Allows(cfg, ActionOf(c.op)) && !c.serverFails
    ensures IsWritten(cfg, w, c) <==> !c.op.Delete?
    ensures WriteOf(cfg, w, c).id == NIL_ID
    ensures !c.op.Delete? ==> WriteOf(cfg, w, c).action == ActionUpdate
  {
  }

  /** What becomes of a call on an unread document that is not refused: the document
      changes; an update or replacement with something to record adds a record to
      the entity "<nil>", and a deletion leaves none. */
  lemma UnreadCallsGoAstray(cfg: Config, w: World, c: Call, order: seq<string>)
    requires Matches(w, c) && Allows(cfg, ActionOf(c.op)) && !c.serverFails
    requires NothingFails(cfg, WriteOf(cfg, w, c), order)
    requires IsUnread(w, c) && !IsRefused(cfg, c)
    ensures var after := Effect(cfg, w, c, order).0;
      && after.docs == Mutated(Met(w, c), c.op)
      && (c.op.Delete? ==> after.trail.log == w.trail.log)
      && (!c.op.Delete? && HasSomethingToRecord(cfg, w, c, order) ==>
            |RecordsOf(after.trail.log, "<nil>")| == |RecordsOf(w.trail.log, "<nil>")| + 1)
  {
    EffectOnTrail(cfg, w, c, order);
    UnreadWriteGoesToNil(cfg, w, c, order);
    if !c.op.Delete? { RecordedOnce(cfg, AfterRead(w, c), WriteOf(cfg, w, c), order, NIL_ID); }
  }

  // ---------------------------------------------------------------------
  // What calls do to documents, and when they go unaudited
  // ---------------------------------------------------------------------

  /** A call the server carries out changes its own document and no other: an insert
      stores it, an update leaves what the server makes of it, a replacement leaves
      the new document under the old `_id`, a delete removes it. */
  lemma MutationHappens(cfg: Config, w: World, c: Call, order: seq<string>)
    requires Matches(w, c) && !c.serverFails && !IsRefused(cfg, c)
    ensures var (docs, met) := (Effect(cfg, w, c, order).0.docs, Met(w, c));
      && (c.raced.None? ==> met == w.docs) && (c.raced.Some? ==> met == c.raced.value)
      && docs - {c.op.id} == met - {c.op.id}
      && match c.op
         case Insert(id, doc) => id in docs && docs[id] == doc
         case Update(id, _, result) => id in docs && docs[id] == result
         case Delete(id) => id !in docs
         case Replace(id, doc) =>
           && id in docs && docs[id] - {"_id"} == doc - {"_id"}
           && ("_id" in met[id] ==> Lookup(docs[id], "_id") == Lookup(met[id], "_id"))
  {
  }

  /** Calls that end before their audit leave the trail as it is, except for a failed
      pre-read being reported: one refused for that, one the server fails, and one
      that matches nothing, even if an upsert then stores a document. */
  lemma CallsWithoutAudit(cfg: Config, w: World, c: Call, order: seq<string>)
    ensures var ((after, err), met) := (Effect(cfg, w, c, order), if c.raced.Some? then c.raced.value else w.docs);
      var trail := if !c.op.Insert? && c.readFails then Reported(w.trail, ReadFailed) else w.trail;
      var refused := !c.op.Insert? && c.readFails && cfg.failOnAuditError;
      && (refused ==> after == World(w.docs, trail) && err == Some(ReadError))
      && (!refused && (c.serverFails || (c.op.Insert? && c.op.id in met)) ==>
            after == World(met, trail) && err == Some(ServerError))
      && (!refused && !c.serverFails && !c.op.Insert? && c.op.id !in met ==>
            && after.trail == trail && err == None
            && after.docs == match c.op
                             case Update(id, _, result) => if c.upsert then met[id := result] else met
                             case Replace(id, doc) => if c.upsert then met[id := doc] else met
                             case _ => met)
  {
  }

  /** Calls of a kind the collection does not audit leave no trace, and neither do
      deletes whose document was not read or is empty. */
  lemma SkippedAudits(cfg: Config, w: World, c: Call, order: seq<string>)
    ensures !IsEnabled(cfg, c.op) ==> Effect(cfg, w, c, order).0.trail == AfterRead(w, c)
    ensures c.op.Delete? && (c.readFails || c.op.id !in w.docs || w.docs[c.op.id] == map[]) ==>
      Effect(cfg, w, c, order).0.trail == AfterRead(w, c)
  {
    EffectOnTrail(cfg, w, c, order);
  }

  /** What the change computer and the deferral handler are told of a call: its kind,
      the document as it was read and as it is to be, the update, the policy, and
      whose record it will be. */
  lemma WhatCallsAsk(cfg: Config, w: World, c: Call)
    ensures var (write, read) := (WriteOf(cfg, w, c), !c.readFails && c.op.id in w.docs);
      var req := write.req;
      && req.policy == c.policy && req.collection == cfg.collection && req.documentID == write.id
      && write.id == (if c.op.Insert? || read then c.op.id else "<nil>")
      && match c.op
         case Insert(_, doc) => req.mode == CreateMode && req.before == None && req.after == Some(doc) && req.update == NoUpdate
         case Update(_, update, _) =>
           req.mode == OperatorMode && req.before == None && req.after == None && req.update == update
         case Delete(id) =>
           && req.mode == DeleteMode && req.after == None && req.update == NoUpdate
           && req.before == if read then Some(w.docs[id]) else None
         case Replace(id, doc) =>
           && req.mode == ReplaceMode && req.update == NoUpdate
           && req.before == (if read then Some(w.docs[id]) else None)
           && (req.after == None <==> c.env.unconvertible)
           && (req.after.Some? ==>
                 && req.after.value - {"_id"} == doc - {"_id"}
                 && Lookup(req.after.value, "_id") ==
                    (if read && "_id" in w.docs[id] then Some(w.docs[id]["_id"]) else Lookup(doc, "_id")))
  {
  }

  /** Audit errors come back to the caller exactly when they are to fail calls; they
      never undo what the server did. */
  lemma AuditErrorsReturnedIff(cfg: Config, w: World, c: Call, order: seq<string>)
    requires Matches(w, c) && !c.serverFails && !IsRefused(cfg, c)
    ensures var (after, err) := Effect(cfg, w, c, order);
      && after.docs == Mutated(Met(w, c), c.op)
      && (!cfg.failOnAuditError ==> err == None)
      && (cfg.failOnAuditError ==>
            (err.Some? <==> IsWritten(cfg, w, c) && Written(cfg, AfterRead(w, c), WriteOf(cfg, w, c), order).1.Some?))
      && (err.Some? ==> Written(cfg, AfterRead(w, c), WriteOf(cfg, w, c), order).1 == Some(err.value.error))
  {
    EffectOnTrail(cfg, w, c, order);
  }

  /** A replacement that cannot be converted, though the server took it, is recorded
      as if every field of the old document had been removed. */
  lemma UnconvertibleReplacement(cfg: Config, w: World, c: Call, order: seq<string>)
    requires c.op.Replace? && !c.readFails && c.op.id in w.docs && c.env.unconvertible
    ensures ChangesOf(WriteOf(cfg, w, c).req, order) == Ok(Deletion(w.docs[c.op.id], c.policy))
  {
    InsertAndDeleteAreDiffs(w.docs[c.op.id], c.policy);
  }

  // ---------------------------------------------------------------------
  // What batches record
  // ---------------------------------------------------------------------

  /** Each write of a batch is the one that the call on its document alone makes. */
  lemma BatchesWriteLikeCalls(cfg: Config, w: World, policy: FieldPolicy, envs: seq<Env>, i: nat)
    ensures forall ids: seq<string>, update: ChangeBuilders.Update, result |
        i < |ids| == |envs| && ids[i] in w.docs ::
      UpdateWrites(cfg, ids, update, policy, envs)[i] ==
      WriteOf(cfg, w, Call(Update(ids[i], update, result), policy, false, None, false, false, envs[i]))
    ensures forall found: seq<(string, Document)> |
        i < |found| == |envs| && found[i].0 in w.docs && w.docs[found[i].0] == found[i].1 ::
      DeleteWrites(cfg, found, policy, envs)[i] ==
      WriteOf(cfg, w, Call(Delete(found[i].0), policy, false, None, false, false, envs[i]))
    ensures forall inserted: seq<Inserted> | i < |inserted| == |envs| ::
      InsertWrites(cfg, inserted, envs)[i] ==
      WriteOf(cfg, w, Call(Insert(inserted[i].id, inserted[i].doc), inserted[i].policy, false, None, false, false, envs[i]))
  {
  }

  lemma FaultlessWrite(cfg: Config, s: Trail, w: Write, order: seq<string>)
    requires NothingFails(cfg, w, order) && !w.env.callbackPanics
    ensures Written(cfg, s, w, order).1 == None
  {
    if !IsNoOp(w, Computed(cfg, w, order).value) { WriteFaults(cfg, s, w, order); }
  }

  /** A batch in which nothing fails attempts every document and returns no error. */
  lemma FaultlessBatch(cfg: Config, s: Trail, writes: seq<Write>, orders: seq<seq<string>>)
    requires |orders| == |writes| && DistinctEntities(writes)
    requires forall i :: 0 <= i < |writes| ==> NothingFails(cfg, writes[i], orders[i]) && !writes[i].env.callbackPanics
    ensures var (_, err, done) := Loop(WritePass(cfg, writes, orders), s, |writes|, cfg.failOnAuditError);
      err == None && done == |writes|
  {
    var pass := WritePass(cfg, writes, orders);
    AttemptedWrites(cfg, s, writes, orders, |writes|);
    forall i: nat | i < |writes|
      ensures ErrorAt(pass, s, i) == None
    {
      FaultlessWrite(cfg, s, writes[i], orders[i]);
    }
    QuietLoop(pass, s, |writes|, cfg.failOnAuditError);
  }

  /** The record a faultless write leaves, if it leaves one. */
  lemma OneRecord(cfg: Config, s: Trail, after: Trail, w: Write, order: seq<string>)
    requires NothingFails(cfg, w, order) && WrittenAlone(cfg, s, after, w, order)
    ensures var changes := ChangesOf(w.req, order).value;
      if w.action == ActionUpdate && changes == map[] then RecordsOf(after.log, w.id) == RecordsOf(s.log, w.id)
      else exists v: nat ::
        RecordsOf(after.log, w.id) == RecordsOf(s.log, w.id) + [AuditRecord(w.id, w.action, changes, "", Inline, v)]
  {
    OrdinaryWrite(cfg, s, w, order);
    var changes := ChangesOf(w.req, order).value;
    if !(w.action == ActionUpdate && changes == map[]) {
      var v: nat :| Written(cfg, s, w, order).0.log == s.log + [AuditRecord(w.id, w.action, changes, "", Inline, v)];
      AppendedRecords(s.log, [AuditRecord(w.id, w.action, changes, "", Inline, v)], w.id);
    }
  }

  /** The trail the audit loop leaves. */
  function LoopEnd(cfg: Config, s: Trail, writes: seq<Write>, orders: seq<seq<string>>): Trail {
    Loop(WritePass(cfg, writes, orders), s, |writes|, cfg.failOnAuditError).0
  }

  /** The audit loop attempts the i-th write, which meets no fault. */
  ghost predicate AttemptedFaultlessly(cfg: Config, s: Trail, writes: seq<Write>, orders: seq<seq<string>>, i: nat) {
    var done := Loop(WritePass(cfg, writes, orders), s, |writes|, cfg.failOnAuditError).2;
    && DistinctEntities(writes) && i < done <= |orders| && i < |writes|
    && NothingFails(cfg, writes[i], orders[i])
  }

  lemma BatchRecord(cfg: Config, s: Trail, writes: seq<Write>, orders: seq<seq<string>>, i: nat)
    requires AttemptedFaultlessly(cfg, s, writes, orders, i)
    ensures var (w, end) := (writes[i], LoopEnd(cfg, s, writes, orders));
      var changes := ChangesOf(w.req, orders[i]).value;
      if w.action == ActionUpdate && changes == map[] then RecordsOf(end.log, w.id) == RecordsOf(s.log, w.id)
      else exists v: nat ::
        RecordsOf(end.log, w.id) == RecordsOf(s.log, w.id) + [AuditRecord(w.id, w.action, changes, "", Inline, v)]
  {
    LoopOutcome(cfg, s, writes, orders, cfg.failOnAuditError);
    assert WrittenAlone(cfg, s, LoopEnd(cfg, s, writes, orders), writes[i], orders[i]);
    OneRecord(cfg, s, LoopEnd(cfg, s, writes, orders), writes[i], orders[i]);
  }

  lemma ARecordStep(cfg: Config, s: Trail, end: Trail, id: string, action: Action, p: FieldPolicy, before: Document,
                    after: Document, changes: Changes, v: nat)
    requires RecordsOf(end.log, id) == RecordsOf(s.log, id) + [AuditRecord(id, action, changes, "", Inline, v)]
    requires Forward(Project(before, p), changes, p) == Project(after, p)
    ensures RecordsStep(cfg, s, end, id, action, p, before, after)
  {
    var r := AuditRecord(id, action, changes, "", Inline, v);
    assert RecordsOf(end.log, id) == RecordsOf(s.log, id) + [r];
  }

  /** The batch leaves the entity one more record, of the given action, whose visible
      entries take the projection of `before` to that of `after`. */
  ghost predicate RecordsStep(cfg: Config, s: Trail, end: Trail, id: string, action: Action, p: FieldPolicy,
                              before: Document, after: Document) {
    exists r: AuditRecord ::
      && RecordsOf(end.log, id) == RecordsOf(s.log, id) + [r]
      && r.id == id && r.action == action && r.status == Inline
      && Forward(Project(before, p), r.changes, p) == Project(after, p)
  }

  /** UpdateMany with nothing failing: each document whose audit was attempted has one
      more record, which patches it as the server did, whatever document it was; or
      it has none, if the policy hides every field the update sets or unsets. */
  lemma UpdateManyRecords(cfg: Config, s: Trail, ids: seq<string>, update: ChangeBuilders.Update, p: FieldPolicy,
                          envs: seq<Env>, orders: seq<seq<string>>, i: nat, doc: Document)
    requires |envs| == |ids| && AttemptedFaultlessly(cfg, s, UpdateWrites(cfg, ids, update, p, envs), orders, i)
    requires PlainUpdate(OpsOf(update), p) && IsOrder(orders[i], OpsOf(update).Keys)
    ensures var end := LoopEnd(cfg, s, UpdateWrites(cfg, ids, update, p, envs), orders);
      if forall op, k :: !Touches(OpsOf(update), p, op, k) then RecordsOf(end.log, ids[i]) == RecordsOf(s.log, ids[i])
      else RecordsStep(cfg, s, end, ids[i], ActionUpdate, p, doc, ApplyOps(doc, OpsOf(update)))
  {
    var writes := UpdateWrites(cfg, ids, update, p, envs);
    var end, changes := LoopEnd(cfg, s, writes, orders), Extraction(orders[i], OpsOf(update), p);
    BatchRecord(cfg, s, writes, orders, i);
    assert ChangesOf(writes[i].req, orders[i]).value == changes;
    NoChangesIff(OpsOf(update), orders[i], p);
    if changes != map[] {
      OperatorsPatch(doc, OpsOf(update), orders[i], p);
      var v: nat :| RecordsOf(end.log, ids[i]) ==
                    RecordsOf(s.log, ids[i]) + [AuditRecord(ids[i], ActionUpdate, changes, "", Inline, v)];
      ARecordStep(cfg, s, end, ids[i], ActionUpdate, p, doc, ApplyOps(doc, OpsOf(update)), changes, v);
    }
  }

  lemma NoChangesIff(ops: map<string, OperatorArg>, order: seq<string>, p: FieldPolicy)
    requires IsOrder(order, ops.Keys)
    ensures Extraction(order, ops, p) == map[] <==> forall op, k :: !Touches(ops, p, op, k)
  {
    var changes := Extraction(order, ops, p);
    if changes == map[] {
      forall op, k
        ensures !Touches(ops, p, op, k)
      {
        ExtractionAt(order, ops, p, k);
        assert k !in changes;
      }
    } else {
      var k :| k in changes;
      ExtractionAt(order, ops, p, k);
    }
  }

  /** DeleteMany with nothing failing: each document whose audit was attempted has one
      more record, which shows all that was visible of it as removed. */
  lemma DeleteManyRecords(cfg: Config, s: Trail, found: seq<(string, Document)>, p: FieldPolicy, envs: seq<Env>,
                          orders: seq<seq<string>>, i: nat)
    requires |envs| == |found| && AttemptedFaultlessly(cfg, s, DeleteWrites(cfg, found, p, envs), orders, i)
    ensures var end := LoopEnd(cfg, s, DeleteWrites(cfg, found, p, envs), orders);
      RecordsStep(cfg, s, end, found[i].0, ActionDelete, p, found[i].1, map[])
  {
    var (id, doc) := found[i];
    var end := LoopEnd(cfg, s, DeleteWrites(cfg, found, p, envs), orders);
    BatchRecord(cfg, s, DeleteWrites(cfg, found, p, envs), orders, i);
    InsertAndDeleteAreDiffs(doc, p);
    ForwardPatchIff(doc, map[], p);
    var v: nat :| RecordsOf(end.log, id) ==
                  RecordsOf(s.log, id) + [AuditRecord(id, ActionDelete, Deletion(doc, p), "", Inline, v)];
    ARecordStep(cfg, s, end, id, ActionDelete, p, doc, map[], Deletion(doc, p), v);
  }

  /** InsertMany with nothing failing: each document whose audit was attempted has one
      more record, which builds all that is visible of it. */
  lemma InsertManyRecords(cfg: Config, s: Trail, inserted: seq<Inserted>, envs: seq<Env>, orders: seq<seq<string>>, i: nat)
    requires |envs| == |inserted| && AttemptedFaultlessly(cfg, s, InsertWrites(cfg, inserted, envs), orders, i)
    requires NilFree(inserted[i].doc, inserted[i].policy)
    ensures var end := LoopEnd(cfg, s, InsertWrites(cfg, inserted, envs), orders);
      RecordsStep(cfg, s, end, inserted[i].id, ActionCreate, inserted[i].policy, map[], inserted[i].doc)
  {
    var Inserted(id, doc, p) := inserted[i];
    var end := LoopEnd(cfg, s, InsertWrites(cfg, inserted, envs), orders);
    BatchRecord(cfg, s, InsertWrites(cfg, inserted, envs), orders, i);
    InsertAndDeleteAreDiffs(doc, p);
    ForwardPatchIff(map[], doc, p);
    var v: nat :| RecordsOf(end.log, id) ==
                  RecordsOf(s.log, id) + [AuditRecord(id, ActionCreate, Creation(doc, p), "", Inline, v)];
    ARecordStep(cfg, s, end, id, ActionCreate, p, map[], doc, Creation(doc, p), v);
  }

  lemma ReplayedNext(log: seq<AuditRecord>, r: AuditRecord, id: string, p: FieldPolicy)
    ensures Replayed(log + [r], id, p) ==
      if r.id != id then Replayed(log, id, p)
      else match r.action
        case ActionCreate => Some(Forward(map[], r.changes, p))
        case ActionUpdate => Some(Forward(DocOf(Replayed(log, id, p)), r.changes, p))
        case ActionDelete => None
  {
    assert (log + [r])[..|log|] == log;
  }

  lemma PlainEntries(ops: map<string, OperatorArg>, order: seq<string>, p: FieldPolicy, k: string)
    requires PlainUpdate(ops, p) && IsOrder(order, ops.Keys) && Clear(p, k)
    ensures var changes, set', unset := Extraction(order, ops, p), FieldsUnder(ops, "$set"), FieldsUnder(ops, "$unset");
      && (k in changes <==> k in set' || k in unset)
      && (k in set' ==> changes[k] == Change(Null, set'[k]))
      && (k in unset ==> changes[k] == Change(Null, Null))
  {
    ExtractionAt(order, ops, p, k);
    assert Touches(ops, p, "$set", k) <==> k in FieldsUnder(ops, "$set");
    assert Touches(ops, p, "$unset", k) <==> k in FieldsUnder(ops, "$unset");
  }

  /** Patching with extracted operators does what the server did. */
  lemma OperatorsPatch(doc: Document, ops: map<string, OperatorArg>, order: seq<string>, p: FieldPolicy)
    requires PlainUpdate(ops, p) && IsOrder(order, ops.Keys)
    ensures Forward(Project(doc, p), Extraction(order, ops, p), p) == Project(ApplyOps(doc, ops), p)
  {
    var patched := Forward(Project(doc, p), Extraction(order, ops, p), p);
    var projected := Project(ApplyOps(doc, ops), p);
    forall k
      ensures k in patched <==> k in projected
      ensures k in patched ==> patched[k] == projected[k]
    {
      if Clear(p, k) { PlainEntries(ops, order, p, k); }
    }
  }

  /** The change map of an ordinary call takes the projection of the document it
      found to that of the document it left. */
  lemma ChangesFollowDocument(cfg: Config, p: FieldPolicy, w: World, c: Call, order: seq<string>)
    requires Mirrors(w, p) && Ordinary(cfg, p, w, c, order) && Matches(w, c)
    ensures var changes := ChangesOf(WriteOf(cfg, w, c).req, order).value;
      match c.op
      case Insert(_, doc) => Forward(map[], changes, p) == Project(doc, p)
      case Delete(_) => true
      case _ => Forward(Project(w.docs[c.op.id], p), changes, p) == Project(Mutated(w.docs, c.op)[c.op.id], p)
  {
    match c.op {
      case Insert(_, doc) =>
        InsertAndDeleteAreDiffs(doc, p);
        ForwardPatchIff(map[], doc, p);
        assert Project(map[], p) == map[];
      case Replace(id, doc) =>
        ForwardPatchIff(w.docs[id], Replacement(Some(w.docs[id]), doc), p);
      case Update(id, update, _) => OperatorsPatch(w.docs[id], OpsOf(update), order, p);
      case Delete(_) =>
    }
  }

  /** One ordinary call keeps the trail a mirror of the collection. */
  lemma CallKeepsMirror(cfg: Config, p: FieldPolicy, w: World, c: Call, order: seq<string>)
    requires cfg.ops.None? && Mirrors(w, p) && Ordinary(cfg, p, w, c, order)
    ensures Mirrors(Effect(cfg, w, c, order).0, p)
  {
    var after := Effect(cfg, w, c, order).0;
    if Matches(w, c) && !c.serverFails {
      DocumentsStayGood(cfg, p, w, c, order);
      forall id
        ensures Replayed(after.trail.log, id, p) == Live(after, id, p)
      {
        CallReplays(cfg, p, w, c, order, id);
      }
    }
  }

  lemma DocumentsStayGood(cfg: Config, p: FieldPolicy, w: World, c: Call, order: seq<string>)
    requires Mirrors(w, p) && Ordinary(cfg, p, w, c, order) && Matches(w, c)
    ensures var docs := Mutated(w.docs, c.op);
      forall id | id in docs :: ID_FIELD in docs[id] && NilFree(docs[id], p)
  {
    if c.op.Update? {
      var ops := OpsOf(c.op.update);
      assert ID_FIELD in ApplyOps(w.docs[c.op.id], ops);
    }
  }

  lemma CallReplays(cfg: Config, p: FieldPolicy, w: World, c: Call, order: seq<string>, id: string)
    requires cfg.ops.None? && Mirrors(w, p) && Ordinary(cfg, p, w, c, order)
    requires Matches(w, c) && !c.serverFails
    ensures var after := Effect(cfg, w, c, order).0;
      Replayed(after.trail.log, id, p) == Live(after, id, p)
  {
    var write := WriteOf(cfg, w, c);
    var changes := ChangesOf(write.req, order).value;
    var after := Effect(cfg, w, c, order).0;
    assert after.docs == Mutated(w.docs, c.op) && after.trail == Written(cfg, w.trail, write, order).0;
    OrdinaryWrite(cfg, w.trail, write, order);
    ChangesFollowDocument(cfg, p, w, c, order);
    assert Replayed(w.trail.log, id, p) == Live(w, id, p);
    if write.action == ActionUpdate && changes == map[] {
      if id == c.op.id {
        NothingPatched(Project(w.docs[id], p), p);
      }
    } else {
      var v: nat :| after.trail.log == w.trail.log + [AuditRecord(write.id, write.action, changes, "", Inline, v)];
      ReplayedNext(w.trail.log, AuditRecord(write.id, write.action, changes, "", Inline, v), id, p);
    }
  }

  lemma NothingPatched(doc: Document, p: FieldPolicy)
    ensures Forward(doc, map[], p) == doc
  {
  }

  lemma {:induction false} EveryRunMirrors(cfg: Config, p: FieldPolicy, calls: seq<Call>, orders: seq<seq<string>>)
    requires |calls| == |orders| && cfg.ops.None? && OrdinaryRun(cfg, p, calls, orders)
    ensures Mirrors(WorldAfter(cfg, calls, orders), p)
  {
    if calls != [] {
      var n := |calls| - 1;
      EveryRunMirrors(cfg, p, calls[..n], orders[..n]);
      CallKeepsMirror(cfg, p, WorldAfter(cfg, calls[..n], orders[..n]), calls[n], orders[n]);
    }
  }

  /** After every ordinary run, folding an entity's records rebuilds exactly what
      the live document shows, and tells deleted entities from live ones. */
  lemma ReplayRebuildsDocuments(cfg: Config, p: FieldPolicy, calls: seq<Call>, orders: seq<seq<string>>, id: string)
    requires |calls| == |orders| && cfg.ops.None? && OrdinaryRun(cfg, p, calls, orders)
    ensures var w := WorldAfter(cfg, calls, orders);
      Replayed(w.trail.log, id, p) == if id in w.docs then Some(Project(w.docs[id], p)) else None
  {
    EveryRunMirrors(cfg, p, calls, orders);
  }

  lemma OldSide(cfg: Config, w: World, c: Call, order: seq<string>, k: string)
    requires !c.readFails && c.op.id in w.docs && (c.op.Replace? || c.op.Delete?) && Clear(c.policy, k)
    ensures var changes := ChangesOf(WriteOf(cfg, w, c).req, order).value;
      && (k in changes ==> changes[k].before == Shown(Project(w.docs[c.op.id], c.policy), k))
      && (c.op.Delete? ==> (k in changes <==> k in Project(w.docs[c.op.id], c.policy)))
  {
  }

  /** The old side of the next replacement's or deletion's entries is the state
      replayed so far, and a deletion shows all of it. */
  lemma OldSideIsReplayedState(cfg: Config, p: FieldPolicy, calls: seq<Call>, orders: seq<seq<string>>,
                               c: Call, order: seq<string>, k: string)
    requires |calls| == |orders| && cfg.ops.None? && OrdinaryRun(cfg, p, calls, orders)
    requires var w := WorldAfter(cfg, calls, orders);
      Ordinary(cfg, p, w, c, order) && Matches(w, c) && (c.op.Replace? || c.op.Delete?) && Clear(p, k)
    ensures var w := WorldAfter(cfg, calls, orders);
      var changes := ChangesOf(WriteOf(cfg, w, c).req, order).value;
      var replayed := Replayed(w.trail.log, c.op.id, p);
      && replayed.Some?
      && (k in changes ==> changes[k].before == Shown(replayed.value, k))
      && (c.op.Delete? ==> (k in changes <==> k in replayed.value))
  {
    ReplayRebuildsDocuments(cfg, p, calls, orders, c.op.id);
    OldSide(cfg, WorldAfter(cfg, calls, orders), c, order, k);
  }
}
