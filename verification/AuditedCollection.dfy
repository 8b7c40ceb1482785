/** The mutating methods of the MongoDB wrapper over a collection of documents:
    pre-read, mutation, audit, with filters that name one `_id`. */
module AuditedCollection {
  import opened Values
  import opened FieldPolicies
  import opened ChangeBuilders
  import opened DeferredRequests
  import opened VersionKeys
  import opened AuditTrail
  import opened AuditLaws

  datatype Failure = ServerError | ReadError | AuditFailed(error: Error)

  /** An update carries the document the server makes of the one it matches. */
  datatype Op =
    | Insert(id: string, doc: Document)
    | Update(id: string, update: ChangeBuilders.Update, result: Document)
    | Replace(id: string, doc: Document)
    | Delete(id: string)

  /** One call with everything that may go wrong around it: the pre-read can fail,
      other clients can leave other documents (`raced`) before the mutation, an
      update or replacement can insist on a document, and the server can fail. */
  datatype Call = Call(
    op: Op,
    policy: FieldPolicy,
    readFails: bool,
    raced: Option<map<string, Document>>,
    upsert: bool,
    serverFails: bool,
    env: Env)

  datatype World = World(docs: map<string, Document>, trail: Trail)

  /** fmt.Sprint(nil): the entity an unread document is attributed to. */
  const NIL_ID := "<nil>"

  function ActionOf(op: Op): Action {
    match op
    case Insert(_, _) => ActionCreate
    case Update(_, _, _) => ActionUpdate
    case Replace(_, _) => ActionUpdate
    case Delete(_) => ActionDelete
  }

  predicate Allows(cfg: Config, action: Action) {
    cfg.ops.None? || action in cfg.ops.value
  }

  /** A replacement keeps the `_id` of the document it replaces. */
  function Replacement(old': Option<Document>, doc: Document): Document {
    if old'.Some? && ID_FIELD in old'.value then doc[ID_FIELD := old'.value[ID_FIELD]] else doc
  }

  /** The new side of a replacement's diff: nil when the document does not convert,
      an error the library ignores here. */
  function NewSide(old': Option<Document>, doc: Document, env: Env): Option<Document> {
    if env.unconvertible then None else Some(Replacement(old', doc))
  }

  /** The document read before the mutation. */
  function PreRead(w: World, c: Call): Option<Document> {
    if c.readFails || c.op.id !in w.docs then None else Some(w.docs[c.op.id])
  }

  /** The documents the mutation meets. */
  function Met(w: World, c: Call): map<string, Document> {
    if c.raced.Some? then c.raced.value else w.docs
  }

  /** The collection after a mutation that matched nothing. */
  function Unmatched(docs: map<string, Document>, c: Call): map<string, Document> {
    match c.op
    case Update(id, _, result) => if c.upsert then docs[id := result] else docs
    case Replace(id, doc) => if c.upsert then docs[id := doc] else docs
    case _ => docs
  }

  /** The collection after a mutation that matched. */
  function Mutated(docs: map<string, Document>, op: Op): map<string, Document> {
    match op
    case Insert(id, doc) => docs[id := doc]
    case Update(id, _, result) => docs[id := result]
    case Replace(id, doc) => docs[id := Replacement(if id in docs then Some(docs[id]) else None, doc)]
    case Delete(id) => docs - {id}
  }

  /** The audit write a call makes once its mutation went through. */
  function WriteOf(cfg: Config, w: World, c: Call): Write {
    var before := PreRead(w, c);
    var id := if c.op.Insert? || before.Some? then c.op.id else NIL_ID;
    var req := match c.op
      case Insert(_, doc) => ChangeRequest(CreateMode, None, Some(doc), NoUpdate, c.policy, cfg.collection, id)
      case Update(_, update, _) => ChangeRequest(OperatorMode, None, None, update, c.policy, cfg.collection, id)
      case Replace(_, doc) =>
        ChangeRequest(ReplaceMode, before, NewSide(before, doc, c.env), NoUpdate, c.policy, cfg.collection, id)
      case Delete(_) => ChangeRequest(DeleteMode, before, None, NoUpdate, c.policy, cfg.collection, id);
    AuditTrail.Write(id, ActionOf(c.op), req, c.env)
  }

  /** The server applies the mutation: an insert needs a free `_id`, the others a
      document to match. */
  predicate Matches(w: World, c: Call) {
    if c.op.Insert? then c.op.id !in Met(w, c) else c.op.id in Met(w, c)
  }

  /** Deletes of documents that were not read, or are empty, go unaudited. */
  predicate IsAudited(cfg: Config, w: World, c: Call) {
    Allows(cfg, ActionOf(c.op)) && (c.op.Delete? ==> DocOf(PreRead(w, c)) != map[])
  }

  predicate ReadsFirst(op: Op) {
    !op.Insert?
  }

  /** The specification of one call. */
  function Effect(cfg: Config, w: World, c: Call, order: seq<string>): (World, Option<Failure>) {
    var readFailed := ReadsFirst(c.op) && c.readFails;
    var w1 := if readFailed then w.(trail := Reported(w.trail, ReadFailed)) else w;
    if readFailed && cfg.failOnAuditError then (w1, Some(ReadError))
    else if c.serverFails || (c.op.Insert? && !Matches(w, c)) then (w1.(docs := Met(w, c)), Some(ServerError))
    else if !Matches(w, c) then (w1.(docs := Unmatched(Met(w, c), c)), None)
    else
      var w2 := w1.(docs := Mutated(Met(w, c), c.op));
      if !IsAudited(cfg, w, c) then (w2, None)
      else
        var (trail, err) := Written(cfg, w2.trail, WriteOf(cfg, w, c), order);
        (w2.(trail := trail), if err.Some? && cfg.failOnAuditError then Some(AuditFailed(err.value)) else None)
  }

  /** The audit loop took the trail from `start` to `end`, with `orders` the
      iteration orders of the writes it attempted. */
  ghost predicate BatchDone(cfg: Config, start: Trail, writes: seq<Write>, orders: seq<seq<string>>,
                            end: Trail, err: Option<Failure>) {
    var (trail, failure, done) := Loop(WritePass(cfg, writes, orders), start, |writes|, cfg.failOnAuditError);
    && end == trail && done == |orders|
    && err == if failure.Some? then Some(AuditFailed(failure.value)) else None
  }

  ghost predicate BatchRunning(cfg: Config, start: Trail, writes: seq<Write>, orders: seq<seq<string>>, now: Trail) {
    && |orders| <= |writes|
    && Loop(WritePass(cfg, writes, orders), start, |orders|, cfg.failOnAuditError) == (now, None, |orders|)
  }

  lemma BatchStep(cfg: Config, start: Trail, writes: seq<Write>, orders: seq<seq<string>>, now: Trail,
                  order: seq<string>, after: Trail, failure: Option<Error>)
    requires |orders| < |writes| && BatchRunning(cfg, start, writes, orders, now)
    requires (after, failure) == Written(cfg, now, writes[|orders|], order)
    ensures if failure.Some? && cfg.failOnAuditError
            then BatchDone(cfg, start, writes, orders + [order], after, Some(AuditFailed(failure.value)))
            else BatchRunning(cfg, start, writes, orders + [order], after)
  {
    var n, pass := |orders| + 1, WritePass(cfg, writes, orders + [order]);
    LoopNext(cfg, writes, orders, order, start, now, after, failure, cfg.failOnAuditError);
    if failure.Some? && cfg.failOnAuditError {
      LoopStays(pass, start, n, |writes|, cfg.failOnAuditError);
      assert Loop(pass, start, |writes|, cfg.failOnAuditError) == (after, failure, n);
    }
  }

  /** UpdateMany records the same operators for every id it read. */
  function UpdateWrites(cfg: Config, ids: seq<string>, update: ChangeBuilders.Update, policy: FieldPolicy, envs: seq<Env>)
    : (writes: seq<Write>)
    requires |envs| == |ids|
    ensures |writes| == |ids| && forall i :: 0 <= i < |ids| ==> writes[i].id == ids[i]
  {
    seq(|ids|, i requires 0 <= i < |ids| =>
      AuditTrail.Write(ids[i], ActionUpdate,
        ChangeRequest(OperatorMode, None, None, update, policy, cfg.collection, ids[i]), envs[i]))
  }

  function DeleteWrites(cfg: Config, found: seq<(string, Document)>, policy: FieldPolicy, envs: seq<Env>)
    : (writes: seq<Write>)
    requires |envs| == |found|
    ensures |writes| == |found| && forall i :: 0 <= i < |found| ==> writes[i].id == found[i].0
  {
    seq(|found|, i requires 0 <= i < |found| =>
      AuditTrail.Write(found[i].0, ActionDelete,
        ChangeRequest(DeleteMode, Some(found[i].1), None, NoUpdate, policy, cfg.collection, found[i].0), envs[i]))
  }

  /** A document of a batch insert with the policy its tags give. */
  datatype Inserted = Inserted(id: string, doc: Document, policy: FieldPolicy)

  function InsertWrites(cfg: Config, inserted: seq<Inserted>, envs: seq<Env>): (writes: seq<Write>)
    requires |envs| == |inserted|
    ensures |writes| == |inserted| && forall i :: 0 <= i < |inserted| ==> writes[i].id == inserted[i].id
  {
    seq(|inserted|, i requires 0 <= i < |inserted| =>
      AuditTrail.Write(inserted[i].id, ActionCreate,
        ChangeRequest(CreateMode, None, Some(inserted[i].doc), NoUpdate, inserted[i].policy, cfg.collection,
                      inserted[i].id), envs[i]))
  }

  /** What can happen to an audited collection: a call on one document, a batch
      that got as far as its audit loop, a pre-read that failed for a batch, or
      other clients changing documents and allocating versions of one entity. */
  datatype Event =
    | Single(call: Call, order: seq<string>)
    | Batch(writes: seq<Write>, orders: seq<seq<string>>, docs: map<string, Document>)
    | Unread(docs: map<string, Document>)
    | Others(docs: map<string, Document>, key: Key, versions: nat)

  function Raised(counters: map<Key, nat>, key: Key, n: nat): map<Key, nat> {
    if n == 0 then counters else counters[key := (if key in counters then counters[key] else 0) + n]
  }

  function Happened(cfg: Config, w: World, e: Event): World {
    match e
    case Single(c, order) => Effect(cfg, w, c, order).0
    case Batch(writes, orders, docs) =>
      World(docs, Loop(WritePass(cfg, writes, orders), w.trail, |writes|, cfg.failOnAuditError).0)
    case Unread(docs) => World(docs, Reported(w.trail, ReadFailed))
    case Others(docs, key, n) => World(docs, w.trail.(counters := Raised(w.trail.counters, key, n)))
  }

  /** A batch only gets to its audit loop for an allowed action. */
  predicate Permitted(cfg: Config, e: Event) {
    e.Batch? ==> forall w | w in e.writes :: Allows(cfg, w.action)
  }

  /** The states are one event apart. */
  ghost predicate IsEvent(cfg: Config, before: World, after: World) {
    exists e :: Permitted(cfg, e) && after == Happened(cfg, before, e)
  }

  lemma BatchIsEvent(cfg: Config, before: World, writes: seq<Write>, orders: seq<seq<string>>, after: World,
                     err: Option<Failure>)
    requires BatchDone(cfg, before.trail, writes, orders, after.trail, err)
    requires forall w | w in writes :: Allows(cfg, w.action)
    ensures IsEvent(cfg, before, after)
  {
    assert Permitted(cfg, Batch(writes, orders, after.docs));
    assert after == Happened(cfg, before, Batch(writes, orders, after.docs));
  }

  lemma QuietBatchIsEvent(cfg: Config, before: World, docs: map<string, Document>)
    ensures IsEvent(cfg, before, World(docs, before.trail))
    ensures IsEvent(cfg, before, World(docs, Reported(before.trail, ReadFailed)))
  {
    assert Permitted(cfg, Batch([], [], docs)) && Permitted(cfg, Unread(docs));
    assert World(docs, before.trail) == Happened(cfg, before, Batch([], [], docs));
    assert World(docs, Reported(before.trail, ReadFailed)) == Happened(cfg, before, Unread(docs));
  }

  class Collection {
    const writer: AuditWriter
    var docs: map<string, Document>

    constructor (cfg: Config)
      ensures fresh(writer) && writer.cfg == cfg
      ensures State() == World(map[], Trail(map[], [], [], []))
    {
      writer := new AuditWriter(cfg);
      docs := map[];
    }

    function State(): World
      reads this, writer
    {
      World(docs, writer.State())
    }

    /** The tail every method shares. */
    method Audit(w: Write) returns (err: Option<Failure>, ghost order: seq<string>)
      modifies writer
      ensures var (trail, failure) := Written(writer.cfg, old(writer.State()), w, order);
        && writer.State() == trail
        && err == if failure.Some? && writer.cfg.failOnAuditError then Some(AuditFailed(failure.value)) else None
    {
      var failure;
      failure, order := writer.WriteAudit(w);
      if failure.Some? && writer.cfg.failOnAuditError {
        return Some(AuditFailed(failure.value)), order;
      }
      return None, order;
    }

    method InsertOne(id: string, doc: Document, policy: FieldPolicy, serverFails: bool, env: Env)
      returns (err: Option<Failure>, ghost order: seq<string>)
      modifies this, writer
      ensures (State(), err) ==
        Effect(writer.cfg, old(State()), Call(Insert(id, doc), policy, false, None, false, serverFails, env), order)
    {
      order := [];
      if serverFails || id in docs { return Some(ServerError), order; }
      docs := docs[id := doc];
      if !Allows(writer.cfg, ActionCreate) { return None, order; }
      var req := ChangeRequest(CreateMode, None, Some(doc), NoUpdate, policy, writer.cfg.collection, id);
      err, order := Audit(AuditTrail.Write(id, ActionCreate, req, env));
    }

    method UpdateOne(id: string, update: ChangeBuilders.Update, result: Document, policy: FieldPolicy, readFails: bool,
                     raced: Option<map<string, Document>>, upsert: bool, serverFails: bool, env: Env)
      returns (err: Option<Failure>, ghost order: seq<string>)
      modifies this, writer
      ensures (State(), err) ==
        Effect(writer.cfg, old(State()), Call(Update(id, update, result), policy, readFails, raced, upsert, serverFails, env), order)
    {
      order := [];
      var found := !readFails && id in docs;
      if readFails {
        writer.reported := writer.reported + [ReadFailed];
        if writer.cfg.failOnAuditError { return Some(ReadError), order; }
      }
      if raced.Some? { docs := raced.value; }
      if serverFails { return Some(ServerError), order; }
      if id !in docs {
        if upsert { docs := docs[id := result]; }
        return None, order;
      }
      docs := docs[id := result];
      if !Allows(writer.cfg, ActionUpdate) { return None, order; }
      var auditID := if found then id else NIL_ID;
      var req := ChangeRequest(OperatorMode, None, None, update, policy, writer.cfg.collection, auditID);
      err, order := Audit(AuditTrail.Write(auditID, ActionUpdate, req, env));
    }

    method ReplaceOne(id: string, doc: Document, policy: FieldPolicy, readFails: bool,
                      raced: Option<map<string, Document>>, upsert: bool, serverFails: bool, env: Env)
      returns (err: Option<Failure>, ghost order: seq<string>)
      modifies this, writer
      ensures (State(), err) ==
        Effect(writer.cfg, old(State()), Call(Replace(id, doc), policy, readFails, raced, upsert, serverFails, env), order)
    {
      order := [];
      var oldDoc: Option<Document> := if !readFails && id in docs then Some(docs[id]) else None;
      if readFails {
        writer.reported := writer.reported + [ReadFailed];
        if writer.cfg.failOnAuditError { return Some(ReadError), order; }
      }
      if raced.Some? { docs := raced.value; }
      if serverFails { return Some(ServerError), order; }
      if id !in docs {
        if upsert { docs := docs[id := doc]; }
        return None, order;
      }
      docs := docs[id := Replacement(Some(docs[id]), doc)];
      if !Allows(writer.cfg, ActionUpdate) { return None, order; }
      var newDoc := if env.unconvertible then None else Some(doc);
      if oldDoc.Some? && ID_FIELD in oldDoc.value && newDoc.Some? {
        newDoc := Some(newDoc.value[ID_FIELD := oldDoc.value[ID_FIELD]]);
      }
      var auditID := if oldDoc.Some? then id else NIL_ID;
      var req := ChangeRequest(ReplaceMode, oldDoc, newDoc, NoUpdate, policy, writer.cfg.collection, auditID);
      err, order := Audit(AuditTrail.Write(auditID, ActionUpdate, req, env));
    }

    method DeleteOne(id: string, policy: FieldPolicy, readFails: bool, raced: Option<map<string, Document>>,
                     serverFails: bool, env: Env)
      returns (err: Option<Failure>, ghost order: seq<string>)
      modifies this, writer
      ensures (State(), err) ==
        Effect(writer.cfg, old(State()), Call(Delete(id), policy, readFails, raced, false, serverFails, env), order)
    {
      order := [];
      var oldDoc: Option<Document> := if !readFails && id in docs then Some(docs[id]) else None;
      if readFails {
        writer.reported := writer.reported + [ReadFailed];
        if writer.cfg.failOnAuditError { return Some(ReadError), order; }
      }
      if raced.Some? { docs := raced.value; }
      if serverFails { return Some(ServerError), order; }
      if id !in docs { return None, order; }
      docs := docs - {id};
      if !Allows(writer.cfg, ActionDelete) { return None, order; }
      if oldDoc.Some? && |oldDoc.value| > 0 {
        var req := ChangeRequest(DeleteMode, oldDoc, None, NoUpdate, policy, writer.cfg.collection, id);
        err, order := Audit(AuditTrail.Write(id, ActionDelete, req, env));
      } else {
        err := None;
      }
    }

    /** The audit loop of the batch methods. */
    method AuditEach(writes: seq<Write>) returns (err: Option<Failure>, ghost orders: seq<seq<string>>)
      modifies writer
      ensures BatchDone(writer.cfg, old(writer.State()), writes, orders, writer.State(), err)
    {
      orders := [];
      ghost var cfg, start := writer.cfg, writer.State();
      for i := 0 to |writes|
        invariant |orders| == i && BatchRunning(cfg, start, writes, orders, writer.State())
      {
        ghost var now, order := writer.State(), [];
        var failure;
        failure, order := writer.WriteAudit(writes[i]);
        BatchStep(cfg, start, writes, orders, now, order, writer.State(), failure);
        orders := orders + [order];
        if failure.Some? && writer.cfg.failOnAuditError {
          return Some(AuditFailed(failure.value)), orders;
        }
      }
      return None, orders;
    }

    /** A failing server may have stored some of the documents (`result` is the
        collection it leaves); nothing is audited then. */
    method InsertMany(inserted: seq<Inserted>, result: map<string, Document>, serverFails: bool, envs: seq<Env>)
      returns (err: Option<Failure>, ghost orders: seq<seq<string>>)
      requires |envs| == |inserted|
      modifies this, writer
      ensures docs == result && IsEvent(writer.cfg, old(State()), State())
      ensures serverFails ==> err == Some(ServerError) && writer.State() == old(writer.State())
      ensures !serverFails && !Allows(writer.cfg, ActionCreate) ==> err == None && writer.State() == old(writer.State())
      ensures !serverFails && Allows(writer.cfg, ActionCreate) ==>
        BatchDone(writer.cfg, old(writer.State()), InsertWrites(writer.cfg, inserted, envs), orders, writer.State(), err)
    {
      orders := [];
      docs := result;
      QuietBatchIsEvent(writer.cfg, old(State()), result);
      if serverFails { return Some(ServerError), orders; }
      if !Allows(writer.cfg, ActionCreate) { return None, orders; }
      err, orders := AuditEach(InsertWrites(writer.cfg, inserted, envs));
      BatchIsEvent(writer.cfg, old(State()), InsertWrites(writer.cfg, inserted, envs), orders, State(), err);
    }

    /** `found` are the ids of the pre-read (None when it failed), `result` the
        collection as the server leaves it; a failing one may have changed some of
        the documents, and nothing is audited then. */
    method UpdateMany(found: Option<seq<string>>, update: ChangeBuilders.Update, result: map<string, Document>,
                      matched: nat, policy: FieldPolicy, serverFails: bool, envs: seq<Env>)
      returns (err: Option<Failure>, ghost orders: seq<seq<string>>)
      requires found.Some? ==> |envs| == |found.value|
      modifies this, writer
      ensures IsEvent(writer.cfg, old(State()), State())
      ensures found.None? && writer.cfg.failOnAuditError ==>
        err == Some(ReadError) && docs == old(docs) && writer.State() == Reported(old(writer.State()), ReadFailed)
      ensures (found.Some? || !writer.cfg.failOnAuditError) && serverFails ==>
        && err == Some(ServerError)
        && writer.State() == if found.None? then Reported(old(writer.State()), ReadFailed) else old(writer.State())
      ensures found.Some? || !writer.cfg.failOnAuditError ==> docs == result
      ensures found.None? && !writer.cfg.failOnAuditError && !serverFails ==>
        err == None && writer.State() == Reported(old(writer.State()), ReadFailed)
      ensures found.Some? && !serverFails && (matched == 0 || !Allows(writer.cfg, ActionUpdate)) ==>
        err == None && writer.State() == old(writer.State())
      ensures found.Some? && !serverFails && matched > 0 && Allows(writer.cfg, ActionUpdate) ==>
        BatchDone(writer.cfg, old(writer.State()), UpdateWrites(writer.cfg, found.value, update, policy, envs), orders,
                  writer.State(), err)
    {
      orders := [];
      QuietBatchIsEvent(writer.cfg, State(), docs);
      QuietBatchIsEvent(writer.cfg, State(), result);
      if found.None? {
        writer.reported := writer.reported + [ReadFailed];
        if writer.cfg.failOnAuditError { return Some(ReadError), orders; }
      }
      docs := result;
      if serverFails { return Some(ServerError), orders; }
      if matched == 0 || !Allows(writer.cfg, ActionUpdate) { return None, orders; }
      if found.None? { return None, orders; }
      err, orders := AuditEach(UpdateWrites(writer.cfg, found.value, update, policy, envs));
      BatchIsEvent(writer.cfg, old(State()), UpdateWrites(writer.cfg, found.value, update, policy, envs), orders, State(), err);
    }

    method DeleteMany(found: Option<seq<(string, Document)>>, result: map<string, Document>,
                      deleted: nat, policy: FieldPolicy, serverFails: bool, envs: seq<Env>)
      returns (err: Option<Failure>, ghost orders: seq<seq<string>>)
      requires found.Some? ==> |envs| == |found.value|
      modifies this, writer
      ensures IsEvent(writer.cfg, old(State()), State())
      ensures found.None? && writer.cfg.failOnAuditError ==>
        err == Some(ReadError) && docs == old(docs) && writer.State() == Reported(old(writer.State()), ReadFailed)
      ensures (found.Some? || !writer.cfg.failOnAuditError) && serverFails ==>
        && err == Some(ServerError)
        && writer.State() == if found.None? then Reported(old(writer.State()), ReadFailed) else old(writer.State())
      ensures found.Some? || !writer.cfg.failOnAuditError ==> docs == result
      ensures found.None? && !writer.cfg.failOnAuditError && !serverFails ==>
        err == None && writer.State() == Reported(old(writer.State()), ReadFailed)
      ensures found.Some? && !serverFails && (deleted == 0 || !Allows(writer.cfg, ActionDelete)) ==>
        err == None && writer.State() == old(writer.State())
      ensures found.Some? && !serverFails && deleted > 0 && Allows(writer.cfg, ActionDelete) ==>
        BatchDone(writer.cfg, old(writer.State()), DeleteWrites(writer.cfg, found.value, policy, envs), orders,
                  writer.State(), err)
    {
      orders := [];
      QuietBatchIsEvent(writer.cfg, State(), docs);
      QuietBatchIsEvent(writer.cfg, State(), result);
      if found.None? {
        writer.reported := writer.reported + [ReadFailed];
        if writer.cfg.failOnAuditError { return Some(ReadError), orders; }
      }
      docs := result;
      if serverFails { return Some(ServerError), orders; }
      if deleted == 0 || !Allows(writer.cfg, ActionDelete) { return None, orders; }
      if found.None? { return None, orders; }
      err, orders := AuditEach(DeleteWrites(writer.cfg, found.value, policy, envs));
      BatchIsEvent(writer.cfg, old(State()), DeleteWrites(writer.cfg, found.value, policy, envs), orders, State(), err);
    }
  }
}
