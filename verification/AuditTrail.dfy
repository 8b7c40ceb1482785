/** One audited write of the MongoDB wrapper, from the change request to the
    stored record, with every call that can fail on the way. */
module AuditTrail {
  import opened Values
  import opened VersionKeys
  import opened VersionSequences
  import opened FieldPolicies
  import opened ChangeBuilders
  import opened ChangeLaws
  import opened DeferredRequests
  import DepthGate

  datatype Action = ActionCreate | ActionUpdate | ActionDelete

  datatype AuditRecord = AuditRecord(
    id: string,
    action: Action,
    changes: Changes,
    reference: string,
    status: Status,
    version: nat)

  datatype Config = Config(
    collection: string,
    ops: Option<set<Action>>,
    maxChangedFields: int,
    maxDocumentBytes: int,
    maxDepth: int,
    failOnAuditError: bool,
    hasDeferral: bool)

  /** What the environment does during one write: where the request's documents
      sit in memory and how large their encodings are, whether an inserted or
      replacing document fails to convert, the deadline before and after
      computing, the deferral handler's answer, the server fault hitting an
      allocation attempt, how many versions other clients allocate between the two
      halves of a first upsert, and whether the insert fails or OnAudit panics. */
  datatype Env = Env(
    heap: DepthGate.Graph,
    before: DepthGate.Snapshot,
    after: DepthGate.Snapshot,
    unconvertible: bool,
    expiredBefore: bool,
    expiredAfter: bool,
    handler: Option<ChangeResult>,
    faultyAttempt: Option<nat>,
    others: nat,
    insertFails: bool,
    callbackPanics: bool)

  datatype Write = Write(id: string, action: Action, req: ChangeRequest, env: Env)

  /** The audit side of the world: version counters, stored records, requests
      handed to the deferral handler, errors reported to OnError. */
  datatype Trail = Trail(
    counters: map<Key, nat>,
    log: seq<AuditRecord>,
    handed: seq<ChangeRequest>,
    reported: seq<Error>)

  // ---------------------------------------------------------------------
  // Specification of one write
  // ---------------------------------------------------------------------

  /** The snapshots the gate looks at: those of the documents the request has. */
  function Snapshots(w: Write): seq<Option<DepthGate.Snapshot>> {
    [if w.req.before.Some? then Some(w.env.before) else None,
     if w.req.after.Some? then Some(w.env.after) else None]
  }

  function VerdictError(v: DepthGate.Verdict): Option<Error> {
    match v
    case Passed => None
    case NotEncodable => Some(Unencodable)
    case _ => Some(TooComplex)
  }

  function GateError(cfg: Config, w: Write): Option<Error> {
    VerdictError(DepthGate.Complexity(w.env.heap, Snapshots(w), cfg.maxDocumentBytes, cfg.maxDepth))
  }

  /** Why a request is not recorded inline, if it is not. */
  function DeferralReason(cfg: Config, w: Write, order: seq<string>): Option<Error> {
    if GateError(cfg, w).Some? then GateError(cfg, w)
    else if w.env.expiredBefore then Some(DeadlineExceeded)
    else match ChangesOf(w.req, order)
      case Err(e) => Some(e)
      case Ok(changes) =>
        if w.env.expiredAfter then Some(DeadlineExceeded)
        else if |changes| > cfg.maxChangedFields then Some(TooComplex)
        else None
  }

  function DeferralOutcome(cfg: Config, w: Write, reason: Error): Result<ChangeResult, Error> {
    if !cfg.hasDeferral then Err(reason)
    else if !Readable(w.req.update) then Err(Unserialisable)
    else if w.env.handler.None? then Err(HandlerFailed)
    else if w.env.handler.value.reference == "" then Err(EmptyReference)
    else Ok(w.env.handler.value.(status := Deferred))
  }

  function HandedOver(cfg: Config, w: Write, order: seq<string>): seq<ChangeRequest> {
    if DeferralReason(cfg, w, order).Some? && cfg.hasDeferral && Readable(w.req.update) then [Clean(w.req)] else []
  }

  function Computed(cfg: Config, w: Write, order: seq<string>): Result<ChangeResult, Error> {
    var reason := DeferralReason(cfg, w, order);
    if reason.Some? then DeferralOutcome(cfg, w, reason.value)
    else Ok(ChangeResult(ChangesOf(w.req, order).value, "", Inline))
  }

  /** One counter and the version obtained from it, after an allocation. */
  function Allocation(counter: Option<nat>, env: Env): (Option<nat>, Option<nat>) {
    if env.faultyAttempt == Some(0) then (counter, None)
    else if counter.Some? then (Some(counter.value + 1), Some(counter.value + 1))
    else if env.others == 0 then (Some(1), Some(1))
    else if env.faultyAttempt == Some(1) then (Some(env.others), None)
    else (Some(env.others + 1), Some(env.others + 1))
  }

  function CounterAt(counters: map<Key, nat>, key: Key): Option<nat> {
    if key in counters then Some(counters[key]) else None
  }

  function WithCounter(counters: map<Key, nat>, key: Key, counter: Option<nat>): map<Key, nat> {
    if counter.Some? then counters[key := counter.value] else counters
  }

  predicate IsNoOp(w: Write, result: ChangeResult) {
    w.action == ActionUpdate && result.changes == map[] && result.reference == ""
  }

  function KeyOf(cfg: Config, id: string): Key {
    EntityKey(cfg.collection, id)
  }

  function Reported(s: Trail, e: Error): Trail {
    s.(reported := s.reported + [e])
  }

  /** From the computed result on: version, record, insert, callback. */
  function Stored(cfg: Config, s: Trail, w: Write, computed: Result<ChangeResult, Error>): (Trail, Option<Error>) {
    if computed.Err? then (Reported(s, computed.error), Some(computed.error))
    else if IsNoOp(w, computed.value) then (s, None)
    else
      var (counter, version) := Allocation(CounterAt(s.counters, KeyOf(cfg, w.id)), w.env);
      var s' := s.(counters := WithCounter(s.counters, KeyOf(cfg, w.id), counter));
      if version.None? then (Reported(s', VersionUnavailable), Some(VersionUnavailable))
      else if w.env.insertFails then (Reported(s', InsertFailed), Some(InsertFailed))
      else
        var s'' := s'.(log := s'.log + [RecordOf(w, computed.value, version.value)]);
        if w.env.callbackPanics then (Reported(s'', CallbackPanicked), Some(CallbackPanicked)) else (s'', None)
  }

  /** An inserted document that cannot be converted is not audited. */
  predicate IsUnconvertible(w: Write) {
    w.req.mode == CreateMode && w.env.unconvertible
  }

  function Written(cfg: Config, s: Trail, w: Write, order: seq<string>): (Trail, Option<Error>) {
    if IsUnconvertible(w) then (Reported(s, Unencodable), Some(Unencodable))
    else Stored(cfg, s.(handed := s.handed + HandedOver(cfg, w, order)), w, Computed(cfg, w, order))
  }

  function RecordOf(w: Write, result: ChangeResult, version: nat): AuditRecord {
    AuditRecord(w.id, w.action, result.changes, result.reference, result.status, version)
  }

  // ---------------------------------------------------------------------
  // The write path
  // ---------------------------------------------------------------------

  class AuditWriter {
    const cfg: Config
    var counters: map<Key, nat>
    var log: seq<AuditRecord>
    var handed: seq<ChangeRequest>
    var reported: seq<Error>

    constructor (cfg: Config)
      ensures this.cfg == cfg && State() == Trail(map[], [], [], [])
    {
      this.cfg := cfg;
      counters, log, handed, reported := map[], [], [], [];
    }

    function State(): Trail
      reads this
    {
      Trail(counters, log, handed, reported)
    }

    /** The retry loop. Only a first allocation that another client overtakes
        takes the second turn, and there the counter document exists. */
    method NextVersion(id: string, env: Env) returns (version: Option<nat>)
      modifies this`counters
      ensures version == Allocation(CounterAt(old(counters), KeyOf(cfg, id)), env).1
      ensures counters == WithCounter(old(counters), KeyOf(cfg, id),
                                      Allocation(CounterAt(old(counters), KeyOf(cfg, id)), env).0)
    {
      var key := KeyOf(cfg, id);
      var attempt := 0;
      while attempt < 2
        invariant 0 <= attempt <= 2
        invariant attempt == 0 ==> counters == old(counters)
        invariant attempt >= 1 ==> env.faultyAttempt != Some(0) && env.others > 0 && key !in old(counters)
        invariant attempt >= 1 ==> counters == old(counters)[key := env.others]
        invariant attempt < 2
        decreases 2 - attempt
      {
        if env.faultyAttempt == Some(attempt) {
          return None;
        }
        if key in counters {
          counters := counters[key := counters[key] + 1];
          assert attempt >= 1 ==> counters == old(counters)[key := env.others + 1];
          return Some(counters[key]);
        }
        // No counter matched; other clients may create it before our insert.
        if env.others > 0 {
          counters := counters[key := env.others];
        }
        if key !in counters {
          counters := counters[key := 1];
          return Some(1);
        }
        attempt := attempt + 1;
      }
      return None;
    }

    method DeferChanges(w: Write, reason: Error) returns (r: Result<ChangeResult, Error>)
      modifies this`handed
      ensures r == DeferralOutcome(cfg, w, reason)
      ensures handed == old(handed) + if cfg.hasDeferral && Readable(w.req.update) then [Clean(w.req)] else []
    {
      if !cfg.hasDeferral { return Err(reason); }
      var safe := SanitizeDeferredRequest(w.req);
      if safe.Err? { return Err(safe.error); }
      handed := handed + [safe.value];
      if w.env.handler.None? { return Err(HandlerFailed); }
      var result := w.env.handler.value;
      if result.reference == "" { return Err(EmptyReference); }
      return Ok(result.(status := Deferred));
    }

    method ComputeChanges(w: Write) returns (r: Result<ChangeResult, Error>, ghost order: seq<string>)
      modifies this`handed
      ensures IsOrder(order, OpsOf(w.req.update).Keys)
      ensures r == Computed(cfg, w, order)
      ensures handed == old(handed) + HandedOver(cfg, w, order)
    {
      order := OrderOf(OpsOf(w.req.update).Keys);
      var verdict := DepthGate.RequestComplexity(w.env.heap, Snapshots(w), cfg.maxDocumentBytes, cfg.maxDepth);
      if verdict != DepthGate.Passed {
        r := DeferChanges(w, VerdictError(verdict).value);
        return;
      }
      var computed;
      computed, order := Compute(w.req, w.env.expiredBefore);
      if computed.Ok? && w.env.expiredAfter {
        computed := Err(DeadlineExceeded);
      }
      if computed.Err? {
        r := DeferChanges(w, computed.error);
        return;
      }
      if |computed.value.changes| > cfg.maxChangedFields {
        r := DeferChanges(w, TooComplex);
        return;
      }
      r := computed;
    }

    /** Its callers convert an inserted document first and treat a failure like one
        of the write. */
    method WriteAudit(w: Write) returns (err: Option<Error>, ghost order: seq<string>)
      modifies this
      ensures IsOrder(order, OpsOf(w.req.update).Keys)
      ensures (State(), err) == Written(cfg, old(State()), w, order)
    {
      if w.req.mode == CreateMode && w.env.unconvertible {
        order := OrderOf(OpsOf(w.req.update).Keys);
        reported := reported + [Unencodable];
        return Some(Unencodable), order;
      }
      var result;
      result, order := ComputeChanges(w);
      if result.Err? {
        reported := reported + [result.error];
        return Some(result.error), order;
      }
      if w.action == ActionUpdate && |result.value.changes| == 0 && result.value.reference == "" {
        return None, order;
      }
      var version := NextVersion(w.id, w.env);
      if version.None? {
        reported := reported + [VersionUnavailable];
        return Some(VersionUnavailable), order;
      }
      var failure := Persist(RecordOf(w, result.value, version.value), w.env);
      if failure.Some? {
        reported := reported + [failure.value];
      }
      return failure, order;
    }

    method Persist(record: AuditRecord, env: Env) returns (err: Option<Error>)
      modifies this`log
      ensures log == if env.insertFails then old(log) else old(log) + [record]
      ensures err == if env.insertFails then Some(InsertFailed)
                     else if env.callbackPanics then Some(CallbackPanicked) else None
    {
      if env.insertFails { return Some(InsertFailed); }
      log := log + [record];
      if env.callbackPanics { return Some(CallbackPanicked); }
      return None;
    }
  }
}
