/** Change requests, the default computer, and the sanitiser that every request
    passes on its way to the deferral handler. */
module DeferredRequests {
  import opened Values
  import opened FieldPolicies
  import opened ChangeBuilders
  import opened ChangeLaws

  datatype Mode = CreateMode | OperatorMode | ReplaceMode | DeleteMode | OtherMode(name: string)

  /** `before` and `after` are None for Go's nil documents. */
  datatype ChangeRequest = ChangeRequest(
    mode: Mode,
    before: Option<Document>,
    after: Option<Document>,
    update: Update,
    policy: FieldPolicy,
    collection: string,
    documentID: string)

  datatype Status = Inline | Deferred

  datatype ChangeResult = ChangeResult(changes: Changes, reference: string, status: Status)

  datatype Error =
    | TooComplex
    | Unencodable
    | DeadlineExceeded
    | UnsupportedMode
    | Unserialisable
    | HandlerFailed
    | EmptyReference
    | VersionUnavailable
    | InsertFailed
    | CallbackPanicked
    | ReadFailed

  /** Ranging over a nil document visits nothing. */
  function DocOf(doc: Option<Document>): Document {
    if doc.Some? then doc.value else map[]
  }

  // ---------------------------------------------------------------------
  // Default computer
  // ---------------------------------------------------------------------

  /** The changes of a request when its operators are visited in `order`. */
  function ChangesOf(req: ChangeRequest, order: seq<string>): Result<Changes, Error> {
    match req.mode
    case CreateMode => Ok(Creation(DocOf(req.after), req.policy))
    case OperatorMode => Ok(Extraction(order, OpsOf(req.update), req.policy))
    case ReplaceMode => Ok(Diff(DocOf(req.before), DocOf(req.after), req.policy))
    case DeleteMode => Ok(Deletion(DocOf(req.before), req.policy))
    case OtherMode(_) => Err(UnsupportedMode)
  }

  function ComputedAlong(req: ChangeRequest, expired: bool, order: seq<string>): Result<ChangeResult, Error> {
    if expired then Err(DeadlineExceeded)
    else match ChangesOf(req, order)
         case Ok(changes) => Ok(ChangeResult(changes, "", Inline))
         case Err(e) => Err(e)
  }

  /** `expired` says whether the context was done on entry. */
  method Compute(req: ChangeRequest, expired: bool)
    returns (r: Result<ChangeResult, Error>, ghost order: seq<string>)
    ensures IsOrder(order, OpsOf(req.update).Keys) && r == ComputedAlong(req, expired, order)
    ensures exists o :: IsOrder(o, OpsOf(req.update).Keys) && r == ComputedAlong(req, expired, o)
  {
    order := OrderOf(OpsOf(req.update).Keys);
    if expired {
      return Err(DeadlineExceeded), order;
    }
    var changes: Changes;
    match req.mode {
      case CreateMode => changes := CreateChanges(DocOf(req.after), req.policy);
      case OperatorMode => changes, order := ExtractUpdateChanges(req.update, req.policy);
      case ReplaceMode => changes := DiffDocs(DocOf(req.before), DocOf(req.after), req.policy);
      case DeleteMode => changes := DeleteChanges(DocOf(req.before), req.policy);
      case OtherMode(_) => return Err(UnsupportedMode), order;
    }
    return Ok(ChangeResult(changes, "", Inline)), order;
  }

  // ---------------------------------------------------------------------
  // Sanitiser
  // ---------------------------------------------------------------------

  function CleanFields(doc: Document, p: FieldPolicy): Document {
    map k | k in doc && Kept(p, k) :: Masked(p, k, doc[k])
  }

  function CleanDocument(doc: Option<Document>, p: FieldPolicy): Option<Document> {
    if doc.None? then None else Some(CleanFields(doc.value, p))
  }

  function CleanOps(ops: map<string, OperatorArg>, p: FieldPolicy): map<string, OperatorArg> {
    map op | op in ops :: Fields(CleanFields(FieldsOf(ops[op]), p))
  }

  /** Whether the update can be rewritten without its hidden fields. */
  predicate Readable(update: Update) {
    !update.Unreadable? && forall op | op in OpsOf(update) :: OpsOf(update)[op].Fields?
  }

  function Clean(req: ChangeRequest): ChangeRequest {
    var p := req.policy;
    req.(before := CleanDocument(req.before, p),
         after := CleanDocument(req.after, p),
         update := if req.update.Operators? then Operators(CleanOps(req.update.ops, p)) else req.update)
  }

  method SanitizeDocument(doc: Option<Document>, p: FieldPolicy) returns (safe: Option<Document>)
    ensures safe == CleanDocument(doc, p)
  {
    if doc.None? { return None; }
    var fields: Document := map[];
    var rest := doc.value.Keys;
    while rest != {}
      invariant rest <= doc.value.Keys
      invariant forall k :: k in fields <==> k in doc.value && k !in rest && Kept(p, k)
      invariant forall k :: k in fields ==> fields[k] == Masked(p, k, doc.value[k])
      decreases rest
    {
      var k :| k in rest;
      rest := rest - {k};
      if k in p.skip || !IncludedField(k, p.only, p.redacted) { continue; }
      if k in p.redacted {
        fields := fields[k := Mask(p)];
      } else {
        fields := fields[k := doc.value[k]];
      }
    }
    assert fields == CleanFields(doc.value, p);
    safe := Some(fields);
  }

  function Sanitised(req: ChangeRequest): Result<ChangeRequest, Error> {
    if Readable(req.update) then Ok(Clean(req)) else Err(Unserialisable)
  }

  method SanitizeDeferredRequest(req: ChangeRequest) returns (r: Result<ChangeRequest, Error>)
    ensures r == Sanitised(req)
  {
    var before := SanitizeDocument(req.before, req.policy);
    var after := SanitizeDocument(req.after, req.policy);
    var update := req.update;
    match req.update {
      case NoUpdate =>
      case Unreadable => return Err(Unserialisable);
      case Operators(ops) =>
        var safe: map<string, OperatorArg> := map[];
        var rest := ops.Keys;
        while rest != {}
          invariant rest <= ops.Keys
          invariant safe.Keys == ops.Keys - rest
          invariant forall op :: op in safe ==> ops[op].Fields? && safe[op] == CleanOps(ops, req.policy)[op]
          decreases rest
        {
          var op :| op in rest;
          rest := rest - {op};
          if ops[op].NotADocument? {
            assert !OpsOf(req.update)[op].Fields?;
            return Err(Unserialisable);
          }
          var fields := SanitizeDocument(Some(ops[op].doc), req.policy);
          safe := safe[op := Fields(fields.value)];
        }
        assert safe == CleanOps(ops, req.policy);
        update := Operators(safe);
    }
    return Ok(req.(before := before, after := after, update := update));
  }

  // ---------------------------------------------------------------------
  // What a reader gets to see
  // ---------------------------------------------------------------------

  /** The field is hidden altogether: skipped, or, under a whitelist, neither listed
      nor redacted. */
  predicate IsHidden(p: FieldPolicy, k: string) {
    k in p.skip || (p.only.Some? && k !in p.only.value && k !in p.redacted)
  }

  /** In every mode: hidden fields are absent; "_id" shows in operator updates only;
      a redacted field shows the mask in place of every value it has, whatever that
      is. */
  lemma WhatChangesShow(req: ChangeRequest, order: seq<string>, k: string)
    requires ChangesOf(req, order).Ok?
    ensures var (p, changes) := (req.policy, ChangesOf(req, order).value);
      var (old', new', mask) := (DocOf(req.before), DocOf(req.after), Text(p.redactedValue));
      && (IsHidden(p, k) ==> k !in changes)
      && (k == "_id" && req.mode != OperatorMode ==> k !in changes)
      && (k in p.redacted && !IsHidden(p, k) && k != "_id" ==>
            match req.mode
            case CreateMode => (k in changes <==> k in new') && (k in changes ==> changes[k] == Change(Null, mask))
            case DeleteMode => (k in changes <==> k in old') && (k in changes ==> changes[k] == Change(mask, Null))
            case ReplaceMode =>
              && (k in changes <==> k in old' || k in new')
              && (k in changes ==> changes[k] == Change(mask, if k in new' then mask else Null))
            case _ => true)
      && (k in p.redacted && req.mode == OperatorMode && k in changes ==> changes[k] == Change(mask, mask))
  {
    if req.mode == OperatorMode { ExtractionAt(order, OpsOf(req.update), req.policy, k); }
  }

  /** What an operator update shows of a field that one operator mentions: the new
      value under $set, nil under $unset, and otherwise the operator with its
      operand; the old side is nil. */
  lemma WhatOperatorsShow(order: seq<string>, ops: map<string, OperatorArg>, p: FieldPolicy, op: string, k: string)
    requires IsOrder(order, ops.Keys) && op in ops && ops[op].Fields? && k in ops[op].doc
    requires !IsHidden(p, k) && k !in p.redacted
    requires forall o | o in ops && o != op && ops[o].Fields? :: k !in ops[o].doc
    ensures var changes := Extraction(order, ops, p);
      && k in changes && changes[k].before == Null
      && (op == "$set" ==> changes[k].after == ops[op].doc[k])
      && (op == "$unset" ==> changes[k].after == Null)
      && (op != "$set" && op != "$unset" ==> changes[k].after == Doc(map[op := ops[op].doc[k]]))
  {
    assert Touches(ops, p, op, k);
    ExtractionAt(order, ops, p, k);
  }

  /** What the sanitiser leaves of a document: nothing of hidden fields, the mask for
      redacted ones, all others as they are. */
  lemma WhatCleaningLeaves(doc: Document, p: FieldPolicy, k: string)
    ensures var safe := CleanFields(doc, p);
      && (k in safe <==> k in doc && !IsHidden(p, k))
      && (k in safe ==> safe[k] == if k in p.redacted then Text(p.redactedValue) else doc[k])
  {
  }

  /** Sanitising cleans both documents and the fields under every operator, and
      leaves nil nil and everything else about the request as it is. */
  lemma WhatSanitisingLeaves(req: ChangeRequest)
    requires Readable(req.update)
    ensures var (safe, p) := (Clean(req), req.policy);
      && Sanitised(req) == Ok(safe)
      && safe.mode == req.mode && safe.policy == p && safe.collection == req.collection && safe.documentID == req.documentID
      && (req.before.None? ==> safe.before.None?) && (req.after.None? ==> safe.after.None?)
      && (req.before.Some? ==> safe.before == Some(CleanFields(req.before.value, p)))
      && (req.after.Some? ==> safe.after == Some(CleanFields(req.after.value, p)))
      && OpsOf(safe.update).Keys == OpsOf(req.update).Keys && safe.update.NoUpdate? == req.update.NoUpdate?
      && (forall op | op in OpsOf(req.update) ::
            OpsOf(req.update)[op].Fields? && OpsOf(safe.update)[op] == Fields(CleanFields(OpsOf(req.update)[op].doc, p)))
  {
  }

  // ---------------------------------------------------------------------
  // Sanitising preserves meaning
  // ---------------------------------------------------------------------

  /** Cleaning leaves a document's standing with the change builders alone. */
  lemma CleanFieldsBuild(a: Document, b: Document, p: FieldPolicy)
    ensures Creation(CleanFields(a, p), p) == Creation(a, p)
    ensures Deletion(CleanFields(a, p), p) == Deletion(a, p)
    ensures Diff(CleanFields(a, p), CleanFields(b, p), p) == Diff(a, b, p)
  {
    var ca, cb := CleanFields(a, p), CleanFields(b, p);
    assert forall k | Kept(p, k) :: (k in ca <==> k in a) && (k in cb <==> k in b);
    assert forall k | DiffRecords(a, b, p, k) :: k in ca.Keys + cb.Keys;
    assert forall k | k in a.Keys + b.Keys :: DiffRecords(ca, cb, p, k) == DiffRecords(a, b, p, k);
    assert Diff(ca, cb, p).Keys == Diff(a, b, p).Keys;
  }

  lemma {:induction false} CleanOpsExtract(order: seq<string>, ops: map<string, OperatorArg>, p: FieldPolicy)
    ensures Extraction(order, CleanOps(ops, p), p) == Extraction(order, ops, p)
  {
    if order != [] {
      var last := order[|order| - 1];
      CleanOpsExtract(order[..|order| - 1], ops, p);
      var fields := FieldsUnder(ops, last);
      assert FieldsUnder(CleanOps(ops, p), last) == CleanFields(fields, p);
      assert Contribution(last, CleanFields(fields, p), p) == Contribution(last, fields, p);
    }
  }

  /** Whatever order Go visits the operators in, the default computer gives the
      same answer on the sanitised request as on the original. */
  lemma DeferralPreservesMeaning(req: ChangeRequest, order: seq<string>)
    ensures OpsOf(Clean(req).update).Keys == OpsOf(req.update).Keys
    ensures ChangesOf(Clean(req), order) == ChangesOf(req, order)
  {
    var p := req.policy;
    assert CleanFields(map[], p) == map[];
    match req.mode {
      case OperatorMode =>
        if req.update.Operators? {
          CleanOpsExtract(order, req.update.ops, p);
        }
      case CreateMode => CleanFieldsBuild(DocOf(req.after), map[], p);
      case ReplaceMode => CleanFieldsBuild(DocOf(req.before), DocOf(req.after), p);
      case DeleteMode => CleanFieldsBuild(DocOf(req.before), map[], p);
      case OtherMode(_) =>
    }
  }

  lemma CleanFieldsIdempotent(doc: Document, p: FieldPolicy)
    ensures CleanFields(CleanFields(doc, p), p) == CleanFields(doc, p)
  {
  }

  /** Sanitising succeeds on its own output and changes nothing there. */
  lemma SanitisingIsIdempotent(req: ChangeRequest)
    requires Readable(req.update)
    ensures Readable(Clean(req).update) && Clean(Clean(req)) == Clean(req)
  {
    var p := req.policy;
    CleanFieldsIdempotent(DocOf(req.before), p);
    CleanFieldsIdempotent(DocOf(req.after), p);
    if req.update.Operators? {
      var once := CleanOps(req.update.ops, p);
      forall op | op in once
        ensures CleanOps(once, p)[op] == once[op]
      {
        CleanFieldsIdempotent(FieldsOf(req.update.ops[op]), p);
      }
      assert CleanOps(once, p) == once;
    }
  }

  // ---------------------------------------------------------------------
  // Hidden values do not influence results
  // ---------------------------------------------------------------------

  /** The documents have the same kept keys, and the same values on the kept
      keys that are not redacted. */
  predicate SameView(a: Document, b: Document, p: FieldPolicy) {
    && (forall k | k in a && Kept(p, k) :: k in b && (k in p.redacted || a[k] == b[k]))
    && (forall k | k in b && Kept(p, k) :: k in a)
  }

  predicate SameRequestView(a: ChangeRequest, b: ChangeRequest) {
    var p := a.policy;
    && a.mode == b.mode && a.policy == b.policy
    && a.collection == b.collection && a.documentID == b.documentID
    && a.before.Some? == b.before.Some? && SameView(DocOf(a.before), DocOf(b.before), p)
    && a.after.Some? == b.after.Some? && SameView(DocOf(a.after), DocOf(b.after), p)
    && a.update.NoUpdate? == b.update.NoUpdate? && a.update.Unreadable? == b.update.Unreadable?
    && OpsOf(a.update).Keys == OpsOf(b.update).Keys
    && (forall op | op in OpsOf(a.update) ::
          SameView(FieldsOf(OpsOf(a.update)[op]), FieldsOf(OpsOf(b.update)[op]), p))
  }

  /** The same operator arguments read as documents. */
  predicate SameReading(a: ChangeRequest, b: ChangeRequest) {
    forall op | op in OpsOf(a.update) && op in OpsOf(b.update) ::
      OpsOf(a.update)[op].Fields? == OpsOf(b.update)[op].Fields?
  }

  /** The sanitised document determines, and is determined by, the view. */
  lemma SameCleanFieldsIff(a: Document, b: Document, p: FieldPolicy)
    ensures CleanFields(a, p) == CleanFields(b, p) <==> SameView(a, b, p)
  {
    var ca, cb := CleanFields(a, p), CleanFields(b, p);
    if SameView(a, b, p) {
      assert forall k :: k in ca <==> k in cb;
    } else if ca == cb {
      forall k | Kept(p, k)
        ensures k in a <==> k in b
        ensures k in a && k !in p.redacted ==> a[k] == b[k]
      {
        assert k in ca <==> k in cb;
        assert k in ca && k !in p.redacted ==> ca[k] == a[k] && cb[k] == b[k];
      }
      assert false;
    }
  }

  /** Two requests are cleaned alike exactly when they differ only in values the
      policy hides. */
  lemma SameCleanRequestIff(a: ChangeRequest, b: ChangeRequest)
    requires a.policy == b.policy
    ensures Clean(a) == Clean(b) <==> SameRequestView(a, b)
  {
    var p := a.policy;
    SameCleanFieldsIff(DocOf(a.before), DocOf(b.before), p);
    SameCleanFieldsIff(DocOf(a.after), DocOf(b.after), p);
    var opsA, opsB := OpsOf(a.update), OpsOf(b.update);
    forall op | op in opsA && op in opsB
      ensures CleanFields(FieldsOf(opsA[op]), p) == CleanFields(FieldsOf(opsB[op]), p)
         <==> SameView(FieldsOf(opsA[op]), FieldsOf(opsB[op]), p)
    {
      SameCleanFieldsIff(FieldsOf(opsA[op]), FieldsOf(opsB[op]), p);
    }
    assert forall op :: op in opsA <==> op in CleanOps(opsA, p);
    assert forall op :: op in opsB <==> op in CleanOps(opsB, p);
    if CleanOps(opsA, p) == CleanOps(opsB, p) {
      forall op | op in opsA
        ensures op in opsB && CleanFields(FieldsOf(opsA[op]), p) == CleanFields(FieldsOf(opsB[op]), p)
      {
        assert CleanOps(opsA, p)[op] == CleanOps(opsB, p)[op];
      }
      assert opsA.Keys == CleanOps(opsA, p).Keys == CleanOps(opsB, p).Keys == opsB.Keys;
    }
    if SameRequestView(a, b) {
      assert CleanOps(opsA, p) == CleanOps(opsB, p);
    }
  }

  /** Two requests are sanitised alike exactly when neither can be, or they differ
      only in values the policy hides and read alike. */
  lemma SanitisedAlikeIff(a: ChangeRequest, b: ChangeRequest)
    requires a.policy == b.policy
    ensures Sanitised(a) == Sanitised(b)
       <==> (!Readable(a.update) && !Readable(b.update)) || (SameRequestView(a, b) && SameReading(a, b))
  {
    SameCleanRequestIff(a, b);
    if SameRequestView(a, b) && SameReading(a, b) {
      assert Readable(a.update) <==> Readable(b.update);
    }
  }

  /** Values the policy hides never influence the recorded changes. */
  lemma HiddenValuesDoNotReachChanges(a: ChangeRequest, b: ChangeRequest, order: seq<string>)
    requires SameRequestView(a, b)
    ensures ChangesOf(a, order) == ChangesOf(b, order)
  {
    SameCleanRequestIff(a, b);
    DeferralPreservesMeaning(a, order);
    DeferralPreservesMeaning(b, order);
  }

  /** Conversely an insert entry reveals everything else: equal entries mean the
      same recorded fields with the same unredacted values. */
  lemma InsertRevealsTheRest(a: Document, b: Document, p: FieldPolicy)
    ensures Creation(a, p) == Creation(b, p)
       <==> SameView(a - {ID_FIELD}, b - {ID_FIELD}, p)
  {
    var ca, cb := Creation(a, p), Creation(b, p);
    if ca == cb {
      forall k | Recorded(p, k)
        ensures k in a <==> k in b
        ensures k in a && k !in p.redacted ==> a[k] == b[k]
      {
        assert k in ca <==> k in cb;
        assert k in ca && k !in p.redacted ==> ca[k].after == a[k] && cb[k].after == b[k];
      }
    } else if SameView(a - {ID_FIELD}, b - {ID_FIELD}, p) {
      assert forall k | k != ID_FIELD :: (k in a <==> k in a - {ID_FIELD}) && (k in b <==> k in b - {ID_FIELD});
      assert forall k :: k in ca <==> k in cb;
      assert false;
    }
  }
}
