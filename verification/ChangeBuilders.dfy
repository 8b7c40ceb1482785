/** The four change builders. Go ranges over maps in an arbitrary order, so
    every loop here picks its next key with `:|`. */
module ChangeBuilders {
  import opened Values
  import opened FieldPolicies

  // ---------------------------------------------------------------------
  // Replacement: diff of two documents
  // ---------------------------------------------------------------------

  /** Whether the diff of `old'` and `new'` has an entry for `k`. */
  predicate DiffRecords(old': Document, new': Document, p: FieldPolicy, k: string) {
    && Recorded(p, k)
    && (k in old' || k in new')
    && (k in p.redacted || Lookup(old', k) != Lookup(new', k))
  }

  function DiffEntry(old': Document, new': Document, p: FieldPolicy, k: string): Change {
    if k in p.redacted then Change(Mask(p), if k in new' then Mask(p) else Null)
    else Change(Shown(old', k), Shown(new', k))
  }

  function Diff(old': Document, new': Document, p: FieldPolicy): Changes {
    map k | k in old'.Keys + new'.Keys && DiffRecords(old', new', p, k) :: DiffEntry(old', new', p, k)
  }

  method DiffDocs(old': Document, new': Document, p: FieldPolicy) returns (changes: Changes)
    ensures changes == Diff(old', new', p)
  {
    changes := map[];
    var rest := new'.Keys;
    while rest != {}
      invariant rest <= new'.Keys
      invariant forall k :: k in changes <==> k in new' && k !in rest && DiffRecords(old', new', p, k)
      invariant forall k :: k in changes ==> changes[k] == DiffEntry(old', new', p, k)
      decreases rest
    {
      var k :| k in rest;
      rest := rest - {k};
      var newVal := new'[k];
      if k == ID_FIELD { continue; }
      if k in p.skip { continue; }
      if !IncludedField(k, p.only, p.redacted) { continue; }
      if k in p.redacted {
        changes := changes[k := Change(Mask(p), Mask(p))];
        continue;
      }
      if k !in old' {
        changes := changes[k := Change(Null, newVal)];
      } else if old'[k] != newVal {
        changes := changes[k := Change(old'[k], newVal)];
      }
    }
    // Fields present in the old document only were removed.
    rest := old'.Keys;
    while rest != {}
      invariant rest <= old'.Keys
      invariant forall k :: k in changes <==>
        DiffRecords(old', new', p, k) && (k in new' || (k in old' && k !in rest))
      invariant forall k :: k in changes ==> changes[k] == DiffEntry(old', new', p, k)
      decreases rest
    {
      var k :| k in rest;
      rest := rest - {k};
      if k == ID_FIELD { continue; }
      if k in p.skip { continue; }
      if !IncludedField(k, p.only, p.redacted) { continue; }
      if k !in new' {
        if k in p.redacted {
          changes := changes[k := Change(Mask(p), Null)];
        } else {
          changes := changes[k := Change(old'[k], Null)];
        }
      }
    }
  }

  // ---------------------------------------------------------------------
  // Insert and delete
  // ---------------------------------------------------------------------

  function Masked(p: FieldPolicy, k: string, v: Value): Value {
    if k in p.redacted then Mask(p) else v
  }

  function Creation(doc: Document, p: FieldPolicy): Changes {
    map k | k in doc && Recorded(p, k) :: Change(Null, Masked(p, k, doc[k]))
  }

  function Deletion(doc: Document, p: FieldPolicy): Changes {
    map k | k in doc && Recorded(p, k) :: Change(Masked(p, k, doc[k]), Null)
  }

  method CreateChanges(doc: Document, p: FieldPolicy) returns (changes: Changes)
    ensures changes == Creation(doc, p)
  {
    changes := map[];
    var rest := doc.Keys;
    while rest != {}
      invariant rest <= doc.Keys
      invariant forall k :: k in changes <==> k in doc && k !in rest && Recorded(p, k)
      invariant forall k :: k in changes ==> changes[k] == Change(Null, Masked(p, k, doc[k]))
      decreases rest
    {
      var k :| k in rest;
      rest := rest - {k};
      if k == ID_FIELD { continue; }
      if k in p.skip { continue; }
      if !IncludedField(k, p.only, p.redacted) { continue; }
      if k in p.redacted {
        changes := changes[k := Change(Null, Mask(p))];
      } else {
        changes := changes[k := Change(Null, doc[k])];
      }
    }
  }

  method DeleteChanges(doc: Document, p: FieldPolicy) returns (changes: Changes)
    ensures changes == Deletion(doc, p)
  {
    changes := map[];
    var rest := doc.Keys;
    while rest != {}
      invariant rest <= doc.Keys
      invariant forall k :: k in changes <==> k in doc && k !in rest && Recorded(p, k)
      invariant forall k :: k in changes ==> changes[k] == Change(Masked(p, k, doc[k]), Null)
      decreases rest
    {
      var k :| k in rest;
      rest := rest - {k};
      if k == ID_FIELD { continue; }
      if k in p.skip { continue; }
      if !IncludedField(k, p.only, p.redacted) { continue; }
      if k in p.redacted {
        changes := changes[k := Change(Mask(p), Null)];
      } else {
        changes := changes[k := Change(doc[k], Null)];
      }
    }
  }

  // ---------------------------------------------------------------------
  // Update operators (the only builder that does not leave out "_id")
  // ---------------------------------------------------------------------

  /** An operator's argument as the BSON round trip sees it. */
  datatype OperatorArg = Fields(doc: Document) | NotADocument

  /** The update argument: absent, not convertible to a document, or a
      document of operators. */
  datatype Update = NoUpdate | Unreadable | Operators(ops: map<string, OperatorArg>)

  /** Conversion errors are ignored here: such an update has no operators. */
  function OpsOf(update: Update): map<string, OperatorArg> {
    if update.Operators? then update.ops else map[]
  }

  function FieldsOf(arg: OperatorArg): Document {
    if arg.Fields? then arg.doc else map[]
  }

  /** The pair one operator records for one field. */
  function OpEntry(op: string, p: FieldPolicy, k: string, v: Value): Change {
    if k in p.redacted then Change(Mask(p), Mask(p))
    else if op == "$set" then Change(Null, v)
    else if op == "$unset" then Change(Null, Null)
    else Change(Null, Doc(map[op := v]))
  }

  function Contribution(op: string, fields: Document, p: FieldPolicy): Changes {
    map k | k in fields && Kept(p, k) :: OpEntry(op, p, k, fields[k])
  }

  /** An iteration order over the operators: each key exactly once. */
  ghost predicate IsOrder(order: seq<string>, keys: set<string>) {
    && (forall i, j :: 0 <= i < j < |order| ==> order[i] != order[j])
    && (forall k :: k in order <==> k in keys)
  }

  function FieldsUnder(ops: map<string, OperatorArg>, op: string): Document {
    if op in ops then FieldsOf(ops[op]) else map[]
  }

  /** The map built when the operators are visited in the given order. */
  function Extraction(order: seq<string>, ops: map<string, OperatorArg>, p: FieldPolicy): Changes {
    if order == [] then map[]
    else
      var last := order[|order| - 1];
      Extraction(order[..|order| - 1], ops, p) + Contribution(last, FieldsUnder(ops, last), p)
  }

  /** The inner loop: the fields of one operator. */
  method ExtractFields(before: Changes, p: FieldPolicy, op: string, fields: Document) returns (changes: Changes)
    ensures changes == before + Contribution(op, fields, p)
  {
    changes := before;
    var rest := fields.Keys;
    while rest != {}
      invariant rest <= fields.Keys
      invariant forall k :: k in changes <==>
        k in before || (k in fields && k !in rest && Kept(p, k))
      invariant forall k :: k in changes && k in fields && k !in rest && Kept(p, k) ==>
        changes[k] == OpEntry(op, p, k, fields[k])
      invariant forall k :: k in changes && !(k in fields && k !in rest && Kept(p, k)) ==>
        changes[k] == before[k]
      decreases rest
    {
      var k :| k in rest;
      rest := rest - {k};
      var value :=
        if op == "$set" then fields[k]
        else if op == "$unset" then Null
        else Doc(map[op := fields[k]]);
      changes := Record(changes, p, k, value);
    }
  }

  method ExtractUpdateChanges(update: Update, p: FieldPolicy)
    returns (changes: Changes, ghost order: seq<string>)
    ensures IsOrder(order, OpsOf(update).Keys)
    ensures changes == Extraction(order, OpsOf(update), p)
    ensures exists o :: IsOrder(o, OpsOf(update).Keys) && changes == Extraction(o, OpsOf(update), p)
  {
    var updateMap := OpsOf(update);
    changes, order := map[], [];
    var restOps := updateMap.Keys;
    while restOps != {}
      invariant restOps <= updateMap.Keys
      invariant IsOrder(order, updateMap.Keys - restOps)
      invariant changes == Extraction(order, updateMap, p)
      decreases restOps
    {
      var op :| op in restOps;
      restOps := restOps - {op};
      var fields := FieldsOf(updateMap[op]);
      changes := ExtractFields(changes, p, op, fields);
      ghost var longer := order + [op];
      assert longer[..|longer| - 1] == order;
      order := longer;
    }
  }

  /** The closure `record` of the extraction. */
  method Record(changes: Changes, p: FieldPolicy, field: string, value: Value) returns (r: Changes)
    ensures r == if !Kept(p, field) then changes
                 else changes[field := if field in p.redacted then Change(Mask(p), Mask(p)) else Change(Null, value)]
  {
    if field in p.skip { return changes; }
    if !IncludedField(field, p.only, p.redacted) { return changes; }
    if field in p.redacted { return changes[field := Change(Mask(p), Mask(p))]; }
    return changes[field := Change(Null, value)];
  }
}
