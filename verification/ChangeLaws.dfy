/** What the change maps mean: patching with a diff moves between the two
    documents, and operator extraction is independent of Go's map order
    exactly when no two operators disagree on a field. */
module ChangeLaws {
  import opened Values
  import opened FieldPolicies
  import opened ChangeBuilders

  // ---------------------------------------------------------------------
  // Patching
  // ---------------------------------------------------------------------

  /** Applies one side of a change map: nil removes, anything else sets. */
  function Patched(doc: Document, side: map<string, Value>): Document {
    map k | k in doc.Keys + side.Keys && (k in side ==> side[k] != Null)
      :: if k in side then side[k] else doc[k]
  }

  function After(changes: Changes): map<string, Value> {
    map k | k in changes :: changes[k].after
  }

  function Before(changes: Changes): map<string, Value> {
    map k | k in changes :: changes[k].before
  }

  function Forward(doc: Document, changes: Changes, p: FieldPolicy): Document {
    Patched(doc, After(ClearPart(changes, p)))
  }

  function Backward(doc: Document, changes: Changes, p: FieldPolicy): Document {
    Patched(doc, Before(ClearPart(changes, p)))
  }

  /** Every clear field of `target` holding nil held nil in `source` already. */
  predicate NilsCarriedOver(source: Document, target: Document, p: FieldPolicy) {
    forall k | k in target && Clear(p, k) && target[k] == Null :: k in source && source[k] == Null
  }

  /** Patching the old projection with the diff gives the new projection,
      exactly when no clear field became nil (an entry cannot tell "set to nil"
      from "removed"). */
  lemma ForwardPatchIff(old': Document, new': Document, p: FieldPolicy)
    ensures Forward(Project(old', p), Diff(old', new', p), p) == Project(new', p)
       <==> NilsCarriedOver(old', new', p)
  {
    var patched := Forward(Project(old', p), Diff(old', new', p), p);
    if NilsCarriedOver(old', new', p) {
      assert forall k :: k in patched <==> k in Project(new', p);
    } else {
      var k :| k in new' && Clear(p, k) && new'[k] == Null && !(k in old' && old'[k] == Null);
      assert k in ClearPart(Diff(old', new', p), p);
      assert k in Project(new', p) && k !in patched;
    }
  }

  /** Swapping the documents swaps the sides of every clear entry. */
  lemma DiffReversed(old': Document, new': Document, p: FieldPolicy)
    ensures ClearPart(Diff(new', old', p), p).Keys == ClearPart(Diff(old', new', p), p).Keys
    ensures After(ClearPart(Diff(new', old', p), p)) == Before(ClearPart(Diff(old', new', p), p))
  {
    var there, back := ClearPart(Diff(old', new', p), p), ClearPart(Diff(new', old', p), p);
    assert forall k :: k in there <==> k in back;
  }

  lemma BackwardPatchIff(old': Document, new': Document, p: FieldPolicy)
    ensures Backward(Project(new', p), Diff(old', new', p), p) == Project(old', p)
       <==> NilsCarriedOver(new', old', p)
  {
    DiffReversed(old', new', p);
    ForwardPatchIff(new', old', p);
  }

  /** The diff shows no clear field exactly when the documents agree on what
      may be shown. */
  lemma NoClearChangeIff(old': Document, new': Document, p: FieldPolicy)
    ensures ClearPart(Diff(old', new', p), p) == map[] <==> Project(old', p) == Project(new', p)
  {
    var shown := ClearPart(Diff(old', new', p), p);
    if shown == map[] {
      forall k | Clear(p, k)
        ensures Lookup(old', k) == Lookup(new', k)
      {
        assert k !in shown;
      }
      assert forall k :: k in Project(old', p) <==> k in Project(new', p);
    } else {
      var k :| k in shown;
      assert Lookup(Project(old', p), k) != Lookup(Project(new', p), k);
    }
  }

  /** A delete entry is the diff against the empty document, and an insert entry
      the diff from it (on redacted fields an insert hides the absent old side). */
  lemma InsertAndDeleteAreDiffs(doc: Document, p: FieldPolicy)
    ensures Deletion(doc, p) == Diff(doc, map[], p)
    ensures ClearPart(Creation(doc, p), p) == ClearPart(Diff(map[], doc, p), p)
    ensures Creation(doc, p).Keys == Diff(map[], doc, p).Keys
  {
    assert forall k :: k in Deletion(doc, p) <==> k in Diff(doc, map[], p);
    assert forall k :: k in Creation(doc, p) <==> k in Diff(map[], doc, p);
  }

  // ---------------------------------------------------------------------
  // Order of the operators
  // ---------------------------------------------------------------------

  predicate Touches(ops: map<string, OperatorArg>, p: FieldPolicy, op: string, k: string) {
    k in FieldsUnder(ops, op) && Kept(p, k)
  }

  function EntryFor(ops: map<string, OperatorArg>, p: FieldPolicy, op: string, k: string): Change
    requires Touches(ops, p, op, k)
  {
    OpEntry(op, p, k, FieldsUnder(ops, op)[k])
  }

  /** No two operators record different pairs for one field. */
  ghost predicate OperatorsAgree(ops: map<string, OperatorArg>, p: FieldPolicy) {
    forall a, b, k | Touches(ops, p, a, k) && Touches(ops, p, b, k) ::
      EntryFor(ops, p, a, k) == EntryFor(ops, p, b, k)
  }

  ghost predicate OrderIndependent(ops: map<string, OperatorArg>, p: FieldPolicy) {
    forall o1, o2 | IsOrder(o1, ops.Keys) && IsOrder(o2, ops.Keys) ::
      Extraction(o1, ops, p) == Extraction(o2, ops, p)
  }

  /** A field is recorded exactly when an operator of the order touches it, with
      the pair of such an operator; the last operator always wins. */
  lemma {:induction false} ExtractionAt(order: seq<string>, ops: map<string, OperatorArg>, p: FieldPolicy, k: string)
    ensures k in Extraction(order, ops, p) <==> exists op :: op in order && Touches(ops, p, op, k)
    ensures k in Extraction(order, ops, p) ==>
      exists op :: op in order && Touches(ops, p, op, k) && Extraction(order, ops, p)[k] == EntryFor(ops, p, op, k)
    ensures order != [] && Touches(ops, p, order[|order| - 1], k) ==>
      Extraction(order, ops, p)[k] == EntryFor(ops, p, order[|order| - 1], k)
  {
    if order == [] {
    } else {
      var last, init := order[|order| - 1], order[..|order| - 1];
      ExtractionAt(init, ops, p, k);
      assert forall op :: op in order <==> op in init || op == last;
      assert Touches(ops, p, last, k) <==> k in Contribution(last, FieldsUnder(ops, last), p);
    }
  }

  lemma {:induction false} OrderEndingIn(keys: set<string>, last: string) returns (order: seq<string>)
    requires last in keys
    ensures IsOrder(order, keys) && order != [] && order[|order| - 1] == last
  {
    var init := OrderOf(keys - {last});
    order := init + [last];
  }

  lemma {:induction false} OrderOf(keys: set<string>) returns (order: seq<string>)
    ensures IsOrder(order, keys)
  {
    if keys == {} {
      order := [];
    } else {
      var k :| k in keys;
      var init := OrderOf(keys - {k});
      order := init + [k];
    }
  }

  /** Every iteration order gives the same map if and only if the operators agree
      on every field they share. */
  lemma OrderIndependentIff(ops: map<string, OperatorArg>, p: FieldPolicy)
    ensures OrderIndependent(ops, p) <==> OperatorsAgree(ops, p)
  {
    if OperatorsAgree(ops, p) {
      forall o1, o2 | IsOrder(o1, ops.Keys) && IsOrder(o2, ops.Keys)
        ensures Extraction(o1, ops, p) == Extraction(o2, ops, p)
      {
        AgreeingOrders(o1, o2, ops, p);
      }
    } else {
      var a, b, k :| Touches(ops, p, a, k) && Touches(ops, p, b, k) &&
                     EntryFor(ops, p, a, k) != EntryFor(ops, p, b, k);
      var o1 := OrderEndingIn(ops.Keys, a);
      var o2 := OrderEndingIn(ops.Keys, b);
      ExtractionAt(o1, ops, p, k);
      ExtractionAt(o2, ops, p, k);
    }
  }

  lemma AgreeingOrders(o1: seq<string>, o2: seq<string>, ops: map<string, OperatorArg>, p: FieldPolicy)
    requires OperatorsAgree(ops, p) && IsOrder(o1, ops.Keys) && IsOrder(o2, ops.Keys)
    ensures Extraction(o1, ops, p) == Extraction(o2, ops, p)
  {
    var e1, e2 := Extraction(o1, ops, p), Extraction(o2, ops, p);
    forall k
      ensures k in e1 <==> k in e2
      ensures k in e1 ==> e1[k] == e2[k]
    {
      ExtractionAt(o1, ops, p, k);
      ExtractionAt(o2, ops, p, k);
    }
    assert e1.Keys == e2.Keys;
  }

  /** With the operators in agreement, extraction is the union of what each
      operator contributes on its own. */
  lemma ExtractionIsUnion(order: seq<string>, ops: map<string, OperatorArg>, p: FieldPolicy, op: string, k: string)
    requires OperatorsAgree(ops, p) && IsOrder(order, ops.Keys) && Touches(ops, p, op, k)
    ensures k in Extraction(order, ops, p)
    ensures Extraction(order, ops, p)[k] == Contribution(op, FieldsUnder(ops, op), p)[k]
  {
    ExtractionAt(order, ops, p, k);
  }
}
