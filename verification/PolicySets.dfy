/** The sets behind a field policy live on the heap and are shared: merging may
    return one of its arguments, and tag sets are cached per type. This module
    shows that sharing is never observable, whatever callers do to the policy
    they were handed. */
module PolicySets {
  import opened Values
  import opened FieldPolicies
  import opened StructTags

  /** A Go map used as a set; null is the nil map. */
  class StringSet {
    var elems: set<string>

    constructor (elems: set<string>)
      ensures this.elems == elems
    {
      this.elems := elems;
    }
  }

  function Elems(s: StringSet?): set<string>
    reads s
  {
    if s == null then {} else s.elems
  }

  function Optional(s: StringSet?): Option<set<string>>
    reads s
  {
    if s == null then None else Some(s.elems)
  }

  /** structAuditInfo: a value whose sets are shared. */
  datatype AuditInfo = AuditInfo(redacted: StringSet?, skip: StringSet?, only: StringSet?, ops: StringSet?)

  /** The sets handed to change computers and deferral handlers. */
  datatype HandedPolicy = HandedPolicy(skip: StringSet?, redacted: StringSet?, only: StringSet?)

  function Cell(s: StringSet?): set<StringSet> {
    if s == null then {} else {s}
  }

  function Cells(info: AuditInfo): set<StringSet> {
    Cell(info.redacted) + Cell(info.skip) + Cell(info.only) + Cell(info.ops)
  }

  function HandedCells(p: HandedPolicy): set<StringSet> {
    Cell(p.skip) + Cell(p.redacted) + Cell(p.only)
  }

  function InfoValue(info: AuditInfo): TagSets
    reads Cells(info)
  {
    TagSets(Elems(info.redacted), Elems(info.skip), Optional(info.only), Optional(info.ops))
  }

  /** The policy of a call: configuration, collection tags, and the tags of the
      document at hand. */
  function Effective(skip: set<string>, redacted: set<string>, info: TagSets, extra: TagSets, mask: string): FieldPolicy {
    FieldPolicy(skip + info.skip + extra.skip, redacted + info.redacted + extra.redacted,
                if extra.only.Some? then extra.only else info.only, mask)
  }

  /** What a call's policy does with a field: it is skipped or redacted when the
      configuration, the collection's tags or the document's tags say so, and a
      document's whitelist takes the place of the collection's. */
  lemma EffectiveTreats(skip: set<string>, redacted: set<string>, info: TagSets, extra: TagSets, mask: string, k: string)
    ensures var p := Effective(skip, redacted, info, extra, mask);
      && p.redactedValue == mask
      && (k in p.redacted <==> k in redacted || k in info.redacted || k in extra.redacted)
      && (Recorded(p, k) <==>
            && k != "_id" && k !in skip && k !in info.skip && k !in extra.skip
            && (|| (extra.only.Some? && k in extra.only.value)
                || (extra.only.None? && (info.only.None? || k in info.only.value))
                || k in redacted || k in info.redacted || k in extra.redacted))
  {
  }

  /** Inserts and replacements pass the tags of their document, updates and deletes
      pass none. Both get the same policy exactly when the collection's own sets
      already cover those tags. */
  lemma SamePolicyIff(skip: set<string>, redacted: set<string>, info: TagSets, extra: TagSets, mask: string)
    ensures Effective(skip, redacted, info, extra, mask) == Effective(skip, redacted, info, NoTags, mask)
       <==> (extra.skip <= skip + info.skip && extra.redacted <= redacted + info.redacted &&
             (extra.only.Some? ==> extra.only == info.only))
  {
    var with, without := Effective(skip, redacted, info, extra, mask), Effective(skip, redacted, info, NoTags, mask);
    assert without.skip == skip + info.skip && without.redacted == redacted + info.redacted;
    if with == without {
      assert extra.skip <= with.skip && extra.redacted <= with.redacted;
    }
  }

  /** A collection opened for the type its documents have is in that case. */
  lemma CollectionForFixesThePolicy(skip: set<string>, redacted: set<string>, tags: TagSets, mask: string)
    ensures Effective(skip, redacted, tags, tags, mask) == Effective(skip, redacted, tags, NoTags, mask)
  {
    SamePolicyIff(skip, redacted, tags, tags, mask);
  }

  method MergeStringSets(a: StringSet?, b: StringSet?) returns (r: StringSet?)
    ensures Elems(r) == Elems(a) + Elems(b)
    ensures r == a || r == b || (r != null && fresh(r))
    ensures Elems(b) == {} ==> r == a
  {
    if b == null || |b.elems| == 0 { return a; }
    if a == null || |a.elems| == 0 { return b; }
    r := new StringSet(a.elems + b.elems);
  }

  method CloneStringSet(source: StringSet?) returns (clone: StringSet?)
    ensures Optional(clone) == Optional(source)
    ensures clone != null ==> fresh(clone)
  {
    if source == null { return null; }
    clone := new StringSet(source.elems);
  }

  method NewSet(source: Option<set<string>>) returns (s: StringSet?)
    ensures Optional(s) == source
    ensures s != null ==> fresh(s)
  {
    if source.None? { return null; }
    s := new StringSet(source.value);
  }

  /** A fresh walk over the type, into sets of its own. */
  method Collect(fields: seq<GoField>) returns (i: AuditInfo)
    ensures fresh(Cells(i)) && InfoValue(i) == WithFields(NoTags, fields)
  {
    var collected := new TagInfo();
    CollectStructTags(fields, collected);
    var redacted := new StringSet(collected.redacted);
    var skip := new StringSet(collected.skip);
    var only := NewSet(collected.only);
    var ops := NewSet(collected.ops);
    i := AuditInfo(redacted, skip, only, ops);
  }

  /** What may happen next: a thread looks a type's tags up, publishes what it
      collected after a miss, computes a policy (for a document with tags, or for an
      update or delete, which has none), or scribbles on one it was given. */
  datatype Event =
    | LookUp(thread: nat, typ: nat)
    | Publish(thread: nat)
    | Serve(thread: nat)
    | ServeUntagged
    | Scribble(given: nat)

  class Auditor {
    const types: map<nat, seq<GoField>>
    const mask: string
    const skip: StringSet
    const redacted: StringSet
    const info: AuditInfo
    var cache: map<nat, AuditInfo>
    var held: map<nat, (nat, AuditInfo)>
    ghost const skip0: set<string>
    ghost const redacted0: set<string>
    ghost const info0: TagSets
    ghost var owned: set<StringSet>

    constructor (types: map<nat, seq<GoField>>, mask: string, skip: StringSet, redacted: StringSet, info: AuditInfo)
      ensures Valid() && this.types == types && this.mask == mask
      ensures skip0 == skip.elems && redacted0 == redacted.elems && info0 == InfoValue(info)
      ensures owned == {skip, redacted} + Cells(info)
    {
      this.types, this.mask, this.skip, this.redacted, this.info := types, mask, skip, redacted, info;
      cache, held := map[], map[];
      skip0, redacted0, info0 := skip.elems, redacted.elems, InfoValue(info);
      owned := {skip, redacted} + Cells(info);
    }

    /** The cached or collected info of a type is what a fresh walk would collect. */
    ghost predicate Describes(typ: nat, i: AuditInfo)
      reads this, owned
    {
      typ in types && Cells(i) <= owned && InfoValue(i) == WithFields(NoTags, types[typ])
    }

    ghost predicate Valid()
      reads this, owned
    {
      && skip in owned && redacted in owned && Cells(info) <= owned
      && skip.elems == skip0 && redacted.elems == redacted0 && InfoValue(info) == info0
      && (forall t | t in cache :: Describes(t, cache[t]))
      && (forall h | h in held :: Describes(held[h].0, held[h].1))
    }

    /** The tags of a call: those of its document's type, or none. */
    ghost function TagsOf(typ: Option<nat>): TagSets {
      if typ.Some? && typ.value in types then WithFields(NoTags, types[typ.value]) else NoTags
    }

    /** The policy every call for a type, or without a document, must get. */
    ghost function Expected(typ: Option<nat>): FieldPolicy {
      Effective(skip0, redacted0, info0, TagsOf(typ), mask)
    }

    /** A hit shares the cached sets; a miss walks the type. */
    method AuditTagsFromStruct(typ: nat) returns (i: AuditInfo)
      requires Valid() && typ in types
      modifies this`owned
      ensures Valid() && Describes(typ, i)
      ensures old(owned) <= owned && fresh(owned - old(owned))
    {
      if typ in cache {
        return cache[typ];
      }
      i := Collect(types[typ]);
      owned := owned + Cells(i);
    }

    /** A thread holds the info of the type it looked up. */
    method LookUp(thread: nat, typ: nat)
      requires Valid() && typ in types
      modifies this
      ensures Valid() && old(owned) <= owned && fresh(owned - old(owned))
    {
      var i := AuditTagsFromStruct(typ);
      held := held[thread := (typ, i)];
    }

    method Publish(thread: nat)
      requires Valid() && thread in held
      modifies this`cache
      ensures Valid()
    {
      cache := cache[held[thread].0 := held[thread].1];
    }

    /** The sets handed out are the caller's own: they hold the expected policy and
        none of them is shared with the auditor. */
    method FieldPolicy(extra: AuditInfo) returns (p: HandedPolicy)
      requires Valid() && Cells(extra) <= owned
      ensures fresh(HandedCells(p))
      ensures FieldPolicies.FieldPolicy(Elems(p.skip), Elems(p.redacted), Optional(p.only), mask) ==
              Effective(skip0, redacted0, info0, InfoValue(extra), mask)
    {
      var chosen := info.only;
      if extra.only != null {
        chosen := extra.only;
      }
      var skips := MergeStringSets(skip, info.skip);
      skips := MergeStringSets(skips, extra.skip);
      var redactions := MergeStringSets(redacted, info.redacted);
      redactions := MergeStringSets(redactions, extra.redacted);
      var p0 := CloneStringSet(skips);
      var p1 := CloneStringSet(redactions);
      var p2 := CloneStringSet(chosen);
      p := HandedPolicy(p0, p1, p2);
    }

    /** Computes a policy from what the thread holds, and reads it once. */
    method Serve(thread: nat) returns (p: HandedPolicy, seen: FieldPolicies.FieldPolicy)
      requires Valid() && thread in held
      ensures fresh(HandedCells(p))
      ensures held[thread].0 in types && seen == Expected(Some(held[thread].0))
    {
      p := FieldPolicy(held[thread].1);
      seen := FieldPolicies.FieldPolicy(Elems(p.skip), Elems(p.redacted), Optional(p.only), mask);
    }

    /** The same for an update or delete. */
    method ServeUntagged() returns (p: HandedPolicy, seen: FieldPolicies.FieldPolicy)
      requires Valid()
      ensures fresh(HandedCells(p))
      ensures seen == Expected(None)
    {
      p := FieldPolicy(AuditInfo(null, null, null, null));
      seen := FieldPolicies.FieldPolicy(Elems(p.skip), Elems(p.redacted), Optional(p.only), mask);
    }

    /** A lookup or a publication, where the thread is in a position to make it. */
    method Prepare(e: Event)
      requires Valid() && (e.LookUp? || e.Publish?)
      modifies this
      ensures Valid() && old(owned) <= owned && fresh(owned - old(owned))
    {
      match e {
        case LookUp(thread, typ) =>
          if typ in types {
            LookUp(thread, typ);
          }
        case Publish(thread) =>
          if thread in held {
            Publish(thread);
          }
      }
    }

    /** The policy of one call, and whose tags it is for. */
    method Answer(e: Event) returns (p: HandedPolicy, typ: Option<nat>, seen: FieldPolicies.FieldPolicy)
      requires Valid() && (e.ServeUntagged? || (e.Serve? && e.thread in held))
      ensures fresh(HandedCells(p))
      ensures typ == if e.Serve? then Some(held[e.thread].0) else None
      ensures (typ.Some? ==> typ.value in types) && seen == Expected(typ)
    {
      if e.Serve? {
        p, seen := Serve(e.thread);
        typ := Some(held[e.thread].0);
      } else {
        p, seen := ServeUntagged();
        typ := None;
      }
    }

    /** Runs any schedule of threads and of tampering with handed-out policies.
        Every policy served is the expected one of its call. */
    method Run(schedule: seq<Event>) returns (served: seq<(Option<nat>, FieldPolicies.FieldPolicy)>)
      requires Valid()
      modifies this
      ensures Valid()
      ensures forall s | s in served :: (s.0.Some? ==> s.0.value in types) && s.1 == Expected(s.0)
    {
      served := [];
      var given: seq<HandedPolicy> := [];
      ghost var scribbled: set<StringSet> := {};
      for n := 0 to |schedule|
        invariant Valid() && old(owned) <= owned
        invariant fresh(scribbled) && scribbled !! owned
        invariant forall g | g in given :: HandedCells(g) <= scribbled
        invariant forall s | s in served :: (s.0.Some? ==> s.0.value in types) && s.1 == Expected(s.0)
      {
        var e := schedule[n];
        if e.LookUp? || e.Publish? {
          Prepare(e);
        } else if e.Scribble? {
          if e.given < |given| {
            Tamper(given[e.given]);
          }
        } else if e.ServeUntagged? || e.thread in held {
          var p, typ, seen := Answer(e);
          served := served + [(typ, seen)];
          given := given + [p];
          scribbled := scribbled + HandedCells(p);
        }
      }
    }

    /** A computer or handler writes whatever it likes to the sets it was given. */
    method Tamper(p: HandedPolicy)
      requires Valid() && HandedCells(p) !! owned
      modifies HandedCells(p)
      ensures Valid()
    {
      modify HandedCells(p);
    }
  }
}
