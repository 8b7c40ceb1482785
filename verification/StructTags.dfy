/** Field policies read from struct tags: the MongoDB wrapper collects name sets
    by walking the type, the GORM plugin looks at each schema field. */
module StructTags {
  import opened Values
  import opened FieldPolicies
  import opened GormChanges

  datatype GoType = Struct(fields: seq<GoField>) | Pointer(elem: GoType) | Opaque

  datatype GoField = GoField(name: string, anonymous: bool, bsonTag: string, auditTag: string, typ: GoType)

  /** structAuditInfo; None is Go's nil set. */
  datatype TagSets = TagSets(
    redacted: set<string>,
    skip: set<string>,
    only: Option<set<string>>,
    ops: Option<set<string>>)

  const NoTags := TagSets({}, {}, None, None)

  // ---------------------------------------------------------------------
  // Names
  // ---------------------------------------------------------------------

  function LowerChar(c: char): char {
    if 'A' <= c <= 'Z' then (c as int + 32) as char else c
  }

  function ToLower(s: string): string {
    if s == "" then "" else [LowerChar(s[0])] + ToLower(s[1..])
  }

  function BeforeComma(s: string): string {
    if s == "" || s[0] == ',' then "" else [s[0]] + BeforeComma(s[1..])
  }

  function BsonName(f: GoField): string {
    var named := BeforeComma(f.bsonTag);
    if named != "" && named != "-" then named else ToLower(f.name)
  }

  predicate IsInline(f: GoField) {
    f.bsonTag == ",inline" || (f.anonymous && f.bsonTag == "")
  }

  // ---------------------------------------------------------------------
  // The ops flag
  // ---------------------------------------------------------------------

  function Split(s: string): (parts: seq<string>)
    ensures |parts| >= 1
  {
    if s == "" then [""]
    else
      var rest := Split(s[1..]);
      if s[0] == ',' then [""] + rest else [[s[0]] + rest[0]] + rest[1..]
  }

  predicate IsSpace(c: char) {
    c in {' ', '\t', '\n', '\U{0B}', '\U{0C}', '\r', '\U{85}', '\U{A0}'}
  }

  function TrimSpace(s: string): string {
    if s == "" then ""
    else if IsSpace(s[0]) then TrimSpace(s[1..])
    else if IsSpace(s[|s| - 1]) then TrimSpace(s[..|s| - 1])
    else s
  }

  const OPS := {"create", "update", "delete"}

  function WithOps(info: TagSets, parts: seq<string>): TagSets {
    if parts == [] then info
    else
      var before, op := WithOps(info, parts[..|parts| - 1]), TrimSpace(ToLower(parts[|parts| - 1]));
      if op !in OPS then before
      else before.(ops := Some((if before.ops.Some? then before.ops.value else {}) + {op}))
  }

  // ---------------------------------------------------------------------
  // Collecting the sets
  // ---------------------------------------------------------------------

  function WithTag(info: TagSets, tag: string, name: string): TagSets {
    if tag == "-" || tag == "false" then info.(skip := info.skip + {name})
    else if tag == "redact" then info.(redacted := info.redacted + {name})
    else if tag == "true" || tag == "only" then
      info.(only := Some((if info.only.Some? then info.only.value else {}) + {name}))
    else info
  }

  function WithField(info: TagSets, f: GoField): TagSets
    decreases f, 0
  {
    if IsInline(f) then
      var marked := if f.auditTag != "" then WithOps(info, Split(f.auditTag)) else info;
      match f.typ
      case Struct(inner) => WithFields(marked, inner)
      case Pointer(Struct(inner)) => WithFields(marked, inner)
      case _ => marked
    else WithTag(info, f.auditTag, BsonName(f))
  }

  function WithFields(info: TagSets, fields: seq<GoField>): TagSets
    decreases fields, |fields|
  {
    if fields == [] then info
    else WithField(WithFields(info, fields[..|fields| - 1]), fields[|fields| - 1])
  }

  /** The sets under construction, filled through a pointer. */
  class TagInfo {
    var redacted: set<string>
    var skip: set<string>
    var only: Option<set<string>>
    var ops: Option<set<string>>

    constructor ()
      ensures Sets() == NoTags
    {
      redacted, skip, only, ops := {}, {}, None, None;
    }

    function Sets(): TagSets
      reads this
    {
      TagSets(redacted, skip, only, ops)
    }
  }

  method ParseOpsTag(tag: string, info: TagInfo)
    modifies info
    ensures info.Sets() == WithOps(old(info.Sets()), Split(tag))
  {
    var parts := Split(tag);
    for i := 0 to |parts|
      invariant info.Sets() == WithOps(old(info.Sets()), parts[..i])
    {
      assert parts[..i + 1][..i] == parts[..i];
      var op := TrimSpace(ToLower(parts[i]));
      if op == "create" || op == "update" || op == "delete" {
        if info.ops.None? {
          info.ops := Some({});
        }
        info.ops := Some(info.ops.value + {op});
      }
    }
    assert parts[..|parts|] == parts;
  }

  method CollectStructTags(fields: seq<GoField>, info: TagInfo)
    modifies info
    ensures info.Sets() == WithFields(old(info.Sets()), fields)
    decreases fields
  {
    for i := 0 to |fields|
      invariant info.Sets() == WithFields(old(info.Sets()), fields[..i])
    {
      assert fields[..i + 1][..i] == fields[..i];
      var field := fields[i];
      if IsInline(field) {
        if field.auditTag != "" {
          ParseOpsTag(field.auditTag, info);
        }
        match field.typ {
          case Struct(inner) => CollectStructTags(inner, info);
          case Pointer(Struct(inner)) => CollectStructTags(inner, info);
          case _ =>
        }
        continue;
      }
      var name := BsonName(field);
      if field.auditTag == "-" || field.auditTag == "false" {
        info.skip := info.skip + {name};
      } else if field.auditTag == "redact" {
        info.redacted := info.redacted + {name};
      } else if field.auditTag == "true" || field.auditTag == "only" {
        if info.only.None? {
          info.only := Some({});
        }
        info.only := Some(info.only.value + {name});
      }
    }
    assert fields[..|fields|] == fields;
  }

  // ---------------------------------------------------------------------
  // The flattened fields
  // ---------------------------------------------------------------------

  /** A document field after flattening: the Go field, its BSON name, its tag. */
  datatype Leaf = Leaf(goName: string, bsonName: string, tag: string)

  function LeavesOf(f: GoField): seq<Leaf>
    decreases f, 0
  {
    if IsInline(f) then
      match f.typ
      case Struct(inner) => Leaves(inner)
      case Pointer(Struct(inner)) => Leaves(inner)
      case _ => []
    else [Leaf(f.name, BsonName(f), f.auditTag)]
  }

  function Leaves(fields: seq<GoField>): seq<Leaf>
    decreases fields, |fields|
  {
    if fields == [] then []
    else Leaves(fields[..|fields| - 1]) + LeavesOf(fields[|fields| - 1])
  }

  datatype TagKind = SkipTag | RedactTag | OnlyTag | PlainTag

  function KindOf(tag: string): TagKind {
    if tag == "-" || tag == "false" then SkipTag
    else if tag == "redact" then RedactTag
    else if tag == "true" || tag == "only" then OnlyTag
    else PlainTag
  }

  ghost predicate Tagged(leaves: seq<Leaf>, name: string, kind: TagKind) {
    exists l :: l in leaves && l.bsonName == name && KindOf(l.tag) == kind
  }

  ghost predicate AnyOnly(leaves: seq<Leaf>) {
    exists l :: l in leaves && KindOf(l.tag) == OnlyTag
  }

  /** `after` adds to `before` exactly the names the leaves tag. */
  ghost predicate Adds(before: TagSets, leaves: seq<Leaf>, after: TagSets) {
    && (forall n :: n in after.skip <==> n in before.skip || Tagged(leaves, n, SkipTag))
    && (forall n :: n in after.redacted <==> n in before.redacted || Tagged(leaves, n, RedactTag))
    && (after.only.Some? <==> before.only.Some? || AnyOnly(leaves))
    && (after.only.Some? ==> forall n ::
          n in after.only.value <==> (before.only.Some? && n in before.only.value) || Tagged(leaves, n, OnlyTag))
  }

  lemma AddsCompose(a: TagSets, l1: seq<Leaf>, b: TagSets, l2: seq<Leaf>, c: TagSets)
    requires Adds(a, l1, b) && Adds(b, l2, c)
    ensures Adds(a, l1 + l2, c)
  {
    forall n, kind
      ensures Tagged(l1 + l2, n, kind) <==> Tagged(l1, n, kind) || Tagged(l2, n, kind)
    {
      assert forall l :: l in l1 + l2 <==> l in l1 || l in l2;
    }
    assert AnyOnly(l1 + l2) <==> AnyOnly(l1) || AnyOnly(l2);
    assert forall n :: n in c.skip <==> n in a.skip || Tagged(l1, n, SkipTag) || Tagged(l2, n, SkipTag);
  }

  lemma {:induction false} OpsKeepTags(info: TagSets, parts: seq<string>)
    ensures WithOps(info, parts) == info.(ops := WithOps(info, parts).ops)
  {
    if parts != [] {
      OpsKeepTags(info, parts[..|parts| - 1]);
    }
  }

  lemma {:induction false} FieldAdds(info: TagSets, f: GoField)
    ensures Adds(info, LeavesOf(f), WithField(info, f))
    decreases f, 0
  {
    if IsInline(f) {
      OpsKeepTags(info, Split(f.auditTag));
      var marked := if f.auditTag != "" then WithOps(info, Split(f.auditTag)) else info;
      match f.typ {
        case Struct(inner) => FieldsAdd(marked, inner);
        case Pointer(Struct(inner)) => FieldsAdd(marked, inner);
        case _ => assert Adds(info, [], marked);
      }
    } else {
      var l := Leaf(f.name, BsonName(f), f.auditTag);
      assert forall x :: x in [l] <==> x == l;
    }
  }

  /** Walking the type collects what a look at its flattened fields would. */
  lemma {:induction false} FieldsAdd(info: TagSets, fields: seq<GoField>)
    ensures Adds(info, Leaves(fields), WithFields(info, fields))
    decreases fields, |fields|
  {
    if fields == [] {
    } else {
      var init, last := fields[..|fields| - 1], fields[|fields| - 1];
      FieldsAdd(info, init);
      FieldAdds(WithFields(info, init), last);
      AddsCompose(info, Leaves(init), WithFields(info, init), LeavesOf(last), WithFields(info, fields));
    }
  }

  // ---------------------------------------------------------------------
  // Agreement of the two libraries
  // ---------------------------------------------------------------------

  /** How an audit entry treats a field. */
  datatype View = Hidden | Masked | InClear

  /** The MongoDB wrapper's policy for a tagged type and no configured sets beyond
      the built-in timestamps. */
  function TagPolicy(fields: seq<GoField>): FieldPolicy {
    var sets := WithFields(NoTags, fields);
    FieldPolicy(sets.skip + {"updated_at", "created_at"}, sets.redacted, sets.only, "[REDACTED]")
  }

  function MongoView(fields: seq<GoField>, bsonName: string): View {
    var p := TagPolicy(fields);
    if !Recorded(p, bsonName) then Hidden else if bsonName in p.redacted then Masked else InClear
  }

  /** The schema GORM sees: the same flattened fields. */
  function SchemaOf(leaves: seq<Leaf>): seq<FieldSpec> {
    seq(|leaves|, i requires 0 <= i < |leaves| => FieldSpec(leaves[i].goName, leaves[i].bsonName, leaves[i].tag))
  }

  function GormView(fields: seq<GoField>, l: Leaf): View {
    if !GormChanges.Audited(FieldSpec(l.goName, l.bsonName, l.tag), OnlyMode(SchemaOf(Leaves(fields)))) then Hidden
    else if l.tag == "redact" then Masked else InClear
  }

  /** Fields one library leaves out on its own account: GORM the timestamps by Go
      name, the wrapper two of them and "_id" by BSON name. */
  predicate IsBuiltIn(l: Leaf) {
    IsTimestamp(l.goName) || l.bsonName in {ID_FIELD, "updated_at", "created_at"}
  }

  /** No other field uses the BSON name of a built-in one. */
  predicate BuiltInsApart(leaves: seq<Leaf>) {
    forall a, b | a in leaves && b in leaves && a.bsonName == b.bsonName :: IsBuiltIn(a) == IsBuiltIn(b)
  }

  /** Fields that share a BSON name are treated alike by GORM. */
  predicate SameNameSameView(fields: seq<GoField>) {
    forall a, b | a in Leaves(fields) && b in Leaves(fields) && a.bsonName == b.bsonName && !IsBuiltIn(b) ::
      GormView(fields, a) == GormView(fields, b)
  }

  predicate DistinctNames(leaves: seq<Leaf>) {
    forall a, b | a in leaves && b in leaves :: a.bsonName == b.bsonName ==> a == b
  }

  lemma OnlyModeIsAnyOnly(leaves: seq<Leaf>)
    ensures OnlyMode(SchemaOf(leaves)) <==> AnyOnly(leaves)
  {
    var schema := SchemaOf(leaves);
    if AnyOnly(leaves) {
      var l :| l in leaves && KindOf(l.tag) == OnlyTag;
      var i :| 0 <= i < |leaves| && leaves[i] == l;
      assert IsWhitelistTag(schema[i].tag);
    }
    if OnlyMode(schema) {
      var i :| 0 <= i < |schema| && IsWhitelistTag(schema[i].tag);
      assert leaves[i] in leaves && KindOf(leaves[i].tag) == OnlyTag;
    }
  }

  /** The MongoDB decision for a name, in terms of the tags its fields carry. */
  lemma MongoViewFromTags(fields: seq<GoField>, n: string)
    requires n !in {ID_FIELD, "updated_at", "created_at"}
    ensures var leaves := Leaves(fields);
      MongoView(fields, n) ==
        if Tagged(leaves, n, SkipTag) then Hidden
        else if Tagged(leaves, n, RedactTag) then Masked
        else if AnyOnly(leaves) && !Tagged(leaves, n, OnlyTag) then Hidden
        else InClear
  {
    FieldsAdd(NoTags, fields);
  }

  /** For every nesting of inline structs, the two libraries treat every field that
      is not built in the same if and only if GORM treats fields of one BSON name the same; in
      particular when the flattened names are distinct. */
  lemma LibrariesAgreeIff(fields: seq<GoField>)
    requires BuiltInsApart(Leaves(fields))
    ensures (forall l | l in Leaves(fields) && !IsBuiltIn(l) :: MongoView(fields, l.bsonName) == GormView(fields, l))
       <==> SameNameSameView(fields)
    ensures DistinctNames(Leaves(fields)) ==> SameNameSameView(fields)
  {
    var leaves := Leaves(fields);
    OnlyModeIsAnyOnly(leaves);
    if SameNameSameView(fields) {
      forall l | l in leaves && !IsBuiltIn(l)
        ensures MongoView(fields, l.bsonName) == GormView(fields, l)
      {
        AgreeOnName(fields, l);
      }
    }
  }

  lemma AgreeOnName(fields: seq<GoField>, l: Leaf)
    requires BuiltInsApart(Leaves(fields)) && l in Leaves(fields) && !IsBuiltIn(l) && SameNameSameView(fields)
    ensures MongoView(fields, l.bsonName) == GormView(fields, l)
  {
    var leaves, n := Leaves(fields), l.bsonName;
    OnlyModeIsAnyOnly(leaves);
    MongoViewFromTags(fields, n);
    forall m | m in leaves && m.bsonName == n
      ensures GormView(fields, m) == GormView(fields, l)
      ensures Tagged(leaves, n, KindOf(m.tag))
      ensures GormView(fields, m) ==
        match KindOf(m.tag)
        case SkipTag => Hidden
        case RedactTag => Masked
        case OnlyTag => InClear
        case PlainTag => if AnyOnly(leaves) then Hidden else InClear
    {
    }
  }

  // ---------------------------------------------------------------------
  // What the walk reads, from the tags as written
  // ---------------------------------------------------------------------

  predicate HasComma(s: string) {
    ',' in s
  }

  /** The text before the first comma, or all of it. */
  lemma {:induction false} BeforeCommaIs(name: string, rest: string)
    requires !HasComma(name)
    ensures BeforeComma(name) == name && BeforeComma(name + "," + rest) == name
  {
    if name == "" {
      assert name + "," + rest == "," + rest;
    } else {
      BeforeCommaIs(name[1..], rest);
      assert (name + "," + rest)[1..] == name[1..] + "," + rest;
    }
  }

  lemma {:induction false} ToLowerAt(s: string, i: nat)
    requires i < |s|
    ensures |ToLower(s)| == |s|
    ensures ToLower(s)[i] == if 'A' <= s[i] <= 'Z' then (s[i] as int - 'A' as int + 'a' as int) as char else s[i]
  {
    if i > 0 {
      ToLowerAt(s[1..], i - 1);
    } else if |s| > 1 {
      ToLowerAt(s[1..], 0);
    }
  }

  /** A field is stored under the name its bson tag gives before the first comma,
      with or without options after it, and without one under its Go name in lower
      case. */
  lemma BsonNameIs(f: GoField, name: string, options: string)
    requires !HasComma(name) && (f.bsonTag == name || f.bsonTag == name + "," + options)
    ensures name != "" && name != "-" ==> BsonName(f) == name
    ensures name == "" || name == "-" ==> BsonName(f) == ToLower(f.name)
  {
    BeforeCommaIs(name, options);
  }

  /** Some field of the type, at any depth of inline structs and pointers to them,
      carries the tag under the name. */
  ghost predicate Declares(fields: seq<GoField>, name: string, tag: string)
    decreases fields, 0
  {
    exists i :: 0 <= i < |fields| && FieldDeclares(fields[i], name, tag)
  }

  ghost predicate FieldDeclares(f: GoField, name: string, tag: string)
    decreases f, 1
  {
    if f.bsonTag == ",inline" || (f.anonymous && f.bsonTag == "") then
      match f.typ
      case Struct(inner) => Declares(inner, name, tag)
      case Pointer(Struct(inner)) => Declares(inner, name, tag)
      case _ => false
    else BsonName(f) == name && f.auditTag == tag
  }

  lemma {:induction false} LeavesOfDeclare(f: GoField, name: string, tag: string)
    ensures (exists l :: l in LeavesOf(f) && l.bsonName == name && l.tag == tag) <==> FieldDeclares(f, name, tag)
    decreases f, 0
  {
    if IsInline(f) {
      match f.typ {
        case Struct(inner) => LeavesDeclare(inner, name, tag);
        case Pointer(Struct(inner)) => LeavesDeclare(inner, name, tag);
        case _ =>
      }
    } else {
      var l := Leaf(f.name, BsonName(f), f.auditTag);
      assert forall x :: x in LeavesOf(f) <==> x == l;
    }
  }

  lemma {:induction false} LeavesDeclare(fields: seq<GoField>, name: string, tag: string)
    ensures (exists l :: l in Leaves(fields) && l.bsonName == name && l.tag == tag) <==> Declares(fields, name, tag)
    decreases fields, |fields|
  {
    if fields != [] {
      var init, last := fields[..|fields| - 1], fields[|fields| - 1];
      LeavesDeclare(init, name, tag);
      LeavesOfDeclare(last, name, tag);
      assert forall l :: l in Leaves(fields) <==> l in Leaves(init) || l in LeavesOf(last);
      assert Declares(fields, name, tag) <==> Declares(init, name, tag) || FieldDeclares(last, name, tag) by {
        assert fields[|init|] == last && forall i :: 0 <= i < |init| ==> fields[i] == init[i];
      }
    }
  }

  /** What the walk over a type collects: names tagged out, redacted or whitelisted
      by some field of it, and nothing else. */
  lemma WalkCollects(fields: seq<GoField>, name: string)
    ensures var sets := WithFields(NoTags, fields);
      && (name in sets.skip <==> Declares(fields, name, "-") || Declares(fields, name, "false"))
      && (name in sets.redacted <==> Declares(fields, name, "redact"))
      && (sets.only.Some? && name in sets.only.value <==> Declares(fields, name, "true") || Declares(fields, name, "only"))
      && (sets.only.None? <==> forall n :: !Declares(fields, n, "true") && !Declares(fields, n, "only"))
  {
    FieldsAdd(NoTags, fields);
    TaggedIsDeclared(fields, name);
    if AnyOnly(Leaves(fields)) {
      var l :| l in Leaves(fields) && KindOf(l.tag) == OnlyTag;
      LeavesDeclare(fields, l.bsonName, l.tag);
    } else {
      forall n
        ensures !Declares(fields, n, "true") && !Declares(fields, n, "only")
      {
        LeavesDeclare(fields, n, "true");
        LeavesDeclare(fields, n, "only");
      }
    }
  }

  lemma TaggedIsDeclared(fields: seq<GoField>, name: string)
    ensures Tagged(Leaves(fields), name, SkipTag) <==> Declares(fields, name, "-") || Declares(fields, name, "false")
    ensures Tagged(Leaves(fields), name, RedactTag) <==> Declares(fields, name, "redact")
    ensures Tagged(Leaves(fields), name, OnlyTag) <==> Declares(fields, name, "true") || Declares(fields, name, "only")
  {
    LeavesDeclare(fields, name, "-");
    LeavesDeclare(fields, name, "false");
    LeavesDeclare(fields, name, "redact");
    LeavesDeclare(fields, name, "true");
    LeavesDeclare(fields, name, "only");
  }

  function Joined(parts: seq<string>): string {
    if parts == [] then ""
    else if |parts| == 1 then parts[0]
    else parts[0] + "," + Joined(parts[1..])
  }

  /** Splitting gives the comma-free parts that make up the list. */
  lemma {:induction false} SplitIs(s: string)
    ensures Joined(Split(s)) == s && forall p | p in Split(s) :: !HasComma(p)
  {
    if s != "" {
      SplitIs(s[1..]);
      var rest := Split(s[1..]);
      if s[0] == ',' {
        assert Split(s)[1..] == rest;
        assert Joined(Split(s)) == "" + "," + Joined(rest);
      } else {
        assert Split(s) == [[s[0]] + rest[0]] + rest[1..];
        assert Split(s)[1..] == rest[1..];
        assert Joined(Split(s)) == [s[0]] + Joined(rest);
        assert rest[0] in rest && forall p | p in rest[1..] :: p in rest;
      }
    }
  }

  /** Some part of the list is the operation, up to case and surrounding space. */
  ghost predicate Names(parts: seq<string>, op: string) {
    exists p :: p in parts && TrimSpace(ToLower(p)) == op
  }

  lemma NamesLast(parts: seq<string>, op: string)
    requires parts != []
    ensures Names(parts, op) <==> Names(parts[..|parts| - 1], op) || TrimSpace(ToLower(parts[|parts| - 1])) == op
  {
    assert forall p :: p in parts <==> p in parts[..|parts| - 1] || p == parts[|parts| - 1];
  }

  /** The flag on an embedded struct allows exactly the operations its list names, on
      top of those allowed before; a list that names none changes nothing. */
  lemma {:induction false} OpsAre(info: TagSets, parts: seq<string>, op: string)
    ensures var (before, after) := (info.ops, WithOps(info, parts).ops);
      && ((after.Some? && op in after.value) <==>
            (before.Some? && op in before.value) || (op in {"create", "update", "delete"} && Names(parts, op)))
      && (after.None? <==> before.None? && !Names(parts, "create") && !Names(parts, "update") && !Names(parts, "delete"))
  {
    if parts != [] {
      OpsAre(info, parts[..|parts| - 1], op);
      NamesLast(parts, op);
      NamesLast(parts, "create");
      NamesLast(parts, "update");
      NamesLast(parts, "delete");
    }
  }

  /** Some inline field of the type, at any depth, carries a flag that names the
      operation. */
  ghost predicate EmbedsOp(fields: seq<GoField>, op: string)
    decreases fields, 0
  {
    exists i :: 0 <= i < |fields| && FieldEmbedsOp(fields[i], op)
  }

  ghost predicate FieldEmbedsOp(f: GoField, op: string)
    decreases f, 1
  {
    (f.bsonTag == ",inline" || (f.anonymous && f.bsonTag == "")) &&
    ((f.auditTag != "" && Names(Split(f.auditTag), op)) ||
     match f.typ
     case Struct(inner) => EmbedsOp(inner, op)
     case Pointer(Struct(inner)) => EmbedsOp(inner, op)
     case _ => false)
  }

  predicate ListsOp(info: TagSets, op: string) {
    info.ops.Some? && op in info.ops.value
  }

  lemma {:induction false} FieldCollectsOp(info: TagSets, f: GoField, op: string)
    requires op in {"create", "update", "delete"}
    ensures ListsOp(WithField(info, f), op) <==> ListsOp(info, op) || FieldEmbedsOp(f, op)
    decreases f, 0
  {
    if IsInline(f) {
      OpsAre(info, Split(f.auditTag), op);
      var marked := if f.auditTag != "" then WithOps(info, Split(f.auditTag)) else info;
      match f.typ {
        case Struct(inner) => WalkCollectsOp(marked, inner, op);
        case Pointer(Struct(inner)) => WalkCollectsOp(marked, inner, op);
        case _ =>
      }
    }
  }

  /** The walk over a type lists exactly the operations its embedded structs name. */
  lemma {:induction false} WalkCollectsOp(info: TagSets, fields: seq<GoField>, op: string)
    requires op in {"create", "update", "delete"}
    ensures ListsOp(WithFields(info, fields), op) <==> ListsOp(info, op) || EmbedsOp(fields, op)
    decreases fields, |fields|
  {
    if fields != [] {
      var init, last := fields[..|fields| - 1], fields[|fields| - 1];
      WalkCollectsOp(info, init, op);
      FieldCollectsOp(WithFields(info, init), last, op);
      EmbedsOpLast(fields, op);
    }
  }

  lemma EmbedsOpLast(fields: seq<GoField>, op: string)
    requires fields != []
    ensures EmbedsOp(fields, op) <==> EmbedsOp(fields[..|fields| - 1], op) || FieldEmbedsOp(fields[|fields| - 1], op)
  {
    var init := fields[..|fields| - 1];
    assert forall i :: 0 <= i < |init| ==> fields[i] == init[i];
  }

  /** Trimming takes off space at both ends and nothing else. */
  lemma {:induction false} TrimSpaceIs(s: string) returns (left: string, right: string)
    ensures s == left + TrimSpace(s) + right
    ensures var spaces := {' ', '\t', '\n', '\U{0B}', '\U{0C}', '\r', '\U{85}', '\U{A0}'};
      && (forall c | c in left + right :: c in spaces)
      && (TrimSpace(s) != "" ==> TrimSpace(s)[0] !in spaces && TrimSpace(s)[|TrimSpace(s)| - 1] !in spaces)
    decreases |s|
  {
    left, right := "", "";
    if s == "" {
    } else if IsSpace(s[0]) {
      left, right := TrimSpaceIs(s[1..]);
      left := [s[0]] + left;
      assert s == [s[0]] + s[1..];
    } else if IsSpace(s[|s| - 1]) {
      left, right := TrimSpaceIs(s[..|s| - 1]);
      right := right + [s[|s| - 1]];
      assert s == s[..|s| - 1] + [s[|s| - 1]];
    }
  }
}
