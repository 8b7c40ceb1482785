/** The change maps of the GORM plugin, built from a schema's fields. */
module GormChanges {
  import opened Values
  import ChangeBuilders
  import ChangeLaws

  /** A schema field: its Go name, its column, and its `auditable` tag. */
  datatype FieldSpec = FieldSpec(name: string, dbName: string, tag: string)

  /** A row as a struct: values by Go field name. */
  type Record = map<string, Value>

  predicate IncludeField(tag: string, onlyMode: bool) {
    if tag == "-" || tag == "false" then false
    else if onlyMode && tag != "only" && tag != "true" && tag != "redact" then false
    else true
  }

  predicate IsWhitelistTag(tag: string) {
    tag == "only" || tag == "true"
  }

  method SchemaOnlyMode(fields: seq<FieldSpec>) returns (only: bool)
    ensures only == OnlyMode(fields)
  {
    for i := 0 to |fields|
      invariant forall j :: 0 <= j < i ==> !IsWhitelistTag(fields[j].tag)
    {
      if fields[i].tag == "only" || fields[i].tag == "true" {
        return true;
      }
    }
    return false;
  }

  predicate OnlyMode(fields: seq<FieldSpec>) {
    exists i :: 0 <= i < |fields| && IsWhitelistTag(fields[i].tag)
  }

  predicate IsTimestamp(name: string) {
    name == "CreatedAt" || name == "UpdatedAt" || name == "DeletedAt"
  }

  predicate Audited(f: FieldSpec, onlyMode: bool) {
    !IsTimestamp(f.name) && IncludeField(f.tag, onlyMode)
  }

  // ---------------------------------------------------------------------
  // Entries in schema order
  // ---------------------------------------------------------------------

  /** The map a loop over the fields builds when it stores `entry(f)` under the
      column of f; a later field overwrites an earlier one of the same column. */
  function Entries(fields: seq<FieldSpec>, entry: FieldSpec -> Option<Change>): Changes {
    if fields == [] then map[]
    else
      var last := fields[|fields| - 1];
      var init := Entries(fields[..|fields| - 1], entry);
      if entry(last).Some? then init[last.dbName := entry(last).value] else init
  }

  /** The map has an entry for a column exactly when a field of that column has
      one, and it is the entry of such a field. */
  lemma {:induction false} EntriesAt(fields: seq<FieldSpec>, entry: FieldSpec -> Option<Change>)
    ensures forall f | f in fields && entry(f).Some? :: f.dbName in Entries(fields, entry)
    ensures forall k | k in Entries(fields, entry) ::
      exists f :: f in fields && f.dbName == k && entry(f).Some? && Entries(fields, entry)[k] == entry(f).value
  {
    if fields != [] {
      var last, init := fields[|fields| - 1], fields[..|fields| - 1];
      EntriesAt(init, entry);
      assert forall f :: f in fields <==> f in init || f == last;
    }
  }

  /** No other audited field has the column of f. (Association fields have no
      column and share the empty name.) */
  predicate OwnColumn(fields: seq<FieldSpec>, f: FieldSpec) {
    forall g | g in fields && g.dbName == f.dbName && Audited(g, OnlyMode(fields)) :: g == f
  }

  lemma EntryOfOwnColumn(fields: seq<FieldSpec>, entry: FieldSpec -> Option<Change>, f: FieldSpec)
    requires f in fields && OwnColumn(fields, f)
    requires forall g | g in fields && entry(g).Some? :: Audited(g, OnlyMode(fields))
    ensures f.dbName in Entries(fields, entry) <==> entry(f).Some?
    ensures entry(f).Some? ==> Entries(fields, entry)[f.dbName] == entry(f).value
  {
    EntriesAt(fields, entry);
  }

  /** Which fields are audited at all, by name and tag: no built-in timestamp, no
      field tagged out, and, once some field is whitelisted, only whitelisted and
      redacted ones. */
  lemma AuditedFromTags(fields: seq<FieldSpec>, f: FieldSpec)
    ensures Audited(f, OnlyMode(fields)) <==>
      && f.name !in {"CreatedAt", "UpdatedAt", "DeletedAt"}
      && f.tag !in {"-", "false"}
      && ((exists g :: g in fields && g.tag in {"only", "true"}) ==> f.tag in {"only", "true", "redact"})
  {
    if g :| g in fields && g.tag in {"only", "true"} {
      var i :| 0 <= i < |fields| && fields[i] == g;
      assert IsWhitelistTag(fields[i].tag);
    }
  }

  /** Fields that get the same entries make the same map. */
  lemma {:induction false} SameEntries(fields: seq<FieldSpec>, a: FieldSpec -> Option<Change>, b: FieldSpec -> Option<Change>)
    requires forall f | f in fields :: a(f) == b(f)
    ensures Entries(fields, a) == Entries(fields, b)
  {
    if fields != [] {
      SameEntries(fields[..|fields| - 1], a, b);
      assert fields[|fields| - 1] in fields;
    }
  }

  // ---------------------------------------------------------------------
  // Create and delete
  // ---------------------------------------------------------------------

  datatype Single = SingleCreate | SingleDelete

  function SingleEntry(rec: Record, action: Single, onlyMode: bool, mask: Value): FieldSpec -> Option<Change> {
    (f: FieldSpec) =>
      if !Audited(f, onlyMode) then None
      else
        var shown := if f.tag == "redact" then mask else Shown(rec, f.name);
        Some(if action.SingleCreate? then Change(Null, shown) else Change(shown, Null))
  }

  method SingleChanges(fields: seq<FieldSpec>, rec: Record, action: Single, mask: Value) returns (changes: Changes)
    ensures changes == Entries(fields, SingleEntry(rec, action, OnlyMode(fields), mask))
  {
    changes := map[];
    var onlyMode := SchemaOnlyMode(fields);
    ghost var entry := SingleEntry(rec, action, onlyMode, mask);
    for i := 0 to |fields|
      invariant changes == Entries(fields[..i], entry)
    {
      var f := fields[i];
      assert fields[..i + 1][..i] == fields[..i];
      if f.name == "CreatedAt" || f.name == "UpdatedAt" || f.name == "DeletedAt" { continue; }
      if !IncludeField(f.tag, onlyMode) { continue; }
      var val := Shown(rec, f.name);
      match action {
        case SingleCreate =>
          changes := changes[f.dbName := Change(Null, if f.tag == "redact" then mask else val)];
        case SingleDelete =>
          changes := changes[f.dbName := Change(if f.tag == "redact" then mask else val, Null)];
      }
    }
    assert fields[..|fields|] == fields;
  }

  /** A create records every audited column, and no other: the value the row has,
      hidden where the tag says so. */
  lemma CreateRecordsAuditedColumns(fields: seq<FieldSpec>, rec: Record, mask: Value)
    ensures var created := Entries(fields, SingleEntry(rec, SingleCreate, OnlyMode(fields), mask));
      && (forall k :: k in created <==> exists f :: f in fields && f.dbName == k && Audited(f, OnlyMode(fields)))
      && (forall f | f in fields && Audited(f, OnlyMode(fields)) && OwnColumn(fields, f) ::
            f.dbName in created &&
            created[f.dbName] == Change(Null, if f.tag == "redact" then mask else Shown(rec, f.name)))
  {
    var entry := SingleEntry(rec, SingleCreate, OnlyMode(fields), mask);
    EntriesAt(fields, entry);
    forall f | f in fields && Audited(f, OnlyMode(fields)) && OwnColumn(fields, f)
      ensures f.dbName in Entries(fields, entry) && Entries(fields, entry)[f.dbName] == entry(f).value
    {
      EntryOfOwnColumn(fields, entry, f);
    }
  }

  /** The entries of a delete are those of a create of the same row, reversed. */
  lemma {:induction false} DeleteReversesCreate(fields: seq<FieldSpec>, rec: Record, mask: Value, onlyMode: bool)
    ensures Entries(fields, SingleEntry(rec, SingleDelete, onlyMode, mask)) ==
            Reversed(Entries(fields, SingleEntry(rec, SingleCreate, onlyMode, mask)))
  {
    if fields != [] {
      DeleteReversesCreate(fields[..|fields| - 1], rec, mask, onlyMode);
    }
  }

  /** Rows that differ only in redacted and unaudited columns are created and
      deleted with the same record. */
  lemma RedactedColumnsDoNotShow(fields: seq<FieldSpec>, a: Record, b: Record, action: Single, mask: Value)
    requires forall f | f in fields && Audited(f, OnlyMode(fields)) && f.tag != "redact" :: Shown(a, f.name) == Shown(b, f.name)
    ensures Entries(fields, SingleEntry(a, action, OnlyMode(fields), mask)) ==
            Entries(fields, SingleEntry(b, action, OnlyMode(fields), mask))
  {
    SameEntries(fields, SingleEntry(a, action, OnlyMode(fields), mask), SingleEntry(b, action, OnlyMode(fields), mask));
  }

  function Reversed(changes: Changes): Changes {
    map k | k in changes :: Change(changes[k].after, changes[k].before)
  }

  // ---------------------------------------------------------------------
  // Save and Updates(struct): diff against the snapshot
  // ---------------------------------------------------------------------

  /** `reported` are the fields GORM's own Changed reports. */
  predicate ColumnChanged(f: FieldSpec, snapshot: Option<Record>, dest: Record, reported: set<string>) {
    f.name in reported || (snapshot.Some? && Shown(dest, f.name) != Shown(snapshot.value, f.name))
  }

  function ColumnEntry(snapshot: Option<Record>, dest: Record, reported: set<string>, onlyMode: bool, mask: Value)
    : FieldSpec -> Option<Change>
  {
    (f: FieldSpec) =>
      if !Audited(f, onlyMode) || !ColumnChanged(f, snapshot, dest, reported) then None
      else if f.tag == "redact" then Some(Change(mask, mask))
      else Some(Change(if snapshot.Some? then Shown(snapshot.value, f.name) else Null, Shown(dest, f.name)))
  }

  method ChangedColumns(fields: seq<FieldSpec>, snapshot: Option<Record>, dest: Record, reported: set<string>, mask: Value)
    returns (changes: Changes)
    ensures changes == Entries(fields, ColumnEntry(snapshot, dest, reported, OnlyMode(fields), mask))
  {
    changes := map[];
    var onlyMode := SchemaOnlyMode(fields);
    ghost var entry := ColumnEntry(snapshot, dest, reported, onlyMode, mask);
    for i := 0 to |fields|
      invariant changes == Entries(fields[..i], entry)
    {
      var f := fields[i];
      assert fields[..i + 1][..i] == fields[..i];
      if f.name == "CreatedAt" || f.name == "UpdatedAt" || f.name == "DeletedAt" { continue; }
      if !IncludeField(f.tag, onlyMode) { continue; }
      var newVal := Shown(dest, f.name);
      var changed := f.name in reported;
      if !changed && snapshot.Some? {
        changed := newVal != Shown(snapshot.value, f.name);
      }
      if !changed { continue; }
      var prev := if snapshot.Some? then Shown(snapshot.value, f.name) else Null;
      if f.tag == "redact" {
        changes := changes[f.dbName := Change(mask, mask)];
      } else {
        changes := changes[f.dbName := Change(prev, newVal)];
      }
    }
    assert fields[..|fields|] == fields;
  }

  /** What an update records of an audited field with a column of its own: it has an
      entry exactly when GORM reports it or it differs from the snapshot; a redacted
      one shows the mask on both sides, any other the old and the new value. */
  lemma UpdateRecordsColumn(fields: seq<FieldSpec>, snapshot: Option<Record>, dest: Record, reported: set<string>,
                            mask: Value, f: FieldSpec)
    requires f in fields && Audited(f, OnlyMode(fields)) && OwnColumn(fields, f)
    ensures var changes := Entries(fields, ColumnEntry(snapshot, dest, reported, OnlyMode(fields), mask));
      && (f.dbName in changes <==>
            f.name in reported || (snapshot.Some? && Shown(dest, f.name) != Shown(snapshot.value, f.name)))
      && (f.dbName in changes && f.tag == "redact" ==> changes[f.dbName] == Change(mask, mask))
      && (f.dbName in changes && f.tag != "redact" ==>
            && changes[f.dbName].after == Shown(dest, f.name)
            && changes[f.dbName].before == if snapshot.Some? then Shown(snapshot.value, f.name) else Null)
  {
    EntryOfOwnColumn(fields, ColumnEntry(snapshot, dest, reported, OnlyMode(fields), mask), f);
  }

  /** Updates that differ only in redacted and unaudited columns, and change the
      same redacted ones, leave the same record. */
  lemma RedactedUpdatesDoNotShow(fields: seq<FieldSpec>, oldA: Record, newA: Record, oldB: Record, newB: Record,
                                 reported: set<string>, mask: Value)
    requires forall f | f in fields && Audited(f, OnlyMode(fields)) ::
      if f.tag == "redact" then (Shown(oldA, f.name) == Shown(newA, f.name) <==> Shown(oldB, f.name) == Shown(newB, f.name))
      else Shown(oldA, f.name) == Shown(oldB, f.name) && Shown(newA, f.name) == Shown(newB, f.name)
    ensures Entries(fields, ColumnEntry(Some(oldA), newA, reported, OnlyMode(fields), mask)) ==
            Entries(fields, ColumnEntry(Some(oldB), newB, reported, OnlyMode(fields), mask))
  {
    SameEntries(fields, ColumnEntry(Some(oldA), newA, reported, OnlyMode(fields), mask),
                ColumnEntry(Some(oldB), newB, reported, OnlyMode(fields), mask));
  }

  /** The column as a reader reconstructs it from the old row and the entries. */
  function Rebuilt(f: FieldSpec, old': Record, changes: Changes): Value {
    if f.dbName in changes then changes[f.dbName].after else Shown(old', f.name)
  }

  /** Save: GORM reports nothing changed, so the entries come from the snapshot
      alone. They cover exactly the audited columns that differ, and replaying
      them on the snapshot gives the saved record. */
  lemma SaveDiff(fields: seq<FieldSpec>, snapshot: Record, dest: Record, mask: Value)
    ensures var changes := Entries(fields, ColumnEntry(Some(snapshot), dest, {}, OnlyMode(fields), mask));
      && (forall k :: k in changes <==>
            exists f :: f in fields && f.dbName == k && Audited(f, OnlyMode(fields)) &&
                        Shown(dest, f.name) != Shown(snapshot, f.name))
      && (forall f | f in fields && Audited(f, OnlyMode(fields)) && OwnColumn(fields, f) && f.tag != "redact" ::
            && Rebuilt(f, snapshot, changes) == Shown(dest, f.name)
            && (f.dbName in changes ==> changes[f.dbName].before == Shown(snapshot, f.name)))
  {
    var entry := ColumnEntry(Some(snapshot), dest, {}, OnlyMode(fields), mask);
    var changes := Entries(fields, entry);
    EntriesAt(fields, entry);
    forall f | f in fields && Audited(f, OnlyMode(fields)) && OwnColumn(fields, f) && f.tag != "redact"
      ensures Rebuilt(f, snapshot, changes) == Shown(dest, f.name)
      ensures f.dbName in changes ==> changes[f.dbName].before == Shown(snapshot, f.name)
    {
      EntryOfOwnColumn(fields, entry, f);
    }
  }

  /** Without a snapshot only what GORM reports is recorded: an update of an unread
      row records nothing exactly when GORM reports no audited field. */
  lemma {:induction false} UnreadUpdateRecordsNothingIff(fields: seq<FieldSpec>, dest: Record, reported: set<string>,
                                                         onlyMode: bool, mask: Value)
    ensures Entries(fields, ColumnEntry(None, dest, reported, onlyMode, mask)) == map[]
       <==> forall f | f in fields && Audited(f, onlyMode) :: f.name !in reported
  {
    var entry := ColumnEntry(None, dest, reported, onlyMode, mask);
    EntriesAt(fields, entry);
    if Entries(fields, entry) == map[] {
      forall f | f in fields && Audited(f, onlyMode)
        ensures f.name !in reported
      {
        assert f.dbName !in Entries(fields, entry);
      }
    } else {
      var k :| k in Entries(fields, entry);
    }
  }

  // ---------------------------------------------------------------------
  // Partial struct updates
  // ---------------------------------------------------------------------

  /** Updates(struct) writes only the non-zero fields of the struct. */
  function WrittenRow(snapshot: Record, dest: Record, zero: set<Value>, f: FieldSpec): Value {
    if Shown(dest, f.name) in zero then Shown(snapshot, f.name) else Shown(dest, f.name)
  }

  /** The audited columns are exactly the ones the statement changed. */
  ghost predicate ExactColumns(fields: seq<FieldSpec>, snapshot: Record, dest: Record, reported: set<string>,
                               zero: set<Value>, changes: Changes) {
    forall f | f in fields && Audited(f, OnlyMode(fields)) && OwnColumn(fields, f) ::
      f.dbName in changes <==> WrittenRow(snapshot, dest, zero, f) != Shown(snapshot, f.name)
  }

  /** What a caller can check beforehand: no audited field is zero in the struct
      while the row holds something else, and GORM's comparison (against a model
      that may be stale) reports no field whose row value stays the same. */
  predicate NoStaleOrZeroedField(fields: seq<FieldSpec>, snapshot: Record, dest: Record, reported: set<string>,
                                 zero: set<Value>) {
    forall f | f in fields && Audited(f, OnlyMode(fields)) && OwnColumn(fields, f) ::
      && (Shown(dest, f.name) in zero ==> Shown(dest, f.name) == Shown(snapshot, f.name))
      && (f.name in reported ==> Shown(dest, f.name) != Shown(snapshot, f.name))
  }

  /** For a partial struct update the snapshot fallback misreports untouched
      columns; it is exact if and only if the struct has none. */
  lemma PartialUpdateExactIff(fields: seq<FieldSpec>, snapshot: Record, dest: Record, reported: set<string>,
                              zero: set<Value>, mask: Value)
    ensures ExactColumns(fields, snapshot, dest, reported, zero,
                         Entries(fields, ColumnEntry(Some(snapshot), dest, reported, OnlyMode(fields), mask)))
       <==> NoStaleOrZeroedField(fields, snapshot, dest, reported, zero)
  {
    var entry := ColumnEntry(Some(snapshot), dest, reported, OnlyMode(fields), mask);
    forall f | f in fields && Audited(f, OnlyMode(fields)) && OwnColumn(fields, f)
      ensures f.dbName in Entries(fields, entry) <==> ColumnChanged(f, Some(snapshot), dest, reported)
    {
      EntryOfOwnColumn(fields, entry, f);
    }
  }

  /** A struct naming only the new title records the untouched status as cleared. */
  lemma PartialUpdateCounterexample()
    ensures var fields := [FieldSpec("Title", "title", ""), FieldSpec("Status", "status", "")];
      var snapshot: Record := map["Title" := Text("a"), "Status" := Text("draft")];
      var dest: Record := map["Title" := Text("b"), "Status" := Text("")];
      var changes := Entries(fields, ColumnEntry(Some(snapshot), dest, {"Title"}, OnlyMode(fields), Text("-")));
      && "status" in changes && changes["status"] == Change(Text("draft"), Text(""))
      && WrittenRow(snapshot, dest, {Text("")}, fields[1]) == Text("draft")
  {
    var fields := [FieldSpec("Title", "title", ""), FieldSpec("Status", "status", "")];
    var snapshot: Record := map["Title" := Text("a"), "Status" := Text("draft")];
    var dest: Record := map["Title" := Text("b"), "Status" := Text("")];
    EntriesAt(fields, ColumnEntry(Some(snapshot), dest, {"Title"}, OnlyMode(fields), Text("-")));
    assert fields[1] in fields && !OnlyMode(fields);
  }

  // ---------------------------------------------------------------------
  // Updates(map)
  // ---------------------------------------------------------------------

  /** Lookup by column name first, then by Go name. */
  function LookUpField(fields: seq<FieldSpec>, col: string): Option<FieldSpec> {
    var byColumn := Find(fields, (f: FieldSpec) => f.dbName == col);
    if byColumn.Some? then byColumn else Find(fields, (f: FieldSpec) => f.name == col)
  }

  function Find(fields: seq<FieldSpec>, p: FieldSpec -> bool): (r: Option<FieldSpec>)
    ensures r.Some? ==> r.value in fields && p(r.value)
    ensures r.None? ==> forall f | f in fields :: !p(f)
  {
    if fields == [] then None
    else if p(fields[0]) then Some(fields[0])
    else Find(fields[1..], p)
  }

  function TagOf(f: Option<FieldSpec>): string {
    if f.Some? then f.value.tag else ""
  }

  function TargetColumn(fields: seq<FieldSpec>, col: string): string {
    var f := LookUpField(fields, col);
    if f.Some? then f.value.dbName else col
  }

  function MapEntry(fields: seq<FieldSpec>, snapshot: Option<Record>, dest: Record, mask: Value, col: string): Change {
    var f := LookUpField(fields, col);
    if TagOf(f) == "redact" then Change(mask, mask)
    else Change(if snapshot.Some? && f.Some? then Shown(snapshot.value, f.value.name) else Null, Shown(dest, col))
  }

  predicate MapIncluded(fields: seq<FieldSpec>, dest: Record, col: string) {
    col in dest && IncludeField(TagOf(LookUpField(fields, col)), OnlyMode(fields))
  }

  /** The map built when the keys are visited in the given order. */
  function MapAlong(order: seq<string>, fields: seq<FieldSpec>, snapshot: Option<Record>, dest: Record, mask: Value): Changes {
    if order == [] then map[]
    else
      var init, col := MapAlong(order[..|order| - 1], fields, snapshot, dest, mask), order[|order| - 1];
      if MapIncluded(fields, dest, col)
      then init[TargetColumn(fields, col) := MapEntry(fields, snapshot, dest, mask, col)]
      else init
  }

  /** The maps the loop can build. */
  ghost predicate MapRecorded(fields: seq<FieldSpec>, snapshot: Option<Record>, dest: Record, mask: Value, changes: Changes) {
    exists order :: ChangeBuilders.IsOrder(order, dest.Keys) && changes == MapAlong(order, fields, snapshot, dest, mask)
  }

  /** The key is included and stands for column k. */
  predicate Spells(fields: seq<FieldSpec>, dest: Record, col: string, k: string) {
    MapIncluded(fields, dest, col) && TargetColumn(fields, col) == k
  }

  /** A column is recorded exactly when an included key stands for it, with the
      entry of such a key; the key visited last wins. */
  lemma {:induction false} MapAlongAt(order: seq<string>, fields: seq<FieldSpec>, snapshot: Option<Record>, dest: Record,
                                      mask: Value, k: string)
    ensures var changes := MapAlong(order, fields, snapshot, dest, mask);
      && (k in changes <==> exists col :: col in order && Spells(fields, dest, col, k))
      && (k in changes ==> exists col ::
            col in order && Spells(fields, dest, col, k) && changes[k] == MapEntry(fields, snapshot, dest, mask, col))
      && (order != [] && Spells(fields, dest, order[|order| - 1], k) ==>
            changes[k] == MapEntry(fields, snapshot, dest, mask, order[|order| - 1]))
  {
    if order != [] {
      var init, last := order[..|order| - 1], order[|order| - 1];
      MapAlongAt(init, fields, snapshot, dest, mask, k);
      assert forall col :: col in order <==> col in init || col == last;
      if Spells(fields, dest, last, k) {
        assert last in order;
      } else {
        assert k in MapAlong(order, fields, snapshot, dest, mask) <==> k in MapAlong(init, fields, snapshot, dest, mask);
      }
    }
  }

  /** Keys that spell one column differently give it the same entry. */
  ghost predicate SpellingsAgree(fields: seq<FieldSpec>, snapshot: Option<Record>, dest: Record, mask: Value) {
    forall a, b, k | Spells(fields, dest, a, k) && Spells(fields, dest, b, k) ::
      MapEntry(fields, snapshot, dest, mask, a) == MapEntry(fields, snapshot, dest, mask, b)
  }

  ghost predicate MapOrderIndependent(fields: seq<FieldSpec>, snapshot: Option<Record>, dest: Record, mask: Value) {
    forall o1, o2 | ChangeBuilders.IsOrder(o1, dest.Keys) && ChangeBuilders.IsOrder(o2, dest.Keys) ::
      MapAlong(o1, fields, snapshot, dest, mask) == MapAlong(o2, fields, snapshot, dest, mask)
  }

  lemma AgreeingMaps(fields: seq<FieldSpec>, snapshot: Option<Record>, dest: Record, mask: Value,
                     o1: seq<string>, o2: seq<string>)
    requires SpellingsAgree(fields, snapshot, dest, mask)
    requires ChangeBuilders.IsOrder(o1, dest.Keys) && ChangeBuilders.IsOrder(o2, dest.Keys)
    ensures MapAlong(o1, fields, snapshot, dest, mask) == MapAlong(o2, fields, snapshot, dest, mask)
  {
    var c1, c2 := MapAlong(o1, fields, snapshot, dest, mask), MapAlong(o2, fields, snapshot, dest, mask);
    forall k
      ensures k in c1 <==> k in c2
      ensures k in c1 ==> c1[k] == c2[k]
    {
      MapAlongAt(o1, fields, snapshot, dest, mask, k);
      MapAlongAt(o2, fields, snapshot, dest, mask, k);
    }
    assert c1.Keys == c2.Keys;
  }

  /** Which field a key of the map stands for: one with that column, failing that
      one of that name, failing that none. */
  lemma LookUpFieldPrefersColumns(fields: seq<FieldSpec>, col: string)
    ensures var f := LookUpField(fields, col);
      && ((exists g :: g in fields && g.dbName == col) ==> f.Some? && f.value in fields && f.value.dbName == col)
      && ((forall g | g in fields :: g.dbName != col) && (exists g :: g in fields && g.name == col) ==>
            f.Some? && f.value in fields && f.value.name == col)
      && ((forall g | g in fields :: g.dbName != col && g.name != col) ==> f.None?)
  {
  }

  /** What a map update records of a key that is the only one for its column, in any
      order: its column, or its own name if no field is meant, showing the mask if
      the field is redacted and otherwise the old and the new value. */
  lemma MapUpdateRecordsKey(order: seq<string>, fields: seq<FieldSpec>, snapshot: Option<Record>, dest: Record, mask: Value,
                            col: string)
    requires ChangeBuilders.IsOrder(order, dest.Keys) && MapIncluded(fields, dest, col)
    requires forall c | Spells(fields, dest, c, TargetColumn(fields, col)) :: c == col
    ensures var f := LookUpField(fields, col);
      var k := if f.Some? then f.value.dbName else col;
      var changes := MapAlong(order, fields, snapshot, dest, mask);
      && k in changes
      && (f.Some? && f.value.tag == "redact" ==> changes[k] == Change(mask, mask))
      && (f.None? || f.value.tag != "redact" ==>
            && changes[k].after == dest[col]
            && changes[k].before == if snapshot.Some? && f.Some? then Shown(snapshot.value, f.value.name) else Null)
  {
    MapAlongAt(order, fields, snapshot, dest, mask, TargetColumn(fields, col));
    assert Spells(fields, dest, col, TargetColumn(fields, col));
  }

  /** Whether a key is recorded at all, by the tag of its field: no tag and no field
      are alike, and timestamps are not exempt. */
  lemma MapIncludedIff(fields: seq<FieldSpec>, dest: Record, col: string)
    ensures var f := LookUpField(fields, col);
      var tag := if f.Some? then f.value.tag else "";
      MapIncluded(fields, dest, col) <==>
        && col in dest && tag !in {"-", "false"}
        && ((exists g :: g in fields && g.tag in {"only", "true"}) ==> tag in {"only", "true", "redact"})
  {
    if g :| g in fields && g.tag in {"only", "true"} {
      var i :| 0 <= i < |fields| && fields[i] == g;
      assert IsWhitelistTag(fields[i].tag);
    }
  }

  /** A redacted key never shows its values, however its column is spelled. */
  lemma RedactedKeysShowTheMask(order: seq<string>, fields: seq<FieldSpec>, snapshot: Option<Record>, dest: Record,
                                mask: Value, k: string)
    requires forall col | col in order && Spells(fields, dest, col, k) ::
      LookUpField(fields, col).Some? && LookUpField(fields, col).value.tag == "redact"
    ensures var changes := MapAlong(order, fields, snapshot, dest, mask);
      k in changes ==> changes[k] == Change(mask, mask)
  {
    MapAlongAt(order, fields, snapshot, dest, mask, k);
  }

  /** Go's map order shows in the record of Updates(map) if and only if the map
      spells one column in two ways that disagree. */
  lemma MapOrderIndependentIff(fields: seq<FieldSpec>, snapshot: Option<Record>, dest: Record, mask: Value)
    ensures MapOrderIndependent(fields, snapshot, dest, mask) <==> SpellingsAgree(fields, snapshot, dest, mask)
  {
    if SpellingsAgree(fields, snapshot, dest, mask) {
      forall o1, o2 | ChangeBuilders.IsOrder(o1, dest.Keys) && ChangeBuilders.IsOrder(o2, dest.Keys)
        ensures MapAlong(o1, fields, snapshot, dest, mask) == MapAlong(o2, fields, snapshot, dest, mask)
      {
        AgreeingMaps(fields, snapshot, dest, mask, o1, o2);
      }
    } else {
      var a, b, k :| Spells(fields, dest, a, k) && Spells(fields, dest, b, k) &&
                     MapEntry(fields, snapshot, dest, mask, a) != MapEntry(fields, snapshot, dest, mask, b);
      var o1 := ChangeLaws.OrderEndingIn(dest.Keys, a);
      var o2 := ChangeLaws.OrderEndingIn(dest.Keys, b);
      MapAlongAt(o1, fields, snapshot, dest, mask, k);
      MapAlongAt(o2, fields, snapshot, dest, mask, k);
    }
  }

  method ChangesFromMap(fields: seq<FieldSpec>, snapshot: Option<Record>, dest: Record, mask: Value)
    returns (changes: Changes)
    ensures MapRecorded(fields, snapshot, dest, mask, changes)
  {
    changes := map[];
    var onlyMode := SchemaOnlyMode(fields);
    var rest := dest.Keys;
    ghost var order: seq<string> := [];
    while rest != {}
      invariant rest <= dest.Keys
      invariant ChangeBuilders.IsOrder(order, dest.Keys - rest)
      invariant changes == MapAlong(order, fields, snapshot, dest, mask)
      decreases rest
    {
      var col :| col in rest;
      rest := rest - {col};
      ghost var longer := order + [col];
      assert longer[..|longer| - 1] == order;
      order := longer;
      var tag, dbCol := "", col;
      var f := LookUpField(fields, col);
      if f.Some? {
        tag, dbCol := f.value.tag, f.value.dbName;
      }
      if !IncludeField(tag, onlyMode) { continue; }
      var prev := Null;
      if snapshot.Some? && f.Some? {
        prev := Shown(snapshot.value, f.value.name);
      }
      var entry := if tag == "redact" then Change(mask, mask) else Change(prev, dest[col]);
      changes := changes[dbCol := entry];
    }
  }
}
