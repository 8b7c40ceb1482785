/** The field policy: which top-level fields an audit entry may show. */
module FieldPolicies {
  import opened Values

  /** `only == None` is Go's nil whitelist: every field is included. */
  datatype FieldPolicy = FieldPolicy(
    skip: set<string>,
    redacted: set<string>,
    only: Option<set<string>>,
    redactedValue: string)

  const ID_FIELD := "_id"

  predicate IncludedField(field: string, only: Option<set<string>>, redacted: set<string>) {
    only.None? || field in only.value || field in redacted
  }

  /** Fields the sanitiser keeps. */
  predicate Kept(p: FieldPolicy, k: string) {
    k !in p.skip && IncludedField(k, p.only, p.redacted)
  }

  /** Fields the change builders record. */
  predicate Recorded(p: FieldPolicy, k: string) {
    k != ID_FIELD && Kept(p, k)
  }

  /** Recorded fields whose real values appear in the entry. */
  predicate Clear(p: FieldPolicy, k: string) {
    Recorded(p, k) && k !in p.redacted
  }

  function Mask(p: FieldPolicy): Value {
    Text(p.redactedValue)
  }

  /** What a reader of the trail is entitled to know of a document. */
  function Project(doc: Document, p: FieldPolicy): Document {
    map k | k in doc && Clear(p, k) :: doc[k]
  }

  /** The entries of a change map that carry real values. */
  function ClearPart(changes: Changes, p: FieldPolicy): Changes {
    map k | k in changes && Clear(p, k) :: changes[k]
  }
}
