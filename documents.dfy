/** Documents of the campus meal database as the request handlers see them:
    JSON request bodies stored field by field, and the equality filters that
    `findOne` evaluates over them. */
module Documents {

  datatype Option<+T> = None | Some(value: T) {

    /** The value held, or `default` when there is none. */
    function GetOr(default: T): T {
      match this
      case Some(v) => v
      case None => default
    }
  }

  /** The opaque `_id` the database assigns to a stored document. */
  type Id = string

  /** A scalar JSON value. Only equality is ever asked of it. */
  datatype Value = Null | Bool(b: bool) | Int(i: int) | Str(s: string)

  /** A stored document, or a request body: field name to value. */
  type Doc = map<string, Value>

  /** One field of an equality filter: a `null` in the filter also matches a
      document that lacks the field; any other value must be present and equal. */
  predicate FieldMatches(filter: Doc, doc: Doc, k: string)
    requires k in filter
  {
    if filter[k] == Null then k !in doc || doc[k] == Null
    else k in doc && doc[k] == filter[k]
  }

  /** `findOne(filter)` can return `doc`: every field of the filter matches. */
  predicate Matches(filter: Doc, doc: Doc) {
    forall k :: k in filter ==> FieldMatches(filter, doc, k)
  }

  /** `findOne(filter)` on the collection `coll` finds something. */
  predicate AnyMatches(coll: map<Id, Doc>, filter: Doc) {
    exists id :: id in coll && Matches(filter, coll[id])
  }

  /** A document matches any filter built from some of its own fields. */
  lemma MatchesSubFilter(filter: Doc, doc: Doc)
    requires forall k :: k in filter ==> k in doc && doc[k] == filter[k]
    ensures Matches(filter, doc)
  {
  }

  /** The empty filter `{}` matches every document, so a collection holding
      anything at all answers it. */
  lemma EmptyFilterMatchesAll(coll: map<Id, Doc>)
    ensures AnyMatches(coll, map[]) <==> coll != map[]
  {
  }
}
