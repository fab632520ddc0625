/**
 * Documents as the store and the record model see them: JSON objects keyed by
 * field name. Serialisation is the identity here; only the fields the
 * persistence logic touches (`key`, `properties.version`, `version`) have
 * structure.
 */
module Documents {
  import opened Common

  /** A JSON value; lists, booleans, floats and null stay opaque as their text. */
  datatype Value = Str(s: string) | Int(i: int) | Obj(fields: map<string, Value>) | Other(text: string)

  type Doc = map<string, Value>

  const KeyField: string := "key"
  const PropertiesField: string := "properties"
  const VersionField: string := "version"

  predicate HasStringKey(d: Doc)
  {
    KeyField in d && d[KeyField].Str?
  }

  function KeyOf(d: Doc): string
    requires HasStringKey(d)
  {
    d[KeyField].s
  }

  /** Every field but the key. */
  function Body(d: Doc): Doc
  {
    d - {KeyField}
  }

  /** A body together with its key: what `self.dict()` renders. */
  function WithKey(key: string, body: Doc): Doc
  {
    body[KeyField := Str(key)]
  }

  /** Splitting a keyed document and joining it again gives it back. */
  lemma SplitJoin(d: Doc)
    requires HasStringKey(d)
    ensures WithKey(KeyOf(d), Body(d)) == d
  {
    assert WithKey(KeyOf(d), Body(d)).Keys == d.Keys;
  }

  /** Joining a key and a key-free body and splitting the result gives both back. */
  lemma JoinSplit(key: string, body: Doc)
    requires KeyField !in body
    ensures HasStringKey(WithKey(key, body))
    ensures KeyOf(WithKey(key, body)) == key && Body(WithKey(key, body)) == body
  {
    assert Body(WithKey(key, body)).Keys == body.Keys;
  }

  /** The record carries an integer `properties.version`. */
  predicate HasVersion(d: Doc)
  {
    && PropertiesField in d
    && d[PropertiesField].Obj?
    && VersionField in d[PropertiesField].fields
    && d[PropertiesField].fields[VersionField].Int?
  }

  function PropertiesVersion(d: Doc): int
    requires HasVersion(d)
  {
    d[PropertiesField].fields[VersionField].i
  }

  /** `self.properties.version += 1`: the version goes up by one and nothing else changes. */
  function IncrementVersion(d: Doc): (r: Doc)
    requires HasVersion(d)
    ensures HasVersion(r) && PropertiesVersion(r) == PropertiesVersion(d) + 1
    ensures r.Keys == d.Keys
    ensures forall f :: f in d && f != PropertiesField ==> r[f] == d[f]
    ensures r[PropertiesField].fields.Keys == d[PropertiesField].fields.Keys
    ensures forall p :: p in d[PropertiesField].fields && p != VersionField ==>
              r[PropertiesField].fields[p] == d[PropertiesField].fields[p]
  {
    var props := d[PropertiesField].fields;
    d[PropertiesField := Obj(props[VersionField := Int(props[VersionField].i + 1)])]
  }

  /**
   * `{**current, **kwargs, "version": version + 1}`: keyword fields override
   * the current ones, and the top-level `version` entry overrides both.
   */
  function MergeForUpdate(current: Doc, kwargs: Doc, version: int): (r: Doc)
    ensures r.Keys == current.Keys + kwargs.Keys + {VersionField}
    ensures r[VersionField] == Int(version + 1)
    ensures forall f :: f in kwargs && f != VersionField ==> r[f] == kwargs[f]
    ensures forall f :: f in current && f !in kwargs && f != VersionField ==> r[f] == current[f]
  {
    (current + kwargs)[VersionField := Int(version + 1)]
  }

  /**
   * The merge writes `version` at the top level: unless the keyword fields
   * replace `properties`, the record's `properties.version` is left as it was.
   */
  lemma MergeKeepsPropertiesVersion(current: Doc, kwargs: Doc, version: int)
    requires HasVersion(current) && PropertiesField !in kwargs
    ensures HasVersion(MergeForUpdate(current, kwargs, version))
    ensures PropertiesVersion(MergeForUpdate(current, kwargs, version)) == PropertiesVersion(current)
  {
  }

  /** A merged record keeps a string key when the keyword fields give none or a string one. */
  lemma MergeKeepsKey(current: Doc, kwargs: Doc, version: int)
    requires HasStringKey(current)
    requires KeyField in kwargs ==> kwargs[KeyField].Str?
    ensures HasStringKey(MergeForUpdate(current, kwargs, version))
    ensures KeyOf(MergeForUpdate(current, kwargs, version)) ==
            if KeyField in kwargs then KeyOf(kwargs) else KeyOf(current)
  {
    assert KeyField != VersionField;
  }

  /**
   * A store query: `None` matches every document; an equality query matches
   * the documents holding every one of its field values.
   */
  predicate Matches(query: Option<Doc>, d: Doc)
  {
    match query
    case None => true
    case Some(q) => forall f :: f in q ==> f in d && d[f] == q[f]
  }

  /** The empty query `{}` that `paginate` substitutes for `None` matches the same documents. */
  lemma EmptyQueryMatchesAll(d: Doc)
    ensures Matches(Some(map[]), d) == Matches(None, d)
  {
  }
}
