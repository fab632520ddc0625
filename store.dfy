/**
 * An in-memory stand-in for the hosted document store: documents by key, kept
 * in the store's order, with get, put, delete and a paged, cursor-driven
 * fetch. The store's order is modelled as the order in which keys were first
 * put; a cursor is the position in the list of matching documents where the
 * next page starts.
 */
module DocumentStore {
  import opened Common
  import opened Documents

  /** One page of a fetch: its items and, when more items follow, the cursor for them. */
  datatype Page = Page(items: seq<Doc>, last: Option<nat>)

  predicate Distinct(s: seq<string>)
  {
    forall i, j :: 0 <= i < j < |s| ==> s[i] != s[j]
  }

  lemma DistinctCons(x: string, s: seq<string>)
    requires Distinct(s) && x !in s
    ensures Distinct([x] + s)
  {
    forall i, j | 0 <= i < j < |[x] + s|
      ensures ([x] + s)[i] != ([x] + s)[j]
    {
      if i > 0 {
        assert ([x] + s)[i] == s[i - 1] && ([x] + s)[j] == s[j - 1];
      } else {
        assert ([x] + s)[j] == s[j - 1];
      }
    }
  }

  function Lookup(docs: map<string, Doc>, key: string): Option<Doc>
  {
    if key in docs then Some(docs[key]) else None
  }

  /** The store order after a put: a new key goes last, a known key keeps its place. */
  function OrderAfterPut(order: seq<string>, docs: map<string, Doc>, key: string): seq<string>
  {
    if key in docs then order else order + [key]
  }

  /** The store order with the keys in `gone` removed. */
  function Without(order: seq<string>, gone: set<string>): (r: seq<string>)
    ensures forall x :: x in r <==> x in order && x !in gone
    ensures |r| <= |order|
  {
    if order == [] then []
    else (if order[0] in gone then [] else [order[0]]) + Without(order[1..], gone)
  }

  lemma {:induction false} WithoutDistinct(order: seq<string>, gone: set<string>)
    requires Distinct(order)
    ensures Distinct(Without(order, gone))
  {
    if order != [] {
      assert Distinct(order[1..]) by {
        forall i, j | 0 <= i < j < |order[1..]| ensures order[1..][i] != order[1..][j] {
          assert order[1..][i] == order[i + 1] && order[1..][j] == order[j + 1];
        }
      }
      WithoutDistinct(order[1..], gone);
      if order[0] !in gone {
        assert order[0] !in order[1..] by {
          forall i | 0 <= i < |order[1..]| ensures order[1..][i] != order[0] {
            assert order[1..][i] == order[i + 1];
          }
        }
        DistinctCons(order[0], Without(order[1..], gone));
      }
    }
  }

  /** Removing one set of keys and then another removes their union. */
  lemma {:induction false} WithoutTwice(order: seq<string>, a: set<string>, b: set<string>)
    ensures Without(Without(order, a), b) == Without(order, a + b)
  {
    if order != [] {
      WithoutTwice(order[1..], a, b);
      if order[0] in a {
        assert Without(order, a) == Without(order[1..], a);
      } else {
        assert Without(order, a) == [order[0]] + Without(order[1..], a);
        assert ([order[0]] + Without(order[1..], a))[1..] == Without(order[1..], a);
      }
    }
  }

  /** The documents matching `query`, in store order. */
  function Select(order: seq<string>, docs: map<string, Doc>, query: Option<Doc>): (r: seq<Doc>)
    ensures |r| <= |order|
    ensures forall d :: d in r ==> Matches(query, d)
  {
    if order == [] then []
    else
      (if order[0] in docs && Matches(query, docs[order[0]]) then [docs[order[0]]] else [])
      + Select(order[1..], docs, query)
  }

  /** Every stored document of the order that matches the query is selected. */
  lemma {:induction false} SelectComplete(order: seq<string>, docs: map<string, Doc>, query: Option<Doc>, k: string)
    requires k in order && k in docs && Matches(query, docs[k])
    ensures docs[k] in Select(order, docs, query)
  {
    if order[0] != k {
      SelectComplete(order[1..], docs, query, k);
    }
  }

  /** The query `{}` selects the same documents, in the same order, as no query. */
  lemma {:induction false} SelectEmptyQuery(order: seq<string>, docs: map<string, Doc>)
    ensures Select(order, docs, Some(map[])) == Select(order, docs, None)
  {
    if order != [] {
      SelectEmptyQuery(order[1..], docs);
    }
  }

  /** Where a page starts: at the cursor, or at the beginning for the first request. */
  function CursorStart(cursor: Option<nat>, total: nat): (s: nat)
    ensures s <= total
  {
    match cursor
    case None => 0
    case Some(c) => Min(c, total)
  }

  /** The page of at most `size` matching documents that starts at `cursor`. */
  function PageAt(matching: seq<Doc>, size: nat, cursor: Option<nat>): Page
  {
    var start := CursorStart(cursor, |matching|);
    Page(matching[start..Min(start + size, |matching|)],
         if start + size < |matching| then Some(start + size) else None)
  }

  /** A prefix followed by the next run of documents is the longer prefix. */
  lemma PrefixThenRun(matching: seq<Doc>, from: nat, to: nat)
    requires from <= to <= |matching|
    ensures matching[..from] + matching[from..to] == matching[..to]
  {
    assert forall i :: 0 <= i < to ==> (matching[..from] + matching[from..to])[i] == matching[i];
  }

  /** A later page: the documents from the cursor on, and a cursor past them when more remain. */
  lemma PageAtCursor(matching: seq<Doc>, size: nat, c: nat)
    requires c < |matching|
    ensures PageAt(matching, size, Some(c)).items == matching[c..Min(c + size, |matching|)]
    ensures PageAt(matching, size, Some(c)).last ==
            if c + size < |matching| then Some(c + size) else None
  {
  }

  /** The first page: the leading documents, and a cursor past them when more remain. */
  lemma PageAtStart(matching: seq<Doc>, size: nat)
    ensures PageAt(matching, size, None).items == matching[..Min(size, |matching|)]
    ensures PageAt(matching, size, None).last ==
            if size < |matching| then Some(size) else None
  {
  }

  /** Removing no key leaves the order as it is. */
  lemma {:induction false} WithoutNothing(order: seq<string>)
    ensures Without(order, {}) == order
  {
    if order != [] {
      WithoutNothing(order[1..]);
    }
  }

  class Store {
    var docs: map<string, Doc>
    var order: seq<string>

    /** The order lists every stored key exactly once. */
    ghost predicate Valid()
      reads this
    {
      Distinct(order) && forall k :: k in order <==> k in docs
    }

    constructor ()
      ensures Valid() && docs == map[] && order == []
    {
      docs := map[];
      order := [];
    }

    /** The documents matching `query`, in store order. */
    function Matching(query: Option<Doc>): seq<Doc>
      reads this
    {
      Select(order, docs, query)
    }

    method Get(key: string) returns (r: Option<Doc>)
      ensures r == Lookup(docs, key)
    {
      r := Lookup(docs, key);
    }

    /** Stores `doc` under its key and replies with the stored document. */
    method Put(doc: Doc) returns (stored: Doc)
      requires Valid() && HasStringKey(doc)
      modifies this
      ensures Valid()
      ensures docs == old(docs)[KeyOf(doc) := doc]
      ensures order == OrderAfterPut(old(order), old(docs), KeyOf(doc))
      ensures stored == doc
    {
      var key := KeyOf(doc);
      if key !in docs {
        forall i, j | 0 <= i < j < |order + [key]|
          ensures (order + [key])[i] != (order + [key])[j]
        {
          if j == |order| {
            assert order[i] in order;
          }
        }
      }
      order := OrderAfterPut(order, docs, key);
      docs := docs[key := doc];
      stored := doc;
    }

    /** Removes the document under `key`, if any; the store replies with nothing. */
    method Delete(key: string)
      requires Valid()
      modifies this
      ensures Valid()
      ensures docs == old(docs) - {key}
      ensures order == Without(old(order), {key})
    {
      WithoutDistinct(order, {key});
      order := Without(order, {key});
      docs := docs - {key};
    }

    method FetchPage(query: Option<Doc>, size: nat, cursor: Option<nat>) returns (page: Page)
      ensures page == PageAt(Matching(query), size, cursor)
    {
      page := PageAt(Matching(query), size, cursor);
    }
  }

  /** What a valid store selects for a query is exactly its matching documents. */
  lemma MatchingComplete(s: Store, query: Option<Doc>, k: string)
    requires s.Valid() && k in s.docs && Matches(query, s.docs[k])
    ensures s.docs[k] in s.Matching(query)
  {
    SelectComplete(s.order, s.docs, query, k);
  }
}
