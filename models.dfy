/**
 * The `DetaBase` record model: `save`, `update` and `delete` on an instance,
 * and `find`, `fetch`, `paginate` and `delete_many` on the class, all over an
 * in-memory `Store`. Each store call takes the transport's behaviour for
 * that call as a parameter (`Fault`); `async_db_client` swallows a
 * `ClientError` and lets every other failure propagate.
 */
module Models {
  import opened Common
  import opened Settings
  import opened Errors
  import opened Documents
  import opened DocumentStore
  import opened FetchLoop
  import opened Ordering

  /** The default `exception` argument of `find`. */
  const DefaultMissingPolicy: Option<HttpErrorClass> := Some(NotFound)

  /** The detail `find` gives the exception it raises for a missing key. */
  function MissingMessage(key: string): string
  {
    "No Feature() found with key: " + key
  }

  /**
   * `find`'s branch on what the store replied: a missing key raises the given
   * exception class, or, when none is given, yields `None`; a non-empty stored
   * document is returned. (An empty document is falsy and yields `None`.)
   */
  function FindResult(instance: Option<Doc>, key: string, exception: Option<HttpErrorClass>): (r: Outcome<Doc>)
    ensures instance.None? && exception.Some? ==> r == Raised(HttpError(exception.value, MissingMessage(key)))
    ensures instance.Some? && instance.value != map[] ==> r == Returned(instance.value)
    ensures r == ReturnedNone <==>
              (instance.None? && exception.None?) || instance == Some(map[])
  {
    if instance.None? && exception.Some? then Raised(HttpError(exception.value, MissingMessage(key)))
    else if instance.Some? && instance.value != map[] then Returned(instance.value)
    else ReturnedNone
  }

  /** With the default policy a key that was never stored raises a 404. */
  lemma FindMissingIsNotFound(docs: map<string, Doc>, key: string)
    requires key !in docs
    ensures FindResult(Lookup(docs, key), key, DefaultMissingPolicy).Raised?
    ensures var e := FindResult(Lookup(docs, key), key, DefaultMissingPolicy).error;
            e.HttpError? && StatusCode(e.cls) == 404
  {
  }

  /** Finding the key of a document just put gives back that document, whatever the policy. */
  lemma FindAfterPut(docs: map<string, Doc>, doc: Doc, exception: Option<HttpErrorClass>)
    requires HasStringKey(doc)
    ensures FindResult(Lookup(docs[KeyOf(doc) := doc], KeyOf(doc)), KeyOf(doc), exception) == Returned(doc)
  {
    assert KeyField in doc;
  }

  /**
   * Over a valid store where at most `limit` documents match, a fault-free
   * `fetch` returns every stored document that matches the query.
   */
  lemma FetchFindsEveryMatch(s: Store, query: Option<Doc>, limit: nat, pageSize: nat, k: string)
    requires s.Valid() && pageSize > 0 && |s.Matching(query)| <= limit
    requires k in s.docs && Matches(query, s.docs[k])
    ensures FetchResult(s.Matching(query), limit, pageSize, []).Returned?
    ensures s.docs[k] in FetchResult(s.Matching(query), limit, pageSize, []).value
  {
    FetchReturnsAllOrOvershoots(s.Matching(query), limit, pageSize);
    MatchingComplete(s, query, k);
  }

  /** `paginate`'s `{}` in place of `None` selects the same documents. */
  lemma PaginateQueryMatchesAll(s: Store, query: Option<Doc>)
    ensures query.None? ==> s.Matching(PaginateQuery(query)) == s.Matching(None)
    ensures query.Some? ==> s.Matching(PaginateQuery(query)) == s.Matching(query)
  {
    SelectEmptyQuery(s.order, s.docs);
  }

  /** The query `paginate` passes on: `{}` in place of `None`. */
  function PaginateQuery(query: Option<Doc>): (q: Option<Doc>)
    ensures q.Some? && (query.Some? ==> q == query)
  {
    if query.None? then Some(map[]) else query
  }

  /**
   * `paginate` on what `fetch` produced: the count and the page of the sorted
   * documents; `len(None)` raises a `TypeError`; an exception propagates.
   */
  function PaginateResult(fetched: Outcome<seq<Doc>>, limit: nat, offset: nat, orderBy: Doc -> string, doReverse: bool)
    : (r: Outcome<(nat, seq<Doc>)>)
    ensures r.Returned? <==> fetched.Returned?
    ensures fetched.Returned? ==>
              && r.value.0 == |fetched.value|
              && |r.value.1| == Max(0, Min(limit, |fetched.value| - offset))
              && Ordered(r.value.1, orderBy, doReverse)
              && multiset(r.value.1) <= multiset(fetched.value)
    ensures fetched.ReturnedNone? ==> r == Raised(TypeError)
    ensures fetched.Raised? ==> r == Raised(fetched.error)
  {
    match fetched
    case Returned(items) =>
      PageOfSpec(items, limit, offset, orderBy, doReverse);
      Returned(PageOf(items, limit, offset, orderBy, doReverse))
    case ReturnedNone => Raised(TypeError)
    case Raised(e) => Raised(e)
  }

  /** Where `delete_many` stops: the first delete, from `from` on, that raises; `n` if none does. */
  function AbortIndex(faults: seq<Fault>, from: nat, n: nat): (stop: nat)
    requires from <= n
    ensures from <= stop <= n
    ensures forall j :: from <= j < stop ==> FaultAt(faults, j) != OtherFault
    ensures stop < n ==> FaultAt(faults, stop) == OtherFault
    decreases n - from
  {
    if from == n then n
    else if FaultAt(faults, from) == OtherFault then from
    else AbortIndex(faults, from + 1, n)
  }

  /** The keys among the first `i` whose delete reached the store. */
  function DeletedBefore(keys: seq<string>, faults: seq<Fault>, i: nat): set<string>
    requires i <= |keys|
  {
    if i == 0 then {}
    else DeletedBefore(keys, faults, i - 1) + (if FaultAt(faults, i - 1) == Healthy then {keys[i - 1]} else {})
  }

  /** Removing one set of keys from a map and then another removes their union. */
  lemma RemoveTwice(docs: map<string, Doc>, a: set<string>, b: set<string>)
    ensures docs - a - b == docs - (a + b)
  {
  }

  lemma AbortStep(faults: seq<Fault>, i: nat, n: nat)
    requires i < n
    ensures AbortIndex(faults, i, n) == if FaultAt(faults, i) == OtherFault then i else AbortIndex(faults, i + 1, n)
  {
  }

  lemma DeletedStep(keys: seq<string>, faults: seq<Fault>, i: nat)
    requires i < |keys|
    ensures FaultAt(faults, i) == Healthy ==>
              DeletedBefore(keys, faults, i + 1) == DeletedBefore(keys, faults, i) + {keys[i]}
    ensures FaultAt(faults, i) != Healthy ==>
              DeletedBefore(keys, faults, i + 1) == DeletedBefore(keys, faults, i)
  {
  }

  /**
   * A swallowed `ClientError` does not stop `delete_many`: when no delete
   * fails otherwise, the loop runs to the end.
   */
  lemma {:induction false} DeleteManyPassesClientErrors(faults: seq<Fault>, from: nat, n: nat)
    requires from <= n
    requires forall i :: 0 <= i < |faults| ==> faults[i] != OtherFault
    ensures AbortIndex(faults, from, n) == n
    decreases n - from
  {
    if from < n {
      DeleteManyPassesClientErrors(faults, from + 1, n);
    }
  }

  /** With a healthy transport `delete_many` removes the key of every instance. */
  lemma {:induction false} DeleteManyRemovesAll(keys: seq<string>, faults: seq<Fault>, i: nat)
    requires i <= |keys|
    requires forall j :: 0 <= j < |faults| ==> faults[j] == Healthy
    ensures DeletedBefore(keys, faults, i) == set k | k in keys[..i]
  {
    if i > 0 {
      DeleteManyRemovesAll(keys, faults, i - 1);
      assert keys[..i] == keys[..i - 1] + [keys[i - 1]];
    }
  }

  /** Deleting `a`, `b`, `c` where `b`'s delete raises: `a` is gone, `c` is never attempted. */
  lemma DeleteManyStopsExample(a: string, b: string, c: string)
    ensures AbortIndex([Healthy, OtherFault, Healthy], 0, 3) == 1
    ensures DeletedBefore([a, b, c], [Healthy, OtherFault, Healthy], 1) == {a}
  {
  }

  /** A record: its key and every other field, as `self.dict()` renders them. */
  class DetaBase {
    var key: string
    var fields: Doc
    /**
     * Whether `self.properties` is still the nested model built by validation.
     * `update` overwrites the attributes with `self.dict()`, which renders it as
     * a plain dict, so `self.properties.version` no longer resolves afterwards.
     */
    var propertiesIsModel: bool

    ghost predicate Valid()
      reads this
    {
      KeyField !in fields
    }

    /** `self.dict()`. */
    function Dict(): (d: Doc)
      reads this
      ensures HasStringKey(d) && KeyOf(d) == key
    {
      WithKey(key, fields)
    }

    /** `cls(**doc)`: an instance built from a stored document. */
    constructor (doc: Doc)
      requires HasStringKey(doc)
      ensures Valid() && Dict() == doc && propertiesIsModel
    {
      key := KeyOf(doc);
      fields := Body(doc);
      propertiesIsModel := true;
      new;
      SplitJoin(doc);
    }

    /**
     * Raises `properties.version` by one in place, then puts the record and
     * returns the store's reply. After a swallowed `ClientError` the unbound
     * `result` raises; the version stays raised either way. Once `update` has
     * turned `properties` into a dict, the increment raises before any store call.
     */
    method Save(store: Store, fault: Fault) returns (r: Outcome<Doc>)
      requires Valid() && store.Valid()
      requires propertiesIsModel ==> HasVersion(fields)
      modifies this, store
      ensures Valid() && store.Valid()
      ensures key == old(key) && propertiesIsModel == old(propertiesIsModel)
      ensures !old(propertiesIsModel) ==>
                && r == Raised(AttributeError) && fields == old(fields)
                && store.docs == old(store.docs) && store.order == old(store.order)
      ensures old(propertiesIsModel) ==> fields == IncrementVersion(old(fields))
      ensures old(propertiesIsModel) && fault == Healthy ==>
                && r == Returned(Dict())
                && store.docs == old(store.docs)[key := Dict()]
                && store.order == OrderAfterPut(old(store.order), old(store.docs), key)
      ensures old(propertiesIsModel) && fault != Healthy ==>
                && r == Swallow(fault, Raised(UnboundLocalError))
                && store.docs == old(store.docs) && store.order == old(store.order)
    {
      if !propertiesIsModel {
        return Raised(AttributeError);
      }
      fields := IncrementVersion(fields);
      if fault == Healthy {
        var result := store.Put(Dict());
        r := Returned(result);
      } else {
        r := Swallow(fault, Raised(UnboundLocalError));
      }
    }

    /**
     * Overwrites the record with the merge of its fields, the keyword fields and
     * `version` = `properties.version + 1`, puts it, and returns a new instance
     * built from the store's reply. After a swallowed `ClientError` it returns
     * `None`; the record stays overwritten either way, and its `properties` is
     * a dict from then on, so a second `update` raises before merging.
     */
    method Update(store: Store, kwargs: Doc, fault: Fault) returns (r: Outcome<DetaBase>)
      requires Valid() && store.Valid()
      requires propertiesIsModel ==> HasVersion(fields)
      requires KeyField in kwargs ==> kwargs[KeyField].Str?
      modifies this, store
      ensures Valid() && store.Valid()
      ensures !old(propertiesIsModel) ==>
                && r == Raised(AttributeError)
                && key == old(key) && fields == old(fields) && !propertiesIsModel
                && store.docs == old(store.docs) && store.order == old(store.order)
      ensures old(propertiesIsModel) ==>
                && !propertiesIsModel
                && Dict() == MergeForUpdate(old(Dict()), kwargs, PropertiesVersion(old(fields)))
      ensures old(propertiesIsModel) && fault == Healthy ==>
                && r.Returned? && fresh(r.value) && r.value.Valid() && r.value.propertiesIsModel
                && r.value.Dict() == Dict()
                && store.docs == old(store.docs)[key := Dict()]
                && store.order == OrderAfterPut(old(store.order), old(store.docs), key)
      ensures old(propertiesIsModel) && fault != Healthy ==>
                && r == Swallow(fault, ReturnedNone)
                && store.docs == old(store.docs) && store.order == old(store.order)
    {
      if !propertiesIsModel {
        return Raised(AttributeError);
      }
      var newData := MergeForUpdate(Dict(), kwargs, PropertiesVersion(fields));
      MergeKeepsKey(Dict(), kwargs, PropertiesVersion(fields));
      key, fields, propertiesIsModel := KeyOf(newData), Body(newData), false;
      SplitJoin(newData);
      if fault == Healthy {
        var savedData := store.Put(Dict());
        var instance := new DetaBase(savedData);
        r := Returned(instance);
      } else {
        r := Swallow(fault, ReturnedNone);
      }
    }

    /**
     * Deletes the document stored under this record's key and returns "OK",
     * also after a swallowed `ClientError`; any other failure propagates.
     */
    method Delete(store: Store, fault: Fault) returns (r: Outcome<string>)
      requires store.Valid()
      modifies store
      ensures store.Valid()
      ensures r == if fault == OtherFault then Raised(TransportError) else Returned("OK")
      ensures fault == Healthy ==>
                store.docs == old(store.docs) - {key} && store.order == Without(old(store.order), {key})
      ensures fault != Healthy ==> store.docs == old(store.docs) && store.order == old(store.order)
    {
      if fault == Healthy {
        store.Delete(key);
      }
      r := if fault == OtherFault then Raised(TransportError) else Returned("OK");
    }

    /** `find(key, exception)`: the stored document under `key`, `None`, or an exception. */
    static method Find(store: Store, key: string, exception: Option<HttpErrorClass>, fault: Fault)
      returns (r: Outcome<Doc>)
      ensures fault == Healthy ==> r == FindResult(Lookup(store.docs, key), key, exception)
      ensures fault != Healthy ==> r == Swallow(fault, ReturnedNone)
    {
      if fault != Healthy {
        return Swallow(fault, ReturnedNone);
      }
      var instance := store.Get(key);
      r := FindResult(instance, key, exception);
    }

    /**
     * `fetch(query, limit)`: requests pages of matching documents, the first of
     * `min(limit, db_fetch_limit)`, later ones of the store's `pageSize`, while
     * at most `limit` are gathered and the store hands back a cursor; the
     * `i`-th request meets `FaultAt(faults, i)`.
     */
    static method Fetch(store: Store, query: Option<Doc>, limit: nat, pageSize: nat, faults: seq<Fault>)
      returns (r: Outcome<seq<Doc>>)
      requires pageSize > 0
      ensures r == FetchResult(store.Matching(query), limit, pageSize, faults)
    {
      ghost var matching := store.Matching(query);
      ghost var total := |matching|;
      ghost var requests := FetchRequests(total, limit, pageSize);
      FirstFaultStep(faults, 0, requests);
      if FaultAt(faults, 0) != Healthy {
        FetchResultOnFault(matching, limit, pageSize, faults, FaultAt(faults, 0));
        return Swallow(FaultAt(faults, 0), ReturnedNone);
      }
      var results := store.FetchPage(query, FirstPageSize(limit), None);
      PageAtStart(matching, FirstPageSize(limit));
      var allItems := results.items;
      var calls := 1;
      while |allItems| <= limit && results.last.Some?
        invariant |allItems| <= total && allItems == matching[..|allItems|]
        invariant results.last == if |allItems| < total then Some(|allItems|) else None
        invariant StopPosition(total, limit, pageSize, |allItems|) == FetchEnd(total, limit, pageSize)
        invariant calls + RequestsFrom(total, limit, pageSize, |allItems|) == requests
        invariant FirstFault(faults, calls, requests) == FirstFault(faults, 0, requests)
        decreases total - |allItems|
      {
        ghost var before := |allItems|;
        LoopStep(total, limit, pageSize, before);
        FirstFaultStep(faults, calls, requests);
        var fault := FaultAt(faults, calls);
        if fault != Healthy {
          FetchResultOnFault(matching, limit, pageSize, faults, fault);
          return Swallow(fault, ReturnedNone);
        }
        results := store.FetchPage(query, pageSize, results.last);
        PageAtCursor(matching, pageSize, before);
        PrefixThenRun(matching, before, Min(before + pageSize, total));
        allItems := allItems + results.items;
        calls := calls + 1;
      }
      LoopExit(total, limit, pageSize, |allItems|);
      FetchResultOnExit(matching, limit, pageSize, faults, allItems);
      r := Returned(allItems);
    }

    /**
     * `paginate(query, limit, offset, order_by, do_reverse)`: fetches
     * `limit + offset` documents (with `{}` for a `None` query), counts them,
     * sorts them stably by `order_by` and returns the count and the slice
     * `[offset:offset+limit]`.
     */
    static method Paginate(store: Store, query: Option<Doc>, limit: nat, offset: nat,
                           orderBy: Doc -> string, doReverse: bool, pageSize: nat, faults: seq<Fault>)
      returns (r: Outcome<(nat, seq<Doc>)>)
      requires pageSize > 0
      ensures r == PaginateResult(FetchResult(store.Matching(PaginateQuery(query)), limit + offset, pageSize, faults),
                                  limit, offset, orderBy, doReverse)
    {
      var results := Fetch(store, PaginateQuery(query), limit + offset, pageSize, faults);
      match results
      case Returned(items) =>
        var count := |items|;
        var top := limit + offset;
        var page := Slice(SortBy(items, orderBy, doReverse), offset, top);
        r := Returned((count, page));
      case ReturnedNone =>
        r := Raised(TypeError);
      case Raised(e) =>
        r := Raised(e);
    }

    /**
     * `delete_many(instances)`: deletes each instance in list order and returns
     * "OK"; the `i`-th delete meets `FaultAt(faults, i)`. A swallowed
     * `ClientError` lets the loop go on; any other failure ends it with the
     * earlier deletions applied.
     */
    static method DeleteMany(store: Store, instances: seq<DetaBase>, faults: seq<Fault>)
      returns (r: Outcome<string>)
      requires store.Valid()
      modifies store
      ensures store.Valid()
      ensures var stop := AbortIndex(faults, 0, |instances|);
              var gone := DeletedBefore(KeysOf(instances), faults, stop);
              && store.docs == old(store.docs) - gone
              && store.order == Without(old(store.order), gone)
              && r == if stop < |instances| then Raised(TransportError) else Returned("OK")
    {
      ghost var keys := KeysOf(instances);
      ghost var n := |instances|;
      ghost var docs0, order0 := store.docs, store.order;
      ghost var gone: set<string> := {};
      WithoutNothing(order0);
      var i := 0;
      while i < |instances|
        invariant 0 <= i <= n
        invariant store.Valid()
        invariant AbortIndex(faults, i, n) == AbortIndex(faults, 0, n)
        invariant gone == DeletedBefore(keys, faults, i)
        invariant store.docs == docs0 - gone
        invariant store.order == Without(order0, gone)
      {
        var fault := FaultAt(faults, i);
        AbortStep(faults, i, n);
        DeletedStep(keys, faults, i);
        assert instances[i].key == keys[i];
        var result := instances[i].Delete(store, fault);
        if result.Raised? {
          assert AbortIndex(faults, 0, n) == i && KeysOf(instances) == keys;
          assert store.docs == old(store.docs) - gone && store.order == Without(old(store.order), gone);
          return result;
        }
        if fault == Healthy {
          WithoutTwice(order0, gone, {keys[i]});
          RemoveTwice(docs0, gone, {keys[i]});
          gone := gone + {keys[i]};
        }
        i := i + 1;
      }
      assert AbortIndex(faults, 0, n) == n && KeysOf(instances) == keys;
      r := Returned("OK");
    }
  }

  /** The keys of a list of records. */
  function KeysOf(instances: seq<DetaBase>): (keys: seq<string>)
    reads instances
    ensures |keys| == |instances|
    ensures forall i :: 0 <= i < |instances| ==> keys[i] == instances[i].key
  {
    if instances == [] then [] else [instances[0].key] + KeysOf(instances[1..])
  }
}
