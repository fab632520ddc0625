# Carto persistence layer, modelled in Dafny

Carto stores geographic features in Deta Base, a hosted document store, through the generic record class `DetaBase` (`carto/api/models/base.py`). This project models this record layer over an in-memory stand-in for the store:

- `save` raises `properties.version` by one in place and puts the record.
- `update` merges keyword fields over the record, sets a top-level `version`, overwrites the record, puts it and returns a new instance built from the store's reply.
- `delete` removes the record's key and returns `"OK"`.
- `find` looks a key up, with a raise-or-`None` policy for missing keys.
- `fetch` gathers pages in a cursor loop.
- `paginate` fetches, counts, sorts stably and slices.
- `delete_many` deletes in list order.

Modules:

- `Common`: `Option`, `Min`, `Max`.
- `Settings`: `db_fetch_limit` (25) and `fetch`'s default limit (50).
- `Errors`: the HTTP exception classes and their status codes; the exceptions an operation can raise; the transport `Fault` of one store call; the Python-level `Outcome` (a value, `None`, or an exception). `Swallow` gives the effect of `async_db_client`: a `ClientError` is swallowed and the operation carries on after its `async with` block; any other failure propagates.
- `Documents`: JSON documents as maps, the key split, `properties.version`, the `update` merge, equality queries.
- `DocumentStore`: class `Store` with a `docs` map and an `order` sequence. It has get, put and delete, plus a paged fetch whose cursor is the position where the next page starts.
- `FetchLoop`: what `fetch` returns, as functions of the matching documents. These are the stop position, the number of requests, and the first failing request.
- `Ordering`: Python's `<=` on `str`, a stable sort (with Python's `reverse=True` semantics: ties keep their original order), and the slice.
- `Models`: class `DetaBase`, with instance methods `Save`, `Update`, `Delete` and static methods `Find`, `Fetch`, `Paginate`, `DeleteMany`. Each method's contract ties it to the functions above.

Transport failures are inputs. Every store call takes a `Fault`: `Healthy`, `ClientFault` (an aiohttp `ClientError`) or `OtherFault`. The loops take one fault per call, in a list. For each operation, a swallowed `ClientError` leads to what the Python code does next:

- `save` reaches `return result` with `result` unbound and raises `UnboundLocalError`.
- `update`, `find` and `fetch` fall off the end and return `None`.
- `delete` returns `"OK"`.
- `paginate` then calls `len(None)` and raises `TypeError`.

The store's page size for requests after the first is a positive parameter `pageSize`. The code passes no limit there, so the store uses its own default.

The fetch loop goes on while the gathered count is `<=` the limit. Two consequences follow, both proved:

- `fetch` can return more than `limit` documents, but never more than one later page more.
- `paginate(limit=10, offset=5)` over 20 matching documents fetches and counts all 20 whenever the store's later pages hold at least 5 documents. Its first page of 15 leaves the loop condition `15 <= 15` true.

So a first page of exactly `limit` documents does not end the loop while the store hands back a cursor (`FetchLoop.PaginateFetchExample`, `FetchLoop.FetchAllExample`).

`update` writes the incremented version under the top-level key `"version"`, not under `properties`. `Documents.MergeKeepsPropertiesVersion` states the consequence: unless the keyword fields replace `properties`, the stored `properties.version` stays as it was.

`update` also replaces the record's attributes with `self.dict()`, which renders the nested `properties` model as a plain dict. A later `save` or `update` on the same instance therefore raises `AttributeError` at `self.properties.version`, while the instance `update` returns is built afresh and is not affected.

## Model

| member | source | states |
|---|---|---|
| `Documents.IncrementVersion` | carto/api/models/base.py:71-72 | `properties.version` goes up by exactly one; every other field and every other property is unchanged |
| `Models.DetaBase.Save` | carto/api/models/base.py:70-82 | while `properties` is still a model, the version is raised in place before the put on every path. A healthy put stores the raised record under its key and returns the store's reply. A swallowed `ClientError` raises `UnboundLocalError` and leaves the store unchanged; any other failure propagates. Once an `update` has turned `properties` into a dict, the increment raises `AttributeError` with the record and the store unchanged |
| `Documents.MergeForUpdate` | carto/api/models/base.py:96 | the merged keys are the record's, the kwargs' and `version`. `version` is the old `properties.version` + 1 whatever the kwargs say; a kwarg beats the record's own value; fields not in the kwargs keep their value |
| `Documents.MergeKeepsPropertiesVersion` | carto/api/models/base.py:96-97 | when the kwargs do not replace `properties`, the merged record's `properties.version` equals the old one |
| `Documents.MergeKeepsKey` | carto/api/models/base.py:96-97 | the merged record's key is the kwargs' key when one is given, else the record's own |
| `Models.DetaBase.Update` | carto/api/models/base.py:85-102 | the record is overwritten with the merge on every path, and its `properties` is a dict from then on. A healthy put stores it under its (possibly new) key and returns a freshly allocated instance, not `self`, equal to the stored document, whose `properties` is a model again. A swallowed `ClientError` returns `None` with the store unchanged. On a record already updated, reading `self.properties.version` raises `AttributeError` before anything changes |
| `Models.DetaBase.Delete` | carto/api/models/base.py:106-115 | when healthy, exactly the document under the record's key is removed and every other key is kept. It returns `"OK"`, also after a swallowed `ClientError`; any other failure raises |
| `Models.FindResult` | carto/api/models/base.py:120-126 | a missing key with a policy raises that exception class with the key in its message; a missing key with no policy gives `None`; a present non-empty document is returned; `None` only in those two cases or for an empty document |
| `Models.FindMissingIsNotFound` | carto/api/models/base.py:118-122 | with the default policy, a key never stored raises an HTTP error with status 404 |
| `Models.FindAfterPut` | carto/api/models/base.py:118-124 | finding the key of a document just put returns that document, under any policy |
| `Models.DetaBase.Find` | carto/api/models/base.py:117-126 | a healthy call gives `FindResult` on the store's lookup; a swallowed `ClientError` gives `None` even under a raise policy |
| `Errors.StatusCode` | carto/api/exceptions.py:12-43 | the three HTTP exception classes carry client-error statuses, and exactly `NotFound` carries 404 |
| `Errors.Swallow` | carto/api/models/base.py:36-41 | after a swallowed `ClientError` the operation's outcome is whatever its code after the `async with` block gives; any other failure propagates as an exception. `Models.DeleteManyPassesClientErrors` and the fault clauses of every `DetaBase` method rest on it |
| `FetchLoop.FirstPageSize` | carto/api/models/base.py:154 | the first request's page size is `min(limit, 25)`: at most `limit`, at most 25, and equal to one of them |
| `FetchLoop.StopPosition` | carto/api/models/base.py:157-159 | the loop stops no earlier than its start and no later than the total. It stops with all items gathered or more than `limit` gathered, and at most `limit + pageSize` unless it did not move |
| `FetchLoop.FetchEndExit` | carto/api/models/base.py:157-159 | on exit the gathered count exceeds `limit` or nothing is left to fetch |
| `FetchLoop.FetchEndBounds` | carto/api/models/base.py:154-159 | at most `limit` matches: all are gathered. More: more than `limit` are gathered, and at most `limit + pageSize` |
| `FetchLoop.FetchResultHealthy` | carto/api/models/base.py:150-161 | with a healthy transport, `fetch` returns the first `FetchEnd` matching documents in store order |
| `FetchLoop.FetchReturnsAllOrOvershoots` | carto/api/models/base.py:155-161 | with at most `limit` matches, `fetch` returns exactly the matching documents. Otherwise it returns a store-order prefix longer than `limit`, by at most one later page, never truncated to `limit` |
| `FetchLoop.FetchOvershootExample` | carto/api/models/base.py:154-159 | limit 30 over 100 matches with pages of 25 makes two requests and returns 50 |
| `FetchLoop.FetchAllExample` | carto/api/models/base.py:154-159 | limit 30 over 40 matches with pages of 25 returns all 40 |
| `FetchLoop.PaginateFetchExample` | carto/api/models/base.py:168 | the fetch behind `paginate(limit=10, offset=5)` over 20 matches returns all 20 whenever the store's later pages hold at least 5 |
| `FetchLoop.DefaultFetchExample` | carto/api/routers/features.py:57 | `Feature.fetch()` takes the default limit of 50 (carto/api/models/base.py:129). With later pages of 25, over 100 matches it makes three requests and returns 75 |
| `FetchLoop.FetchResult` | carto/api/models/base.py:150-161 | `fetch` returns documents exactly when every request it makes is healthy, and `None` exactly when the first failing one is a `ClientError`. Its contents are given by `FetchLoop.FetchResultHealthy` and `FetchLoop.FetchReturnsAllOrOvershoots` |
| `Models.DetaBase.Fetch` | carto/api/models/base.py:128-161 | the cursor loop returns `FetchResult`: the concatenated pages are a store-order prefix of the matches, ending where the loop condition first fails. If one of the requests made fails, that fault decides the result: `None` for a swallowed `ClientError`, an exception otherwise |
| `Models.FetchFindsEveryMatch` | carto/api/models/base.py:155-161 | over a valid store with at most `limit` matches, every stored document matching the query is in the result |
| `Ordering.SortBy` | carto/api/models/base.py:171 | the sorted list is a permutation of the fetched one |
| `Ordering.SortByOrdered` | carto/api/models/base.py:171 | every element's key is `<=` every later one's, or `>=` when `do_reverse` is set |
| `Ordering.SortByStable` | carto/api/models/base.py:171 | for each key value, the documents with that key appear in their fetch order, also when reversed |
| `Ordering.SliceSpec` | carto/api/models/base.py:171 | the slice `[start:stop]` has `max(0, min(stop - start, n - start))` elements, taken in order from position `start`; it is a sub-multiset and keeps any order |
| `Ordering.PageOf` | carto/api/models/base.py:169-173 | `paginate`'s count is the number fetched, and its page holds at most `limit` documents. The rest of its meaning is in `Ordering.PageOfSpec` |
| `Ordering.PageOfSpec` | carto/api/models/base.py:169-173 | `count` is the number fetched. The page has `max(0, min(limit, count - offset))` elements: the sorted ranks `offset` onward, in sort order, all taken from the fetched documents |
| `Models.PaginateQuery` | carto/api/models/base.py:165-166 | `paginate` always passes a query on, and keeps a given one |
| `Models.PaginateQueryMatchesAll` | carto/api/models/base.py:165-166 | the substituted `{}` selects the same documents, in the same order, as no query |
| `Models.PaginateResult` | carto/api/models/base.py:168-173 | a page comes back exactly when `fetch` returned documents. `count` is their number; the page has `max(0, min(limit, count - offset))` of them, ordered by `order_by` (reversed when asked) and drawn from the fetched ones. A `None` from `fetch` makes `len` raise `TypeError`; an exception propagates |
| `Models.DetaBase.Paginate` | carto/api/models/base.py:163-173 | fetches with limit `limit + offset` and the `{}` query, then counts, sorts and slices |
| `Models.AbortIndex` | carto/api/models/base.py:177-178 | `delete_many` stops at the first delete that raises, and every delete before it does not raise |
| `Models.DeleteManyPassesClientErrors` | carto/api/models/base.py:36-41 | when no delete fails with anything but a `ClientError`, the loop runs to the end |
| `Models.DeleteManyRemovesAll` | carto/api/models/base.py:176-180 | with a healthy transport, the key of every instance is deleted |
| `Models.DeleteManyStopsExample` | carto/api/models/base.py:176-180 | for `[a, b, c]` where `b`'s delete raises: only `a` is deleted, and `c` is never attempted |
| `Models.DetaBase.DeleteMany` | carto/api/models/base.py:175-180 | deletes in list order. The store loses exactly the keys of the instances before the first raising delete whose delete was healthy; swallowed `ClientError`s are skipped. The result is that exception, else `"OK"` |
| `Models.DetaBase.constructor` | carto/api/models/base.py:124 | an instance built from a stored document renders back exactly that document |
| `Documents.SplitJoin` | carto/api/models/base.py:76 | a rendered record splits into key and body and joins back without loss |
| `Documents.JoinSplit` | carto/api/models/base.py:102 | a key and a key-free body survive being joined and split again |
| `Documents.EmptyQueryMatchesAll` | carto/api/models/base.py:165-166 | the query `{}` matches every document, like `None` |
| `DocumentStore.Store.Put` | carto/api/models/base.py:80 | the store keeps a valid order. The document is stored under its key, a new key goes last, and the reply is the stored document |
| `DocumentStore.Store.Delete` | carto/api/models/base.py:113 | exactly the given key is removed, from the map and from the order |
| `DocumentStore.Store.Get` | carto/api/models/base.py:120 | the document under the key, or none |
| `DocumentStore.Store.FetchPage` | carto/api/models/base.py:154-158 | the page of matches that starts at the cursor, with a cursor past it when more remain |

## Left out

- The Deta SDK, the network, `async`/`await`, and the opening and closing of connections in `async_db_client`. The store is the in-memory `Store`, and a transport failure is a `Fault` parameter. The `print(e)` of a swallowed error is output and is not modelled.
- `DocumentStore.Store`: the real store's result order and cursor format are not visible. The model orders documents by first put and uses positions as cursors.
- `DocumentStore.Store.Put`: the store's reply is modelled as the document sent. The real store may normalise it.
- `DocumentStore.Store.FetchPage`: only equality queries, a single map of field values, are modelled. Deta's suffix operators and lists of alternative queries are not.
- `DocumentStore.Store.FetchPage`: what the store answers to a request for 0 documents is not visible. The model gives the empty page a cursor at its start whenever anything matches. So `fetch(limit=0)`, which `paginate(limit=0, offset=0)` reaches, goes on to one later page. The limit-0 cases of `FetchLoop.FetchEndExit` and `FetchLoop.FetchReturnsAllOrOvershoots` rest on that choice.
- pydantic validation and serialisation (`Extra.forbid`, whitespace stripping, `jsonable_encoder`, `.dict()`, `.json()`) are library behaviour. Documents are maps, and rendering is the identity.
- `Models.DetaBase.Fetch`: building `cls(**instance)` for each fetched document cannot fail with a `ValidationError` in the model. `find` and `fetch` return the documents the instances are built from.
- `Models.DetaBase.Update`: the model puts the merged document, while the code passes `self.json()`, a JSON string. What the store SDK makes of a string is not part of this model. Nor is whether the strict schema accepts the extra top-level `version` when the reply is turned into an instance.
- `Models.DetaBase.Update`: a `key` among the keyword fields must be a string. A key of another type would reach the store untyped, and its handling there is not visible.
- `Models.DetaBase.Update`: requires an integer `properties.version` while `properties` is still a model, as `Save` does, and for the same reason. After an update the record's `properties` is modelled as a dict through `propertiesIsModel`; the other nested models pydantic's `dict()` also flattens are not tracked, because no core operation reads their attributes.
- `Models.DetaBase.Save`: requires that a record whose `properties` is still a model carries an integer `properties.version`. The model class that declares `properties` is not part of this model, so what its validation accepts is not modelled. The `AttributeError` or `TypeError` a record without such a version would raise is left out.
- `uuid4` key generation: it is random, so keys are given. A `UUID` key is modelled by its string form, as `str(key)` produces.
- `Models.DetaBase.Fetch`: `limit`, `offset` and page sizes are natural numbers. What the store does with a negative page size, and Python's slicing with negative bounds, are not modelled.
- `Models.DetaBase.Paginate`: `order_by` is modelled as returning a `str`, as its annotation says. Keys of other types are not modelled.
- Concurrency between requests: the model is sequential.
- `carto/api/routers/features.py` (HTTP wiring), the environment and `.env` loading of `carto/api/config.py` (only `db_fetch_limit` is kept), `carto/api/types.py`, `main.py` and the package `__init__` files.
