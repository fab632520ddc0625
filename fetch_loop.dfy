/**
 * What `DetaBase.fetch` computes, independent of how its loop runs: how many
 * matching documents it has gathered when the loop stops, how many store
 * requests it makes on the way, and which transport fault, if any, ends it.
 *
 * The first request asks for `min(limit, db_fetch_limit)` documents; every
 * later one asks for the store's own page size `pageSize`. The loop goes on
 * while the gathered count is at most `limit` and the store hands back a
 * cursor, so it can stop past `limit`.
 */
module FetchLoop {
  import opened Common
  import opened Settings
  import opened Errors
  import opened Documents

  function FirstPageSize(limit: nat): (size: nat)
    ensures size <= limit && size <= DbFetchLimit
    ensures size == limit || size == DbFetchLimit
  {
    Min(limit, DbFetchLimit)
  }

  /**
   * Where the loop stops once `gathered` of the `total` matching documents are
   * in hand (a cursor exists exactly while `gathered < total`).
   */
  function StopPosition(total: nat, limit: nat, pageSize: nat, gathered: nat): (stop: nat)
    requires gathered <= total && pageSize > 0
    ensures gathered <= stop <= total
    ensures stop == total || stop > limit
    ensures stop == gathered || stop <= limit + pageSize
    decreases total - gathered
  {
    if gathered <= limit && gathered < total then
      StopPosition(total, limit, pageSize, Min(gathered + pageSize, total))
    else
      gathered
  }

  /** The number of later-page requests the loop makes from `gathered` on. */
  function RequestsFrom(total: nat, limit: nat, pageSize: nat, gathered: nat): nat
    requires gathered <= total && pageSize > 0
    decreases total - gathered
  {
    if gathered <= limit && gathered < total then
      1 + RequestsFrom(total, limit, pageSize, Min(gathered + pageSize, total))
    else
      0
  }

  /** How many matching documents a fault-free `fetch` returns. */
  function FetchEnd(total: nat, limit: nat, pageSize: nat): nat
    requires pageSize > 0
  {
    StopPosition(total, limit, pageSize, Min(FirstPageSize(limit), total))
  }

  /** How many store requests a fault-free `fetch` makes: the first one and the later ones. */
  function FetchRequests(total: nat, limit: nat, pageSize: nat): nat
    requires pageSize > 0
  {
    1 + RequestsFrom(total, limit, pageSize, Min(FirstPageSize(limit), total))
  }

  /** One more turn of the loop: the stop position and request count unfold by one page. */
  lemma LoopStep(total: nat, limit: nat, pageSize: nat, gathered: nat)
    requires gathered <= limit && gathered < total && pageSize > 0
    ensures StopPosition(total, limit, pageSize, gathered)
         == StopPosition(total, limit, pageSize, Min(gathered + pageSize, total))
    ensures RequestsFrom(total, limit, pageSize, gathered)
         == 1 + RequestsFrom(total, limit, pageSize, Min(gathered + pageSize, total))
  {
  }

  /** When the loop condition fails it stops where it is, with no request left. */
  lemma LoopExit(total: nat, limit: nat, pageSize: nat, gathered: nat)
    requires gathered <= total && pageSize > 0
    requires !(gathered <= limit && gathered < total)
    ensures StopPosition(total, limit, pageSize, gathered) == gathered
    ensures RequestsFrom(total, limit, pageSize, gathered) == 0
  {
  }

  /** The first unhealthy one among requests `from` up to `count`, or `Healthy`. */
  function FirstFault(faults: seq<Fault>, from: nat, count: nat): Fault
    decreases count - from
  {
    if from >= count then Healthy
    else if FaultAt(faults, from) != Healthy then FaultAt(faults, from)
    else FirstFault(faults, from + 1, count)
  }

  /** A healthy request passes the search for the first fault on to the next one. */
  lemma FirstFaultStep(faults: seq<Fault>, from: nat, count: nat)
    requires from < count
    ensures FirstFault(faults, from, count) ==
            if FaultAt(faults, from) != Healthy then FaultAt(faults, from) else FirstFault(faults, from + 1, count)
  {
  }

  /**
   * The outcome of `fetch` over the matching documents, in store order: the
   * gathered prefix, or, when a request fails, `None` for a swallowed
   * `ClientError` and an exception otherwise.
   */
  function FetchResult(matching: seq<Doc>, limit: nat, pageSize: nat, faults: seq<Fault>): (r: Outcome<seq<Doc>>)
    requires pageSize > 0
    ensures r.Returned? <==> FirstFault(faults, 0, FetchRequests(|matching|, limit, pageSize)) == Healthy
    ensures r.ReturnedNone? <==> FirstFault(faults, 0, FetchRequests(|matching|, limit, pageSize)) == ClientFault
  {
    var fault := FirstFault(faults, 0, FetchRequests(|matching|, limit, pageSize));
    if fault == Healthy then Returned(matching[..FetchEnd(|matching|, limit, pageSize)])
    else Swallow(fault, ReturnedNone)
  }

  /** The loop left with the gathered prefix and no request failed: that prefix is the result. */
  lemma FetchResultOnExit(matching: seq<Doc>, limit: nat, pageSize: nat, faults: seq<Fault>, items: seq<Doc>)
    requires pageSize > 0
    requires FirstFault(faults, 0, FetchRequests(|matching|, limit, pageSize)) == Healthy
    requires |items| == FetchEnd(|matching|, limit, pageSize) && items == matching[..|items|]
    ensures FetchResult(matching, limit, pageSize, faults) == Returned(items)
  {
  }

  /** The first failing request decides the result. */
  lemma FetchResultOnFault(matching: seq<Doc>, limit: nat, pageSize: nat, faults: seq<Fault>, fault: Fault)
    requires pageSize > 0
    requires fault != Healthy && FirstFault(faults, 0, FetchRequests(|matching|, limit, pageSize)) == fault
    ensures FetchResult(matching, limit, pageSize, faults) == Swallow(fault, ReturnedNone)
  {
  }

  /** On exit either more than `limit` documents are gathered or none are left to fetch. */
  lemma FetchEndExit(total: nat, limit: nat, pageSize: nat)
    requires pageSize > 0
    ensures FetchEnd(total, limit, pageSize) <= total
    ensures FetchEnd(total, limit, pageSize) == total || FetchEnd(total, limit, pageSize) > limit
  {
  }

  /**
   * When at most `limit` documents match, all of them are returned; otherwise
   * more than `limit` are, and at most one later page more.
   */
  lemma FetchEndBounds(total: nat, limit: nat, pageSize: nat)
    requires pageSize > 0
    ensures total <= limit ==> FetchEnd(total, limit, pageSize) == total
    ensures total > limit ==> limit < FetchEnd(total, limit, pageSize) <= limit + pageSize
  {
  }

  lemma {:induction false} FirstFaultAllHealthy(faults: seq<Fault>, from: nat, count: nat)
    requires forall i :: 0 <= i < |faults| ==> faults[i] == Healthy
    ensures FirstFault(faults, from, count) == Healthy
    decreases count - from
  {
    if from < count {
      FirstFaultAllHealthy(faults, from + 1, count);
    }
  }

  /** With a healthy transport `fetch` returns the first `FetchEnd` matching documents. */
  lemma FetchResultHealthy(matching: seq<Doc>, limit: nat, pageSize: nat, faults: seq<Fault>)
    requires pageSize > 0
    requires forall i :: 0 <= i < |faults| ==> faults[i] == Healthy
    ensures FetchResult(matching, limit, pageSize, faults) == Returned(matching[..FetchEnd(|matching|, limit, pageSize)])
  {
    FirstFaultAllHealthy(faults, 0, FetchRequests(|matching|, limit, pageSize));
  }

  /**
   * A fault-free `fetch` returns every matching document when at most `limit`
   * match, and otherwise a store-order prefix longer than `limit` by at most
   * one later page.
   */
  lemma FetchReturnsAllOrOvershoots(matching: seq<Doc>, limit: nat, pageSize: nat)
    requires pageSize > 0
    ensures |matching| <= limit ==> FetchResult(matching, limit, pageSize, []) == Returned(matching)
    ensures |matching| > limit ==>
              && FetchResult(matching, limit, pageSize, []).Returned?
              && var items := FetchResult(matching, limit, pageSize, []).value;
              && limit < |items| <= limit + pageSize
              && items == matching[..|items|]
  {
    FetchResultHealthy(matching, limit, pageSize, []);
    FetchEndBounds(|matching|, limit, pageSize);
    assert matching[..|matching|] == matching;
  }

  /** Limit 30 over 100 matches with pages of 25: the loop stops at 50, not 30. */
  lemma FetchOvershootExample()
    ensures FetchEnd(100, 30, 25) == 50
    ensures FetchRequests(100, 30, 25) == 2
  {
  }

  /** Limit 30 over 40 matches with pages of 25: every one of the 40 is returned. */
  lemma FetchAllExample()
    ensures FetchEnd(40, 30, 25) == 40
  {
  }

  /**
   * `paginate` with limit 10 and offset 5 over 20 matches fetches all 20, not
   * 15, whenever the store's later pages hold at least the 5 left.
   */
  lemma PaginateFetchExample(pageSize: nat)
    requires pageSize >= 5
    ensures FetchEnd(20, 15, pageSize) == 20
  {
  }

  /**
   * `Feature.fetch()` with its default limit of 50 over 100 matches, with later
   * pages of 25: the loop ends at 75, after three requests.
   */
  lemma DefaultFetchExample()
    ensures FetchEnd(100, DefaultFetchLimit, 25) == 75
    ensures FetchRequests(100, DefaultFetchLimit, 25) == 3
  {
  }
}
