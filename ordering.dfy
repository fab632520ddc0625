/**
 * The in-memory half of `paginate`: Python's stable `sorted(…, key=order_by,
 * reverse=do_reverse)` over string keys, and the slice `[offset:offset+limit]`.
 */
module Ordering {
  import opened Common
  import opened Documents

  /** Python's `<=` on `str`: lexicographic by code point. */
  predicate StrLe(a: string, b: string)
    decreases |a|
  {
    |a| == 0 || (|b| > 0 && (a[0] < b[0] || (a[0] == b[0] && StrLe(a[1..], b[1..]))))
  }

  lemma {:induction false} StrLeRefl(a: string)
    ensures StrLe(a, a)
    decreases |a|
  {
    if |a| > 0 {
      StrLeRefl(a[1..]);
    }
  }

  lemma {:induction false} StrLeTotal(a: string, b: string)
    ensures StrLe(a, b) || StrLe(b, a)
    decreases |a|
  {
    if |a| > 0 && |b| > 0 && a[0] == b[0] {
      StrLeTotal(a[1..], b[1..]);
    }
  }

  lemma {:induction false} StrLeTrans(a: string, b: string, c: string)
    requires StrLe(a, b) && StrLe(b, c)
    ensures StrLe(a, c)
    decreases |a|
  {
    if |a| > 0 && a[0] == b[0] && b[0] == c[0] {
      StrLeTrans(a[1..], b[1..], c[1..]);
    }
  }

  /** `x` may stand before `y`: its key is no greater, or no smaller when reversed. */
  predicate Precedes(x: Doc, y: Doc, key: Doc -> string, reverse: bool)
  {
    if reverse then StrLe(key(y), key(x)) else StrLe(key(x), key(y))
  }

  lemma PrecedesTotal(x: Doc, y: Doc, key: Doc -> string, reverse: bool)
    ensures Precedes(x, y, key, reverse) || Precedes(y, x, key, reverse)
  {
    StrLeTotal(key(x), key(y));
  }

  lemma PrecedesTrans(x: Doc, y: Doc, z: Doc, key: Doc -> string, reverse: bool)
    requires Precedes(x, y, key, reverse) && Precedes(y, z, key, reverse)
    ensures Precedes(x, z, key, reverse)
  {
    if reverse {
      StrLeTrans(key(z), key(y), key(x));
    } else {
      StrLeTrans(key(x), key(y), key(z));
    }
  }

  /** Every element may stand before every later one. */
  predicate Ordered(s: seq<Doc>, key: Doc -> string, reverse: bool)
  {
    forall i, j :: 0 <= i < j < |s| ==> Precedes(s[i], s[j], key, reverse)
  }

  /** Puts `x` in front of the first element it may precede: before any element with its key. */
  function Insert(x: Doc, s: seq<Doc>, key: Doc -> string, reverse: bool): (r: seq<Doc>)
    ensures |r| == |s| + 1
    ensures multiset(r) == multiset(s) + multiset{x}
  {
    if s == [] || Precedes(x, s[0], key, reverse) then [x] + s
    else
      assert s == [s[0]] + s[1..];
      [s[0]] + Insert(x, s[1..], key, reverse)
  }

  /** Insertion sort: stable, like Python's `sorted`. */
  function SortBy(s: seq<Doc>, key: Doc -> string, reverse: bool): (r: seq<Doc>)
    ensures |r| == |s|
    ensures multiset(r) == multiset(s)
  {
    if s == [] then []
    else
      assert s == [s[0]] + s[1..];
      Insert(s[0], SortBy(s[1..], key, reverse), key, reverse)
  }

  lemma OrderedTail(s: seq<Doc>, key: Doc -> string, reverse: bool)
    requires s != [] && Ordered(s, key, reverse)
    ensures Ordered(s[1..], key, reverse)
  {
    forall i, j | 0 <= i < j < |s[1..]| ensures Precedes(s[1..][i], s[1..][j], key, reverse) {
      assert s[1..][i] == s[i + 1] && s[1..][j] == s[j + 1];
    }
  }

  /** An element that may precede every element of an ordered sequence may head it. */
  lemma ConsOrdered(x: Doc, s: seq<Doc>, key: Doc -> string, reverse: bool)
    requires Ordered(s, key, reverse)
    requires forall j :: 0 <= j < |s| ==> Precedes(x, s[j], key, reverse)
    ensures Ordered([x] + s, key, reverse)
  {
    var r := [x] + s;
    forall i, j | 0 <= i < j < |r| ensures Precedes(r[i], r[j], key, reverse) {
      assert r[j] == s[j - 1];
      if i > 0 {
        assert r[i] == s[i - 1];
      }
    }
  }

  lemma {:induction false} InsertOrdered(x: Doc, s: seq<Doc>, key: Doc -> string, reverse: bool)
    requires Ordered(s, key, reverse)
    ensures Ordered(Insert(x, s, key, reverse), key, reverse)
  {
    if s == [] {
      ConsOrdered(x, s, key, reverse);
    } else if Precedes(x, s[0], key, reverse) {
      forall j | 0 <= j < |s| ensures Precedes(x, s[j], key, reverse) {
        if j > 0 {
          PrecedesTrans(x, s[0], s[j], key, reverse);
        }
      }
      ConsOrdered(x, s, key, reverse);
    } else {
      var rest := Insert(x, s[1..], key, reverse);
      OrderedTail(s, key, reverse);
      InsertOrdered(x, s[1..], key, reverse);
      PrecedesTotal(x, s[0], key, reverse);
      forall j | 0 <= j < |rest| ensures Precedes(s[0], rest[j], key, reverse) {
        assert rest[j] in multiset(rest);
        if rest[j] != x {
          assert rest[j] in multiset(s[1..]);
          var k :| 0 <= k < |s[1..]| && s[1..][k] == rest[j];
          assert s[1..][k] == s[k + 1];
        }
      }
      ConsOrdered(s[0], rest, key, reverse);
    }
  }

  lemma {:induction false} SortByOrdered(s: seq<Doc>, key: Doc -> string, reverse: bool)
    ensures Ordered(SortBy(s, key, reverse), key, reverse)
  {
    if s != [] {
      SortByOrdered(s[1..], key, reverse);
      InsertOrdered(s[0], SortBy(s[1..], key, reverse), key, reverse);
    }
  }

  /** The elements whose key is `k`, in their order. */
  function Ties(s: seq<Doc>, key: Doc -> string, k: string): (r: seq<Doc>)
    ensures |r| <= |s|
  {
    if s == [] then []
    else (if key(s[0]) == k then [s[0]] else []) + Ties(s[1..], key, k)
  }

  lemma {:induction false} InsertTies(x: Doc, s: seq<Doc>, key: Doc -> string, reverse: bool, k: string)
    ensures Ties(Insert(x, s, key, reverse), key, k) ==
            (if key(x) == k then [x] else []) + Ties(s, key, k)
  {
    StrLeRefl(key(x));
    if s == [] || Precedes(x, s[0], key, reverse) {
      assert ([x] + s)[1..] == s;
    } else {
      var rest := Insert(x, s[1..], key, reverse);
      InsertTies(x, s[1..], key, reverse, k);
      assert ([s[0]] + rest)[1..] == rest;
      assert key(s[0]) != key(x);
    }
  }

  /** Sorting keeps the documents of each key in their original order: the sort is stable. */
  lemma {:induction false} SortByStable(s: seq<Doc>, key: Doc -> string, reverse: bool, k: string)
    ensures Ties(SortBy(s, key, reverse), key, k) == Ties(s, key, k)
  {
    if s != [] {
      SortByStable(s[1..], key, reverse, k);
      InsertTies(s[0], SortBy(s[1..], key, reverse), key, reverse, k);
    }
  }

  /** Python's `s[start:stop]` for non-negative bounds. */
  function Slice(s: seq<Doc>, start: nat, stop: nat): seq<Doc>
  {
    s[Min(start, |s|)..Max(Min(start, |s|), Min(stop, |s|))]
  }

  /** `(len(results), sorted(results, key=order_by, reverse=do_reverse)[offset:offset+limit])` */
  function PageOf(results: seq<Doc>, limit: nat, offset: nat, key: Doc -> string, reverse: bool): (p: (nat, seq<Doc>))
    ensures p.0 == |results|
    ensures |p.1| <= limit
  {
    (|results|, Slice(SortBy(results, key, reverse), offset, offset + limit))
  }

  /** A slice is a contiguous run of the sequence and keeps its order. */
  lemma SliceSpec(s: seq<Doc>, start: nat, stop: nat, key: Doc -> string, reverse: bool)
    requires start <= stop
    ensures |Slice(s, start, stop)| == Max(0, Min(stop - start, |s| - start))
    ensures forall i :: 0 <= i < |Slice(s, start, stop)| ==> Slice(s, start, stop)[i] == s[start + i]
    ensures multiset(Slice(s, start, stop)) <= multiset(s)
    ensures Ordered(s, key, reverse) ==> Ordered(Slice(s, start, stop), key, reverse)
  {
    var lo, hi := Min(start, |s|), Max(Min(start, |s|), Min(stop, |s|));
    var page := Slice(s, start, stop);
    assert s == s[..lo] + page + s[hi..];
    assert multiset(s) == multiset(s[..lo]) + multiset(page) + multiset(s[hi..]);
    if Ordered(s, key, reverse) {
      forall i, j | 0 <= i < j < |page| ensures Precedes(page[i], page[j], key, reverse) {
        assert page[i] == s[lo + i] && page[j] == s[lo + j];
      }
    }
  }

  /** The page `sorted[offset:offset+limit]` of an ordered permutation `sorted` of `results`. */
  lemma SortedPage(results: seq<Doc>, sorted: seq<Doc>, page: seq<Doc>, limit: nat, offset: nat, key: Doc -> string, reverse: bool)
    requires |sorted| == |results| && multiset(sorted) == multiset(results)
    requires Ordered(sorted, key, reverse)
    requires page == Slice(sorted, offset, offset + limit)
    ensures |page| == Max(0, Min(limit, |results| - offset))
    ensures forall i :: 0 <= i < |page| ==> page[i] == sorted[offset + i]
    ensures Ordered(page, key, reverse)
    ensures multiset(page) <= multiset(results)
  {
    SliceSpec(sorted, offset, offset + limit, key, reverse);
  }

  /**
   * The count is the number of fetched documents; the page holds the sorted
   * documents ranked `offset` to `offset + limit - 1`, as many of them as
   * exist, in sort order, and each taken from the fetched ones.
   */
  lemma PageOfSpec(results: seq<Doc>, limit: nat, offset: nat, key: Doc -> string, reverse: bool)
    ensures PageOf(results, limit, offset, key, reverse).0 == |results|
    ensures |PageOf(results, limit, offset, key, reverse).1| == Max(0, Min(limit, |results| - offset))
    ensures forall i :: 0 <= i < |PageOf(results, limit, offset, key, reverse).1| ==>
              PageOf(results, limit, offset, key, reverse).1[i] == SortBy(results, key, reverse)[offset + i]
    ensures Ordered(PageOf(results, limit, offset, key, reverse).1, key, reverse)
    ensures multiset(PageOf(results, limit, offset, key, reverse).1) <= multiset(results)
  {
    SortByOrdered(results, key, reverse);
    SortedPage(results, SortBy(results, key, reverse), PageOf(results, limit, offset, key, reverse).1, limit, offset, key, reverse);
  }
}
