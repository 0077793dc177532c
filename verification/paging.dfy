/**
 * The `limit`/`offset` query handling shared by the three list endpoints:
 * `parseInt(q) || default`, then `xs.slice(offset, offset + limit)`, with the
 * full length reported beside the page.
 */
module Paging {
  import opened Js

  const DEFAULT_LIMIT: int := 10
  const DEFAULT_OFFSET: int := 0

  function Min(a: int, b: int): int { if a < b then a else b }

  /** The elements from `offset` up to `offset + limit`, cut off at the end of `xs`. */
  function Clamped<T>(xs: seq<T>, offset: nat, limit: nat): seq<T>
  {
    xs[Min(offset, |xs|)..Min(offset + limit, |xs|)]
  }

  /** A numeric query value with a fallback: a missing, non-numeric or zero value gives the fallback;
      every other parsed value, negative ones included, is kept. */
  function QueryIntOr(q: Option<string>, fallback: int): (r: int)
    ensures q.None? ==> r == fallback
    ensures q.Some? && ParseInt(q.value).Some? && ParseInt(q.value).value != 0
            ==> r == ParseInt(q.value).value
    ensures q.Some? && (ParseInt(q.value).None? || ParseInt(q.value).value == 0) ==> r == fallback
    ensures r == 0 ==> fallback == 0
  {
    match q
    case None => fallback
    case Some(s) =>
      match ParseInt(s)
      case None => fallback
      case Some(n) => if n != 0 then n else fallback
  }

  function LimitOf(q: Option<string>): int { QueryIntOr(q, DEFAULT_LIMIT) }

  function OffsetOf(q: Option<string>): int { QueryIntOr(q, DEFAULT_OFFSET) }

  /** The limit is never zero: a zero-sized page can only be asked for with a negative limit. */
  lemma LimitNeverZero(q: Option<string>)
    ensures LimitOf(q) != 0
    ensures q.None? ==> LimitOf(q) == 10
  {
  }

  /** `xs.slice(offset, offset + limit)`: a contiguous run of `xs`, at most `limit` long;
      for a non-negative offset and positive limit it is exactly the clamped window. */
  function Window<T>(xs: seq<T>, offset: int, limit: int): (r: seq<T>)
    ensures 0 <= limit ==> |r| <= limit
    ensures 0 <= offset && 0 < limit ==> r == Clamped(xs, offset, limit)
    ensures offset >= |xs| ==> r == []
    ensures forall i :: 0 <= i < |r| ==> r[i] in xs
  {
    SliceLength(xs, offset, offset + limit);
    Slice(xs, offset, offset + limit)
  }

  /** `slice` never returns more than `end - start` elements, whatever the signs. */
  lemma SliceLength<T>(xs: seq<T>, start: int, end: int)
    ensures start <= end ==> |Slice(xs, start, end)| <= end - start
  {
    var a := ClampIndex(start, |xs|);
    var b := ClampIndex(end, |xs|);
    if a < b && start < 0 && end >= 0 {
      assert b <= end;
    }
  }

  /** A negative limit is not defaulted and does not give an empty page: `slice(0, -1)`
      drops the last element instead. */
  lemma NegativeLimitDropsLast<T>(xs: seq<T>)
    requires |xs| > 0
    ensures Window(xs, 0, -1) == xs[..|xs| - 1]
    ensures LimitOf(Some("-1")) == -1
  {
    MinusOneParses();
  }

  lemma MinusOneParses()
    ensures ParseInt("-1") == Some(-1)
  {
    assert DecimalDigits(1) == "1";
    DecimalMagnitude(1);
    ParseIntNegative("-1", "1", 1);
  }

  /** A list response: `count` is always the length of the whole listed sequence. */
  datatype Page<T> = Page(count: nat, data: seq<T>)

  /** The paging step of `getAllExperiments`, `getAllPostcards` and `getTransactionHistory`. */
  function ListPage<T>(xs: seq<T>, limitQ: Option<string>, offsetQ: Option<string>): (r: Page<T>)
    ensures r.count == |xs|
    ensures r.data == Window(xs, OffsetOf(offsetQ), LimitOf(limitQ))
    ensures limitQ.None? && offsetQ.None? ==> r.data == xs[..Min(10, |xs|)]
  {
    Page(|xs|, Window(xs, OffsetOf(offsetQ), LimitOf(limitQ)))
  }

  /** Consecutive pages tile the sequence: page k followed by page k+1 is one page twice as long. */
  lemma WindowsTile<T>(xs: seq<T>, offset: nat, limit: nat)
    requires limit > 0
    ensures Window(xs, offset, limit) + Window(xs, offset + limit, limit) == Window(xs, offset, 2 * limit)
  {
  }

  /** Walking the pages from offset 0 in steps of `limit` visits every element exactly once. */
  function AllPages<T>(xs: seq<T>, offset: nat, limit: nat): seq<T>
    requires limit > 0
    decreases |xs| - offset
  {
    if offset >= |xs| then [] else Window(xs, offset, limit) + AllPages(xs, offset + limit, limit)
  }

  lemma {:induction false} AllPagesCover<T>(xs: seq<T>, offset: nat, limit: nat)
    requires limit > 0 && offset <= |xs|
    ensures AllPages(xs, offset, limit) == xs[offset..]
    decreases |xs| - offset
  {
    if offset < |xs| {
      if offset + limit <= |xs| {
        AllPagesCover(xs, offset + limit, limit);
        FullPageThenRest(xs, offset, limit);
      } else {
        LastPage(xs, offset, limit);
      }
    }
  }

  /** A full page followed by the walk over what is left covers everything from `offset`. */
  lemma FullPageThenRest<T>(xs: seq<T>, offset: nat, limit: nat)
    requires limit > 0 && offset + limit <= |xs|
    requires AllPages(xs, offset + limit, limit) == xs[offset + limit..]
    ensures AllPages(xs, offset, limit) == xs[offset..]
  {
    var page := Window(xs, offset, limit);
    assert AllPages(xs, offset, limit) == page + xs[offset + limit..];
    assert page == xs[offset..offset + limit] by {
      assert Min(offset + limit, |xs|) == offset + limit;
    }
    SplitAt(xs, offset, offset + limit);
  }

  /** A page that reaches the end is the last one. */
  lemma LastPage<T>(xs: seq<T>, offset: nat, limit: nat)
    requires limit > 0 && offset < |xs| < offset + limit
    ensures AllPages(xs, offset, limit) == xs[offset..]
  {
    assert Window(xs, offset, limit) == xs[offset..];
    assert AllPages(xs, offset + limit, limit) == [];
  }

  lemma SplitAt<T>(xs: seq<T>, i: nat, j: nat)
    requires i <= j <= |xs|
    ensures xs[i..] == xs[i..j] + xs[j..]
  {
  }
}
