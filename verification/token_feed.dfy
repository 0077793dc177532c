/**
 * The token controller's read side: the fixed token summary, the price history cut to a
 * time window, the static holder buckets, and the transaction list filtered by type,
 * sorted newest first and paged.
 */
module TokenFeed {
  import opened Js
  import opened Paging

  const HOUR_MS: int := 60 * 60 * 1000
  const DAY_MS: int := 24 * HOUR_MS

  /** A price sample; the price is carried along and never computed with. */
  datatype PricePoint = PricePoint(timestamp: int, price: real)

  datatype TokenData = TokenData(
    name: string,
    symbol: string,
    totalSupply: string,
    decimals: nat,
    currentPrice: real,
    priceHistory: seq<PricePoint>,
    holdersCount: nat,
    marketCap: real,
    volume24h: real)

  /** `tokenData` as built when the module loads at time `t0`. */
  function InitialTokenData(t0: int): (r: TokenData)
    ensures |r.priceHistory| == 4 && Chronological(r.priceHistory)
    ensures r.priceHistory[0].timestamp == t0 - 30 * DAY_MS && r.priceHistory[3].timestamp == t0
    ensures r.priceHistory[3].price == r.currentPrice
    ensures r.holdersCount == 1250 && r.decimals == 9
  {
    TokenData(
      "Space Token", "SPACE", "1000000000", 9, 0.00015,
      [ PricePoint(t0 - 30 * DAY_MS, 0.00005), PricePoint(t0 - 20 * DAY_MS, 0.00008),
        PricePoint(t0 - 10 * DAY_MS, 0.00012), PricePoint(t0, 0.00015) ],
      1250, 150000.0, 25000.0)
  }

  /** Timestamps never decrease along the history. */
  predicate Chronological(h: seq<PricePoint>)
  {
    forall i, j :: 0 <= i < j < |h| ==> h[i].timestamp <= h[j].timestamp
  }

  // ---------------------------------------------------------------------------
  // price window
  // ---------------------------------------------------------------------------

  /** The length of a named time range: three named windows, and 30 days for anything else. */
  function WindowMs(timeRange: string): (r: int)
    ensures timeRange == "24h" ==> r == 86_400_000
    ensures timeRange == "7d" ==> r == 604_800_000
    ensures timeRange == "30d" ==> r == 2_592_000_000
    ensures timeRange != "24h" && timeRange != "7d" ==> r == 2_592_000_000
    ensures r > 0
  {
    if timeRange == "24h" then 24 * HOUR_MS
    else if timeRange == "7d" then 7 * DAY_MS
    else if timeRange == "30d" then 30 * DAY_MS
    else 30 * DAY_MS
  }

  function Since(cutoff: int): PricePoint -> bool
  {
    (p: PricePoint) => p.timestamp >= cutoff
  }

  /** The history part of `getTokenPrice`. An absent or empty `timeRange` returns the whole
      history; otherwise exactly the samples no older than `now - window`, in order. */
  function PriceWindow(history: seq<PricePoint>, timeRange: Option<string>, now: int): (r: seq<PricePoint>)
    ensures Blank(timeRange) ==> r == history
    ensures !Blank(timeRange) ==> r == Filter(history, Since(now - WindowMs(timeRange.value)))
    ensures !Blank(timeRange) ==>
              && (forall i :: 0 <= i < |r| ==> r[i] in history && r[i].timestamp >= now - WindowMs(timeRange.value))
              && (forall i :: 0 <= i < |history| && history[i].timestamp >= now - WindowMs(timeRange.value) ==>
                    history[i] in r)
  {
    if Blank(timeRange) then history
    else Filter(history, Since(now - WindowMs(timeRange.value)))
  }

  /** A wider window keeps everything a narrower one keeps, in the same order: the narrow
      result is the wide result filtered again. */
  lemma WiderWindowKeepsMore(history: seq<PricePoint>, now: int, narrow: int, wide: int)
    requires narrow <= wide
    ensures Filter(Filter(history, Since(now - wide)), Since(now - narrow)) == Filter(history, Since(now - narrow))
    ensures |Filter(history, Since(now - narrow))| <= |Filter(history, Since(now - wide))|
  {
    FilterNarrow(history, Since(now - narrow), Since(now - wide));
  }

  /** On a chronological history every window is a suffix: the most recent samples. */
  lemma {:induction false} WindowIsSuffix(history: seq<PricePoint>, cutoff: int)
    requires Chronological(history)
    ensures exists k :: 0 <= k <= |history| && Filter(history, Since(cutoff)) == history[k..]
    decreases |history|
  {
    if |history| == 0 {
      assert Filter(history, Since(cutoff)) == history[0..];
    } else if history[0].timestamp >= cutoff {
      FilterAll(history, Since(cutoff));
      assert Filter(history, Since(cutoff)) == history[0..];
    } else {
      WindowIsSuffix(history[1..], cutoff);
      var k :| 0 <= k <= |history[1..]| && Filter(history[1..], Since(cutoff)) == history[1..][k..];
      assert history[1..][k..] == history[k + 1..];
    }
  }

  /** With the start-up history read at start-up time, the 24-hour window holds only the
      latest sample. */
  lemma InitialDayWindow(t0: int)
    ensures PriceWindow(InitialTokenData(t0).priceHistory, Some("24h"), t0) == [PricePoint(t0, 0.00015)]
  {
    var h := InitialTokenData(t0).priceHistory;
    var day := Since(t0 - 86_400_000);
    assert WindowMs("24h") == 86_400_000;
    assert h == h[..3] + h[3..];
    FilterAppend(h[..3], h[3..], day);
    FilterNone(h[..3], day);
    FilterAll(h[3..], day);
  }

  /** At start-up the 30-day window, and the fallback for an unknown range, hold all four samples. */
  lemma InitialMonthWindow(t0: int, timeRange: string)
    requires timeRange != "24h" && timeRange != "7d" && timeRange != ""
    ensures PriceWindow(InitialTokenData(t0).priceHistory, Some(timeRange), t0) == InitialTokenData(t0).priceHistory
  {
    var h := InitialTokenData(t0).priceHistory;
    assert WindowMs(timeRange) == 30 * DAY_MS;
    FilterAll(h, Since(t0 - 30 * DAY_MS));
  }

  /** Up to ten days after start-up, the 30-day window and the fallback hold the last three
      samples: the oldest one, taken 30 days before start-up, has already dropped out. */
  lemma LaterMonthWindow(t0: int, now: int, timeRange: string)
    requires timeRange != "24h" && timeRange != "7d" && timeRange != ""
    requires t0 < now <= t0 + 10 * DAY_MS
    ensures PriceWindow(InitialTokenData(t0).priceHistory, Some(timeRange), now) == InitialTokenData(t0).priceHistory[1..]
  {
    var h := InitialTokenData(t0).priceHistory;
    assert WindowMs(timeRange) == 30 * DAY_MS;
    assert h[0].timestamp == t0 - 30 * DAY_MS && h[1].timestamp == t0 - 20 * DAY_MS;
    DropsOnlyOldest(h, now - 30 * DAY_MS);
  }

  /** On a chronological history, a cutoff just past the first sample drops that one only. */
  lemma DropsOnlyOldest(h: seq<PricePoint>, cutoff: int)
    requires Chronological(h) && |h| >= 2
    requires h[0].timestamp < cutoff <= h[1].timestamp
    ensures Filter(h, Since(cutoff)) == h[1..]
  {
    assert forall i :: 1 <= i < |h| ==> h[1].timestamp <= h[i].timestamp;
    FilterAll(h[1..], Since(cutoff));
  }

  datatype PriceResponse = PriceResponse(current: real, history: seq<PricePoint>)

  /** `getTokenPrice`. */
  function GetTokenPrice(td: TokenData, timeRange: Option<string>, now: int): (r: PriceResponse)
    ensures r.current == td.currentPrice
    ensures r.history == PriceWindow(td.priceHistory, timeRange, now)
    ensures Blank(timeRange) ==> r.history == td.priceHistory
    ensures forall i :: 0 <= i < |r.history| ==> r.history[i] in td.priceHistory
  {
    PriceResponse(td.currentPrice, PriceWindow(td.priceHistory, timeRange, now))
  }

  // ---------------------------------------------------------------------------
  // holders
  // ---------------------------------------------------------------------------

  datatype Bucket = Bucket(range: string, count: nat)

  /** `holdersDistribution`. */
  const HoldersDistribution: seq<Bucket> := [
    Bucket("0-1000", 800), Bucket("1000-10000", 300), Bucket("10000-100000", 120),
    Bucket("100000-1000000", 25), Bucket("1000000+", 5)
  ]

  function SumCounts(bs: seq<Bucket>): nat
  {
    if |bs| == 0 then 0 else bs[0].count + SumCounts(bs[1..])
  }

  datatype HoldersStats = HoldersStats(total: nat, distribution: seq<Bucket>)

  /** `getHoldersStats`: the headline count next to the static buckets, which add up to it. */
  function GetHoldersStats(t0: int): (r: HoldersStats)
    ensures r.total == InitialTokenData(t0).holdersCount
    ensures |r.distribution| == 5
    ensures SumCounts(r.distribution) == r.total
  {
    assert SumCounts(HoldersDistribution) == 1250 by {
      var d := HoldersDistribution;
      assert d[1..][1..][1..][1..][1..] == [];
    }
    HoldersStats(InitialTokenData(t0).holdersCount, HoldersDistribution)
  }

  // ---------------------------------------------------------------------------
  // transactions
  // ---------------------------------------------------------------------------

  datatype TxType = Buy | Sell

  datatype Tx = Tx(id: string, from: string, to: string, amount: int, timestamp: int, kind: TxType)

  /** The optional transaction-type filter: only the two exact spellings `buy` and `sell`
      select one; anything else, or nothing, lists every transaction. */
  function ParseTxType(q: Option<string>): (r: Option<TxType>)
    ensures r == Some(Buy) <==> q == Some("buy")
    ensures r == Some(Sell) <==> q == Some("sell")
  {
    match q
    case Some(s) => if s == "buy" then Some(Buy) else if s == "sell" then Some(Sell) else None
    case None => None
  }

  function OfKind(k: TxType): Tx -> bool
  {
    (t: Tx) => t.kind == k
  }

  /** Newest first: timestamps never increase along the sequence. */
  predicate NewestFirst(s: seq<Tx>)
  {
    forall i, j :: 0 <= i < j < |s| ==> s[i].timestamp >= s[j].timestamp
  }

  /** Places `x` in front of the first element no newer than it, so that `x`, which came
      first in the input, stays ahead of later elements with the same timestamp. */
  function InsertNewestFirst(x: Tx, s: seq<Tx>): (r: seq<Tx>)
    requires NewestFirst(s)
    ensures NewestFirst(r)
    ensures multiset(r) == multiset(s) + multiset{x}
    ensures |r| == |s| + 1 && (r[0] == x || (|s| > 0 && r[0] == s[0]))
  {
    if |s| == 0 || s[0].timestamp <= x.timestamp then [x] + s
    else
      var rest := InsertNewestFirst(x, s[1..]);
      KeepHead(x, s, rest);
      [s[0]] + rest
  }

  /** The head of `s` stays in front of the tail with `x` inserted, since nothing there is newer. */
  lemma KeepHead(x: Tx, s: seq<Tx>, rest: seq<Tx>)
    requires NewestFirst(s) && |s| > 0 && s[0].timestamp > x.timestamp
    requires NewestFirst(rest) && multiset(rest) == multiset(s[1..]) + multiset{x}
    ensures NewestFirst([s[0]] + rest)
    ensures multiset([s[0]] + rest) == multiset(s) + multiset{x}
  {
    forall j | 0 <= j < |rest|
      ensures rest[j].timestamp <= s[0].timestamp
    {
      assert rest[j] in multiset(rest);
      if rest[j] != x {
        assert rest[j] in multiset(s[1..]);
        var i :| 0 <= i < |s[1..]| && s[1..][i] == rest[j];
        assert s[i + 1] == rest[j];
      }
    }
    var r := [s[0]] + rest;
    forall i, j | 0 <= i < j < |r|
      ensures r[i].timestamp >= r[j].timestamp
    {
      if i > 0 {
        assert r[i] == rest[i - 1] && r[j] == rest[j - 1];
      } else {
        assert r[j] == rest[j - 1];
      }
    }
    assert s == [s[0]] + s[1..];
  }

  /** The transaction list ordered by descending timestamp; the sort is stable, so equal
      timestamps keep their order. */
  function SortNewestFirst(s: seq<Tx>): (r: seq<Tx>)
    ensures NewestFirst(r)
    ensures multiset(r) == multiset(s)
    ensures |r| == |s|
  {
    if |s| == 0 then []
    else
      assert s == [s[0]] + s[1..];
      InsertNewestFirst(s[0], SortNewestFirst(s[1..]))
  }

  function AtTime(ts: int): Tx -> bool
  {
    (t: Tx) => t.timestamp == ts
  }

  lemma {:induction false} InsertKeepsTies(x: Tx, s: seq<Tx>, ts: int)
    requires NewestFirst(s)
    ensures Filter(InsertNewestFirst(x, s), AtTime(ts)) ==
            (if x.timestamp == ts then [x] else []) + Filter(s, AtTime(ts))
    decreases |s|
  {
    if |s| == 0 || s[0].timestamp <= x.timestamp {
      TiesInFront(x, s, ts);
    } else {
      InsertKeepsTies(x, s[1..], ts);
      TiesBehind(x, s, ts);
    }
  }

  /** `x` lands in front: it is listed before every tie already there. */
  lemma TiesInFront(x: Tx, s: seq<Tx>, ts: int)
    requires NewestFirst(s)
    requires |s| == 0 || s[0].timestamp <= x.timestamp
    ensures Filter(InsertNewestFirst(x, s), AtTime(ts)) ==
            (if x.timestamp == ts then [x] else []) + Filter(s, AtTime(ts))
  {
    var p := AtTime(ts);
    assert InsertNewestFirst(x, s) == [x] + s;
    assert Filter([x], p) == if x.timestamp == ts then [x] else [];
    FilterAppend([x], s, p);
  }

  /** `x` goes behind a strictly newer head: the head is no tie of `x`, so the ties come
      out as they do in the tail. */
  lemma TiesBehind(x: Tx, s: seq<Tx>, ts: int)
    requires NewestFirst(s)
    requires |s| > 0 && s[0].timestamp > x.timestamp
    requires Filter(InsertNewestFirst(x, s[1..]), AtTime(ts)) ==
             (if x.timestamp == ts then [x] else []) + Filter(s[1..], AtTime(ts))
    ensures Filter(InsertNewestFirst(x, s), AtTime(ts)) ==
            (if x.timestamp == ts then [x] else []) + Filter(s, AtTime(ts))
  {
    InsertBehindHead(x, s);
    HeadAndTail(s);
    TiesPastNewerHead(s[0], InsertNewestFirst(x, s[1..]), s[1..], InsertNewestFirst(x, s), s, x, ts);
  }

  /** Behind a strictly newer head, inserting into the list is inserting into its tail. */
  lemma InsertBehindHead(x: Tx, s: seq<Tx>)
    requires NewestFirst(s)
    requires |s| > 0 && s[0].timestamp > x.timestamp
    ensures InsertNewestFirst(x, s) == [s[0]] + InsertNewestFirst(x, s[1..])
  {
  }

  lemma HeadAndTail<T>(s: seq<T>)
    requires |s| > 0
    ensures s == [s[0]] + s[1..]
  {
  }

  /** Putting a head strictly newer than `x` in front of both sides keeps the tie lists in step. */
  lemma TiesPastNewerHead(h: Tx, rest: seq<Tx>, tail: seq<Tx>, ins: seq<Tx>, whole: seq<Tx>, x: Tx, ts: int)
    requires h.timestamp > x.timestamp
    requires ins == [h] + rest && whole == [h] + tail
    requires Filter(rest, AtTime(ts)) == (if x.timestamp == ts then [x] else []) + Filter(tail, AtTime(ts))
    ensures Filter(ins, AtTime(ts)) == (if x.timestamp == ts then [x] else []) + Filter(whole, AtTime(ts))
  {
    var p := AtTime(ts);
    var head := Filter([h], p);
    var mine: seq<Tx> := if x.timestamp == ts then [x] else [];
    var t := Filter(tail, p);
    assert Filter(ins, p) == head + Filter(rest, p) by {
      FilterAppend([h], rest, p);
    }
    assert Filter(whole, p) == head + t by {
      FilterAppend([h], tail, p);
    }
    if x.timestamp == ts {
      NewerIsNoTie(h, ts);
    }
    SkipEmpty(head, mine, t);
  }

  lemma NewerIsNoTie(h: Tx, ts: int)
    requires h.timestamp > ts
    ensures Filter([h], AtTime(ts)) == []
  {
    FilterSingle(h, AtTime(ts));
  }

  /** Two lists of which one is empty can trade places in front of a third. */
  lemma SkipEmpty<T>(a: seq<T>, b: seq<T>, c: seq<T>)
    requires a == [] || b == []
    ensures a + (b + c) == b + (a + c)
  {
  }

  /** Stability: transactions with the same timestamp keep their relative order. */
  lemma {:induction false} SortIsStable(s: seq<Tx>, ts: int)
    ensures Filter(SortNewestFirst(s), AtTime(ts)) == Filter(s, AtTime(ts))
    decreases |s|
  {
    if |s| > 0 {
      SortIsStable(s[1..], ts);
      InsertKeepsTies(s[0], SortNewestFirst(s[1..]), ts);
      FilterAppend([s[0]], s[1..], AtTime(ts));
      assert s == [s[0]] + s[1..];
    }
  }

  /** Sorting an already sorted list changes nothing, so repeated unfiltered requests leave
      the shared list where the first one put it. */
  lemma {:induction false} SortIdempotent(s: seq<Tx>)
    requires NewestFirst(s)
    ensures SortNewestFirst(s) == s
    decreases |s|
  {
    if |s| > 0 {
      assert NewestFirst(s[1..]) by {
        forall i, j | 0 <= i < j < |s[1..]| ensures s[1..][i].timestamp >= s[1..][j].timestamp {
          assert s[1..][i] == s[i + 1] && s[1..][j] == s[j + 1];
        }
      }
      SortIdempotent(s[1..]);
      InsertInFront(s[0], s[1..]);
      HeadAndTail(s);
    }
  }

  /** An element at least as new as the head goes in front. */
  lemma InsertInFront(x: Tx, s: seq<Tx>)
    requires NewestFirst(s)
    requires |s| == 0 || s[0].timestamp <= x.timestamp
    ensures InsertNewestFirst(x, s) == [x] + s
  {
  }

  lemma SortKeepsMembers(s: seq<Tx>)
    ensures forall t :: t in SortNewestFirst(s) <==> t in s
  {
    var r := SortNewestFirst(s);
    forall t ensures t in r <==> t in s {
      assert t in r <==> t in multiset(r);
      assert t in s <==> t in multiset(s);
    }
  }

  /** The response of `getTransactionHistory`, and the shared transaction list afterwards:
      without a type filter the shared list itself is sorted in place. */
  datatype TxHistory = TxHistory(page: Page<Tx>, transactions: seq<Tx>)

  /** `getTransactionHistory`. With `type` exactly `buy` or `sell` only that kind is listed;
      any other value lists everything. The listed transactions are sorted newest first,
      `count` is how many were listed, and the page is the `[offset, offset + limit)` window
      of the sorted list. The shared list keeps the same transactions either way. */
  function GetTransactionHistory(txs: seq<Tx>, limitQ: Option<string>, offsetQ: Option<string>, typeQ: Option<string>)
    : (r: TxHistory)
    ensures var listed := SortNewestFirst(if ParseTxType(typeQ).Some? then Filter(txs, OfKind(ParseTxType(typeQ).value)) else txs);
            && r.page.count == |listed|
            && r.page.data == Window(listed, OffsetOf(offsetQ), LimitOf(limitQ))
            && NewestFirst(listed)
    ensures ParseTxType(typeQ).None? ==> r.page.count == |txs|
    ensures ParseTxType(typeQ).Some? ==>
              forall i :: 0 <= i < |r.page.data| ==> r.page.data[i].kind == ParseTxType(typeQ).value
    ensures forall i :: 0 <= i < |r.page.data| ==> r.page.data[i] in txs
    ensures multiset(r.transactions) == multiset(txs)
    ensures ParseTxType(typeQ).Some? ==> r.transactions == txs
    ensures ParseTxType(typeQ).None? ==> NewestFirst(r.transactions)
    ensures ParseTxType(typeQ).None? ==> r.transactions == SortNewestFirst(txs)
  {
    var kind := ParseTxType(typeQ);
    var filtered := if kind.Some? then Filter(txs, OfKind(kind.value)) else txs;
    var sorted := SortNewestFirst(filtered);
    SortKeepsMembers(filtered);
    (TxHistory(ListPage(sorted, limitQ, offsetQ), if kind.Some? then txs else sorted))
  }

  /** A second unfiltered request sees the list the first one sorted and leaves it as is. */
  lemma UnfilteredRequestIsIdempotent(txs: seq<Tx>, l: Option<string>, o: Option<string>, t: Option<string>)
    requires ParseTxType(t).None?
    ensures var first := GetTransactionHistory(txs, l, o, t);
            GetTransactionHistory(first.transactions, l, o, t).transactions == first.transactions
  {
    var first := GetTransactionHistory(txs, l, o, t);
    SortIdempotent(first.transactions);
  }
}
