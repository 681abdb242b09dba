/**
 * One greedy pass over a whole result list: how many rows fit one pull response.
 * Both paged readers refine this pass whatever page size they fetch with.
 */
module PageCut {
  import opened Wrappers
  import opened Ordering
  import opened LogModel

  const MAX_BYTES: nat := 800_000

  /** Size of the JSON metadata sent with a page that ends at this row, given its hasNextPage flag. */
  type MetadataSize = (Row, bool) -> nat

  /** Entry bytes of the first n rows. */
  function BytesUpTo(rows: seq<Row>, n: nat): nat
    requires n <= |rows|
  {
    if n == 0 then 0 else BytesUpTo(rows, n - 1) + |rows[n - 1].entry|
  }

  function TotalBytes(rows: seq<Row>): nat { BytesUpTo(rows, |rows|) }

  lemma {:induction false} BytesOfPrefix(a: seq<Row>, b: seq<Row>, n: nat)
    requires n <= |a| && n <= |b| && a[..n] == b[..n]
    ensures BytesUpTo(a, n) == BytesUpTo(b, n)
  {
    if n > 0 {
      assert a[..n - 1] == a[..n][..n - 1] && b[..n - 1] == b[..n][..n - 1];
      assert a[n - 1] == a[..n][n - 1] && b[n - 1] == b[..n][n - 1];
      BytesOfPrefix(a, b, n - 1);
    }
  }

  /** Two or more rows leave room for their metadata. */
  ghost predicate WithinBudget(rows: seq<Row>, n: nat, size: MetadataSize, more: bool)
    requires n <= |rows|
  {
    n >= 2 ==> BytesUpTo(rows, n) + size(rows[n - 1], more) <= MAX_BYTES
  }

  lemma BudgetOfPrefix(a: seq<Row>, b: seq<Row>, n: nat, size: MetadataSize, more: bool)
    requires n <= |a| && n <= |b| && a[..n] == b[..n]
    ensures WithinBudget(a, n, size, more) == WithinBudget(b, n, size, more)
  {
    BytesOfPrefix(a, b, n);
    assert n > 0 ==> a[n - 1] == a[..n][n - 1] && b[n - 1] == b[..n][n - 1];
  }

  predicate LimitReached(limit: Option<nat>, count: nat) {
    limit.Some? && count >= limit.value
  }

  /** The cut position and hasNextPage flag, having taken `taken` rows already. */
  function CutFrom(all: seq<Row>, size: MetadataSize, limit: Option<nat>, taken: nat): (r: (nat, bool))
    requires taken <= |all|
    decreases |all| - taken
  {
    if taken == |all| then (taken, false)
    else
      var more := taken + 1 < |all|;
      var bytes := BytesUpTo(all, taken);
      var metadata := size(all[taken], more);
      if taken > 0 && bytes + |all[taken].entry| + metadata > MAX_BYTES then (taken, true)
      else if bytes + |all[taken].entry| + metadata >= MAX_BYTES then (taken + 1, more)
      else if LimitReached(limit, taken + 1) then (taken + 1, more)
      else CutFrom(all, size, limit, taken + 1)
  }

  function Cut(all: seq<Row>, size: MetadataSize, limit: Option<nat>): (nat, bool) {
    if limit == Some(0) then (0, false) else CutFrom(all, size, limit, 0)
  }

  /** A response of the first n rows is admissible: alone, or within budget, and nothing shorter was already full. */
  ghost predicate Fits(all: seq<Row>, size: MetadataSize, n: nat)
    requires n <= |all|
  {
    n <= 1 ||
    (&& BytesUpTo(all, n - 1) + size(all[n - 2], true) < MAX_BYTES
     && BytesUpTo(all, n) + size(all[n - 1], n < |all|) <= MAX_BYTES)
  }

  ghost predicate FitsThroughout(all: seq<Row>, size: MetadataSize, n: nat)
    requires n <= |all|
  {
    forall m: nat | m <= n :: Fits(all, size, m)
  }

  /** The largest response the budget and the limit allow. */
  ghost predicate LongestFit(all: seq<Row>, size: MetadataSize, limit: Option<nat>, n: nat) {
    && n <= |all|
    && (limit.Some? ==> n <= limit.value)
    && FitsThroughout(all, size, n)
    && (n < |all| && !LimitReached(limit, n) ==> !Fits(all, size, n + 1))
  }

  lemma {:induction false} CutFromIsLongestFit(all: seq<Row>, size: MetadataSize, limit: Option<nat>, taken: nat)
    requires taken <= |all|
    requires limit.Some? ==> taken < limit.value
    requires FitsThroughout(all, size, taken)
    requires taken > 0 && taken < |all| ==> BytesUpTo(all, taken) + size(all[taken - 1], true) < MAX_BYTES
    ensures var (n, more) := CutFrom(all, size, limit, taken);
            n >= taken && LongestFit(all, size, limit, n) && (more <==> n < |all|)
    ensures taken == 0 && all != [] ==> CutFrom(all, size, limit, taken).0 > 0
    decreases |all| - taken
  {
    if taken < |all| {
      var more := taken + 1 < |all|;
      var full := BytesUpTo(all, taken) + |all[taken].entry| + size(all[taken], more);
      if taken > 0 && full > MAX_BYTES {
        assert !Fits(all, size, taken + 1);
      } else {
        assert Fits(all, size, taken + 1);
        if full >= MAX_BYTES {
          assert more ==> !Fits(all, size, taken + 2);
        } else if !LimitReached(limit, taken + 1) {
          CutFromIsLongestFit(all, size, limit, taken + 1);
        }
      }
    }
  }

  /** The greedy pass takes the longest admissible prefix, and says truthfully whether rows remain. */
  lemma CutIsLongestFit(all: seq<Row>, size: MetadataSize, limit: Option<nat>)
    ensures var (n, more) := Cut(all, size, limit);
            && LongestFit(all, size, limit, n)
            && ((more <==> n < |all|) <==> (limit != Some(0) || all == []))
            && (limit != Some(0) && all != [] ==> n > 0)
  {
    if limit != Some(0) {
      CutFromIsLongestFit(all, size, limit, 0);
    }
  }

  lemma LongestFitUnique(all: seq<Row>, size: MetadataSize, limit: Option<nat>, m: nat, n: nat)
    requires LongestFit(all, size, limit, m) && LongestFit(all, size, limit, n)
    ensures m == n
  {
    // The shorter of two would leave room for one row more, which the longer contains.
  }

  // One fetched page at a time.

  datatype Stop = PageDone | SizeLimit | RowLimit

  datatype PageOutcome = PageOutcome(count: nat, hasNextPage: bool, stop: Stop)

  /** The greedy pass over `all`, of which more rows may follow (`tail`), from position `taken` on. */
  function CutPage(all: seq<Row>, tail: bool, size: MetadataSize, limit: Option<nat>, taken: nat): (r: PageOutcome)
    requires taken <= |all|
    ensures taken <= r.count <= |all|
    ensures r.stop.PageDone? ==> r.count == |all| && r.hasNextPage == tail
    decreases |all| - taken
  {
    if taken == |all| then PageOutcome(taken, tail, PageDone)
    else
      var more := taken + 1 < |all| || tail;
      var bytes := BytesUpTo(all, taken);
      var metadata := size(all[taken], more);
      if taken > 0 && bytes + |all[taken].entry| + metadata > MAX_BYTES then PageOutcome(taken, true, SizeLimit)
      else if bytes + |all[taken].entry| + metadata >= MAX_BYTES then PageOutcome(taken + 1, more, SizeLimit)
      else if LimitReached(limit, taken + 1) then PageOutcome(taken + 1, more, RowLimit)
      else CutPage(all, tail, size, limit, taken + 1)
  }

  /** Cutting page by page is cutting the whole list. */
  lemma {:induction false} PagesComposeToCut(
    all: seq<Row>, upTo: nat, size: MetadataSize, limit: Option<nat>, taken: nat)
    requires taken <= upTo <= |all|
    ensures var page := CutPage(all[..upTo], upTo < |all|, size, limit, taken);
            CutFrom(all, size, limit, taken) ==
            if page.stop.PageDone? then CutFrom(all, size, limit, upTo) else (page.count, page.hasNextPage)
    decreases upTo - taken
  {
    if taken < upTo {
      BytesOfPrefix(all[..upTo], all, taken);
      PagesComposeToCut(all, upTo, size, limit, taken + 1);
    }
  }

  /** What the rows taken from one page look like, whichever exit was used. */
  lemma {:induction false} CutPageFacts(all: seq<Row>, tail: bool, size: MetadataSize, limit: Option<nat>, taken: nat)
    requires taken <= |all|
    requires limit.Some? ==> taken < limit.value
    requires |all| == taken ==> tail
    requires WithinBudget(all, taken, size, true)
    ensures var r := CutPage(all, tail, size, limit, taken);
            && (taken == 0 && all != [] ==> r.count > 0)
            && (r.hasNextPage <==> r.count < |all| || tail)
            && (limit.Some? ==> r.count <= limit.value)
            && (limit.Some? && r.stop.PageDone? ==> r.count < limit.value)
            && WithinBudget(all, r.count, size, r.hasNextPage)
    decreases |all| - taken
  {
    if taken < |all| {
      var more := taken + 1 < |all| || tail;
      if BytesUpTo(all, taken) + |all[taken].entry| + size(all[taken], more) < MAX_BYTES
         && !LimitReached(limit, taken + 1) && more {
        CutPageFacts(all, tail, size, limit, taken + 1);
      }
    }
  }

  datatype Page = Page(items: seq<Row>, hasNextPage: bool)

  /** How the pass treats row n, given what was used and the size of its metadata. */
  lemma CutPageAt(all: seq<Row>, tail: bool, size: MetadataSize, limit: Option<nat>, n: nat, metadata: nat)
    requires n < |all| && metadata == size(all[n], n + 1 < |all| || tail)
    ensures BytesUpTo(all, n + 1) == BytesUpTo(all, n) + |all[n].entry|
    ensures CutPage(all, tail, size, limit, n) ==
            var full := BytesUpTo(all, n + 1) + metadata;
            if n > 0 && full > MAX_BYTES then PageOutcome(n, true, SizeLimit)
            else if full >= MAX_BYTES then PageOutcome(n + 1, n + 1 < |all| || tail, SizeLimit)
            else if LimitReached(limit, n + 1) then PageOutcome(n + 1, n + 1 < |all| || tail, RowLimit)
            else CutPage(all, tail, size, limit, n + 1)
  {
  }

  lemma CutPageAtEnd(all: seq<Row>, tail: bool, size: MetadataSize, limit: Option<nat>)
    ensures CutPage(all, tail, size, limit, |all|) == PageOutcome(|all|, tail, PageDone)
  {
  }

  /** The inner loop of both readers, over one fetched page. */
  method TakePage(page: Page, entries: seq<Row>, usedBytes: nat, size: MetadataSize, limit: Option<nat>)
    returns (grown: seq<Row>, used: nat, hasNextPage: bool, stop: Stop)
    requires page.items != [] && usedBytes == TotalBytes(entries)
    ensures |grown| <= |entries + page.items| && grown == (entries + page.items)[..|grown|] && used == TotalBytes(grown)
    ensures PageOutcome(|grown|, hasNextPage, stop)
         == CutPage(entries + page.items, page.hasNextPage, size, limit, |entries|)
  {
    hide BytesUpTo, CutPage;
    ghost var all := entries + page.items;
    CutPageAtEnd(all, page.hasNextPage, size, limit);
    grown, used, hasNextPage, stop := entries, usedBytes, page.hasNextPage, PageDone;
    ghost var cut := CutPage(all, page.hasNextPage, size, limit, |entries|);
    BytesOfPrefix(all, entries, |entries|);
    for i := 0 to |page.items|
      invariant |grown| == |entries| + i && grown == all[..|grown|] && used == BytesUpTo(all, |grown|)
      invariant i == |page.items| ==> hasNextPage == page.hasNextPage
      invariant stop == PageDone && cut == CutPage(all, page.hasNextPage, size, limit, |grown|)
    {
      var row := page.items[i];
      assert row == all[|grown|];
      var candidateHasNextPage := if i < |page.items| - 1 then true else page.hasNextPage;
      var metadataBytes := size(row, candidateHasNextPage);
      CutPageAt(all, page.hasNextPage, size, limit, |grown|, metadataBytes);
      if |grown| > 0 && used + |row.entry| + metadataBytes > MAX_BYTES {
        hasNextPage := true;
        stop := SizeLimit;
        break;
      }
      grown := grown + [row];
      used := used + |row.entry|;
      hasNextPage := candidateHasNextPage;
      if used + metadataBytes >= MAX_BYTES {
        stop := SizeLimit;
        break;
      }
      if LimitReached(limit, |grown|) {
        stop := RowLimit;
        break;
      }
    }
    BytesOfPrefix(all, grown, |grown|);
  }

  /** `page` is the start of the rows that follow, and tells whether it is all of them. */
  ghost predicate PageOf(following: seq<Row>, page: Page) {
    && 0 < |page.items| <= |following| && page.items == following[..|page.items|]
    && (page.hasNextPage <==> |page.items| < |following|)
  }

  lemma GrownShape(rows: seq<Row>, following: seq<Row>, page: Page, count: nat)
    requires PageOf(following, page) && |rows| <= count <= |rows| + |page.items|
    ensures (rows + page.items)[..|rows|] == rows
    ensures (rows + page.items)[..count] == rows + following[..count - |rows|]
  {
  }

  /** What one run of the inner loop adds: the first k of the following rows. */
  lemma PageSizes(
    rows: seq<Row>, following: seq<Row>, page: Page, size: MetadataSize, limit: Option<nat>, cut: PageOutcome,
    grown: seq<Row>)
    requires PageOf(following, page) && WithinBudget(rows, |rows|, size, true) && !LimitReached(limit, |rows|)
    requires cut == CutPage(rows + page.items, page.hasNextPage, size, limit, |rows|)
    requires grown == (rows + page.items)[..cut.count]
    ensures cut.count - |rows| <= |following| && grown == rows + following[..cut.count - |rows|] && grown != []
    ensures cut.hasNextPage <==> cut.count - |rows| < |following|
    ensures limit.Some? ==> |grown| <= limit.value
    ensures WithinBudget(grown, |grown|, size, cut.hasNextPage)
    ensures cut.stop.PageDone? ==> cut.count > |rows| && !LimitReached(limit, |grown|)
  {
    hide WithinBudget, CutPage;
    var all := rows + page.items;
    GrownShape(rows, following, page, cut.count);
    BudgetOfPrefix(all, rows, |rows|, size, true);
    CutPageFacts(all, page.hasNextPage, size, limit, |rows|);
    assert grown[..cut.count] == all[..cut.count];
    BudgetOfPrefix(all, grown, cut.count, size, cut.hasNextPage);
  }

  /** On a store that does not change, the gathered rows are the start of one greedy pass over `all`. */
  ghost predicate CutSoFar(all: seq<Row>, size: MetadataSize, limit: Option<nat>, rows: seq<Row>) {
    && |rows| <= |all| && rows == all[..|rows|]
    && CutFrom(all, size, limit, 0) == CutFrom(all, size, limit, |rows|)
  }

  lemma CutStep(
    all: seq<Row>, size: MetadataSize, limit: Option<nat>, rows: seq<Row>, following: seq<Row>, page: Page,
    cut: PageOutcome, grown: seq<Row>)
    requires all == rows + following && CutSoFar(all, size, limit, rows) && PageOf(following, page)
    requires cut == CutPage(rows + page.items, page.hasNextPage, size, limit, |rows|)
    requires grown == (rows + page.items)[..cut.count]
    ensures cut.count <= |all| && grown == all[..cut.count] && all == grown + following[cut.count - |rows|..]
    ensures if cut.stop.PageDone? && cut.hasNextPage then CutSoFar(all, size, limit, grown)
            else CutFrom(all, size, limit, 0) == (cut.count, cut.hasNextPage)
  {
    var upTo := |rows| + |page.items|;
    assert all[..upTo] == rows + page.items;
    PagesComposeToCut(all, upTo, size, limit, |rows|);
  }

  lemma EmptyPass(size: MetadataSize, limit: Option<nat>)
    ensures TotalBytes([]) == 0
    ensures CutFrom([], size, limit, 0) == (0, false)
  {
  }

  // The JSON text of the sync-sequence metadata.

  function Digit(d: int): char
    requires 0 <= d < 10
  {
    "0123456789"[d]
  }

  function Decimal(n: int): (s: string)
    ensures s != []
    decreases n < 0, if n < 0 then -n else n
  {
    if n < 0 then "-" + Decimal(-n)
    else if n < 10 then [Digit(n)]
    else Decimal(n / 10) + [Digit(n % 10)]
  }

  function BoolText(b: bool): string { if b then "true" else "false" }

  function SyncMetadata(r: Row, hasNextPage: bool): string {
    "{\"highestSyncSeq\":" + Decimal(r.syncSeq) + ",\"hasNextPage\":" + BoolText(hasNextPage) + "}"
  }

  function SyncMetadataSize(r: Row, hasNextPage: bool): nat { |SyncMetadata(r, hasNextPage)| }

  /** The number a row of digits denotes. */
  function ReadDigits(s: string): int {
    if s == "" then 0 else ReadDigits(s[..|s| - 1]) * 10 + (s[|s| - 1] as int - '0' as int)
  }

  lemma DigitReads(d: int)
    requires 0 <= d < 10
    ensures Digit(d) as int == '0' as int + d
  {
  }

  /** Decimal text is digits only, without leading zeros, and denotes its number; a sign comes before a negative one. */
  lemma {:induction false} DecimalReads(n: nat)
    ensures ReadDigits(Decimal(n)) == n && forall i | 0 <= i < |Decimal(n)| :: '0' <= Decimal(n)[i] <= '9'
    ensures Decimal(n)[0] == '0' <==> n == 0
    ensures n > 0 ==> Decimal(0 - n) == "-" + Decimal(n)
  {
    hide Digit;
    DigitReads(n % 10);
    if n >= 10 {
      DecimalReads(n / 10);
      assert Decimal(n)[..|Decimal(n)| - 1] == Decimal(n / 10);
    } else {
      assert [Digit(n)][..0] == "";
    }
  }

  /** The size of the metadata is that of the number and the flag and 34 characters around them. */
  lemma SyncMetadataReads(r: Row)
    ensures SyncMetadataSize(r, true) == 34 + |Decimal(r.syncSeq)| + |"true"|
    ensures SyncMetadataSize(r, false) == 34 + |Decimal(r.syncSeq)| + |"false"|
  {
    hide Decimal;
  }

  lemma SyncMetadataExamples(r: Row)
    ensures SyncMetadata(r.(syncSeq := 7), true) == "{\"highestSyncSeq\":7,\"hasNextPage\":true}"
    ensures SyncMetadata(r.(syncSeq := 0), false) == "{\"highestSyncSeq\":0,\"hasNextPage\":false}"
  {
    DecimalsOfDigits();
    hide Decimal;
  }

  lemma DecimalsOfDigits()
    ensures Decimal(7) == "7" && Decimal(0) == "0"
  {
  }

  lemma {:induction false} DecimalGrows(a: nat, b: nat)
    requires a <= b
    ensures |Decimal(a)| <= |Decimal(b)|
  {
    if a >= 10 {
      DecimalGrows(a / 10, b / 10);
    }
  }

  lemma {:induction false} BytesGrow(all: seq<Row>, m: nat, n: nat)
    requires m <= n <= |all|
    ensures BytesUpTo(all, m) <= BytesUpTo(all, n)
  {
    if m < n {
      BytesGrow(all, m, n - 1);
    }
  }

  lemma SyncMetadataGrows(r: Row, s: Row, a: bool, b: bool)
    requires 0 <= r.syncSeq <= s.syncSeq && (b ==> a)
    ensures SyncMetadataSize(r, a) <= SyncMetadataSize(s, b)
  {
    DecimalGrows(r.syncSeq, s.syncSeq);
  }

  /**
   * Along an ascending listing the sync metadata never shrinks, so every prefix of an admissible
   * response is admissible: the pass stops at the longest prefix that fits, with no gap above it.
   */
  lemma SyncFitsDownwards(all: seq<Row>, m: nat, n: nat)
    requires Strict(SeqLt, all) && forall r | r in all :: r.syncSeq >= 0
    requires m <= n <= |all| && Fits(all, SyncMetadataSize, n)
    ensures Fits(all, SyncMetadataSize, m)
  {
    hide BytesUpTo, SyncMetadataSize;
    if 1 < m < n {
      assert SeqLt(all[m - 2], all[m - 1]) && SeqLt(all[n - 2], all[n - 1]);
      assert m < n - 1 ==> SeqLt(all[m - 1], all[n - 2]);
      assert all[m - 2] in all && all[m - 1] in all;
      SyncMetadataGrows(all[m - 2], all[n - 2], true, true);
      SyncMetadataGrows(all[m - 1], all[n - 1], true, n < |all|);
      BytesGrow(all, m - 1, n - 1);
      BytesGrow(all, m, n);
    }
  }

  lemma SyncCutIsLargestFit(all: seq<Row>, limit: Option<nat>, n: nat)
    requires Strict(SeqLt, all) && forall r | r in all :: r.syncSeq >= 0
    requires n <= |all| && (limit.Some? ==> n <= limit.value) && Fits(all, SyncMetadataSize, n)
    ensures n <= Cut(all, SyncMetadataSize, limit).0
  {
    var (cut, more) := Cut(all, SyncMetadataSize, limit);
    CutIsLongestFit(all, SyncMetadataSize, limit);
    if cut < n {
      SyncFitsDownwards(all, cut + 1, n);
    }
  }
}
