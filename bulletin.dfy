/**
 * `parse_bulletin`: walk pages 1 to 5 of the document (indices, so the 2nd
 * to the 6th page), every table on each and every row of each table, in
 * order, and keep the record of the first accepted row for each ticker.
 *
 * The layout engine that finds the tables is not modelled: the document is
 * given as the grid it yields, pages of tables of rows of cells.
 */
module Bulletin {
  import opened Wrappers
  import opened Calendar
  import opened StockRow

  type Table = seq<Row>
  type Page = seq<Table>

  /** The elements of the groups `xs`, group after group. */
  function Concat<T>(xs: seq<seq<T>>): seq<T> {
    if xs == [] then [] else Concat(xs[..|xs| - 1]) + xs[|xs| - 1]
  }

  /** The rows of the pages `ps`, in page, table and row order. */
  function PagesRows(ps: seq<Page>): seq<Row> {
    if ps == [] then [] else PagesRows(ps[..|ps| - 1]) + Concat(ps[|ps| - 1])
  }

  function Min(a: int, b: int): int { if a <= b then a else b }

  /** The pages the parser reads: indices 1 to 5, fewer when the document is
      shorter. */
  function Window(pages: seq<Page>): (w: seq<Page>)
    ensures |w| == if |pages| <= 1 then 0 else Min(|pages|, 6) - 1
    ensures forall i :: 0 <= i < |w| ==> w[i] == pages[i + 1]
  {
    if |pages| <= 1 then [] else pages[1..Min(|pages|, 6)]
  }

  /** The tickers of `recs`. */
  function Tickers(recs: seq<Record>): set<string> {
    set i | 0 <= i < |recs| :: recs[i].ticker
  }

  /** The classifier's verdict on each row, in order. */
  function Parsed(rows: seq<Row>, date: Day): (ps: seq<Option<Record>>)
    ensures |ps| == |rows|
  {
    if rows == [] then [] else Parsed(rows[..|rows| - 1], date) + [ParseStockRow(rows[|rows| - 1], date)]
  }

  lemma {:induction false} ParsedAt(rows: seq<Row>, date: Day, k: nat)
    requires k < |rows|
    ensures Parsed(rows, date)[k] == ParseStockRow(rows[k], date)
  {
    if k < |rows| - 1 {
      ParsedAt(rows[..|rows| - 1], date, k);
    }
  }

  /** One verdict through the seen-set: a record whose ticker is new is kept. */
  function Step(acc: seq<Record>, p: Option<Record>): seq<Record> {
    match p
    case None => acc
    case Some(rec) => if rec.ticker in Tickers(acc) then acc else acc + [rec]
  }

  /** The records kept from the verdicts `ps`, read in order. */
  function Keep(ps: seq<Option<Record>>): seq<Record> {
    if ps == [] then [] else Step(Keep(ps[..|ps| - 1]), ps[|ps| - 1])
  }

  /** The rows `parse_bulletin` reads: pages 1 to 5, then tables, then rows. */
  function WindowRows(pages: seq<Page>): seq<Row> {
    PagesRows(Window(pages))
  }

  /** What `parse_bulletin` returns for a document laid out as `pages`. */
  function Bulletin(pages: seq<Page>, date: Day): seq<Record> {
    Keep(Parsed(WindowRows(pages), date))
  }

  /** The verdict `p` is a record for ticker `t`. */
  predicate AcceptsAs(p: Option<Record>, t: string) {
    p.Some? && p.value.ticker == t
  }

  /** The index of the first verdict that is a record for ticker `t`, or
      `|ps|` when there is none. */
  function FirstIndex(ps: seq<Option<Record>>, t: string): (k: nat)
    ensures k <= |ps|
    ensures k < |ps| ==> AcceptsAs(ps[k], t)
    ensures forall j :: 0 <= j < k && j < |ps| ==> !AcceptsAs(ps[j], t)
  {
    if ps == [] then 0
    else
      var k := FirstIndex(ps[..|ps| - 1], t);
      if k < |ps| - 1 then k
      else if AcceptsAs(ps[|ps| - 1], t) then |ps| - 1
      else |ps|
  }

  // ---------------------------------------------------------------------
  // What the kept records are
  // ---------------------------------------------------------------------

  lemma FirstIndexSnoc(ps: seq<Option<Record>>, x: Option<Record>, t: string)
    ensures FirstIndex(ps + [x], t) ==
      if FirstIndex(ps, t) < |ps| then FirstIndex(ps, t)
      else if AcceptsAs(x, t) then |ps| else |ps| + 1
  {
    assert (ps + [x])[..|ps|] == ps;
  }

  lemma KeepSnocUnfold(ps: seq<Option<Record>>, x: Option<Record>)
    ensures Keep(ps + [x]) == Step(Keep(ps), x)
  {
    assert (ps + [x])[..|ps|] == ps;
  }

  /** No ticker is kept twice. */
  lemma {:induction false} KeepDistinct(ps: seq<Option<Record>>)
    ensures var out := Keep(ps);
      forall i, j :: 0 <= i < j < |out| ==> out[i].ticker != out[j].ticker
  {
    if ps != [] {
      var qs, x := ps[..|ps| - 1], ps[|ps| - 1];
      assert ps == qs + [x];
      KeepDistinct(qs);
      KeepSnocUnfold(qs, x);
      var prev := Keep(qs);
      if x.Some? && x.value.ticker !in Tickers(prev) {
        var out := prev + [x.value];
        forall i, j | 0 <= i < j < |out| ensures out[i].ticker != out[j].ticker {
          if j == |prev| {
            assert out[i].ticker == prev[i].ticker;
          }
        }
      }
    }
  }

  /** Every ticker accepted anywhere is kept. */
  lemma {:induction false} KeepComplete(ps: seq<Option<Record>>)
    ensures forall k :: 0 <= k < |ps| && ps[k].Some? ==> ps[k].value.ticker in Tickers(Keep(ps))
  {
    if ps != [] {
      var qs, x := ps[..|ps| - 1], ps[|ps| - 1];
      assert ps == qs + [x];
      KeepComplete(qs);
      KeepSnocUnfold(qs, x);
      var prev := Keep(qs);
      var out := Keep(ps);
      assert Tickers(prev) <= Tickers(out) by {
        forall t | t in Tickers(prev) ensures t in Tickers(out) {
          var i :| 0 <= i < |prev| && prev[i].ticker == t;
          assert out[i] == prev[i];
        }
      }
      if x.Some? && x.value.ticker !in Tickers(prev) {
        assert out[|prev|] == x.value;
      }
      forall k | 0 <= k < |ps| && ps[k].Some? ensures ps[k].value.ticker in Tickers(out) {
        if k < |qs| {
          assert ps[k] == qs[k];
        }
      }
    }
  }

  /** Each kept record is the verdict of the first row accepted for its
      ticker, and the records come in the order of those first rows. */
  lemma {:induction false} KeepFirstInOrder(ps: seq<Option<Record>>)
    ensures var out := Keep(ps);
      (forall i :: 0 <= i < |out| ==>
        FirstIndex(ps, out[i].ticker) < |ps| && ps[FirstIndex(ps, out[i].ticker)] == Some(out[i])) &&
      (forall i, j :: 0 <= i < j < |out| ==> FirstIndex(ps, out[i].ticker) < FirstIndex(ps, out[j].ticker))
  {
    if ps != [] {
      var qs, x := ps[..|ps| - 1], ps[|ps| - 1];
      assert ps == qs + [x];
      KeepFirstInOrder(qs);
      KeepSnocUnfold(qs, x);
      var prev := Keep(qs);
      var out := Keep(ps);
      forall i | 0 <= i < |prev|
        ensures FirstIndex(ps, prev[i].ticker) == FirstIndex(qs, prev[i].ticker) < |qs|
      {
        FirstIndexSnoc(qs, x, prev[i].ticker);
      }
      if x.Some? && x.value.ticker !in Tickers(prev) {
        var t := x.value.ticker;
        KeepComplete(qs);
        FirstIndexSnoc(qs, x, t);
        assert FirstIndex(ps, t) == |qs|;
        assert out == prev + [x.value];
        forall i | 0 <= i < |out|
          ensures FirstIndex(ps, out[i].ticker) < |ps| && ps[FirstIndex(ps, out[i].ticker)] == Some(out[i])
        {
          if i < |prev| {
            assert out[i] == prev[i];
          }
        }
        forall i, j | 0 <= i < j < |out|
          ensures FirstIndex(ps, out[i].ticker) < FirstIndex(ps, out[j].ticker)
        {
          assert out[i] == prev[i];
          if j < |prev| {
            assert out[j] == prev[j];
          }
        }
      } else {
        assert out == prev;
      }
    }
  }

  // ---------------------------------------------------------------------
  // The loop
  // ---------------------------------------------------------------------

  lemma KeepSnoc(rows: seq<Row>, row: Row, date: Day)
    ensures Keep(Parsed(rows + [row], date)) == Step(Keep(Parsed(rows, date)), ParseStockRow(row, date))
  {
    var ps := Parsed(rows + [row], date);
    assert ps[..|rows|] == Parsed(rows, date);
  }

  lemma ConcatPrefix<T>(xs: seq<seq<T>>, t: nat)
    requires t < |xs|
    ensures Concat(xs[..t + 1]) == Concat(xs[..t]) + xs[t]
  {
    assert xs[..t + 1][..t] == xs[..t];
  }

  lemma PagesRowsPrefix(pages: seq<Page>, p: nat)
    requires 1 <= p < |pages|
    ensures PagesRows(pages[1..p + 1]) == PagesRows(pages[1..p]) + Concat(pages[p])
  {
    assert pages[1..p + 1][..p - 1] == pages[1..p];
  }

  lemma TickersSnoc(recs: seq<Record>, rec: Record)
    ensures Tickers(recs + [rec]) == Tickers(recs) + {rec.ticker}
  {
    var s := recs + [rec];
    assert s[|recs|].ticker == rec.ticker;
    forall t | t in Tickers(recs) ensures t in Tickers(s) {
      var i :| 0 <= i < |recs| && recs[i].ticker == t;
      assert s[i].ticker == t;
    }
  }

  /** The body of the row loop: classify `row` and keep its record when its
      ticker has not been seen. */
  method KeepRow(stocks: seq<Record>, seen: set<string>, row: Row, date: Day, ghost done: seq<Row>)
    returns (stocks': seq<Record>, seen': set<string>)
    requires stocks == Keep(Parsed(done, date)) && seen == Tickers(stocks)
    ensures stocks' == Keep(Parsed(done + [row], date)) && seen' == Tickers(stocks')
  {
    stocks', seen' := stocks, seen;
    var record := ParseStockRow(row, date);
    if record.Some? && record.value.ticker !in seen {
      TickersSnoc(stocks, record.value);
      stocks' := stocks + [record.value];
      seen' := seen + {record.value.ticker};
    }
    KeepSnoc(done, row, date);
  }

  /** `for row in table`: every row of one table through `KeepRow`. */
  method ScanTable(stocks: seq<Record>, seen: set<string>, table: Table, date: Day, ghost before: seq<Row>)
    returns (stocks': seq<Record>, seen': set<string>)
    requires stocks == Keep(Parsed(before, date)) && seen == Tickers(stocks)
    ensures stocks' == Keep(Parsed(before + table, date)) && seen' == Tickers(stocks')
  {
    stocks', seen' := stocks, seen;
    var r := 0;
    ghost var done := before;
    PrefixEmpty(before, table);
    while r < |table|
      invariant 0 <= r <= |table|
      invariant done == before + table[..r]
      invariant stocks' == Keep(Parsed(done, date)) && seen' == Tickers(stocks')
    {
      stocks', seen' := KeepRow(stocks', seen', table[r], date, done);
      PrefixStep(before, table, r);
      done := done + [table[r]];
      r := r + 1;
    }
    assert table[..r] == table;
  }

  lemma PrefixEmpty(before: seq<Row>, table: Table)
    ensures before + table[..0] == before
  {
  }

  lemma PrefixStep(before: seq<Row>, table: Table, r: nat)
    requires r < |table|
    ensures before + table[..r] + [table[r]] == before + table[..r + 1]
  {
    assert table[..r + 1] == table[..r] + [table[r]];
  }

  /** `for table in page.extract_tables()`: every table of one page. */
  method ScanPage(stocks: seq<Record>, seen: set<string>, page: Page, date: Day, ghost before: seq<Row>)
    returns (stocks': seq<Record>, seen': set<string>)
    requires stocks == Keep(Parsed(before, date)) && seen == Tickers(stocks)
    ensures stocks' == Keep(Parsed(before + Concat(page), date)) && seen' == Tickers(stocks')
  {
    stocks', seen' := stocks, seen;
    var t := 0;
    ConcatEmpty(before, page);
    while t < |page|
      invariant 0 <= t <= |page|
      invariant stocks' == Keep(Parsed(before + Concat(page[..t]), date)) && seen' == Tickers(stocks')
    {
      stocks', seen' := ScanTable(stocks', seen', page[t], date, before + Concat(page[..t]));
      ConcatStep(before, page, t);
      t := t + 1;
    }
    assert page[..t] == page;
  }

  lemma ConcatEmpty(before: seq<Row>, page: Page)
    ensures before + Concat(page[..0]) == before
  {
    assert page[..0] == [];
  }

  lemma ConcatStep(before: seq<Row>, page: Page, t: nat)
    requires t < |page|
    ensures before + Concat(page[..t]) + page[t] == before + Concat(page[..t + 1])
  {
    ConcatPrefix(page, t);
  }

  /** `parse_bulletin(pdf, date)` with the pages already laid out as tables:
      page indices 1 to 5, stopping at the end of the document. */
  method ParseBulletin(pages: seq<Page>, date: Day) returns (stocks: seq<Record>)
    ensures stocks == Bulletin(pages, date)
  {
    stocks := [];
    var seen: set<string> := {};
    var p := 1;
    while p < 6
      invariant 1 <= p <= 6
      invariant p <= |pages| || p == 1
      invariant stocks == Keep(Parsed(PagesRows(if p <= |pages| then pages[1..p] else []), date))
      invariant seen == Tickers(stocks)
    {
      if p >= |pages| {
        break;
      }
      stocks, seen := ScanPage(stocks, seen, pages[p], date, PagesRows(pages[1..p]));
      PagesRowsPrefix(pages, p);
      p := p + 1;
    }
    if p <= |pages| {
      assert pages[1..p] == Window(pages);
    }
  }

  // ---------------------------------------------------------------------
  // The bulletin
  // ---------------------------------------------------------------------

  /** The index, among those rows, of the first one accepted for ticker `t`. */
  function FirstRow(pages: seq<Page>, date: Day, t: string): nat {
    FirstIndex(Parsed(WindowRows(pages), date), t)
  }

  /** The bulletin holds each ticker at most once, in the order of the rows
      that first carried them. */
  lemma BulletinDistinctInOrder(pages: seq<Page>, date: Day)
    ensures var out := Bulletin(pages, date);
      (forall i, j :: 0 <= i < j < |out| ==> out[i].ticker != out[j].ticker) &&
      (forall i, j :: 0 <= i < j < |out| ==> FirstRow(pages, date, out[i].ticker) < FirstRow(pages, date, out[j].ticker))
  {
    var ps := Parsed(WindowRows(pages), date);
    assert Bulletin(pages, date) == Keep(ps);
    KeepDistinct(ps);
    KeepFirstInOrder(ps);
    var out := Keep(ps);
    forall i, j | 0 <= i < j < |out|
      ensures FirstRow(pages, date, out[i].ticker) < FirstRow(pages, date, out[j].ticker)
    {
      assert FirstRow(pages, date, out[i].ticker) == FirstIndex(ps, out[i].ticker);
      assert FirstRow(pages, date, out[j].ticker) == FirstIndex(ps, out[j].ticker);
    }
  }

  /** Each record of the bulletin is `parse_stock_row` of the first row of
      pages 1 to 5 accepted for its ticker: the first occurrence wins. */
  lemma BulletinFirstOccurrence(pages: seq<Page>, date: Day)
    ensures var rows, out := WindowRows(pages), Bulletin(pages, date);
      forall i :: 0 <= i < |out| ==>
        FirstRow(pages, date, out[i].ticker) < |rows| &&
        ParseStockRow(rows[FirstRow(pages, date, out[i].ticker)], date) == Some(out[i])
  {
    var rows, out := WindowRows(pages), Bulletin(pages, date);
    var ps := Parsed(rows, date);
    assert out == Keep(ps);
    KeepFirstInOrder(ps);
    forall i | 0 <= i < |out|
      ensures FirstRow(pages, date, out[i].ticker) < |rows| &&
        ParseStockRow(rows[FirstRow(pages, date, out[i].ticker)], date) == Some(out[i])
    {
      var k := FirstIndex(ps, out[i].ticker);
      assert FirstRow(pages, date, out[i].ticker) == k;
      ParsedAt(rows, date, k);
    }
  }

  /** Every ticker accepted on any row of pages 1 to 5 is in the bulletin. */
  lemma BulletinComplete(pages: seq<Page>, date: Day)
    ensures var rows := WindowRows(pages);
      forall k :: 0 <= k < |rows| && ParseStockRow(rows[k], date).Some? ==>
        ParseStockRow(rows[k], date).value.ticker in Tickers(Bulletin(pages, date))
  {
    var rows := WindowRows(pages);
    KeepComplete(Parsed(rows, date));
    forall k | 0 <= k < |rows| && ParseStockRow(rows[k], date).Some?
      ensures ParseStockRow(rows[k], date).value.ticker in Tickers(Bulletin(pages, date))
    {
      ParsedAt(rows, date, k);
    }
  }

  /** A document of fewer than two pages yields nothing: page 0 is never read. */
  lemma ShortDocument(pages: seq<Page>, date: Day)
    requires |pages| < 2
    ensures Bulletin(pages, date) == []
  {
  }

  /** Whatever the first page holds, the bulletin is the same. */
  lemma FirstPageIgnored(pages: seq<Page>, page: Page, date: Day)
    requires |pages| >= 1
    ensures Bulletin(pages[0 := page], date) == Bulletin(pages, date)
  {
    assert Window(pages[0 := page]) == Window(pages);
  }

  /** Pages after index 5 are never read. */
  lemma LaterPagesIgnored(pages: seq<Page>, more: seq<Page>, date: Day)
    requires |pages| >= 6
    ensures Bulletin(pages + more, date) == Bulletin(pages, date)
  {
    assert Window(pages + more) == Window(pages);
  }

  lemma {:induction false} NoTablesNoRows(ps: seq<Page>)
    requires forall i :: 0 <= i < |ps| ==> ps[i] == []
    ensures PagesRows(ps) == []
  {
    if ps != [] {
      NoTablesNoRows(ps[..|ps| - 1]);
    }
  }

  /** `process_date`: no document is a success with nothing to do; a document
      whose bulletin holds no record is a failure; otherwise the upsert's
      outcome decides. `fetched` stands for what the download returned and
      `sinkAccepts` for what the upsert reported. The download returns no
      document both for a missing bulletin (HTTP 404) and after every retry
      has failed, so a failed download also counts as a success here. */
  function ProcessDate(fetched: Option<seq<Page>>, date: Day, sinkAccepts: bool): bool {
    match fetched
    case None => true
    case Some(pages) => if Bulletin(pages, date) == [] then false else sinkAccepts
  }

  /** `process_date` succeeds when there is no document, and otherwise exactly
      when some row of pages 1 to 5 is a stock row and the upsert succeeds. */
  lemma ProcessDateOutcome(fetched: Option<seq<Page>>, date: Day, sinkAccepts: bool)
    ensures fetched.None? ==> ProcessDate(fetched, date, sinkAccepts)
    ensures fetched.Some? ==>
      (ProcessDate(fetched, date, sinkAccepts) <==>
        sinkAccepts &&
        exists k :: 0 <= k < |WindowRows(fetched.value)| && ParseStockRow(WindowRows(fetched.value)[k], date).Some?)
  {
    if fetched.Some? {
      var pages := fetched.value;
      var rows, out := WindowRows(pages), Bulletin(pages, date);
      if exists k :: 0 <= k < |rows| && ParseStockRow(rows[k], date).Some? {
        var k :| 0 <= k < |rows| && ParseStockRow(rows[k], date).Some?;
        BulletinComplete(pages, date);
        assert ParseStockRow(rows[k], date).value.ticker in Tickers(out);
        assert out != [];
      }
      if out != [] {
        BulletinFirstOccurrence(pages, date);
        var k := FirstRow(pages, date, out[0].ticker);
        assert k < |rows| && ParseStockRow(rows[k], date).Some?;
      }
    }
  }

  /** A document whose pages 1 to 5 hold no table yields no record, and that
      date is reported as failed, unlike a date with no document at all. */
  lemma TablesOutsideWindow(pages: seq<Page>, date: Day, sinkAccepts: bool)
    requires forall i :: 1 <= i < |pages| && i <= 5 ==> pages[i] == []
    ensures Bulletin(pages, date) == []
    ensures !ProcessDate(Some(pages), date, sinkAccepts)
    ensures ProcessDate(None, date, sinkAccepts)
  {
    NoTablesNoRows(Window(pages));
  }
}
