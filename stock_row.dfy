/**
 * `parse_stock_row`: the row classifier and the fixed positional mapping
 * from the cells of one table row to a stock record.
 *
 * A row is accepted when it has at least 12 cells, its first cell (stripped)
 * is one of the seven sector codes and its second cell (stripped) has the
 * ticker shape. Columns 0..11 are always mapped, columns 12..15 only when the
 * row is long enough; column 3 is never read.
 */
module StockRow {
  import opened Wrappers
  import opened PyText
  import opened Cleaner
  import opened Calendar

  type Row = seq<Cell>

  const SectorCodes: set<string> := {"CB", "CD", "TEL", "FIN", "IND", "ENE", "SPU"}

  predicate IsUpper(c: char) { 'A' <= c <= 'Z' }

  /** The ticker shape: 3 to 6 capital letters A-Z. */
  predicate IsTicker(t: string) {
    3 <= |t| <= 6 && forall k :: 0 <= k < |t| ==> IsUpper(t[k])
  }

  /** `TICKER_RE.match(t)` for `^[A-Z]{3,6}$`: as in Python, `$` also
      matches just before a final newline. */
  predicate TickerMatches(t: string) {
    IsTicker(t) || (t != [] && t[|t| - 1] == '\n' && IsTicker(t[..|t| - 1]))
  }

  /** The sector cell as text, without surrounding whitespace; a `None` cell
      reads as "None". */
  function SectorText(c: Cell): string { Strip(Str(c)) }

  /** The ticker cell without surrounding whitespace, or the empty string
      for a `None` or empty cell. */
  function TickerText(c: Cell): string { if Truthy(c) then Strip(c.s) else "" }

  /** The record built from an accepted row (`date` is the bulletin's day). */
  datatype Record = Record(
    date: Day,
    secteur: string,
    ticker: string,
    compagnie: Option<string>,
    coursPrecedent: Option<Decimal>,
    coursOuv: Option<Decimal>,
    coursCloture: Option<Decimal>,
    variationJour: Option<Decimal>,
    volume: int,
    valeurTransigee: int,
    coursReference: Option<Decimal>,
    variationYtd: Option<Decimal>,
    dernierDiv: Option<Decimal>,
    dateDiv: Option<string>,
    rendementNet: Option<Decimal>,
    per: Option<Decimal>)

  /** `int(x)` of a decimal: truncation toward zero. */
  function Trunc(d: Decimal): (r: int)
    ensures d.mantissa >= 0 ==> 0 <= r && r * Pow10(d.scale) <= d.mantissa < (r + 1) * Pow10(d.scale)
    ensures d.mantissa < 0 ==> r <= 0 && (-r) * Pow10(d.scale) <= -d.mantissa < (-r + 1) * Pow10(d.scale)
  {
    var a: nat := if d.mantissa >= 0 then d.mantissa else -d.mantissa;
    var q: int := FloorDiv(a, Pow10(d.scale));
    if d.mantissa >= 0 then q else -q
  }

  /** `m // p`, with the bounds that define it. */
  function FloorDiv(m: nat, p: nat): (q: nat)
    requires p >= 1
    ensures q * p <= m < (q + 1) * p
  {
    assert m == (m / p) * p + m % p;
    m / p
  }

  /** A whole-number cell (volume, traded value): the cell read as a number
      once its spaces are removed, truncated toward zero, with 0 when it is
      not a number. */
  function IntCell(c: Cell): int {
    match CleanNumText(RemoveChar(Str(c), ' '))
    case None => 0
    case Some(d) => if d.mantissa == 0 then 0 else Trunc(d)
  }

  /** The inner `pct(col_idx)`: `None` for a missing or empty cell, otherwise
      `clean_num` of the text with `%` removed. */
  function Pct(row: Row, i: nat): Option<Decimal> {
    if |row| <= i || !Truthy(row[i]) then None
    else CleanNumText(RemoveChar(row[i].s, '%'))
  }

  /** The price-earnings ratio: the cell read as a number up to its first
      comma, line breaks counting as spaces. */
  function PerText(s: string): Option<Decimal> {
    CleanNumText(BeforeFirst(ReplaceChar(s, '\n', ' '), ','))
  }

  /** The acceptance gate, stated with the ticker shape itself. */
  predicate IsStockRow(row: Row) {
    |row| >= 12 && SectorText(row[0]) in SectorCodes && IsTicker(TickerText(row[1]))
  }

  /** The three checks of `parse_stock_row`, in its order: at least 12
      cells, a sector code in cell 0, a ticker matching `TICKER_RE` in cell 1. */
  predicate PassesGate(row: Row) {
    row != [] && |row| >= 12 &&
    SectorText(row[0]) in SectorCodes &&
    TickerMatches(TickerText(row[1]))
  }

  /** The company name: the cell without surrounding whitespace and with each
      line break turned into a space, or `None` for a `None` or empty cell. */
  function Company(c: Cell): Option<string> {
    if Truthy(c) then Some(ReplaceChar(Strip(c.s), '\n', ' ')) else None
  }

  /** The fixed positional mapping of an accepted row. */
  function MapRow(row: Row, date: Day): Record
    requires |row| >= 12
  {
    Record(
      date := date,
      secteur := SectorText(row[0]),
      ticker := TickerText(row[1]),
      compagnie := Company(row[2]),
      coursPrecedent := CleanNum(row[4]),
      coursOuv := CleanNum(row[5]),
      coursCloture := CleanNum(row[6]),
      variationJour := Pct(row, 7),
      volume := IntCell(row[8]),
      valeurTransigee := IntCell(row[9]),
      coursReference := CleanNum(row[10]),
      variationYtd := Pct(row, 11),
      dernierDiv := if |row| > 12 then CleanNum(row[12]) else None,
      dateDiv := if |row| > 13 && Truthy(row[13]) then Some(Strip(row[13].s)) else None,
      rendementNet := if |row| > 14 then Pct(row, 14) else None,
      per := if |row| > 15 && Truthy(row[15]) then PerText(row[15].s) else None)
  }

  /** `parse_stock_row(row, date)`: the record of a row that passes the gate,
      `None` for any other row. */
  function ParseStockRow(row: Row, date: Day): Option<Record> {
    if PassesGate(row) then Some(MapRow(row, date)) else None
  }

  /** A row is a record exactly when it has at least 12 cells, a sector code
      in cell 0 and a ticker of 3 to 6 capitals in cell 1; the record carries
      the bulletin's date and those two stripped cells. */
  lemma ParseStockRowGate(row: Row, date: Day)
    ensures ParseStockRow(row, date).Some? <==> IsStockRow(row)
    ensures var r := ParseStockRow(row, date);
      r.Some? ==>
        r.value.date == date &&
        r.value.secteur == SectorText(row[0]) && r.value.secteur in SectorCodes &&
        r.value.ticker == TickerText(row[1]) && IsTicker(r.value.ticker)
  {
    if |row| >= 12 {
      StrippedTickerMatches(row[1]);
    }
  }

  /** An accepted row is parsed by the positional mapping. */
  lemma Accepted(row: Row, date: Day)
    requires IsStockRow(row)
    ensures ParseStockRow(row, date) == Some(MapRow(row, date))
    ensures MapRow(row, date).compagnie == Company(row[2])
  {
    StrippedTickerMatches(row[1]);
  }

  /** A stripped cell cannot end in a newline, so the `$` of the ticker
      pattern only ever matches at the very end. */
  lemma StrippedTickerMatches(c: Cell)
    ensures TickerMatches(TickerText(c)) <==> IsTicker(TickerText(c))
  {
    var t := TickerText(c);
    if t != [] {
      assert IsSpace('\n');
      assert t[|t| - 1] != '\n';
    }
  }

  /** Volume and traded value are never absent: a `None` cell, a cell that
      does not clean to a number, or one that cleans to zero gives 0; any
      other gives the number truncated toward zero. The spaces removed first
      (thousands separators) make no difference. */
  lemma IntCellRule(c: Cell)
    ensures c.Absent? ==> IntCell(c) == 0
    ensures c.Text? && CleanNumText(c.s).None? ==> IntCell(c) == 0
    ensures c.Text? && CleanNumText(c.s).Some? ==> IntCell(c) == Trunc(CleanNumText(c.s).value)
  {
    CleanNumRemoveChar(Str(c), ' ');
    if c.Absent? {
      CleanNumNone("None");
    }
    match CleanNumText(Str(c))
    case None =>
    case Some(d) =>
      if d.mantissa == 0 {
        var r := Trunc(d);
        assert r * Pow10(d.scale) <= 0;
      }
  }

  /** A percentage is absent for a missing or empty cell and otherwise is the
      cell cleaned as a number; the `%` removed first makes no difference. */
  lemma PctRule(row: Row, i: nat)
    ensures |row| <= i || !Truthy(row[i]) ==> Pct(row, i).None?
    ensures |row| > i && Truthy(row[i]) ==> Pct(row, i) == CleanNumText(row[i].s)
  {
    if |row| > i && Truthy(row[i]) {
      CleanNumRemoveChar(row[i].s, '%');
    }
  }

  /** The PER cell is read only up to its first comma; a newline before that
      comma counts for nothing. */
  lemma PerBeforeComma(s: string, t: string)
    requires ',' !in s
    ensures PerText(s) == CleanNumText(s)
    ensures PerText(s + [','] + t) == CleanNumText(s)
  {
    var u := ReplaceChar(s + [','] + t, '\n', ' ');
    var v := ReplaceChar(s, '\n', ' ');
    assert ',' !in v;
    BeforeFirstAbsent(v, ',');
    CleanNumReplaceChar(s, '\n', ' ');
    assert u[..|s|] == v;
    assert u[|s|] == ',';
    BeforeFirstPrefix(u, |s|, ',');
  }

  lemma BeforeFirstPrefix(u: string, n: nat, c: char)
    requires n < |u| && u[n] == c && c !in u[..n]
    ensures BeforeFirst(u, c) == u[..n]
  {
  }

  /** The company name is absent exactly for an empty or `None` cell 2;
      otherwise it holds no newline and no whitespace at either end. */
  lemma CompanyName(row: Row, date: Day)
    requires IsStockRow(row)
    ensures var name := ParseStockRow(row, date).value.compagnie;
      (name.None? <==> !Truthy(row[2])) &&
      (name.Some? ==> '\n' !in name.value &&
                      (name.value != [] ==> !IsSpace(name.value[0]) && !IsSpace(name.value[|name.value| - 1])))
  {
    Accepted(row, date);
    if Truthy(row[2]) {
      ReplacedStripHasNoNewline(row[2].s);
    }
  }

  /** Cell 3 is never read: whatever it holds, the row parses the same. */
  lemma ColumnThreeIgnored(row: Row, date: Day, c: Cell)
    requires |row| > 3
    ensures ParseStockRow(row[3 := c], date) == ParseStockRow(row, date)
  {
    var row' := row[3 := c];
    assert PassesGate(row') == PassesGate(row) by {
      assert row'[0] == row[0] && row'[1] == row[1];
    }
    if |row| >= 12 {
      SameMapping(row, row', date);
    }
  }

  /** Rows that agree everywhere but in cell 3 map to the same record. */
  lemma SameMapping(row: Row, row': Row, date: Day)
    requires |row| == |row'| >= 12
    requires forall k :: 0 <= k < |row| && k != 3 ==> row'[k] == row[k]
    ensures MapRow(row', date) == MapRow(row, date)
  {
    assert row'[0] == row[0] && row'[1] == row[1] && row'[2] == row[2];
    assert row'[4] == row[4] && row'[5] == row[5] && row'[6] == row[6];
    assert row'[8] == row[8] && row'[9] == row[9] && row'[10] == row[10];
    assert Pct(row', 7) == Pct(row, 7) && Pct(row', 11) == Pct(row, 11);
    if |row| > 12 { assert row'[12] == row[12]; }
    if |row| > 13 { assert row'[13] == row[13]; }
    if |row| > 14 { assert Pct(row', 14) == Pct(row, 14); }
    if |row| > 15 { assert row'[15] == row[15]; }
  }

  /** A row of exactly 12 cells is accepted on its first twelve cells alone,
      with the dividend, dividend date, net yield and PER all absent. */
  lemma TwelveCellRow(row: Row, date: Day)
    requires |row| == 12 && IsStockRow(row)
    ensures var r := ParseStockRow(row, date).value;
      r.dernierDiv.None? && r.dateDiv.None? && r.rendementNet.None? && r.per.None?
  {
  }

  /** A row shorter than 12 cells is never a record, whatever it holds. */
  lemma ShortRowRejected(row: Row, date: Day)
    requires |row| < 12
    ensures ParseStockRow(row, date).None?
  {
  }

  lemma FilterOneThousand()
    ensures Filter("1 000") == "1000"
  {
    FilterCons('0', "");
    FilterCons('0', "0");
    FilterCons('0', "00");
    FilterCons(' ', "000");
    FilterCons('1', " 000");
  }

  lemma ParseOneThousand()
    ensures ParseDecimal("1000") == Some(Decimal(1000, 0))
  {
    ParseUnsignedInteger("1000");
    assert "1000"[..3] == "100" && "100"[..2] == "10" && "10"[..1] == "1";
  }

  /** The volume cell "1 000": the space is a thousands separator. */
  lemma VolumeWithSeparator()
    ensures IntCell(Text("1 000")) == 1000
  {
    FilterOneThousand();
    ParseOneThousand();
    CleanNumIsParseOfFilter("1 000");
    IntCellRule(Text("1 000"));
    assert Pow10(0) == 1;
  }

  /** A company cell already free of surrounding whitespace and line breaks
      is kept exactly as written. */
  lemma CompanyKeptAsIs(row: Row, date: Day, name: string)
    requires IsStockRow(row) && row[2] == Text(name)
    requires name != [] && !IsSpace(name[0]) && !IsSpace(name[|name| - 1]) && '\n' !in name
    ensures ParseStockRow(row, date).value.compagnie == Some(name)
  {
    ParseStockRowGate(row, date);
    StripUnpadded(name);
    ReplaceAbsent(name, '\n', ' ');
  }

  /** A row of the stocks table with sector "FIN", ticker "ABCD" and volume
      "1 000" is accepted, whatever its other cells hold, with those values
      read from their columns. */
  lemma ExampleRowAccepted(row: Row, date: Day)
    requires |row| >= 12
    requires row[0] == Text("FIN") && row[1] == Text("ABCD") && row[8] == Text("1 000")
    ensures var r := ParseStockRow(row, date);
      r.Some? && r.value.ticker == "ABCD" && r.value.secteur == "FIN" && r.value.volume == 1000
  {
    ExampleRowIsStockRow(row);
    ParseStockRowGate(row, date);
    VolumeWithSeparator();
  }

  lemma ExampleRowIsStockRow(row: Row)
    requires |row| >= 12
    requires row[0] == Text("FIN") && row[1] == Text("ABCD")
    ensures IsStockRow(row) && SectorText(row[0]) == "FIN" && TickerText(row[1]) == "ABCD"
  {
    SectorOfFin();
    TickerOfAbcd();
  }

  lemma SectorOfFin()
    ensures SectorText(Text("FIN")) == "FIN" && "FIN" in SectorCodes
  {
    StripUnpadded("FIN");
  }

  lemma TickerOfAbcd()
    ensures TickerText(Text("ABCD")) == "ABCD" && IsTicker("ABCD")
  {
    StripUnpadded("ABCD");
  }

  /** A header row, whose second cell is not a ticker, is not a record. */
  lemma HeaderRowRejected(row: Row, date: Day)
    requires |row| >= 2 && row[1] == Text("Titre")
    ensures ParseStockRow(row, date).None?
  {
    StripUnpadded("Titre");
    assert !IsUpper("Titre"[1]);
  }
}
