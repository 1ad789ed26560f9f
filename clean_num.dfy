/**
 * `clean_num`: the cell cleaner. It keeps only digits, `,`, `.` and `-`,
 * turns `,` into `.`, cuts at a newline or a backslash (which the filter has
 * already removed), and parses what is left as a decimal number.
 *
 * Python's `float` only ever sees characters from `[0-9.-]` here, so its
 * grammar reduces to: an optional leading `-`, then `digits+ ('.' digits*)?`
 * or `'.' digits+`. The parsed number is kept exact, as a mantissa and a
 * decimal scale, instead of a binary float.
 */
module Cleaner {
  import opened Wrappers
  import opened PyText

  /** An exact decimal number: `mantissa / 10^scale`. */
  datatype Decimal = Decimal(mantissa: int, scale: nat)

  predicate IsDigit(c: char) { '0' <= c <= '9' }

  predicate AllDigits(s: string) { forall k :: 0 <= k < |s| ==> IsDigit(s[k]) }

  /** The characters the regular expression `[^\d,.\-]` does not delete. */
  predicate IsKept(c: char) { IsDigit(c) || c == ',' || c == '.' || c == '-' }

  function Pow10(k: nat): (p: nat)
    ensures p >= 1
  {
    if k == 0 then 1 else 10 * Pow10(k - 1)
  }

  /** The characters of `s` that can belong to a number (digits, `,`, `.`
      and `-`), in order, with each comma written as a dot. */
  function Filter(s: string): (r: string)
    ensures |r| <= |s|
    ensures forall k :: 0 <= k < |r| ==> IsDigit(r[k]) || r[k] == '.' || r[k] == '-'
  {
    if s == [] then []
    else (if IsKept(s[0]) then [if s[0] == ',' then '.' else s[0]] else []) + Filter(s[1..])
  }

  /** The value of a string of decimal digits, most significant first. */
  function DigitsValue(ds: string): nat
    requires AllDigits(ds)
  {
    if ds == [] then 0
    else DigitsValue(ds[..|ds| - 1]) * 10 + (ds[|ds| - 1] as int - '0' as int)
  }

  /** Length of the run of digits at the start of `s`. */
  function DigitRun(s: string): (n: nat)
    ensures n <= |s|
    ensures AllDigits(s[..n])
    ensures n < |s| ==> !IsDigit(s[n])
  {
    if s == [] || !IsDigit(s[0]) then 0
    else
      var n := 1 + DigitRun(s[1..]);
      assert s[..n] == [s[0]] + s[1..][..n - 1];
      n
  }

  /** `float(t)` for a sign-less `t`: `digits+ ('.' digits*)?` or `'.' digits+`. */
  function ParseUnsigned(t: string): Option<Decimal> {
    var i := DigitRun(t);
    if i == |t| then
      (if i == 0 then None else Some(Decimal(DigitsValue(t), 0)))
    else if t[i] != '.' then None
    else
      var frac := t[i + 1..];
      if AllDigits(frac) && (i > 0 || frac != []) then
        Some(Decimal(DigitsValue(t[..i] + frac), |frac|))
      else None
  }

  /** `float(s)` for `s` over `[0-9.-]`, with `None` for a `ValueError`. */
  function ParseDecimal(s: string): Option<Decimal> {
    if s != [] && s[0] == '-' then
      match ParseUnsigned(s[1..])
      case None => None
      case Some(d) => Some(Decimal(-d.mantissa, d.scale))
    else ParseUnsigned(s)
  }

  /** The grammar of the literals `float` accepts, stated without reference to
      the parser: digits, or digits with one dot, with at least one digit. */
  predicate IsUnsignedLiteral(t: string) {
    (t != [] && AllDigits(t)) ||
    (|t| >= 2 && exists i :: 0 <= i < |t| && t[i] == '.' && AllDigits(t[..i]) && AllDigits(t[i + 1..]))
  }

  predicate IsDecimalLiteral(s: string) {
    IsUnsignedLiteral(s) || (s != [] && s[0] == '-' && IsUnsignedLiteral(s[1..]))
  }

  /** `clean_num(s)` for a string `s`, as written: the newline and backslash
      split runs after the filter. */
  function CleanNumText(s: string): Option<Decimal> {
    var cleaned := BeforeFirst(BeforeFirst(Filter(s), '\n'), '\\');
    if cleaned == "" || cleaned == "-" then None else ParseDecimal(cleaned)
  }

  /** `clean_num(cell)`: `None` for a `None` cell. */
  function CleanNum(c: Cell): (r: Option<Decimal>)
    ensures c.Absent? ==> r.None?
  {
    match c
    case Absent => None
    case Text(s) => CleanNumText(s)
  }

  // ---------------------------------------------------------------------
  // The reference printer: the inverse the parser is checked against.
  // ---------------------------------------------------------------------

  /** The digits of `n`, left-padded with zeros to at least `width` digits. */
  function ToDigits(n: nat, width: nat): (r: string)
    ensures AllDigits(r) && |r| >= width && |r| >= 1
  {
    if n < 10 && width <= 1 then [('0' as int + n) as char]
    else ToDigits(n / 10, if width == 0 then 0 else width - 1) + [('0' as int + n % 10) as char]
  }

  /** A decimal written the way the bulletin writes it, with a dot before the
      last `scale` digits and a leading `-` when negative. */
  function Format(d: Decimal): string {
    if d.mantissa < 0 then "-" + FormatUnsigned(-d.mantissa, d.scale)
    else FormatUnsigned(d.mantissa, d.scale)
  }

  function FormatUnsigned(m: nat, scale: nat): string {
    var ds := ToDigits(m, scale + 1);
    if scale == 0 then ds else ds[..|ds| - scale] + "." + ds[|ds| - scale..]
  }

  // ---------------------------------------------------------------------
  // Lemmas
  // ---------------------------------------------------------------------

  lemma {:induction false} ToDigitsValue(n: nat, width: nat)
    ensures DigitsValue(ToDigits(n, width)) == n
  {
    if !(n < 10 && width <= 1) {
      ToDigitsValue(n / 10, if width == 0 then 0 else width - 1);
      var ds := ToDigits(n, width);
      assert ds[..|ds| - 1] == ToDigits(n / 10, if width == 0 then 0 else width - 1);
    }
  }

  lemma {:induction false} DigitRunOfDigits(a: string, b: string)
    requires AllDigits(a)
    requires b == [] || !IsDigit(b[0])
    ensures DigitRun(a + b) == |a|
  {
    if a != [] {
      assert (a + b)[1..] == a[1..] + b;
      DigitRunOfDigits(a[1..], b);
    }
  }

  lemma ParseUnsignedInteger(ds: string)
    requires ds != [] && AllDigits(ds)
    ensures ParseUnsigned(ds) == Some(Decimal(DigitsValue(ds), 0))
  {
    DigitRunOfDigits(ds, []);
    assert ds + [] == ds;
  }

  /** A dotted literal, with digits on at least one side of the dot, has the
      value of its digits scaled by the number of digits after the dot. */
  lemma ParseUnsignedDotted(a: string, f: string)
    requires a != [] || f != []
    requires AllDigits(a) && AllDigits(f)
    ensures ParseUnsigned(a + "." + f) == Some(Decimal(DigitsValue(a + f), |f|))
  {
    var t := a + "." + f;
    assert t == a + ("." + f);
    DigitRunOfDigits(a, "." + f);
    assert t[|a| + 1..] == f;
    assert t[..|a|] == a;
  }

  /** Without a leading `-`, the parse is the unsigned parse. */
  lemma ParseDecimalUnsigned(t: string)
    requires IsUnsignedLiteral(t)
    ensures ParseDecimal(t) == ParseUnsigned(t)
  {
    if |t| >= 2 && !AllDigits(t) {
      var i :| 0 <= i < |t| && t[i] == '.' && AllDigits(t[..i]) && AllDigits(t[i + 1..]);
      if i > 0 {
        assert t[..i][0] == t[0];
      }
    }
  }

  /** A leading `-` negates the value of the unsigned literal after it. */
  lemma ParseDecimalSigned(t: string)
    requires IsUnsignedLiteral(t)
    ensures ParseUnsigned(t).Some?
    ensures ParseDecimal("-" + t)
      == Some(Decimal(-ParseUnsigned(t).value.mantissa, ParseUnsigned(t).value.scale))
  {
    ParseUnsignedAccepts(t);
    assert ("-" + t)[1..] == t;
  }

  lemma ParseFormatUnsigned(m: nat, scale: nat)
    ensures ParseUnsigned(FormatUnsigned(m, scale)) == Some(Decimal(m, scale))
  {
    var ds := ToDigits(m, scale + 1);
    ToDigitsValue(m, scale + 1);
    if scale == 0 {
      ParseUnsignedInteger(ds);
    } else {
      var a, f := ds[..|ds| - scale], ds[|ds| - scale..];
      assert |a| >= 1;
      ParseUnsignedDotted(a, f);
      assert a + f == ds;
    }
  }

  /** Parsing inverts printing: every decimal survives `Format` then
      `ParseDecimal`. */
  lemma ParseFormat(d: Decimal)
    ensures ParseDecimal(Format(d)) == Some(d)
  {
    if d.mantissa < 0 {
      ParseFormatNegative(d);
    } else {
      ParseFormatNonNegative(d);
    }
  }

  lemma ParseFormatNegative(d: Decimal)
    requires d.mantissa < 0
    ensures ParseDecimal(Format(d)) == Some(d)
  {
    var m: nat := -d.mantissa;
    var body := FormatUnsigned(m, d.scale);
    var f := "-" + body;
    assert Format(d) == f;
    ParseFormatUnsigned(m, d.scale);
    assert f[1..] == body;
    assert ParseUnsigned(f[1..]) == Some(Decimal(m, d.scale));
    assert ParseDecimal(f) == Some(Decimal(-(m as int), d.scale));
  }

  lemma ParseFormatNonNegative(d: Decimal)
    requires d.mantissa >= 0
    ensures ParseDecimal(Format(d)) == Some(d)
  {
    var body := FormatUnsigned(d.mantissa, d.scale);
    assert Format(d) == body;
    ParseFormatUnsigned(d.mantissa, d.scale);
    FormatUnsignedLeads(d.mantissa, d.scale);
    assert body[0] != '-';
  }

  /** A printed unsigned decimal starts with a digit. */
  lemma FormatUnsignedLeads(m: nat, scale: nat)
    ensures var body := FormatUnsigned(m, scale); body != [] && IsDigit(body[0])
  {
    var ds := ToDigits(m, scale + 1);
    if scale > 0 {
      assert FormatUnsigned(m, scale)[0] == ds[0];
    }
  }

  /** `ParseDecimal` succeeds exactly on the literals of the grammar. */
  lemma ParseDecimalAccepts(s: string)
    ensures ParseDecimal(s).Some? <==> IsDecimalLiteral(s)
  {
    ParseUnsignedAccepts(s);
    if s != [] {
      ParseUnsignedAccepts(s[1..]);
    }
  }

  lemma ParseUnsignedAccepts(t: string)
    ensures ParseUnsigned(t).Some? <==> IsUnsignedLiteral(t)
  {
    var i := DigitRun(t);
    if ParseUnsigned(t).Some? && i < |t| {
      assert |t| >= 2;
    }
  }

  lemma {:induction false} FilterAppend(a: string, b: string)
    ensures Filter(a + b) == Filter(a) + Filter(b)
  {
    if a == [] {
      assert a + b == b;
    } else {
      var h := if IsKept(a[0]) then [if a[0] == ',' then '.' else a[0]] else [];
      assert (a + b)[0] == a[0];
      assert (a + b)[1..] == a[1..] + b;
      FilterAppend(a[1..], b);
      calc {
        Filter(a + b);
        h + Filter(a[1..] + b);
        h + (Filter(a[1..]) + Filter(b));
        (h + Filter(a[1..])) + Filter(b);
        Filter(a) + Filter(b);
      }
    }
  }

  /** Text made only of digits, commas, dots and dashes loses nothing to the
      filter: only its commas change, into dots. With `FilterAppend` and
      `CleanNumIgnores` this pins the filter down on every input. */
  lemma {:induction false} FilterKept(s: string)
    requires forall k :: 0 <= k < |s| ==> IsKept(s[k])
    ensures Filter(s) == ReplaceChar(s, ',', '.')
  {
    if s != [] {
      FilterKept(s[1..]);
      assert ReplaceChar(s, ',', '.') == [if s[0] == ',' then '.' else s[0]] + ReplaceChar(s[1..], ',', '.');
    }
  }

  /** The filter deletes every newline and backslash, so the split that
      follows it in `clean_num` never cuts anything. */
  lemma SplitAfterFilterIsInert(s: string)
    ensures BeforeFirst(BeforeFirst(Filter(s), '\n'), '\\') == Filter(s)
  {
    var f := Filter(s);
    assert '\n' !in f;
    BeforeFirstAbsent(f, '\n');
    assert '\\' !in f;
    BeforeFirstAbsent(f, '\\');
  }

  /** `clean_num` is `float` applied to the filtered text: the newline split
      does nothing, and the `""`/`"-"` guard agrees with the parser. */
  lemma CleanNumIsParseOfFilter(s: string)
    ensures CleanNumText(s) == ParseDecimal(Filter(s))
  {
    SplitAfterFilterIsInert(s);
    assert ParseDecimal("-") == None by {
      assert DigitRun("") == 0;
    }
  }

  /** `clean_num` returns a number exactly when the filtered text is one
      well-formed decimal; in particular text with no digit gives `None`. */
  lemma CleanNumNone(s: string)
    ensures CleanNumText(s).None? <==> !IsDecimalLiteral(Filter(s))
    ensures (forall k :: 0 <= k < |s| ==> !IsDigit(s[k])) ==> CleanNumText(s).None?
  {
    CleanNumIsParseOfFilter(s);
    ParseDecimalAccepts(Filter(s));
    if forall k :: 0 <= k < |s| ==> !IsDigit(s[k]) {
      FilterHasNoDigit(s);
      NoDigitNoLiteral(Filter(s));
    }
  }

  lemma NoDigitNoLiteral(f: string)
    requires forall k :: 0 <= k < |f| ==> !IsDigit(f[k])
    ensures !IsDecimalLiteral(f)
  {
    NoDigitNoUnsigned(f);
    if f != [] {
      NoDigitNoUnsigned(f[1..]);
    }
  }

  lemma NoDigitNoUnsigned(g: string)
    requires forall k :: 0 <= k < |g| ==> !IsDigit(g[k])
    ensures !IsUnsignedLiteral(g)
  {
    if g != [] {
      assert !IsDigit(g[0]);
    }
    forall i | 0 <= i < |g| && |g| >= 2
      ensures !(g[i] == '.' && AllDigits(g[..i]) && AllDigits(g[i + 1..]))
    {
      if i > 0 {
        assert g[..i][0] == g[0];
      } else {
        assert g[i + 1..][0] == g[1];
      }
    }
  }

  lemma {:induction false} FilterHasNoDigit(s: string)
    requires forall k :: 0 <= k < |s| ==> !IsDigit(s[k])
    ensures forall k :: 0 <= k < |Filter(s)| ==> !IsDigit(Filter(s)[k])
  {
    if s != [] {
      FilterHasNoDigit(s[1..]);
    }
  }

  /** A character outside `[0-9,.-]` (a space, `%`, a newline) has no effect
      anywhere in the cell. */
  lemma CleanNumIgnores(a: string, c: char, b: string)
    requires !IsKept(c)
    ensures CleanNumText(a + [c] + b) == CleanNumText(a + b)
  {
    FilterAppend(a + [c], b);
    FilterAppend(a, [c]);
    FilterAppend(a, b);
    assert Filter([c]) == [] + Filter([c][1..]);
    assert Filter(a + [c]) == Filter(a);
    assert Filter(a + [c] + b) == Filter(a + b);
    CleanNumIsParseOfFilter(a + [c] + b);
    CleanNumIsParseOfFilter(a + b);
  }

  lemma {:induction false} FilterRemoveChar(s: string, c: char)
    requires !IsKept(c)
    ensures Filter(RemoveChar(s, c)) == Filter(s)
  {
    if s != [] {
      FilterRemoveChar(s[1..], c);
      var h := if s[0] == c then [] else [s[0]];
      FilterAppend(h, RemoveChar(s[1..], c));
      assert Filter([s[0]]) == Filter([s[0]] + []);
      FilterAppend([s[0]], s[1..]);
      assert [s[0]] + s[1..] == s;
    }
  }

  /** Deleting a character `clean_num` drops anyway (` `, `%`) first changes
      nothing. */
  lemma CleanNumRemoveChar(s: string, c: char)
    requires !IsKept(c)
    ensures CleanNumText(RemoveChar(s, c)) == CleanNumText(s)
  {
    FilterRemoveChar(s, c);
    CleanNumIsParseOfFilter(s);
    CleanNumIsParseOfFilter(RemoveChar(s, c));
  }

  lemma {:induction false} FilterReplaceChar(s: string, a: char, b: char)
    requires !IsKept(a) && !IsKept(b)
    ensures Filter(ReplaceChar(s, a, b)) == Filter(s)
  {
    if s != [] {
      FilterReplaceChar(s[1..], a, b);
      var r := ReplaceChar(s, a, b);
      assert r[0] == (if s[0] == a then b else s[0]);
      assert r[1..] == ReplaceChar(s[1..], a, b);
    }
  }

  /** Replacing one dropped character by another (a newline by a space) first
      changes nothing. */
  lemma CleanNumReplaceChar(s: string, a: char, b: char)
    requires !IsKept(a) && !IsKept(b)
    ensures CleanNumText(ReplaceChar(s, a, b)) == CleanNumText(s)
  {
    FilterReplaceChar(s, a, b);
    CleanNumIsParseOfFilter(s);
    CleanNumIsParseOfFilter(ReplaceChar(s, a, b));
  }

  /** Formatted decimals pass through `clean_num` unchanged. */
  lemma CleanNumFormat(d: Decimal)
    ensures CleanNumText(Format(d)) == Some(d)
  {
    var f := Format(d);
    ParseFormat(d);
    FormatChars(d);
    FilterOfFormat(f);
    CleanNumIsParseOfFilter(f);
  }

  /** A printed decimal is written with digits, one dot and a sign only. */
  lemma FormatChars(d: Decimal)
    ensures var f := Format(d);
      forall k :: 0 <= k < |f| ==> IsDigit(f[k]) || f[k] == '.' || f[k] == '-'
  {
    var m: nat := if d.mantissa < 0 then -d.mantissa else d.mantissa;
    var u := FormatUnsigned(m, d.scale);
    FormatUnsignedChars(m, d.scale);
    if d.mantissa < 0 {
      var f := "-" + u;
      assert Format(d) == f;
      forall k | 0 <= k < |f|
        ensures IsDigit(f[k]) || f[k] == '.' || f[k] == '-'
      {
        if k > 0 {
          assert f[k] == u[k - 1];
        }
      }
    } else {
      assert Format(d) == u;
    }
  }

  /** A printed unsigned decimal is written with digits and a dot only. */
  lemma FormatUnsignedChars(m: nat, scale: nat)
    ensures var u := FormatUnsigned(m, scale);
      forall k :: 0 <= k < |u| ==> IsDigit(u[k]) || u[k] == '.'
  {
    var ds := ToDigits(m, scale + 1);
    if scale > 0 {
      var a, b := ds[..|ds| - scale], ds[|ds| - scale..];
      var u := a + "." + b;
      assert FormatUnsigned(m, scale) == u;
      forall k | 0 <= k < |u|
        ensures IsDigit(u[k]) || u[k] == '.'
      {
        if k < |a| {
          assert u[k] == ds[k];
        } else if k > |a| {
          assert u[k] == ds[|ds| - scale + (k - |a| - 1)];
        }
      }
    }
  }

  lemma {:induction false} FilterOfFormat(s: string)
    requires forall k :: 0 <= k < |s| ==> IsDigit(s[k]) || s[k] == '.' || s[k] == '-'
    ensures Filter(s) == s
  {
    if s != [] {
      FilterOfFormat(s[1..]);
    }
  }

  // ---------------------------------------------------------------------
  // Cells with thousands separators, decimal commas, line breaks and
  // malformed numbers
  // ---------------------------------------------------------------------

  lemma FilterCons(c: char, rest: string)
    ensures Filter([c] + rest) == (if IsKept(c) then [if c == ',' then '.' else c] else []) + Filter(rest)
  {
    assert ([c] + rest)[1..] == rest;
  }

  lemma FilterThousands()
    ensures Filter("1 226,13") == "1226.13"
  {
    FilterGroup();
    FilterCons(' ', "226,13");
    FilterCons('1', " 226,13");
  }

  lemma FilterGroup()
    ensures Filter("226,13") == "226.13"
  {
    FilterDecimalComma();
    FilterCons('6', ",13");
    FilterCons('2', "6,13");
    FilterCons('2', "26,13");
  }

  lemma FilterDecimalComma()
    ensures Filter(",13") == ".13"
  {
    FilterCons('3', "");
    FilterCons('1', "3");
    FilterCons(',', "13");
  }

  lemma ParseThousands()
    ensures ParseDecimal("1226.13") == Some(Decimal(122613, 2))
  {
    ParseUnsignedDotted("1226", "13");
    assert "1226" + "." + "13" == "1226.13";
    assert "1226" + "13" == "122613";
    ValueOfDigits();
  }

  lemma ValueOfDigits()
    ensures DigitsValue("122613") == 122613
  {
    assert "12"[..1] == "1";
    assert "122"[..2] == "12";
    assert "1226"[..3] == "122";
    assert "12261"[..4] == "1226";
    assert "122613"[..5] == "12261";
  }

  /** A space as thousands separator and a comma as decimal separator:
      `"1 226,13"` is 1226.13. */
  lemma ThousandsAndDecimalComma()
    ensures CleanNumText("1 226,13") == Some(Decimal(122613, 2))
  {
    FilterThousands();
    ParseThousands();
    CleanNumIsParseOfFilter("1 226,13");
  }

  /** A line break inside the cell is deleted by the filter rather than cutting
      the value: `"1 226,\n13"` is 1226.13, not 1226. */
  lemma NewlineInsideCell()
    ensures CleanNumText("1 226,\n13") == Some(Decimal(122613, 2))
  {
    CleanNumIgnores("1 226,", '\n', "13");
    assert "1 226," + ['\n'] + "13" == "1 226,\n13";
    assert "1 226," + "13" == "1 226,13";
    ThousandsAndDecimalComma();
  }

  lemma EmptyDashAndText()
    ensures CleanNumText("") == None
    ensures CleanNumText("-") == None
    ensures CleanNumText("N/A") == None
  {
    CleanNumNone("N/A");
    CleanNumNone("-");
  }

  lemma TwoDots()
    ensures CleanNumText("1.2.3") == None
  {
    FilterTwoDots();
    CleanNumIsParseOfFilter("1.2.3");
    ParseTwoDots();
  }

  lemma FilterTwoDots()
    ensures Filter("1.2.3") == "1.2.3"
  {
    FilterOfFormat("1.2.3");
  }

  lemma ParseTwoDots()
    ensures ParseUnsigned("1.2.3") == None
  {
    assert "1.2.3"[1..] == ".2.3";
    assert DigitRun("1.2.3") == 1;
    assert "1.2.3"[2..][1] == '.';
  }

  /** Literals the printer never produces still parse as `float` reads them:
      a leading dot, a negated leading dot, and leading zeros. */
  lemma LeadingDotAndZeros()
    ensures ParseDecimal(".5") == Some(Decimal(5, 1))
    ensures ParseDecimal("-.5") == Some(Decimal(-5, 1))
    ensures ParseDecimal("-007") == Some(Decimal(-7, 0))
  {
    ParseLeadingDot();
    assert ".5"[0] == '.';
    assert "-.5"[0] == '-' && "-.5"[1..] == ".5";
    ParseLeadingZeros();
    assert "-007"[0] == '-' && "-007"[1..] == "007";
  }

  lemma ParseLeadingDot()
    ensures ParseUnsigned(".5") == Some(Decimal(5, 1))
  {
    assert DigitsValue("5") == 5;
    ParseUnsignedDotted("", "5");
    assert "" + "." + "5" == ".5";
  }

  lemma ParseLeadingZeros()
    ensures ParseUnsigned("007") == Some(Decimal(7, 0))
  {
    assert "007"[..2] == "00" && "00"[..1] == "0";
    assert DigitsValue("007") == 7;
    ParseUnsignedInteger("007");
  }

  lemma InnerDash()
    ensures CleanNumText("1-2") == None
  {
    FilterOfFormat("1-2");
    CleanNumIsParseOfFilter("1-2");
    assert "1-2"[1..] == "-2";
    assert DigitRun("1-2") == 1;
  }
}
