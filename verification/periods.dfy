/**
 Period columns and their `YYYYMM` names (app.py:45-48 and 64-68): which
 header names are period columns, how a name is read as a calendar month,
 and the order of months.
 */
module Periods {
  import opened Wrappers
  import opened Digits

  /** A header name is a period column when it starts with six digits (`^\d{6}`). */
  predicate IsPeriodName(name: string)
  {
    |name| >= 6 && AllDigits(name[..6])
  }

  /** The period columns at or after position `from`, as header positions in header order. */
  function SelectFrom(header: seq<string>, from: nat): (cols: seq<nat>)
    requires from <= |header|
    decreases |header| - from
    ensures forall k :: 0 <= k < |cols| ==> from <= cols[k] < |header| && IsPeriodName(header[cols[k]])
    ensures forall j :: from <= j < |header| && IsPeriodName(header[j]) ==> j in cols
    ensures forall a, b :: 0 <= a < b < |cols| ==> cols[a] < cols[b]
  {
    if from == |header| then []
    else (if IsPeriodName(header[from]) then [from] else []) + SelectFrom(header, from + 1)
  }

  /**
   The column selection of app.py:45-48: exactly the columns whose name starts
   with six digits, each once, in their original order. The first column is
   tested like every other.
   */
  function PeriodColumns(header: seq<string>): (cols: seq<nat>)
    ensures forall k :: 0 <= k < |cols| ==> cols[k] < |header| && IsPeriodName(header[cols[k]])
    ensures forall j :: 0 <= j < |header| ==> (IsPeriodName(header[j]) <==> j in cols)
    ensures forall a, b :: 0 <= a < b < |cols| ==> cols[a] < cols[b]
  {
    SelectFrom(header, 0)
  }

  /**
   The value columns `melt` stacks (app.py:43, 50-55): the selected period
   columns other than column 0, which is the identifier column and so is never
   melted as a value, whatever its name. They are the period columns with the
   first column's own entry, if any, removed.
   */
  function ValueColumns(header: seq<string>): (cols: seq<nat>)
    ensures forall k :: 0 <= k < |cols| ==> 1 <= cols[k] < |header| && IsPeriodName(header[cols[k]])
    ensures forall j :: 1 <= j < |header| ==> (IsPeriodName(header[j]) <==> j in cols)
    ensures forall a, b :: 0 <= a < b < |cols| ==> cols[a] < cols[b]
    ensures |header| >= 1 ==>
      PeriodColumns(header) == (if IsPeriodName(header[0]) then [0] else []) + cols
  {
    if |header| == 0 then [] else SelectFrom(header, 1)
  }

  /** A calendar month: the first day of `month` in `year`. */
  datatype Date = Date(year: int, month: int)

  predicate ValidMonth(d: Date)
  {
    1 <= d.month <= 12
  }

  /** A month that a `YYYYMM` name can denote. */
  predicate ValidDate(d: Date)
  {
    0 <= d.year <= 9999 && ValidMonth(d)
  }

  /**
   Reading a period name with the format `%Y%m` (app.py:65-68): exactly four
   digits of year and two digits of month 01-12; anything else is refused
   (the source raises).
   */
  function ParsePeriod(name: string): (r: Option<Date>)
    ensures r.Some? ==> ValidDate(r.value)
    ensures r.Some? ==> IsPeriodName(name)
  {
    if |name| == 6 && AllDigits(name) then
      var month := 10 * DigitValue(name[4]) + DigitValue(name[5]);
      if 1 <= month <= 12 then
        assert name[..6] == name;
        var year := 1000 * DigitValue(name[0]) + 100 * DigitValue(name[1])
                    + 10 * DigitValue(name[2]) + DigitValue(name[3]);
        Some(Date(year, month))
      else
        None
    else
      None
  }

  /** The year is the first four digits read in base ten, the month the last two. */
  lemma ParsePeriodValue(name: string)
    requires ParsePeriod(name).Some?
    ensures |name| == 6 && AllDigits(name)
    ensures ParsePeriod(name).value == Date(DigitsValue(name[..4]), DigitsValue(name[4..]))
  {
    FourDigits(name[..4]);
    TwoDigits(name[4..]);
  }

  /** Exactly the six-digit names whose last two digits are a month 01-12 are read. */
  lemma ParsePeriodAccepts(name: string)
    ensures ParsePeriod(name).Some? <==>
      |name| == 6 && AllDigits(name) && 1 <= DigitsValue(name[4..]) <= 12
  {
    if |name| == 6 && AllDigits(name) {
      TwoDigits(name[4..]);
    }
  }

  lemma FourDigits(s: string)
    requires |s| == 4 && AllDigits(s)
    ensures DigitsValue(s) == 1000 * DigitValue(s[0]) + 100 * DigitValue(s[1]) + 10 * DigitValue(s[2]) + DigitValue(s[3])
  {
    assert s[..3][..2] == s[..2] && s[..2][..1] == s[..1] && s[..1][..0] == [];
    assert DigitsValue(s[..1]) == DigitValue(s[0]);
    assert DigitsValue(s[..2]) == 10 * DigitValue(s[0]) + DigitValue(s[1]);
    assert DigitsValue(s[..3]) == 100 * DigitValue(s[0]) + 10 * DigitValue(s[1]) + DigitValue(s[2]);
  }

  lemma TwoDigits(s: string)
    requires |s| == 2 && AllDigits(s)
    ensures DigitsValue(s) == 10 * DigitValue(s[0]) + DigitValue(s[1])
  {
    assert s[..1][..0] == [];
    assert DigitsValue(s[..1]) == DigitValue(s[0]);
  }

  /** The `YYYYMM` name of a month. */
  function FormatPeriod(d: Date): (name: string)
    requires ValidDate(d)
    ensures |name| == 6 && AllDigits(name)
  {
    assert Pow10(4) == 10000 && Pow10(2) == 100;
    PadDigits(d.year, 4) + PadDigits(d.month, 2)
  }

  /** Every month is read back from its name. */
  lemma ParseFormat(d: Date)
    requires ValidDate(d)
    ensures ParsePeriod(FormatPeriod(d)) == Some(d)
  {
    assert Pow10(4) == 10000 && Pow10(2) == 100;
    var y, m := PadDigits(d.year, 4), PadDigits(d.month, 2);
    var name := y + m;
    assert name[..4] == y && name[4..] == m;
    FourDigits(y);
    TwoDigits(m);
    assert name[0] == y[0] && name[1] == y[1] && name[2] == y[2] && name[3] == y[3];
    assert name[4] == m[0] && name[5] == m[1];
  }

  /** Every name that is read is the name of the month read: no two names denote one month. */
  lemma FormatParse(name: string)
    requires ParsePeriod(name).Some?
    ensures FormatPeriod(ParsePeriod(name).value) == name
  {
    ParsePeriodValue(name);
    PadSplit(name, 4);
  }

  /** Splitting a digit string and rendering each part at its own width gives the string back. */
  lemma PadSplit(s: string, w: nat)
    requires AllDigits(s) && w <= |s|
    ensures DigitsValue(s[..w]) < Pow10(w) && DigitsValue(s[w..]) < Pow10(|s| - w)
    ensures PadDigits(DigitsValue(s[..w]), w) + PadDigits(DigitsValue(s[w..]), |s| - w) == s
  {
    PadDigitsOfValue(s[..w]);
    PadDigitsOfValue(s[w..]);
    assert s[..w] + s[w..] == s;
  }

  /** The date order the range filter uses: by year, then by month. */
  predicate LexLe(a: Date, b: Date)
  {
    a.year < b.year || (a.year == b.year && a.month <= b.month)
  }

  /** Months counted from January of year 0: the key of the monthly series. */
  function MonthIndex(d: Date): int
  {
    d.year * 12 + d.month - 1
  }

  function FromMonthIndex(k: int): (d: Date)
    ensures ValidMonth(d)
  {
    Date(k / 12, k % 12 + 1)
  }

  /** The month index identifies the month. */
  lemma MonthIndexRoundTrip(d: Date)
    requires ValidMonth(d)
    ensures FromMonthIndex(MonthIndex(d)) == d
  {
    var k := MonthIndex(d);
    assert k == d.year * 12 + (d.month - 1) && 0 <= d.month - 1 < 12;
    assert k / 12 == d.year && k % 12 == d.month - 1;
  }

  /** The month index is monotone both ways: comparing indices is comparing dates. */
  lemma MonthIndexOrder(a: Date, b: Date)
    requires ValidMonth(a) && ValidMonth(b)
    ensures LexLe(a, b) <==> MonthIndex(a) <= MonthIndex(b)
  {
    if a.year < b.year {
      assert MonthIndex(a) < a.year * 12 + 12 <= b.year * 12 <= MonthIndex(b);
    } else if a.year > b.year {
      assert MonthIndex(b) < b.year * 12 + 12 <= a.year * 12 <= MonthIndex(a);
    }
  }
}
