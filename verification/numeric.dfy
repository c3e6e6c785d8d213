/**
 Numeric coercion of cleaned cells (app.py:57-62): the cleaned text is parsed
 as a number and anything that does not parse becomes 0.
 */
module Numeric {
  import opened Wrappers
  import opened Digits
  import opened Cleaning

  /** Position of the first `c` in `s`, or `|s|` when there is none. */
  function IndexOf(s: string, c: char): (i: nat)
    ensures i <= |s|
    ensures forall k :: 0 <= k < i ==> s[k] != c
    ensures i < |s| ==> s[i] == c
  {
    if |s| == 0 then 0 else if s[0] == c then 0 else 1 + IndexOf(s[1..], c)
  }

  /**
   Independent description of the numerals the parser accepts: only digits
   and points, at most one point, and at least one digit.
   */
  predicate IsNumeral(s: string)
  {
    && (forall i :: 0 <= i < |s| ==> IsDigit(s[i]) || s[i] == '.')
    && Count(s, '.') <= 1
    && (exists i :: 0 <= i < |s| && IsDigit(s[i]))
  }

  /** The value of the numeral `whole.frac`. */
  function DecimalValue(whole: string, frac: string): (v: real)
    requires AllDigits(whole) && AllDigits(frac)
    ensures v >= 0.0
  {
    DigitsValue(whole) as real + DigitsValue(frac) as real / Pow10(|frac|) as real
  }

  /** The digits before the first point (all of `s` when there is none). */
  function Whole(s: string): string
  {
    s[..IndexOf(s, '.')]
  }

  /** The text after the first point (empty when there is none). */
  function Frac(s: string): string
  {
    var i := IndexOf(s, '.');
    if i < |s| then s[i + 1..] else []
  }

  /**
   Parse a plain decimal numeral: digits, optionally one point followed by
   digits (`12`, `12.5`, `12.`, `.5`). Anything else fails.
   */
  function ParseDecimal(s: string): (r: Option<real>)
    ensures r.Some? ==> r.value >= 0.0
  {
    var whole, frac := Whole(s), Frac(s);
    if AllDigits(whole) && AllDigits(frac) && |whole| + |frac| > 0 then
      Some(DecimalValue(whole, frac))
    else
      None
  }

  /** A digit-only string parses to its natural-number value. */
  lemma ParseDigits(s: string)
    requires AllDigits(s) && |s| > 0
    ensures ParseDecimal(s) == Some(DigitsValue(s) as real)
  {
    var i := IndexOf(s, '.');
    assert forall k :: 0 <= k < |s| ==> s[k] != '.' by {
      assert forall k :: 0 <= k < |s| ==> IsDigit(s[k]);
    }
    assert i == |s|;
    assert Whole(s) == s && Frac(s) == [];
    WholeValue(s);
  }

  /** A numeral without fraction digits is worth its whole part. */
  lemma {:induction false} WholeValue(w: string)
    requires AllDigits(w)
    ensures DecimalValue(w, []) == DigitsValue(w) as real
  {
    assert DigitsValue([]) == 0 && Pow10(0) == 1;
  }

  /** `s` is its whole part, then (when there is a point) the point and the rest. */
  lemma SplitShape(s: string)
    ensures IndexOf(s, '.') < |s| ==> s == Whole(s) + "." + Frac(s)
    ensures IndexOf(s, '.') == |s| ==> s == Whole(s) && Frac(s) == []
    ensures '.' !in Whole(s)
  {
    var i := IndexOf(s, '.');
    NoPointBefore(s, i);
    if i < |s| {
      SplitAt(s, i);
    }
  }

  lemma NoPointBefore(s: string, i: nat)
    requires i <= |s| && forall k :: 0 <= k < i ==> s[k] != '.'
    ensures '.' !in s[..i]
  {
    assert forall k :: 0 <= k < i ==> s[..i][k] == s[k];
  }

  lemma SplitAt(s: string, i: nat)
    requires i < |s|
    ensures s == s[..i] + [s[i]] + s[i + 1..]
  {
  }

  /** The points of `s`: the first one, and those after it. */
  lemma SplitCount(s: string)
    ensures Count(s, '.') == Count(Frac(s), '.') + (if IndexOf(s, '.') < |s| then 1 else 0)
  {
    SplitShape(s);
    var whole, frac := Whole(s), Frac(s);
    assert Count(whole, '.') == 0;
    if IndexOf(s, '.') < |s| {
      CountConcat(whole + ".", frac, '.');
      CountConcat(whole, ".", '.');
      assert Count(".", '.') == 1;
    }
  }

  /** Everything the parser accepts is a numeral. */
  lemma AcceptedIsNumeral(s: string)
    requires ParseDecimal(s).Some?
    ensures IsNumeral(s)
  {
    SplitShape(s);
    SplitCount(s);
    var i := IndexOf(s, '.');
    var whole, frac := Whole(s), Frac(s);
    assert '.' !in frac by {
      assert forall k :: 0 <= k < |frac| ==> IsDigit(frac[k]);
    }
    forall k | 0 <= k < |s|
      ensures IsDigit(s[k]) || s[k] == '.'
    {
      if k < i {
        assert s[k] == whole[k];
      } else if k > i {
        assert s[k] == frac[k - i - 1];
      }
    }
    if |whole| > 0 {
      assert s[0] == whole[0];
    } else {
      assert s[i + 1] == frac[0];
    }
  }

  /** Every numeral is accepted by the parser. */
  lemma NumeralIsAccepted(s: string)
    requires IsNumeral(s)
    ensures ParseDecimal(s).Some?
  {
    SplitShape(s);
    SplitCount(s);
    var i := IndexOf(s, '.');
    var whole, frac := Whole(s), Frac(s);
    var j :| 0 <= j < |s| && IsDigit(s[j]);
    forall k | 0 <= k < |whole|
      ensures IsDigit(whole[k])
    {
      assert whole[k] == s[k];
    }
    if i < |s| {
      assert '.' !in frac;
      forall k | 0 <= k < |frac|
        ensures IsDigit(frac[k])
      {
        assert frac[k] == s[i + 1 + k];
      }
      assert j < i || j > i;
    }
  }

  /** The parser accepts exactly the numerals. */
  lemma ParseDecimalAccepts(s: string)
    ensures ParseDecimal(s).Some? <==> IsNumeral(s)
  {
    if ParseDecimal(s).Some? {
      AcceptedIsNumeral(s);
    }
    if IsNumeral(s) {
      NumeralIsAccepted(s);
    }
  }

  /** Splitting `a.b` at its point, when `a` is all digits, gives back `a` and `b`. */
  lemma PointSplit(a: string, b: string)
    requires AllDigits(a)
    ensures IndexOf(a + "." + b, '.') == |a|
    ensures Whole(a + "." + b) == a && Frac(a + "." + b) == b
  {
    var s := a + "." + b;
    assert s[|a|] == '.';
    assert forall k :: 0 <= k < |a| ==> s[k] == a[k] && IsDigit(a[k]);
    assert s[..|a|] == a;
    assert s[|a| + 1..] == b;
  }

  lemma ParsePointed(a: string, b: string)
    requires AllDigits(a) && AllDigits(b) && |a| + |b| > 0
    ensures ParseDecimal(a + "." + b) == Some(DecimalValue(a, b))
  {
    PointSplit(a, b);
  }


  /**
   The coercion of app.py:59-62 (`errors='coerce'` then `fillna(0)`): it never
   fails, yields 0 on anything that is not a numeral and the numeral's value otherwise.
   */
  function Coerce(s: string): (r: real)
    ensures r >= 0.0
    ensures !IsNumeral(s) ==> r == 0.0
    ensures AllDigits(s) && |s| > 0 ==> r == DigitsValue(s) as real
  {
    ParseDecimalAccepts(s);
    assert AllDigits(s) && |s| > 0 ==> ParseDecimal(s) == Some(DigitsValue(s) as real) by {
      if AllDigits(s) && |s| > 0 {
        ParseDigits(s);
      }
    }
    match ParseDecimal(s)
    case Some(v) => v
    case None => 0.0
  }

  /** A cell's count: cleaned (app.py:57), then coerced (app.py:59-62). */
  function CellValue(cell: string): (r: real)
    ensures r >= 0.0
  {
    Coerce(Clean(cell))
  }

  /** Brazilian thousands grouping of a natural number: `1234567` is written `1.234.567`. */
  function FormatThousands(n: nat): string
  {
    if n < 1000 then NatToString(n)
    else FormatThousands(n / 1000) + "." + PadDigits(n % 1000, 3)
  }

  /** The last three digits of `n` are the digits of `n % 1000`. */
  lemma LastThreeDigits(n: nat)
    ensures (n % 1000) % 10 == n % 10
    ensures ((n % 1000) / 10) % 10 == (n / 10) % 10
    ensures ((n % 1000) / 100) % 10 == (n / 100) % 10
    ensures (n % 1000) / 100 / 10 == 0
  {
    var q, m := n / 1000, n % 1000;
    assert n == 1000 * q + m;
    ThousandDigits(q, m);
  }

  lemma ThousandDigits(q: nat, m: nat)
    requires m < 1000
    ensures (1000 * q + m) % 10 == m % 10
    ensures (1000 * q + m) / 10 % 10 == m / 10 % 10
    ensures (1000 * q + m) / 100 % 10 == m / 100 % 10
  {
    var n := 1000 * q + m;
    DivideBy10(n, 100 * q + m / 10, m % 10);
    DivideBy10(m, m / 10, m % 10);
    DivideBy10(n / 10, 10 * q + m / 100, m / 10 % 10);
    DivideBy10(m / 10, m / 100, m / 10 % 10);
  }

  /** Quotient and remainder by ten are the unique ones. */
  lemma DivideBy10(n: int, x: int, r: int)
    requires 0 <= r < 10 && n == 10 * x + r
    ensures n / 10 == x && n % 10 == r
  {
  }

  lemma PadThree(m: nat)
    requires m < 1000
    ensures PadDigits(m, 3) == [DigitChar((m / 100) % 10), DigitChar((m / 10) % 10), DigitChar(m % 10)]
  {
    var m1, m2 := m / 10, m / 100;
    assert m1 / 10 == m2 && m2 / 10 == 0;
    assert PadDigits(m2, 1) == PadDigits(0, 0) + [DigitChar(m2 % 10)];
    assert PadDigits(m1, 2) == PadDigits(m2, 1) + [DigitChar(m1 % 10)];
    assert PadDigits(m, 3) == PadDigits(m1, 2) + [DigitChar(m % 10)];
  }

  /** Splitting off the last three digits of a number of four or more digits. */
  lemma NatToStringSplit(n: nat)
    requires n >= 1000
    ensures NatToString(n) == NatToString(n / 1000) + PadDigits(n % 1000, 3)
  {
    var n1 := n / 10;
    var n2 := n1 / 10;
    var m := n % 1000;
    assert n2 / 10 == n / 1000;
    LastThreeDigits(n);
    PadThree(m);
    assert n / 100 == n2;
    assert NatToString(n) == NatToString(n1) + [DigitChar(n % 10)];
    assert NatToString(n1) == NatToString(n2) + [DigitChar(n1 % 10)];
    assert NatToString(n2) == NatToString(n2 / 10) + [DigitChar(n2 % 10)];
  }

  /** Cleaning removes exactly the grouping dots: what is left is the plain rendering. */
  lemma {:induction false} CleanFormatThousands(n: nat)
    ensures Clean(FormatThousands(n)) == NatToString(n)
  {
    if n < 1000 {
      DigitsClean(NatToString(n));
    } else {
      CleanFormatThousands(n / 1000);
      var head := FormatThousands(n / 1000);
      var tail := PadDigits(n % 1000, 3);
      DigitsClean(tail);
      CleanDropsPoint(head, tail);
      NatToStringSplit(n);
    }
  }

  /** A plain digit string is left as it is by the cleaning. */
  lemma {:induction false} DigitsClean(s: string)
    requires AllDigits(s)
    ensures Clean(s) == s
  {
    assert '-' !in s && '.' !in s && ',' !in s by {
      assert forall k :: 0 <= k < |s| ==> IsDigit(s[k]);
    }
    PlainCellUnchanged(s);
  }

  /** A thousands point between two groups vanishes in the cleaning. */
  lemma CleanDropsPoint(head: string, tail: string)
    ensures Clean(head + "." + tail) == Clean(head) + Clean(tail)
  {
    CleanConcat(head + ".", tail);
    CleanConcat(head, ".");
    CleanIsCharwise(".");
  }

  /** Any count written with Brazilian thousands separators is read back as itself. */
  lemma ThousandsRoundTrip(n: nat)
    ensures CellValue(FormatThousands(n)) == n as real
  {
    CleanFormatThousands(n);
  }

  /**
   A count written with thousands separators and a decimal comma reads as the
   numeral with the separators dropped and the comma turned into a point.
   */
  lemma DecimalCommaRoundTrip(n: nat, f: string)
    requires AllDigits(f)
    ensures CellValue(FormatThousands(n) + "," + f) == DecimalValue(NatToString(n), f)
  {
    CleanFormatThousands(n);
    var h := NatToString(n);
    assert '-' !in f && '.' !in f && ',' !in f by {
      assert forall k :: 0 <= k < |f| ==> IsDigit(f[k]);
    }
    PlainCellUnchanged(f);
    CleanConcat(FormatThousands(n) + ",", f);
    CleanConcat(FormatThousands(n), ",");
    CleanIsCharwise(",");
    assert Clean(",") == ".";
    assert Clean(FormatThousands(n) + "," + f) == h + "." + f;
    ParsePointed(h, f);
    ParseDecimalAccepts(h + "." + f);
  }

  /** The sentinel dash reads as zero. */
  lemma DashReadsAsZero()
    ensures CellValue("-") == 0.0
  {
    DashExamples();
    assert DigitsValue("0") == 0;
  }

  /**
   The text `astype(str)` gives for an integral count that the CSV reader has
   already stored as a float (a column with a thousands dot or an empty cell
   elsewhere is read as floats): `56` becomes `56.0`.
   */
  function FloatCellText(n: nat): string
  {
    NatToString(n) + ".0"
  }

  /**
   As written, such a cell is read ten times too large: the cleaning deletes
   the float's own decimal point as if it were a thousands separator.
   */
  lemma FloatCellScaled(n: nat)
    ensures CellValue(FloatCellText(n)) == (10 * n) as real
  {
    var t := NatToString(n);
    CleanFloatText(t);
    AppendZero(t);
  }

  /**
   A float count rendered with fraction digits, such as `1.2` for the cell
   `1.200` that the CSV reader took as a decimal, loses its point in the
   cleaning and is read as the digits run together: `1.2` reads as 12.
   */
  lemma FloatFractionRead(a: string, b: string)
    requires AllDigits(a) && AllDigits(b) && |a| > 0
    ensures CellValue(a + "." + b) == DigitsValue(a + b) as real
  {
    CleanDropsPoint(a, b);
    DigitsClean(a);
    DigitsClean(b);
    assert AllDigits(a + b) by {
      assert forall k :: 0 <= k < |a + b| ==> (a + b)[k] == (if k < |a| then a[k] else b[k - |a|]);
    }
  }

  /** Cleaning `t.0` for a digit string `t` gives `t0`. */
  lemma CleanFloatText(t: string)
    requires AllDigits(t)
    ensures Clean(t + ".0") == t + "0"
  {
    DigitsClean(t);
    CleanConcat(t, ".0");
    CleanIsCharwise(".0");
    assert Clean(".0") == "0";
  }

  /** A trailing zero multiplies a digit string's value by ten. */
  lemma {:induction false} AppendZero(t: string)
    requires AllDigits(t)
    ensures AllDigits(t + "0") && DigitsValue(t + "0") == 10 * DigitsValue(t)
  {
    var u := t + "0";
    assert u[..|u| - 1] == t;
  }
}
