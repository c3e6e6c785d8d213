/**
 The whole normalisation pipeline of app.py:37-159, from the parsed wide
 table to the series handed to the trend test: select period columns, melt,
 clean and coerce counts, read period names as months, keep the chosen
 month range, group by month or year, and refuse series shorter than four.
 */
module Pipeline {
  import opened Wrappers
  import opened Digits
  import opened Numeric
  import opened Periods
  import opened Reshape
  import opened Series

  /** One normalised observation: place, month and count. */
  datatype Observation = Observation(place: string, date: Date, cases: real)

  /** The result of reading every period name: all read, or the first one refused. */
  datatype Normalised = Normalised(obs: seq<Observation>) | BadPeriod(period: string)

  /** The two aggregations modelled: by month, or by calendar year. */
  datatype Granularity = Monthly | Annual

  /**
   What the pipeline ends in: the period parse raised, the series was too short
   for the trend test (the app warns and stops), or the series is ready for it.
   */
  datatype Outcome = PeriodError(period: string) | TooShort(series: seq<Point>) | Ready(series: seq<Point>)

  predicate PeriodsParse(recs: seq<Record>)
  {
    forall k :: 0 <= k < |recs| ==> ParsePeriod(recs[k].period).Some?
  }

  /** The observation a record becomes once its period has been read as `d`. */
  function Observe(r: Record, d: Date): Observation
  {
    Observation(r.place, d, CellValue(r.cell))
  }

  /**
   Cleaning and coercing every count (app.py:57-62) and reading every period
   name with `%Y%m` (app.py:65-68). A single unreadable name makes the whole
   step fail; with no records nothing is read and nothing fails.
   */
  function Normalise(recs: seq<Record>): (r: Normalised)
    ensures r.Normalised? <==> PeriodsParse(recs)
    ensures r.Normalised? ==> |r.obs| == |recs|
  {
    if |recs| == 0 then Normalised([])
    else
      match ParsePeriod(recs[0].period)
      case None => BadPeriod(recs[0].period)
      case Some(d) =>
        PeriodsParseCons(recs);
        var rest := Normalise(recs[1..]);
        if rest.BadPeriod? then rest else Normalised([Observe(recs[0], d)] + rest.obs)
  }

  lemma PeriodsParseCons(recs: seq<Record>)
    requires |recs| > 0
    ensures PeriodsParse(recs) <==> ParsePeriod(recs[0].period).Some? && PeriodsParse(recs[1..])
  {
    assert forall k :: 0 < k < |recs| ==> recs[k] == recs[1..][k - 1];
  }

  /**
   Every record becomes the observation of its place, its month and its
   cleaned and coerced count, in record order.
   */
  lemma {:induction false} NormaliseRecords(recs: seq<Record>)
    requires PeriodsParse(recs)
    ensures forall k :: 0 <= k < |recs| ==>
      Normalise(recs).obs[k] == Observe(recs[k], ParsePeriod(recs[k].period).value)
  {
    if |recs| > 0 {
      assert PeriodsParse(recs[1..]) by {
        forall k | 0 <= k < |recs[1..]| ensures ParsePeriod(recs[1..][k].period).Some? {
          assert recs[1..][k] == recs[k + 1];
        }
      }
      NormaliseRecords(recs[1..]);
    }
  }

  /** A failed read names the first record whose period cannot be read. */
  lemma {:induction false} NormaliseFails(recs: seq<Record>) returns (k: nat)
    requires Normalise(recs).BadPeriod?
    ensures k < |recs| && recs[k].period == Normalise(recs).period
    ensures ParsePeriod(recs[k].period).None?
    ensures forall i :: 0 <= i < k ==> ParsePeriod(recs[i].period).Some?
  {
    if ParsePeriod(recs[0].period).None? {
      k := 0;
    } else {
      var k' := NormaliseFails(recs[1..]);
      k := k' + 1;
      forall i | 0 < i < k ensures ParsePeriod(recs[i].period).Some? {
        assert recs[i] == recs[1..][i - 1];
      }
    }
  }

  /** Reading concatenated records reads each part. */
  lemma {:induction false} NormaliseConcat(a: seq<Record>, b: seq<Record>)
    requires PeriodsParse(a) && PeriodsParse(b)
    ensures PeriodsParse(a + b)
    ensures Normalise(a + b).obs == Normalise(a).obs + Normalise(b).obs
  {
    if |a| == 0 {
      assert a + b == b;
    } else {
      assert (a + b)[0] == a[0] && (a + b)[1..] == a[1..] + b;
      PeriodsParseCons(a);
      NormaliseConcat(a[1..], b);
      PeriodsParseCons(a + b);
    }
  }

  /** The inclusive month range of app.py:110-116. */
  predicate InRange(d: Date, start: Date, end: Date)
  {
    LexLe(start, d) && LexLe(d, end)
  }

  /** Keeping the observations from `start` to `end`, both included, in their order. */
  function FilterRange(obs: seq<Observation>, start: Date, end: Date): (r: seq<Observation>)
    ensures |r| <= |obs|
    ensures forall i :: 0 <= i < |r| ==> InRange(r[i].date, start, end)
  {
    if |obs| == 0 then []
    else
      var rest := FilterRange(obs[1..], start, end);
      assert obs == [obs[0]] + obs[1..];
      if InRange(obs[0].date, start, end) then [obs[0]] + rest else rest
  }

  /** Every observation in range is kept as often as it occurs, and every other one is dropped. */
  lemma {:induction false} FilterRangeKeeps(obs: seq<Observation>, start: Date, end: Date)
    ensures forall o :: multiset(FilterRange(obs, start, end))[o]
                        == (if InRange(o.date, start, end) then multiset(obs)[o] else 0)
  {
    if |obs| > 0 {
      assert obs == [obs[0]] + obs[1..];
      FilterRangeKeeps(obs[1..], start, end);
    }
  }

  lemma {:induction false} FilterRangeConcat(a: seq<Observation>, b: seq<Observation>, start: Date, end: Date)
    ensures FilterRange(a + b, start, end) == FilterRange(a, start, end) + FilterRange(b, start, end)
  {
    if |a| == 0 {
      assert a + b == b;
    } else {
      assert (a + b)[1..] == a[1..] + b;
      FilterRangeConcat(a[1..], b, start, end);
    }
  }

  /** The grouping key: the month (app.py:123-127) or the year (app.py:134-138). */
  function Key(g: Granularity, d: Date): int
  {
    match g
    case Monthly => MonthIndex(d)
    case Annual => d.year
  }

  /** Each observation as a (key, count) point. */
  function Keyed(g: Granularity, obs: seq<Observation>): (kv: seq<Point>)
    ensures |kv| == |obs|
  {
    if |obs| == 0 then [] else [Point(Key(g, obs[0].date), obs[0].cases)] + Keyed(g, obs[1..])
  }

  lemma {:induction false} KeyedConcat(g: Granularity, a: seq<Observation>, b: seq<Observation>)
    ensures Keyed(g, a + b) == Keyed(g, a) + Keyed(g, b)
  {
    if |a| == 0 {
      assert a + b == b;
    } else {
      assert (a + b)[1..] == a[1..] + b;
      KeyedConcat(g, a[1..], b);
    }
  }

  /** Two months fall into the same group exactly when their keys agree. */
  lemma KeySeparates(g: Granularity, a: Date, b: Date)
    requires ValidMonth(a) && ValidMonth(b)
    ensures Key(g, a) == Key(g, b) <==> (a.year == b.year && (g == Monthly ==> a.month == b.month))
  {
    if g == Monthly {
      MonthIndexRoundTrip(a);
      MonthIndexRoundTrip(b);
    }
  }

  /** The series of one granularity over the observations in range. */
  function SeriesOf(g: Granularity, obs: seq<Observation>, start: Date, end: Date): (s: seq<Point>)
    ensures StrictlyIncreasing(s)
    ensures Keys(s) == Keys(Keyed(g, FilterRange(obs, start, end)))
    ensures forall k :: SumKey(s, k) == SumKey(Keyed(g, FilterRange(obs, start, end)), k)
  {
    GroupSum(Keyed(g, FilterRange(obs, start, end)))
  }

  /** Keying keeps every count. */
  lemma {:induction false} KeyedTotal(g: Granularity, obs: seq<Observation>)
    ensures Total(Keyed(g, obs)) == Cases(obs)
  {
    if |obs| > 0 {
      KeyedTotal(g, obs[1..]);
    }
  }

  /** The series totals exactly the counts of the observations in range. */
  lemma {:induction false} SeriesTotal(g: Granularity, obs: seq<Observation>, start: Date, end: Date)
    ensures Total(SeriesOf(g, obs, start, end)) == Cases(FilterRange(obs, start, end))
  {
    KeyedTotal(g, FilterRange(obs, start, end));
  }

  /**
   The pipeline from the parsed table to the series (app.py:37-68,
   110-138 and 157-159), for the month range `start`..`end`.
   */
  function Run(t: Table, g: Granularity, start: Date, end: Date): (r: Outcome)
    requires WellFormed(t)
    ensures r.TooShort? ==> |r.series| < 4
    ensures r.Ready? ==> |r.series| >= 4
    ensures !r.PeriodError? ==> StrictlyIncreasing(r.series)
  {
    var recs := Melt(t, ValueColumns(t.header));
    match Normalise(recs)
    case BadPeriod(p) => PeriodError(p)
    case Normalised(obs) =>
      var series := SeriesOf(g, obs, start, end);
      if |series| < 4 then TooShort(series) else Ready(series)
  }

  /** Sum of the counts of one column over all rows, as the cells are read. */
  function ColumnTotal(rows: seq<seq<string>>, j: nat): real
    requires forall i :: 0 <= i < |rows| ==> j < |rows[i]|
  {
    if |rows| == 0 then 0.0 else CellValue(rows[0][j]) + ColumnTotal(rows[1..], j)
  }

  /** The month a period column denotes, when its name can be read. */
  function ColumnDate(t: Table, j: nat): Option<Date>
    requires j < |t.header|
  {
    ParsePeriod(t.header[j])
  }

  /** Whether period column `j` counts towards key `k` inside the range. */
  predicate Contributes(t: Table, j: nat, g: Granularity, start: Date, end: Date, k: int)
    requires j < |t.header|
  {
    ColumnDate(t, j).Some? && InRange(ColumnDate(t, j).value, start, end) && Key(g, ColumnDate(t, j).value) == k
  }

  /**
   Reference definition read straight off the wide table: the total for key
   `k` is the sum of the column totals of the listed columns whose month lies
   in the range and has key `k`.
   */
  function WideSum(t: Table, cols: seq<nat>, g: Granularity, start: Date, end: Date, k: int): real
    requires WellFormed(t) && ColumnsIn(t, cols)
  {
    if |cols| == 0 then 0.0
    else
      (if Contributes(t, cols[0], g, start, end, k) then ColumnTotal(t.rows, cols[0]) else 0.0)
      + WideSum(t, cols[1..], g, start, end, k)
  }

  /** The keys of the listed columns whose month lies in the range. */
  function WideKeys(t: Table, cols: seq<nat>, g: Granularity, start: Date, end: Date): set<int>
    requires WellFormed(t) && ColumnsIn(t, cols)
  {
    if |cols| == 0 then {}
    else
      var j := cols[0];
      (if ColumnDate(t, j).Some? && InRange(ColumnDate(t, j).value, start, end)
       then {Key(g, ColumnDate(t, j).value)} else {})
      + WideKeys(t, cols[1..], g, start, end)
  }

  function Cases(obs: seq<Observation>): real
  {
    if |obs| == 0 then 0.0 else obs[0].cases + Cases(obs[1..])
  }

  /** The normalised, filtered and keyed records. */
  function Pipe(g: Granularity, recs: seq<Record>, start: Date, end: Date): seq<Point>
    requires PeriodsParse(recs)
  {
    Keyed(g, FilterRange(Normalise(recs).obs, start, end))
  }

  lemma PipeConcat(g: Granularity, a: seq<Record>, b: seq<Record>, start: Date, end: Date)
    requires PeriodsParse(a) && PeriodsParse(b)
    ensures PeriodsParse(a + b)
    ensures Pipe(g, a + b, start, end) == Pipe(g, a, start, end) + Pipe(g, b, start, end)
  {
    NormaliseConcat(a, b);
    FilterRangeConcat(Normalise(a).obs, Normalise(b).obs, start, end);
    KeyedConcat(g, FilterRange(Normalise(a).obs, start, end), FilterRange(Normalise(b).obs, start, end));
  }

  /** One melted column, normalised: every record carries the column's month and its row's count. */
  lemma ColumnBlock(t: Table, j: nat, d: Date)
    requires WellFormed(t) && j < |t.header| && ColumnDate(t, j) == Some(d)
    ensures PeriodsParse(MeltColumn(t, j))
    ensures var obs := Normalise(MeltColumn(t, j)).obs;
      (forall i :: 0 <= i < |obs| ==> obs[i].date == d) && Cases(obs) == ColumnTotal(t.rows, j)
  {
    NormaliseRecords(MeltColumn(t, j));
    var obs := Normalise(MeltColumn(t, j)).obs;
    CasesOfColumn(obs, t.rows, j);
  }

  lemma {:induction false} CasesOfColumn(obs: seq<Observation>, rows: seq<seq<string>>, j: nat)
    requires forall i :: 0 <= i < |rows| ==> j < |rows[i]|
    requires |obs| == |rows| && forall i :: 0 <= i < |obs| ==> obs[i].cases == CellValue(rows[i][j])
    ensures Cases(obs) == ColumnTotal(rows, j)
  {
    if |obs| > 0 {
      CasesOfColumn(obs[1..], rows[1..], j);
    }
  }

  /** Observations that all share the month `d` make at most one group. */
  lemma {:induction false} OneMonth(g: Granularity, obs: seq<Observation>, d: Date, start: Date, end: Date)
    requires forall i :: 0 <= i < |obs| ==> obs[i].date == d
    ensures var kv := Keyed(g, FilterRange(obs, start, end));
      (forall k :: SumKey(kv, k) == (if InRange(d, start, end) && Key(g, d) == k then Cases(obs) else 0.0))
      && Keys(kv) == (if InRange(d, start, end) && |obs| > 0 then {Key(g, d)} else {})
  {
    if |obs| > 0 {
      OneMonth(g, obs[1..], d, start, end);
      var rest := Keyed(g, FilterRange(obs[1..], start, end));
      if InRange(d, start, end) {
        KeysCons(Point(Key(g, d), obs[0].cases), rest);
        assert Keyed(g, FilterRange(obs, start, end)) == [Point(Key(g, d), obs[0].cases)] + rest;
      }
    } else {
      assert Keys([]) == {};
    }
  }

  /** The records of one readable column agree with the wide table on every key's sum... */
  lemma ColumnSums(t: Table, j: nat, g: Granularity, start: Date, end: Date)
    requires WellFormed(t) && j < |t.header| && ColumnDate(t, j).Some?
    ensures PeriodsParse(MeltColumn(t, j))
    ensures forall k :: SumKey(Pipe(g, MeltColumn(t, j), start, end), k)
                        == (if Contributes(t, j, g, start, end, k) then ColumnTotal(t.rows, j) else 0.0)
  {
    var d := ColumnDate(t, j).value;
    ColumnBlock(t, j, d);
    OneMonth(g, Normalise(MeltColumn(t, j)).obs, d, start, end);
  }

  /** ... and, when there are rows, on the key that occurs. */
  lemma ColumnKeys(t: Table, j: nat, g: Granularity, start: Date, end: Date)
    requires WellFormed(t) && j < |t.header| && ColumnDate(t, j).Some? && |t.rows| > 0
    ensures PeriodsParse(MeltColumn(t, j))
    ensures Keys(Pipe(g, MeltColumn(t, j), start, end)) == WideKeys(t, [j], g, start, end)
  {
    var d := ColumnDate(t, j).value;
    ColumnBlock(t, j, d);
    OneMonth(g, Normalise(MeltColumn(t, j)).obs, d, start, end);
  }

  /**
   The melted, normalised, filtered and keyed records of a run of readable
   period columns agree with the wide table on the sum of every key.
   */
  lemma {:induction false} MeltedSums(t: Table, cols: seq<nat>, g: Granularity, start: Date, end: Date)
    requires WellFormed(t) && ColumnsIn(t, cols)
    requires forall c :: 0 <= c < |cols| ==> ColumnDate(t, cols[c]).Some?
    ensures PeriodsParse(Melt(t, cols))
    ensures forall k :: SumKey(Pipe(g, Melt(t, cols), start, end), k) == WideSum(t, cols, g, start, end, k)
  {
    if |cols| > 0 {
      var block, rest := MeltColumn(t, cols[0]), Melt(t, cols[1..]);
      MeltedSums(t, cols[1..], g, start, end);
      ColumnSums(t, cols[0], g, start, end);
      PipeConcat(g, block, rest, start, end);
      SumKeyConcat(Pipe(g, block, start, end), Pipe(g, rest, start, end));
    }
  }

  /** ... and, when there are rows, on the keys that occur. */
  lemma {:induction false} MeltedKeys(t: Table, cols: seq<nat>, g: Granularity, start: Date, end: Date)
    requires WellFormed(t) && ColumnsIn(t, cols) && |t.rows| > 0
    requires forall c :: 0 <= c < |cols| ==> ColumnDate(t, cols[c]).Some?
    ensures PeriodsParse(Melt(t, cols))
    ensures Keys(Pipe(g, Melt(t, cols), start, end)) == WideKeys(t, cols, g, start, end)
  {
    if |cols| == 0 {
      assert Keys([]) == {};
    } else {
      var block, rest := MeltColumn(t, cols[0]), Melt(t, cols[1..]);
      MeltedKeys(t, cols[1..], g, start, end);
      ColumnKeys(t, cols[0], g, start, end);
      PipeConcat(g, block, rest, start, end);
      KeysConcat(Pipe(g, block, start, end), Pipe(g, rest, start, end));
    }
  }

  /**
   The melted records of the listed columns can all be read exactly when
   there are no rows or every listed column's name can be read.
   */
  lemma MeltParses(t: Table, cols: seq<nat>)
    requires WellFormed(t) && ColumnsIn(t, cols)
    ensures PeriodsParse(Melt(t, cols)) <==>
      (|t.rows| == 0 || forall c :: 0 <= c < |cols| ==> ColumnDate(t, cols[c]).Some?)
  {
    if |t.rows| == 0 || forall c :: 0 <= c < |cols| ==> ColumnDate(t, cols[c]).Some? {
      MeltParsesAll(t, cols);
    } else {
      var c :| 0 <= c < |cols| && ColumnDate(t, cols[c]).None?;
      var k := MeltHasColumn(t, cols, c);
      assert ParsePeriod(Melt(t, cols)[k].period).None?;
    }
  }

  /** With at least one row, each value column's name is the period of some melted record. */
  lemma MeltHasColumn(t: Table, cols: seq<nat>, c: nat) returns (k: nat)
    requires WellFormed(t) && ColumnsIn(t, cols) && |t.rows| > 0 && c < |cols|
    ensures k < |Melt(t, cols)| && Melt(t, cols)[k].period == t.header[cols[c]]
  {
    MeltCovers(t, cols, c, 0);
    k := c * |t.rows|;
  }

  lemma {:induction false} MeltParsesAll(t: Table, cols: seq<nat>)
    requires WellFormed(t) && ColumnsIn(t, cols)
    requires |t.rows| == 0 || forall c :: 0 <= c < |cols| ==> ColumnDate(t, cols[c]).Some?
    ensures PeriodsParse(Melt(t, cols))
  {
    var recs := Melt(t, cols);
    forall k | 0 <= k < |recs| ensures ParsePeriod(recs[k].period).Some? {
      var c, i := MeltFrom(t, cols, k);
    }
  }

  /** Every column name after the first that has six leading digits is a valid `YYYYMM`. */
  predicate PeriodNamesReadable(header: seq<string>)
  {
    forall j :: 1 <= j < |header| && IsPeriodName(header[j]) ==> ParsePeriod(header[j]).Some?
  }

  /**
   A run fails on a period name exactly when some period column after the
   first has a name that cannot be read as `YYYYMM` and there is at least one
   row to melt. The first column's name is never read.
   */
  lemma RunFails(t: Table, g: Granularity, start: Date, end: Date)
    requires WellFormed(t)
    ensures Run(t, g, start, end).PeriodError? <==> |t.rows| > 0 && !PeriodNamesReadable(t.header)
  {
    var cols := ValueColumns(t.header);
    assert Run(t, g, start, end).PeriodError? <==> !PeriodsParse(Melt(t, cols));
    MeltParses(t, cols);
    SelectedReadable(t);
  }

  /** Every melted column can be read exactly when every period column after the first can. */
  lemma {:induction false} SelectedReadable(t: Table)
    ensures var cols := ValueColumns(t.header);
      (forall c :: 0 <= c < |cols| ==> cols[c] < |t.header| && ColumnDate(t, cols[c]).Some?) <==>
      PeriodNamesReadable(t.header)
  {
    var cols := ValueColumns(t.header);
    if !PeriodNamesReadable(t.header) {
      var j :| 1 <= j < |t.header| && IsPeriodName(t.header[j]) && ParsePeriod(t.header[j]).None?;
      var c := ReadableColumn(t.header, j);
      assert ColumnDate(t, cols[c]).None?;
    } else {
      forall c | 0 <= c < |cols| ensures cols[c] < |t.header| && ColumnDate(t, cols[c]).Some? {
        assert 1 <= cols[c] < |t.header| && IsPeriodName(t.header[cols[c]]);
      }
    }
  }

  /** A period column after the first is among the melted columns. */
  lemma ReadableColumn(header: seq<string>, j: nat) returns (c: nat)
    requires 1 <= j < |header| && IsPeriodName(header[j])
    ensures c < |ValueColumns(header)| && ValueColumns(header)[c] == j
  {
    var cols := ValueColumns(header);
    assert j in cols;
    c :| 0 <= c < |cols| && cols[c] == j;
  }

  /**
   The first column is the identifier, so its name never matters: renaming it
   (say to a name that starts with six digits but is no valid `YYYYMM`) leaves
   the outcome of every run unchanged.
   */
  lemma FirstNameIgnored(t: Table, name: string, g: Granularity, start: Date, end: Date)
    requires WellFormed(t)
    ensures WellFormed(Table([name] + t.header[1..], t.rows))
    ensures Run(Table([name] + t.header[1..], t.rows), g, start, end) == Run(t, g, start, end)
  {
    var t' := Table([name] + t.header[1..], t.rows);
    SelectFromTail(t.header, t'.header, 1);
    MeltFirstNameIgnored(t, t', ValueColumns(t.header));
  }

  /** The period columns from position `from` on depend only on the names from there on. */
  lemma {:induction false} SelectFromTail(h: seq<string>, h': seq<string>, from: nat)
    requires |h| == |h'| && 1 <= from <= |h| && h[1..] == h'[1..]
    decreases |h| - from
    ensures SelectFrom(h, from) == SelectFrom(h', from)
  {
    if from < |h| {
      assert h[from] == h[1..][from - 1] == h'[from];
      SelectFromTail(h, h', from + 1);
    }
  }

  /** Melting columns after the first reads nothing of the first column's name. */
  lemma {:induction false} MeltFirstNameIgnored(t: Table, t': Table, cols: seq<nat>)
    requires WellFormed(t) && WellFormed(t') && ColumnsIn(t, cols)
    requires t'.rows == t.rows && |t'.header| == |t.header| && t'.header[1..] == t.header[1..]
    requires forall c :: 0 <= c < |cols| ==> 1 <= cols[c]
    ensures ColumnsIn(t', cols) && Melt(t', cols) == Melt(t, cols)
  {
    if |cols| > 0 {
      var j := cols[0];
      assert t'.header[j] == t.header[1..][j - 1] == t.header[j];
      assert MeltColumn(t', j) == MeltColumn(t, j);
      MeltFirstNameIgnored(t, t', cols[1..]);
    }
  }

  /** A failed run names a period column, other than the first, whose name cannot be read. */
  lemma RunFailsOn(t: Table, g: Granularity, start: Date, end: Date)
    requires WellFormed(t) && |t.rows| > 0 && !PeriodNamesReadable(t.header)
    ensures Run(t, g, start, end).PeriodError?
    ensures exists j :: 1 <= j < |t.header| && IsPeriodName(t.header[j]) &&
                        t.header[j] == Run(t, g, start, end).period && ParsePeriod(t.header[j]).None?
  {
    RunFails(t, g, start, end);
    var cols := ValueColumns(t.header);
    var k := NormaliseFails(Melt(t, cols));
    var c, i := MeltFrom(t, cols, k);
    assert IsPeriodName(t.header[cols[c]]);
  }

  /**
   When a run gets past the period parse, its series holds, for every key,
   the sum over the wide table of the in-range period columns with that key,
   and each point is that sum for its own key.
   */
  lemma RunTotals(t: Table, g: Granularity, start: Date, end: Date)
    requires WellFormed(t) && (|t.rows| == 0 || PeriodNamesReadable(t.header))
    ensures !Run(t, g, start, end).PeriodError?
    ensures var s := Run(t, g, start, end).series;
      (forall k :: SumKey(s, k) == WideSum(t, ValueColumns(t.header), g, start, end, k))
      && forall i :: 0 <= i < |s| ==> s[i].total == WideSum(t, ValueColumns(t.header), g, start, end, s[i].key)
  {
    RunFails(t, g, start, end);
    var cols := ValueColumns(t.header);
    var s := Run(t, g, start, end).series;
    if |t.rows| > 0 {
      RunParsed(t);
      MeltedSums(t, cols, g, start, end);
    } else {
      NoRowsNoSeries(t, g, start, end);
      NoRowsWideSum(t, cols, g, start, end);
    }
    forall i | 0 <= i < |s| ensures s[i].total == WideSum(t, cols, g, start, end, s[i].key) {
      PointIsKeySum(s, i);
    }
  }

  /** With no rows every column totals nothing. */
  lemma {:induction false} NoRowsWideSum(t: Table, cols: seq<nat>, g: Granularity, start: Date, end: Date)
    requires WellFormed(t) && ColumnsIn(t, cols) && |t.rows| == 0
    ensures forall k :: WideSum(t, cols, g, start, end, k) == 0.0
  {
    if |cols| > 0 {
      NoRowsWideSum(t, cols[1..], g, start, end);
    }
  }

  /** When every period name is readable, so is every selected column. */
  lemma RunParsed(t: Table)
    requires WellFormed(t) && PeriodNamesReadable(t.header)
    ensures forall c :: 0 <= c < |ValueColumns(t.header)| ==> ColumnDate(t, ValueColumns(t.header)[c]).Some?
  {
    SelectedReadable(t);
  }

  /**
   When there are rows and the period parse succeeds, the series has one
   point per distinct in-range key of the wide table, so the trend test is
   reached exactly when there are at least four such keys.
   */
  lemma RunGuard(t: Table, g: Granularity, start: Date, end: Date)
    requires WellFormed(t) && |t.rows| > 0 && PeriodNamesReadable(t.header)
    ensures !Run(t, g, start, end).PeriodError?
    ensures Keys(Run(t, g, start, end).series) == WideKeys(t, ValueColumns(t.header), g, start, end)
    ensures |Run(t, g, start, end).series| == |WideKeys(t, ValueColumns(t.header), g, start, end)|
    ensures Run(t, g, start, end).Ready? <==> |WideKeys(t, ValueColumns(t.header), g, start, end)| >= 4
  {
    RunFails(t, g, start, end);
    var cols := ValueColumns(t.header);
    RunParsed(t);
    MeltedKeys(t, cols, g, start, end);
    DistinctKeyCount(Run(t, g, start, end).series);
  }

  /** With no rows there is nothing to read, so the run never fails and its series is empty. */
  lemma NoRowsNoSeries(t: Table, g: Granularity, start: Date, end: Date)
    requires WellFormed(t) && |t.rows| == 0
    ensures Run(t, g, start, end) == TooShort([])
  {
    assert |Melt(t, ValueColumns(t.header))| == 0;
  }
}
