/**
 * src/chart.js: turning a 13-slot observation vector ("filter") into the six
 * line series of the price chart, and the twelve x-axis labels.
 *
 * The prediction engine (`possiblePatterns` and the three reducers) is not
 * part of this model: it is a parameter, so every property below holds
 * whatever the engine returns. Values are JavaScript values as the chart
 * library receives them.
 */
module Chart {
  import opened Wrappers
  import JsText

  datatype JsValue = Undefined | Null | NaN | Number(x: real)

  /** `!v`: undefined, null, NaN and 0 are falsy. */
  predicate Falsy(v: JsValue) {
    v.Undefined? || v.Null? || v.NaN? || v == Number(0.0)
  }

  /** `v || null`. */
  function OrNull(v: JsValue): JsValue {
    if Falsy(v) then Null else v
  }

  /** `s[i]`: undefined outside the array. */
  function At(s: seq<JsValue>, i: int): JsValue {
    if 0 <= i < |s| then s[i] else Undefined
  }

  /** `new Array(n).fill(v)`. */
  function Fill(n: nat, v: JsValue): (r: seq<JsValue>)
    ensures |r| == n && forall i :: 0 <= i < n ==> r[i] == v
  {
    seq(n, _ => v)
  }

  /** The chart's half-day points: Monday morning .. Saturday afternoon. */
  const Points: nat := 12

  /**
   * The prediction engine, as four opaque functions: `possiblePatterns`
   * gives candidate patterns grouped by shape, and `patternReducer` with
   * the default, the average and the minimum-of-week reducer.
   */
  datatype Engine<!P> = Engine(
    possiblePatterns: seq<JsValue> -> seq<seq<P>>,
    minMaxReducer: seq<seq<P>> -> seq<seq<JsValue>>,
    averageReducer: seq<seq<P>> -> seq<seq<JsValue>>,
    minWeekReducer: seq<seq<P>> -> seq<JsValue>)

  /** `patterns.reduce((acc, cur) => acc + cur.length, 0)`. */
  function PatternCount<P>(groups: seq<seq<P>>): nat {
    if groups == [] then 0 else |groups[0]| + PatternCount(groups[1..])
  }

  lemma {:induction false} PatternCountZero<P>(groups: seq<seq<P>>)
    ensures PatternCount(groups) == 0 <==> forall i :: 0 <= i < |groups| ==> groups[i] == []
  {
    if groups != [] {
      PatternCountZero(groups[1..]);
      assert forall i :: 1 <= i < |groups| ==> groups[i] == groups[1..][i - 1];
    }
  }

  /** `[0, ...filter.slice(1)]`: the filter with its buy price replaced by 0. */
  function Relaxed(filter: seq<JsValue>): (r: seq<JsValue>)
    ensures |r| == if |filter| == 0 then 1 else |filter|
    ensures r[0] == Number(0.0)
    ensures forall i :: 1 <= i < |filter| ==> r[i] == filter[i]
  {
    [Number(0.0)] + (if |filter| > 0 then filter[1..] else [])
  }

  /** The patterns the chart is drawn from: rerun once without the buy price when none match. */
  function Candidates<P>(e: Engine<P>, filter: seq<JsValue>): (r: seq<seq<P>>)
    ensures r == e.possiblePatterns(filter) || r == e.possiblePatterns(Relaxed(filter))
    ensures PatternCount(r) == 0 ==> PatternCount(e.possiblePatterns(filter)) == 0
  {
    var patterns := e.possiblePatterns(filter);
    if PatternCount(patterns) == 0 then e.possiblePatterns(Relaxed(filter)) else patterns
  }

  /**
   * The fallback fires exactly when every group of candidates is empty,
   * and then the engine sees the relaxed filter.
   */
  lemma CandidatesFallback<P>(e: Engine<P>, filter: seq<JsValue>)
    ensures var first := e.possiblePatterns(filter);
      && ((exists i :: 0 <= i < |first| && first[i] != []) ==> Candidates(e, filter) == first)
      && ((forall i :: 0 <= i < |first| ==> first[i] == []) ==>
            Candidates(e, filter) == e.possiblePatterns(Relaxed(filter)))
  {
    PatternCountZero(e.possiblePatterns(filter));
  }

  /** When the buy price already is 0, relaxing changes nothing: the engine's first answer is used. */
  lemma RelaxingZeroBuyPriceIsNoop<P>(e: Engine<P>, filter: seq<JsValue>)
    requires At(filter, 0) == Number(0.0)
    ensures Relaxed(filter) == filter
    ensures Candidates(e, filter) == e.possiblePatterns(filter)
  {
  }

  /** Longest row length: the length of `zip(...rows)`. */
  function MaxLen(rows: seq<seq<JsValue>>): (n: nat)
    ensures forall i :: 0 <= i < |rows| ==> |rows[i]| <= n
    ensures rows == [] ==> n == 0
    ensures rows != [] ==> exists i :: 0 <= i < |rows| && |rows[i]| == n
  {
    if rows == [] then 0
    else
      var m := MaxLen(rows[1..]);
      assert forall i :: 1 <= i < |rows| ==> rows[i] == rows[1..][i - 1];
      if |rows[0]| >= m then |rows[0]| else m
  }

  /** lodash `zip(...rows)`: the transpose, padding short rows with undefined. */
  function Transpose(rows: seq<seq<JsValue>>): (cols: seq<seq<JsValue>>)
    ensures |cols| == MaxLen(rows)
    ensures forall j :: 0 <= j < |cols| ==> |cols[j]| == |rows|
    ensures forall j, i :: 0 <= j < |cols| && 0 <= i < |rows| ==> cols[j][i] == At(rows[i], j)
  {
    seq(MaxLen(rows), j => seq(|rows|, i requires 0 <= i < |rows| => At(rows[i], j)))
  }

  /** Transposing a rectangular table twice gives it back. */
  lemma TransposeTwice(rows: seq<seq<JsValue>>, width: nat)
    requires width > 0
    requires forall i :: 0 <= i < |rows| ==> |rows[i]| == width
    ensures Transpose(Transpose(rows)) == rows
  {
    var cols := Transpose(rows);
    if rows != [] {
      assert |cols| == width;
      assert |cols[0]| == |rows|;
      assert MaxLen(cols) == |rows|;
      var back := Transpose(cols);
      assert |back| == |rows|;
      forall i | 0 <= i < |rows|
        ensures back[i] == rows[i]
      {
        assert |back[i]| == width;
        forall j | 0 <= j < width
          ensures back[i][j] == rows[i][j]
        {
          assert back[i][j] == At(cols[j], i) == cols[j][i];
        }
      }
    }
  }

  /** `Math.trunc` on a real: the integer part, rounding toward zero. */
  function TruncReal(x: real): (n: int)
    ensures 0.0 <= x ==> n as real <= x < n as real + 1.0
    ensures x < 0.0 ==> n as real - 1.0 < x <= n as real
  {
    if x >= 0.0 then x.Floor else -((-x).Floor)
  }

  /** `Math.trunc(v)`: null counts as 0, undefined and NaN give NaN. */
  function Trunc(v: JsValue): (r: JsValue)
    ensures v.Number? && 0.0 <= v.x ==> r.Number? && r.x <= v.x < r.x + 1.0
    ensures v.Number? && v.x < 0.0 ==> r.Number? && r.x - 1.0 < v.x <= r.x
    ensures r.Number? ==> r.x == r.x.Floor as real
    ensures v.Null? ==> r == Number(0.0)
    ensures v.Undefined? || v.NaN? ==> r == NaN
  {
    match v
    case Number(x) => Number(TruncReal(x) as real)
    case Null => Number(0.0)
    case _ => NaN
  }

  datatype FillMode = FillOrigin | NoFill | FillToDataset(index: nat)

  /** The drawing options of one series. */
  datatype Style = Style(
    fill: FillMode,
    backgroundColor: string,
    borderColor: string,
    pointRadius: Option<int>,
    pointHoverRadius: Option<int>,
    borderDash: seq<int>)

  datatype Dataset = Dataset(legend: string, data: seq<JsValue>, style: Style)

  /** The translation keys of the six series, in chart order. */
  const SeriesKeys: seq<string> := ["Buy Price", "Guaranteed Min", "Daily Price", "Average", "Maximum", "Minimum"]

  const BuyPriceStyle := Style(FillOrigin, "transparent", "#7B6C53", Some(0), Some(0), [5, 15])
  const GuaranteedMinStyle := Style(FillOrigin, "transparent", "#007D75", Some(0), Some(0), [3, 6])
  const DailyPriceStyle := Style(NoFill, "#EF8341", "#EF8341", None, None, [])
  const AverageStyle := Style(NoFill, "#F0E16F", "#F0E16F", Some(0), None, [])
  const MaximumStyle := Style(FillToDataset(3), "#A5D5A5", "#A5D5A5", Some(0), Some(0), [])
  const MinimumStyle := Style(FillToDataset(3), "#88C9A1", "#88C9A1", Some(0), Some(0), [])

  /** `Array.from({ length: 12 }, (v, i) => filter[i + 1] || null)`. */
  function DailyData(filter: seq<JsValue>): (data: seq<JsValue>)
    ensures |data| == Points
  {
    seq(Points, i => OrNull(At(filter, i + 1)))
  }

  /** `avgData[0] ? avgData[0].map(Math.trunc) : new Array(12).fill(null)`. */
  function AverageData(avgData: seq<seq<JsValue>>): seq<JsValue> {
    if |avgData| > 0 then
      var row := avgData[0];
      seq(|row|, i requires 0 <= i < |row| => Trunc(row[i]))
    else Fill(Points, Null)
  }

  /** `minMaxData[k] || new Array(12).fill(null)`. */
  function ColumnOrNulls(cols: seq<seq<JsValue>>, k: nat): seq<JsValue> {
    if k < |cols| then cols[k] else Fill(Points, Null)
  }

  /**
   * `createGenerteData(t)(filter)`: Buy Price, Guaranteed Min, Daily Price,
   * Average, Maximum and Minimum, in that order.
   */
  function GenerateData<P>(t: string -> string, e: Engine<P>, filter: seq<JsValue>): (ds: seq<Dataset>)
    ensures |ds| == 6
    ensures forall k :: 0 <= k < 6 ==> ds[k].legend == t(SeriesKeys[k])
    ensures |ds[0].data| == Points && |ds[1].data| == Points && |ds[2].data| == Points
  {
    var patterns := Candidates(e, filter);
    var minMaxData := Transpose(e.minMaxReducer(patterns));
    var avgData := Transpose(e.averageReducer(patterns));
    var minWeekValue := At(e.minWeekReducer(patterns), 0);
    [ Dataset(t(SeriesKeys[0]), Fill(Points, OrNull(At(filter, 0))), BuyPriceStyle),
      Dataset(t(SeriesKeys[1]), Fill(Points, OrNull(minWeekValue)), GuaranteedMinStyle),
      Dataset(t(SeriesKeys[2]), DailyData(filter), DailyPriceStyle),
      Dataset(t(SeriesKeys[3]), AverageData(avgData), AverageStyle),
      Dataset(t(SeriesKeys[4]), ColumnOrNulls(minMaxData, 1), MaximumStyle),
      Dataset(t(SeriesKeys[5]), ColumnOrNulls(minMaxData, 0), MinimumStyle)
    ]
  }

  /** Buy Price is the buy price at every point, or no line at all when it is 0 or missing. */
  lemma BuyPriceSeries<P>(t: string -> string, e: Engine<P>, filter: seq<JsValue>)
    ensures var data := GenerateData(t, e, filter)[0].data;
      forall i :: 0 <= i < Points ==>
        && (|filter| > 0 && !Falsy(filter[0]) ==> data[i] == filter[0])
        && (|filter| == 0 || Falsy(filter[0]) ==> data[i] == Null)
  {
  }

  /** Daily Price shows observed slot i + 1 at point i, and null where nothing was observed. */
  lemma DailyPriceSeries<P>(t: string -> string, e: Engine<P>, filter: seq<JsValue>)
    ensures var data := GenerateData(t, e, filter)[2].data;
      forall i :: 0 <= i < Points ==>
        && (i + 1 < |filter| && !Falsy(filter[i + 1]) ==> data[i] == filter[i + 1])
        && (i + 1 >= |filter| || Falsy(filter[i + 1]) ==> data[i] == Null)
  {
  }

  /** Buy Price and Daily Price depend on the filter alone, never on the engine. */
  lemma ObservedSeriesIgnoreEngine<P, Q>(t: string -> string, e1: Engine<P>, e2: Engine<Q>, filter: seq<JsValue>)
    ensures GenerateData(t, e1, filter)[0] == GenerateData(t, e2, filter)[0]
    ensures GenerateData(t, e1, filter)[2] == GenerateData(t, e2, filter)[2]
  {
  }

  /** Guaranteed Min repeats the first value of the minimum-of-week reduction, or is empty when that is falsy. */
  lemma GuaranteedMinSeries<P>(t: string -> string, e: Engine<P>, filter: seq<JsValue>)
    ensures var w := e.minWeekReducer(Candidates(e, filter));
      var data := GenerateData(t, e, filter)[1].data;
      forall i :: 0 <= i < Points ==>
        && (|w| > 0 && !Falsy(w[0]) ==> data[i] == w[0])
        && (|w| == 0 || Falsy(w[0]) ==> data[i] == Null)
  {
  }

  /**
   * Maximum and Minimum: point i is the second and the first entry of the
   * reducer's i-th pair; twelve nulls when no pair has such an entry.
   */
  lemma ExtremeSeries<P>(t: string -> string, e: Engine<P>, filter: seq<JsValue>)
    ensures var mm := e.minMaxReducer(Candidates(e, filter));
      var ds := GenerateData(t, e, filter);
      && ((exists k :: 0 <= k < |mm| && |mm[k]| >= 2) ==>
            |ds[4].data| == |mm| && forall i :: 0 <= i < |mm| ==> ds[4].data[i] == At(mm[i], 1))
      && ((forall k :: 0 <= k < |mm| ==> |mm[k]| < 2) ==> ds[4].data == Fill(Points, Null))
      && ((exists k :: 0 <= k < |mm| && |mm[k]| >= 1) ==>
            |ds[5].data| == |mm| && forall i :: 0 <= i < |mm| ==> ds[5].data[i] == At(mm[i], 0))
      && ((forall k :: 0 <= k < |mm| ==> |mm[k]| == 0) ==> ds[5].data == Fill(Points, Null))
  {
    var mm := e.minMaxReducer(Candidates(e, filter));
    var n := MaxLen(mm);
    if exists k :: 0 <= k < |mm| && |mm[k]| >= 2 {
      var k :| 0 <= k < |mm| && |mm[k]| >= 2;
      assert n >= 2;
    }
    if exists k :: 0 <= k < |mm| && |mm[k]| >= 1 {
      var k :| 0 <= k < |mm| && |mm[k]| >= 1;
      assert n >= 1;
    }
  }

  /** Average: point i is the truncated first entry of the average reducer's i-th row. */
  lemma AverageSeries<P>(t: string -> string, e: Engine<P>, filter: seq<JsValue>)
    ensures var avg := e.averageReducer(Candidates(e, filter));
      var data := GenerateData(t, e, filter)[3].data;
      && ((exists k :: 0 <= k < |avg| && |avg[k]| >= 1) ==>
            |data| == |avg| && forall i :: 0 <= i < |avg| ==> data[i] == Trunc(At(avg[i], 0)))
      && ((forall k :: 0 <= k < |avg| ==> |avg[k]| == 0) ==> data == Fill(Points, Null))
  {
    var avg := e.averageReducer(Candidates(e, filter));
    if exists k :: 0 <= k < |avg| && |avg[k]| >= 1 {
      var k :| 0 <= k < |avg| && |avg[k]| >= 1;
      assert MaxLen(avg) >= 1;
    }
  }

  /** `acc` followed by "day AM", "day PM" for each day, as the label reduce builds it. */
  function LabelsFold(acc: seq<string>, days: seq<string>, am: string, pm: string): (r: seq<string>)
    ensures |r| == |acc| + 2 * |days|
    ensures r[..|acc|] == acc
    decreases |days|
  {
    if days == [] then acc
    else LabelsFold(acc + [days[0] + " " + am, days[0] + " " + pm], days[1..], am, pm)
  }

  lemma {:induction false} LabelsFoldAt(acc: seq<string>, days: seq<string>, am: string, pm: string)
    ensures var r := LabelsFold(acc, days, am, pm);
      && |r| == |acc| + 2 * |days|
      && r[..|acc|] == acc
      && forall i :: 0 <= i < |days| ==>
           r[|acc| + 2 * i] == days[i] + " " + am && r[|acc| + 2 * i + 1] == days[i] + " " + pm
    decreases |days|
  {
    if days != [] {
      var acc' := acc + [days[0] + " " + am, days[0] + " " + pm];
      LabelsFoldAt(acc', days[1..], am, pm);
      var r := LabelsFold(acc, days, am, pm);
      assert r == LabelsFold(acc', days[1..], am, pm);
      assert r[..|acc|] == r[..|acc'|][..|acc|];
      forall i | 1 <= i < |days|
        ensures r[|acc| + 2 * i] == days[i] + " " + am && r[|acc| + 2 * i + 1] == days[i] + " " + pm
      {
        assert days[i] == days[1..][i - 1];
        assert |acc| + 2 * i == |acc'| + 2 * (i - 1);
      }
    }
  }

  /** The translation key of the week, "Mon Tue Wed Thu Fri Sat", spelled out word by word. */
  const WeekKey: string :=
    "Mon" + (" " + ("Tue" + (" " + ("Wed" + (" " + ("Thu" + (" " + ("Fri" + (" " + "Sat")))))))))

  /** `createGetLabels(t)()`. */
  function GetLabels(t: string -> string): (labels: seq<string>)
    ensures |labels| >= 2 && |labels| % 2 == 0
  {
    LabelsFold([], JsText.Split(t(WeekKey), ' '), t("AM"), t("PM"))
  }

  /**
   * Whatever the translation of the week, as long as it is day words
   * separated by single spaces, the labels are each day's morning then
   * afternoon, in order.
   */
  lemma LabelsOfTranslatedWeek(t: string -> string, days: seq<string>)
    requires |days| >= 1
    requires forall k :: 0 <= k < |days| ==> ' ' !in days[k]
    requires t(WeekKey) == JsText.Join(days, ' ')
    ensures var labels := GetLabels(t);
      && |labels| == 2 * |days|
      && forall i :: 0 <= i < |days| ==>
           labels[2 * i] == days[i] + " " + t("AM") && labels[2 * i + 1] == days[i] + " " + t("PM")
  {
    JsText.SplitJoin(days, ' ');
    LabelsFoldAt([], days, t("AM"), t("PM"));
  }

  const EnglishDays: seq<string> := ["Mon", "Tue", "Wed", "Thu", "Fri", "Sat"]

  lemma EnglishWeekIsJoined()
    ensures JsText.Join(EnglishDays, ' ') == WeekKey
  {
    var d := EnglishDays;
    assert d[1..][1..] == d[2..] && d[2..][1..] == d[3..] && d[3..][1..] == d[4..] && d[4..][1..] == d[5..];
  }

  /** Untranslated, the labels are the six weekdays' AM and PM: twelve of them. */
  lemma EnglishLabels(t: string -> string)
    requires t(WeekKey) == WeekKey
    ensures |GetLabels(t)| == 12
    ensures forall i :: 0 <= i < 6 ==>
      && GetLabels(t)[2 * i] == EnglishDays[i] + " " + t("AM")
      && GetLabels(t)[2 * i + 1] == EnglishDays[i] + " " + t("PM")
  {
    EnglishWeekIsJoined();
    var d := EnglishDays;
    assert forall k :: 0 <= k < |d| ==> ' ' !in d[k];
    LabelsOfTranslatedWeek(t, d);
  }
}
