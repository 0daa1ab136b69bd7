/**
 * The pure decisions of the frost scraper (`scripts/scraping_geadas.py`):
 * the frost intensity of a minimum temperature, the Brazilian renderings of
 * temperature and date, the municipality of a frost record, and the
 * month-by-month request windows from the start date to today.
 *
 * A temperature reading is represented by its text, `str(TEMP_MIN)`; for
 * the numbers the API sends, `float` of the number and of its text agree.
 */
module Geadas {
  import opened Wrappers
  import opened Text
  import opened Normalization
  import opened Municipalities
  import opened Numbers
  import opened Calendar

  // ----- intensity -----

  datatype Intensity = Fraca | Moderada | Forte | Indefinida

  /** The label written to the spreadsheet. */
  function IntensityLabel(i: Intensity): string {
    match i
    case Fraca => "Fraca"
    case Moderada => "Moderada"
    case Forte => "Forte"
    case Indefinida => "Indefinida"
  }

  /** How severe a frost is: a colder minimum is a stronger frost. */
  function Severity(i: Intensity): int {
    match i
    case Fraca => 1
    case Moderada => 2
    case Forte => 3
    case Indefinida => 0
  }

  /** The thresholds of `calcular_intensidade` on a finite temperature. */
  function ClassifyTemperature(t: real): (r: Intensity)
    ensures r != Indefinida
    ensures r == Fraca <==> t >= 3.0
    ensures r == Moderada <==> 1.0 <= t < 3.0
    ensures r == Forte <==> t < 1.0
  {
    if t >= 3.0 then Fraca
    else if 1.0 <= t < 3.0 then Moderada
    else Forte
  }

  /**
   * The thresholds on any float: infinity is above 3, minus infinity below
   * 1, and not-a-number fails both comparisons and so falls to the last
   * branch.
   */
  function ClassifyFloat(x: Float): (r: Intensity)
    ensures x.Finite? ==> r == ClassifyTemperature(x.value)
    ensures x.NaN? ==> r == Forte
  {
    match x
    case Finite(t) => ClassifyTemperature(t)
    case Infinity(negative) => if negative then Forte else Fraca
    case NaN => Forte
  }

  /** `calcular_intensidade(TEMP_MIN)`: a missing or unreadable reading is "Indefinida". */
  function FrostIntensity(temp: Option<string>): (r: Intensity)
    ensures r == Indefinida <==> temp.None? || ParseFloat(temp.value).None?
    ensures temp.Some? && ParseFloat(temp.value).Some? ==> r == ClassifyFloat(ParseFloat(temp.value).value)
  {
    match temp
    case None => Indefinida
    case Some(t) =>
      match ParseFloat(t)
      case None => Indefinida
      case Some(x) => ClassifyFloat(x)
  }

  /** A lower minimum never gives a weaker frost. */
  lemma IntensityAntiMonotone(a: real, b: real)
    requires a <= b
    ensures Severity(ClassifyTemperature(b)) <= Severity(ClassifyTemperature(a))
  {
  }

  /** Exactly 3 is still weak, exactly 1 still moderate. */
  lemma IntensityBoundaries()
    ensures ClassifyTemperature(3.0) == Fraca
    ensures ClassifyTemperature(1.0) == Moderada
    ensures forall t :: 1.0 <= t < 3.0 ==> ClassifyTemperature(t) == Moderada
  {
  }

  /** The reading "3" is a weak frost. */
  lemma IntensityOfThree()
    ensures FrostIntensity(Some("3")) == Fraca
  {
    ParseThree();
  }

  lemma ParseThree()
    ensures ParseFloat("3") == Some(Finite(3.0))
  {
    ParseFloatNat(3);
    ThreeText();
  }

  lemma ThreeText()
    ensures NatToString(3) == "3"
  {
  }

  lemma ParseOnePointZero()
    ensures ParseFloat("1.0") == Some(Finite(1.0))
  {
    ParseFloatDecimalPoint("1", "0");
    OnePointZero();
  }

  lemma OnePointZero()
    ensures "1" + "." + "0" == "1.0" && PointValue("1", "0") == 1.0
  {
  }

  /** The reading "1.0" is a moderate frost. */
  lemma IntensityOfOne()
    ensures FrostIntensity(Some("1.0")) == Moderada
  {
    ParseOnePointZero();
  }

  lemma ParseMinusZeroPointFive()
    ensures ParseFloat("-0.5") == Some(Finite(-0.5))
  {
    ParseFloatDecimalPoint("0", "5");
    ZeroPointFive();
    ParseFloatMinus("0.5");
  }

  lemma ZeroPointFive()
    ensures "0" + "." + "5" == "0.5" && PointValue("0", "5") == 0.5
    ensures Strip("0.5") == "0.5" && "-" + "0.5" == "-0.5"
  {
    StripUnique("0.5", 0, 3);
    assert "0.5"[0..3] == "0.5";
  }

  /** The reading "-0.5" is a strong frost. */
  lemma IntensityOfMinusHalf()
    ensures FrostIntensity(Some("-0.5")) == Forte
  {
    ParseMinusZeroPointFive();
  }

  /** Not-a-number fails both comparisons and is classed as a strong frost. */
  lemma IntensityOfNan()
    ensures FrostIntensity(Some("NaN")) == Forte
  {
    ParseFloatNanWord();
  }

  /** A missing or unreadable reading is undefined. */
  lemma IntensityUndefined()
    ensures FrostIntensity(Some("abc")) == Indefinida
    ensures FrostIntensity(None) == Indefinida
  {
    ParseFloatNotNumber();
  }

  // ----- temperature and date text -----

  /** The unit suffix written after a temperature. */
  const Celsius: string := "\U{B0}C"

  /** `formatar_temperatura`: "N/A" for a missing reading, else the text with decimal commas and "°C". */
  function FormatTemperature(temp: Option<string>): (r: string)
    ensures temp.None? ==> r == "N/A"
    ensures temp.Some? ==> |r| == |temp.value| + 2 && EndsWith(r, Celsius)
    ensures '.' !in r
  {
    match temp
    case None => "N/A"
    case Some(t) => ReplaceChar(t, '.', ',') + Celsius
  }

  /** The reading can be read back from its rendering when it had no comma of its own. */
  lemma TemperatureRoundTrip(t: string)
    requires ',' !in t
    ensures var r := FormatTemperature(Some(t));
      ReplaceChar(r[..|t|], ',', '.') == t
  {
    var r := FormatTemperature(Some(t));
    assert r[..|t|] == ReplaceChar(t, '.', ',');
    ReplaceCharRoundTrip(t, '.', ',');
  }

  /** `d.strftime("%d/%m/%Y")`. */
  function FormatBrazilian(d: Date): (s: string)
    requires Valid(d)
    ensures |s| >= 7 && s[2] == '/' && s[5] == '/'
    ensures AllDigits(s[..2]) && DigitsValue(s[..2]) == d.day
    ensures AllDigits(s[3..5]) && DigitsValue(s[3..5]) == d.month
    ensures s[6..] == FormatYear(d.year)
  {
    var s := Pad2(d.day) + "/" + Pad2(d.month) + "/" + FormatYear(d.year);
    assert s[..2] == Pad2(d.day) && s[3..5] == Pad2(d.month);
    s
  }

  /**
   * `formatar_data_brasileira(DT_MEDICAO)`: the date read with `"%Y-%m-%d"`
   * and written as `"%d/%m/%Y"`. None is the exception that ends the run: a
   * missing field or a text `strptime` rejects.
   */
  function FormatBrazilianDate(iso: Option<string>): (r: Option<string>)
    ensures r.Some? <==> iso.Some? && ParseIso(iso.value).Some?
    ensures r.Some? ==> r.value == FormatBrazilian(ParseIso(iso.value).value)
  {
    match iso
    case None => None
    case Some(s) =>
      match ParseIso(s)
      case None => None
      case Some(d) => Some(FormatBrazilian(d))
  }

  /** The Brazilian form keeps the date: same day, month and year, reordered. */
  lemma BrazilianKeepsDate(d: Date)
    requires Valid(d) && 1000 <= d.year <= 9999
    ensures var r := FormatBrazilianDate(Some(FormatIso(d)));
      && r.Some? && |r.value| == 10 && r.value[2] == '/' && r.value[5] == '/'
      && AllDigits(r.value[..2]) && DigitsValue(r.value[..2]) == d.day
      && AllDigits(r.value[3..5]) && DigitsValue(r.value[3..5]) == d.month
      && AllDigits(r.value[6..]) && DigitsValue(r.value[6..]) == d.year
  {
    ParseFormatIso(d);
  }

  // ----- frost records -----

  /** One record of the frost API; a field the record lacks is None. */
  datatype FrostItem = FrostItem(uf: Option<string>, name: Option<string>, measured: Option<string>, tempMin: Option<string>)

  /** One spreadsheet row: IBGE code, state, municipality, day, minimum temperature, intensity. */
  datatype FrostRow = FrostRow(cityId: Option<int>, uf: string, city: string, date: string,
                               temperature: string, intensity: Intensity)

  /** The municipality written for a record: its `NOME`, or "N/A", title-cased. */
  function CityName(item: FrostItem): string {
    Title(item.name.GetOr("N/A"))
  }

  /**
   * The IBGE code of a record: only the exact normalised match, with no
   * alias or override tier. Title-casing the name first changes nothing.
   */
  function FrostCityId(registry: seq<City>, item: FrostItem): (r: Option<int>)
    ensures r == FindIdByName(registry, item.name.GetOr("N/A"))
  {
    NormalizeTitle(item.name.GetOr("N/A"));
    FindIgnoresSpelling(registry, CityName(item), item.name.GetOr("N/A"));
    FindIdByName(registry, CityName(item))
  }

  /** One record shaped into a row; None when its date cannot be read, which ends the run. */
  function ShapeFrostItem(registry: seq<City>, item: FrostItem): (r: Option<FrostRow>)
    ensures r.Some? <==> FormatBrazilianDate(item.measured).Some?
    ensures r.Some? ==> r.value.cityId == FindIdByName(registry, item.name.GetOr("N/A"))
    ensures r.Some? ==> r.value.uf == item.uf.GetOr("N/A") && r.value.city == CityName(item)
    ensures r.Some? ==> r.value.date == FormatBrazilianDate(item.measured).value
    ensures r.Some? ==> r.value.temperature == FormatTemperature(item.tempMin)
    ensures r.Some? ==> r.value.intensity == FrostIntensity(item.tempMin)
  {
    match FormatBrazilianDate(item.measured)
    case None => None
    case Some(date) =>
      Some(FrostRow(FrostCityId(registry, item), item.uf.GetOr("N/A"), CityName(item), date,
                    FormatTemperature(item.tempMin), FrostIntensity(item.tempMin)))
  }

  /**
   * `f` applied to every element in order, stopping at the first failure:
   * a loop whose body may raise.
   */
  function MapAll<T, U>(f: T -> Option<U>, xs: seq<T>): (r: Option<seq<U>>)
    ensures r.Some? <==> forall i :: 0 <= i < |xs| ==> f(xs[i]).Some?
    ensures r.Some? ==> |r.value| == |xs| && forall i :: 0 <= i < |xs| ==> r.value[i] == f(xs[i]).value
    decreases |xs|
  {
    if xs == [] then Some([])
    else
      var first := f(xs[0]);
      var rest := MapAll(f, xs[1..]);
      assert forall i :: 1 <= i < |xs| ==> xs[i] == xs[1..][i - 1];
      if first.None? || rest.None? then None
      else
        var ys := [first.value] + rest.value;
        assert forall i :: 1 <= i < |xs| ==> ys[i] == rest.value[i - 1];
        Some(ys)
  }

  /** The rows of one month's records, in the records' order; None as soon as one date fails. */
  function ShapeFrostItems(registry: seq<City>, items: seq<FrostItem>): (r: Option<seq<FrostRow>>)
    ensures r.Some? <==> forall i :: 0 <= i < |items| ==> FormatBrazilianDate(items[i].measured).Some?
    ensures r.Some? ==> |r.value| == |items|
    ensures r.Some? ==> forall i :: 0 <= i < |items| ==> r.value[i] == ShapeFrostItem(registry, items[i]).value
  {
    MapAll(item => ShapeFrostItem(registry, item), items)
  }

  /** The concatenation of the rows of every part; None as soon as one part fails. */
  function ConcatAll<T, U>(f: T -> Option<seq<U>>, parts: seq<T>): (r: Option<seq<U>>)
    ensures r.Some? <==> forall i :: 0 <= i < |parts| ==> f(parts[i]).Some?
    decreases |parts|
  {
    if parts == [] then Some([])
    else
      var first := f(parts[0]);
      var rest := ConcatAll(f, parts[1..]);
      assert forall i :: 1 <= i < |parts| ==> parts[i] == parts[1..][i - 1];
      if first.None? || rest.None? then None else Some(first.value + rest.value)
  }

  /** Parts' results follow each other in the parts' order. */
  lemma {:induction false} ConcatAllAppend<T, U>(f: T -> Option<seq<U>>, a: seq<T>, b: seq<T>)
    requires ConcatAll(f, a).Some? && ConcatAll(f, b).Some?
    ensures ConcatAll(f, a + b) == Some(ConcatAll(f, a).value + ConcatAll(f, b).value)
    decreases |a|
  {
    if a == [] {
      assert a + b == b;
      assert [] + ConcatAll(f, b).value == ConcatAll(f, b).value;
    } else {
      assert (a + b)[0] == a[0];
      assert (a + b)[1..] == a[1..] + b;
      ConcatAllAppend(f, a[1..], b);
      var first := f(a[0]).value;
      var x, y := ConcatAll(f, a[1..]).value, ConcatAll(f, b).value;
      assert first + (x + y) == (first + x) + y;
    }
  }

  /**
   * The whole run: the responses of the months visited, in order, shaped
   * and concatenated. A failed request answers with no records.
   */
  function ShapeFrostResponses(registry: seq<City>, responses: seq<seq<FrostItem>>): (r: Option<seq<FrostRow>>)
    ensures r.Some? <==> forall i, k :: 0 <= i < |responses| && 0 <= k < |responses[i]| ==>
      FormatBrazilianDate(responses[i][k].measured).Some?
  {
    ConcatAll(items => ShapeFrostItems(registry, items), responses)
  }

  /** Months' rows follow each other in the order the months were visited. */
  lemma ShapeFrostResponsesAppend(registry: seq<City>, a: seq<seq<FrostItem>>, b: seq<seq<FrostItem>>)
    requires ShapeFrostResponses(registry, a).Some? && ShapeFrostResponses(registry, b).Some?
    ensures ShapeFrostResponses(registry, a + b)
         == Some(ShapeFrostResponses(registry, a).value + ShapeFrostResponses(registry, b).value)
  {
    ConcatAllAppend(items => ShapeFrostItems(registry, items), a, b);
  }

  /** A single month's response gives exactly that month's rows. */
  lemma ShapeFrostResponsesSingle(registry: seq<City>, items: seq<FrostItem>)
    ensures ShapeFrostResponses(registry, [items]) == ShapeFrostItems(registry, items)
  {
    var f := (xs: seq<FrostItem>) => ShapeFrostItems(registry, xs);
    assert [items][0] == items && [items][1..] == [];
    assert ConcatAll(f, [items][1..]) == Some([]);
    if f(items).Some? {
      assert f(items).value + [] == f(items).value;
    }
  }

  // ----- request windows, month by month -----

  /** The first and last day of one month, as the request URL carries them. */
  datatype Window = Window(first: string, last: string)

  /** `primeiro_dia` and `ultimo_dia` for month `m` of year `y`. */
  function MonthWindow(y: int, m: int): (w: Window)
    requires 1 <= y && 1 <= m <= 12
  {
    Window(FormatIso(Date(y, m, 1)), FormatIso(Date(y, m, DaysInMonth(y, m))))
  }

  /**
   * A window covers its whole month: it reads back as the month's first and
   * last day, the two are one month length apart, and the next day starts
   * the following month.
   */
  lemma WindowCoversMonth(y: int, m: int)
    requires 1000 <= y <= 9999 && 1 <= m <= 12
    ensures var w := MonthWindow(y, m);
      && ParseIso(w.first) == Some(Date(y, m, 1))
      && ParseIso(w.last) == Some(Date(y, m, DaysInMonth(y, m)))
      && Ordinal(Date(y, m, DaysInMonth(y, m))) - Ordinal(Date(y, m, 1)) + 1 == DaysInMonth(y, m)
      && FirstOfNextMonth(Date(y, m, DaysInMonth(y, m))) == FirstOfNextMonth(Date(y, m, 1))
  {
    ParseFormatIso(Date(y, m, 1));
    ParseFormatIso(Date(y, m, DaysInMonth(y, m)));
  }

  /** February's window ends on the 29th exactly in leap years. */
  lemma FebruaryWindow(y: int)
    requires 1000 <= y <= 9999
    ensures ParseIso(MonthWindow(y, 2).last).Some?
    ensures ParseIso(MonthWindow(y, 2).last).value.day == 29 <==> IsLeap(y)
  {
    WindowCoversMonth(y, 2);
  }

  /** Months numbered consecutively across years: January of year `y` is `12 * y`. */
  function MonthIndex(y: int, m: int): int {
    12 * y + m - 1
  }

  /** The (year, month) of a month number. */
  function MonthOf(k: int): (r: (int, int))
    ensures 1 <= r.1 <= 12 && MonthIndex(r.0, r.1) == k
  {
    (k / 12, k % 12 + 1)
  }

  lemma MonthOfIndex(y: int, m: int)
    requires 1 <= m <= 12
    ensures MonthOf(MonthIndex(y, m)) == (y, m)
  {
    DivideByTwelve(MonthIndex(y, m), y, m - 1);
  }

  /** Euclidean division by 12 is unique. */
  lemma DivideByTwelve(k: int, q: int, r: int)
    requires k == 12 * q + r && 0 <= r < 12
    ensures k / 12 == q && k % 12 == r
  {
  }

  /** The months numbered `k` to `last`, in order. */
  function MonthsFrom(k: int, last: int): (r: seq<(int, int)>)
    ensures |r| == if k <= last then last - k + 1 else 0
    ensures forall i :: 0 <= i < |r| ==> r[i] == MonthOf(k + i)
    decreases last - k
  {
    if k > last then []
    else
      var rest := MonthsFrom(k + 1, last);
      assert forall i :: 1 <= i <= |rest| ==> ([MonthOf(k)] + rest)[i] == rest[i - 1];
      [MonthOf(k)] + rest
  }

  /**
   * The months the loop should request, and does for a start on the first
   * of a month: every month from the start's to today's, once each, in order.
   */
  function MonthsVisited(start: Date, today: Date): (r: seq<(int, int)>)
    requires Valid(start) && Valid(today)
    ensures var k, last := MonthIndex(start.year, start.month), MonthIndex(today.year, today.month);
      |r| == if k <= last then last - k + 1 else 0
    ensures |r| > 0 ==> r[0] == (start.year, start.month) && r[|r| - 1] == (today.year, today.month)
  {
    var k, last := MonthIndex(start.year, start.month), MonthIndex(today.year, today.month);
    var r := MonthsFrom(k, last);
    if k <= last then
      MonthOfIndex(start.year, start.month);
      MonthOfIndex(today.year, today.month);
      assert r[0] == MonthOf(k) && r[|r| - 1] == MonthOf(last);
      r
    else
      r
  }

  /** The months visited are consecutive: the `i`-th is `i` months after the start's. */
  lemma MonthsVisitedConsecutive(start: Date, today: Date)
    requires Valid(start) && Valid(today)
    ensures var r := MonthsVisited(start, today);
      forall i :: 0 <= i < |r| ==> r[i] == MonthOf(MonthIndex(start.year, start.month) + i)
  {
  }

  /**
   * The loop as written: request the month of `start`, then add that
   * month's length in days to `start`, while `start` is not after today.
   */
  function MonthsVisitedAsWritten(start: Date, today: Date): (r: seq<(int, int)>)
    requires Valid(start) && Valid(today)
    ensures |r| > 0 <==> LessEq(start, today)
    ensures |r| > 0 ==> r[0] == (start.year, start.month)
    ensures forall i :: 0 <= i < |r| ==>
      MonthIndex(start.year, start.month) <= MonthIndex(r[i].0, r[i].1) <= MonthIndex(today.year, today.month)
    ensures forall i :: 0 <= i < |r| ==> 1 <= r[i].1 <= 12
    decreases Ordinal(today) - Ordinal(start)
  {
    if !LessEq(start, today) then []
    else
      var next := AddDays(start, DaysInMonth(start.year, start.month));
      StepForward(start, next, today);
      var rest := MonthsVisitedAsWritten(next, today);
      ConsInRange((start.year, start.month), rest, MonthIndex(start.year, start.month), MonthIndex(today.year, today.month));
      ConsMonths((start.year, start.month), rest);
      [(start.year, start.month)] + rest
  }

  /** One step of the loop moves forward, and the month of a date not after today is not after today's. */
  lemma StepForward(start: Date, next: Date, today: Date)
    requires Valid(start) && Valid(next) && Valid(today) && LessEq(start, today)
    requires Ordinal(next) > Ordinal(start)
    ensures 0 <= Ordinal(today) - Ordinal(start)
    ensures Ordinal(today) - Ordinal(next) < Ordinal(today) - Ordinal(start)
    ensures MonthIndex(start.year, start.month) <= MonthIndex(next.year, next.month)
    ensures MonthIndex(start.year, start.month) <= MonthIndex(today.year, today.month)
  {
    LessEqIsOrdinalOrder(start, today);
    LessEqIsOrdinalOrder(start, next);
    LaterMonth(start, next);
    LaterMonth(start, today);
  }

  /** Prepending a real month to real months gives real months. */
  lemma ConsMonths(head: (int, int), rest: seq<(int, int)>)
    requires 1 <= head.1 <= 12
    requires forall i :: 0 <= i < |rest| ==> 1 <= rest[i].1 <= 12
    ensures forall i :: 0 <= i < |[head] + rest| ==> 1 <= ([head] + rest)[i].1 <= 12
  {
    forall i | 0 <= i < |[head] + rest|
      ensures 1 <= ([head] + rest)[i].1 <= 12
    {
      if i > 0 {
        assert ([head] + rest)[i] == rest[i - 1];
      }
    }
  }

  /** Prepending a month inside `lo..hi` to months inside `lo..hi` keeps them all inside. */
  lemma ConsInRange(head: (int, int), rest: seq<(int, int)>, lo: int, hi: int)
    requires lo <= MonthIndex(head.0, head.1) <= hi
    requires forall i :: 0 <= i < |rest| ==> lo <= MonthIndex(rest[i].0, rest[i].1) <= hi
    ensures forall i :: 0 <= i < |[head] + rest| ==>
      lo <= MonthIndex(([head] + rest)[i].0, ([head] + rest)[i].1) <= hi
  {
    forall i | 0 <= i < |[head] + rest|
      ensures lo <= MonthIndex(([head] + rest)[i].0, ([head] + rest)[i].1) <= hi
    {
      if i > 0 {
        assert ([head] + rest)[i] == rest[i - 1];
      }
    }
  }

  /** A date not after another is in a month not after the other's. */
  lemma LaterMonth(a: Date, b: Date)
    requires Valid(a) && Valid(b) && LessEq(a, b)
    ensures MonthIndex(a.year, a.month) <= MonthIndex(b.year, b.month)
  {
  }

  /**
   * The request windows of a run, one per month the loop as written visits:
   * there is at least one exactly when the start is not after today.
   */
  function FrostWindows(start: Date, today: Date): (r: seq<Window>)
    requires Valid(start) && Valid(today)
    ensures |r| == |MonthsVisitedAsWritten(start, today)|
    ensures |r| > 0 <==> LessEq(start, today)
  {
    var months := MonthsVisitedAsWritten(start, today);
    seq(|months|, i requires 0 <= i < |months| => MonthWindow(months[i].0, months[i].1))
  }

  /**
   * Window `i` of a run reads back as the first and the last day of the
   * `i`-th month visited; the first window is the start's month.
   */
  lemma FrostWindowReadsBack(start: Date, today: Date, i: int)
    requires Valid(start) && Valid(today) && 1000 <= start.year && today.year <= 9999
    requires 0 <= i < |FrostWindows(start, today)|
    ensures var (y, m) := MonthsVisitedAsWritten(start, today)[i];
      && ParseIso(FrostWindows(start, today)[i].first) == Some(Date(y, m, 1))
      && ParseIso(FrostWindows(start, today)[i].last) == Some(Date(y, m, DaysInMonth(y, m)))
    ensures i == 0 ==> ParseIso(FrostWindows(start, today)[0].first) == Some(Date(start.year, start.month, 1))
  {
    var (y, m) := MonthsVisitedAsWritten(start, today)[i];
    assert start.year <= y <= today.year;
    WindowCoversMonth(y, m);
  }

  /** From the first of a month the loop as written visits exactly the intended months. */
  lemma {:induction false} AsWrittenFromFirstDay(start: Date, today: Date)
    requires Valid(start) && Valid(today) && start.day == 1
    ensures MonthsVisitedAsWritten(start, today) == MonthsVisited(start, today)
    decreases Ordinal(today) - Ordinal(start)
  {
    if LessEq(start, today) {
      var next := AddDays(start, DaysInMonth(start.year, start.month));
      StepForward(start, next, today);
      AddMonthLengthToFirst(start);
      AsWrittenFromFirstDay(next, today);
      VisitedFromNextMonth(start, today);
    } else {
      LaterMonthFromFirst(start, today);
    }
  }

  /** Starting on the first of a month, the intended months are that month and those from the next month's first. */
  lemma VisitedFromNextMonth(start: Date, today: Date)
    requires Valid(start) && Valid(today) && start.day == 1 && LessEq(start, today)
    ensures MonthsVisited(start, today)
         == [(start.year, start.month)] + MonthsVisited(FirstOfNextMonth(start), today)
  {
    var k, last := MonthIndex(start.year, start.month), MonthIndex(today.year, today.month);
    var next := FirstOfNextMonth(start);
    LaterMonth(start, today);
    assert MonthIndex(next.year, next.month) == k + 1;
    MonthOfIndex(start.year, start.month);
    assert MonthsFrom(k, last) == [MonthOf(k)] + MonthsFrom(k + 1, last);
  }

  /** From the first of a month, a start after today lies in a later month. */
  lemma LaterMonthFromFirst(start: Date, today: Date)
    requires Valid(start) && Valid(today) && start.day == 1 && !LessEq(start, today)
    ensures MonthIndex(today.year, today.month) < MonthIndex(start.year, start.month)
  {
  }

  /**
   * From the last day of January the loop as written steps 31 days to
   * 3 March and never requests February; the intended loop does.
   */
  lemma AsWrittenSkipsFebruary()
    ensures MonthsVisitedAsWritten(Date(2017, 1, 31), Date(2017, 3, 31)) == [(2017, 1), (2017, 3)]
    ensures MonthsVisited(Date(2017, 1, 31), Date(2017, 3, 31)) == [(2017, 1), (2017, 2), (2017, 3)]
  {
    AsWrittenFromJanuaryLast();
    IntendedFromJanuaryLast();
  }

  lemma AsWrittenFromJanuaryLast()
    ensures MonthsVisitedAsWritten(Date(2017, 1, 31), Date(2017, 3, 31)) == [(2017, 1), (2017, 3)]
  {
    JanuaryLastRun(Date(2017, 1, 31), Date(2017, 3, 3), Date(2017, 4, 3), Date(2017, 3, 31));
  }

  /** The run from 31 January, one loop step at a time: 3 March, then 3 April is past today. */
  lemma JanuaryLastRun(a: Date, b: Date, c: Date, today: Date)
    requires a == Date(2017, 1, 31) && b == Date(2017, 3, 3) && c == Date(2017, 4, 3)
    requires today == Date(2017, 3, 31)
    ensures MonthsVisitedAsWritten(a, today) == [(2017, 1), (2017, 3)]
  {
    JanuaryLastPlusMonth();
    MarchThirdPlusMonth();
    AsWrittenStep(a, today);
    AsWrittenStep(b, today);
    assert MonthsVisitedAsWritten(c, today) == [];
  }

  /** One turn of the loop as written: request the start's month, then go on from a month length later. */
  lemma AsWrittenStep(start: Date, today: Date)
    requires Valid(start) && Valid(today) && LessEq(start, today)
    ensures MonthsVisitedAsWritten(start, today)
         == [(start.year, start.month)] + MonthsVisitedAsWritten(AddDays(start, DaysInMonth(start.year, start.month)), today)
  {
  }

  lemma IntendedFromJanuaryLast()
    ensures MonthsVisited(Date(2017, 1, 31), Date(2017, 3, 31)) == [(2017, 1), (2017, 2), (2017, 3)]
  {
    MonthOfIndex(2017, 1);
    MonthOfIndex(2017, 2);
    MonthOfIndex(2017, 3);
  }

  lemma JanuaryLastPlusMonth()
    ensures AddDays(Date(2017, 1, 31), 31) == Date(2017, 3, 3)
  {
    FebruaryFirstPlus(Date(2017, 2, 1));
  }

  lemma FebruaryFirstPlus(d: Date)
    requires d == Date(2017, 2, 1)
    ensures AddDays(d, 30) == Date(2017, 3, 3)
  {
    assert DaysInMonth(2017, 2) == 28;
    assert AddDays(Date(2017, 3, 1), 2) == Date(2017, 3, 3);
  }

  lemma MarchThirdPlusMonth()
    ensures AddDays(Date(2017, 3, 3), 31) == Date(2017, 4, 3)
  {
  }

  /**
   * From the middle of January the loop as written reaches 15 March after
   * today's date, 10 March, and never requests the current month.
   */
  lemma AsWrittenMissesCurrentMonth()
    ensures MonthsVisitedAsWritten(Date(2017, 1, 15), Date(2017, 3, 10)) == [(2017, 1), (2017, 2)]
    ensures |MonthsVisited(Date(2017, 1, 15), Date(2017, 3, 10))| == 3
  {
    assert AddDays(Date(2017, 1, 15), 31) == Date(2017, 2, 15);
    assert AddDays(Date(2017, 2, 15), 28) == Date(2017, 3, 15);
    assert MonthsVisitedAsWritten(Date(2017, 3, 15), Date(2017, 3, 10)) == [];
  }
}
