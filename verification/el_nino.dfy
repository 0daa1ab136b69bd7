/**
 * The Oceanic Niño Index classifier (`scripts/scraping_el_nino.py`): which
 * table rows are kept, which three overlapping seasons make up each month,
 * the mean of their anomalies, and the El Niño / La Niña label with its
 * strength.
 *
 * Anomalies are exact reals.
 */
module ElNino {
  import opened Wrappers
  import opened Text

  // ----- classification -----

  datatype Phenomenon = ElNino | LaNina | Neutral
  datatype Strength = Weak | Moderate | Strong | Unrated

  function PhenomenonLabel(p: Phenomenon): string {
    match p
    case ElNino => "El Ni\U{F1}o"
    case LaNina => "La Ni\U{F1}a"
    case Neutral => "Neutro"
  }

  function StrengthLabel(s: Strength): string {
    match s
    case Weak => "Fraco"
    case Moderate => "Moderado"
    case Strong => "Forte"
    case Unrated => "Neutro"
  }

  /** Strength as a number: Fraco < Moderado < Forte. */
  function Rank(s: Strength): int {
    match s
    case Unrated => 0
    case Weak => 1
    case Moderate => 2
    case Strong => 3
  }

  /** The opposite phenomenon; Neutral is its own opposite. */
  function Opposite(p: Phenomenon): Phenomenon {
    match p
    case ElNino => LaNina
    case LaNina => ElNino
    case Neutral => Neutral
  }

  /**
   * `classificar_fenomeno(media)`: above 0.5 El Niño, below -0.5 La Niña,
   * otherwise neutral; the strength is Forte from 1.5 in size, Moderado from
   * 1.0, Fraco below.
   */
  function Classify(mean: real): (r: (Phenomenon, Strength))
    ensures r.0 == ElNino <==> mean > 0.5
    ensures r.0 == LaNina <==> mean < -0.5
    ensures r.0 == Neutral <==> r.1 == Unrated
    ensures r.1 == Strong <==> mean >= 1.5 || mean <= -1.5
    ensures r.1 == Moderate <==> (1.0 <= mean < 1.5) || (-1.5 < mean <= -1.0)
    ensures r.1 == Weak <==> (0.5 < mean < 1.0) || (-1.0 < mean < -0.5)
  {
    if mean > 0.5 then
      if mean >= 1.5 then (ElNino, Strong)
      else if mean >= 1.0 then (ElNino, Moderate)
      else (ElNino, Weak)
    else if mean < -0.5 then
      if mean <= -1.5 then (LaNina, Strong)
      else if mean <= -1.0 then (LaNina, Moderate)
      else (LaNina, Weak)
    else (Neutral, Unrated)
  }

  /** Mirror symmetry: negating the mean swaps the phenomenon and keeps the strength. */
  lemma ClassifyMirror(mean: real)
    ensures Classify(-mean) == (Opposite(Classify(mean).0), Classify(mean).1)
  {
  }

  /** Within one phenomenon, a mean further from zero is never weaker. */
  lemma StrengthMonotone(a: real, b: real)
    requires (0.0 <= a <= b) || (b <= a <= 0.0)
    ensures Rank(Classify(a).1) <= Rank(Classify(b).1)
    ensures Classify(a).0 != Neutral ==> Classify(b).0 == Classify(a).0
  {
  }

  /** The edges: ±0.5 are neutral, 1.0 is moderate, 1.5 is strong, on both sides. */
  lemma ClassifyBoundaries()
    ensures Classify(0.5) == (Neutral, Unrated) && Classify(-0.5) == (Neutral, Unrated)
    ensures Classify(1.0) == (ElNino, Moderate) && Classify(-1.0) == (LaNina, Moderate)
    ensures Classify(1.5) == (ElNino, Strong) && Classify(-1.5) == (LaNina, Strong)
    ensures forall m :: -0.5 <= m <= 0.5 ==> Classify(m) == (Neutral, Unrated)
  {
  }

  // ----- seasons and months -----

  /** The twelve overlapping three-month seasons of the index, December-January-February first. */
  datatype Season = DJF | JFM | FMA | MAM | AMJ | MJJ | JJA | JAS | ASO | SON | OND | NDJ

  /** The seasons in column order. */
  const Seasons: seq<Season> := [DJF, JFM, FMA, MAM, AMJ, MJJ, JJA, JAS, ASO, SON, OND, NDJ]

  /** The table's header, `Year` followed by the seasons (`create_dataframe`). */
  const Columns: seq<string> :=
    ["Year", "DJF", "JFM", "FMA", "MAM", "AMJ", "MJJ", "JJA", "JAS", "ASO", "SON", "OND", "NDJ"]

  function SeasonName(s: Season): string {
    match s
    case DJF => "DJF" case JFM => "JFM" case FMA => "FMA" case MAM => "MAM"
    case AMJ => "AMJ" case MJJ => "MJJ" case JJA => "JJA" case JAS => "JAS"
    case ASO => "ASO" case SON => "SON" case OND => "OND" case NDJ => "NDJ"
  }

  /** A season's position in the column order. */
  function SeasonIndex(s: Season): (k: nat)
    ensures k < 12 && Seasons[k] == s
  {
    match s
    case DJF => 0 case JFM => 1 case FMA => 2 case MAM => 3
    case AMJ => 4 case MJJ => 5 case JJA => 6 case JAS => 7
    case ASO => 8 case SON => 9 case OND => 10 case NDJ => 11
  }

  /** Column order and season positions agree both ways, and the header names each season's column. */
  lemma SeasonsInColumnOrder()
    ensures |Seasons| == 12 && |Columns| == 13 && Columns[0] == "Year"
    ensures forall k :: 0 <= k < 12 ==> SeasonIndex(Seasons[k]) == k
    ensures forall s :: Columns[1 + SeasonIndex(s)] == SeasonName(s)
  {
  }

  /** The month names in calendar order, as `analisar_ano` walks them. */
  const MonthNames: seq<string> :=
    ["Janeiro", "Fevereiro", "Mar\U{E7}o", "Abril", "Maio", "Junho",
     "Julho", "Agosto", "Setembro", "Outubro", "Novembro", "Dezembro"]

  /** The month `i` (0 for January) is centred on season `i`, between the seasons before and after it. */
  function Triple(i: int): (t: seq<Season>)
    requires 0 <= i < 12
    ensures |t| == 3
  {
    [Seasons[(i + 11) % 12], Seasons[i], Seasons[(i + 1) % 12]]
  }

  /** `obter_trimestres_para_mes`'s table, month name to its three seasons. */
  const TripleTable: map<string, seq<Season>> :=
    map[
      "Janeiro" := [NDJ, DJF, JFM],
      "Fevereiro" := [DJF, JFM, FMA],
      "Mar\U{E7}o" := [JFM, FMA, MAM],
      "Abril" := [FMA, MAM, AMJ],
      "Maio" := [MAM, AMJ, MJJ],
      "Junho" := [AMJ, MJJ, JJA],
      "Julho" := [MJJ, JJA, JAS],
      "Agosto" := [JJA, JAS, ASO],
      "Setembro" := [JAS, ASO, SON],
      "Outubro" := [ASO, SON, OND],
      "Novembro" := [SON, OND, NDJ],
      "Dezembro" := [OND, NDJ, DJF]
    ]

  /** `obter_trimestres_para_mes(mes)`; None is the KeyError for any other text. */
  function TriplesForMonth(name: string): (r: Option<seq<Season>>)
    ensures r.Some? <==> name in TripleTable
  {
    if name in TripleTable then Some(TripleTable[name]) else None
  }

  /** The table holds exactly the twelve month names, and month `i`'s entry is `Triple(i)`. */
  lemma TripleTableIsCyclic()
    ensures forall i :: 0 <= i < 12 ==> MonthNames[i] in TripleTable && TripleTable[MonthNames[i]] == Triple(i)
    ensures forall name :: name in TripleTable <==> name in MonthNames
  {
    assert Triple(0) == [NDJ, DJF, JFM];
    assert Triple(11) == [OND, NDJ, DJF];
  }

  /** Any text that is not one of the twelve month names has no seasons. */
  lemma UnknownMonth(name: string)
    requires name !in MonthNames
    ensures TriplesForMonth(name) == None
  {
    TripleTableIsCyclic();
  }

  /** Consecutive months (December to January included) share the last two and first two seasons. */
  lemma AdjacentMonthsOverlap(i: int)
    requires 0 <= i < 12
    ensures Triple(i)[1..] == Triple((i + 1) % 12)[..2]
    ensures Triple(i)[0] !in Triple((i + 1) % 12)
  {
    var j := (i + 1) % 12;
    var first := Seasons[(i + 11) % 12];
    Wrap(i);
    Wrap(j);
    assert Triple(i)[1..] == [Seasons[i], Seasons[j]];
    InThree(first, Seasons[i], Seasons[j], Seasons[(j + 1) % 12]);
    SeasonAt(first, i);
    SeasonAt(first, j);
    SeasonAt(first, (j + 1) % 12);
    SeasonAt(first, (i + 11) % 12);
  }

  /** No two months share their triple: the middle seasons differ. */
  lemma TriplesDistinct(i: int, j: int)
    requires 0 <= i < 12 && 0 <= j < 12 && i != j
    ensures Triple(i) != Triple(j)
  {
    if Triple(i) == Triple(j) {
      assert Seasons[i] == Triple(i)[1] == Triple(j)[1] == Seasons[j];
      SeasonsDistinct(i, j);
    }
  }

  /** Month indices `k - 1`, `k`, `k + 1` around a season, wrapping at the year's ends. */
  predicate AroundSeason(s: Season, i: int) {
    var k := SeasonIndex(s);
    i == (k + 11) % 12 || i == k || i == (k + 1) % 12
  }

  /** Different positions hold different seasons. */
  lemma SeasonsDistinct(a: int, b: int)
    requires 0 <= a < 12 && 0 <= b < 12 && Seasons[a] == Seasons[b]
    ensures a == b
  {
    SeasonsInColumnOrder();
    assert SeasonIndex(Seasons[a]) == a && SeasonIndex(Seasons[b]) == b;
  }

  /** Stepping a month back or forward, wrapping at the year's ends. */
  lemma Wrap(i: int)
    requires 0 <= i < 12
    ensures (i + 1) % 12 == (if i == 11 then 0 else i + 1)
    ensures (i + 11) % 12 == (if i == 0 then 11 else i - 1)
  {
  }

  lemma PreviousMonth(i: int, k: int)
    requires 0 <= i < 12 && 0 <= k < 12
    ensures (i + 11) % 12 == k <==> i == (k + 1) % 12
    ensures (i + 1) % 12 == k <==> i == (k + 11) % 12
  {
    Wrap(i);
    Wrap(k);
  }

  /** The months before, at and after a position are three different months. */
  lemma ThreeApart(k: int)
    requires 0 <= k < 12
    ensures (k + 11) % 12 != k && k != (k + 1) % 12 && (k + 11) % 12 != (k + 1) % 12
  {
    Wrap(k);
  }

  /** A season sits at its own index and nowhere else. */
  lemma SeasonAt(s: Season, x: int)
    requires 0 <= x < 12
    ensures Seasons[x] == s <==> x == SeasonIndex(s)
  {
    if Seasons[x] == s {
      SeasonsDistinct(x, SeasonIndex(s));
    }
  }

  lemma InThree<T>(x: T, a: T, b: T, c: T)
    ensures x in [a, b, c] <==> x == a || x == b || x == c
  {
    assert [a, b, c][0] == a && [a, b, c][1] == b && [a, b, c][2] == c;
  }

  /** Each season enters exactly the months around it: three distinct months. */
  lemma SeasonInThreeMonths(s: Season, i: int)
    requires 0 <= i < 12
    ensures s in Triple(i) <==> AroundSeason(s, i)
    ensures var k := SeasonIndex(s); (k + 11) % 12 != k && k != (k + 1) % 12 && (k + 11) % 12 != (k + 1) % 12
  {
    var k := SeasonIndex(s);
    var before, after := (i + 11) % 12, (i + 1) % 12;
    assert Triple(i) == [Seasons[before], Seasons[i], Seasons[after]];
    InThree(s, Seasons[before], Seasons[i], Seasons[after]);
    SeasonAt(s, before);
    SeasonAt(s, i);
    SeasonAt(s, after);
    PreviousMonth(i, k);
    ThreeApart(k);
  }

  // ----- the index table -----

  /** The twelve season anomalies of one year, in column order. */
  type Anomalies = s: seq<real> | |s| == 12
    witness [0.0, 0.0, 0.0, 0.0, 0.0, 0.0, 0.0, 0.0, 0.0, 0.0, 0.0, 0.0]

  /** One row of the frame: the `Year` cell as text and the season anomalies. */
  datatype OniRow = OniRow(year: string, anomalies: Anomalies)

  function Anomaly(row: OniRow, s: Season): real {
    row.anomalies[SeasonIndex(s)]
  }

  /** `calcular_media_mes`: the mean of a row's anomalies over three seasons. */
  function MeanOf(row: OniRow, seasons: seq<Season>): real
    requires |seasons| == 3
  {
    (Anomaly(row, seasons[0]) + Anomaly(row, seasons[1]) + Anomaly(row, seasons[2])) / 3.0
  }

  /** One line of the result frame: `[Ano, Mês, Fenômeno, Intensidade]`. */
  datatype MonthResult = MonthResult(year: string, month: string, phenomenon: Phenomenon, strength: Strength)

  /** What month `i` of `row` should read, with the seasons taken from the cyclic layout. */
  function Expected(row: OniRow, i: int): MonthResult
    requires 0 <= i < 12
  {
    var c := Classify(MeanOf(row, Triple(i)));
    MonthResult(row.year, MonthNames[i], c.0, c.1)
  }

  /** Month `m`'s entry in the table is its cyclic triple. */
  lemma MonthSeasons(m: int)
    requires 0 <= m < 12
    ensures TriplesForMonth(MonthNames[m]) == Some(Triple(m))
  {
    TripleTableIsCyclic();
  }

  /** `out` holds the results of the first `|out|` (row, month) pairs in row-major order. */
  ghost predicate AnalyzedPrefix(rows: seq<OniRow>, out: seq<MonthResult>) {
    && |out| <= 12 * |rows|
    && forall k :: 0 <= k < |out| ==> out[k] == Expected(rows[k / 12], k % 12)
  }

  lemma ExtendAnalyzed(rows: seq<OniRow>, out: seq<MonthResult>, r: int, m: int)
    requires 0 <= r < |rows| && 0 <= m < 12 && |out| == 12 * r + m
    requires AnalyzedPrefix(rows, out)
    ensures AnalyzedPrefix(rows, out + [Expected(rows[r], m)])
  {
    var next := out + [Expected(rows[r], m)];
    forall k | 0 <= k < |next|
      ensures next[k] == Expected(rows[k / 12], k % 12)
    {
      if k == |out| {
        assert k / 12 == r && k % 12 == m;
      } else {
        assert next[k] == out[k];
      }
    }
  }

  /**
   * `analisar_ano(df)`: for each row in order, the twelve months in calendar
   * order, each classified by the mean of its own three seasons from the table.
   */
  method AnalyzeYears(rows: seq<OniRow>) returns (out: seq<MonthResult>)
    ensures |out| == 12 * |rows|
    ensures forall k :: 0 <= k < |out| ==> out[k] == Expected(rows[k / 12], k % 12)
  {
    out := [];
    var r := 0;
    while r < |rows|
      invariant 0 <= r <= |rows|
      invariant |out| == 12 * r
      invariant AnalyzedPrefix(rows, out)
    {
      var m := 0;
      while m < 12
        invariant 0 <= m <= 12
        invariant |out| == 12 * r + m
        invariant AnalyzedPrefix(rows, out)
      {
        var name := MonthNames[m];
        MonthSeasons(m);
        var seasons := TriplesForMonth(name).value;
        var c := Classify(MeanOf(rows[r], seasons));
        ExtendAnalyzed(rows, out, r, m);
        out := out + [MonthResult(rows[r].year, name, c.0, c.1)];
        m := m + 1;
      }
      r := r + 1;
    }
  }

  /** The mean of three seasons lies between the smallest and the largest anomaly. */
  lemma MeanBetween(row: OniRow, seasons: seq<Season>, lo: real, hi: real)
    requires |seasons| == 3
    requires forall j :: 0 <= j < 3 ==> lo <= Anomaly(row, seasons[j]) <= hi
    ensures lo <= MeanOf(row, seasons) <= hi
  {
    assert lo <= Anomaly(row, seasons[0]) <= hi;
    assert lo <= Anomaly(row, seasons[1]) <= hi;
    assert lo <= Anomaly(row, seasons[2]) <= hi;
  }

  /** A year whose every anomaly stays within ±0.5 is neutral in every month. */
  lemma NeutralYear(row: OniRow, i: int)
    requires 0 <= i < 12
    requires forall k :: 0 <= k < 12 ==> -0.5 <= row.anomalies[k] <= 0.5
    ensures Expected(row, i).phenomenon == Neutral && Expected(row, i).strength == Unrated
  {
    MeanBetween(row, Triple(i), -0.5, 0.5);
  }

  /** A year whose every anomaly is at least 1.5 is a strong El Niño in every month. */
  lemma StrongElNinoYear(row: OniRow, i: int)
    requires 0 <= i < 12
    requires forall k :: 0 <= k < 12 ==> 1.5 <= row.anomalies[k]
    ensures Expected(row, i).phenomenon == ElNino && Expected(row, i).strength == Strong
  {
    var hi := Anomaly(row, Triple(i)[0]) + Anomaly(row, Triple(i)[1]) + Anomaly(row, Triple(i)[2]);
    MeanBetween(row, Triple(i), 1.5, hi);
  }

  /** January averages NDJ, DJF and JFM of the same row: 1.2, 1.8 and 1.9 make a strong El Niño. */
  lemma JanuaryExample(row: OniRow)
    requires row.anomalies[11] == 1.2 && row.anomalies[0] == 1.8 && row.anomalies[1] == 1.9
    ensures Expected(row, 0) == MonthResult(row.year, "Janeiro", ElNino, Strong)
  {
    assert Triple(0) == [NDJ, DJF, JFM];
    assert MeanOf(row, Triple(0)) == (1.2 + 1.8 + 1.9) / 3.0;
  }

  // ----- table extraction -----

  /** A cell text as it is kept: stripped and non-empty. */
  predicate IsClean(c: string) {
    c != [] && Strip(c) == c
  }

  /** The stripped texts of a row's cells, blank cells dropped, in order. */
  function CleanCells(cells: seq<string>): (r: seq<string>)
    ensures |r| <= |cells|
    ensures forall j :: 0 <= j < |r| ==> IsClean(r[j])
  {
    if cells == [] then []
    else
      var rest := CleanCells(cells[1..]);
      var c := Strip(cells[0]);
      if c == [] then rest
      else
        StripIdempotent(cells[0]);
        ConsClean(c, rest);
        [c] + rest
  }

  lemma ConsClean(c: string, rest: seq<string>)
    requires IsClean(c) && forall j :: 0 <= j < |rest| ==> IsClean(rest[j])
    ensures forall j :: 0 <= j < |[c] + rest| ==> IsClean(([c] + rest)[j])
  {
    forall j | 0 <= j < |[c] + rest|
      ensures IsClean(([c] + rest)[j])
    {
      if j > 0 {
        assert ([c] + rest)[j] == rest[j - 1];
      }
    }
  }

  /** Every non-blank cell is kept, in stripped form. */
  lemma {:induction false} CleanCellsKeeps(cells: seq<string>, k: int)
    requires 0 <= k < |cells| && Strip(cells[k]) != []
    ensures Strip(cells[k]) in CleanCells(cells)
    decreases k
  {
    if k > 0 {
      CleanCellsKeeps(cells[1..], k - 1);
      assert cells[1..][k - 1] == cells[k];
    }
  }

  /** Cleaning works cell by cell: it distributes over concatenation, so page order is kept. */
  lemma {:induction false} CleanCellsAppend(a: seq<string>, b: seq<string>)
    ensures CleanCells(a + b) == CleanCells(a) + CleanCells(b)
    decreases |a|
  {
    if a == [] {
      assert a + b == b;
    } else {
      assert (a + b)[0] == a[0];
      assert (a + b)[1..] == a[1..] + b;
      CleanCellsAppend(a[1..], b);
    }
  }

  /** A single cell survives, stripped, exactly when it is not blank. */
  lemma CleanCellsSingle(c: string)
    ensures CleanCells([c]) == if Strip(c) == [] then [] else [Strip(c)]
  {
    assert [c][1..] == [];
  }

  /** A row is kept when its first non-blank cell is all digits: a year. */
  predicate IsYearRow(cols: seq<string>) {
    cols != [] && IsDigitString(cols[0])
  }

  /** `f` applied to each element in order, the results concatenated. */
  function FlatMap<T, U>(f: T -> seq<U>, xs: seq<T>): (r: seq<U>)
    ensures (forall i :: 0 <= i < |xs| ==> |f(xs[i])| <= 1) ==> |r| <= |xs|
    decreases |xs|
  {
    if xs == [] then []
    else
      assert forall i :: 1 <= i < |xs| ==> xs[1..][i - 1] == xs[i];
      f(xs[0]) + FlatMap(f, xs[1..])
  }

  /** FlatMap distributes over concatenation. */
  lemma {:induction false} FlatMapAppend<T, U>(f: T -> seq<U>, a: seq<T>, b: seq<T>)
    ensures FlatMap(f, a + b) == FlatMap(f, a) + FlatMap(f, b)
    decreases |a|
  {
    if a == [] {
      assert a + b == b;
    } else {
      assert (a + b)[0] == a[0];
      assert (a + b)[1..] == a[1..] + b;
      FlatMapAppend(f, a[1..], b);
    }
  }

  /** Whatever holds of every piece holds of every element of the concatenation. */
  lemma {:induction false} FlatMapAll<T, U>(f: T -> seq<U>, xs: seq<T>, p: U -> bool)
    requires forall i, k :: 0 <= i < |xs| && 0 <= k < |f(xs[i])| ==> p(f(xs[i])[k])
    ensures forall j :: 0 <= j < |FlatMap(f, xs)| ==> p(FlatMap(f, xs)[j])
    decreases |xs|
  {
    if xs != [] {
      assert forall i :: 1 <= i < |xs| ==> xs[1..][i - 1] == xs[i];
      FlatMapAll(f, xs[1..], p);
      var h, t := f(xs[0]), FlatMap(f, xs[1..]);
      assert forall j :: |h| <= j < |h| + |t| ==> (h + t)[j] == t[j - |h|];
    }
  }

  /**
   * `extract_table_data`: the cleaned rows that start with a year, in page
   * order. Every extracted row starts with an all-digit cell, and its cells
   * are stripped and non-empty.
   */
  function ExtractTableData(rows: seq<seq<string>>): (r: seq<seq<string>>)
    ensures |r| <= |rows|
    ensures forall j :: 0 <= j < |r| ==> KeptRow(r[j])
  {
    FlatMapAll(Kept, rows, KeptRow);
    FlatMap(Kept, rows)
  }

  /** What one row contributes: its cleaned cells when they start with a year, else nothing. */
  function Kept(row: seq<string>): (r: seq<seq<string>>)
    ensures |r| <= 1
    ensures forall j :: 0 <= j < |r| ==> KeptRow(r[j])
  {
    var cols := CleanCells(row);
    if IsYearRow(cols) then [cols] else []
  }

  /** A row as it is kept: starting with a year, all its cells stripped and non-empty. */
  predicate KeptRow(cols: seq<string>) {
    IsYearRow(cols) && forall k :: 0 <= k < |cols| ==> IsClean(cols[k])
  }

  /** Extraction works row by row: it distributes over concatenation, so page order is kept. */
  lemma ExtractAppend(a: seq<seq<string>>, b: seq<seq<string>>)
    ensures ExtractTableData(a + b) == ExtractTableData(a) + ExtractTableData(b)
  {
    FlatMapAppend(Kept, a, b);
  }

  /** A single row survives, cleaned, exactly when its first non-blank cell is a year. */
  lemma ExtractSingle(row: seq<string>)
    ensures ExtractTableData([row]) == if IsYearRow(CleanCells(row)) then [CleanCells(row)] else []
  {
    assert [row][1..] == [];
  }
}
