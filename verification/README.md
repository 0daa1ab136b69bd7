# Agro-climate scrapers: a Dafny model

This project models the decision logic of four Python scrapers that gather
Brazilian agro-climate data:

- the soil-workability scraper (`scripts/scraping_dias_aptos.py`), which ties each INMET weather station to an IBGE municipality code;
- the El Niño / La Niña classifier (`scripts/scraping_el_nino.py`), which turns the Oceanic Niño Index table into a phenomenon and strength per month;
- the frost scraper (`scripts/scraping_geadas.py`), which rates the intensity of each frost record and formats it, month by month from a start date to today;
- the historical-data downloader (`scripts/scraping_historico.py`), which picks the archive links from the INMET listing page and decides where each archive goes.

Modules:

| file | module | what it holds |
|---|---|---|
| wrappers.dfy | Wrappers | `Option` |
| text.dfy | Text | Python `str` operations: `strip`, `split(...)[0]`, `split(...)[-1]`, `startswith`, `endswith`, `in`, `replace`, `isdigit`, `title`, digit strings |
| normalize.dfy | Normalization | `unidecode(s).lower()` for the characters À–ÿ |
| municipalities.dfy | Municipalities | `buscar_id_por_nome`, shared by the two scrapers that define it |
| numbers.dfy | Numbers | Python's `float(str)` as a parser to finite reals, infinities and NaN |
| calendar.dfy | Calendar | Gregorian dates, `strptime("%Y-%m-%d")`, `strftime`, `timedelta` |
| dias_aptos.dfy | DiasAptos | the station tables, the three-tier municipality resolution, practice labels |
| el_nino.dfy | ElNino | thresholds, season/month table, `analisar_ano`, the row filter |
| geadas.dfy | Geadas | intensity, temperature and date rendering, record shaping, the month loop |
| historico.dfy | Historico | link selection, file stem, URL completion, save and extraction paths |

Numbers are exact: anomalies and temperatures are reals, and integers are unbounded. No value in these
scripts wraps around. Python's `float` is modelled as finite, infinite or NaN wherever the source parses text.

## Model

| member | source | states |
|---|---|---|
| Municipalities.FindIdByName | scripts/scraping_dias_aptos.py:109-119 | None exactly when no registry entry matches after normalisation; otherwise the id of the first match in list order |
| Municipalities.FindIdByNameFirst | scripts/scraping_dias_aptos.py:114-117 | the lookup answers with entry i's id exactly when i is the first matching entry |
| Municipalities.FindOwnName | scripts/scraping_dias_aptos.py:114-117 | round trip: an entry's own name finds its id unless an earlier entry has the same normal form |
| Municipalities.FindIgnoresSpelling | scripts/scraping_dias_aptos.py:112-116 | queries with the same normal form (differing in case or accents) get the same answer |
| Municipalities.FindInEmptyRegistry | scripts/scraping_dias_aptos.py:114-119 | an empty registry resolves nothing |
| Normalization.Normalize | scripts/scraping_dias_aptos.py:112-115 | the normal form has no ASCII capital and no character in À–ÿ |
| Normalization.NormalizeIdempotent | scripts/scraping_dias_aptos.py:112-115 | normalising twice is normalising once |
| Normalization.FoldIgnoresCase | scripts/scraping_dias_aptos.py:112-115 | upper- or lower-casing a character never changes its normal form |
| Normalization.NormalizeExample | scripts/scraping_dias_aptos.py:112-115 | "São Paulo" and "Sao Paulo" both normalise to "sao paulo" |
| Normalization.NormalizeTitle | scripts/scraping_geadas.py:125-130 | title-casing a name does not change its normal form |
| DiasAptos.BareName | scripts/scraping_dias_aptos.py:191 | the bare station name has no `(` and no surrounding whitespace; a name without `(` is just stripped |
| DiasAptos.BareNameIgnoresSuffix | scripts/scraping_dias_aptos.py:191 | a parenthesised suffix does not change the bare name |
| DiasAptos.ResolveByAlias | scripts/scraping_dias_aptos.py:193-196 | unresolved exactly when the alias target (or the default text) has no truthy registry id and is no override key; otherwise the registry id, falling back to the override |
| DiasAptos.ResolveStation | scripts/scraping_dias_aptos.py:191-196 | the station is unresolved exactly when the bare name and the alias target both miss the registry (or find a falsy id) and the alias target has no override; the first tier with a truthy id decides, else the override; a result of 0 can only come from the override table |
| DiasAptos.ResolveOwnName | scripts/scraping_dias_aptos.py:191-196 | round trip through the whole chain: a station whose bare name is spelt like a registry entry with a truthy id, and no earlier entry of the same normal form, resolves to that id whatever the alias and override tables hold |
| DiasAptos.BareNameWins | scripts/scraping_dias_aptos.py:191-193 | once the bare name resolves, changing the alias and override tables changes nothing |
| DiasAptos.AliasOnlyByFullName | scripts/scraping_dias_aptos.py:193 | only the alias entry under the full, unstripped station name matters |
| DiasAptos.ZeroIdFallsThrough | scripts/scraping_dias_aptos.py:192-195 | a registry id of 0 is falsy and falls through to the alias tiers |
| DiasAptos.UnknownStationUnresolved | scripts/scraping_dias_aptos.py:193-196 | a station with no alias and no registry match stays unresolved, as the default text is no override key |
| DiasAptos.SantanaDoLivramento | scripts/scraping_dias_aptos.py:191-196 | "SANTANA DO LIVRAMENTO (A) - RS" resolves to 430016 through its alias and the override table when the registry does not know the name |
| DiasAptos.ResolvedByOverride | scripts/scraping_dias_aptos.py:193-196 | with no registry match under the bare name or the alias target, the override entry of the target is the answer |
| DiasAptos.AliasTargetsAvoid | scripts/scraping_dias_aptos.py:21-89 | no alias target is spelt "São Luiz do Paraitinga" |
| DiasAptos.UnreachableOverride | scripts/scraping_dias_aptos.py:91-95 | the override "São Luiz do Paraitinga" is never consulted: removing it changes no resolution |
| DiasAptos.PracticeLabel | scripts/scraping_dias_aptos.py:210-214 | "1" is exactly "Preparo do Solo", "2" exactly "Semeadura", every other code "Colheita" |
| DiasAptos.PracticeLabelsDistinct | scripts/scraping_dias_aptos.py:201-214 | the three requested practices get three different labels |
| ElNino.Classify | scripts/scraping_el_nino.py:88-106 | El Niño iff mean > 0.5, La Niña iff mean < -0.5, neutral with neutral strength otherwise; Forte, Moderado and Fraco by the 1.5 and 1.0 thresholds on either side |
| ElNino.ClassifyMirror | scripts/scraping_el_nino.py:91-104 | negating the mean swaps El Niño and La Niña and keeps the strength |
| ElNino.StrengthMonotone | scripts/scraping_el_nino.py:92-104 | within one phenomenon, a mean further from zero is never weaker |
| ElNino.ClassifyBoundaries | scripts/scraping_el_nino.py:91-106 | ±0.5 are neutral, ±1.0 moderate, ±1.5 strong; all of [-0.5, 0.5] is neutral |
| ElNino.SeasonsInColumnOrder | scripts/scraping_el_nino.py:77 | the header is Year followed by the seasons DJF…NDJ, and each season's column is at its position |
| ElNino.TripleTableIsCyclic | scripts/scraping_el_nino.py:112-125 | the table holds exactly the twelve month names, and month i gets the seasons at cyclic positions i-1, i, i+1 |
| ElNino.UnknownMonth | scripts/scraping_el_nino.py:126 | a text that is no month name has no seasons |
| ElNino.AdjacentMonthsOverlap | scripts/scraping_el_nino.py:112-125 | consecutive months, December to January included, share two seasons and differ in the third |
| ElNino.TriplesDistinct | scripts/scraping_el_nino.py:112-125 | no two months have the same triple |
| ElNino.SeasonInThreeMonths | scripts/scraping_el_nino.py:112-125 | each season enters exactly the three distinct months around it |
| ElNino.MeanBetween | scripts/scraping_el_nino.py:82-86 | the mean of three seasons lies between their smallest and largest anomaly |
| ElNino.AnalyzeYears | scripts/scraping_el_nino.py:128-151 | 12 results per row, rows in input order and months January to December, each with its row's year and the classification of the mean of that row's own three seasons |
| ElNino.NeutralYear | scripts/scraping_el_nino.py:136-151 | a year whose anomalies all lie within ±0.5 is neutral in every month |
| ElNino.StrongElNinoYear | scripts/scraping_el_nino.py:136-151 | a year whose anomalies are all at least 1.5 is a strong El Niño in every month |
| ElNino.JanuaryExample | scripts/scraping_el_nino.py:142-146 | NDJ 1.2, DJF 1.8 and JFM 1.9 give January a strong El Niño |
| ElNino.CleanCells | scripts/scraping_el_nino.py:56-57 | every kept cell is stripped and non-empty, and no more cells come out than went in |
| ElNino.CleanCellsKeeps | scripts/scraping_el_nino.py:56-57 | every non-blank cell is kept, in stripped form |
| ElNino.CleanCellsAppend | scripts/scraping_el_nino.py:56-57 | cleaning distributes over concatenation of cells, so the kept cells stay in page order |
| ElNino.CleanCellsSingle | scripts/scraping_el_nino.py:56-57 | one cell gives its stripped text when that is non-empty, and nothing when it is blank |
| ElNino.ExtractTableData | scripts/scraping_el_nino.py:54-59 | every kept row starts with an all-digit cell and its cells are stripped and non-empty; no more rows come out than went in |
| ElNino.ExtractAppend | scripts/scraping_el_nino.py:55-59 | extraction goes row by row, so page order is kept |
| ElNino.ExtractSingle | scripts/scraping_el_nino.py:55-59 | a row survives, cleaned, exactly when its first non-blank cell is all digits |
| Numbers.ParseFloat | scripts/scraping_geadas.py:54 | blank text is no number |
| Numbers.ParseFloatIgnoresSpace | scripts/scraping_geadas.py:54 | surrounding whitespace does not change the reading |
| Numbers.ParseFloatMinus | scripts/scraping_geadas.py:54 | a leading minus negates the reading of the rest |
| Numbers.ParseFloatNat | scripts/scraping_geadas.py:54 | the decimal text of a natural number reads as that number |
| Numbers.ParseFloatDecimalPoint | scripts/scraping_geadas.py:54 | `whole.frac` reads as whole + frac / 10^len(frac) |
| Numbers.ParseFloatNanWord | scripts/scraping_geadas.py:54 | "NaN" reads as not-a-number |
| Numbers.ParseFloatMinusInfinity | scripts/scraping_geadas.py:54 | "-inf" reads as minus infinity |
| Numbers.ParseFloatNotNumber | scripts/scraping_geadas.py:54 | "abc" is no number |
| Numbers.ParseFloatUnderscore | scripts/scraping_geadas.py:54 | "1_0" reads as 10 |
| Calendar.DaysInMonth | scripts/scraping_geadas.py:116 | 28 to 31 days; February has 29 exactly in leap years; April, June, September and November have 30 |
| Calendar.LessEqIsOrdinalOrder | scripts/scraping_geadas.py:109 | comparing dates field by field agrees with comparing their day numbers |
| Calendar.AddDays | scripts/scraping_geadas.py:136 | adding n days gives a valid date n day numbers later |
| Calendar.AddMonthLengthToFirst | scripts/scraping_geadas.py:136 | from the first of a month, adding that month's length lands on the first of the next month |
| Calendar.FirstOfNextMonth | scripts/scraping_geadas.py:115-116 | the first of the next month is valid and comes right after the month's last day |
| Calendar.FormatYear | scripts/scraping_geadas.py:115 | years 1000 to 9999 are written as four digits that read back as the year |
| Calendar.ParseIso | scripts/scraping_geadas.py:72 | an accepted text is a valid date with a year of at most four digits |
| Calendar.ParseFormatIso | scripts/scraping_geadas.py:115-116 | round trip: a date written as `%Y-%m-%d` reads back as the same date (years 1000 to 9999) |
| Calendar.FormatParseIso | scripts/scraping_geadas.py:72 | round trip: an accepted 10-character text with no leading zero or space in the year or day is written back unchanged |
| Calendar.ParseIsoLenient | scripts/scraping_geadas.py:72 | `strptime` accepts one-digit months and days and a space before a one-digit day |
| Calendar.ParseIsoRejects | scripts/scraping_geadas.py:72 | a day that does not exist and trailing text are rejected |
| Geadas.ClassifyTemperature | scripts/scraping_geadas.py:55-60 | Fraca iff t ≥ 3, Moderada iff 1 ≤ t < 3, Forte iff t < 1 |
| Geadas.ClassifyFloat | scripts/scraping_geadas.py:54-60 | finite readings use the thresholds; not-a-number fails both comparisons and is Forte |
| Geadas.FrostIntensity | scripts/scraping_geadas.py:49-62 | "Indefinida" exactly when the reading is missing or not a number; otherwise the thresholds on the parsed value |
| Geadas.IntensityAntiMonotone | scripts/scraping_geadas.py:55-60 | a lower minimum never gives a weaker frost |
| Geadas.IntensityBoundaries | scripts/scraping_geadas.py:55-58 | 3 is Fraca, 1 is Moderada, all of [1, 3) is Moderada |
| Geadas.IntensityOfThree | scripts/scraping_geadas.py:49-62 | the reading "3" is Fraca |
| Geadas.IntensityOfOne | scripts/scraping_geadas.py:49-62 | the reading "1.0" is Moderada |
| Geadas.IntensityOfMinusHalf | scripts/scraping_geadas.py:49-62 | the reading "-0.5" is Forte |
| Geadas.IntensityOfNan | scripts/scraping_geadas.py:49-62 | the reading "NaN" is Forte |
| Geadas.IntensityUndefined | scripts/scraping_geadas.py:49-62 | a missing reading and "abc" are Indefinida |
| Geadas.FormatTemperature | scripts/scraping_geadas.py:64-68 | "N/A" for a missing reading; otherwise two characters longer, ending in "°C", with no decimal point left |
| Geadas.TemperatureRoundTrip | scripts/scraping_geadas.py:68 | a reading without commas is recovered from its rendering |
| Geadas.FormatBrazilian | scripts/scraping_geadas.py:73 | the text is day, `/`, month, `/`, year, with the day and month digits reading back as the date's |
| Geadas.FormatBrazilianDate | scripts/scraping_geadas.py:70-73 | defined exactly when the field is present and `strptime` accepts it |
| Geadas.BrazilianKeepsDate | scripts/scraping_geadas.py:70-73 | an ISO date comes out as 10 characters with the same day, month and year |
| Geadas.FrostCityId | scripts/scraping_geadas.py:125-130 | title-casing the name before the lookup changes nothing: the id is the raw name's |
| Geadas.ShapeFrostItem | scripts/scraping_geadas.py:123-133 | a row exists exactly when the date can be read; its fields are the looked-up id, UF or "N/A", the title-cased name, the measurement date rendered as `dd/mm/yyyy`, the rendered temperature and the intensity |
| Geadas.ShapeFrostItems | scripts/scraping_geadas.py:122-133 | one row per record, in order, unless some record's date cannot be read |
| Geadas.ShapeFrostResponses | scripts/scraping_geadas.py:119-133 | the run succeeds exactly when every record of every month has a readable date |
| Geadas.ShapeFrostResponsesAppend | scripts/scraping_geadas.py:106-133 | months' rows follow each other in the order the months were visited |
| Geadas.ShapeFrostResponsesSingle | scripts/scraping_geadas.py:122-133 | a single month gives exactly that month's rows |
| Geadas.WindowCoversMonth | scripts/scraping_geadas.py:115-116 | a request window reads back as the month's first and last day and spans the whole month |
| Geadas.FebruaryWindow | scripts/scraping_geadas.py:116 | February's window ends on the 29th exactly in leap years |
| Geadas.MonthsVisited | scripts/scraping_geadas.py:109-136 | corrected loop: one entry per month from the start's month to today's, first and last being those months |
| Geadas.MonthsVisitedConsecutive | scripts/scraping_geadas.py:109-136 | corrected loop: the i-th month visited is i months after the start's |
| Geadas.MonthsVisitedAsWritten | scripts/scraping_geadas.py:109-136 | loop as written: visits something exactly when the start is not after today, begins at the start's month, stays between the start's month and today's, and each visited month is a month 1-12 |
| Geadas.FrostWindows | scripts/scraping_geadas.py:109-118 | the windows a run requests: one per month the loop as written visits, at least one exactly when the start is not after today |
| Geadas.FrostWindowReadsBack | scripts/scraping_geadas.py:109-118 | each requested window reads back as the first and last day of the month the loop is in, the first one the start's month |
| Geadas.AsWrittenFromFirstDay | scripts/scraping_geadas.py:104-136 | from the first of a month (the default 2017-01-01), the loop as written visits exactly the intended months |
| Geadas.AsWrittenSkipsFebruary | scripts/scraping_geadas.py:136 | from 31 January the loop as written jumps to 3 March and never requests February |
| Geadas.AsWrittenMissesCurrentMonth | scripts/scraping_geadas.py:109-136 | from 15 January with today 10 March, the loop as written never requests March |
| Historico.FirstHref | scripts/scraping_historico.py:34 | the first anchor with an `href`, or None exactly when no anchor has one |
| Historico.Stem | scripts/scraping_historico.py:40 | the stem has no `/` and no `.zip` |
| Historico.StemOfArchiveLink | scripts/scraping_historico.py:40 | round trip: `prefix/stem.zip` gives back `stem` whenever `stem` has no `/` and no `.zip` |
| Historico.CompleteUrl | scripts/scraping_historico.py:43-44 | an href starting with "http" is kept unchanged, any other gets the base address prepended; so the address always starts with "http" and ends with the original href |
| Historico.CompleteUrlIdempotent | scripts/scraping_historico.py:43-44 | completing an address twice is completing it once |
| Historico.CompleteRelative | scripts/scraping_historico.py:43-44 | a site-relative link is appended to the listing address with no separator added |
| Historico.LinkOf | scripts/scraping_historico.py:38-45 | the entry's name is the stripped anchor text, its address is the completed href, its stem is the href's stem, which has no `/` or `.zip` |
| Historico.ArticleLink | scripts/scraping_historico.py:33-45 | an article yields an entry exactly when its first anchor with an `href` ends in `.zip`, and the entry comes from that anchor |
| Historico.FirstHrefDecides | scripts/scraping_historico.py:34-37 | a later archive anchor is ignored when the first anchor with an `href` is no archive |
| Historico.Contribution | scripts/scraping_historico.py:30-45 | an article contributes at most one entry, and one exactly when it is a post preview with an archive link |
| Historico.CollectLinks | scripts/scraping_historico.py:30-45 | at most one entry per article, every one well formed |
| Historico.CollectAppend | scripts/scraping_historico.py:33-45 | collection goes article by article, keeping page order |
| Historico.CollectSingle | scripts/scraping_historico.py:33-45 | one article yields exactly its contribution |
| Historico.PosixJoin | scripts/scraping_historico.py:55 | the joined path ends with the second part; an absolute second part replaces the first; otherwise one `/` separates the parts, none when the first is empty or already ends in `/` |
| Historico.ZipPath | scripts/scraping_historico.py:55 | the archive is saved directly under the destination, separated by one `/` when needed, and `stem.zip` is the last path segment |
| Historico.StemOfZipPath | scripts/scraping_historico.py:40-55 | round trip: the saved archive's path gives back the stem of the link it came from |
| Historico.ExtractTarget | scripts/scraping_historico.py:73-79 | the destination itself when some member name ends in `/`; otherwise the destination joined with the stem, which is the last path segment |
| Historico.ZipBesideTarget | scripts/scraping_historico.py:55-79 | without a folder inside, the archive's path is the extraction folder's path plus ".zip" |

## Left out

- Historico.PosixJoin: paths are joined as on POSIX (`posixpath.join`). On Windows `os.path.join` is `ntpath.join`, which joins with `\` and treats drive letters specially; that platform is not modelled.
- HTTP requests, `asyncio`, streaming downloads, `zipfile`, `os` file-system calls, `logging`, `to_excel` and the `__main__` entry points are input and output. Their inputs and outputs appear as plain values: the registry, the frost records of each month, the parsed page, and the member names of an archive.
- `extrair_dados_municipios`, `fetch_estacoes`, `fetch_dias_aptos`, `get_html` and `fazer_requisicao` are network calls. The registry is a parameter. When the IBGE request fails, `extrair_dados_municipios` returns `None` and the first name lookup raises `TypeError` (scripts/scraping_dias_aptos.py:104-114, scripts/scraping_geadas.py:32-42): dias_aptos ends in its fatal-error handler and geadas crashes on its first frost record. The model does not represent that failed run; it only covers registries that were fetched. A failed frost request is a month with no records.
- HTML parsing is not modelled. Table rows arrive as lists of cell texts, and articles arrive as class lists plus the anchors in document order. Nested articles are not modelled.
- pandas is not modelled. This covers building the frame from rows of the wrong width, `astype(float)` on cell text and floating-point rounding of the mean. ONI rows carry exactly twelve exact reals. Unreadable cells make pandas raise, and the script's outer handler then ends the whole analysis. This is a whole-run failure, not one that skips a single (row, month) pair.
- Floating-point rounding near the thresholds is not modelled: temperatures and means are exact reals.
- Python's `str(float)` is not modelled. A frost reading is taken as its already-rendered text.
- The `f"{valorDia:.2f}%"` percentage format is not modelled.
- `datetime.now()` is a parameter ("today"). The "30 days ago" planting date is not modelled.
- The locale month name from `strftime("%B")` only feeds a log message and is not modelled.
- `unidecode` is modelled for the characters À–ÿ (U+00C0–U+00FF) only. Other non-ASCII characters are kept unchanged, including the Latin-1 letters ª, µ and º that `unidecode` maps to "a", "u" and "o".
- `str.title()` treats ASCII and Latin-1 letters as cased. Python would turn "ß" into "Ss" and "ÿ" into "Ÿ". This never changes a name's normal form.
- `isdigit()` and `\d` accept ASCII digits only. Python also accepts other Unicode digits.
- JSON field values of other types are not modelled, such as a numeric `NOME` or a boolean `TEMP_MIN`. Every present field is text.
- A missing `DT_MEDICAO`, or one `strptime` rejects, raises outside any handler and ends the run. It is modelled as a None result for the whole run.
- Calendar.FormatYear: years below 1000 are written without padding, as glibc does. Round trips are therefore stated only for four-digit years. Python's upper limit on years (9999) is respected by the parser.
- Geadas.FrostWindows: its contract states the number of windows and when there are any. The content of each window is stated by Geadas.FrostWindowReadsBack.

## Findings

| source | as written | input that shows it | evidently intended | confidence | as-written member | corrected member |
|---|---|---|---|---|---|---|
| scripts/scraping_geadas.py:136 | the loop steps from the current start date by that month's length in days, so a start after the 1st drifts: it can jump over a month, and it can pass today before today's month is requested | start 2017-01-31: +31 days gives 2017-03-03 and February is never requested. Start 2017-01-15 with today 2017-03-10: the dates are 15 Jan, 15 Feb and 15 Mar, and March is never requested | every month from the start's month to today's month, once each, in order; this is what happens from the default start 2017-01-01 | not executed | Geadas.MonthsVisitedAsWritten (shown by Geadas.AsWrittenSkipsFebruary and Geadas.AsWrittenMissesCurrentMonth) | Geadas.MonthsVisited (with Geadas.MonthsVisitedConsecutive; Geadas.AsWrittenFromFirstDay shows the two agree from a first-of-month start) |
