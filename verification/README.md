# Loop-order benchmark, unit converter and trend-plot cleaning, in Dafny

This project models three small programs from one repository and proves
properties of the models.

- **The loop-order benchmark** (`src/main.cpp`). It multiplies two n-by-n
  matrices, stored as flat row-major buffers, with each of the six nestings
  of the i/j/k loops. It times each nesting a given number of times and
  reports the median time and the GFLOPS rate. The model covers:
  - the offset function `idx`, the deterministic fill, the zeroing of the
    output and all six loop nestings, as methods on arrays with loop
    invariants. Each nesting is proved to leave the exact product in `C`, so
    all six agree whatever `C` held before;
  - the median step (`nth_element` at position repeats/2), as an in-place
    selection on an array. Its result is proved to be the repeats/2-th order
    statistic of the durations;
  - the `--sizes` / `--repeats` argument loop and the character loop that
    splits `--sizes` on commas;
  - the sweep: one row per (size, order), sizes outermost, orders in their
    fixed order.
- **The unit converter** (`src/converter.cpp`). Temperature is converted
  through Celsius, length through a per-unit factor to meters, and currency
  through a fixed table of directed rates. Unit codes are the integers of the
  C++ enumerations (`include/converter.h:6-30`), so the fallback branches for
  other codes are modelled too.
- **The trend plotter's cleaning steps** (`plot_trends.py`):
  - header normalisation;
  - the rule that renames the size column to `n`, modelled both as a
    function and as the in-place loop with `break` on a `Frame` class;
  - the per-cell number sanitiser;
  - the two NaN row filters;
  - the guard that needs at least two points, and the polynomial degree.

Matrix cells, durations and converter values are exact reals, not IEEE
doubles. The clock is a parameter: a sequence of readings taken before and
after each run.

## Model

| member | source | states |
|---|---|---|
| MatrixKernel.AllOrdersListsEachOnce | src/main.cpp:132-134 | The sweep's order list holds each of the six loop orders exactly once. |
| MatrixKernel.OrderName | src/main.cpp:8-18 | Each label has five characters: the three loop letters i, j and k, each exactly once, separated by commas. |
| MatrixKernel.OrderNameInjective | src/main.cpp:8-18 | Different orders get different labels. |
| MatrixKernel.Idx | src/main.cpp:20 | For i < n and j < n the offset lies below n*n. |
| MatrixKernel.IdxIsRowMajor | src/main.cpp:20 | The offset is i*n + j. |
| MatrixKernel.IdxInjective | src/main.cpp:20 | Two cells whose columns are below n share an offset only when they are the same cell. |
| MatrixKernel.IdxDecode | src/main.cpp:20 | The row is the offset divided by n, and the column is the remainder. |
| MatrixKernel.IdxOnto | src/main.cpp:20 | Every offset below n*n is the offset of exactly one cell of the square. |
| MatrixKernel.Filled | src/main.cpp:23-30 | The buffer has n*n cells, and cell (i, j) sits at Idx(i, j, n) with value f(i, j). |
| MatrixKernel.FillMatrices | src/main.cpp:23-30 | After the loops, A and B are exactly the buffers with A(i,j) = (i + j mod 7)·0.001 and B(i,j) = (2i + j mod 5)·0.002 in every cell. |
| MatrixKernel.FilledProductOfSizeTwo | src/main.cpp:23-30 | For n = 2 the filled operands multiply to [0.000004, 0.000006; 0.000008, 0.000014]. |
| MatrixKernel.FilledAOfSizeTwo | src/main.cpp:26 | For n = 2 the first operand is [0, 0.001; 0.001, 0.002]. |
| MatrixKernel.FilledBOfSizeTwo | src/main.cpp:27 | For n = 2 the second operand is [0, 0.002; 0.004, 0.006]. |
| MatrixKernel.ZeroMatrix | src/main.cpp:32 | Every cell of the output buffer is 0.0. |
| MatrixKernel.Mul | src/main.cpp:35-89 | For every loop order, C holds the full dot product of row i of A and column j of B in every cell; A and B are unchanged. |
| MatrixKernel.ProductUnique | src/main.cpp:35-89 | Two buffers that both hold the product of the same operands are equal. So all six orders leave the same C, and that C does not depend on what the buffer held before. |
| MatrixKernel.MulIJK | src/main.cpp:38-46 | The i,j,k nesting, summing each cell in a local: C is the product. |
| MatrixKernel.MulIKJ | src/main.cpp:47-54 | The i,k,j nesting accumulating into a zeroed C: C is the product. |
| MatrixKernel.MulKIJ | src/main.cpp:55-62 | The k,i,j nesting accumulating into a zeroed C: C is the product. |
| MatrixKernel.MulKJI | src/main.cpp:63-70 | The k,j,i nesting accumulating into a zeroed C: C is the product. |
| MatrixKernel.MulJIK | src/main.cpp:71-79 | The j,i,k nesting, summing each cell in a local: C is the product. |
| MatrixKernel.MulJKI | src/main.cpp:80-87 | The j,k,i nesting accumulating into a zeroed C: C is the product. |
| MatrixKernel.StoreCell | src/main.cpp:41-44 | Storing the finished local sum of cell (i, j) advances the overwriting nestings by one cell: every cell stored so far holds its full dot product. |
| MatrixKernel.AddRowTerms | src/main.cpp:50-52 | The inner loop with A[i][k] hoisted: every cell of row i gains its k-th term, and every other cell keeps its partial sum. |
| MatrixKernel.AddColumnTerms | src/main.cpp:66-68 | The inner loop with B[k][j] hoisted: every cell of column j gains its k-th term, and every other cell keeps its partial sum. |
| MatrixKernel.AccumulateCell | src/main.cpp:52 | One `C[i][j] += A[i][k]*B[k][j]` step moves the buffer from loop position (i, j, k) to the next position of the nesting. |
| MatrixKernel.AddTerm | src/main.cpp:52 | The same step on buffer values: each cell holds exactly as many terms as the loop position has added to it. |
| Timing.PartitionedStatistic | src/main.cpp:102-103 | If nothing before position k is larger and nothing after it is smaller, the value at k is the k-th order statistic: one of the samples, with at most k samples strictly below it and at most \|s\|-1-k strictly above it. |
| Timing.OrderStatisticUnique | src/main.cpp:102-103 | The k-th order statistic is unique. |
| Timing.OrderStatisticIsSortedEntry | src/main.cpp:102-103 | The k-th order statistic is the value a full sort puts at position k. |
| Timing.SamplesReordered | src/main.cpp:102 | Reordering the samples keeps every order statistic. |
| Timing.SelectStep | src/main.cpp:102 | Swapping a smallest remaining sample into position p extends the sorted-and-smallest prefix by one. |
| Timing.NthElement | src/main.cpp:102 | The buffer is a permutation of its old contents. Nothing before position nth is larger than a[nth], and nothing after it is smaller. |
| Timing.Median | src/main.cpp:102-103 | The reported value is the \|t\|/2-th order statistic of the samples: for an even count this is the upper middle, not an average. |
| Timing.Laps | src/main.cpp:95-101 | Run q lasted the difference between the clock readings taken after and before it. |
| Timing.TimeMs | src/main.cpp:92-104 | After `repeats` runs, C holds the product. The result is the repeats/2-th order statistic of the run durations. |
| Cmdline.ParseUnsigned | src/main.cpp:123 | A segment parses exactly when it is a non-empty string of digits whose value fits a 64-bit size_t. |
| Cmdline.ParseShowDecimal | src/main.cpp:123 | A size printed in decimal parses back to itself. |
| Cmdline.ParseSigned | src/main.cpp:128 | A parsed repeat count lies in the 32-bit int range and the text ends in a digit. Digits, "+digits" and "-digits" parse to their signed value when it fits an int, and fail when it does not. |
| Cmdline.Fields | src/main.cpp:122-125 | Splitting on commas gives at least one segment, and no segment contains a comma. |
| Cmdline.FieldsJoin | src/main.cpp:122-125 | Joining the segments with commas gives the text back, so the segments are exactly the comma-separated pieces. |
| Cmdline.JoinFields | src/main.cpp:122-125 | Splitting comma-free segments joined with commas gives the segments back. |
| Cmdline.NonEmpty | src/main.cpp:123-126 | No kept segment is empty, and no segment is added. |
| Cmdline.NonEmptyAppend | src/main.cpp:123-126 | Dropping empty segments works piece by piece, so the kept segments stay in their order. |
| Cmdline.ParseAll | src/main.cpp:123-126 | The list parses exactly when every segment does, and then value q is the value of segment q. |
| Cmdline.NoneSticks | src/main.cpp:123 | Once a segment closed by a comma fails to parse, the whole list fails, whatever follows. |
| Cmdline.SkipEmptySegments | src/main.cpp:123 | In "a,,b," only a and b remain. |
| Cmdline.SizesExample | src/main.cpp:118-126 | "128,,256," gives [128, 256]. |
| Cmdline.SizesRoundTrip | src/main.cpp:118-126 | Joining sizes with commas and passing the text to --sizes gives the sizes back. |
| Cmdline.ScanComma | src/main.cpp:123 | A comma drops an empty current segment, appends a parsed one, and makes the list fail when stoul rejects it. |
| Cmdline.ScanChar | src/main.cpp:124 | Any other character extends the current segment. |
| Cmdline.ScanEnd | src/main.cpp:126 | At the end of the text the open segment is handled like a closed one. |
| Cmdline.ParseSizes | src/main.cpp:119-126 | The character loop returns exactly the size list the text denotes, or failure. |
| Cmdline.NoFlagsKeepConfig | src/main.cpp:113-130 | Without either flag, the configuration stays as it was. |
| Cmdline.SizesUntouched | src/main.cpp:116-130 | Without --sizes, the size list is never replaced. |
| Cmdline.RepeatsUntouched | src/main.cpp:116-130 | Without --repeats, the repeat count is never replaced. |
| Cmdline.TrailingFlagIgnored | src/main.cpp:118-128 | A flag in the last position has no argument and is ignored. |
| Cmdline.ParseArgs | src/main.cpp:113-130 | The argument loop, starting from sizes {128,256,384,512,640} and repeats 3, gives the configuration the argument scan defines. |
| Benchmark.Gflops | src/main.cpp:150 | The rate is finite exactly when the time is non-zero, and then the rate times the time equals 2n³ operations. A zero time gives infinity for n > 0. |
| Benchmark.SlowerMeansFewerGflops | src/main.cpp:150 | At the same size, a longer time gives a lower rate. |
| Benchmark.TimeOrders | src/main.cpp:145-154 | Six rows, one per order in the fixed order, each with the median of its own runs and the rate derived from it. |
| Benchmark.Sweep | src/main.cpp:138-155 | Six rows per size, sizes in the given order. Row 6s+o reports order o at size s with the median of its own runs. |
| Converter.CelsiusInverse | src/converter.cpp:8-23 | Converting a unit to Celsius and converting Celsius to that unit are inverse maps. |
| Converter.ConvertTemperature | src/converter.cpp:5-24 | Equal units return the value unchanged. Otherwise the result reads the same Celsius temperature in the target unit. |
| Converter.TemperatureThroughCelsius | src/converter.cpp:8-23 | The conversion is "to Celsius, then from Celsius", even between equal units. |
| Converter.TemperatureRoundTrip | src/converter.cpp:5-24 | Converting there and back gives the original temperature. |
| Converter.TemperatureCompose | src/converter.cpp:5-24 | Two conversions in a row equal the direct one. |
| Converter.TemperatureLandmarks | src/converter.cpp:8-23 | 212 F is 100 C, 100 C is 373.15 K, -40 C is -40 F, and 0 K is -273.15 C. |
| Converter.FactorToMeters | src/converter.cpp:29-41 | The factor is positive exactly for the nine length units, and 0.0 for any other code. |
| Converter.ConvertLength | src/converter.cpp:45-56 | Equal units return the value unchanged. An invalid unit gives 0.0. Otherwise result·f(to) = value·f(from). |
| Converter.LengthLinear | src/converter.cpp:45-56 | Length conversion is linear in the value. |
| Converter.LengthScaled | src/converter.cpp:48-55 | Between valid units, including equal ones, result·f(to) = value·f(from). |
| Converter.LengthRoundTrip | src/converter.cpp:45-56 | Between valid units, converting there and back gives the original length. |
| Converter.LengthCompose | src/converter.cpp:45-56 | Between valid units, two conversions in a row equal the direct one. |
| Converter.LengthLandmarks | src/converter.cpp:29-41 | One mile is 1.609344 km, and one yard is three feet. |
| Converter.Rate | src/converter.cpp:62-68 | Every rate in the table is positive. |
| Converter.RateTableComplete | src/converter.cpp:62-70 | The table holds a rate exactly for the ordered pairs of distinct valid currencies. |
| Converter.RateReciprocal | src/converter.cpp:62-68 | Each rate is the reciprocal of the reverse rate. |
| Converter.ConvertCurrency | src/converter.cpp:59-74 | Equal currencies return the value unchanged. A pair in the table gives value·rate. Any other pair gives 0.0. |
| Converter.CurrencyRoundTrip | src/converter.cpp:59-74 | Between valid currencies, exchanging there and back gives the original amount. |
| Converter.CurrencyNotTransitive | src/converter.cpp:62-68 | EUR to RUB pays 100 per euro, but EUR to USD to RUB pays 99, so the table is not transitive. |
| PlotTrends.StripStart | plot_trends.py:38 | The result is a suffix of s: only whitespace was removed, and it starts with no whitespace. |
| PlotTrends.StripEnd | plot_trends.py:38 | The result is a prefix of s: only whitespace was removed, and it ends with no whitespace. |
| PlotTrends.Strip | plot_trends.py:38 | The result has no whitespace at either end. A trimmed string is unchanged; any other string gets shorter. |
| PlotTrends.ToLower | plot_trends.py:38 | A capital becomes its own lower-case letter (A-Z to a-z, Latin-1 and Cyrillic likewise), and a non-capital is unchanged. |
| PlotTrends.Lower | plot_trends.py:38 | Every character is lower-cased in place, so the length is kept and no capital remains. |
| PlotTrends.LowerExample | plot_trends.py:38 | "SIZE" becomes "size". |
| PlotTrends.LowerFixed | plot_trends.py:38 | A string without capitals is unchanged. |
| PlotTrends.Remove | plot_trends.py:38-39 | The characters left are exactly those of s other than x. |
| PlotTrends.RemoveAppend | plot_trends.py:38-39 | Removing from a concatenation removes from each part, so the other characters keep their order and number. |
| PlotTrends.RemoveCons | plot_trends.py:38-39 | A leading x is dropped, and any other leading character is kept. |
| PlotTrends.RemoveAbsent | plot_trends.py:38-39 | Removing a character that does not occur changes nothing. |
| PlotTrends.NormalizeCol | plot_trends.py:37-40 | A normalised name has no space, no comma and no capital. |
| PlotTrends.NormalizeColIdempotentIff | plot_trends.py:37-40 | Normalising again changes a normalised name exactly when the name has whitespace at one of its ends. |
| PlotTrends.NormalizeColNotIdempotent | plot_trends.py:37-40 | ",\tx" normalises to "\tx" (leading whitespace survives), and that normalises to "x". |
| PlotTrends.NormalizeColExample | plot_trends.py:39 | "i,j,k" becomes "ijk". |
| PlotTrends.Frame.NormalizeHeaders | plot_trends.py:42 | Every header name is replaced by its normalised form; the cells are unchanged. |
| PlotTrends.RenameAll | plot_trends.py:48 | Every column named `from` is renamed to `to`, and the other names are kept. |
| PlotTrends.FirstLookingLikeSize | plot_trends.py:52-55 | The first position whose name starts with "n" or contains "size", or none when no such position exists. |
| PlotTrends.SizeRule | plot_trends.py:45-57 | On success "n" is among the names and the number of columns is kept. On failure the error carries the names found. |
| PlotTrends.SizeRuleByRank | plot_trends.py:45-57 | The rule without its cascade. It fails exactly when no name claims the size. Otherwise it renames the first column holding the strongest claim, where the claims rank n, then size, dim, nn, then the loose test. |
| PlotTrends.ExactNameRule | plot_trends.py:45-49 | Without "n", the first present name of size, dim and nn is renamed. |
| PlotTrends.LooseNameRule | plot_trends.py:50-57 | Without "n" and those three names, the first name that looks like a size is renamed. When no name looks like a size, the rule fails. |
| PlotTrends.Frame.ResolveSizeColumn | plot_trends.py:44-57 | The loops with `break` rename exactly as the rule does. They report failure, with nothing renamed, exactly when the rule fails. |
| PlotTrends.CommasToPoints | plot_trends.py:68 | Each comma becomes a point in place, and every other character stays where it was. |
| PlotTrends.CommasToPointsMembers | plot_trends.py:68 | No comma is left. A point occurs exactly when there was a point or a comma, and the other characters are kept. |
| PlotTrends.KeepNumChars | plot_trends.py:61-69 | The result is no longer than the input. |
| PlotTrends.KeepAppend | plot_trends.py:61-69 | Deleting from a concatenation deletes from each part, so the kept characters keep their order and number. |
| PlotTrends.KeepCons | plot_trends.py:61-69 | A leading number character is kept, and any other leading character is dropped. |
| PlotTrends.KeepNumCharsMembers | plot_trends.py:61-69 | Exactly the characters 0-9, e, E, +, - and . survive. |
| PlotTrends.CleanCellAppend | plot_trends.py:63-71 | Cleaning a two-part text cleans each part and concatenates the results, so characters keep their order and number. |
| PlotTrends.CleanCellChar | plot_trends.py:63-71 | A one-character text keeps a number character, turns a comma into ".", and otherwise becomes missing. With CleanCellAppend this fixes every cleaned cell. |
| PlotTrends.CleanCell | plot_trends.py:63-71 | A surviving cell is non-empty and made only of number characters. Its characters are exactly the number characters of the text, with commas read as points. The cell becomes missing exactly when the text holds no number character and no comma. |
| PlotTrends.CleanCellIdempotent | plot_trends.py:65-71 | Cleaning a cleaned cell changes nothing. |
| PlotTrends.CleanCellExample | plot_trends.py:65-71 | "1,5 s" cleans to "1.5". |
| PlotTrends.MissingCellStaysMissing | plot_trends.py:67-70 | A missing cell reads "nan", which holds no number character, so it stays missing. |
| PlotTrends.CleanColumn | plot_trends.py:63-71 | The column is cleaned cell by cell, and its length is kept. |
| PlotTrends.CleanColumnIdempotent | plot_trends.py:63-71 | Cleaning a cleaned column changes nothing. |
| PlotTrends.Frame.CleanCells | plot_trends.py:63-71 | Every column is replaced by its cleaned form; the names are unchanged. |
| PlotTrends.Filter | plot_trends.py:80-84 | Every kept row passes and came from the input, and every input row that passes is kept. |
| PlotTrends.FilterAppend | plot_trends.py:80-84 | Filtering a concatenation filters each part in order, so the surviving rows keep their relative order. |
| PlotTrends.FilterIdempotent | plot_trends.py:80-84 | Filtering twice with the same rule is filtering once. |
| PlotTrends.CleanRows | plot_trends.py:80-90 | Every remaining row is an input row with its size present and at least one measurement present. At least one row remains, otherwise the step fails. |
| PlotTrends.CleanRowsFails | plot_trends.py:80-90 | The step fails exactly when no input row has both a size and a measurement. |
| PlotTrends.FitDegree | plot_trends.py:104-108 | There is no degree below two points. Otherwise 1 ≤ deg ≤ 3, deg ≤ count-1, and deg is 3 or count-1, which is min(3, max(1, count-1)). |
| PlotTrends.FitPoints | plot_trends.py:102-103 | There is one point per row where the series has a value. Each point is (size, value) of such a row, so when every value is present, all rows are kept. |
| PlotTrends.FitPointsAppend | plot_trends.py:102-103 | The points of two stretches of rows are those of the first followed by those of the second, so row order is kept. |
| PlotTrends.FitPointsOne | plot_trends.py:102-103 | A row gives its point exactly when the series has a value there. |
| PlotTrends.FitPlan | plot_trends.py:102-108 | There is no fit when fewer than two points remain. Otherwise the fit uses those points with degree FitDegree of their count, which is min(3, max(1, count-1)). |

## Left out

- Floating point: cells, durations, rates and conversions are exact reals. The six loop orders agree exactly here; with doubles they differ in rounding.
- The clock: the readings before and after each run are a parameter. Printing is not modelled: neither the CSV header nor the row text with its fixed precisions.
- The interactive menu `runConverter` (src/converter.cpp:77-140) is console I/O and is not modelled.
- Timing.TimeMs: requires repeats ≥ 1, and so does Benchmark.Sweep when there is a size to run. The source does not define a result for the other counts (src/main.cpp:92-104):
  - with repeats = 0 no run happens, and `time_ms` reads element 0 of an empty vector, which is undefined behaviour;
  - with a negative count, `t.reserve(repeats)` converts it to a huge size_t and throws `std::length_error` before any run.
- Timing.NthElement: the library's selection algorithm is replaced by a selection sort of the first nth+1 positions. The postcondition is the same (permutation, and partitioned around nth), but not the running time.
- Cmdline.ParseUnsigned: accepts only plain digit strings. `stoul` also skips leading whitespace, accepts a sign and stops at the first non-digit ("12abc" gives 12); none of this is modelled.
- Cmdline.ParseSigned: accepts an optional sign and digits only, with the same gaps as `stoul`. A rejected argument makes the program exit with an exception, which the model represents as None.
- size_t arithmetic: `n*n` and `idx` are unbounded here, and neither overflow nor allocation failure for huge sizes is modelled.
- PlotTrends.NormalizeCol: does not promise that the output has no whitespace at its ends, and PlotTrends.NormalizeColIdempotentIff states idempotence only for trimmed results. Both properties fail on ",\tx": removing the comma exposes a tab (see PlotTrends.NormalizeColNotIdempotent).
- PlotTrends.ToLower: lower-cases only ASCII, Latin-1 and basic Cyrillic capitals. The rest of Unicode case mapping is not modelled.
- The numeric conversion `pd.to_numeric`: the row filters take rows already converted (None for NaN), and cleaned cell text is not turned into numbers.
- Duplicate column names after renaming: the Frame keeps one cell sequence per column and does not model pandas' duplicate-label behaviour.
- Also not modelled, being library calls or file and plot I/O:
  - file discovery (plot_trends.py:14-19);
  - delimiter sniffing (plot_trends.py:22-29);
  - `np.polyfit`/`poly1d` and `r2_score`: there is no least-squares solver, and the plotter's only fit is the library call `np.polyfit` (plot_trends.py:109);
  - the plots, the Markdown report and the averaged series.
