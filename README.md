# GDP lookup demo: retrieval and computed answers

This project models the browser demo that answers questions about national
GDP figures from a World Bank table, and proves properties of that model in
Dafny. It covers:

- how `loadCSV` derives the row store: the year columns, each row's series
  (empty or non-numeric cells become `null`), and each row's latest year and
  value;
- the all-or-nothing embedding alignment of `loadEmbeddings`;
- the three retrievers: keyword search, the embedding-based re-ranking and
  their reciprocal rank fusion (`rrf` of utils.js);
- the computed answer of `computeAnswer`, with its regular-expression intent
  cascade, `latestCommonYear` and `rankByYear`;
- the context text of `buildContext`;
- the dollar formatting of `formatUSD`.

Modules, one file each:

- `Wrappers`: `Option` for JavaScript's `null`/`undefined`, plus `Min`/`Max`.
- `Text`: character classes of JavaScript regular expressions, trimming, lower-casing, `join`/`split` on newlines.
- `Sorting`: `Array.prototype.sort` with a descending numeric comparator, as a stable insertion sort.
- `Format`: `formatUSD`.
- `Fusion`: `rrf`.
- `Rows`: the per-record part of `loadCSV`.
- `Retrieval`: the read-only catalog, `keywordSearch`, `semanticSearch` and `rrfFuse`.
- `Answer`: `computeAnswer`, `latestCommonYear` and `rankByYear`.
- `Context`: `buildContext`.
- `Session`: the four module-level globals and the loaders that reassign them, as a class.

Other modelling choices:

- The keyword engine is a function from query to ranked row indices. The `Catalog` validity predicate says its hits are distinct rows of the store.
- The cosine similarity to the centroid of the seed rows is a parameter `cosine(seeds, idx)`.
- `Number(cell)` is given with each cell (`RawCell`).
- Numbers are exact reals.
- JavaScript's rendering of `null` and `undefined` inside template strings, and their use as property keys, are written out as the strings `"null"` and `"undefined"`.

## Model

| member | source | states |
|---|---|---|
| Format.TierOf | utils.js:30-33 | The tier is `Plain` exactly when `abs(x) < 1e6`. A suffixed tier's scale is at most `abs(x)`, and below the top tier `abs(x)` is under 1000 times that scale, so the thresholds are checked from 1e12 down. |
| Format.TierOfNegation | utils.js:30 | A negative amount gets the tier of its magnitude. |
| Format.TierMonotone | utils.js:30-33 | A larger magnitude never gets a smaller tier. |
| Format.ToFixed2 | utils.js:31-33 | `toFixed(2)` output starts with `-` exactly for a negative amount (even one that rounds to zero). Every other character is a digit, except the point, which comes third from the end. So at least one digit precedes the point and exactly two follow it. There is no newline. |
| Format.LocaleText | utils.js:34 | `toLocaleString()` output starts with a sign or digit, ends with a digit and has no newline. |
| Format.FormatUSD | utils.js:28-35 | The missing token is returned exactly for `null`/`undefined`/NaN. Any number starts with `$`. A T, B or M amount ends with a digit, a point, two digits and its tier's suffix. A plain amount ends with a digit. The result has no newline. |
| Format.FormatTierBoundaries | utils.js:31-33 | 1e6, 1e9 and 1e12 render as `$1.00M`, `$1.00B` and `$1.00T`. |
| Format.FormatBelowMillion | utils.js:33-34 | 999999 stays plain: `$999,999`. |
| Format.FormatNegative | utils.js:30-32 | -2.5e9 renders as `$-2.50B`. |
| Sorting.SortDesc | utils.js:22-23 | The sorted list is non-increasing by the key and a permutation of the input. |
| Sorting.SortDescOfSorted | app.js:224 | A list that is already non-increasing comes back unchanged (the sort is stable). |
| Fusion.Contribution | utils.js:18-19 | One list's contribution to an identifier's score is never negative. |
| Fusion.ContributionSign | utils.js:18-19 | The contribution is positive exactly when the identifier occurs in the list. |
| Fusion.ContributionOfDistinct | utils.js:18-19 | In a list without repeats, the identifier at 0-based position `i` contributes exactly `1/(K+i+1)`. |
| Fusion.ScoreSign | utils.js:17-21 | The fused score is positive exactly when the identifier occurs in some list. |
| Fusion.FusedScoreOfPair | utils.js:17-21 | The fused score of two lists is the sum of the two contributions. |
| Fusion.FoundTwiceScoresMore | utils.js:19 | An identifier found in both lists scores strictly more than either contribution alone. |
| Fusion.FirstSeen | utils.js:22 | The map's keys in insertion order: no repeats, and exactly the identifiers of the lists. |
| Fusion.AddList | utils.js:18-20 | One pass of `forEach` over a list keeps the tally: keys in first-seen order, and each value the score over the lists done so far. |
| Fusion.Rrf | utils.js:15-25 | The result is the first `topK` of all identifiers sorted by fused score. It has at most `topK` entries, no repeats, only identifiers from the two lists, all with positive scores. It is non-increasing by score, and every identifier left out scores no more than any kept one. |
| Fusion.FusedTop | utils.js:22-24 | The same facts for the prefix of the full fused order. |
| Fusion.FusedPrefixKeepsBest | utils.js:22-24 | Every identifier beyond the cut scores at most as much as every identifier kept. |
| Fusion.FusionOfSingleList | utils.js:15-25 | Fusing a list without repeats with an empty list gives the list back in its own order. |
| Rows.YearColumns | app.js:47 | The year columns are exactly the four-digit headers and never outnumber the headers. |
| Rows.YearColumnsAppend | app.js:47 | `filter` distributes over concatenation of the header: the columns of `a + b` are those of `a` followed by those of `b`. So the header order is kept. |
| Rows.YearColumnsSingle | app.js:47 | A single header is kept exactly when it is a four-digit name. |
| Rows.CellValue | app.js:53-54 | A cell is `null` exactly when it is empty, missing or NaN, and is never turned into 0. Otherwise it is the parsed number. |
| Rows.BuildSeries | app.js:50-55 | Every year column gets an entry and nothing else does. An empty cell's entry is `null`. |
| Rows.LastPresent | app.js:57-66 | The last year column, by header position, with a value. It is absent exactly when no column has a value. |
| Rows.LatestOf | app.js:57-66 | The backward scan with `break` yields that column and its value, or `null`/`null`. |
| Rows.LoadRow | app.js:49-74 | A record becomes a well-formed row. Its series covers the year columns. `latestYear` and `latestGDP` are both `null`, or both name the last column with a value. |
| Rows.RowOf | app.js:49-74 | The derived row copies the record's name and code, and its series gives each year column the cell's value (`null` when empty or NaN). It is well formed: `latestYear`/`latestGDP` are both `null`, or name the last column with a value. |
| Retrieval.KeywordSearch | app.js:107-110 | A prefix of the engine's hits of length `min(k, hits)`, empty for `k = 0`, made of distinct valid row indices. |
| Retrieval.SemanticSearch | app.js:113-125 | Empty when there are no embeddings or no keyword seeds among the first `max(k, 30)` hits. Otherwise `min(k, rows)` row indices, non-increasing by similarity to the seeds. Always at most `k` distinct valid indices. |
| Retrieval.RrfFuse | app.js:136-140 | The result is the first `k` of the fused order of the keyword and semantic lists with damping 60. It holds at most `k` distinct valid rows, each found by one of the two retrievers. Without embeddings it equals the keyword list. |
| Answer.FindYear | app.js:150-151 | A year is found exactly when `(19\|20)\d\d` occurs. It is the four characters of the leftmost occurrence, so it starts with 1 or 2. |
| Answer.TopMatch | app.js:153 | A count is found exactly when `top\s+\d` occurs. It is the decimal value of the (at most three) digits after the leftmost `top`, so it is below 1000. |
| Answer.TopN | app.js:153-156 | `topN` is in 1..50. It is 5 without a match, the count itself inside 1..50, 1 for 0 and 50 above. |
| Answer.LazyEnd | app.js:158 | The lazy capture ends at the first position where ` in <year>` or the end of input follows, with no line terminator inside. No earlier end is possible. |
| Answer.OfMatch | app.js:158 | There is no capture exactly when the pattern matches at no position. Otherwise the capture is the text of the leftmost match's lazy group: non-empty and free of line terminators. |
| Answer.IntentOf | app.js:158-196 | Branch precedence: `gdp of` first, then "highest/largest gdp", then `top N`, then the default. Each branch is taken exactly when the earlier ones fail. |
| Answer.Coverage | app.js:202-206 | The count of rows with a value never exceeds the number of rows. |
| Answer.LastCovered | app.js:201-209 | The last year column that at least 50 rows report. None of the later columns reaches 50. |
| Answer.CommonYear | app.js:199-210 | `latestCommonYear()` as a value: absent exactly when there are no year columns, always one of them. Whenever some column reaches 50 rows, the result is such a column at or after it. When none does, it is the last column. |
| Answer.LatestCommonYear | app.js:199-210 | The nested loops return the latest year, by position, reported by at least 50 rows. If none qualifies they return the last column, and `undefined` only when there are no year columns. |
| Answer.Candidates | app.js:213-222 | One entry per row with a value, in row order, each copying its row. There are exactly as many entries as the year's coverage. |
| Answer.RankByYear | app.js:212-226 | The pushed entries sorted by value, non-increasing, as a permutation of the candidates. |
| Answer.RankedExactly | app.js:212-226 | The ranking lists every row with a value for the year, none twice, each with its own name, code and value, largest first. |
| Answer.ReplyFor | app.js:143-197 | The reply is a ranking exactly when the `gdp of` pattern does not match. A ranking is a prefix of the year's `rankByYear`, at most 50 entries. A single-country reply uses the query's year when the query names one. |
| Answer.GdpOfTakesPrecedence | app.js:158-170 | A `gdp of` match is never answered with a ranking. The reply names the best keyword hit for the trimmed name, or no match exactly when there is no hit. The year is the query's year, else the row's latest (`null` if none). The value is reported exactly when the row has one for that year. |
| Answer.RankingReplies | app.js:172-196 | Otherwise the reply is the first entries of the year's ranking: `min(5, coverage)` for highest and default, `min(topN, coverage)` (at most 50) for top. The year is the query's year or the common year; the default branch always uses the common year. |
| Answer.Render | app.js:163-196 | A ranking reply starts with its headline (`<heading> in <year>:`) and a newline. Every other reply is one sentence ending with a period. |
| Answer.ComputeAnswer | app.js:143-197 | A query that matches `gdp of` after lower-casing gets a sentence ending in a period. Any other query gets its ranking headline on the first line. |
| Answer.RankingLayout | app.js:174-178 | A rendered ranking splits on newlines into its headline and one numbered line per entry. |
| Context.UrlLine | app.js:244-245 | The URL line is the fixed indicator URL followed by exactly the row's code. |
| Context.TitleSingleLine | app.js:231-245 | The title and URL lines contain no newline when the row's name, code and latest year have none. |
| Context.BuildContext | app.js:229-248 | No requested rows give the empty string. Otherwise the blocks joined by newlines equal the title and URL lines interleaved and joined. |
| Context.ContextLayout | app.js:229-248 | The context splits into two lines per requested row, in request order: the title line (anchor years 2000, 2010 and 2020 and the latest year) and the URL line. |
| Session.Session.constructor | app.js:5-8 | The globals start empty and `null`. |
| Session.Session.LoadCSV | app.js:38-75 | A failed response throws with its status and changes nothing. A body sets the year columns and one derived row per record, in order, and keeps the index and embeddings. |
| Session.Session.LoadEmbeddings | app.js:78-92 | A failed fetch or parse keeps the old value. A file is kept only when it has one entry per row, otherwise it becomes `null`. Alignment is preserved. |
| Session.Session.BuildLunrIndex | app.js:95-105 | The index is set, everything else is unchanged, and validity is preserved. |
| Session.Session.Snapshot | app.js:5-8 | A valid session gives a valid catalog. |

## Left out

- The page wiring: `boot`, `runAll`, `prettyList` and the event listeners (app.js:11-35, 251-287).
- `fetch` and the CSV parser. They become the `CsvResponse` and `EmbeddingsResponse` inputs. A rejected CSV fetch behaves like a failed response.
- The keyword engine's tokenising and scoring. It is an abstract hit list.
- `dot`, `norm`, `cosine` and `averageVec` (utils.js:2-12, app.js:126-133) are floating-point numerics. The similarity ordering is the parameter `cosine`.
- The embedding vectors' own contents and dimensions are not checked, just as the source does not check them.
- gen_embeddings.py: an offline script with file I/O and a model call.
- Rows.CellValue: what `Number(text)` gives for a cell is an input of the model, not computed. A cell of blanks, which JavaScript reads as 0, is therefore not special-cased.
- Format.ToFixed2: exact decimal rounding of real values, not binary floating point. Ties round away from zero.
- Format.LocaleText: the en-US locale only (comma grouping, at most three decimals). Other locales are not modelled.
- Text.Lower: lower-cases ASCII letters only. `toLowerCase` also maps other Unicode letters.
- `(query || '')` and `(q || '')`: a `null` query is not modelled. Queries are strings.
- Sorting.SortDesc: a stable insertion sort stands for the engine's `Array.prototype.sort`. Ties keep input order; NaN comparator results are outside the model.
- Answer.LatestCommonYear: its determinism and idempotence hold trivially, because it is a function of the rows and years.
- Fusion.Rrf: negative `topK` and `K` are not modelled. `slice` with a negative end and a negative damping constant are not used by the program.
- Session.Session.LoadEmbeddings: a JSON value that is not an array is the `EmbOther` case, which always ends with `null`. This is right for JSON `null` (reading `.length` throws after the assignment, and the `catch` keeps `null`) and for numbers and booleans (`undefined !== ROWS.length`). A JSON string, or an object whose `length` property equals the row count, is kept by the source but discarded by the model.
