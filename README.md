# Risk-audit matrix: a Dafny model

This project models the data logic inside `criar_matriz_risco_anual` of the
audit dashboard (`app.py`). The function takes the risk-audit rows of the
selected year and builds three things:

- a **unit × month grid**: one row per distinct unit, in ascending order, and
  twelve month cells per row. Each cell lists the acronyms ("siglas") of the
  rows for that unit and month, in row order. A cell shows one or two acronyms
  stacked, three or four in a two-column grid, or the first four and a `+k`
  badge. A cell without rows shows a `-` placeholder.
- an **acronym map** (`mapeamento_siglas`). It maps each acronym to the report,
  status, unit and month of the last row written under it. The title counts its
  keys, and `siglas_unicas` lists them sorted.
- a **status listing**. Each acronym of the map goes into one of seven status
  buckets, chosen by an ordered chain of substring tests on the lower-cased
  status. Each non-empty bucket becomes a section, in the fixed bucket order.
  A section's items are sorted by acronym and cut into columns of ten lines.
  Each line shows at most 35 characters of the report name.

HTML construction is not modelled; the output is plain data. A row is a
`Record` with optional unit, month, acronym, status and report name. The
months are already coerced to numbers. The loops of the source (units →
months → rows, and the bucketing loop) are methods. Each method is proved
equal to a specification function, and the lemmas state what the source
promises about those functions.

Files (one module each): `options.dfy`, `text.dfy` (substring test, Latin-1
lower-casing, code-point string order, decimal digits, prefix), `sorting.dfy`
(stable insertion sort by a string key, first-occurrence duplicate removal),
`chunking.dfy`, `records.dfy`, `grid.dfy`, `status.dfy`, `listing.dfy`, and
`matrix.dfy` (the whole function).

A quirk of the source, proved as its behaviour: the "Não Conforme" bucket can
never receive an item. Every status containing "não conforme" or "nao
conforme" also contains "conforme". The "conforme" test comes earlier in the
chain, so such a status is filed under "Conforme" (or "Conforme Parcialmente"
when it also says "parcial"). `StatusBuckets.NonCompliantStatusIsFiledCompliant`
shows this for the status "Não Conforme" itself. The model keeps this
behaviour as the source has it.

Another detail the model keeps: "last write wins" in the acronym map follows
the grid's loop order, not the raw row order. That order is unit ascending,
then month 1..12, then row order. Only rows that land in a cell ever reach
the map. `SiglaProvenance` states the map in terms of the rows themselves. Its
keys are the acronyms of the rows placed in some cell, so the title counts
those. The information stored under an acronym is that of the last such row
in (unit, month, row) order.

## Model

| member | source | states |
|---|---|---|
| `MatrixGrid.Units` | app.py:13 | the grid's units are every unit some row carries, strictly ascending (each once), none invented |
| `MatrixGrid.UnitColumn` | app.py:13 | dropping missing units keeps exactly the units some row carries |
| `Sorting.Unique` | app.py:13 | duplicate removal keeps each element once and loses none |
| `Sorting.Sort` | app.py:309 | `sorted`: the result is ordered by key and is a permutation of the input |
| `Sorting.Insert` | app.py:309 | inserting into a sorted list keeps it sorted and adds exactly that element |
| `Sorting.DistinctPermutation` | app.py:147 | a permutation of a list without repeats has no repeats |
| `Sorting.DistinctCardinality` | app.py:481 | a list without repeats has as many elements as its set |
| `Text.BelowTotal` | app.py:309 | Python string comparison: any two strings are ordered one way or the other |
| `Text.BelowTransitive` | app.py:309 | Python string comparison is transitive |
| `Text.BelowAntisymmetric` | app.py:147 | two strings each `<=` the other are equal, so sorting distinct keys gives a strict order |
| `Text.BelowReflexive` | app.py:13 | every string is `<=` itself |
| `Text.ContainsIffOccurs` | app.py:288 | `t in s` holds exactly when `t` occurs at some position of `s` |
| `Text.ContainsInSuffix` | app.py:294 | an occurrence in a suffix is an occurrence in the whole string |
| `Text.ContainsSuffixOfNeedle` | app.py:299 | whoever contains `a + b` contains `b` |
| `Text.ContainsNeedsChars` | app.py:288-302 | whoever contains `t` contains every character of `t` |
| `Text.LowerChar` | app.py:287 | lower-casing maps a letter to a lower-case ASCII letter exactly when it is an ASCII letter |
| `Text.Prefix` | app.py:334 | `s[:n]` is a prefix of `s` of length min(n, len(s)) |
| `Text.DigitChar` | app.py:104 | a digit below ten maps to the character that reads back as it |
| `Text.DigitValue` | app.py:104 | a digit character reads back as the digit it came from |
| `Text.Decimal` | app.py:104 | `str(n)` is a non-empty run of digits |
| `Text.DecimalRoundTrip` | app.py:104 | reading `str(n)` back as a number gives `n` |
| `RiskRecords.SiglaOf` | app.py:54 | a sheet without a `Sigla` column gives the acronym "REL" |
| `RiskRecords.StatusOf` | app.py:55 | a sheet without a `Status` column gives "Sem Status" |
| `RiskRecords.RelatorioOf` | app.py:53 | a sheet without a `Relatorio` column gives the empty report name |
| `Options.Option.GetOr` | app.py:53-55 | `row.get(col, default)`: the value when present, else the default |
| `MatrixGrid.MatchingRows` | app.py:40-45 | the rows in cell (u, m) are exactly those with unit u and month m, ascending |
| `MatrixGrid.CellFollowsRows` | app.py:52-67 | a cell lists the acronyms of its matching rows, one per row, in row order |
| `MatrixGrid.RowPlacement` | app.py:40-45 | a row lands in cell (u, m) iff its unit is u and its month is m, so a row without a numeric month in 1..12 lands in no cell; a row's unit always has a grid row |
| `MatrixGrid.LayoutShows` | app.py:98-142 | no acronym gives "-"; 1-2 are stacked; 3-4 are in a two-column grid; more than 4 show exactly the first 4, and the badge reads back as the number left out |
| `MatrixGrid.GridRowsAt` | app.py:38-144 | the rows built for a list of units are one per unit, in that order |
| `MatrixGrid.GridShape` | app.py:38-144 | one grid row per unit in ascending order; every row has exactly the month keys 1..12, each cell laid out from that unit and month's acronyms |
| `MatrixGrid.FillCell` | app.py:45-67 | the row scan yields the cell's acronyms and the map and key order after the cell's writes |
| `MatrixGrid.FillRow` | app.py:42-142 | the month loop yields the unit's grid row and the map after its twelve cells' writes |
| `MatrixGrid.BuildMatrix` | app.py:36-144 | the nested loops yield the grid, the acronym map after all writes in loop order, and the map's key order |
| `MatrixGrid.SiglaMapKeys` | app.py:59-64 | the map's keys are exactly the acronyms written |
| `MatrixGrid.LastWriteWins` | app.py:59-64 | an acronym maps to the information of its last write: no later write carries that acronym |
| `MatrixGrid.KeyOrderIsKeys` | app.py:271 | the dict's key order lists every key of the map once |
| `MatrixGrid.KeyCount` | app.py:147 | the map has as many keys as its key order has entries |
| `RiskMatrix.UniqueSiglas` | app.py:147 | `siglas_unicas` is strictly ascending and holds exactly the map's keys, which are the acronyms of the rows placed in some cell |
| `StatusBuckets.NegationMentionsConforme` | app.py:294-299 | any text containing "não conforme" or "nao conforme" contains "conforme" |
| `StatusBuckets.NonCompliantUnreachable` | app.py:286-302 | the classifier never picks the "Não Conforme" bucket |
| `StatusBuckets.NonComplianceFiledAsCompliance` | app.py:294-300 | a status saying "não conforme" and no earlier keyword is filed as "Conforme", or as "Conforme Parcialmente" if it says "parcial" |
| `StatusBuckets.NonCompliantStatusIsFiledCompliant` | app.py:294-300 | the status "Não Conforme" is filed under "Conforme" |
| `StatusBuckets.OtherMeansNoKeyword` | app.py:286-302 | "Outros" receives exactly the statuses whose lower-cased text contains none of "não iniciado", "nao iniciado", "pendente", "finalizado", "conforme"; the negated forms need no test of their own, since they contain "conforme" |
| `StatusBuckets.FillBuckets` | app.py:261-302 | the bucketing loop leaves all seven buckets present, each holding its items in key order |
| `StatusBuckets.BucketMembership` | app.py:271-302 | an acronym is in bucket b iff it is a key whose stored status picks b |
| `StatusBuckets.BucketDistinct` | app.py:271-302 | no bucket lists an acronym twice |
| `StatusBuckets.NonCompliantBucketEmpty` | app.py:267 | the "Não Conforme" bucket stays empty |
| `StatusBuckets.BucketsPartition` | app.py:286-302 | every key lands in exactly one bucket: the seven bucket sizes add up to the number of keys |
| `StatusBuckets.TotalSizeStep` | app.py:286-302 | one more key grows the buckets' total by the number of times its bucket is counted |
| `StatusBuckets.NothingFiled` | app.py:261-269 | with no keys, every bucket is empty |
| `RiskMatrix.ListingPartitionsSiglas` | app.py:271-302 | each acronym of the map is filed in exactly the bucket its status picks |
| `StatusListing.LineOf` | app.py:321-347 | a listing line keeps the acronym, unit and month and shows the first 35 characters of the report name |
| `StatusListing.SectionContents` | app.py:307-315 | a section counts its items; its columns read in turn give the items sorted by acronym; each column has 1-10 lines, all but the last exactly 10 |
| `StatusListing.SortedDistinct` | app.py:309 | sorting a bucket with distinct acronyms gives strictly ascending acronyms |
| `StatusListing.DistinctItems` | app.py:309 | items with distinct acronyms are distinct |
| `StatusListing.RankInOrder` | app.py:261-269 | the bucket at a bucket's rank in the fixed order is that bucket |
| `StatusListing.ListingSound` | app.py:307-308 | every section belongs to a non-empty bucket and is built from that bucket's items |
| `StatusListing.ListingComplete` | app.py:307-308 | every non-empty bucket has a section |
| `StatusListing.ListingOrdered` | app.py:307 | the sections' buckets are strictly ascending in the fixed bucket order, so at most one section per bucket |
| `StatusListing.ListingBucketsAmong` | app.py:307 | a section only ever names a bucket that was asked for |
| `StatusListing.ListingReadsOnly` | app.py:307-308 | the listing depends only on the contents of the buckets it visits |
| `RiskMatrix.SectionsStrictlyAscending` | app.py:309 | within a section, acronyms are strictly ascending |
| `RiskMatrix.FiledBuckets` | app.py:261-269 | all seven buckets exist, even when empty |
| `RiskMatrix.ListingInBucketOrder` | app.py:307-308 | the sections' buckets are strictly ascending in the fixed bucket order (one section per bucket at most), and every bucket that received an acronym has a section |
| `StatusBuckets.EveryBucketInOrder` | app.py:261-269 | the fixed bucket order lists every bucket |
| `StatusBuckets.OccursOnceInOrder` | app.py:261-269 | each bucket appears exactly once in the fixed order |
| `StatusListing.BucketOrderAscending` | app.py:261-269 | the fixed bucket order is strictly ascending by rank |
| `MatrixGrid.WriteStep` | app.py:59-64 | one more write sets the map at its acronym, and adds the acronym to the key order only when it is not yet a key |
| `RiskMatrix.NoNonCompliantSection` | app.py:267 | the listing never has a "Não Conforme" section |
| `RiskMatrix.CreateRiskMatrix` | app.py:1-481 | no rows give no matrix; otherwise the grid, `siglas_unicas` and the listing are those of the rows, and the title counts the rows and the distinct acronyms of the rows placed in some cell |
| `Chunking.FlattenChunks` | app.py:312-315 | reading the columns one after the other gives back the sorted list |
| `Chunking.ChunkSizes` | app.py:313-315 | every column holds 1 to 10 items, every column but the last exactly 10 |
| `Chunking.ChunkCount` | app.py:314 | there are ceil(n / 10) columns: the fewest columns of ten that hold n items |
| `Chunking.ChunkAt` | app.py:314-315 | column k is the slice `[10k : 10k + 10]` of the sorted list |
| `MatrixGrid.FillCellStep` | app.py:45-64 | one matching row extends the cell's acronyms by its acronym and updates the map and key order as one write |
| `SiglaProvenance.WritesTrackVisits` | app.py:36-64 | the map's writes are, one for one, the entries of the rows the nested loops visit, each stored under its cell's unit and month |
| `SiglaProvenance.VisitsAreRows` | app.py:40-45 | the loops visit row i in cell (u, m) exactly when row i has unit u and month m |
| `SiglaProvenance.VisitsInLoopOrder` | app.py:36-45 | the visits come unit ascending, then month 1..12, then row order |
| `SiglaProvenance.SiglaMapFromRows` | app.py:40-64 | an acronym is a key of the map iff some row with a unit and a month in 1..12 carries it |
| `SiglaProvenance.MapKeysArePlacedSiglas` | app.py:147 | the map's keys, which the title counts, are the acronyms of the rows placed in some cell |
| `SiglaProvenance.LastWriteIsLastCarrier` | app.py:59-64 | the last write of an acronym comes from a placed row carrying it that no other such row follows in loop order |
| `SiglaProvenance.LastRowWins` | app.py:36-64 | under each key the map holds the report, status, unit and month of the last placed row carrying that acronym, in (unit, month, row) order |
| `MatrixGrid.CellSiglas` | app.py:45-67 | definition: the acronyms of the rows with that unit and month, in row order; `MatrixGrid.CellFollowsRows` and `MatrixGrid.FillCell` prove it |
| `MatrixGrid.Layout` | app.py:98-142 | definition of the cell display; `MatrixGrid.LayoutShows` proves its four cases |
| `MatrixGrid.RowOf` | app.py:38-142 | definition of one unit's grid row; `MatrixGrid.GridShape` and `MatrixGrid.FillRow` prove it |
| `MatrixGrid.Grid` | app.py:36-144 | definition of the grid; `MatrixGrid.GridShape` and `MatrixGrid.BuildMatrix` prove it |
| `MatrixGrid.Writes` | app.py:38-64 | definition of the map's writes in loop order; `SiglaProvenance.WritesTrackVisits` ties them to the rows |
| `MatrixGrid.SiglaMap` | app.py:59-64 | definition of the dict after the writes; `MatrixGrid.SiglaMapKeys`, `MatrixGrid.LastWriteWins` and `SiglaProvenance.LastRowWins` prove its contents |
| `MatrixGrid.KeyOrder` | app.py:59-64 | definition of the dict's insertion order; `MatrixGrid.KeyOrderIsKeys` and `MatrixGrid.KeyCount` prove it |
| `StatusBuckets.Classify` | app.py:286-302 | definition of the classifier chain; `StatusBuckets.NonCompliantUnreachable`, `StatusBuckets.NonComplianceFiledAsCompliance` and `StatusBuckets.OtherMeansNoKeyword` prove its behaviour |
| `StatusBuckets.BucketItems` | app.py:271-302 | definition of one bucket's items in key order; `StatusBuckets.FillBuckets`, `StatusBuckets.BucketMembership` and `StatusBuckets.BucketDistinct` prove it |
| `StatusListing.SectionOf` | app.py:307-315 | definition of a section; `StatusListing.SectionContents` proves it |
| `StatusListing.Listing` | app.py:307-315 | definition of the listing; `StatusListing.ListingSound`, `StatusListing.ListingComplete` and `StatusListing.ListingOrdered` prove it |
| `Chunking.Chunks` | app.py:312-315 | definition of the columns of ten; `Chunking.FlattenChunks`, `Chunking.ChunkSizes`, `Chunking.ChunkCount` and `Chunking.ChunkAt` prove it |
| `Text.Contains` | app.py:288-300 | definition of `t in s`; `Text.ContainsIffOccurs` proves it |
| `Text.Lower` | app.py:287 | definition of `str.lower()` character by character; `Text.LowerChar` states what it does to one character |
| `Text.Below` | app.py:309 | definition of `<=` on strings; `Text.BelowTotal`, `Text.BelowTransitive`, `Text.BelowAntisymmetric` and `Text.BelowReflexive` prove it a total order, the order `sorted` uses |
| `RiskRecords.MonthName` | app.py:21-25 | `nomes_completos`: the full Portuguese name of each month 1..12 |

## Left out

- HTML construction: the acronym chips and their styles, the table and its header, the colour map of the sections, and the legend (app.py:70-92, 98-142, 150-255, 316-507). These are view markup and have no behaviour to verify. The cells are data (`Cell`) and the lines are data (`Line`).
- `get_status_color` (app.py:56, 319): it is defined outside this function and is not part of this model.
- The `print` logging (app.py:27-29).
- `siglas_por_unidade_mes` (app.py:33, 96): it is written but never read.
- The month abbreviations `nomes_meses` are used only by the table header. The `nomes_completos.get` fallback `"Mês {mes}"` is unreachable, because stored months are always 1..12 (the `Month` type).
- The `linha.get(mes, "-")` fallback when rendering (app.py:213) is unreachable: every row has all twelve month keys (`MatrixGrid.GridShape`).
- The section heading's `upper()` and the emoji and wording of the titles. The title is modelled by its figures only: the year as the caller formats it, the row count and the acronym count.
- pandas mechanics. `pd.to_numeric(errors='coerce')` is modelled as an `Option<int>` month. A non-integral number equals no month 1..12, in the source as in the model, so it is folded into `None`. A NaN in `Sigla`, `Status` or `Relatorio` is stringified by the caller. A missing column gives the source's default. Units are strings.
- Missing `Unidade` or `Mes` columns: the model assumes both exist, as every record has a unit and a month field. The source raises `KeyError` without them (app.py:13 and app.py:40 for `Unidade`, app.py:44 for `Mes`); that failure path is not modelled.
- Passing `None` instead of a data frame is modelled as the empty sequence; both give no matrix.
- Text.LowerChar: lower-cases only the Latin-1 range (A-Z and U+00C0..U+00DE except U+00D7), not all of Unicode as Python's `str.lower()` does; every keyword the classifier tests is in that range.
- Sorting.Sort: stability is not proved. Every sort in the model is over distinct keys (units, acronyms), where the order is unique anyway.
