# matchbox: compatibility arithmetic, data shaping and the `/calc/` endpoint

matchbox estimates how hard it is to find a kidney donor for a recipient. The recipient has a blood
group, a list of unacceptable HLA antigens (the "specs") and, optionally, their own HLA-B and HLA-DR
types. The server answers `GET /calc/` with these figures:

- **cRF**: the share of blood-group-identical donors who carry at least one unacceptable antigen;
- **available**: the number of compatible donors;
- **favourable**: the number of compatible donors that are a favourable B/DR match;
- **matchability**: a band looked up from a threshold table.

This project models that server code in Dafny, in five modules:

- `Wrappers` (`wrappers.dfy`): `Option` for Python's `None` and `Result` for a raised exception.
- `Text` (`text.dfy`): the Python string operations the server relies on, namely `isdigit`/`int`,
  `str.split` and `in` on strings, with their round-trip lemmas.
- `Calculator` (`calculator.dfy`), for `api/calculator.py`:
  - **Donors.** A donor is a blood group plus a map from antigen column to cell value. A table is
    its columns plus its rows. The `Calculator` object is a class whose fields are only assigned by
    the constructor, so they are `const`s.
  - **cRF** is the pair of counts (incompatible, total), not a float.
  - **Exceptions are values.** `KeyError` for a missing column or key, `ZeroDivisionError` when no
    donor has the recipient's blood group, and `StopIteration` when no band threshold is met become
    `Err` values.
- `Data` (`data.dfy`), for `api/data.py`. The tables are values (sequences of rows) once the sqlite
  and pandas I/O is removed. This module covers:
  - the locus parser;
  - the `antigens()` loop, as a method over a `defaultdict(list)` modelled as a map;
  - the DPB donor subset;
  - the in-place column-rename rule, as a method over an array;
  - the shapes of the band, matchability-antigen and default-antigen dictionaries.
- `Route` (`route.dfy`), for `api/route.py`:
  - the query patterns as a deterministic reader, proved to decide the regular expression — it accepts
    exactly the texts that some sequence of tokens spells;
  - the comma splits;
  - the bucketing loop that files recipient types under `"B"` or `"DR"`;
  - the endpoint, as a method that builds a `Calculator` and returns a 422, a 500 or the
    response body.

The calculator tests pass a `match_counts` field (tests/test_calculator.py:87). The server code's
`Results` has no such field (api/calculator.py:9-15), so the model follows the code.
The `antigen_defaults` test replaces the SQL query with a table that still holds a row of locus `A`.
The model applies the query's `where locus in ('B', 'DR')`, so that row is dropped.

## Model

| member | source | states |
|---|---|---|
| Text.DecimalRoundTrip | api/data.py:42 | `int(str(n)) == n` for every natural number, so a numeric column name turns back into its number |
| Text.ContainsMeansOccurs | api/data.py:59 | the substring test used to pick DPB columns holds exactly when the pattern occurs at some index |
| Text.JoinSplit | api/route.py:39 | joining the pieces of `s.split(",")` with commas gives back `s` |
| Text.SplitJoin | api/route.py:48 | splitting comma-joined pieces that hold no comma gives back the pieces |
| Calculator.Missing | api/calculator.py:53 | the names that are not columns, exactly; empty iff every selected name is a column (otherwise pandas raises KeyError) |
| Calculator.SameGroup | api/calculator.py:32 | the rows of the recipient's blood group, each as often as in the table, and no other row |
| Calculator.SplitDonors | api/calculator.py:51-54 | compatible and incompatible donors together are the donors as a multiset; every compatible donor has no donor-specific antibody, every incompatible one has one |
| Calculator.SplitPartition | api/calculator.py:51-54 | the two lists are disjoint and cover the donors; a donor is incompatible iff it has flag 1 for some spec; the counts add up to the donor count |
| Calculator.NoSpecsAllCompatible | api/calculator.py:53 | with no specs every donor is compatible and none incompatible |
| Calculator.MoreSpecsMoreIncompatible | api/calculator.py:53 | more specs never shrink the incompatible donors or grow the compatible ones, as multisets and in count |
| Calculator.CoveredIsExtended | api/calculator.py:72-74 | the recipient's types extended with defaults are exactly the types the recipient has, or has a rare type defaulting to |
| Calculator.MismatchesCountUncovered | api/calculator.py:72-76 | `Mismatches`, a donor's mismatch count (`len(d.difference(...))` against the extended recipient types), is the number of its types the recipient does not cover; it is at most the count against the recipient's own types; it is 0 iff all are covered |
| Calculator.NoMismatchIffCovered | api/calculator.py:76 | no type is left over iff every donor type is covered by the recipient or a default |
| Calculator.MoreRecipientTypesFewerMismatches | api/calculator.py:72-76 | more recipient types never increase a donor's mismatch count |
| Calculator.IsFavourable | api/calculator.py:90-92 | the rule (DR = 0 and B < 2) or (DR = 1 and B = 0) holds iff B + DR is at most 1 |
| Calculator.CountFavourable | api/calculator.py:90-92 | the count of favourable rows is at most the number of rows, 0 iff no row is favourable, and all rows iff every row is; its exact value, the number of donors the rule accepts, is stated by `SeriesCountIsFavourableDonors` and `FavourableDonorsCount` |
| Calculator.FavourableDonorsMembers | api/calculator.py:90-92 | `FavourableDonors` lists the donors the favourable rule accepts, in order: a donor is in the list iff it is one of the donors and the rule accepts its B and DR mismatches |
| Calculator.FavourableDonorsCount | api/calculator.py:90-95 | each donor occurs in `FavourableDonors` as often as among the donors when the rule accepts it, and not at all otherwise, so its length is the count of accepted rows |
| Calculator.TypesOf | api/calculator.py:62-67 | one entry per donor; an antigen is among its B (DR) types iff it is a listed B (DR) antigen whose flag in the donor's row is 1 |
| Calculator.MismatchSeries | api/calculator.py:72-76 | one count per donor: the number of its types at the locus that the recipient's types do not cover, directly or through a rare type's default |
| Calculator.SeriesCountIsFavourableDonors | api/calculator.py:81-92 | counting favourable rows over the B and DR series is counting the donors the rule accepts |
| Calculator.Insert | api/calculator.py:99 | inserting into sorted band items keeps them sorted by Python's tuple order and adds exactly the one item |
| Calculator.SortItems | api/calculator.py:99 | `sorted(items())` is sorted by tuple order and is a permutation of the items |
| Calculator.FirstQualifying | api/calculator.py:99 | `next(...)` returns the key of the first item whose threshold `fav` reaches, with no earlier item reaching its own; None (StopIteration) iff no threshold is reached |
| Calculator.Matchability | api/calculator.py:97-99 | the band is a key whose threshold `fav` reaches, and no band with a smaller key is reached; None iff no threshold is reached |
| Calculator.FirstInSortedIsLeast | api/calculator.py:99 | scanning the sorted items gives the least qualifying key of the unsorted table |
| Calculator.MatchabilityMonotone | api/calculator.py:99 | a higher favourable count is defined whenever a lower one is, and never gives a larger band, for any thresholds |
| Calculator.MatchabilityIsLeast | api/calculator.py:99 | any qualifying key below which nothing qualifies is the band returned, so the band is determined |
| Calculator.Calculator.constructor | api/calculator.py:21-38 | stores the arguments; keeps the blood-group-identical donors; splits them as `_get_donors` does, so `Valid()` holds. Requires every spec to be a column (the KeyError case, which `Route.Calc` handles) |
| Calculator.Calculator.GetDonorTypes | api/calculator.py:56-67 | no compatible donor gives an empty result; otherwise KeyError iff a locus key or one of its columns is missing; on success one entry per compatible donor, as `TypesOf` |
| Calculator.Calculator.GetMatching | api/calculator.py:69-76 | one count per donor, equal to the number of its types at the locus not covered by the recipient's types or their defaults; at most the donor's type count; 0 iff every type is covered |
| Calculator.Calculator.GetFavourableCount | api/calculator.py:78-95 | None without recipient types; with them, KeyError iff `GetDonorTypes` raises (the same error), otherwise the number of compatible donors `FavourableDonors` accepts, at most the compatible count |
| Calculator.Calculator.CalculateMatchability | api/calculator.py:97-99 | KeyError without a band table for the blood group; StopIteration iff no threshold is reached; the band `Matchability` gives whenever it gives one, and only that band |
| Calculator.Calculator.Calculate | api/calculator.py:40-49 | ZeroDivisionError iff no blood-group-identical donor; otherwise success iff the favourable count succeeds and, with recipient types, the band lookup succeeds, else their error; cRF = (incompatible, total) with total > 0; available + incompatible = total; favourable is the favourable count; matchability is the band for it; both None iff no recipient types; no specs give cRF 0 |
| Calculator.BloodGroupOnly | api/calculator.py:40-49 | blood group only: cRF 0 of all donors, every donor available, no favourable count and no band |
| Data.LeadingLetters | api/data.py:52 | the length of the leading run of `[ABCDRQPW]` letters |
| Data.LocusIsLeadingRun | api/data.py:50-53 | `GetLocus`'s locus is the leading run of locus letters when it has 1 to 3 letters and a digit follows; otherwise there is none; anything may follow the digit |
| Data.GetLocus | api/data.py:50-53 | the locus is a prefix of one to three locus letters followed by a digit, the longest such prefix; None iff no group length matches |
| Data.LocusExamples | api/data.py:52-53 | A1, B44, CW3, DR1, DPB11, BW4, DQ5 and A19_S give loci A, B, CW, DR, DPB, BW, DQ and A |
| Data.NoLocusExamples | api/data.py:52-53 | `bg`, a four-letter run, a letter outside the class and a name without a digit have no locus |
| Data.GroupPairsSelect | api/data.py:67-72 | appending pairs into a `defaultdict(list)` has a key iff some pair has it, and the key holds its values in order |
| Data.GroupPairsMeaning | api/data.py:89 | `GroupPairs`, the grouping of (locus, antigen) rows, has a key iff some row has it, and lists each value under its key as often as the row occurs |
| Data.LocusPairsCounts | api/data.py:69-72 | `LocusPairs`, the rows the loop emits, holds a (locus, column) pair as often as the column occurs, when the column is not excluded and has that locus, and never otherwise |
| Data.Antigens | api/data.py:65-73 | the loop builds the grouping of the listed columns: a locus is a key iff some listed column has it, and each listed column appears under its own locus exactly as often as it is a column |
| Data.AntigensMeaning | api/data.py:69-72 | every name under locus L has locus L and is not `A19_S`; it is repeated only as often as it occurs in the columns |
| Data.MatchabilityAntigens | api/data.py:86-89 | a locus is a key iff some row has it, and each antigen appears under its locus as often as the row occurs |
| Data.DpbColumns | api/data.py:59 | exactly the columns whose name contains `DPB`, as a membership statement; order and repetition are not stated, which is harmless because the columns of one sqlite table are distinct |
| Data.NoDpbTypeSumsToZero | api/data.py:60 | a donor with no DPB flag has DPB sum 0, so it is not in the DPB set |
| Data.WithDpb | api/data.py:60 | the rows with a positive DPB sum, each as often as in the table |
| Data.LoadDonors | api/data.py:55-63 | the whole table, and a DPB table with the same columns holding each row with a positive DPB sum exactly as often as the table does, and no other row |
| Data.RenamedNumberName | api/data.py:42 | `Renamed`, the rename rule, maps the name `str(n)` to the integer `n` (that any other name stays as it is holds by the definition of `Renamed`, and is not a separate lemma) |
| Data.RenameColumns | api/data.py:42-43 | every column label, in place, becomes its renamed label |
| Data.ToDictKeys | api/data.py:94 | `to_dict()` of a keyed column has a key iff some selected row has it |
| Data.ToDictLast | api/data.py:94 | a key maps to the value of the last selected row with that key |
| Data.DropEmpty | api/data.py:81 | the (band, threshold) items are exactly the filled cells |
| Data.MatchabilityBands | api/data.py:75-84 | a blood group is a key iff a row of the version has it; its bands are the filled cells of the last such row |
| Data.SingleRowBands | api/data.py:78-84 | a blood group with one row of the version maps to that row's filled cells |
| Data.AntigenDefaults | api/data.py:91-94 | a rare antigen is a key iff a B or DR row has it, and maps to the default of the last such row |
| Data.BaseData | api/data.py:96-105 | the loaded data holds the two donor sets, the antigens grouped by locus, the bands of version 4, and the matchability antigens and defaults |
| Route.BgValid | api/route.py:29 | the blood group is accepted iff it is exactly A, B, O or AB |
| Route.Head | api/route.py:30 | the piece read at the start is a token of the pattern, and the text is that token, its optional comma and the rest |
| Route.ParseSound | api/route.py:30 | what the reader accepts is a non-empty sequence of tokens that spells the input |
| Route.ParseComplete | api/route.py:30 | every non-empty sequence of tokens is read back from the text it spells |
| Route.ParseDecidesPattern | api/route.py:33 | `Parse`, the reader behind both list patterns, accepts a text iff some non-empty sequence of tokens, each optionally followed by a comma, spells it |
| Route.SpecsValid | api/route.py:30 | specs are accepted iff empty or spelled by a non-empty sequence of tokens of `[ABCD][QRPW]?[AB]?` and one to four digits, each with an optional comma after it |
| Route.RecipHlaValid | api/route.py:33 | recip_hla is accepted iff empty or spelled by a non-empty sequence of tokens of `[ABCD][QRPW]?` and one to three digits, each with an optional comma after it |
| Route.CommaList | api/route.py:48 | empty iff the parameter is absent or empty; otherwise the pieces join back to the parameter and none holds a comma |
| Route.SplitTokens | api/route.py:48 | splitting comma-separated tokens gives back the tokens, plus one empty piece after a trailing comma |
| Route.TrailingCommaSpec | api/route.py:30 | `A1,` passes the specs pattern and splits into `A1` and an empty name |
| Route.BucketRecipHla | api/route.py:39-42 | the loop builds exactly the reference map `Buckets`: every recipient type filed under B iff it starts with B and under DR otherwise, a key present iff some type is filed under it; empty iff there are no types |
| Route.BucketsFiles | api/route.py:39-42 | the reference map files every recipient type: a key is present iff some type starts a bucket there, and it holds exactly the types filed under it |
| Route.FilingIsBuckets | api/route.py:39-42 | any map that files the types in that sense is the reference map |
| Route.BucketsSnoc | api/route.py:41-42 | filing one more type adds it to the bucket of its key, creating the bucket when absent, and changes nothing else |
| Route.Bucket | api/route.py:42 | the key of a recipient type is B or DR, and B iff the type starts with B |
| Route.CalculatorAgrees | api/route.py:40-59 | for the calculator the endpoint builds: no recipient types iff recip_hla lists none; reading donor types fails iff the compatible donors' B/DR columns cannot be read; the favourable count is the number of compatible donors of the chosen set the rule accepts |
| Route.Calc | api/route.py:25-60 | 422 iff `QueryValid` fails (bg, specs and recip_hla against their patterns, donor_set 0 or 1); the donor set is `DonorSet`, `donors[1]` for donor_set 1 and `donors[0]` otherwise; 500 with KeyError when a spec is not a column; 500 when the donor set has no donor of the blood group; with recipient types, 500 exactly when the B/DR columns cannot be read (KeyError), the blood group has no band table (KeyError) or no threshold is reached (StopIteration); on success the body echoes bg, specs, recip_hla and the donor-set size, cRF and available come from the chosen donor set, favourable is the number of compatible donors `FavourableDonors` accepts and matchability is `Matchability` of the blood group's bands at that count; both None iff no recipient types; blood group only gives no favourable count and no band |

## Left out

- The browser script (`static/scripts.js`): DOM reads and writes, XHR calls and checkbox toggling.
  It is UI state, not compatibility arithmetic.
- The logger (`api/logger.py`) and the app wiring (`api/app.py`): filesystem, handlers and start-up hooks.
- The index route with its template rendering (api/route.py:18-22) and the rate limiter
  (api/route.py:26): framework behaviour, not arithmetic.
- The sqlite and pandas I/O, which the model replaces with in-memory tables:
  - connecting, checking that the file exists, the SQL text of `_load_table`, and the module-level
    load at api/data.py:118;
  - the `ValueError` and sqlite error path of `_load_table`, which logs and returns an empty frame.
- The float value of cRF: it is the pair of counts (incompatible, total).
- The unused local `available` at api/route.py:38.
- FastAPI's details of a 422 body, and the text of the exception behind a 500 (`Route.Calc` names the
  exception as a `CalcError`).
- `Route.BgValid`, `Route.SpecsValid` and `Route.RecipHlaValid`: the patterns are read as pydantic v2
  checks a `pattern=` constraint, with the Rust `regex` engine, where `$` matches only at the end of the
  text. The model reads `\d` as the ASCII digits 0-9; that engine also accepts other Unicode decimal
  digits. Under pydantic v1, which checks with Python's `re`, `$` also matches just before a final
  newline: `bg=A%0A` would pass and the calculator would find no donor of group `"A\n"` (a 500 where
  the model gives 422), and `specs=A1%0A` would reach a KeyError. That reading is not modelled.
- `Data.GetLocus`: `\d` is read as the ASCII digits; Python's `re` also accepts other Unicode decimal
  digits.
- `Data.Renamed`: all-digit names are those of ASCII digits. `str.isdigit()` (api/data.py:42) also holds
  for other Unicode digits: a name such as `"٣"` would become the integer 3, and one such as `"²"` makes
  `int` raise ValueError, which api/data.py:45-47 turns into an empty table. Neither case is modelled.
- `Calculator.Calculator.GetDonorTypes`: with compatible donors and an empty antigen list for B or DR,
  the model gives every donor an empty type set. pandas applies the row function over zero columns
  differently (the result is a frame without columns), so the frame built at
  api/calculator.py:65-67 would not hold those sets. The grouping of api/data.py:89 never lists a locus with
  no antigen, so no caller reaches this case.
- `Data.Antigens` and `Data.DpbColumns`: they take the donor columns as names. A donor column whose
  name is all digits would be renamed to an integer by `_load_table`; `_get_locus` and the `"DPB" in col`
  test would then raise TypeError, which the model does not capture.
- `Data.MatchabilityBands`: a row is keyed by blood group, with its numbered band columns already
  renamed to integers. The band columns are assumed distinct; pandas' NaN-to-float conversion of the
  cells is not modelled.
- Python's `None` for `recipient_bdr` is modelled as the empty map: both are falsy at
  api/calculator.py:80.
- An absent cell reads as 0, as NaN does under `.eq(1)` and `.sum()`. The donor-types table is a
  sequence in compatible-donor order, not a pandas index.
- `Calculator.RecipientTypes` reads an absent locus as the empty set, which is how the `defaultdict(set)` built
  by api/route.py:40-42 behaves. A `Calculator` given a plain dict without a "B" or "DR" key would raise
  KeyError at api/calculator.py:72; the model does not capture that, because the only caller passes the
  `defaultdict`.
- The `None` defaults of `hla_bdr`, `ag_defaults` and `matchability_bands` (api/calculator.py:21-29) are
  not modelled. The constructor always takes the three maps, as its only caller passes them (api/route.py:50-58).
- `match_counts`, which the tests pass (tests/test_calculator.py:87), is not a field of `Results`
  and is not modelled.
