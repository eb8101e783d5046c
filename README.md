# uemoa-macro-watch: a verified model of the macro table scripts

uemoa-macro-watch collects macroeconomic figures for the UEMOA zone into one
CSV table, `data/processed/macro_uemoa.csv`. Each row is one observation:
country, indicator, value, unit, date_reference, source_name, source_url,
collected_at and comment. The table is keyed by the three cells
country | indicator | date_reference.

Each script under `src/` reads a saved web page, PDF text or downloaded CSV,
extracts one figure and upserts the row into the table. An upsert drops the
rows carrying the same key and appends the new row. Maintenance scripts
deduplicate the table, relabel rows, delete rows and purge test rows.

This Dafny project models those scripts. The pieces are:

- `wrappers.dfy`: `Option` and `Result`.
- `text.dfy`: Python's `strip`, `lower`, `replace` and `find`, slicing, `sorted()[-1]`, and the whitespace normaliser.
- `numerals.dfy`: `float()` on decimal text, the scripts' `to_float` and `parse_number`, and zero-padded formatting.
- `matching.dfy`: the sentence chooser with its exclusion list, the ordered pattern chain, and the error excerpt.
- `table.dfy`: rows, frames, the joined key, the `upsert`/`upsert_macro` merge, column alignment and row filters.
- `store.dfy`: the CSV file as a class `MacroStore` and the generic loop "one upsert per item".
- One module per script:
  - `ihpc_latest.dfy`: src/12.
  - `anstat_latest.dfy`: src/18.
  - `official_inflation.dfy`: src/10c.
  - `inflation_pdf.dfy`: src/10.
  - `ci_ihpc_global.dfy`: src/11.
  - `inflation_yoy.dfy`: src/08.
  - `policy_rates.dfy`: src/04 and src/05.
  - `deduplicate.dfy`: src/06.
  - `ci_pdf_line.dfy`: src/19 and src/19b.
  - `indicator_id.dfy`: src/17.

The scripts' `main` flows are methods on the store. Each is proved against a
pure function of the inputs and the old file. The lemmas beside them state
what the repository promises, for example:

- upserts are idempotent and last-write-wins, and leave at most one row per key;
- rows of different keys survive each other's upserts;
- deduplication keeps each key's latest row;
- relabelling and deleting are no-ops the second time;
- the date parser picks the leftmost year-month.

In `src/06_deduplicate_macro_uemoa.py`, `drop_duplicates` compares the
three key cells, while the upsert compares the joined `"|"` string.
`Deduplicate.JoinedKeyCollision` and `Table.KeyCollision` exhibit the
difference.

## Model

| member | source | states |
|---|---|---|
| Text.Normalize | src/12_extract_ihpc_global_from_latest_pdf.py:45-46 | `normalize` leaves no outer whitespace and no two whitespace characters in a row; `NormalizeInnerRun` pins what becomes of an inner run |
| Text.NormalizeInnerRun | src/12_extract_ihpc_global_from_latest_pdf.py:45-46 | a whitespace run between two non-whitespace characters becomes exactly one ' ': `normalize(x + w + y) == normalize(x) + " " + normalize(y)` |
| Text.NormalizeIdempotent | src/12_extract_ihpc_global_from_latest_pdf.py:45-46 | applying `normalize` twice gives the same string as applying it once |
| Text.NormalizeFixesNormalized | src/11_extract_ci_ihpc_global.py:17-19 | a string already in normal form is returned unchanged |
| Text.NormalizeKeepsText | src/12_extract_ihpc_global_from_latest_pdf.py:45-46 | `normalize` only rewrites whitespace: the other characters survive, in order |
| Text.Collapse | src/12_extract_ihpc_global_from_latest_pdf.py:46 | `re.sub(r"\s+", " ", s)`: empty exactly when the input is, starts with whitespace exactly when the input does, and is single-spaced; the lemmas below pin each run |
| Text.CollapseAppend | src/12_extract_ihpc_global_from_latest_pdf.py:46 | where two pieces do not meet in whitespace, `re.sub(r"\s+", " ", …)` works piece by piece |
| Text.CollapseInnerRun | src/12_extract_ihpc_global_from_latest_pdf.py:46 | a whitespace run with non-whitespace (or the end) on both sides becomes exactly one ' ' |
| Text.CollapseAllSpace | src/12_extract_ihpc_global_from_latest_pdf.py:46 | a non-empty run of whitespace alone becomes " " |
| Text.StripAroundSpace | src/12_extract_ihpc_global_from_latest_pdf.py:46 | `strip()` keeps one ' ' standing between two non-whitespace characters and strips each side |
| Text.Strip | src/04_extract_policy_rate.py:15 | `strip()`: the result has no whitespace at either end and is the slice of the input just after its leading whitespace |
| Text.StripCutsSpace | src/04_extract_policy_rate.py:15 | everything `strip()` cuts away, at either end, is whitespace |
| Text.StripKeepsText | src/08_extract_inflation_yoy_v01.py:27 | `strip()` keeps every non-whitespace character, in order |
| Text.ReplaceChar | src/10_extract_inflation_from_pdf.py:34 | `replace(',', '.')`: same length, each ',' replaced and every other character kept in place |
| Text.DeleteChar | src/10_extract_inflation_from_pdf.py:34 | `replace('+', '')`: the multiset of characters loses exactly its '+', every other character keeping its count; a string without '+' is unchanged |
| Text.DeleteCharAppend | src/10_extract_inflation_from_pdf.py:34 | deleting works piece by piece (`(a + b).replace('+', '')` is `a.replace(...) + b.replace(...)`), so what remains keeps its order |
| Text.Find | src/04_extract_policy_rate.py:33 | `str.find`: the first position where the keyword occurs, or -1 exactly when it occurs nowhere |
| Text.Slice | src/04_extract_policy_rate.py:34 | Python slicing `s[a:b]`: both bounds are clamped to the length, so a start past the end gives "", and an empty result when b <= a |
| Text.LowerString | src/12_extract_ihpc_global_from_latest_pdf.py:91 | `lower()` keeps the length and lower-cases each character in place |
| Text.Greatest | src/12_extract_ihpc_global_from_latest_pdf.py:106-111 | `sorted(names)[-1]`: one of the names, and no name comes after it in Python's string order |
| Text.LexLeTotal | src/12_extract_ihpc_global_from_latest_pdf.py:106 | Python's string order compares any two names |
| Text.LexLeTrans | src/12_extract_ihpc_global_from_latest_pdf.py:106 | Python's string order is transitive |
| Text.LexLeAntisymmetric | src/12_extract_ihpc_global_from_latest_pdf.py:106 | two names that are each at most the other are equal |
| Numerals.ParseFloat | src/12_extract_ihpc_global_from_latest_pdf.py:93 | `float()`: a negative result needs a '-' in the text |
| Numerals.SignedSpaceRefused | src/10_extract_inflation_from_pdf.py:33-34 | `float()` refuses a sign followed by whitespace or by nothing |
| Numerals.ParseUnsignedAcceptsDecimal | src/04_extract_policy_rate.py:18-20 | every numeral shape the patterns capture (digits, optionally a point and digits) is accepted |
| Numerals.ParseUnsignedRefusesOtherStart | src/12_extract_ihpc_global_from_latest_pdf.py:93 | a text starting with neither a digit nor '.' is refused |
| Numerals.ParseUnsignedOfDigits | src/04_extract_policy_rate.py:20 | `float(str(n)) == n`: a run of digits converts to the number it denotes |
| Numerals.ParseUnsignedOfPointed | src/04_extract_policy_rate.py:18-20 | digits, '.', digits converts to the whole part plus the digits after the point divided by ten to the power of their count |
| Numerals.ParseUnsignedOfFraction | src/04_extract_policy_rate.py:18-20 | `float(str(n) + '.' + str(f))` is n + f / 10^len(str(f)) |
| Numerals.ParseFloatNegative | src/10_extract_inflation_from_pdf.py:33-34 | a '-' before a captured numeral converts to the negated value of the numeral |
| Numerals.ParseFloatDecimal | src/04_extract_policy_rate.py:18-20 | every captured unsigned numeral converts, to the value of the unsigned conversion, which is not negative |
| Numerals.ToFloat | src/04_extract_policy_rate.py:14-15 | `to_float`: without a '-' in the capture, the result is never negative |
| Numerals.ToFloatDecimal | src/05_extract_marginal_lending_rate.py:15-16 | `to_float` never refuses an unsigned numeral written with a decimal comma or point, and it equals `float()` of the comma-to-point rewrite |
| Numerals.ParseNumberUnsignedPlus | src/10_extract_inflation_from_pdf.py:33-34 | `parse_number`: without a '-' in the capture, the result is never negative |
| Numerals.MinusNotIntroduced | src/10_extract_inflation_from_pdf.py:34 | turning ',' into '.' and stripping never introduce a '-' |
| Numerals.CompactNumeral | src/12_extract_ihpc_global_from_latest_pdf.py:92 | the numeral after deleting spaces and turning ',' into '.' holds neither a space nor a comma |
| Numerals.ApplyDirection | src/12_extract_ihpc_global_from_latest_pdf.py:94-95 | the sign rule: after "baisse" (any case) the value is at most 0; otherwise it is the parsed value; it is always v or -v |
| Numerals.Digits | src/18_upsert_latest_anstat_inflation_ci.py:94 | `str(n)`: a non-empty run of digits that reads back as n, without leading zeros |
| Numerals.ZeroPadded | src/18_upsert_latest_anstat_inflation_ci.py:70 | `f"{n:0{w}d}"`: at least w characters, the digits reading back as |n|, with a leading '-' when n < 0 |
| Numerals.ZeroPaddedFits | src/18_upsert_latest_anstat_inflation_ci.py:70 | a number below 10^w pads to exactly w characters |
| Numerals.DigitsValueAppend | src/18_upsert_latest_anstat_inflation_ci.py:70 | the value of concatenated digit strings is the first value shifted by the second's length plus the second value |
| Matching.Exclude11Narrower | src/11_extract_ci_ihpc_global.py:41 | whatever the weaker exclusion excludes, the stricter one of the latest-bulletin script excludes too |
| Matching.SubIndexExcluded | src/11_extract_ci_ihpc_global.py:41 | a phrase mentioning a "Sous-Indice" is excluded, whatever the case of its letters |
| Matching.FirstAcceptable | src/12_extract_ihpc_global_from_latest_pdf.py:87-90 | the index of the first match, in text order, whose phrase has no excluded word; -1 exactly when every phrase is excluded |
| Matching.NarrowerStopsEarlier | src/11_extract_ci_ihpc_global.py:43-49 | on the same matches, the weaker exclusion stops no later than the stricter one |
| Matching.Extract | src/12_extract_ihpc_global_from_latest_pdf.py:86-97 | `extract_value`: nothing exactly when every match is excluded; otherwise the first acceptable match's phrase and its converted numeral with the sign rule applied (at most 0 after "baisse"), or a conversion failure at that match |
| Matching.FirstAcceptableUnique | src/12_extract_ihpc_global_from_latest_pdf.py:87-96 | the first acceptable match is unique |
| Matching.ExcludedSkipped | src/12_extract_ihpc_global_from_latest_pdf.py:89-90 | an excluded match is skipped: placing it first shifts the choice by one |
| Matching.FirstHit | src/10_extract_inflation_from_pdf.py:82-87 | the first pattern that matched; -1 exactly when none did |
| Matching.ChainOutcome | src/10_extract_inflation_from_pdf.py:80-87 | the pattern chain: no hit exactly when no pattern matched; otherwise the first matching pattern, with its converted capture or a conversion failure |
| Matching.SearchPatterns | src/04_extract_policy_rate.py:23-30 | the loop that tries the patterns in order and stops at the first match returns the chain's outcome |
| Matching.ErrorSnippet | src/04_extract_policy_rate.py:32-35 | the ValueError excerpt is a piece of the page no longer than `text[:600]` without "taux" and than the 650-character window with it |
| Matching.Excerpt | src/04_extract_policy_rate.py:34 | the excerpt is at most `fallback` characters long without the keyword, and at most `before + after` with it |
| Matching.ErrorSnippetHead | src/04_extract_policy_rate.py:34 | without the keyword the excerpt is the head of the page (`text[:600]`) |
| Matching.ErrorSnippetSlice | src/04_extract_policy_rate.py:33-34 | with the keyword the excerpt is exactly `Window`, Python's slice `text[max(0, idx-before) : idx+after]` with both bounds clamped to the length, around the keyword's first occurrence `idx`: start and end are both pinned |
| Matching.ErrorSnippetShowsKeyword | src/05_extract_marginal_lending_rate.py:38-39 | that window shows the whole keyword |
| Table.Key | src/12_extract_ihpc_global_from_latest_pdf.py:78-79 | the key is as long as the three key cells rendered as text plus two separators, with a '|' right after the rendered country and right after the rendered indicator (collisions in `Table.KeyCollision`) |
| Table.Without | src/12_extract_ihpc_global_from_latest_pdf.py:80 | `df[~old_keys.isin(new_keys)]` never grows the table and keeps no row with the removed key (the kept rows and their order in `Table.WithoutSpec`) |
| Table.WithoutSpec | src/12_extract_ihpc_global_from_latest_pdf.py:78-80 | `df[~old_keys.isin(new_keys)]` keeps exactly the rows with another key, in their order |
| Table.SelectWithout | src/12_extract_ihpc_global_from_latest_pdf.py:80 | after the removal a key has no rows when it is the new key, and its old rows otherwise |
| Table.MergeContents | src/12_extract_ihpc_global_from_latest_pdf.py:80 | after the merge the rows are the new row plus the old rows with another key, and the old rows keep their order |
| Table.MergeKeyCount | src/10_extract_inflation_from_pdf.py:14-19 | exactly one row carries the new key afterwards, even if the table held several |
| Table.MergeKeepsOtherKeys | src/18_upsert_latest_anstat_inflation_ci.py:45-47 | rows of every other key keep their values, multiplicity and order |
| Table.MergeLength | src/12_extract_ihpc_global_from_latest_pdf.py:78-80 | the length becomes the old length minus the same-key rows plus one, so at most one more |
| Table.MergeIdempotent | src/12_extract_ihpc_global_from_latest_pdf.py:73-80 | upserting the same row twice equals upserting it once |
| Table.MergeLastWriteWins | src/04_extract_policy_rate.py:57-66 | a later upsert of the same key completely replaces the earlier one |
| Table.MergeKeepsUnique | src/12_extract_ihpc_global_from_latest_pdf.py:73-80 | the upsert keeps a table free of duplicate keys |
| Table.MergeAllDistinct | src/18_upsert_latest_anstat_inflation_ci.py:83-99 | after upserts of rows with pairwise different keys, each new row is in the table exactly once |
| Table.MergeAllOtherKeys | src/18_upsert_latest_anstat_inflation_ci.py:83-99 | a key none of the upserted rows carries comes through unchanged |
| Table.KeyInjective | src/12_extract_ihpc_global_from_latest_pdf.py:78-79 | when no key cell contains '|', equal joined keys mean equal key cells |
| Table.KeyCollision | src/12_extract_ihpc_global_from_latest_pdf.py:78-79 | two different key triples, ("a|b", "c", d) and ("a", "b|c", d), join to the same key |
| Table.UnionColumns | src/12_extract_ihpc_global_from_latest_pdf.py:80 | the columns of `pd.concat`: the first frame's columns, then the others not already there |
| Table.Upsert | src/12_extract_ihpc_global_from_latest_pdf.py:73-80 | `upsert`: an empty frame gives exactly the new row; otherwise KeyError exactly when a key column is missing; on success the new row is last and alone under its key, the length is at most one more, and the other keys are untouched |
| Table.UpsertMembers | src/10c_write_official_inflation_and_purge_tests.py:16-23 | the upsert introduces no rows other than the new one |
| Table.Align | src/18_upsert_latest_anstat_inflation_ci.py:37-43 | the column alignment adds the missing schema columns after the existing ones and leaves the rows as they were |
| Table.UpsertAligned | src/18_upsert_latest_anstat_inflation_ci.py:31-47 | the aligned upsert never raises; the new row is last and alone under its key, and on a non-empty frame the other keys are untouched |
| Table.UpsertAgreesWithAligned | src/18_upsert_latest_anstat_inflation_ci.py:31-47 | where the plain upsert succeeds, the aligned one gives the same frame |
| Table.UpsertFile | src/10_extract_inflation_from_pdf.py:10-21 | `upsert_macro`: without a file the table becomes exactly the new row; with a file, KeyError exactly when a key column is missing, and otherwise the new row is last and alone under its key with the other keys untouched |
| Table.UpsertFileAgrees | src/11_extract_ci_ihpc_global.py:59-71 | on a non-empty table, the file-backed upsert and the in-memory one agree |
| Table.UpsertFileLastWriteWins | src/04_extract_policy_rate.py:57-68 | two file-backed upserts of the same key leave the rows that one upsert of the second row gives |
| Table.UpsertFileOnHeaderOnly | src/08_extract_inflation_yoy_v01.py:15-20 | on a file with a header and no rows, the table becomes the new row and keeps the file's columns |
| Table.DropIndicator | src/10c_write_official_inflation_and_purge_tests.py:29 | `df[df["indicator"].astype(str) != name]`: a row is in the result exactly when it was in the input and its indicator renders differently; the result is never longer |
| Table.DropIndicatorCount | src/10c_write_official_inflation_and_purge_tests.py:29 | the filter removes exactly as many rows as have an indicator rendering as `name`, so with `DropIndicatorInOrder` every other row is kept, with its multiplicity |
| Table.DropIndicatorNone | src/10c_write_official_inflation_and_purge_tests.py:29 | a table with no such row passes through unchanged |
| Table.DropIndicatorInOrder | src/10c_write_official_inflation_and_purge_tests.py:29 | the rows it keeps stay in their original order |
| Store.RunSteps | src/10_extract_inflation_from_pdf.py:71-107 | a loop of independent upserts into the file: an existing file stays; when every step is skipped, the file is unchanged and nothing is raised |
| Store.StepEffect | src/11_extract_ci_ihpc_global.py:81-99 | one step: a skip or an exception leaves the file as it was; a written row ends up alone under its key |
| Store.RunStepsHead | src/10_extract_inflation_from_pdf.py:71-107 | the loop runs the first step, then the rest unless that step raised |
| Store.RunStepsWf | src/10_extract_inflation_from_pdf.py:71-107 | every table the steps write is well formed |
| Store.RunStepsKeeps | src/10_extract_inflation_from_pdf.py:71-107 | in an existing file, a key no step writes keeps exactly the rows it had |
| Store.RunStepsWritesAll | src/10_extract_inflation_from_pdf.py:71-107 | a loop that runs to its end, with rows of pairwise different keys, leaves every written row in the file exactly once |
| Store.MacroStore.Load | src/12_extract_ihpc_global_from_latest_pdf.py:68-71 | `load_df`: an empty frame when the file is absent, else its table |
| Store.MacroStore.Read | src/06_deduplicate_macro_uemoa.py:8-11 | `read_csv`: FileNotFoundError exactly when the file is absent |
| Store.MacroStore.Save | src/12_extract_ihpc_global_from_latest_pdf.py:82-84 | `to_csv`: the file now holds the given table |
| Store.MacroStore.UpsertMacro | src/10_extract_inflation_from_pdf.py:10-21 | the file after `upsert_macro`, or the KeyError with the file untouched |
| IhpcLatest.MonthStart | src/12_extract_ihpc_global_from_latest_pdf.py:59 | the year-month pattern matches at i exactly when a `20dd` starts there and a month 01..12 follows it directly or after one '_' or '-'; the result is where that month starts |
| IhpcLatest.FirstYearMonth | src/12_extract_ihpc_global_from_latest_pdf.py:59 | the leftmost position of that match; -1 exactly when there is none |
| IhpcLatest.FirstYear | src/12_extract_ihpc_global_from_latest_pdf.py:63 | the leftmost `20\d{2}`; -1 exactly when there is none |
| IhpcLatest.ParseDateReference | src/12_extract_ihpc_global_from_latest_pdf.py:57-66 | `parse_date_reference_from_name` returns None exactly when the name holds no `20dd` |
| IhpcLatest.ParseDateYearMonth | src/12_extract_ihpc_global_from_latest_pdf.py:59-61 | with a year-month match, the result is "YYYY-MM": the leftmost match's year, a dash and a valid month |
| IhpcLatest.ParseDateYearOnly | src/12_extract_ihpc_global_from_latest_pdf.py:63-65 | without a year-month match, the result is the leftmost four-character year |
| IhpcLatest.ParseDateExample | src/12_extract_ihpc_global_from_latest_pdf.py:57-66 | "SEN_ANSD_IHPC_2024_12_20251218_044209.pdf" gives "2024-12": the leftmost match wins over the later time stamp |
| IhpcLatest.ParseYearOnlyExample | src/12_extract_ihpc_global_from_latest_pdf.py:63-65 | a name with a year and no month after it gives the year alone |
| IhpcLatest.TargetStep | src/12_extract_ihpc_global_from_latest_pdf.py:105-136 | the work for one target; any row it writes carries the target's country |
| IhpcLatest.TargetStepSkips | src/12_extract_ihpc_global_from_latest_pdf.py:106-122 | a target is skipped when it has no PDF, is not dated from its file name, its latest file name holds no date, or no sentence is acceptable |
| IhpcLatest.TargetStepWrites | src/12_extract_ihpc_global_from_latest_pdf.py:124-136 | a written row carries the latest file's date, the extracted value and the phrase |
| IhpcLatest.TargetStepAborts | src/12_extract_ihpc_global_from_latest_pdf.py:93 | the script ends only when `float()` refuses the chosen sentence's numeral |
| IhpcLatest.SkippedLeaveTable | src/12_extract_ihpc_global_from_latest_pdf.py:103-144 | when no target writes, the table is exactly as loaded |
| IhpcLatest.WrittenStaysWritten | src/12_extract_ihpc_global_from_latest_pdf.py:137 | once a row is written, `any_written` stays set |
| IhpcLatest.BothCountriesKept | src/12_extract_ihpc_global_from_latest_pdf.py:14-32 | each country's written row is in the final table exactly once; the later upsert does not remove the earlier row |
| IhpcLatest.CountriesDiffer | src/12_extract_ihpc_global_from_latest_pdf.py:16 | the two targets' rows never share a key |
| IhpcLatest.Run | src/12_extract_ihpc_global_from_latest_pdf.py:99-144 | `main`: saves the final table exactly when some target wrote; leaves the file untouched when nothing is written or an exception ends the run |
| AnstatLatest.LatestIndex | src/18_upsert_latest_anstat_inflation_ci.py:62-67 | the line `iloc[-1]` picks after the ascending sort: no line is later in (year, month), and among lines with the latest period it is the last in file order |
| AnstatLatest.DateRef | src/18_upsert_latest_anstat_inflation_ci.py:70 | `f"{y:04d}-{m:02d}"` is at least 7 characters |
| AnstatLatest.DateRefRoundTrip | src/18_upsert_latest_anstat_inflation_ci.py:70 | for a year 0..9999 and a month 0..99 the reference is exactly "YYYY-MM", and both numbers read back from it |
| AnstatLatest.LastObservation | src/18_upsert_latest_anstat_inflation_ci.py:57-72 | `last_observation`: IndexError exactly on an empty CSV; otherwise the date and `valeur` of a line with the maximal (year, month), the last such line in file order |
| AnstatLatest.LastObservationAppend | src/18_upsert_latest_anstat_inflation_ci.py:65-71 | a line no earlier than all the others is the observation returned |
| AnstatLatest.SeriesRow | src/18_upsert_latest_anstat_inflation_ci.py:87-97 | the row carries the country, the series' name and unit, the date, the value, the source and the download URL of the series id |
| AnstatLatest.SeriesStep | src/18_upsert_latest_anstat_inflation_ci.py:84-97 | one series: a failed download raises, an empty CSV raises IndexError, and otherwise the row for the series' name |
| AnstatLatest.Series4KeysApart | src/18_upsert_latest_anstat_inflation_ci.py:15-20 | the four indicator names part before either ends, so their rows never share a key |
| AnstatLatest.StepsKeysApart | src/18_upsert_latest_anstat_inflation_ci.py:83-99 | the rows built for two different series never share a key |
| AnstatLatest.SeriesFromKeeps | src/18_upsert_latest_anstat_inflation_ci.py:99 | later upserts of other keys leave a key's rows as they were |
| AnstatLatest.SeriesFromWritesAll | src/18_upsert_latest_anstat_inflation_ci.py:83-99 | when the loop completes, every series' row is in the table exactly once |
| AnstatLatest.FourSeriesWritten | src/18_upsert_latest_anstat_inflation_ci.py:83-102 | the four series all land in the table, each exactly once, whatever the table held before |
| AnstatLatest.Run | src/18_upsert_latest_anstat_inflation_ci.py:74-102 | `main`: saves the table after the four upserts; a failed download or an empty CSV raises before the save, with the file untouched |
| OfficialInflation.RowSen | src/10c_write_official_inflation_and_purge_tests.py:34-44 | Senegal's audited row: 0.8 for "2024", stamped `now`, not a test row |
| OfficialInflation.RowCiv | src/10c_write_official_inflation_and_purge_tests.py:48-58 | Côte d'Ivoire's audited row: -0.6 for "2025-06", stamped `now`, not a test row |
| OfficialInflation.Purge | src/10c_write_official_inflation_and_purge_tests.py:28-29 | the purge runs only on a non-empty frame with an indicator column, and then a row of the input is kept exactly when its indicator is not "Inflation IHPC YoY"; otherwise the frame is unchanged (multiplicity in `OfficialInflation.PurgeSpec`) |
| OfficialInflation.PurgeSpec | src/10c_write_official_inflation_and_purge_tests.py:28-29 | the purge leaves no test row, keeps the table well formed, and keeps the other rows in their order; it removes exactly one row per test row, so no other row is lost or collapsed |
| OfficialInflation.PurgeThenUpsert | src/10c_write_official_inflation_and_purge_tests.py:25-59 | purge then two upserts: never fails when the purge left an empty frame, and otherwise fails exactly when a key column is missing |
| OfficialInflation.FirstUpsert | src/10c_write_official_inflation_and_purge_tests.py:45 | the frame after the first upsert is never empty, so the second upsert takes the merge branch |
| OfficialInflation.PurgeThenUpsertKeepsBoth | src/10c_write_official_inflation_and_purge_tests.py:45-59 | two rows with different keys are each in the result exactly once |
| OfficialInflation.PurgeThenUpsertMembers | src/10c_write_official_inflation_and_purge_tests.py:45-59 | nothing but the two rows is added to what the purge kept |
| OfficialInflation.PurgeThenUpsertClean | src/10c_write_official_inflation_and_purge_tests.py:29 | no test row is left, and every row is one of the two or was already in the table |
| OfficialInflation.PurgeThenUpsertKeepsOthers | src/10c_write_official_inflation_and_purge_tests.py:16-23 | every other key keeps the rows it had after the purge |
| OfficialInflation.AuditedRowsApart | src/10c_write_official_inflation_and_purge_tests.py:34-59 | the Senegal and Côte d'Ivoire rows have different keys and neither is a test row |
| OfficialInflation.Script | src/10c_write_official_inflation_and_purge_tests.py:25-61 | the module body: it never fails when the purge empties the table and otherwise fails exactly when a key column is missing; on success each audited row is in the table exactly once |
| OfficialInflation.ScriptSpec | src/10c_write_official_inflation_and_purge_tests.py:25-61 | the saved table holds each audited row exactly once and no test row |
| OfficialInflation.Run | src/10c_write_official_inflation_and_purge_tests.py:25-61 | the file afterwards is the script's table, or stays as it was when an upsert raises |
| InflationPdf.PdfRow | src/10_extract_inflation_from_pdf.py:95-105 | the row carries the entry's country and date_reference, indicator "Inflation IHPC YoY", unit "%" and the value |
| InflationPdf.EntryStep | src/10_extract_inflation_from_pdf.py:71-105 | an entry without a bulletin is skipped; a written row's value is `parse_number` of the capture of the first pattern that matches the latest bulletin, every earlier pattern having failed |
| InflationPdf.EntryStepWith | src/10_extract_inflation_from_pdf.py:71-105 | no file means skip; any exception is a ValueError; a written row carries the YoY indicator, '%' and the entry's date and country |
| InflationPdf.EntryStepSkips | src/10_extract_inflation_from_pdf.py:89-93 | an entry is skipped exactly when no pattern matches its latest file |
| InflationPdf.EntryStepAborts | src/10_extract_inflation_from_pdf.py:85 | the script ends exactly when the first matching pattern's capture does not convert |
| InflationPdf.EntryStepWrites | src/10_extract_inflation_from_pdf.py:82-87 | the row's value is the converted capture of the first matching pattern; every earlier pattern failed to match |
| InflationPdf.SpacedMinusRefused | src/10_extract_inflation_from_pdf.py:33-40 | "- 0,6", which the patterns allow, makes `parse_number` fail |
| InflationPdf.PdfMapWritesApart | src/10_extract_inflation_from_pdf.py:45-67 | the rows of the three entries never share a key |
| InflationPdf.EveryFoundFigureKept | src/10_extract_inflation_from_pdf.py:71-107 | a loop that runs to its end leaves each written row in the file exactly once |
| InflationPdf.EntryOutcome | src/10_extract_inflation_from_pdf.py:72-87 | the pattern loop over the latest bulletin reaches exactly the decision `EntryStep` describes: skip, ValueError or the row to write |
| InflationPdf.RunEntry | src/10_extract_inflation_from_pdf.py:72-107 | one pass of the loop body changes the file exactly as that entry's step says |
| InflationPdf.Run | src/10_extract_inflation_from_pdf.py:71-107 | the file and exception after the loop are those of the entries run in order, each upserted at once |
| CiIhpcGlobal.GlobalRow | src/11_extract_ci_ihpc_global.py:87-97 | the row has the fixed country, indicator and "2025-06" reference, unit '%', the signed value, and the chosen phrase in its comment |
| CiIhpcGlobal.ScriptStep | src/11_extract_ci_ihpc_global.py:74-97 | FileNotFoundError exactly when there is no bulletin; a "not found" ValueError when every match is excluded; otherwise a row with the first acceptable phrase and its signed value (at most 0 after "baisse") |
| CiIhpcGlobal.AcceptedByStricterRule | src/11_extract_ci_ihpc_global.py:41 | on the same matches of this script's pattern, whenever src/12's stricter exclusion rule would accept one, this script does not end with "not found" (src/12's own pattern, with other verbs and gaps, is not compared) |
| CiIhpcGlobal.Run | src/11_extract_ci_ihpc_global.py:74-99 | the file changes only through the final upsert; an exception before it leaves the file untouched |
| InflationYoy.SignedFigure | src/08_extract_inflation_yoy_v01.py:36 | `parse_number(capture.replace("+", ""))`: without a '-', the result is never negative |
| InflationYoy.DeleteReplaceCommute | src/08_extract_inflation_yoy_v01.py:26-27 | deleting '+' and turning ',' into '.' commute |
| InflationYoy.SameReadingAsPdfScript | src/08_extract_inflation_yoy_v01.py:59 | this script and the PDF script read every capture alike |
| InflationYoy.PlusIgnored | src/08_extract_inflation_yoy_v01.py:36 | a leading '+' is ignored, and an unsigned numeral always converts, to a value that is not negative |
| InflationYoy.PlusExample | src/08_extract_inflation_yoy_v01.py:36 | "+0,8" gives 0.8 |
| InflationYoy.FirstFitting | src/08_extract_inflation_yoy_v01.py:34 | `re.search`'s choice: the first place, in the order the engine tries them, that fits; -1 exactly when none does |
| InflationYoy.SenRow | src/08_extract_inflation_yoy_v01.py:36-48 | the Senegal row: indicator "Inflation IHPC YoY", unit '%', the value, dated by the captured year alone |
| InflationYoy.CivRow | src/08_extract_inflation_yoy_v01.py:59-73 | the Côte d'Ivoire row: the same indicator and unit, dated by the year, a dash and the month word as written |
| InflationYoy.SenStep | src/08_extract_inflation_yoy_v01.py:29-50 | the Senegal block: IndexError exactly when there is no saved page; skip exactly when the pattern fits nowhere; otherwise the row dated by the captured year |
| InflationYoy.CivStep | src/08_extract_inflation_yoy_v01.py:52-75 | the Côte d'Ivoire block: the same cases, with the row dated "<year>-<month>" only where `\2` repeats the month word |
| InflationYoy.CivDateShape | src/08_extract_inflation_yoy_v01.py:68 | "<year>-<month word>" has a letter where a numeric month would have a digit |
| InflationYoy.CivDateKeepsMonthWord | src/08_extract_inflation_yoy_v01.py:62-68 | the Côte d'Ivoire row's date never has the numeric YYYY-MM form the other scripts write |
| InflationYoy.CountriesApart | src/08_extract_inflation_yoy_v01.py:39 | rows of the two countries never share a key |
| InflationYoy.BlocksApart | src/08_extract_inflation_yoy_v01.py:38-73 | the two blocks' rows never share a key |
| InflationYoy.RowsKept | src/08_extract_inflation_yoy_v01.py:35-75 | a completed run leaves each written row exactly once; when the second block fails, the first block's row stays |
| InflationYoy.Script | src/08_extract_inflation_yoy_v01.py:29-75 | without a saved Senegal page the script raises IndexError before touching the file; when neither pattern fits the file is unchanged; when the Senegal pattern fits nowhere and the Côte d'Ivoire page is missing it raises IndexError with the file unchanged |
| InflationYoy.Run | src/08_extract_inflation_yoy_v01.py:29-75 | the file and the exception are those of the two blocks run in order |
| PolicyRates.Hits | src/04_extract_policy_rate.py:25-26 | the patterns' captures, in list order |
| PolicyRates.RateRow | src/04_extract_policy_rate.py:37-47 | every row of a script carries its fixed key |
| PolicyRates.NotFoundMessage | src/04_extract_policy_rate.py:32-35 | the message is the fixed text plus an excerpt of at most `before + after` characters (`fallback` characters when the keyword is absent) |
| PolicyRates.RateStep | src/04_extract_policy_rate.py:7-47 | IndexError exactly when no page was saved; with no match, the ValueError carrying the excerpt; otherwise the row of the first matching pattern, under the fixed key |
| PolicyRates.RateNotNegative | src/04_extract_policy_rate.py:17-30 | captures carry no sign, so with a saved page the script either writes a rate that is not negative or raises "not found" |
| PolicyRates.KeysDiffer | src/05_extract_marginal_lending_rate.py:42-52 | the marginal-lending key differs from the policy-rate key |
| PolicyRates.RatesCoexist | src/05_extract_marginal_lending_rate.py:57-68 | after both scripts run, in either order, each rate is in the file exactly once |
| PolicyRates.RerunReplaces | src/04_extract_policy_rate.py:57-66 | re-running a script replaces its row instead of duplicating it |
| PolicyRates.Run | src/04_extract_policy_rate.py:23-68 | the file and exception are those the script's step gives |
| Deduplicate.SortByCollected | src/06_deduplicate_macro_uemoa.py:16-17 | the sort returns a permutation of the rows |
| Deduplicate.SortSorted | src/06_deduplicate_macro_uemoa.py:17 | the sort's result is ordered by `collected_at`, missing values last |
| Deduplicate.SortOfSorted | src/06_deduplicate_macro_uemoa.py:17 | rows that are already in order are left as they are |
| Deduplicate.DropDuplicatesKeepLast | src/06_deduplicate_macro_uemoa.py:21 | `drop_duplicates(keep="last")` never lengthens the table, keeps only input rows and loses no key |
| Deduplicate.DropLeavesUnique | src/06_deduplicate_macro_uemoa.py:21 | no two kept rows agree on all three key cells |
| Deduplicate.DropKeepsOrder | src/06_deduplicate_macro_uemoa.py:21 | dropping rows from an ordered table leaves it ordered |
| Deduplicate.KeepsLastOccurrences | src/06_deduplicate_macro_uemoa.py:21 | exactly the last row of each key survives |
| Deduplicate.LastOccurrencesKept | src/06_deduplicate_macro_uemoa.py:21 | every row that is the last of its key is kept |
| Deduplicate.KeptAreLastOccurrences | src/06_deduplicate_macro_uemoa.py:21 | every kept row is the last of its key |
| Deduplicate.RetainedIsLatest | src/06_deduplicate_macro_uemoa.py:16-21 | in any order sorted by `collected_at`, the kept row of a key has its key's greatest `collected_at` |
| Deduplicate.DropDuplicatesOfUnique | src/06_deduplicate_macro_uemoa.py:21 | a table without duplicate keys passes unchanged |
| Deduplicate.JoinedKeyCollision | src/06_deduplicate_macro_uemoa.py:13 | rows whose joined keys coincide but whose key cells differ are both kept here, where an upsert would drop the first |
| Deduplicate.Dedup | src/06_deduplicate_macro_uemoa.py:13-21 | KeyError exactly when a key column is missing; otherwise unique keys, the same key set, only input rows, and, without `collected_at`, the last occurrences in file order |
| Deduplicate.DedupKeepsLatest | src/06_deduplicate_macro_uemoa.py:16-21 | with `collected_at`, each key keeps a row with its latest time stamp |
| Deduplicate.DedupIdempotent | src/06_deduplicate_macro_uemoa.py:16-25 | a second run writes the same table |
| Deduplicate.Run | src/06_deduplicate_macro_uemoa.py:8-25 | FileNotFoundError without a file; otherwise the deduplicated table is written back, with `after <= before` |
| CiPdfLine.IsPdfLine | src/19b_drop_ci_pdf_line.py:9-13 | a row meets the three text conditions only when its country, indicator and date_reference cells are present and hold the three constants: a missing cell renders as "None" and never matches |
| CiPdfLine.MissingColumn | src/19_fix_ci_pdf_line_label.py:8-13 | the column whose lookup raises KeyError is one the mask needs and the frame lacks |
| CiPdfLine.RelabelRow | src/19_fix_ci_pdf_line_label.py:16-17 | a matched row gets the new label and its comment, as text, plus the suffix; no other field changes |
| CiPdfLine.Relabel | src/19_fix_ci_pdf_line_label.py:8-18 | only rows matching all four conditions change; the row count is kept; the table is marked for writing exactly when a row matched; KeyError exactly when a mask column, or `comment` when a row matched, is missing |
| CiPdfLine.RelabelledNoLongerMatches | src/19_fix_ci_pdf_line_label.py:10 | a relabelled row no longer matches the indicator condition |
| CiPdfLine.RelabelTwiceIsNoop | src/19_fix_ci_pdf_line_label.py:15-16 | a second run finds nothing and writes nothing |
| CiPdfLine.RelabelWf | src/19_fix_ci_pdf_line_label.py:16-17 | the relabel keeps the table well formed |
| CiPdfLine.Relabel19 | src/19_fix_ci_pdf_line_label.py:6-21 | the file is rewritten exactly when a row matched |
| CiPdfLine.DropPdfLine | src/19b_drop_ci_pdf_line.py:9-13 | exactly the rows matching the three conditions are removed, and the survivors keep their order |
| CiPdfLine.DeletedCount | src/19b_drop_ci_pdf_line.py:8-18 | the reported `before - after` is the number of matching rows |
| CiPdfLine.DropTwiceIsNoop | src/19b_drop_ci_pdf_line.py:9-16 | deleting twice deletes nothing more, and the second count is zero |
| CiPdfLine.DeleteAndRelabelDiffer | src/19b_drop_ci_pdf_line.py:9-13 | the delete has no source condition: a row of another source is deleted where the relabel leaves it alone, and a relabelled row survives the delete |
| CiPdfLine.Drop | src/19b_drop_ci_pdf_line.py:9-13 | KeyError exactly when a mask column is missing; otherwise the surviving rows |
| CiPdfLine.Drop19b | src/19b_drop_ci_pdf_line.py:6-18 | the file is always rewritten, even when nothing was deleted, and the count is reported |
| IndicatorId.CapturedEnd | src/17_fetch_anstat_indicator_csv.py:45 | `\d{1,10}` with nothing after it takes the first ten digits of a run, or the whole of a shorter run |
| IndicatorId.DataIdAt | src/17_fetch_anstat_indicator_csv.py:40 | a `data-id` match has its digits between quotes |
| IndicatorId.QuotedIdAt | src/17_fetch_anstat_indicator_csv.py:45 | a `"id":` match takes up to ten digits of the run |
| IndicatorId.BareIdAt | src/17_fetch_anstat_indicator_csv.py:49 | a bare `id:` match is followed by a non-word character or the end |
| IndicatorId.DownloadLinkAt | src/17_fetch_anstat_indicator_csv.py:54 | a download-link match captures right after the path |
| IndicatorId.Search | src/17_fetch_anstat_indicator_csv.py:40 | `re.search`: a match at the returned position, and none at any earlier position |
| IndicatorId.IdOf | src/17_fetch_anstat_indicator_csv.py:42 | group 1 is 1 to 10 digits |
| IndicatorId.FindIndicatorId | src/17_fetch_anstat_indicator_csv.py:30-58 | None exactly when none of the four strategies matches; any id is 1 to 10 digits |
| IndicatorId.FirstMatchingStrategyWins | src/17_fetch_anstat_indicator_csv.py:39-56 | the id comes from the first strategy in the list that matches anywhere, at that strategy's leftmost match |
| IndicatorId.DataIdTakesWholeRun | src/17_fetch_anstat_indicator_csv.py:40 | `data-id` captures only whole digit runs, because of the closing quote |
| IndicatorId.BareIdTakesWholeRun | src/17_fetch_anstat_indicator_csv.py:49 | bare `id:` captures only whole digit runs, because of `\b` |
| IndicatorId.UnanchoredStrategiesTruncate | src/17_fetch_anstat_indicator_csv.py:45 | `"id":` and the download link return the first ten digits of a longer run |
| IndicatorId.FindIgnoresCase | src/17_fetch_anstat_indicator_csv.py:40 | two pages that differ only in letter case give the same id |
| IndicatorId.AttributeBeatsEarlierKey | src/17_fetch_anstat_indicator_csv.py:39-51 | on "id:1 data-id='2'" the bare key matches first in the text, yet the attribute decides: "2" |
| IndicatorId.DownloadUrl | src/17_fetch_anstat_indicator_csv.py:60-61 | the URL is `DOWNLOAD_PREFIX` followed by the id |
| IndicatorId.OutputName | src/17_fetch_anstat_indicator_csv.py:67-90 | the CSV is written as `ANSTAT_<label>_<id>_<timestamp>.csv` |
| IndicatorId.DownloadFor | src/17_fetch_anstat_indicator_csv.py:80-90 | no download exactly when the page failed or holds no id; otherwise the id's URL, saved under the label's file name |
| IndicatorId.Attempts | src/17_fetch_anstat_indicator_csv.py:70-90 | one decision per indicator page, in list order |
| IndicatorId.Downloads | src/17_fetch_anstat_indicator_csv.py:70-92 | every download URL is the prefix followed by a 1-to-10-digit id, and every page whose id was found is downloaded |
| IndicatorId.PageWithoutIdSkipped | src/17_fetch_anstat_indicator_csv.py:80-84 | a page without an id adds nothing to the downloads, and the others keep their order |
| Table.Merge | src/12_extract_ihpc_global_from_latest_pdf.py:78-80 | the upsert's merge: the new row comes last |
| Table.MergeSpec | src/12_extract_ihpc_global_from_latest_pdf.py:73-80 | after the merge the new key has the new row alone, the length grows by at most one, and every other key keeps its rows |
| Table.MergeWf | src/12_extract_ihpc_global_from_latest_pdf.py:80 | the merged table, over the union of the columns, is well formed when the old one was |
| Deduplicate.Insert | src/06_deduplicate_macro_uemoa.py:17 | one step of the stable sort: the rows are the old ones plus the inserted row |
| Text.TrimLeft | src/04_extract_policy_rate.py:15 | `lstrip()`: a suffix of the input that does not start with whitespace, and everything cut off is whitespace |
| Text.TrimRight | src/04_extract_policy_rate.py:15 | `rstrip()`: a prefix of the input that does not end with whitespace, and everything cut off is whitespace |
| Text.LowerKeepsClass | src/12_extract_ihpc_global_from_latest_pdf.py:91 | lower-casing neither makes nor unmakes whitespace or digits |
| Numerals.ParseUnsigned | src/04_extract_policy_rate.py:20 | `float()` of a numeral without a sign is never negative |
| Numerals.ParseSigned | src/12_extract_ihpc_global_from_latest_pdf.py:93 | `float()` gives a negative value only to text starting with '-' |
| IndicatorId.FirstMatching | src/17_fetch_anstat_indicator_csv.py:40 | the leftmost position at or after i where the pattern matches, and no match before it |

## Left out

- Network access: HTTP fetches and the BCEAO, ANSD and ANStat pages are inputs. Saved pages, directory listings and downloaded CSV contents are parameters.
- PDF and HTML text extraction (pdfplumber, BeautifulSoup): the extracted text is a parameter.
- Regular expressions over the long French sentences are not interpreted.
  - Their matches are inputs: candidate sequences in the order the engine reaches them, or one optional capture per pattern.
  - For `re.finditer` (src/12, src/11) and the Senegal pattern of src/08 that order is text order.
  - For the Côte d'Ivoire pattern of src/08, `IHPC[^.]{0,120}hausse\s+de…` has a greedy gap. Its places are ordered by the start of "IHPC", and for one "IHPC" from the farthest "hausse de" to the nearest. So on "IHPC : hausse de 1,2% en novembre … et hausse de 0,5% en octobre …" (no '.' between them) the 0,5 place comes first, as in Python.
  - The regexes for file-name dates and indicator ids are written out as scanners.
- The exclusion pattern `poste\s+énergie` is not listed separately, because the word `énergie` already excludes every phrase it matches.
- `\d` is ASCII '0'..'9' only (`Text.IsDigit`). Python's `\d` also matches the other Unicode decimal digits (such as '٣'), and on text holding them `IndicatorId.FindIndicatorId` and `IhpcLatest.ParseDateReference` differ from the source.
- `\w` and `\b` (`Text.IsWordChar`) cover ASCII letters, digits and '_', plus the letters and digit-like signs from U+00AA to U+017F (Latin-1 Supplement and Latin Extended-A), and nothing beyond U+017F.
- `lower()` and `re.IGNORECASE` (`Text.Lower`) map ASCII and Latin-1 capitals only, with no other Unicode case mapping.
- The window arithmetic of the error excerpt assumes that `lower()` keeps the text's length.
- Table.Wf: a frame carries only the nine schema columns. A CSV with any other column cannot be represented, while pandas would carry such a column through `concat`, `drop_duplicates` and the filters.
- CSV serialisation is not modelled: quoting, type inference when reading back, NaN versus None and column dtypes are left out.
  - A missing cell is `None` and renders as "None".
  - Values are exact decimals, not binary floating point.
- Numerals.ParseFloat: only the decimal grammar the captures can produce is modelled (optional sign, digits, optional point and digits, surrounding whitespace). Exponents, `inf`, `nan` and underscores are left out.
- `datetime.now()` is a `now` parameter. Printing and progress messages are left out.
- InflationPdf.Run and InflationYoy.Run: one `now` stamps every row of a run, while the source calls `datetime.now()` again for each row (src/10_extract_inflation_from_pdf.py:103, src/08_extract_inflation_yoy_v01.py:46 and 71), so rows of one run may differ in `collected_at` by a second or so.
- Deduplicate.SortByCollected: a stable insertion sort stands for pandas' sort, which is not stable. When rows of one key tie on `collected_at`, which of them survives may therefore differ. `RetainedIsLatest` holds for every sorted order. `Deduplicate.DedupIdempotent` relies on the stable sort: under pandas' sort, rows of different keys that tie on `collected_at` may come back in another order on a second run, so only the same set of rows is guaranteed there.
- AnstatLatest.LastObservation: the `astype(int)` conversion of year and month is taken as given, so the ValueError on a non-numeric cell is not modelled. The multi-column sort is taken as stable.
- Table.Align: src/18's in-place column addition is modelled on values.
- IndicatorId.Downloads: `main`'s page title, CSV preview and printing are left out.
  - A download that fails after the id is found is caught and printed by the script. It is not modelled.
  - A page that could not be fetched is `None`.
- CiPdfLine.MissingColumn: names one missing column; pandas reports the first one it looks up.
- InflationPdf.EntryStepWith: takes the numeral conversion as a parameter; `InflationPdf.EntryStep` fixes it to `parse_number`.
