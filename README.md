# eBird targets scraper: model of the data pipeline of `targets_parser.py`

`targets_parser.py` logs in to eBird and, for each hotspot in a list,
fetches the hotspot's "targets" page. It turns each page into records
`[rank, species, frequency, url, hotspot]`, then pivots them into a
species-by-hotspot frequency matrix. The matrix gets a `Max Freq` column,
is cut at a configured frequency and is sorted by a taxonomy's sort
column. Alongside it, the script keeps a species-address table sorted the
same way.

This project models the data logic of that pipeline in Dafny:

- `Login` models `getMdVal`, the login-token lookup over the form's inputs.
- `TargetsUrl` models `buildTargetsURL`. It also has a reader for the
  address's query string, so that a round trip can be stated.
- `Text` models the Python string operations the extraction uses: `strip`,
  `lstrip`, `rstrip`, `rfind` and slicing with a negative stop.
- `Extract` models `parseTargets` and the per-hotspot loop of `main`.
  - The fetched page is an abstract value: sections, each with its
    `aria-labelledby` label and its list items as text.
  - The fetch is a function parameter.
- `Tables` models the pandas operations the consolidation borrows. Each
  works on sequences of rows:
  - boolean-mask filtering;
  - `drop_duplicates` keeping the first row of each key;
  - `sort_values` with missing keys last.
- `Aggregate` models lines 161-191 of `main` as the method `Consolidate`:
  - the long-form frame and `to_numeric`;
  - the address table;
  - the pivot with its column selection and zero fill;
  - `Max Freq` and the cutoff;
  - the taxonomy cleaning and lookup;
  - both sorts.
- `Report` models `main` end to end and holds the finding below.

Frequencies are exact `real`s. `pd.to_numeric` is a parameter
`parse: string -> Option<real>`; `None` is the `ValueError` it raises.
Errors that the source raises become `Err` values of a `Result`:
- `getMdVal` without a token raises `UnboundLocalError`, modelled as `None`;
- an unparsable frequency;
- a repeated (species, hotspot) cell in `pivot`;
- a `KeyError` on `targets_df[hs_names]`.

Some behaviours of the code are easy to mistake for something else. The
model keeps each of them as the code has it:
- The query parameters are concatenated as they are, without URL encoding.
  `UnencodedAmpersand` shows the consequence.
- When several inputs are named `execution`, the last one wins.
- The pages are fetched one after another with no delay between them. The
  model has no clock.
- The species text is the whole `SpecimenHeader` text, stripped. The
  common and scientific names are not separated.
- The species address is cut from the link's `href`, not built from a
  species code.
- The address table drops only exact (species, address) repeats. A species
  seen with two addresses keeps both rows.
- A species missing from the taxonomy gets no sort key and sorts last. No
  warning is given.
- A hotspot whose page yields no records keeps its name in the column list.
  See "Findings".

## Model

| member | source | states |
|---|---|---|
| Login.GetMdVal | targets_parser.py:13-23 | the result is the value of the last input named `execution` that has a value; inputs without a name or value are skipped; there is a result exactly when such an input exists |
| Login.LastTokenIsLast | targets_parser.py:16-23 | the reference lookup finds a token exactly when one exists, and it is the last one in form order |
| TargetsUrl.BuildTargetsURL | targets_parser.py:37-43 | the address starts with `https://ebird.org/targets?` and its length is the base, the five fixed keys and the five values, with nothing added or encoded |
| TargetsUrl.TargetsURLRoundTrip | targets_parser.py:37-42 | when no value holds `&`, reading the query back gives exactly `r1`, `bmo`, `emo`, `r2`, `t2` with the given values, in that order |
| TargetsUrl.UnencodedAmpersand | targets_parser.py:37-42 | since values are not encoded, an `&key=value` inside the hotspot id reads back as a truncated `r1` plus an extra parameter |
| Text.StripLeftSpec | targets_parser.py:70 | `lstrip` drops only characters of the set, and what remains does not start with one |
| Text.StripRightSpec | targets_parser.py:75 | `rstrip` drops only characters of the set, and what remains does not end with one |
| Text.StripSpec | targets_parser.py:70 | `strip` keeps a contiguous run of the input that neither starts nor ends with a character of the set, and everything dropped is from the set |
| Text.StripIdempotent | targets_parser.py:74 | stripping twice with the same set changes nothing more |
| Text.RFindSpec | targets_parser.py:73 | `rfind` gives the index of the last occurrence, or -1 exactly when there is none |
| Extract.SpeciesURLSpec | targets_parser.py:72-73 | the species address is a proper prefix of `https://ebird.org` + href, ending just before that string's last `/` |
| Extract.FrequencyTextSpec | targets_parser.py:75 | after the whitespace strip and the `.%` strip, the frequency text neither starts nor ends with `.` or `%` |
| Extract.FrequencyKeepsInnerBlank | targets_parser.py:75 | the `.%` strip runs after the whitespace strip: when the whitespace-stripped text has a blank followed only by `.`/`%` marks (as in `45 %`), the frequency text ends in that blank |
| Extract.ItemRecordSpec | targets_parser.py:70-76 | each record carries the page's hotspot name, the trimmed species address, a frequency free of `.`/`%` at both ends, a rank free of `.` at both ends, and a species name without outer whitespace |
| Extract.ParseTargets | targets_parser.py:56-77 | the returned list is the incoming `targets` followed by the page's records, and the returned name is the page's name |
| Extract.PageRecordsSplit | targets_parser.py:64-69 | the native-and-naturalized sections' records come first, then the exotic-provisional ones |
| Extract.PageRecordsSpec | targets_parser.py:66-76 | a page yields one record per item it reads, in reading order, each the record of that item under the page's name |
| Extract.PageRecordsHotspot | targets_parser.py:76 | every record of a page carries the page's name |
| Extract.LabelledItemsSpec | targets_parser.py:64-69 | the items read are exactly those of the sections labelled with one of the two categories; other sections are ignored |
| Extract.SectionsLabelledSpec | targets_parser.py:67 | `find_all` keeps exactly the sections with the requested label |
| Extract.SectionItemsSpec | targets_parser.py:67-69 | an item is read exactly when it belongs to one of the selected sections |
| Extract.ItemRecordsSpec | targets_parser.py:69-76 | the records of a run of items are one per item, in item order |
| Extract.EmptyPageRecords | targets_parser.py:64-76 | a page adds nothing exactly when none of its labelled sections has an item |
| Extract.ScrapeHotspots | targets_parser.py:156-159 | as written: `hs_names` gets every page's name, and `targets` gets all pages' records in hotspot order |
| Extract.AllRecordsSpec | targets_parser.py:156-159 | the hotspot names on the gathered records are exactly the names of the pages that yielded records |
| Extract.ScrapeNonEmptyHotspots | targets_parser.py:156-159 | corrected loop: a page's name joins `hs_names` only when the page added records; the records are unchanged |
| Aggregate.ToLongForm | targets_parser.py:162-164 | `Rank` is dropped and each frequency is parsed, row for row; the step fails at the first unparsable frequency and names it |
| Aggregate.UrlTableSpec | targets_parser.py:167-168 | the address table holds every recorded (species, address) pair exactly once and nothing else |
| Aggregate.UrlTableOrder | targets_parser.py:167-168 | the address table lists, in record order, exactly the records whose pair no earlier record has |
| Aggregate.Cell | targets_parser.py:170-172 | a cell is the frequency recorded for that species at that hotspot, and 0 when there is none |
| Aggregate.CellsOfSpec | targets_parser.py:170-172 | with unique entries, each of a species' cells, in `hs_names` order, is its recorded frequency at that hotspot, or 0 |
| Aggregate.PivotTableSpec | targets_parser.py:170-172 | the pivot has one row per recorded species, no species twice, and each row holds that species' cells |
| Aggregate.Pivot | targets_parser.py:170-171 | fails with duplicate entries when a (species, hotspot) cell is recorded twice; otherwise fails exactly when some name in `hs_names` names no record, listing exactly those names |
| Aggregate.MaxFreq | targets_parser.py:173 | `Max Freq` is one of the row's cells and no cell exceeds it; it is missing only when there are no hotspot columns |
| Aggregate.CutAtSpec | targets_parser.py:174 | the cut keeps the rows whose `Max Freq` reaches the cutoff, each as often as it occurs, in their relative order, and no other row |
| Aggregate.TaxSortOfFirst | targets_parser.py:184 | the lookup returns the sort key of the first taxonomy row naming the species |
| Aggregate.TaxSortOfAbsent | targets_parser.py:184 | a species no taxonomy row names gets no sort key |
| Aggregate.CleanTaxonomySpec | targets_parser.py:178-184 | the cleaned taxonomy has only named rows and distinct names, and a lookup in it equals the first-row-wins lookup in the raw table |
| Aggregate.Consolidate | targets_parser.py:161-191 | covers the error cases and their order: parse failure, then duplicate entries, then a missing hotspot column. On success: the columns are `hs_names`; both tables sorted by `Tax Sort` with missing keys last; frame species distinct; every frame row recorded, with its cells, `Max Freq` at or above the cutoff and its first-wins sort key; every species reaching the cutoff present; the address table holds each recorded pair once and covers every frame species |
| Aggregate.MatrixRows | targets_parser.py:170-185 | every row of the sorted frame has the cells, `Max Freq` and sort key its species calls for, and reaches the cutoff |
| Aggregate.MatrixCovers | targets_parser.py:173-185 | every recorded species whose cells reach the cutoff has a row in the sorted frame |
| Aggregate.MatrixDistinct | targets_parser.py:174-185 | species stay distinct through the cut, the lookup and the sort |
| Aggregate.UrlDistinct | targets_parser.py:189-190 | the address pairs stay distinct through the lookup and the sort |
| Aggregate.UrlRows | targets_parser.py:167-190 | every sorted address entry is a recorded pair with its first-wins sort key |
| Aggregate.UrlCovers | targets_parser.py:167-190 | every recorded pair is in the sorted address table |
| Aggregate.UrlSpeciesCover | targets_parser.py:167-174 | the address table is built before the cut, so it covers every species of the frame |
| Tables.Filter | targets_parser.py:174 | a boolean mask keeps only rows that satisfy it, keeps every row that does, and its result is a subsequence of the input |
| Tables.FilterCount | targets_parser.py:174 | a boolean mask keeps each satisfying row exactly as often as it occurs, and no other row |
| Tables.DedupBy | targets_parser.py:180 | `drop_duplicates` leaves no two rows with one key, keeps the first row of every key, adds nothing, and its result is a subsequence of the input |
| Tables.DedupByIndices | targets_parser.py:180 | the rows `drop_duplicates` keeps are exactly the first row of each key, in increasing position |
| Tables.SortBy | targets_parser.py:185 | `sort_values` gives a permutation of the rows, sorted by key, with missing keys last; no tie order is promised |
| Tables.SortedMeans | targets_parser.py:185 | in a sorted result, consecutive present keys never decrease and every row without a key follows every row with one |
| Tables.PermutationKeepsDistinct | targets_parser.py:190 | sorting cannot make two rows share a key |
| Report.EmptyHotspotBreaksPivot | targets_parser.py:159-171 | as written, a hotspot whose page had no records leaves its name in `hs_names`, and the pivot then fails on it, unless a repeated cell fails it first |
| Report.NonEmptyNamesPivot | targets_parser.py:159-171 | with the corrected loop, the pivot succeeds exactly when no (species, hotspot) cell is repeated |
| Report.NamesWithRecordsColumns | targets_parser.py:156-171 | with the corrected loop, every name in `hs_names` has a record and every record's hotspot is in `hs_names` |
| Report.TargetsReport | targets_parser.py:156-191 | end to end with the corrected loop: the report fails only on an unparsable frequency or a repeated cell. On success, the columns are exactly the hotspots with records, in hotspot order, and the frame and address table are those of all records over those columns |

## Left out

- The HTTP session, the login GET and POST, and `session.get` are network
  I/O. The fetched page is the parameter `fetch`, and the login page's
  inputs are a parameter of `GetMdVal`.
- BeautifulSoup is modelled only through its results:
  - `find`, `find_all` and `getText` become the pre-parsed `Page` value;
  - the hotspot-name lookup (line 61) becomes the field `Page.name`;
  - a page missing the name element, or an item missing one of its
    `div`/`span`/`a` elements, crashes in the source but cannot occur in the
    model.
- The `print` progress messages are console output and are left out.
- `configparser` and reading the hotspot and taxonomy files are file I/O.
  Their values (the period, the hotspot ids, the cutoff, the taxonomy rows)
  are parameters. `float(cfg['cutoff'])` is taken as an already-parsed
  `real`.
- `writeExcel`, the HTML study guide and the CSV are output formatting and
  I/O.
- Aggregate.ToLongForm: `pd.to_numeric` is the parameter `parse`. Floating
  point, NaN values and the exact text syntax `to_numeric` accepts are not
  modelled; parsed frequencies are exact reals.
- Aggregate.PivotTable: pandas orders the pivot's rows alphabetically by
  species. The model keeps first-appearance order. Only the order of rows
  with equal sort keys after the unstable sort depends on this, and neither
  the source nor the model promises that order.
- Tables.SortBy: the unstable quicksort of `sort_values` is modelled as an
  insertion sort. Only sortedness and permutation are stated, so no tie
  order is implied.
- `set_index` and `reset_index` only move the species between the index and
  a column. The model keeps the species as a field.
- `targets` is a Python list extended in place. The model passes it by value
  and returns the extended list. The only caller rebinds its variable to the
  returned list, so no aliasing is lost.

## Findings

| source | as written | input that shows it | evidently intended | confidence | as-written member | corrected member |
|---|---|---|---|---|---|---|
| targets_parser.py:159 | `hs_names.append(name)` runs for every hotspot, including one whose page yielded no records; `targets_df[hs_names]` (line 171) then raises `KeyError`, because the pivot has no column for that name | two hotspots, the second page having no items in its native-and-naturalized and exotic-provisional sections (for instance every species already seen) | a hotspot without records is left out of `hs_names` and of every table, not zero-filled and not fatal | medium, not executed | Report.EmptyHotspotBreaksPivot | Extract.ScrapeNonEmptyHotspots |
