/**
 * The consolidation block of `main`: the long-form records become a
 * species-by-hotspot frequency matrix with a `Max Freq` column, cut at the
 * configured frequency, mapped onto a taxonomy and sorted by it; alongside,
 * a table of species addresses sorted the same way.
 */
module Aggregate {
  import opened Wrappers
  import opened Tables
  import opened Extract

  /** One row of the long-form frame once `Rank` is dropped and `Frequency` is numeric. */
  datatype Row = Row(species: string, frequency: real, url: string, hotspot: string)

  /** What the consolidation raises. */
  datatype Error =
    | Unparsable(position: nat, text: string)  // `pd.to_numeric` meets a frequency that is not a number
    | DuplicateEntries                         // `pivot` meets two rows for one (species, hotspot)
    | HotspotsNotFound(missing: seq<string>)   // `targets_df[hs_names]` names a column the pivot lacks

  /**
   * `pd.DataFrame(targets)` without `Rank`, with `Frequency` made numeric by
   * `parse`; fails at the first frequency `parse` rejects.
   */
  function ToLongForm(records: seq<Record>, parse: string -> Option<real>): (r: Result<seq<Row>, Error>)
    ensures r.Ok? ==>
              |r.value| == |records|
              && forall i :: 0 <= i < |records| ==>
                   parse(records[i].frequency).Some?
                   && r.value[i] == Row(records[i].species, parse(records[i].frequency).value, records[i].url, records[i].hotspot)
    ensures r.Err? ==>
              r.error.Unparsable? && r.error.position < |records|
              && parse(records[r.error.position].frequency).None?
              && r.error.text == records[r.error.position].frequency
              && forall i :: 0 <= i < r.error.position ==> parse(records[i].frequency).Some?
  {
    if records == [] then Ok([])
    else
      match parse(records[0].frequency)
      case None => Err(Unparsable(0, records[0].frequency))
      case Some(f) =>
        match ToLongForm(records[1..], parse)
        case Err(e) => Err(Unparsable(e.position + 1, e.text))
        case Ok(rest) => Ok([Row(records[0].species, f, records[0].url, records[0].hotspot)] + rest)
  }

  function Identity<T>(x: T): T {
    x
  }

  /** The `Species` column. */
  function SpeciesColumn(rows: seq<Row>): seq<string> {
    seq(|rows|, i requires 0 <= i < |rows| => rows[i].species)
  }

  /** The (`Species`, `URL`) projection. */
  function SpeciesUrlColumn(rows: seq<Row>): seq<(string, string)> {
    seq(|rows|, i requires 0 <= i < |rows| => (rows[i].species, rows[i].url))
  }

  /** `url_df`: the (`Species`, `URL`) projection with exact duplicate pairs dropped, the first kept. */
  function UrlTable(rows: seq<Row>): seq<(string, string)> {
    DedupBy(SpeciesUrlColumn(rows), Identity)
  }

  /**
   * The address table holds every (species, address) pair of the records
   * once, and nothing else, in record order; a species seen with two
   * addresses keeps both.
   */
  lemma UrlTableSpec(rows: seq<Row>)
    ensures var t := UrlTable(rows);
            && (forall i, j :: 0 <= i < j < |t| ==> t[i] != t[j])
            && (forall j :: 0 <= j < |t| ==> t[j] in SpeciesUrlColumn(rows))
            && (forall i :: 0 <= i < |rows| ==> (rows[i].species, rows[i].url) in t)
            && IsSubsequence(t, SpeciesUrlColumn(rows))
  {
    var pairs := SpeciesUrlColumn(rows);
    forall i | 0 <= i < |rows|
      ensures (rows[i].species, rows[i].url) in UrlTable(rows)
    {
      assert pairs[FirstIndex(pairs, Identity, i)] == pairs[i];
    }
  }

  /**
   * The address table lists, in record order, the records whose pair no
   * earlier record has: `drop_duplicates` keeps the first of equal rows.
   */
  lemma UrlTableOrder(rows: seq<Row>) returns (idx: seq<int>)
    ensures |idx| == |UrlTable(rows)|
    ensures forall k :: 0 <= k < |idx| ==>
              0 <= idx[k] < |rows| && UrlTable(rows)[k] == (rows[idx[k]].species, rows[idx[k]].url)
    ensures forall k1, k2 :: 0 <= k1 < k2 < |idx| ==> idx[k1] < idx[k2]
    ensures forall i :: 0 <= i < |rows| ==>
              (i in idx <==> forall m :: 0 <= m < i ==> (rows[m].species, rows[m].url) != (rows[i].species, rows[i].url))
  {
    var pairs := SpeciesUrlColumn(rows);
    idx := DedupByIndices(pairs, Identity);
    forall i | 0 <= i < |rows|
      ensures FirstOfKey(pairs, Identity, i) <==>
                forall m :: 0 <= m < i ==> (rows[m].species, rows[m].url) != (rows[i].species, rows[i].url)
    {
      assert forall m :: 0 <= m < |rows| ==> Identity(pairs[m]) == (rows[m].species, rows[m].url);
    }
  }

  /** Where a record's pair sits in the address table. */
  lemma UrlTableIndex(rows: seq<Row>, i: int) returns (j: int)
    requires 0 <= i < |rows|
    ensures 0 <= j < |UrlTable(rows)| && UrlTable(rows)[j] == (rows[i].species, rows[i].url)
  {
    UrlTableSpec(rows);
    j :| 0 <= j < |UrlTable(rows)| && UrlTable(rows)[j] == (rows[i].species, rows[i].url);
  }

  /** Two rows for the same (species, hotspot) cell. */
  predicate SameCell(a: Row, b: Row) {
    a.species == b.species && a.hotspot == b.hotspot
  }

  /** `pivot` succeeds only when no (species, hotspot) cell is recorded twice. */
  predicate UniqueEntries(rows: seq<Row>) {
    forall i, j | 0 <= i < j < |rows| :: !SameCell(rows[i], rows[j])
  }

  /** Some row records species `sp` at hotspot `h`. */
  predicate Recorded(rows: seq<Row>, sp: string, h: string) {
    exists i | 0 <= i < |rows| :: rows[i].species == sp && rows[i].hotspot == h
  }

  /** Some row names hotspot `h`, so the pivot has a column for it. */
  predicate HasHotspot(rows: seq<Row>, h: string) {
    exists i | 0 <= i < |rows| :: rows[i].hotspot == h
  }

  /**
   * The pivoted cell for species `sp` and hotspot `h`: the frequency of the
   * row recording them, and 0 (`fillna(0)`) when no row does.
   */
  function Cell(rows: seq<Row>, sp: string, h: string): (c: real)
    ensures !Recorded(rows, sp, h) ==> c == 0.0
    ensures forall i :: 0 <= i < |rows| && rows[i].species == sp && rows[i].hotspot == h
                        && (forall m :: 0 <= m < i ==> !(rows[m].species == sp && rows[m].hotspot == h)) ==>
                          c == rows[i].frequency
  {
    if rows == [] then 0.0
    else if rows[0].species == sp && rows[0].hotspot == h then rows[0].frequency
    else
      var c := Cell(rows[1..], sp, h);
      assert forall i :: 1 <= i < |rows| ==> rows[1..][i - 1] == rows[i];
      assert !Recorded(rows[1..], sp, h) ==> !Recorded(rows, sp, h) by {
        if Recorded(rows, sp, h) {
          var i :| 0 <= i < |rows| && rows[i].species == sp && rows[i].hotspot == h;
          assert rows[1..][i - 1] == rows[i];
        }
      }
      c
  }

  /** A species' cells, one per hotspot name, in the order of the names. */
  function CellsOf(rows: seq<Row>, sp: string, names: seq<string>): seq<real> {
    seq(|names|, c requires 0 <= c < |names| => Cell(rows, sp, names[c]))
  }

  /** One row of the pivoted frame: a species and its cells. */
  datatype PivotRow = PivotRow(species: string, cells: seq<real>)

  /** The species of the pivoted frame: each species once, in order of first appearance. */
  function PivotIndex(rows: seq<Row>): seq<string> {
    DedupBy(SpeciesColumn(rows), Identity)
  }

  /** The pivoted frame with its columns selected in `names` order and its gaps filled with 0. */
  function PivotTable(rows: seq<Row>, names: seq<string>): seq<PivotRow> {
    var index := PivotIndex(rows);
    seq(|index|, k requires 0 <= k < |index| => PivotRow(index[k], CellsOf(rows, index[k], names)))
  }

  function PivotSpecies(table: seq<PivotRow>): seq<string> {
    seq(|table|, k requires 0 <= k < |table| => table[k].species)
  }

  /**
   * With unique entries, a species' cells hold, for each name, the frequency
   * recorded for the species at that hotspot, or 0 where it was not recorded.
   */
  lemma CellsOfSpec(rows: seq<Row>, sp: string, names: seq<string>)
    requires UniqueEntries(rows)
    ensures |CellsOf(rows, sp, names)| == |names|
    ensures forall c, i :: 0 <= c < |names| && 0 <= i < |rows| && rows[i].species == sp && rows[i].hotspot == names[c] ==>
              CellsOf(rows, sp, names)[c] == rows[i].frequency
    ensures forall c :: 0 <= c < |names| && !Recorded(rows, sp, names[c]) ==> CellsOf(rows, sp, names)[c] == 0.0
  {
    forall c, i | 0 <= c < |names| && 0 <= i < |rows| && rows[i].species == sp && rows[i].hotspot == names[c]
      ensures CellsOf(rows, sp, names)[c] == rows[i].frequency
    {
      forall m | 0 <= m < i
        ensures !(rows[m].species == sp && rows[m].hotspot == names[c])
      {
        assert !SameCell(rows[m], rows[i]);
      }
    }
  }

  /**
   * The pivoted frame has one row per recorded species, each species once,
   * and each row holds that species' cells.
   */
  lemma PivotTableSpec(rows: seq<Row>, names: seq<string>)
    ensures var t := PivotTable(rows, names);
            && (forall k1, k2 :: 0 <= k1 < k2 < |t| ==> t[k1].species != t[k2].species)
            && (forall k :: 0 <= k < |t| ==> t[k].species in SpeciesColumn(rows) && t[k].cells == CellsOf(rows, t[k].species, names))
            && (forall i :: 0 <= i < |rows| ==> rows[i].species in PivotSpecies(t))
  {
    var t := PivotTable(rows, names);
    var species := SpeciesColumn(rows);
    forall i | 0 <= i < |rows|
      ensures rows[i].species in PivotSpecies(t)
    {
      assert species[FirstIndex(species, Identity, i)] == species[i];
      var k :| 0 <= k < |PivotIndex(rows)| && PivotIndex(rows)[k] == species[i];
      assert PivotSpecies(t)[k] == rows[i].species;
    }
  }

  /** The hotspot names that no row names, in `names` order. */
  function MissingHotspots(rows: seq<Row>, names: seq<string>): seq<string> {
    Filter(names, (h: string) => !HasHotspot(rows, h))
  }

  /**
   * `pivot` followed by `targets_df[hs_names]`: fails on a repeated
   * (species, hotspot) cell, then on any name the records never mention.
   */
  function Pivot(rows: seq<Row>, names: seq<string>): (r: Result<seq<PivotRow>, Error>)
    ensures !UniqueEntries(rows) ==> r == Err(DuplicateEntries)
    ensures UniqueEntries(rows) ==>
              (r.Err? <==> exists c :: 0 <= c < |names| && !HasHotspot(rows, names[c]))
    ensures UniqueEntries(rows) && r.Err? ==>
              r.error.HotspotsNotFound?
              && (forall j :: 0 <= j < |r.error.missing| ==> r.error.missing[j] in names && !HasHotspot(rows, r.error.missing[j]))
              && (forall c :: 0 <= c < |names| && !HasHotspot(rows, names[c]) ==> names[c] in r.error.missing)
    ensures r.Ok? ==> r.value == PivotTable(rows, names)
  {
    if !UniqueEntries(rows) then Err(DuplicateEntries)
    else
      var missing := MissingHotspots(rows, names);
      if missing != [] then
        assert missing[0] in names;
        Err(HotspotsNotFound(missing))
      else Ok(PivotTable(rows, names))
  }

  /** `max(axis=1)` over a row's hotspot cells; a row with no cells has no maximum (NaN). */
  function MaxFreq(cells: seq<real>): (m: Option<real>)
    ensures m.None? <==> cells == []
    ensures m.Some? ==> m.value in cells && forall c :: 0 <= c < |cells| ==> cells[c] <= m.value
  {
    if cells == [] then None
    else
      match MaxFreq(cells[1..])
      case None => Some(cells[0])
      case Some(rest) =>
        assert forall c :: 1 <= c < |cells| ==> cells[c] == cells[1..][c - 1];
        Some(if cells[0] >= rest then cells[0] else rest)
  }

  /** One row of the final frame: species, its cells, `Max Freq` and `Tax Sort`. */
  datatype MatrixRow = MatrixRow(species: string, cells: seq<real>, maxFreq: Option<real>, taxSort: Option<real>)

  /** `targets_df['Max Freq'] >= cutoff`; a missing maximum (NaN) compares false. */
  predicate AboveCutoff(row: MatrixRow, cutoff: real) {
    row.maxFreq.Some? && row.maxFreq.value >= cutoff
  }

  /** The pivoted frame with its `Max Freq` column added. */
  function WithMaxFreq(table: seq<PivotRow>): seq<MatrixRow> {
    seq(|table|, k requires 0 <= k < |table| => MatrixRow(table[k].species, table[k].cells, MaxFreq(table[k].cells), None))
  }

  /** The rows whose `Max Freq` reaches the cutoff, in order. */
  function CutAt(table: seq<MatrixRow>, cutoff: real): seq<MatrixRow> {
    Filter(table, (row: MatrixRow) => AboveCutoff(row, cutoff))
  }

  /** The cut keeps exactly the rows that reach the cutoff, in their relative order. */
  lemma CutAtSpec(table: seq<MatrixRow>, cutoff: real)
    ensures forall j :: 0 <= j < |CutAt(table, cutoff)| ==>
              CutAt(table, cutoff)[j] in table && AboveCutoff(CutAt(table, cutoff)[j], cutoff)
    ensures forall k :: 0 <= k < |table| && AboveCutoff(table[k], cutoff) ==> table[k] in CutAt(table, cutoff)
    ensures IsSubsequence(CutAt(table, cutoff), table)
    ensures forall row :: multiset(CutAt(table, cutoff))[row] == if AboveCutoff(row, cutoff) then multiset(table)[row] else 0
  {
    FilterCount(table, (row: MatrixRow) => AboveCutoff(row, cutoff));
  }

  /** One row of the taxonomy file, projected to its sort column and its species column; either may be blank. */
  datatype TaxRow = TaxRow(sortKey: Option<real>, species: Option<string>)

  function TaxSpecies(t: TaxRow): Option<string> {
    t.species
  }

  predicate Named(t: TaxRow) {
    t.species.Some?
  }

  /** The cleaned taxonomy: one row per species name, the first, and no row without a name. */
  function CleanTaxonomy(raw: seq<TaxRow>): seq<TaxRow> {
    Filter(DedupBy(raw, TaxSpecies), Named)
  }

  /**
   * `Species.map(taxonomy.set_index(species)[taxsort])`: the sort key of the
   * first taxonomy row naming `sp`, or none (NaN) when no row does.
   */
  function TaxSortOf(taxonomy: seq<TaxRow>, sp: string): Option<real> {
    if taxonomy == [] then None
    else if taxonomy[0].species == Some(sp) then taxonomy[0].sortKey
    else TaxSortOf(taxonomy[1..], sp)
  }

  /** The lookup finds the first row naming the species. */
  lemma {:induction false} TaxSortOfFirst(taxonomy: seq<TaxRow>, sp: string, i: int)
    requires 0 <= i < |taxonomy| && taxonomy[i].species == Some(sp)
    requires forall m :: 0 <= m < i ==> taxonomy[m].species != Some(sp)
    ensures TaxSortOf(taxonomy, sp) == taxonomy[i].sortKey
  {
    if i > 0 {
      TaxSortOfFirst(taxonomy[1..], sp, i - 1);
    }
  }

  /** A species no row names has no sort key. */
  lemma {:induction false} TaxSortOfAbsent(taxonomy: seq<TaxRow>, sp: string)
    requires forall m :: 0 <= m < |taxonomy| ==> taxonomy[m].species != Some(sp)
    ensures TaxSortOf(taxonomy, sp) == None
  {
    if taxonomy != [] {
      TaxSortOfAbsent(taxonomy[1..], sp);
    }
  }

  /**
   * The cleaned taxonomy has named, distinct species, and looking a species
   * up in it gives the sort key of the first raw row naming it.
   */
  lemma CleanTaxonomySpec(raw: seq<TaxRow>, sp: string)
    ensures forall j :: 0 <= j < |CleanTaxonomy(raw)| ==> CleanTaxonomy(raw)[j].species.Some?
    ensures forall i, j :: 0 <= i < j < |CleanTaxonomy(raw)| ==> CleanTaxonomy(raw)[i].species != CleanTaxonomy(raw)[j].species
    ensures TaxSortOf(CleanTaxonomy(raw), sp) == TaxSortOf(raw, sp)
  {
    var deduped := DedupBy(raw, TaxSpecies);
    var clean := CleanTaxonomy(raw);
    assert forall i, j :: 0 <= i < j < |clean| ==> clean[i].species != clean[j].species by {
      forall i, j | 0 <= i < j < |clean|
        ensures clean[i].species != clean[j].species
      {
        SubsequenceKeepsDistinct(clean, deduped, TaxSpecies, i, j);
      }
    }
    if i :| 0 <= i < |raw| && raw[i].species == Some(sp) {
      var f := FirstIndex(raw, TaxSpecies, i);
      TaxSortOfFirst(raw, sp, f);
      assert raw[f] in clean;
      var j :| 0 <= j < |clean| && clean[j] == raw[f];
      TaxSortOfFirst(clean, sp, j);
    } else {
      TaxSortOfAbsent(raw, sp);
      TaxSortOfAbsent(clean, sp);
    }
  }

  /** The final frame's `Tax Sort` column, looked up for each row. */
  function WithTaxSort(table: seq<MatrixRow>, taxonomy: seq<TaxRow>): seq<MatrixRow> {
    seq(|table|, k requires 0 <= k < |table| => table[k].(taxSort := TaxSortOf(taxonomy, table[k].species)))
  }

  function MatrixKey(row: MatrixRow): Option<real> {
    row.taxSort
  }

  function MatrixSpecies(table: seq<MatrixRow>): seq<string> {
    seq(|table|, k requires 0 <= k < |table| => table[k].species)
  }

  function RowSpecies(row: MatrixRow): string {
    row.species
  }

  /** A species whose cells reach the cutoff. */
  predicate Reaches(cells: seq<real>, cutoff: real) {
    MaxFreq(cells).Some? && MaxFreq(cells).value >= cutoff
  }

  /**
   * A row of the final frame: a recorded species with its cells, their
   * maximum as `Max Freq` reaching the cutoff, and the species' sort key,
   * the first one the taxonomy gives it.
   */
  predicate FrameRow(row: MatrixRow, rows: seq<Row>, names: seq<string>, cutoff: real, taxonomy: seq<TaxRow>) {
    && row.species in SpeciesColumn(rows)
    && row.cells == CellsOf(rows, row.species, names)
    && row.maxFreq == MaxFreq(row.cells)
    && AboveCutoff(row, cutoff)
    && row.taxSort == TaxSortOf(taxonomy, row.species)
  }

  /** One row of the address table with its `Tax Sort`. */
  datatype UrlEntry = UrlEntry(species: string, url: string, taxSort: Option<real>)

  function UrlEntries(table: seq<(string, string)>, taxonomy: seq<TaxRow>): seq<UrlEntry> {
    seq(|table|, k requires 0 <= k < |table| => UrlEntry(table[k].0, table[k].1, TaxSortOf(taxonomy, table[k].0)))
  }

  function UrlKey(e: UrlEntry): Option<real> {
    e.taxSort
  }

  function UrlPair(e: UrlEntry): (string, string) {
    (e.species, e.url)
  }

  function UrlPairs(entries: seq<UrlEntry>): seq<(string, string)> {
    seq(|entries|, k requires 0 <= k < |entries| => UrlPair(entries[k]))
  }

  function UrlSpecies(entries: seq<UrlEntry>): seq<string> {
    seq(|entries|, k requires 0 <= k < |entries| => entries[k].species)
  }

  /** What `main` writes out: the frame's hotspot columns, the frequency frame and the address table. */
  datatype Output = Output(columns: seq<string>, matrix: seq<MatrixRow>, urls: seq<UrlEntry>)

  /**
   * The final frame of the records `rows` over the hotspot columns `names`:
   * sorted by `Tax Sort` with missing keys last, one row per species, every
   * row a frame row, and every recorded species whose cells reach the cutoff
   * present.
   */
  predicate FrameOf(m: seq<MatrixRow>, rows: seq<Row>, names: seq<string>, cutoff: real, taxonomy: seq<TaxRow>) {
    && SortedBy(m, MatrixKey)
    && (forall k1, k2 :: 0 <= k1 < k2 < |m| ==> m[k1].species != m[k2].species)
    && (forall k :: 0 <= k < |m| ==> FrameRow(m[k], rows, names, cutoff, taxonomy))
    && (forall i :: 0 <= i < |rows| && Reaches(CellsOf(rows, rows[i].species, names), cutoff) ==>
                      rows[i].species in MatrixSpecies(m))
  }

  /**
   * The final address table of the records `rows`: sorted by `Tax Sort` with
   * missing keys last, each recorded (species, address) pair exactly once
   * with its first-wins sort key, and an address for every species of the
   * frame `m`.
   */
  predicate AddressTableOf(u: seq<UrlEntry>, rows: seq<Row>, taxonomy: seq<TaxRow>, m: seq<MatrixRow>) {
    && SortedBy(u, UrlKey)
    && (forall k1, k2 :: 0 <= k1 < k2 < |u| ==> UrlPair(u[k1]) != UrlPair(u[k2]))
    && (forall k :: 0 <= k < |u| ==> UrlPair(u[k]) in SpeciesUrlColumn(rows)
                                     && u[k].taxSort == TaxSortOf(taxonomy, u[k].species))
    && (forall i :: 0 <= i < |rows| ==> (rows[i].species, rows[i].url) in UrlPairs(u))
    && (forall k :: 0 <= k < |m| ==> m[k].species in UrlSpecies(u))
  }

  /**
   * Lines 161-191 of `main`: builds the long-form frame, the address table
   * and the pivot, adds `Max Freq`, cuts at `cutoff`, cleans the taxonomy,
   * adds `Tax Sort` to both tables and sorts both by it.
   */
  method Consolidate(targets: seq<Record>, hsNames: seq<string>, parse: string -> Option<real>, cutoff: real,
                     taxonomy: seq<TaxRow>)
    returns (out: Result<Output, Error>)
    ensures ToLongForm(targets, parse).Err? ==> out == Err(ToLongForm(targets, parse).error)
    ensures ToLongForm(targets, parse).Ok? && !UniqueEntries(ToLongForm(targets, parse).value) ==> out == Err(DuplicateEntries)
    ensures ToLongForm(targets, parse).Ok? && UniqueEntries(ToLongForm(targets, parse).value) ==>
              (out.Err? <==> exists c :: 0 <= c < |hsNames| && !HasHotspot(ToLongForm(targets, parse).value, hsNames[c]))
    ensures out.Err? && ToLongForm(targets, parse).Ok? && UniqueEntries(ToLongForm(targets, parse).value) ==>
              out == Err(Pivot(ToLongForm(targets, parse).value, hsNames).error)
    ensures out.Ok? ==>
              && ToLongForm(targets, parse).Ok?
              && var rows := ToLongForm(targets, parse).value;
                 && UniqueEntries(rows)
                 && out.value.columns == hsNames
                 && FrameOf(out.value.matrix, rows, hsNames, cutoff, taxonomy)
                 && AddressTableOf(out.value.urls, rows, taxonomy, out.value.matrix)
  {
    var long := ToLongForm(targets, parse);
    if long.Err? {
      return Err(long.error);
    }
    var rows := long.value;
    var urlTable := UrlTable(rows);
    var pivot := Pivot(rows, hsNames);
    if pivot.Err? {
      return Err(pivot.error);
    }
    var table := WithMaxFreq(pivot.value);
    var cut := CutAt(table, cutoff);
    var clean := CleanTaxonomy(taxonomy);
    var mapped := WithTaxSort(cut, clean);
    var matrix := SortBy(mapped, MatrixKey);
    var entries := UrlEntries(urlTable, clean);
    var urls := SortBy(entries, UrlKey);
    MatrixDistinct(table, cut, mapped, matrix, cutoff, clean);
    MatrixRows(rows, hsNames, cutoff, taxonomy, matrix);
    MatrixCovers(rows, hsNames, cutoff, clean, matrix);
    UrlDistinct(urlTable, entries, urls, clean);
    UrlRows(rows, taxonomy, urls);
    UrlCovers(rows, taxonomy, urls);
    UrlSpeciesCover(rows, matrix, urls);
    out := Ok(Output(hsNames, matrix, urls));
  }

  /** The frame's species stay distinct through the cut, the lookup and the sort. */
  lemma MatrixDistinct(table: seq<MatrixRow>, cut: seq<MatrixRow>, mapped: seq<MatrixRow>, matrix: seq<MatrixRow>,
                       cutoff: real, clean: seq<TaxRow>)
    requires forall k1, k2 :: 0 <= k1 < k2 < |table| ==> table[k1].species != table[k2].species
    requires cut == CutAt(table, cutoff) && mapped == WithTaxSort(cut, clean) && matrix == SortBy(mapped, MatrixKey)
    ensures forall k1, k2 :: 0 <= k1 < k2 < |matrix| ==> matrix[k1].species != matrix[k2].species
  {
    CutAtSpec(table, cutoff);
    assert forall k1, k2 :: 0 <= k1 < k2 < |table| ==> RowSpecies(table[k1]) != RowSpecies(table[k2]);
    forall k1, k2 | 0 <= k1 < k2 < |mapped|
      ensures RowSpecies(mapped[k1]) != RowSpecies(mapped[k2])
    {
      SubsequenceKeepsDistinct(cut, table, RowSpecies, k1, k2);
    }
    PermutationKeepsDistinct(mapped, matrix, RowSpecies);
  }

  /** The final frame after the pipeline of `Consolidate`. */
  function Frame(rows: seq<Row>, names: seq<string>, cutoff: real, taxonomy: seq<TaxRow>): seq<MatrixRow> {
    SortBy(WithTaxSort(CutAt(WithMaxFreq(PivotTable(rows, names)), cutoff), CleanTaxonomy(taxonomy)), MatrixKey)
  }

  /** A row of the frame after the cut, before `Tax Sort` is added. */
  predicate CutRow(row: MatrixRow, rows: seq<Row>, names: seq<string>, cutoff: real) {
    && row.species in SpeciesColumn(rows)
    && row.cells == CellsOf(rows, row.species, names)
    && row.maxFreq == MaxFreq(row.cells)
    && AboveCutoff(row, cutoff)
  }

  lemma CutRows(rows: seq<Row>, names: seq<string>, cutoff: real)
    ensures var cut := CutAt(WithMaxFreq(PivotTable(rows, names)), cutoff);
            forall j :: 0 <= j < |cut| ==> CutRow(cut[j], rows, names, cutoff)
  {
    var table := WithMaxFreq(PivotTable(rows, names));
    PivotTableSpec(rows, names);
    CutAtSpec(table, cutoff);
  }

  lemma MappedRows(rows: seq<Row>, names: seq<string>, cutoff: real, taxonomy: seq<TaxRow>, cut: seq<MatrixRow>)
    requires forall j :: 0 <= j < |cut| ==> CutRow(cut[j], rows, names, cutoff)
    ensures var mapped := WithTaxSort(cut, CleanTaxonomy(taxonomy));
            forall j :: 0 <= j < |mapped| ==> FrameRow(mapped[j], rows, names, cutoff, taxonomy)
  {
    forall j | 0 <= j < |cut|
      ensures TaxSortOf(CleanTaxonomy(taxonomy), cut[j].species) == TaxSortOf(taxonomy, cut[j].species)
    {
      CleanTaxonomySpec(taxonomy, cut[j].species);
    }
  }

  /** Every row of the final frame is a frame row. */
  lemma MatrixRows(rows: seq<Row>, names: seq<string>, cutoff: real, taxonomy: seq<TaxRow>, matrix: seq<MatrixRow>)
    requires matrix == Frame(rows, names, cutoff, taxonomy)
    ensures forall k :: 0 <= k < |matrix| ==> FrameRow(matrix[k], rows, names, cutoff, taxonomy)
  {
    var cut := CutAt(WithMaxFreq(PivotTable(rows, names)), cutoff);
    var mapped := WithTaxSort(cut, CleanTaxonomy(taxonomy));
    CutRows(rows, names, cutoff);
    MappedRows(rows, names, cutoff, taxonomy, cut);
    PermutationKeeps(mapped, matrix, (row: MatrixRow) => FrameRow(row, rows, names, cutoff, taxonomy));
  }

  /** Every recorded species whose cells reach the cutoff has a row in the final frame. */
  lemma MatrixCovers(rows: seq<Row>, names: seq<string>, cutoff: real, clean: seq<TaxRow>, matrix: seq<MatrixRow>)
    requires matrix == SortBy(WithTaxSort(CutAt(WithMaxFreq(PivotTable(rows, names)), cutoff), clean), MatrixKey)
    ensures forall i :: 0 <= i < |rows| && Reaches(CellsOf(rows, rows[i].species, names), cutoff) ==>
                          rows[i].species in MatrixSpecies(matrix)
  {
    var mapped := WithTaxSort(CutAt(WithMaxFreq(PivotTable(rows, names)), cutoff), clean);
    forall i | 0 <= i < |rows| && Reaches(CellsOf(rows, rows[i].species, names), cutoff)
      ensures rows[i].species in MatrixSpecies(matrix)
    {
      assert SpeciesColumn(rows)[i] == rows[i].species;
      var j := CutIndexOf(rows, names, cutoff, rows[i].species);
      var k := PermutationIndex(mapped, matrix, j);
      assert MatrixSpecies(matrix)[k] == rows[i].species;
    }
  }

  /** Where a recorded species reaching the cutoff sits after the cut. */
  lemma CutIndexOf(rows: seq<Row>, names: seq<string>, cutoff: real, sp: string) returns (j: nat)
    requires sp in SpeciesColumn(rows) && Reaches(CellsOf(rows, sp, names), cutoff)
    ensures j < |CutAt(WithMaxFreq(PivotTable(rows, names)), cutoff)|
    ensures CutAt(WithMaxFreq(PivotTable(rows, names)), cutoff)[j].species == sp
  {
    var pivot := PivotTable(rows, names);
    var table := WithMaxFreq(pivot);
    PivotTableSpec(rows, names);
    CutAtSpec(table, cutoff);
    var i :| 0 <= i < |rows| && SpeciesColumn(rows)[i] == sp;
    var x :| 0 <= x < |pivot| && PivotSpecies(pivot)[x] == sp;
    assert table[x] in CutAt(table, cutoff);
    var y :| 0 <= y < |CutAt(table, cutoff)| && CutAt(table, cutoff)[y] == table[x];
    j := y;
  }

  /** The address table's pairs stay distinct through the lookup and the sort. */
  lemma UrlDistinct(urlTable: seq<(string, string)>, entries: seq<UrlEntry>, urls: seq<UrlEntry>, clean: seq<TaxRow>)
    requires forall i, j :: 0 <= i < j < |urlTable| ==> urlTable[i] != urlTable[j]
    requires entries == UrlEntries(urlTable, clean) && urls == SortBy(entries, UrlKey)
    ensures forall k1, k2 :: 0 <= k1 < k2 < |urls| ==> UrlPair(urls[k1]) != UrlPair(urls[k2])
  {
    assert forall k :: 0 <= k < |entries| ==> UrlPair(entries[k]) == urlTable[k];
    PermutationKeepsDistinct(entries, urls, UrlPair);
  }

  /** Every entry of the sorted address table is a recorded pair with its taxonomy key. */
  lemma UrlRows(rows: seq<Row>, taxonomy: seq<TaxRow>, urls: seq<UrlEntry>)
    requires urls == SortBy(UrlEntries(UrlTable(rows), CleanTaxonomy(taxonomy)), UrlKey)
    ensures forall k :: 0 <= k < |urls| ==>
              UrlPair(urls[k]) in SpeciesUrlColumn(rows) && urls[k].taxSort == TaxSortOf(taxonomy, urls[k].species)
  {
    var entries := UrlEntries(UrlTable(rows), CleanTaxonomy(taxonomy));
    UrlTableSpec(rows);
    forall k | 0 <= k < |urls|
      ensures UrlPair(urls[k]) in SpeciesUrlColumn(rows) && urls[k].taxSort == TaxSortOf(taxonomy, urls[k].species)
    {
      assert urls[k] in multiset(entries);
      var j :| 0 <= j < |entries| && entries[j] == urls[k];
      CleanTaxonomySpec(taxonomy, urls[k].species);
    }
  }

  /** Every recorded (species, address) pair is in the sorted address table. */
  lemma UrlCovers(rows: seq<Row>, taxonomy: seq<TaxRow>, urls: seq<UrlEntry>)
    requires urls == SortBy(UrlEntries(UrlTable(rows), CleanTaxonomy(taxonomy)), UrlKey)
    ensures forall i :: 0 <= i < |rows| ==> (rows[i].species, rows[i].url) in UrlPairs(urls)
  {
    var urlTable := UrlTable(rows);
    var entries := UrlEntries(urlTable, CleanTaxonomy(taxonomy));
    forall i | 0 <= i < |rows|
      ensures (rows[i].species, rows[i].url) in UrlPairs(urls)
    {
      var j := UrlTableIndex(rows, i);
      var k := PermutationIndex(entries, urls, j);
      assert UrlPairs(urls)[k] == urlTable[j];
    }
  }

  /** The address table is built before the cut, so it covers every species of the frame. */
  lemma UrlSpeciesCover(rows: seq<Row>, matrix: seq<MatrixRow>, urls: seq<UrlEntry>)
    requires forall k :: 0 <= k < |matrix| ==> matrix[k].species in SpeciesColumn(rows)
    requires forall i :: 0 <= i < |rows| ==> (rows[i].species, rows[i].url) in UrlPairs(urls)
    ensures forall k :: 0 <= k < |matrix| ==> matrix[k].species in UrlSpecies(urls)
  {
    forall k | 0 <= k < |matrix|
      ensures matrix[k].species in UrlSpecies(urls)
    {
      var i :| 0 <= i < |rows| && SpeciesColumn(rows)[i] == matrix[k].species;
      var j :| 0 <= j < |urls| && UrlPairs(urls)[j] == (rows[i].species, rows[i].url);
      assert UrlSpecies(urls)[j] == matrix[k].species;
    }
  }
}
