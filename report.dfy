/**
 * `main` end to end: scrape every hotspot, then consolidate. The loop as
 * written keeps the names of hotspots whose pages were empty, which the
 * column selection of the consolidation then rejects; the report uses the
 * loop that leaves such hotspots out.
 */
module Report {
  import opened Wrappers
  import opened TargetsUrl
  import opened Extract
  import opened Aggregate

  /**
   * As written: a hotspot whose page added no records, and whose name no
   * other page with records shares, still has its name in `hs_names`, so the
   * pivot fails, on that name if not already on a repeated cell.
   */
  lemma EmptyHotspotBreaksPivot(fetch: string -> Page, period: Period, hotspots: seq<string>,
                                parse: string -> Option<real>, i: int)
    requires 0 <= i < |hotspots|
    requires PageOf(fetch, period, hotspots[i]).name !in NamesWithRecords(fetch, period, hotspots)
    requires ToLongForm(AllRecords(fetch, period, hotspots), parse).Ok?
    ensures var rows := ToLongForm(AllRecords(fetch, period, hotspots), parse).value;
            var r := Pivot(rows, HotspotNames(fetch, period, hotspots));
            r == Err(DuplicateEntries)
            || (r.Err? && r.error.HotspotsNotFound? && PageOf(fetch, period, hotspots[i]).name in r.error.missing)
  {
    var records := AllRecords(fetch, period, hotspots);
    var rows := ToLongForm(records, parse).value;
    var names := HotspotNames(fetch, period, hotspots);
    AllRecordsSpec(fetch, period, hotspots);
    assert names[i] == PageOf(fetch, period, hotspots[i]).name;
    assert !HasHotspot(rows, names[i]) by {
      forall j | 0 <= j < |rows|
        ensures rows[j].hotspot != names[i]
      {
        assert rows[j].hotspot == records[j].hotspot;
      }
    }
  }

  /** With empty pages left out, every name in `hs_names` has a column, so only a repeated cell can stop the pivot. */
  lemma NonEmptyNamesPivot(fetch: string -> Page, period: Period, hotspots: seq<string>, parse: string -> Option<real>)
    requires ToLongForm(AllRecords(fetch, period, hotspots), parse).Ok?
    ensures var rows := ToLongForm(AllRecords(fetch, period, hotspots), parse).value;
            Pivot(rows, NamesWithRecords(fetch, period, hotspots)).Ok? <==> UniqueEntries(rows)
  {
    NamesWithRecordsColumns(fetch, period, hotspots, parse);
  }

  /**
   * With empty pages left out, the hotspot columns are exactly the hotspots
   * of the records: every name has a record, and every record's hotspot is
   * a name.
   */
  lemma NamesWithRecordsColumns(fetch: string -> Page, period: Period, hotspots: seq<string>,
                                parse: string -> Option<real>)
    requires ToLongForm(AllRecords(fetch, period, hotspots), parse).Ok?
    ensures var rows, names := ToLongForm(AllRecords(fetch, period, hotspots), parse).value,
                               NamesWithRecords(fetch, period, hotspots);
            && (forall c :: 0 <= c < |names| ==> HasHotspot(rows, names[c]))
            && (forall j :: 0 <= j < |rows| ==> rows[j].hotspot in names)
  {
    var names := NamesWithRecords(fetch, period, hotspots);
    var records := AllRecords(fetch, period, hotspots);
    var rows := ToLongForm(records, parse).value;
    AllRecordsSpec(fetch, period, hotspots);
    forall c | 0 <= c < |names|
      ensures HasHotspot(rows, names[c])
    {
      var j :| 0 <= j < |records| && HotspotColumn(records)[j] == names[c];
      assert rows[j].hotspot == names[c];
    }
  }

  /**
   * `main` with empty pages left out: the consolidation of everything the
   * hotspots' pages yield fails only on an unparsable frequency or a
   * repeated (species, hotspot) cell; on success its columns are exactly the
   * hotspots with records, in hotspot order, and both tables are those of
   * all the records over those columns.
   */
  method TargetsReport(fetch: string -> Page, period: Period, hotspots: seq<string>, parse: string -> Option<real>,
                       cutoff: real, taxonomy: seq<TaxRow>)
    returns (out: Result<Output, Error>)
    ensures var long := ToLongForm(AllRecords(fetch, period, hotspots), parse);
            && (long.Err? ==> out == Err(long.error))
            && (long.Ok? ==> (out.Ok? <==> UniqueEntries(long.value)))
            && (long.Ok? && !UniqueEntries(long.value) ==> out == Err(DuplicateEntries))
    ensures out.Ok? ==>
              && ToLongForm(AllRecords(fetch, period, hotspots), parse).Ok?
              && var rows, names := ToLongForm(AllRecords(fetch, period, hotspots), parse).value,
                                    NamesWithRecords(fetch, period, hotspots);
                 && out.value.columns == names
                 && (forall c :: 0 <= c < |names| ==> HasHotspot(rows, names[c]))
                 && (forall j :: 0 <= j < |rows| ==> rows[j].hotspot in names)
                 && FrameOf(out.value.matrix, rows, names, cutoff, taxonomy)
                 && AddressTableOf(out.value.urls, rows, taxonomy, out.value.matrix)
  {
    var hsNames, targets := ScrapeNonEmptyHotspots(fetch, period, hotspots);
    out := Consolidate(targets, hsNames, parse, cutoff, taxonomy);
    if ToLongForm(targets, parse).Ok? {
      NonEmptyNamesPivot(fetch, period, hotspots, parse);
      NamesWithRecordsColumns(fetch, period, hotspots, parse);
    }
  }
}
