/**
 * Turning one hotspot's targets page into records (`parseTargets`), and the
 * per-hotspot loop of `main` that accumulates them.
 */
module Extract {
  import opened Text
  import opened TargetsUrl

  /**
   * One `<li>` of a results section, as text: the rank shown in
   * `ResultsStats-index`, the `href` of the species link, the text of the
   * `SpecimenHeader` block and the text of the `Heading` span (the frequency).
   */
  datatype Item = Item(index: string, href: string, header: string, frequency: string)

  /** A `<section>` of the page, with its `aria-labelledby` label and its list items in page order. */
  datatype Section = Section(labelledBy: string, items: seq<Item>)

  /** A fetched targets page: the hotspot's display name and its sections in page order. */
  datatype Page = Page(name: string, sections: seq<Section>)

  /** One row of the shared `targets` list: `[indx, spuh, freq, urls, name]`. */
  datatype Record = Record(rank: string, species: string, frequency: string, url: string, hotspot: string)

  /** The two result categories that are read, in the order they are read. */
  const Labels: seq<string> := ["native-and-naturalized", "exotic-provisional"]

  const SiteRoot: string := "https://ebird.org"

  /** The marks stripped from a frequency after its whitespace. */
  const FrequencyMarks: set<char> := {'.', '%'}

  /**
   * The species address: the site root plus the link, cut just before its
   * last `/`. The root itself holds a `/`, so the cut always falls inside the
   * string and drops at least the final `/`.
   */
  function SpeciesURL(href: string): string {
    var full := SiteRoot + href;
    SliceTo(full, RFind(full, '/'))
  }

  /** The species address is a proper prefix of root plus link, ending just before its last `/`. */
  lemma SpeciesURLSpec(href: string)
    ensures var full, url := SiteRoot + href, SpeciesURL(href);
            |url| < |full| && url == full[..|url|]
            && full[|url|] == '/'
            && forall k :: |url| < k < |full| ==> full[k] != '/'
  {
    var full := SiteRoot + href;
    assert full[7] == '/';
    RFindSpec(full, '/');
  }

  /** The frequency text: whitespace stripped, then `.` and `%` stripped. */
  function FrequencyText(text: string): string {
    Strip(Strip(text, Whitespace), FrequencyMarks)
  }

  /** A frequency text neither starts nor ends with `.` or `%`. */
  lemma FrequencyTextSpec(text: string)
    ensures var f := FrequencyText(text);
            f == [] || (f[0] !in FrequencyMarks && f[|f| - 1] !in FrequencyMarks)
  {
    StripSpec(Strip(text, Whitespace), FrequencyMarks);
  }

  /**
   * The second strip can uncover whitespace: when the whitespace-stripped
   * text has a blank followed only by `.`/`%` marks (as in `45 %`), that
   * blank survives as the last character of the frequency text.
   */
  lemma FrequencyKeepsInnerBlank(text: string, b: int)
    requires var w := Strip(text, Whitespace);
             0 <= b < |w| && w[b] == ' ' && forall k :: b < k < |w| ==> w[k] in FrequencyMarks
    ensures var f := FrequencyText(text);
            f != [] && f[|f| - 1] == ' '
  {
    var w := Strip(text, Whitespace);
    var f := FrequencyText(text);
    StripSpec(w, FrequencyMarks);
    var i := |w| - |StripLeft(w, FrequencyMarks)|;
    assert w[b] !in FrequencyMarks;
    assert i <= b < i + |f|;
    assert f[b - i] == w[b];
  }

  /** The record built for one list item. */
  function ItemRecord(item: Item, name: string): Record {
    Record(Strip(Strip(item.index, Whitespace), {'.'}), Strip(item.header, Whitespace),
           FrequencyText(item.frequency), SpeciesURL(item.href), name)
  }

  /** The records of a run of list items, in item order. */
  function ItemRecords(items: seq<Item>, name: string): seq<Record> {
    if items == [] then []
    else ItemRecords(items[..|items| - 1], name) + [ItemRecord(items[|items| - 1], name)]
  }

  /** `find_all('section', {'aria-labelledby': category})`: the sections with that label, in page order. */
  function SectionsLabelled(sections: seq<Section>, category: string): seq<Section> {
    if sections == [] then []
    else SectionsLabelled(sections[..|sections| - 1], category)
         + (if sections[|sections| - 1].labelledBy == category then [sections[|sections| - 1]] else [])
  }

  /** The records of a run of sections: section by section, item by item. */
  function SectionRecords(sections: seq<Section>, name: string): seq<Record> {
    if sections == [] then []
    else SectionRecords(sections[..|sections| - 1], name) + ItemRecords(sections[|sections| - 1].items, name)
  }

  /** The records of the first `n` categories of `Labels`. */
  function LabelRecords(page: Page, n: nat): seq<Record>
    requires n <= |Labels|
  {
    if n == 0 then []
    else LabelRecords(page, n - 1) + SectionRecords(SectionsLabelled(page.sections, Labels[n - 1]), page.name)
  }

  /** Everything one page contributes to `targets`. */
  function PageRecords(page: Page): seq<Record> {
    LabelRecords(page, |Labels|)
  }

  /** The page read for a hotspot: the fetch of its targets address. */
  function PageOf(fetch: string -> Page, period: Period, hs: string): Page {
    fetch(BuildTargetsURL(hs, period.bmo, period.emo, period.reg, period.list))
  }

  /**
   * `parseTargets`: fetches the hotspot's targets page and appends one record
   * per list item of the native-and-naturalized sections, then of the
   * exotic-provisional sections, to `targets`; returns the list and the
   * hotspot name. The fetch and the HTML parsing are the parameter `fetch`.
   */
  method ParseTargets(fetch: string -> Page, period: Period, hs: string, targets: seq<Record>)
    returns (result: seq<Record>, name: string)
    ensures name == PageOf(fetch, period, hs).name
    ensures result == targets + PageRecords(PageOf(fetch, period, hs))
  {
    var targURL := BuildTargetsURL(hs, period.bmo, period.emo, period.reg, period.list);
    var page := fetch(targURL);
    name := page.name;
    result := targets;
    for l := 0 to |Labels|
      invariant result == targets + LabelRecords(page, l)
    {
      var sections := SectionsLabelled(page.sections, Labels[l]);
      ghost var done := result;
      assert sections[..0] == [];
      for s := 0 to |sections|
        invariant result == done + SectionRecords(sections[..s], name)
      {
        var items := sections[s].items;
        ghost var doneSections := result;
        assert items[..0] == [];
        for t := 0 to |items|
          invariant result == doneSections + ItemRecords(items[..t], name)
        {
          assert items[..t + 1][..t] == items[..t];
          Associate(doneSections, ItemRecords(items[..t], name), [ItemRecord(items[t], name)]);
          result := result + [ItemRecord(items[t], name)];
        }
        assert items[..|items|] == items;
        assert sections[..s + 1][..s] == sections[..s];
        assert SectionRecords(sections[..s + 1], name) == SectionRecords(sections[..s], name) + ItemRecords(items, name);
        Associate(done, SectionRecords(sections[..s], name), ItemRecords(items, name));
      }
      assert sections[..|sections|] == sections;
      Associate(targets, LabelRecords(page, l), SectionRecords(sections, name));
    }
  }

  /** The record of an item carries the hotspot name and normalised fields. */
  lemma ItemRecordSpec(item: Item, name: string)
    ensures var r, full := ItemRecord(item, name), SiteRoot + item.href;
            && r.hotspot == name
            && |r.url| < |full| && r.url == full[..|r.url|] && full[|r.url|] == '/'
            && (forall k :: |r.url| < k < |full| ==> full[k] != '/')
            && (r.frequency == [] || (r.frequency[0] !in FrequencyMarks && r.frequency[|r.frequency| - 1] !in FrequencyMarks))
            && (r.species == [] || (r.species[0] !in Whitespace && r.species[|r.species| - 1] !in Whitespace))
            && (r.rank == [] || (r.rank[0] != '.' && r.rank[|r.rank| - 1] != '.'))
  {
    SpeciesURLSpec(item.href);
    FrequencyTextSpec(item.frequency);
    StripSpec(item.header, Whitespace);
    StripSpec(Strip(item.index, Whitespace), {'.'});
  }

  /** One record per item, in item order. */
  lemma {:induction false} ItemRecordsSpec(items: seq<Item>, name: string)
    ensures |ItemRecords(items, name)| == |items|
    ensures forall t :: 0 <= t < |items| ==> ItemRecords(items, name)[t] == ItemRecord(items[t], name)
  {
    if items != [] {
      ItemRecordsSpec(items[..|items| - 1], name);
    }
  }

  lemma {:induction false} ItemRecordsAppend(a: seq<Item>, b: seq<Item>, name: string)
    ensures ItemRecords(a + b, name) == ItemRecords(a, name) + ItemRecords(b, name)
    decreases |b|
  {
    if b == [] {
      assert a + b == a;
    } else {
      var n := |b| - 1;
      assert (a + b)[..|a + b| - 1] == a + b[..n];
      ItemRecordsAppend(a, b[..n], name);
    }
  }

  /** The list items of a run of sections, section by section. */
  function SectionItems(sections: seq<Section>): seq<Item> {
    if sections == [] then []
    else SectionItems(sections[..|sections| - 1]) + sections[|sections| - 1].items
  }

  /** An item is listed exactly when it is an item of one of the sections. */
  lemma {:induction false} SectionItemsSpec(sections: seq<Section>, item: Item)
    ensures item in SectionItems(sections) <==> exists s :: 0 <= s < |sections| && item in sections[s].items
  {
    if sections != [] {
      var n := |sections| - 1;
      SectionItemsSpec(sections[..n], item);
      if exists s :: 0 <= s < |sections| && item in sections[s].items {
        var s :| 0 <= s < |sections| && item in sections[s].items;
        if s < n {
          assert sections[..n][s] == sections[s];
        }
      }
    }
  }

  /** The sections of a run of sections are the records of their items, in order. */
  lemma {:induction false} SectionRecordsFlat(sections: seq<Section>, name: string)
    ensures SectionRecords(sections, name) == ItemRecords(SectionItems(sections), name)
  {
    if sections != [] {
      var n := |sections| - 1;
      SectionRecordsFlat(sections[..n], name);
      ItemRecordsAppend(SectionItems(sections[..n]), sections[n].items, name);
    }
  }

  /** `find_all` keeps exactly the sections carrying the label. */
  lemma {:induction false} SectionsLabelledSpec(sections: seq<Section>, category: string, sec: Section)
    ensures sec in SectionsLabelled(sections, category) <==> sec in sections && sec.labelledBy == category
  {
    if sections != [] {
      var n := |sections| - 1;
      SectionsLabelledSpec(sections[..n], category, sec);
      assert sections == sections[..n] + [sections[n]];
    }
  }

  /** The items a page reads: those of its native-and-naturalized sections, then of its exotic-provisional ones. */
  function LabelledItems(page: Page): seq<Item> {
    SectionItems(SectionsLabelled(page.sections, Labels[0])) + SectionItems(SectionsLabelled(page.sections, Labels[1]))
  }

  /** The items read are exactly the items of the sections labelled with one of the two categories. */
  lemma LabelledItemsSpec(page: Page, item: Item)
    ensures item in LabelledItems(page) <==>
              exists s :: 0 <= s < |page.sections| && page.sections[s].labelledBy in Labels && item in page.sections[s].items
  {
    var native := SectionsLabelled(page.sections, Labels[0]);
    var exotic := SectionsLabelled(page.sections, Labels[1]);
    SectionItemsSpec(native, item);
    SectionItemsSpec(exotic, item);
    if exists s :: 0 <= s < |page.sections| && page.sections[s].labelledBy in Labels && item in page.sections[s].items {
      var s :| 0 <= s < |page.sections| && page.sections[s].labelledBy in Labels && item in page.sections[s].items;
      var sec := page.sections[s];
      var chosen := if sec.labelledBy == Labels[0] then native else exotic;
      SectionsLabelledSpec(page.sections, sec.labelledBy, sec);
      var k :| 0 <= k < |chosen| && chosen[k] == sec;
    }
    if item in LabelledItems(page) {
      var chosen := if item in SectionItems(native) then native else exotic;
      var k :| 0 <= k < |chosen| && item in chosen[k].items;
      SectionsLabelledSpec(page.sections, Labels[0], chosen[k]);
      SectionsLabelledSpec(page.sections, Labels[1], chosen[k]);
      var s :| 0 <= s < |page.sections| && page.sections[s] == chosen[k];
    }
  }

  /** A page yields the records of its native-and-naturalized sections, then those of its exotic-provisional ones. */
  lemma PageRecordsSplit(page: Page)
    ensures PageRecords(page) == SectionRecords(SectionsLabelled(page.sections, Labels[0]), page.name)
                                 + SectionRecords(SectionsLabelled(page.sections, Labels[1]), page.name)
  {
    var native := SectionRecords(SectionsLabelled(page.sections, Labels[0]), page.name);
    assert LabelRecords(page, 1) == [] + native;
  }

  /**
   * A page yields one record per item it reads, in the order it reads them,
   * and each record is that item's record under the page's name.
   */
  lemma PageRecordsSpec(page: Page)
    ensures |PageRecords(page)| == |LabelledItems(page)|
    ensures forall j :: 0 <= j < |PageRecords(page)| ==>
              PageRecords(page)[j] == ItemRecord(LabelledItems(page)[j], page.name)
  {
    var native := SectionsLabelled(page.sections, Labels[0]);
    var exotic := SectionsLabelled(page.sections, Labels[1]);
    PageRecordsSplit(page);
    SectionRecordsFlat(native, page.name);
    SectionRecordsFlat(exotic, page.name);
    ItemRecordsAppend(SectionItems(native), SectionItems(exotic), page.name);
    ItemRecordsSpec(LabelledItems(page), page.name);
  }

  /** Every record of a page carries the page's hotspot name. */
  lemma PageRecordsHotspot(page: Page)
    ensures forall j :: 0 <= j < |PageRecords(page)| ==> PageRecords(page)[j].hotspot == page.name
  {
    PageRecordsSpec(page);
  }

  /** A page adds nothing exactly when none of its labelled sections has an item. */
  lemma EmptyPageRecords(page: Page)
    ensures PageRecords(page) == [] <==>
              forall s :: 0 <= s < |page.sections| && page.sections[s].labelledBy in Labels ==> page.sections[s].items == []
  {
    PageRecordsSpec(page);
    if LabelledItems(page) != [] {
      LabelledItemsSpec(page, LabelledItems(page)[0]);
    }
    if s :| 0 <= s < |page.sections| && page.sections[s].labelledBy in Labels && page.sections[s].items != [] {
      LabelledItemsSpec(page, page.sections[s].items[0]);
    }
  }

  /** The records `main` has gathered after scraping `hotspots`, page after page. */
  function AllRecords(fetch: string -> Page, period: Period, hotspots: seq<string>): seq<Record> {
    if hotspots == [] then []
    else AllRecords(fetch, period, hotspots[..|hotspots| - 1]) + PageRecords(PageOf(fetch, period, hotspots[|hotspots| - 1]))
  }

  /** `hs_names`: the display name of every hotspot's page, one per hotspot, in hotspot order. */
  function HotspotNames(fetch: string -> Page, period: Period, hotspots: seq<string>): seq<string> {
    seq(|hotspots|, i requires 0 <= i < |hotspots| => PageOf(fetch, period, hotspots[i]).name)
  }

  /** The names of the hotspots whose pages had at least one record, in hotspot order. */
  function NamesWithRecords(fetch: string -> Page, period: Period, hotspots: seq<string>): seq<string> {
    if hotspots == [] then []
    else
      var page := PageOf(fetch, period, hotspots[|hotspots| - 1]);
      NamesWithRecords(fetch, period, hotspots[..|hotspots| - 1]) + (if PageRecords(page) != [] then [page.name] else [])
  }

  /** The `Hotspot` column of a run of records. */
  function HotspotColumn(records: seq<Record>): seq<string> {
    seq(|records|, j requires 0 <= j < |records| => records[j].hotspot)
  }

  /**
   * The hotspots named by the gathered records are exactly the names of the
   * pages that had records.
   */
  lemma {:induction false} AllRecordsSpec(fetch: string -> Page, period: Period, hotspots: seq<string>)
    ensures forall j :: 0 <= j < |AllRecords(fetch, period, hotspots)| ==>
              AllRecords(fetch, period, hotspots)[j].hotspot in NamesWithRecords(fetch, period, hotspots)
    ensures forall k :: 0 <= k < |NamesWithRecords(fetch, period, hotspots)| ==>
              NamesWithRecords(fetch, period, hotspots)[k] in HotspotColumn(AllRecords(fetch, period, hotspots))
  {
    if hotspots != [] {
      var n := |hotspots| - 1;
      var prefix, last := hotspots[..n], PageOf(fetch, period, hotspots[n]);
      AllRecordsSpec(fetch, period, prefix);
      PageRecordsHotspot(last);
      var all, before := AllRecords(fetch, period, hotspots), AllRecords(fetch, period, prefix);
      var names, namesBefore := NamesWithRecords(fetch, period, hotspots), NamesWithRecords(fetch, period, prefix);
      assert all == before + PageRecords(last);
      forall j | 0 <= j < |all|
        ensures all[j].hotspot in names
      {
        if j >= |before| {
          assert all[j] == PageRecords(last)[j - |before|];
        }
      }
      forall k | 0 <= k < |names|
        ensures names[k] in HotspotColumn(all)
      {
        if k < |namesBefore| {
          var j :| 0 <= j < |before| && HotspotColumn(before)[j] == namesBefore[k];
          assert HotspotColumn(all)[j] == names[k];
        } else {
          assert HotspotColumn(all)[|before|] == names[k];
        }
      }
    }
  }

  /**
   * The hotspot loop of `main`: parses every hotspot's page in turn, threading
   * `targets` through `parseTargets`, and appends each page's name to
   * `hs_names`, whether or not the page had any records.
   */
  method ScrapeHotspots(fetch: string -> Page, period: Period, hotspots: seq<string>)
    returns (hsNames: seq<string>, targets: seq<Record>)
    ensures hsNames == HotspotNames(fetch, period, hotspots)
    ensures targets == AllRecords(fetch, period, hotspots)
  {
    hsNames, targets := [], [];
    for i := 0 to |hotspots|
      invariant hsNames == HotspotNames(fetch, period, hotspots[..i])
      invariant targets == AllRecords(fetch, period, hotspots[..i])
    {
      var name;
      assert hotspots[..i + 1][..i] == hotspots[..i];
      targets, name := ParseTargets(fetch, period, hotspots[i], targets);
      assert HotspotNames(fetch, period, hotspots[..i + 1]) == hsNames + [name];
      hsNames := hsNames + [name];
    }
    assert hotspots[..|hotspots|] == hotspots;
  }

  /**
   * The hotspot loop with empty pages left out: a page's name joins
   * `hs_names` only when the page added records.
   */
  method ScrapeNonEmptyHotspots(fetch: string -> Page, period: Period, hotspots: seq<string>)
    returns (hsNames: seq<string>, targets: seq<Record>)
    ensures hsNames == NamesWithRecords(fetch, period, hotspots)
    ensures targets == AllRecords(fetch, period, hotspots)
  {
    hsNames, targets := [], [];
    for i := 0 to |hotspots|
      invariant hsNames == NamesWithRecords(fetch, period, hotspots[..i])
      invariant targets == AllRecords(fetch, period, hotspots[..i])
    {
      var name;
      var before := |targets|;
      assert hotspots[..i + 1][..i] == hotspots[..i];
      targets, name := ParseTargets(fetch, period, hotspots[i], targets);
      if |targets| > before {
        hsNames := hsNames + [name];
      }
    }
    assert hotspots[..|hotspots|] == hotspots;
  }

  lemma Associate<T>(a: seq<T>, b: seq<T>, c: seq<T>)
    ensures a + b + c == a + (b + c)
  {
  }
}
