/**
 * The scraper object: it remembers the page address and the records of the
 * last successful scrape, extracts records from a parsed page, and lays the
 * records out as a spreadsheet.  Fetching the page is left to the caller,
 * who passes in the parsed page, or None when the fetch failed.
 */
module Scraper {
  import opened Text
  import opened Dom
  import opened Fields
  import opened Containers
  import opened Layout

  class ScrapMonsterScraper {
    const url: string
    var listings: seq<Listing>

    constructor (url: string)
      ensures this.url == url && listings == []
    {
      this.url := url;
      listings := [];
    }

    /**
     * The strategy cascade of `extract_listings`: the listing divs, else the
     * table rows after the first, else the article and section elements.
     */
    method LocateContainers(doc: Node) returns (containers: seq<Node>)
      ensures containers == Locate(doc)
    {
      containers := FindAll(ListingDivQuery, doc);
      if containers == [] {
        containers := DropHeaderRow(FindAll(RowQuery, doc));
      }
      if containers == [] {
        containers := FindAll(SectionQuery, doc);
      }
    }

    /**
     * `extract_listings`: locate the containers with the first strategy that
     * finds any, then keep, in container order, the record of every container
     * for which the field extractor returns one.
     */
    method ExtractListings(doc: Node) returns (result: seq<Listing>)
      ensures result == Collect(Locate(doc))
    {
      var containers := LocateContainers(doc);
      result := [];
      var i := 0;
      while i < |containers|
        invariant 0 <= i <= |containers|
        invariant result == Collect(containers[..i])
      {
        var data := ExtractSingleListing(containers[i]);
        CollectStep(containers, i, result, data);
        if data.Some? {
          result := result + [data.value];
        }
        i := i + 1;
      }
      assert containers[..i] == containers;
    }

    /**
     * `_extract_single_listing`: resolve each field through its fallback
     * chain, synthesize the address from its parts when no address element
     * exists, and return the record only when Company is non-empty.
     */
    method ExtractSingleListing(container: Node) returns (r: Option<Listing>)
      ensures r == ListingOf(container)
    {
      var company, location, brief, address := "", "", "", "";

      var companyElem := Resolve(CompanyRules, container);
      if companyElem.Some? {
        company := GetText(companyElem.value);
      }
      var locationElem := Resolve(LocationRules, container);
      if locationElem.Some? {
        location := GetText(locationElem.value);
      }
      var briefElem := Resolve(BriefRules, container);
      if briefElem.Some? {
        brief := GetText(briefElem.value);
      }

      var addressElem := Resolve(AddressRules, container);
      if addressElem.Some? {
        address := GetText(addressElem.value);
      } else {
        var elems := FindAll(AddressPartQuery, container);
        var parts: seq<string> := [];
        var i := 0;
        while i < |elems|
          invariant 0 <= i <= |elems|
          invariant parts == Distinct(Texts(elems[..i]))
        {
          var text := GetText(elems[i]);
          TextsSnoc(elems, i);
          DistinctSnoc(Texts(elems[..i]), text);
          if text != "" && text !in parts {
            parts := parts + [text];
          }
          i := i + 1;
        }
        assert elems[..i] == elems;
        if parts != [] {
          address := Join(parts, ", ");
        }
      }

      if company != "" {
        r := Some(Listing(company, location, brief, address));
      } else {
        r := None;
      }
    }

    /**
     * `scrape`: with a parsed page, extract its records and remember them;
     * when the fetch failed, return no records and leave the remembered
     * records as they were.
     */
    method Scrape(page: Option<Node>) returns (result: seq<Listing>)
      modifies this
      ensures page.None? ==> result == [] && listings == old(listings)
      ensures page.Some? ==> result == Collect(Locate(page.value)) && listings == result
    {
      if page.None? {
        return [];
      }
      listings := ExtractListings(page.value);
      result := listings;
    }

    /**
     * `export_to_excel`: nothing is written when there are no records;
     * otherwise the header row and one row per record are written, and each
     * column gets the width `min(longest cell + 2, 50)`.
     */
    method ExportToExcel() returns (sheet: Option<Sheet>)
      ensures listings == [] <==> sheet.None?
      ensures sheet.Some? ==> sheet.value == SheetFor(listings)
    {
      if listings == [] {
        return None;
      }
      var cells: seq<seq<string>> := [Headers];
      var n := 0;
      while n < |listings|
        invariant 0 <= n <= |listings|
        invariant cells == Grid(listings[..n])
      {
        cells := cells + [Row(listings[n])];
        n := n + 1;
      }
      assert listings[..n] == listings;

      var widths: seq<nat> := [];
      var column := 0;
      while column < |Headers|
        invariant 0 <= column <= |Headers|
        invariant |widths| == column
        invariant forall c :: 0 <= c < column ==> widths[c] == ColumnWidth(cells, c)
      {
        var maxLength := 0;
        var row := 0;
        while row < |cells|
          invariant 0 <= row <= |cells|
          invariant maxLength == ColumnMax(cells[..row], column)
        {
          assert cells[..row + 1][..row] == cells[..row];
          if |cells[row][column]| > maxLength {
            maxLength := |cells[row][column]|;
          }
          row := row + 1;
        }
        assert cells[..row] == cells;
        var adjusted := if maxLength + 2 < MaxWidth then maxLength + 2 else MaxWidth;
        widths := widths + [adjusted];
        column := column + 1;
      }
      sheet := Some(Sheet(cells, widths));
    }
  }
}
