/** app.py: the earlier variant of the web app, whose catalogue items carry no
    effect tag, with the same guard on `/booklets/<filename>`. */
module App {
  import opened Text
  import opened Booklet
  import opened Listing

  /** `BookletItem` of app.py. */
  datatype BookletItem = BookletItem(filename: string, name: string, year: string)

  /** The item built for one entry that passed the `.pdf` filter. */
  function MakeItem(entry: string): BookletItem {
    var p := ParseEntry(entry);
    BookletItem(entry, p.name, p.year)
  }

  /** The catalogue of a listing: one item per `.pdf` entry, in listing order. */
  function Catalogue(entries: seq<string>): seq<BookletItem> {
    var pdfs := PdfEntries(entries);
    seq(|pdfs|, k requires 0 <= k < |pdfs| => MakeItem(pdfs[k]))
  }

  /** Growing the listing by one entry grows the catalogue by that entry's
      item when it is a `.pdf`, and leaves it alone otherwise. */
  lemma CatalogueSnoc(entries: seq<string>, entry: string)
    ensures Catalogue(entries + [entry]) ==
      Catalogue(entries) + (if IsPdf(entry) then [MakeItem(entry)] else [])
  {
    assert (entries + [entry])[..|entries|] == entries;
  }

  /** The `index` handler. `listing` is `sorted(os.listdir(BOOKLETS_FOLDER))`
      when the folder exists and is a directory, and `None` otherwise. */
  method Index(listing: Option<seq<string>>) returns (items: seq<BookletItem>)
    ensures items == if listing.Some? then Catalogue(listing.value) else []
  {
    items := [];
    if listing.Some? {
      var entries := listing.value;
      for i := 0 to |entries|
        invariant items == Catalogue(entries[..i])
      {
        var entry := entries[i];
        CatalogueSnoc(entries[..i], entry);
        assert entries[..i + 1] == entries[..i] + [entry];
        if !IsPdf(entry) {
          continue;
        }
        var name, year;
        match MatchFilename(entry) {
          case Some(m) =>
            name, year := m.name, m.year;
          case None =>
            name, year := SplitExt(entry).root, "";
        }
        items := items + [BookletItem(entry, name, year)];
      }
      assert entries[..|entries|] == entries;
    }
  }

  /** The catalogue holds exactly the `.pdf` entries of the listing, in
      listing order, each item carrying its entry as `filename`; there are as
      many items as `.pdf` entries. */
  lemma CatalogueSpec(entries: seq<string>)
    ensures |Catalogue(entries)| == |PdfPositions(entries)|
    ensures forall k :: 0 <= k < |Catalogue(entries)| ==>
      && 0 <= PdfPositions(entries)[k] < |entries|
      && Catalogue(entries)[k].filename == entries[PdfPositions(entries)[k]]
      && Catalogue(entries)[k] == MakeItem(entries[PdfPositions(entries)[k]])
    ensures forall k, l :: 0 <= k < l < |PdfPositions(entries)| ==>
      PdfPositions(entries)[k] < PdfPositions(entries)[l]
    ensures forall i :: 0 <= i < |entries| ==> (i in PdfPositions(entries) <==> IsPdf(entries[i]))
  {
    PdfPositionsSpec(entries);
  }

  /** Each item's name and year: on a match, a four-digit year and the entry
      minus its trailing `_YYYY.pdf` (nine characters, `pdf` in any case) as
      name; otherwise an empty year and the splitext root. */
  lemma CatalogueItemsParsed(entries: seq<string>)
    ensures forall item :: item in Catalogue(entries) ==>
      && IsPdf(item.filename)
      && |item.name| >= 1
      && (item.year != "" ==>
            && IsYear(item.year)
            && |item.filename| >= 10
            && item.name == item.filename[..|item.filename| - 9]
            && item.year == item.filename[|item.filename| - 8..|item.filename| - 4])
      && (item.year == "" ==> item.name == SplitExt(item.filename).root)
  {
    forall item | item in Catalogue(entries)
      ensures IsPdf(item.filename) && |item.name| >= 1
      ensures item.year != "" ==>
        && IsYear(item.year)
        && |item.filename| >= 10
        && item.name == item.filename[..|item.filename| - 9]
        && item.year == item.filename[|item.filename| - 8..|item.filename| - 4]
    {
      var pdfs := PdfEntries(entries);
      var k :| 0 <= k < |pdfs| && Catalogue(entries)[k] == item;
      PdfEntriesMembership(entries, pdfs[k]);
      ParsePdfEntry(pdfs[k]);
      MatchPdfEntry(pdfs[k]);
    }
  }

  /** Every booklet the catalogue lists is one that `serve_booklet` hands out. */
  lemma CatalogueServed(entries: seq<string>)
    ensures forall item :: item in Catalogue(entries) ==>
      ServeBooklet(item.filename) == SendFile(item.filename)
  {
    CatalogueItemsParsed(entries);
  }
}
