/** flask_app.py: the booklet catalogue built by the `/` route, with a
    hover-effect tag per booklet, and the guard of `/booklets/<filename>`. */
module FlaskApp {
  import opened Text
  import opened Booklet
  import opened Effects
  import opened Listing

  /** `BookletItem` of flask_app.py. */
  datatype BookletItem = BookletItem(filename: string, name: string, year: string, effect: string)

  /** The item built for one entry that passed the `.pdf` filter. */
  function MakeItem(entry: string): BookletItem {
    var p := ParseEntry(entry);
    BookletItem(entry, p.name, p.year, EffectFor(p.name, entry))
  }

  /** The catalogue of a listing: one item per `.pdf` entry, in listing order. */
  function Catalogue(entries: seq<string>): seq<BookletItem> {
    var pdfs := PdfEntries(entries);
    seq(|pdfs|, k requires 0 <= k < |pdfs| => MakeItem(pdfs[k]))
  }

  /** Growing the listing by one entry grows the catalogue by that entry's
      item when it is a `.pdf`, and leaves it alone otherwise. */
  lemma CatalogueSnoc(entries: seq<string>, entry: string)
    ensures Catalogue(entries + [entry]) ==
      Catalogue(entries) + (if IsPdf(entry) then [MakeItem(entry)] else [])
  {
    assert (entries + [entry])[..|entries|] == entries;
  }

  /** The `index` handler. `listing` is `sorted(os.listdir(BOOKLETS_FOLDER))`
      when the folder exists and is a directory, and `None` otherwise. */
  method Index(listing: Option<seq<string>>) returns (items: seq<BookletItem>)
    ensures items == if listing.Some? then Catalogue(listing.value) else []
  {
    items := [];
    if listing.Some? {
      var entries := listing.value;
      for i := 0 to |entries|
        invariant items == Catalogue(entries[..i])
      {
        var entry := entries[i];
        CatalogueSnoc(entries[..i], entry);
        assert entries[..i + 1] == entries[..i] + [entry];
        if !IsPdf(entry) {
          continue;
        }
        var name, year;
        match MatchFilename(entry) {
          case Some(m) =>
            name, year := m.name, m.year;
          case None =>
            name, year := SplitExt(entry).root, "";
        }
        var effect := EffectForBooklet(name, entry);
        items := items + [BookletItem(entry, name, year, effect)];
      }
      assert entries[..|entries|] == entries;
    }
  }

  /** The catalogue holds exactly the `.pdf` entries of the listing: items
      stand at strictly increasing listing positions, so the listing order is
      kept; each item is built from, and carries as its `filename`, the entry
      at its position; and a position produces an item iff its entry passes
      the `.pdf` test, so there are as many items as `.pdf` entries. */
  lemma CatalogueSpec(entries: seq<string>)
    ensures |Catalogue(entries)| == |PdfPositions(entries)|
    ensures forall k :: 0 <= k < |Catalogue(entries)| ==>
      && 0 <= PdfPositions(entries)[k] < |entries|
      && Catalogue(entries)[k].filename == entries[PdfPositions(entries)[k]]
      && Catalogue(entries)[k] == MakeItem(entries[PdfPositions(entries)[k]])
    ensures forall k, l :: 0 <= k < l < |PdfPositions(entries)| ==>
      PdfPositions(entries)[k] < PdfPositions(entries)[l]
    ensures forall i :: 0 <= i < |entries| ==> (i in PdfPositions(entries) <==> IsPdf(entries[i]))
  {
    PdfPositionsSpec(entries);
  }

  /** A listing in `sorted` order gives a catalogue in filename order. */
  lemma CatalogueSorted(entries: seq<string>)
    requires Sorted(entries)
    ensures forall k, l :: 0 <= k < l < |Catalogue(entries)| ==>
      LexLe(Catalogue(entries)[k].filename, Catalogue(entries)[l].filename)
  {
    PdfEntriesSorted(entries);
  }

  /** What every item shows: a non-empty name; either a four-digit year with
      `filename == name + "_" + year + ext` and `ext` one of the spellings of
      `.pdf`, or an empty year; and one of the three effect tags, decided by
      the item's own name and filename. */
  lemma CatalogueItemsWellFormed(entries: seq<string>)
    ensures forall item :: item in Catalogue(entries) ==>
      && IsPdf(item.filename)
      && |item.name| >= 1
      && (item.year == "" || IsYear(item.year))
      && (item.year != "" ==>
            var ext := item.filename[|item.filename| - 4..];
            item.filename == item.name + "_" + item.year + ext && IsPdfExt(ext))
      && item.effect == EffectFor(item.name, item.filename)
      && item.effect in {"glow-matrix", "vector-field", ""}
  {
    forall item | item in Catalogue(entries)
      ensures IsPdf(item.filename) && |item.name| >= 1
      ensures item.year != "" ==>
        var ext := item.filename[|item.filename| - 4..];
        item.filename == item.name + "_" + item.year + ext && IsPdfExt(ext)
    {
      var pdfs := PdfEntries(entries);
      var k :| 0 <= k < |pdfs| && Catalogue(entries)[k] == item;
      PdfEntriesMembership(entries, pdfs[k]);
      ParsePdfEntry(pdfs[k]);
      IsPdfByChars(pdfs[k]);
    }
  }

  /** Every booklet the catalogue lists is one that `serve_booklet` hands out. */
  lemma CatalogueServed(entries: seq<string>)
    ensures forall item :: item in Catalogue(entries) ==>
      ServeBooklet(item.filename) == SendFile(item.filename)
  {
    CatalogueItemsWellFormed(entries);
  }
}
