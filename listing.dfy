/** The filter both `index` handlers apply to the sorted directory listing:
    entries whose lower-cased name does not end in `.pdf` are skipped, the
    others are kept in listing order. */
module Listing {
  import opened Text
  import opened Booklet

  /** The entries that survive the `continue` filter, in listing order. */
  function PdfEntries(entries: seq<string>): seq<string> {
    if entries == [] then []
    else
      var last := entries[|entries| - 1];
      PdfEntries(entries[..|entries| - 1]) + (if IsPdf(last) then [last] else [])
  }

  /** Where in the listing those entries stand. */
  function PdfPositions(entries: seq<string>): seq<int> {
    if entries == [] then []
    else
      var n := |entries| - 1;
      PdfPositions(entries[..n]) + (if IsPdf(entries[n]) then [n] else [])
  }

  /** The kept entries are exactly the `.pdf` entries of the listing: they
      stand at strictly increasing positions, each kept entry is the listed
      entry at its position, and a position is kept iff the entry there
      passes the `.pdf` test. */
  lemma {:induction false} PdfPositionsSpec(entries: seq<string>)
    ensures |PdfPositions(entries)| == |PdfEntries(entries)|
    ensures forall k :: 0 <= k < |PdfPositions(entries)| ==>
      0 <= PdfPositions(entries)[k] < |entries| && entries[PdfPositions(entries)[k]] == PdfEntries(entries)[k]
    ensures forall k, l :: 0 <= k < l < |PdfPositions(entries)| ==>
      PdfPositions(entries)[k] < PdfPositions(entries)[l]
    ensures forall i :: 0 <= i < |entries| ==> (i in PdfPositions(entries) <==> IsPdf(entries[i]))
  {
    if entries != [] {
      var n := |entries| - 1;
      var init := entries[..n];
      PdfPositionsSpec(init);
      assert forall i :: 0 <= i < n ==> init[i] == entries[i];
      assert forall p :: p in PdfPositions(init) ==> p < n by {
        forall p | p in PdfPositions(init) ensures p < n {
          var k :| 0 <= k < |PdfPositions(init)| && PdfPositions(init)[k] == p;
        }
      }
    }
  }

  /** An entry is kept iff it is listed and passes the `.pdf` test. */
  lemma PdfEntriesMembership(entries: seq<string>, entry: string)
    ensures entry in PdfEntries(entries) <==> entry in entries && IsPdf(entry)
  {
    PdfPositionsSpec(entries);
    var ps := PdfPositions(entries);
    if entry in PdfEntries(entries) {
      var k :| 0 <= k < |PdfEntries(entries)| && PdfEntries(entries)[k] == entry;
      assert entries[ps[k]] == entry;
    }
    if entry in entries && IsPdf(entry) {
      var i :| 0 <= i < |entries| && entries[i] == entry;
      assert i in ps;
      var k :| 0 <= k < |ps| && ps[k] == i;
      assert PdfEntries(entries)[k] == entry;
    }
  }

  /** The order in which Python's `sorted` leaves a list of `str`. */
  predicate Sorted(names: seq<string>) {
    forall i, j :: 0 <= i < j < |names| ==> LexLe(names[i], names[j])
  }

  /** Filtering a sorted listing leaves it sorted. */
  lemma PdfEntriesSorted(entries: seq<string>)
    requires Sorted(entries)
    ensures Sorted(PdfEntries(entries))
  {
    PdfPositionsSpec(entries);
  }
}
