/** The two web apps build the same catalogue: flask_app.py only adds the
    effect tag to each item of app.py. */
module Variants {
  import App
  import FlaskApp

  lemma SameCatalogue(entries: seq<string>)
    ensures |App.Catalogue(entries)| == |FlaskApp.Catalogue(entries)|
    ensures forall k :: 0 <= k < |App.Catalogue(entries)| ==>
      var a, f := App.Catalogue(entries)[k], FlaskApp.Catalogue(entries)[k];
      a == App.BookletItem(f.filename, f.name, f.year)
  {
  }
}
