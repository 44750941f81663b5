# Booklet catalogue of the formula-booklet website

This project models the part of the formula-booklet website that turns the
names found in the booklet folder into the catalogue shown on the home page,
and the guard on the route serving a booklet. The repository has two
versions of the web app with the same logic: `flask_app.py`, whose catalogue
items also carry a hover-effect tag, and the earlier `app.py`, whose items do
not.

For each name in the sorted folder listing, the `/` route

1. skips the name unless its lower-cased form ends with `.pdf`;
2. matches it against `^(?P<name>.+)_(?P<year>\d{4})\.pdf$` (case-insensitive)
   and takes the two groups as display name and year;
3. failing a match, takes the `os.path.splitext` root as name and an empty year;
4. in `flask_app.py` only, tags the item with the effect of the first keyword
   (`math` → `glow-matrix`, then `physics` → `vector-field`) that occurs in the
   lower-cased `"name filename"`, or with no effect.

The route `/booklets/<filename>` answers 404 unless the lower-cased filename
ends with `.pdf`, and otherwise hands the name on to be sent.

Modules:

- `Text` (`text.dfy`): ASCII lower-casing, `endswith`, the substring test
  `needle in haystack` and Python's ordering of strings.
- `Booklet` (`booklet.dfy`): the `.pdf` test, the pattern as a hand-written
  matcher, `os.path.splitext`, the per-entry parse (shared by both apps, whose
  code is identical here) and the decision of `serve_booklet`.
- `Listing` (`listing.dfy`): the filter over the listing and the positions of
  the kept entries.
- `Effects` (`effects.dfy`): `_EFFECT_BY_KEYWORD` as an ordered table and
  `_effect_for_booklet` as a search loop proved against a function.
- `FlaskApp` (`flask_app.dfy`) and `App` (`app.dfy`): the item type and the
  `index` loop of each file, with the properties of the catalogue it builds.
- `Variants` (`variants.dfy`): both apps list the same booklets with the same
  names and years.

The pattern is modelled exactly as Python's `re.match` reads it: `.` does not
match a line feed, the tail `_\d{4}\.pdf` has fixed length nine so the greedy
name group is always the entry minus its last nine characters, and `$` may
also match just before a final line feed. `MatchPdfEntry` shows that this last
case never arises for entries that passed the `.pdf` filter.

The file-serving route of both files rejects every name not ending in `.pdf`
before looking for the file at all; a file that is absent is reported by the
framework and is not modelled. The model follows the route's code.

## Model

| member | source | states |
|---|---|---|
| `Text.ContainsIff` | flask_app.py:37 | `keyword in haystack` holds exactly when the keyword occurs in the haystack at some index |
| `Text.Lower` | flask_app.py:35 | `str.lower()` keeps the length of the string |
| `Text.LowerConcat` | flask_app.py:35 | lower-casing `f"{name} {filename}"` is lower-casing each part |
| `Text.LowerSlice` | flask_app.py:57 | lower-casing a slice is slicing the lower-cased string |
| `Text.LowerIdempotent` | flask_app.py:35 | lower-casing twice is lower-casing once |
| `Text.OccursContains` | flask_app.py:37 | an occurrence of the keyword at some index makes `keyword in haystack` true |
| `Text.ContainsOccurs` | flask_app.py:37 | `keyword in haystack` being true yields an index where the keyword occurs |
| `Booklet.IsPdfByChars` | flask_app.py:57 | the `.pdf` test holds exactly when the last four characters are a dot and `p`, `d`, `f` each in either case; such an entry never ends in a line feed |
| `Booklet.MatchAtEnd` | flask_app.py:21 | a match that ends at the end of the string has a non-empty name without line feed, a four-digit year, and the string is name + `_` + year + four characters |
| `Booklet.MatchFilename` | flask_app.py:21 | on a match the name group is non-empty without line feed, the year group is four ASCII digits, and the entry begins with name + `_` + year followed by at least four more characters |
| `Booklet.MatchComplete` | flask_app.py:21 | any name without line feed, four digits and `.pdf` in any case joined by `_` match, and the groups give back name and year |
| `Booklet.MatchPdfEntry` | flask_app.py:60-63 | for a `.pdf` entry: match iff the last nine characters are `_` and four digits after a non-empty line; then name is the entry minus its last nine characters, year the four digits, and entry == name + `_` + year + last four characters |
| `Booklet.SplitBeforeYear` | flask_app.py:21 | a string whose ninth-last character is `_` splits into the part before it, `_`, the next four characters and the last four |
| `Booklet.RFind` | flask_app.py:65 | the index `splitext` finds with `rfind`: -1 or a position holding the character, with none after it |
| `Booklet.RFindLast` | flask_app.py:65 | a position holding the character with none after it is what `rfind` returns |
| `Booklet.RFindPrefix` | flask_app.py:65 | cutting off a tail without the character does not move `rfind` |
| `Booklet.ExtIndex` | flask_app.py:65 | the cut `splitext` makes is -1 or a position holding a dot |
| `Booklet.SplitExt` | flask_app.py:65 | `os.path.splitext`: root + extension is the input, and a non-empty extension starts with a dot |
| `Booklet.SplitExtPdf` | flask_app.py:65 | for a `.pdf` entry the root is the entry minus its last four characters, unless the last path component before them is empty or all dots, in which case it is the whole entry |
| `Booklet.ParseEntry` | app.py:34-40 | the year is empty or four digits, and it is non-empty exactly when the pattern matches |
| `Booklet.ParsePdfEntry` | flask_app.py:60-66 | for a `.pdf` entry: the name is non-empty; with a year, name is the entry minus nine characters and entry == name + `_` + year + ext; without, name is the splitext root as in `SplitExtPdf` |
| `Booklet.ParseMatched` | app.py:34-37 | name + `_` + four digits + any spelling of `.pdf` parses back to that name and year |
| `Booklet.ParseUnmatched` | app.py:38-40 | a stem without `/`, not all dots and not ending in `_` and four characters, followed by any spelling of `.pdf`, parses to the stem with an empty year |
| `Booklet.ParseBareExtension` | app.py:38-40 | an entry that is only `.pdf` in some letter case keeps it all as name, with an empty year |
| `Booklet.ParseUpperCaseExtension` | app.py:20 | `Foo_2023.PDF` parses to name `Foo`, year `2023` |
| `Booklet.ParseShortYear` | app.py:34-40 | `Foo_23.pdf` falls back to name `Foo_23` with an empty year |
| `Booklet.ServeBooklet` | flask_app.py:88-93 | 404 exactly when the last four characters are not a dot and `p`, `d`, `f` in any case; otherwise the same name is passed on to be sent |
| `Effects.FirstEffectIsFirstHit` | flask_app.py:36-38 | the table search returns the effect of the first rule, in table order, whose keyword occurs |
| `Effects.FirstEffectNoHit` | flask_app.py:36-39 | with no keyword occurring, the table search returns `""` |
| `Effects.EffectFor` | flask_app.py:24-39 | the effect is one of `glow-matrix`, `vector-field`, `""`; `glow-matrix` iff `math` occurs; `vector-field` iff `physics` occurs and `math` does not; `""` iff neither occurs |
| `Effects.EffectForBooklet` | flask_app.py:32-39 | the loop with early return computes `EffectFor` |
| `Effects.EffectIgnoresCase` | flask_app.py:35 | names and filenames that lower-case alike get the same effect |
| `Effects.EffectOfLowered` | flask_app.py:35 | lower-casing name and filename beforehand does not change the effect |
| `Effects.MathWinsOverPhysics` | flask_app.py:24-27 | a booklet naming both `Physics` and `Math` gets `glow-matrix` |
| `Listing.PdfPositionsSpec` | flask_app.py:56-58 | the kept entries stand at strictly increasing listing positions, each is the listed entry there, and a position is kept iff its entry passes the `.pdf` test |
| `Listing.PdfEntriesMembership` | app.py:30-32 | an entry is kept iff it is listed and passes the `.pdf` test |
| `Listing.PdfEntriesSorted` | app.py:30 | filtering a listing in `sorted` order leaves it in that order |
| `FlaskApp.CatalogueSnoc` | flask_app.py:68-75 | one more listed entry adds its item at the end when it is a `.pdf` and nothing otherwise |
| `FlaskApp.Index` | flask_app.py:53-77 | the loop builds the catalogue of the listing, and no items when the folder is missing or not a directory |
| `FlaskApp.CatalogueSpec` | flask_app.py:56-75 | one item per `.pdf` entry and none for other entries, in listing order, each with its entry as `filename`; the item count is the number of `.pdf` entries |
| `FlaskApp.CatalogueSorted` | flask_app.py:56 | a sorted listing gives items in filename order |
| `FlaskApp.CatalogueItemsWellFormed` | flask_app.py:60-75 | every item has a `.pdf` filename, a non-empty name, an empty or four-digit year (with filename == name + `_` + year + ext), and the effect of its own name and filename, one of the three tags |
| `FlaskApp.CatalogueServed` | flask_app.py:91-93 | every listed booklet is one `serve_booklet` sends rather than rejects |
| `App.CatalogueSnoc` | app.py:42 | one more listed entry adds its item at the end when it is a `.pdf` and nothing otherwise |
| `App.Index` | app.py:27-44 | the loop builds the catalogue of the listing, and no items when the folder is missing or not a directory |
| `App.CatalogueSpec` | app.py:30-42 | one item per `.pdf` entry and none for other entries, in listing order, each with its entry as `filename`; the item count is the number of `.pdf` entries |
| `App.CatalogueItemsParsed` | app.py:34-42 | on a match the year is four digits and the name is the entry minus its trailing nine characters; otherwise the year is empty and the name is the splitext root; the name is never empty |
| `App.CatalogueServed` | app.py:49-51 | every listed booklet is one `serve_booklet` sends rather than rejects |
| `Variants.SameCatalogue` | app.py:28-42 | both apps list the same booklets in the same order with the same names and years |

## Left out

- Flask itself: app construction, route decorators, `render_template`, `abort`
  and `send_from_directory`. `ServeBooklet` returns the route's decision; the
  lookup of the file and path-traversal safety belong to the framework.
- Filesystem access: `exists()`, `is_dir()` and `os.listdir` become the input
  of `Index`, an optional listing that is absent when the folder is missing
  or not a directory. The folder names (`booklets`, `booklet`) do not matter
  to the model.
- Python's `sorted`: the listing is taken as already sorted; `Sorted` states
  that order, and `CatalogueSorted` assumes it rather than establishing it.
- Unicode: lower-casing and `\d` are ASCII only. Python's `str.lower()` has
  non-ASCII cases and `\d` matches every Unicode decimal digit; neither is
  modelled.
- `os.path.splitext` is the POSIX version (separator `/`, no drive letters or
  `\` separators as on Windows).
- The `/contact` route, configuration from the environment and `app.run`:
  configuration and I/O.
- The browser hover-effect script that reads the effect tags is not part of
  this model.
