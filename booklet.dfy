/** What both web apps do with one file name: the `.pdf` test, the parse with
    `_FILENAME_RE` and its `os.path.splitext` fallback, and the guard of the
    file-serving route. */
module Booklet {
  import opened Text

  datatype Option<T> = None | Some(value: T)

  /** The `name` and `year` shown for one booklet. */
  datatype Parsed = Parsed(name: string, year: string)

  /** `entry.lower().endswith(".pdf")`. */
  predicate IsPdf(entry: string) {
    EndsWith(Lower(entry), ".pdf")
  }

  /** The sixteen spellings of `.pdf`: a dot, then `p`, `d` and `f` each in
      either case. This is also what `\.pdf` accepts under re.IGNORECASE. */
  predicate IsPdfExt(ext: string) {
    && |ext| == 4
    && ext[0] == '.'
    && (ext[1] == 'p' || ext[1] == 'P')
    && (ext[2] == 'd' || ext[2] == 'D')
    && (ext[3] == 'f' || ext[3] == 'F')
  }

  /** The `.pdf` test holds exactly when the last four characters are one of
      the spellings of `.pdf`; such an entry does not end in a line feed. */
  lemma IsPdfByChars(s: string)
    ensures IsPdf(s) <==> |s| >= 4 && IsPdfExt(s[|s| - 4..])
    ensures IsPdf(s) ==> s[|s| - 1] != '\n'
  {
    if |s| >= 4 {
      var t := Lower(s)[|s| - 4..];
      var e := s[|s| - 4..];
      assert t[0] == LowerChar(e[0]) && t[1] == LowerChar(e[1]);
      assert t[2] == LowerChar(e[2]) && t[3] == LowerChar(e[3]);
      assert t == ".pdf" <==> t[0] == '.' && t[1] == 'p' && t[2] == 'd' && t[3] == 'f';
    }
  }

  // ---------------------------------------------------------------------------
  // The pattern `^(?P<name>.+)_(?P<year>\d{4})\.pdf$` under re.IGNORECASE,
  // applied with `re.match`.
  // ---------------------------------------------------------------------------

  predicate IsAsciiDigit(c: char) {
    '0' <= c <= '9'
  }

  /** What `\d{4}` accepts. */
  predicate IsYear(y: string) {
    |y| == 4 && forall i :: 0 <= i < 4 ==> IsAsciiDigit(y[i])
  }

  /** What `.+` accepts: at least one character and no line feed, since `.`
      does not match "\n" without re.DOTALL. */
  predicate IsName(n: string) {
    |n| >= 1 && '\n' !in n
  }

  /** What `_\d{4}\.pdf` accepts under re.IGNORECASE: exactly nine characters. */
  predicate IsYearSuffix(t: string) {
    |t| == 9 && t[0] == '_' && IsYear(t[1..5]) && IsPdfExt(t[5..])
  }

  /** The pattern with `$` taken at the very end of `s`. The tail after `.+`
      has fixed length nine, so the greedy group ends exactly nine characters
      before the end and no other split is possible. */
  function MatchAtEnd(s: string): (r: Option<Parsed>)
    ensures r.Some? ==> IsName(r.value.name) && IsYear(r.value.year)
    ensures r.Some? ==> |s| == |r.value.name| + 9 && s[..|r.value.name| + 5] == r.value.name + "_" + r.value.year
  {
    if |s| >= 10 && IsName(s[..|s| - 9]) && IsYearSuffix(s[|s| - 9..]) then
      var t := s[|s| - 9..];
      assert t[1..5] == s[|s| - 8..|s| - 4];
      assert s[..|s| - 4] == s[..|s| - 9] + [t[0]] + t[1..5];
      Some(Parsed(s[..|s| - 9], s[|s| - 8..|s| - 4]))
    else
      None
  }

  /** `_FILENAME_RE.match(s)` with its two groups. Python's `$` also matches
      just before a final "\n", which is the second branch. */
  function MatchFilename(s: string): (r: Option<Parsed>)
    ensures r.Some? ==> IsName(r.value.name) && IsYear(r.value.year)
    ensures r.Some? ==> |s| >= |r.value.name| + 9 && s[..|r.value.name| + 5] == r.value.name + "_" + r.value.year
  {
    var m := MatchAtEnd(s);
    if m.Some? then
      m
    else if |s| >= 1 && s[|s| - 1] == '\n' then
      var t := s[..|s| - 1];
      var mt := MatchAtEnd(t);
      assert mt.Some? ==> s[..|mt.value.name| + 5] == t[..|mt.value.name| + 5];
      mt
    else
      None
  }

  /** Every name, year and `.pdf` extension in any letter case put together
      with an underscore is matched, and the groups give back the parts. */
  lemma MatchComplete(name: string, year: string, ext: string)
    requires IsName(name) && IsYear(year) && IsPdfExt(ext)
    ensures MatchFilename(name + "_" + year + ext) == Some(Parsed(name, year))
  {
    var s := name + "_" + year + ext;
    var t := s[|s| - 9..];
    assert s[..|s| - 9] == name;
    assert t == "_" + year + ext;
    assert t[0] == '_' && t[1..5] == year && t[5..] == ext;
    assert s[|s| - 8..|s| - 4] == year;
    assert IsYearSuffix(t);
  }

  /** For an entry that passed the `.pdf` filter the match is decided by the
      end of the entry alone: it succeeds exactly when the nine characters
      before the end are `_` and four digits after a non-empty line of text,
      and then `name` is the entry minus its last nine characters and `year`
      the four digits. The newline branch of `$` never fires. */
  lemma MatchPdfEntry(s: string)
    requires IsPdf(s)
    ensures MatchFilename(s).Some? <==>
      |s| >= 10 && IsName(s[..|s| - 9]) && s[|s| - 9] == '_' && IsYear(s[|s| - 8..|s| - 4])
    ensures MatchFilename(s).Some? ==>
      && MatchFilename(s).value == Parsed(s[..|s| - 9], s[|s| - 8..|s| - 4])
      && s == s[..|s| - 9] + "_" + s[|s| - 8..|s| - 4] + s[|s| - 4..]
  {
    IsPdfByChars(s);
    assert MatchFilename(s) == MatchAtEnd(s);
    if |s| >= 10 {
      var t := s[|s| - 9..];
      assert t[1..5] == s[|s| - 8..|s| - 4];
      assert t[5..] == s[|s| - 4..];
      if s[|s| - 9] == '_' {
        SplitBeforeYear(s);
      }
    }
  }

  /** Cutting an entry nine and four characters before its end around an
      underscore puts it back together. */
  lemma SplitBeforeYear(s: string)
    requires |s| >= 9 && s[|s| - 9] == '_'
    ensures s == s[..|s| - 9] + "_" + s[|s| - 8..|s| - 4] + s[|s| - 4..]
  {
    var n := |s|;
    assert s[n - 9..] == [s[n - 9]] + s[n - 8..n - 4] + s[n - 4..];
    assert s == s[..n - 9] + s[n - 9..];
  }

  // ---------------------------------------------------------------------------
  // os.path.splitext (posixpath: separator "/", no alternative separator)
  // ---------------------------------------------------------------------------

  /** `s.rfind(c)`: the index of the last `c` in `s`, or -1 when there is none. */
  function RFind(s: string, c: char): (r: int)
    ensures -1 <= r < |s|
    ensures r >= 0 ==> s[r] == c
    ensures forall i :: r < i < |s| ==> s[i] != c
  {
    if s == [] then -1
    else if s[|s| - 1] == c then |s| - 1
    else RFind(s[..|s| - 1], c)
  }

  predicate AllDots(s: string) {
    forall i :: 0 <= i < |s| ==> s[i] == '.'
  }

  /** The result of `os.path.splitext`. */
  datatype Split = Split(root: string, ext: string)

  /** Where `os.path.splitext(p)` cuts `p`, or -1 for no extension: at the
      last dot, provided it lies in the last path component and some
      character before it in that component is not a dot (leading dots belong
      to the root, as in ".bashrc"). */
  function ExtIndex(p: string): (d: int)
    ensures -1 <= d < |p|
    ensures d >= 0 ==> p[d] == '.'
  {
    var sepIndex := RFind(p, '/');
    var dotIndex := RFind(p, '.');
    if dotIndex > sepIndex && !AllDots(p[sepIndex + 1..dotIndex]) then dotIndex else -1
  }

  /** `os.path.splitext(p)`: root and extension put back together give `p`;
      a non-empty extension starts with its dot. */
  function SplitExt(p: string): (r: Split)
    ensures r.root + r.ext == p
    ensures |r.ext| == 0 || r.ext[0] == '.'
  {
    var d := ExtIndex(p);
    if d >= 0 then Split(p[..d], p[d..]) else Split(p, "")
  }

  /** `RFind` gives the last occurrence. */
  lemma RFindLast(s: string, c: char, k: int)
    requires 0 <= k < |s| && s[k] == c
    requires forall i :: k < i < |s| ==> s[i] != c
    ensures RFind(s, c) == k
  {
  }

  /** Characters after the last `c` do not change where `RFind` lands when
      they are cut off. */
  lemma {:induction false} RFindPrefix(s: string, c: char, n: nat)
    requires n <= |s|
    requires forall i :: n <= i < |s| ==> s[i] != c
    ensures RFind(s, c) == RFind(s[..n], c)
    decreases |s| - n
  {
    if n < |s| {
      var init := s[..|s| - 1];
      assert init[..n] == s[..n];
      RFindPrefix(init, c, n);
    } else {
      assert s[..n] == s;
    }
  }

  /** The last path component of `s` (all of it when there is no "/"). */
  function BaseName(s: string): string {
    s[RFind(s, '/') + 1..]
  }

  /** For an entry ending in a dot and three letters, the last dot is the one
      before `pdf`: splitext drops those four characters unless the last path
      component before them is all dots (or empty), in which case the root is
      the whole entry. */
  lemma SplitExtPdf(s: string)
    requires IsPdf(s)
    ensures SplitExt(s).root ==
      if AllDots(BaseName(s[..|s| - 4])) then s else s[..|s| - 4]
  {
    IsPdfByChars(s);
    var n := |s| - 4;
    RFindLast(s, '.', n);
    RFindPrefix(s, '/', n);
    var stem := s[..n];
    var k := RFind(stem, '/');
    assert s[k + 1..n] == stem[k + 1..];
    assert ExtIndex(s) == if AllDots(BaseName(stem)) then -1 else n;
  }

  // ---------------------------------------------------------------------------
  // The parse done for each listed entry
  // ---------------------------------------------------------------------------

  /** `name` and `year` of an entry: the two groups of the pattern when it
      matches, otherwise the splitext root and an empty year. */
  function ParseEntry(entry: string): (p: Parsed)
    ensures p.year == "" || IsYear(p.year)
    ensures p.year != "" <==> MatchFilename(entry).Some?
  {
    match MatchFilename(entry)
    case Some(m) => m
    case None => Parsed(SplitExt(entry).root, "")
  }

  /** What the parse gives for an entry that passed the `.pdf` filter: a
      non-empty name; either a four-digit year with the entry equal to
      name + "_" + year + its last four characters, or an empty year and the
      splitext root as name. */
  lemma ParsePdfEntry(entry: string)
    requires IsPdf(entry)
    ensures |ParseEntry(entry).name| >= 1
    ensures ParseEntry(entry).year != "" ==>
      var p := ParseEntry(entry);
      && IsYear(p.year)
      && p.name == entry[..|entry| - 9]
      && entry == p.name + "_" + p.year + entry[|entry| - 4..]
    ensures ParseEntry(entry).year == "" ==>
      ParseEntry(entry).name ==
        if AllDots(BaseName(entry[..|entry| - 4])) then entry else entry[..|entry| - 4]
  {
    MatchPdfEntry(entry);
    SplitExtPdf(entry);
    IsPdfByChars(entry);
  }

  /** A name, a four-digit year and a `.pdf` extension in any letter case,
      joined by `_`, parse back to that name and year. */
  lemma ParseMatched(name: string, year: string, ext: string)
    requires IsName(name) && IsYear(year) && IsPdfExt(ext)
    ensures ParseEntry(name + "_" + year + ext) == Parsed(name, year)
  {
    MatchComplete(name, year, ext);
  }

  /** A stem without "/" and not made of dots only, whose end is not `_`
      and four characters, followed by a `.pdf` extension in any letter case,
      parses to the stem itself with no year. */
  lemma ParseUnmatched(stem: string, ext: string)
    requires '/' !in stem && !AllDots(stem) && IsPdfExt(ext)
    requires |stem| < 5 || stem[|stem| - 5] != '_'
    ensures ParseEntry(stem + ext) == Parsed(stem, "")
  {
    var s := stem + ext;
    assert s[..|s| - 4] == stem && s[|s| - 4..] == ext;
    IsPdfByChars(s);
    MatchPdfEntry(s);
    if |s| >= 10 {
      assert s[|s| - 9] == stem[|stem| - 5];
    }
    ParsePdfEntry(s);
    assert RFind(stem, '/') == -1;
  }

  /** An entry that is nothing but `.pdf`, in any letter case, keeps the dot
      in its name: the splitext root of `.pdf` is `.pdf` itself. */
  lemma ParseBareExtension(ext: string)
    requires |ext| == 4 && IsPdf(ext)
    ensures ParseEntry(ext) == Parsed(ext, "")
  {
    MatchPdfEntry(ext);
    ParsePdfEntry(ext);
    assert BaseName(ext[..0]) == [];
  }

  /** `Foo_2023.PDF` matches because of re.IGNORECASE and parses to `Foo`,
      `2023`. */
  lemma ParseUpperCaseExtension(entry: string)
    requires entry == "Foo_2023.PDF"
    ensures ParseEntry(entry) == Parsed("Foo", "2023")
  {
    assert entry == "Foo" + "_" + "2023" + ".PDF";
    ParseMatched("Foo", "2023", ".PDF");
  }

  /** `Foo_23.pdf` does not match, because the year needs four digits, and
      falls back to the stem `Foo_23` with no year. */
  lemma ParseShortYear(entry: string)
    requires entry == "Foo_23.pdf"
    ensures ParseEntry(entry) == Parsed("Foo_23", "")
  {
    assert entry == "Foo_23" + ".pdf";
    assert "Foo_23"[0] == 'F';
    ParseUnmatched("Foo_23", ".pdf");
  }

  // ---------------------------------------------------------------------------
  // The file-serving route
  // ---------------------------------------------------------------------------

  /** What `serve_booklet` answers: 404, or the file handed on to be sent. */
  datatype Response = NotFound | SendFile(filename: string)

  /** `serve_booklet(filename)`: 404 unless the name ends in `.pdf` in any
      letter case; otherwise the same name is passed on unchanged. */
  function ServeBooklet(filename: string): (r: Response)
    ensures r.SendFile? <==> |filename| >= 4 && IsPdfExt(filename[|filename| - 4..])
    ensures r.SendFile? ==> r.filename == filename
  {
    IsPdfByChars(filename);
    if !IsPdf(filename) then NotFound else SendFile(filename)
  }
}
