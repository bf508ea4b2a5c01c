/**
 * google_scholar_search.py: the search URL of one result page, the year
 * parse used as sort key, the authors/year split of a result's `.gs_a`
 * line, the per-page parse, the stable sort by year and the page loop.
 * The browser is replaced by an oracle `fetch(url)` returning the result
 * blocks of a page; urllib.parse.quote stays an uninterpreted parameter.
 */
module Scholar {
  import opened Wrappers
  import opened Text
  import opened Grouping
  import opened Sorting

  // ---------------------------------------------------------------------
  // build_scholar_page_url
  // ---------------------------------------------------------------------

  const ScholarBase := "https://scholar.google.com/scholar"
  const DefaultLang := "zh-CN"

  /** Python truthiness of an optional integer: None and 0 are false. */
  predicate Truthy(v: Option<int>) {
    v.Some? && v.value != 0
  }

  /** The query parameters of a page URL, in the order the URL lists them. */
  function PageParams(q: string, start: int, startYear: Option<int>, endYear: Option<int>, lang: string): seq<string>
  {
    ["start=" + IntToDecimal(start), "q=" + q, "hl=" + lang, "as_sdt=0,5"]
    + (if Truthy(startYear) then ["as_ylo=" + IntToDecimal(startYear.value)] else [])
    + (if Truthy(endYear) then ["as_yhi=" + IntToDecimal(endYear.value)] else [])
  }

  /**
   * build_scholar_page_url: the fixed prefix, start, the quoted query, the
   * language and as_sdt, then as_ylo and as_yhi when the years are truthy.
   */
  function BuildScholarPageUrl(quote: string -> string, query: string, start: int,
                               startYear: Option<int>, endYear: Option<int>, lang: string): string
  {
    var q := quote(query);
    var url := ScholarBase + "?" + ("start=" + IntToDecimal(start)) + "&" + ("q=" + q) + "&" + ("hl=" + lang) + "&" + "as_sdt=0,5";
    var url' := if Truthy(startYear) then url + "&" + ("as_ylo=" + IntToDecimal(startYear.value)) else url;
    if Truthy(endYear) then url' + "&" + ("as_yhi=" + IntToDecimal(endYear.value)) else url'
  }

  /** The URL is the base, "?" and the page parameters joined by "&". */
  lemma UrlIsJoinedParams(quote: string -> string, query: string, start: int,
                          startYear: Option<int>, endYear: Option<int>, lang: string)
    ensures BuildScholarPageUrl(quote, query, start, startYear, endYear, lang)
      == ScholarBase + "?" + Join(PageParams(quote(query), start, startYear, endYear, lang), '&')
  {
    JoinUrl(ScholarBase + "?", PageParams(quote(query), start, startYear, endYear, lang), Truthy(startYear), Truthy(endYear));
  }

  /** Appending "&" and a parameter to a URL ending in a joined list joins one more parameter. */
  lemma JoinStep(b: string, ps: seq<string>, x: string)
    requires |ps| >= 1
    ensures b + Join(ps, '&') + "&" + x == b + Join(ps + [x], '&')
  {
    JoinAppend(ps, x, '&');
    ConcatAssoc(b, Join(ps, '&'), x);
  }

  /** Appending "&" then x is appending the one-character separator and x as a block. */
  lemma ConcatAssoc(b: string, j: string, x: string)
    ensures b + j + "&" + x == b + (j + ['&'] + x)
  {
    assert "&" == ['&'];
  }

  lemma JoinPrefixStep(b: string, ps: seq<string>, k: nat)
    requires 1 <= k < |ps|
    ensures b + Join(ps[..k], '&') + "&" + ps[k] == b + Join(ps[..k + 1], '&')
  {
    assert ps[..k] + [ps[k]] == ps[..k + 1];
    JoinStep(b, ps[..k], ps[k]);
  }

  lemma JoinFixed(b: string, ps: seq<string>)
    requires |ps| >= 4
    ensures b + ps[0] + "&" + ps[1] + "&" + ps[2] + "&" + ps[3] == b + Join(ps[..4], '&')
  {
    assert ps[..1] == [ps[0]];
    JoinPrefixStep(b, ps, 1);
    JoinPrefixStep(b, ps, 2);
    JoinPrefixStep(b, ps, 3);
  }

  lemma JoinFour(b: string, ps: seq<string>)
    requires |ps| == 4
    ensures b + ps[0] + "&" + ps[1] + "&" + ps[2] + "&" + ps[3] == b + Join(ps, '&')
  {
    JoinFixed(b, ps);
    assert ps[..4] == ps;
  }

  lemma JoinFive(b: string, ps: seq<string>)
    requires |ps| == 5
    ensures b + ps[0] + "&" + ps[1] + "&" + ps[2] + "&" + ps[3] + "&" + ps[4] == b + Join(ps, '&')
  {
    JoinFixed(b, ps);
    JoinPrefixStep(b, ps, 4);
    assert ps[..5] == ps;
  }

  lemma JoinSix(b: string, ps: seq<string>)
    requires |ps| == 6
    ensures b + ps[0] + "&" + ps[1] + "&" + ps[2] + "&" + ps[3] + "&" + ps[4] + "&" + ps[5] == b + Join(ps, '&')
  {
    JoinFixed(b, ps);
    JoinPrefixStep(b, ps, 4);
    JoinPrefixStep(b, ps, 5);
    assert ps[..6] == ps;
  }

  /** The URL built parameter by parameter is the base followed by all parameters joined by "&". */
  lemma JoinUrl(b: string, ps: seq<string>, lo: bool, hi: bool)
    requires |ps| == 4 + (if lo then 1 else 0) + (if hi then 1 else 0)
    ensures var url := b + ps[0] + "&" + ps[1] + "&" + ps[2] + "&" + ps[3];
      var url' := if lo then url + "&" + ps[4] else url;
      var url'' := if hi then url' + "&" + ps[|ps| - 1] else url';
      url'' == b + Join(ps, '&')
  {
    if lo && hi {
      JoinSix(b, ps);
    } else if lo || hi {
      JoinFive(b, ps);
    } else {
      JoinFour(b, ps);
    }
  }

  /** A decimal rendering never contains the parameter separator. */
  lemma DecimalHasNoAmpersand(i: int)
    ensures '&' !in IntToDecimal(i)
  {
    var s := IntToDecimal(i);
    forall j | 0 <= j < |s|
      ensures s[j] != '&'
    {
    }
  }

  /** No parameter contains "&" when the quoted query and the language do not. */
  lemma ParamsWithoutAmpersand(q: string, start: int, startYear: Option<int>, endYear: Option<int>, lang: string)
    requires '&' !in q && '&' !in lang
    ensures var ps := PageParams(q, start, startYear, endYear, lang);
      forall t :: 0 <= t < |ps| ==> '&' !in ps[t]
  {
    var ps := PageParams(q, start, startYear, endYear, lang);
    DecimalHasNoAmpersand(start);
    if Truthy(startYear) {
      DecimalHasNoAmpersand(startYear.value);
    }
    if Truthy(endYear) {
      DecimalHasNoAmpersand(endYear.value);
    }
    forall t | 0 <= t < |ps|
      ensures '&' !in ps[t]
    {
      assert ps[t] in ps;
    }
  }

  /**
   * When neither the quoted query nor the language contains "&", splitting
   * the query string of the URL on "&" gives back exactly its parameters.
   */
  lemma UrlQueryParameters(quote: string -> string, query: string, start: int,
                           startYear: Option<int>, endYear: Option<int>, lang: string)
    requires '&' !in quote(query) && '&' !in lang
    ensures var url := BuildScholarPageUrl(quote, query, start, startYear, endYear, lang);
      && url[..|ScholarBase| + 1] == ScholarBase + "?"
      && Split(url[|ScholarBase| + 1..], '&') == PageParams(quote(query), start, startYear, endYear, lang)
  {
    var ps := PageParams(quote(query), start, startYear, endYear, lang);
    var url := BuildScholarPageUrl(quote, query, start, startYear, endYear, lang);
    var b := ScholarBase + "?";
    UrlIsJoinedParams(quote, query, start, startYear, endYear, lang);
    assert url == b + Join(ps, '&');
    assert url[..|b|] == b;
    assert url[|b|..] == Join(ps, '&');
    ParamsWithoutAmpersand(quote(query), start, startYear, endYear, lang);
    SplitJoin(ps, '&');
  }

  predicate HasPrefix(s: string, p: string) {
    |p| <= |s| && s[..|p|] == p
  }

  /** The position of the first parameter called `name`, as a query-string reader finds it. */
  function ParamIndex(ps: seq<string>, name: string): (r: Option<nat>)
    ensures r.Some? ==> r.value < |ps| && HasPrefix(ps[r.value], name + "=")
    ensures r.Some? ==> forall t :: 0 <= t < r.value ==> !HasPrefix(ps[t], name + "=")
    ensures r.None? ==> forall t :: 0 <= t < |ps| ==> !HasPrefix(ps[t], name + "=")
  {
    if ps == [] then None
    else if HasPrefix(ps[0], name + "=") then Some(0)
    else
      var r := ParamIndex(ps[1..], name);
      if r.Some? then Some(r.value + 1) else None
  }

  /** A parameter with the name, with none before it, is the one found. */
  lemma ParamIndexFirst(ps: seq<string>, name: string, t: nat)
    requires t < |ps| && HasPrefix(ps[t], name + "=")
    requires forall u :: 0 <= u < t ==> !HasPrefix(ps[u], name + "=")
    ensures ParamIndex(ps, name) == Some(t)
  {
  }

  /** When no parameter has the name, none is found. */
  lemma ParamIndexAbsent(ps: seq<string>, name: string)
    requires forall u :: 0 <= u < |ps| ==> !HasPrefix(ps[u], name + "=")
    ensures ParamIndex(ps, name).None?
  {
  }

  lemma DiffersAt(s: string, p: string, j: nat)
    requires j < |p| && (j >= |s| || s[j] != p[j])
    ensures !HasPrefix(s, p)
  {
    if |p| <= |s| {
      assert s[..|p|][j] == s[j];
    }
  }

  /** None of the four fixed parameters is a year parameter. */
  lemma FixedParamsNotYears(ps: seq<string>, q: string, start: int, startYear: Option<int>, endYear: Option<int>, lang: string)
    requires ps == PageParams(q, start, startYear, endYear, lang)
    ensures forall t :: 0 <= t < 4 ==> !HasPrefix(ps[t], "as_ylo=") && !HasPrefix(ps[t], "as_yhi=")
  {
    assert ps[0][0] == 's';
    DiffersAt(ps[0], "as_ylo=", 0);
    DiffersAt(ps[0], "as_yhi=", 0);
    assert ps[1][0] == 'q';
    DiffersAt(ps[1], "as_ylo=", 0);
    DiffersAt(ps[1], "as_yhi=", 0);
    assert ps[2][0] == 'h';
    DiffersAt(ps[2], "as_ylo=", 0);
    DiffersAt(ps[2], "as_yhi=", 0);
    assert ps[3] == "as_sdt=0,5";
    DiffersAt(ps[3], "as_ylo=", 3);
    DiffersAt(ps[3], "as_yhi=", 3);
  }

  /** as_ylo is present exactly when start_year is truthy, and then carries it. */
  lemma LowerYearParameter(q: string, start: int, startYear: Option<int>, endYear: Option<int>, lang: string)
    ensures var ps := PageParams(q, start, startYear, endYear, lang);
      var lo := ParamIndex(ps, "as_ylo");
      && (lo.Some? <==> Truthy(startYear))
      && (lo.Some? ==> lo.value == 4 && ps[4] == "as_ylo=" + IntToDecimal(startYear.value))
  {
    var ps := PageParams(q, start, startYear, endYear, lang);
    assert "as_ylo" + "=" == "as_ylo=";
    FixedParamsNotYears(ps, q, start, startYear, endYear, lang);
    if Truthy(startYear) {
      assert ps[4] == "as_ylo=" + IntToDecimal(startYear.value);
      assert HasPrefix(ps[4], "as_ylo=");
      ParamIndexFirst(ps, "as_ylo", 4);
    } else {
      if Truthy(endYear) {
        assert ps[4] == "as_yhi=" + IntToDecimal(endYear.value);
        DiffersAt(ps[4], "as_ylo=", 4);
      }
      ParamIndexAbsent(ps, "as_ylo");
    }
  }

  /** as_yhi is present exactly when end_year is truthy, and then comes last and carries it. */
  lemma UpperYearParameter(q: string, start: int, startYear: Option<int>, endYear: Option<int>, lang: string)
    ensures var ps := PageParams(q, start, startYear, endYear, lang);
      var hi := ParamIndex(ps, "as_yhi");
      && (hi.Some? <==> Truthy(endYear))
      && (hi.Some? ==> hi.value == |ps| - 1 && ps[hi.value] == "as_yhi=" + IntToDecimal(endYear.value))
  {
    var ps := PageParams(q, start, startYear, endYear, lang);
    assert "as_yhi" + "=" == "as_yhi=";
    FixedParamsNotYears(ps, q, start, startYear, endYear, lang);
    if Truthy(startYear) {
      assert ps[4] == "as_ylo=" + IntToDecimal(startYear.value);
      DiffersAt(ps[4], "as_yhi=", 4);
    }
    if Truthy(endYear) {
      var last := if Truthy(startYear) then 5 else 4;
      assert |ps| == last + 1;
      assert ps[last] == "as_yhi=" + IntToDecimal(endYear.value);
      assert HasPrefix(ps[last], "as_yhi=");
      ParamIndexFirst(ps, "as_yhi", last);
    } else {
      ParamIndexAbsent(ps, "as_yhi");
    }
  }

  /**
   * as_ylo is present exactly when start_year is truthy and as_yhi exactly
   * when end_year is; each carries its year, and as_ylo comes first.
   */
  lemma YearParameters(q: string, start: int, startYear: Option<int>, endYear: Option<int>, lang: string)
    ensures var ps := PageParams(q, start, startYear, endYear, lang);
      var lo := ParamIndex(ps, "as_ylo");
      var hi := ParamIndex(ps, "as_yhi");
      && (lo.Some? <==> Truthy(startYear))
      && (hi.Some? <==> Truthy(endYear))
      && (lo.Some? ==> ps[lo.value] == "as_ylo=" + IntToDecimal(startYear.value))
      && (hi.Some? ==> ps[hi.value] == "as_yhi=" + IntToDecimal(endYear.value))
      && (lo.Some? && hi.Some? ==> lo.value < hi.value)
  {
    LowerYearParameter(q, start, startYear, endYear, lang);
    UpperYearParameter(q, start, startYear, endYear, lang);
  }

  // ---------------------------------------------------------------------
  // parse_year_val
  // ---------------------------------------------------------------------

  const NoYear := 999999

  /** int(year_str) on an ASCII digit string; anything int() rejects gives 999999. */
  function ParseYearVal(s: string): (v: nat)
    ensures v == NoYear || (|s| > 0 && AllDigits(s) && v == DigitsValue(s))
    ensures |s| > 0 && AllDigits(s) ==> v == DigitsValue(s)
  {
    if |s| > 0 && AllDigits(s) then DigitsValue(s) else NoYear
  }

  /** Parsing the decimal rendering of a number gives the number back. */
  lemma ParseYearValRoundTrip(n: nat)
    ensures ParseYearVal(NatToDecimal(n)) == n
  {
  }

  /** The placeholder "N/A" parses to the sentinel. */
  lemma ParseYearValNotAvailable()
    ensures ParseYearVal("N/A") == NoYear
  {
    assert !IsDigit("N/A"[0]);
  }

  // ---------------------------------------------------------------------
  // The authors/year split of the .gs_a line
  // ---------------------------------------------------------------------

  /** An ASCII word character, as \b sees it under the ASCII restriction. */
  predicate IsWordChar(c: char) {
    ('a' <= c <= 'z') || ('A' <= c <= 'Z') || ('0' <= c <= '9') || c == '_'
  }

  /** `1[89]\d{2}|20\d{2}` matches the four characters at i. */
  predicate YearDigitsAt(s: string, i: nat) {
    && i + 4 <= |s|
    && IsDigit(s[i]) && IsDigit(s[i + 1]) && IsDigit(s[i + 2]) && IsDigit(s[i + 3])
    && ((s[i] == '1' && (s[i + 1] == '8' || s[i + 1] == '9')) || (s[i] == '2' && s[i + 1] == '0'))
  }

  /** The whole pattern, with both word boundaries, matches at i. */
  predicate YearMatchAt(s: string, i: nat) {
    && YearDigitsAt(s, i)
    && (i == 0 || !IsWordChar(s[i - 1]))
    && (i + 4 == |s| || !IsWordChar(s[i + 4]))
  }

  /** re.search: the leftmost position at or after `start` where the pattern matches. */
  function SearchYear(s: string, start: nat): (r: Option<nat>)
    requires start <= |s|
    ensures r.Some? ==> start <= r.value && YearMatchAt(s, r.value)
    ensures r.Some? ==> forall j :: start <= j < r.value ==> !YearMatchAt(s, j)
    ensures r.None? ==> forall j :: start <= j <= |s| ==> !YearMatchAt(s, j)
    decreases |s| - start
  {
    if start + 4 > |s| then None
    else if YearMatchAt(s, start) then Some(start)
    else SearchYear(s, start + 1)
  }

  /** A four-digit string's value, digit by digit. */
  lemma FourDigitsValue(y: string)
    requires |y| == 4 && AllDigits(y)
    ensures DigitsValue(y) ==
      1000 * DigitValue(y[0]) + 100 * DigitValue(y[1]) + 10 * DigitValue(y[2]) + DigitValue(y[3])
  {
    var y1, y2, y3 := y[..1], y[..2], y[..3];
    assert y1[..0] == [] && y2[..1] == y1 && y3[..2] == y2 && y[..3] == y3;
    assert DigitsValue(y1) == DigitValue(y[0]);
    assert DigitsValue(y2) == DigitsValue(y1) * 10 + DigitValue(y[1]);
    assert DigitsValue(y3) == DigitsValue(y2) * 10 + DigitValue(y[2]);
  }

  /** A matched year: four digits whose value lies in 1800..2099. */
  predicate IsScholarYear(y: string) {
    |y| == 4 && AllDigits(y) && 1800 <= DigitsValue(y) <= 2099
  }

  /** match.group(0) if match else "N/A". */
  function YearIn(rest: string): (y: string)
    ensures y == "N/A" || IsScholarYear(y)
    ensures y != "N/A" ==> exists i: nat :: YearMatchAt(rest, i) && rest[i..i + 4] == y
    ensures y == "N/A" <==> forall i :: 0 <= i <= |rest| ==> !YearMatchAt(rest, i)
  {
    var m := SearchYear(rest, 0);
    if m.None? then "N/A"
    else
      var y := rest[m.value..m.value + 4];
      FourDigitsValue(y);
      assert y != "N/A" by {
        assert IsDigit(y[0]);
      }
      y
  }

  /** re.search reports the leftmost match: with the first whole-word year at i, the year is the four characters there. */
  lemma YearInLeftmost(rest: string, i: nat)
    requires YearMatchAt(rest, i)
    requires forall j :: 0 <= j < i ==> !YearMatchAt(rest, j)
    ensures YearIn(rest) == rest[i..i + 4]
  {
    var m := SearchYear(rest, 0);
    assert m.Some?;
    assert m.value == i;
  }

  /** A year found in a suffix of s occurs in s at or after where the suffix starts. */
  lemma YearInSuffix(s: string, a: nat)
    requires a <= |s|
    ensures var y := YearIn(s[a..]);
      y != "N/A" ==> exists j :: a <= j && OccursAt(s, y, j)
  {
    var y := YearIn(s[a..]);
    if y != "N/A" {
      var k: nat :| YearMatchAt(s[a..], k) && s[a..][k..k + 4] == y;
      assert s[a + k..a + k + 4] == y;
      assert OccursAt(s, y, a + k);
    }
  }

  const Separator := " - "

  /** The authors and the year that lines 57-62 extract from a `.gs_a` text. */
  datatype AuthorsYear = AuthorsYear(authors: string, year: string)

  /**
   * authors_raw.split(" - ", 1): the authors are the stripped text before the
   * first separator; the year is searched in the text after it, or in "" when
   * there is no separator.
   */
  function SplitAuthorsLine(text: string): (r: AuthorsYear)
    ensures r.year == "N/A" || IsScholarYear(r.year)
  {
    var raw := Strip(text);
    match Find(raw, Separator, 0)
    case None => AuthorsYear(Strip(raw), YearIn(""))
    case Some(i) => AuthorsYear(Strip(raw[..i]), YearIn(raw[i + |Separator|..]))
  }

  /** Without a separator, the authors are the whole stripped line and there is no year. */
  lemma SplitAuthorsWithoutSeparator(text: string)
    requires Find(Strip(text), Separator, 0).None?
    ensures SplitAuthorsLine(text) == AuthorsYear(Strip(text), "N/A")
    ensures !Contains(Strip(text), Separator)
  {
    var raw := Strip(text);
    StripWithout(raw, Separator);
    StripIdempotent(text);
    assert YearIn("") == "N/A";
  }

  /**
   * With the first separator at i, the authors are the stripped text before
   * it, free of the separator, and a year found occurs after the separator.
   */
  lemma SplitAuthorsAtSeparator(text: string, i: nat)
    requires i <= |Strip(text)| && Find(Strip(text), Separator, 0) == Some(i)
    ensures var r := SplitAuthorsLine(text);
      && r.authors == Strip(Strip(text)[..i])
      && !Contains(r.authors, Separator)
      && (r.year != "N/A" ==> exists j :: i + |Separator| <= j && OccursAt(Strip(text), r.year, j))
  {
    var raw := Strip(text);
    SplitAuthorsLineAt(text, i);
    AuthorsBeforeFirst(raw, i);
    YearInSuffix(raw, i + |Separator|);
  }

  lemma SplitAuthorsLineAt(text: string, i: nat)
    requires i <= |Strip(text)| && Find(Strip(text), Separator, 0) == Some(i)
    ensures var raw := Strip(text);
      SplitAuthorsLine(text) == AuthorsYear(Strip(raw[..i]), YearIn(raw[i + |Separator|..]))
  {
  }

  /** The stripped text before the first separator does not contain it. */
  lemma AuthorsBeforeFirst(raw: string, i: nat)
    requires i <= |raw| && Find(raw, Separator, 0) == Some(i)
    ensures !Contains(Strip(raw[..i]), Separator)
  {
    BeforeFirstWithout(raw, Separator, i);
    StripWithout(raw[..i], Separator);
  }

  /** The authors extracted from any line contain no separator. */
  lemma AuthorsWithoutSeparator(text: string)
    ensures !Contains(SplitAuthorsLine(text).authors, Separator)
  {
    match Find(Strip(text), Separator, 0)
    case None => SplitAuthorsWithoutSeparator(text);
    case Some(i) => SplitAuthorsAtSeparator(text, i);
  }

  // ---------------------------------------------------------------------
  // parse_scholar_results
  // ---------------------------------------------------------------------

  /** The `.gs_rt` element of a block: its text, and the href of its <a> when it has one. */
  datatype TitleElem = TitleElem(text: string, link: Option<string>)

  /** One result block: its title element and the text of its `.gs_a` line, each possibly missing. */
  datatype ResultBlock = ResultBlock(title: Option<TitleElem>, authorsText: Option<string>)

  /** One record of papers_data. */
  datatype Paper = Paper(url: string, paperName: string, authors: string, year: string)

  /**
   * The record built from block b when `title_elem` is bound to titleElem at
   * the link lookup (None: the name is unbound, which the bare except also
   * turns into "No direct link found").
   */
  function ParseBlock(b: ResultBlock, titleElem: Option<TitleElem>): Paper
  {
    var name := if b.title.Some? then Strip(b.title.value.text) else "No title found";
    var url := if titleElem.Some? && titleElem.value.link.Some? then titleElem.value.link.value
               else "No direct link found";
    var ay := if b.authorsText.Some? then SplitAuthorsLine(b.authorsText.value)
              else AuthorsYear("No authors found", "N/A");
    Paper(url, name, ay.authors, ay.year)
  }

  /**
   * What a record holds: the stripped title or "No title found", the link of
   * the bound title element or "No direct link found", authors free of
   * " - ", and "N/A" or a year in 1800..2099.
   */
  lemma ParseBlockFields(b: ResultBlock, titleElem: Option<TitleElem>)
    ensures var p := ParseBlock(b, titleElem);
      && p.paperName == (if b.title.Some? then Strip(b.title.value.text) else "No title found")
      && p.url == (if titleElem.Some? && titleElem.value.link.Some? then titleElem.value.link.value
                   else "No direct link found")
      && (p.year == "N/A" || IsScholarYear(p.year))
      && (b.authorsText.None? ==> p.authors == "No authors found" && p.year == "N/A")
      && (b.authorsText.Some? ==> !Contains(p.authors, Separator))
  {
    if b.authorsText.Some? {
      AuthorsWithoutSeparator(b.authorsText.value);
    }
  }

  /** The link of a block's own title element, or the placeholder. */
  function OwnLink(b: ResultBlock): string {
    if b.title.Some? && b.title.value.link.Some? then b.title.value.link.value else "No direct link found"
  }

  /** The records of a page, each block read with its own title element. */
  function Parsed(blocks: seq<ResultBlock>): (ps: seq<Paper>)
    ensures |ps| == |blocks|
    ensures forall i :: 0 <= i < |blocks| ==> ps[i].url == OwnLink(blocks[i])
  {
    seq(|blocks|, i requires 0 <= i < |blocks| => ParseBlock(blocks[i], blocks[i].title))
  }

  /**
   * parse_scholar_results with the link taken from the block's own title:
   * one record per block, in page order, whose url is that block's link.
   */
  method ParseScholarResults(blocks: seq<ResultBlock>) returns (papers: seq<Paper>)
    ensures papers == Parsed(blocks)
    ensures forall i :: 0 <= i < |blocks| ==> papers[i].url == OwnLink(blocks[i])
  {
    papers := [];
    for i := 0 to |blocks|
      invariant papers == Parsed(blocks[..i])
    {
      var block := blocks[i];
      papers := papers + [ParseBlock(block, block.title)];
      assert blocks[..i + 1] == blocks[..i] + [block];
    }
    assert blocks[..|blocks|] == blocks;
  }

  /** The title element last bound by a block of bs (the loop variable outlives its block). */
  function LastTitle(bs: seq<ResultBlock>): Option<TitleElem>
  {
    if bs == [] then None
    else if bs[|bs| - 1].title.Some? then bs[|bs| - 1].title
    else LastTitle(bs[..|bs| - 1])
  }

  lemma LastTitleStep(blocks: seq<ResultBlock>, i: nat)
    requires i < |blocks|
    ensures LastTitle(blocks[..i + 1]) ==
      if blocks[i].title.Some? then blocks[i].title else LastTitle(blocks[..i])
  {
    assert blocks[..i + 1][..i] == blocks[..i];
    assert blocks[..i + 1][i] == blocks[i];
  }

  /**
   * The title last bound is that of the latest titled block, and there is
   * none exactly when no block has a title.
   */
  lemma {:induction false} LastTitleMeaning(bs: seq<ResultBlock>)
    ensures LastTitle(bs).None? <==> forall j :: 0 <= j < |bs| ==> bs[j].title.None?
    ensures LastTitle(bs).Some? ==>
      exists j :: 0 <= j < |bs| && bs[j].title == LastTitle(bs) && forall t :: j < t < |bs| ==> bs[t].title.None?
    decreases |bs|
  {
    if bs != [] {
      var n := |bs| - 1;
      if bs[n].title.None? {
        LastTitleMeaning(bs[..n]);
        forall j | 0 <= j < n
          ensures bs[..n][j] == bs[j]
        {
        }
      }
    }
  }

  /** The records the code as written builds: block i read with the last title bound up to block i. */
  function ParsedAsWritten(blocks: seq<ResultBlock>): (ps: seq<Paper>)
    ensures |ps| == |blocks|
  {
    if blocks == [] then []
    else
      var n := |blocks| - 1;
      ParsedAsWritten(blocks[..n]) + [ParseBlock(blocks[n], LastTitle(blocks))]
  }

  /** Record i of the code as written reads block i with the title last bound up to it. */
  lemma {:induction false} AsWrittenAt(blocks: seq<ResultBlock>, i: nat)
    requires i < |blocks|
    ensures ParsedAsWritten(blocks)[i] == ParseBlock(blocks[i], LastTitle(blocks[..i + 1]))
    decreases |blocks|
  {
    var n := |blocks| - 1;
    var prev := ParsedAsWritten(blocks[..n]);
    assert ParsedAsWritten(blocks) == prev + [ParseBlock(blocks[n], LastTitle(blocks))];
    if i == n {
      assert blocks[..i + 1] == blocks;
    } else {
      assert ParsedAsWritten(blocks)[i] == prev[i];
      AsWrittenAt(blocks[..n], i);
      assert blocks[..n][i] == blocks[i];
      assert blocks[..n][..i + 1] == blocks[..i + 1];
    }
  }

  /** On every block that has a title, the code as written and the corrected parse agree. */
  lemma {:induction false} AsWrittenAgreesOnTitledBlocks(blocks: seq<ResultBlock>, i: nat)
    requires i < |blocks| && blocks[i].title.Some?
    ensures ParsedAsWritten(blocks)[i] == Parsed(blocks)[i]
  {
    LastTitleStep(blocks, i);
    AsWrittenAt(blocks, i);
  }

  /** On a block without a title, the code as written reuses the title bound by the blocks before it. */
  lemma AsWrittenOnUntitledBlocks(blocks: seq<ResultBlock>, i: nat)
    requires i < |blocks| && blocks[i].title.None?
    ensures ParsedAsWritten(blocks)[i] == ParseBlock(blocks[i], LastTitle(blocks[..i]))
  {
    LastTitleStep(blocks, i);
    AsWrittenAt(blocks, i);
  }

  /** Reading block i with the last title bound up to it extends the records of the blocks before it. */
  lemma AsWrittenNext(blocks: seq<ResultBlock>, i: nat, papers: seq<Paper>, titleElem: Option<TitleElem>)
    requires i < |blocks|
    requires papers == ParsedAsWritten(blocks[..i])
    requires titleElem == LastTitle(blocks[..i + 1])
    ensures papers + [ParseBlock(blocks[i], titleElem)] == ParsedAsWritten(blocks[..i + 1])
  {
    assert blocks[..i + 1][..i] == blocks[..i];
  }

  /**
   * parse_scholar_results as written: `title_elem` keeps the element of the
   * last block that had a title, so a block without one takes its link
   * from an earlier block.
   */
  method ParseScholarResultsAsWritten(blocks: seq<ResultBlock>) returns (papers: seq<Paper>)
    ensures papers == ParsedAsWritten(blocks)
  {
    papers := [];
    var titleElem: Option<TitleElem> := None;
    for i := 0 to |blocks|
      invariant titleElem == LastTitle(blocks[..i])
      invariant papers == ParsedAsWritten(blocks[..i])
    {
      var block := blocks[i];
      if block.title.Some? {
        titleElem := block.title;
      }
      LastTitleStep(blocks, i);
      AsWrittenNext(blocks, i, papers, titleElem);
      papers := papers + [ParseBlock(block, titleElem)];
    }
    assert blocks[..|blocks|] == blocks;
  }

  /**
   * A page whose second block has no title: as written its record carries
   * the first paper's link; corrected it carries the placeholder.
   */
  lemma StaleTitleLink()
    ensures var blocks := [ResultBlock(Some(TitleElem("A", Some("https://a.example"))), None),
                           ResultBlock(None, None)];
      && ParsedAsWritten(blocks)[1].url == "https://a.example"
      && Parsed(blocks)[1].url == "No direct link found"
  {
    var blocks := [ResultBlock(Some(TitleElem("A", Some("https://a.example"))), None),
                   ResultBlock(None, None)];
    assert blocks[..1] == [blocks[0]];
    assert LastTitle(blocks[..1]) == blocks[0].title;
    AsWrittenOnUntitledBlocks(blocks, 1);
  }

  // ---------------------------------------------------------------------
  // sorted(all_results, key=lambda item: parse_year_val(item["year"]))
  // ---------------------------------------------------------------------

  /** The sort key of a record. */
  function YearVal(p: Paper): int {
    ParseYearVal(p.year)
  }

  /** The sorted output of a scrape. */
  function SortByYear(s: seq<Paper>): seq<Paper>
  {
    SortBy(s, YearVal)
  }

  /** A matched year is far below the sentinel. */
  lemma YearValBelowSentinel(p: Paper)
    requires p.year == "N/A" || IsScholarYear(p.year)
    ensures p.year == "N/A" <==> YearVal(p) == NoYear
    ensures p.year != "N/A" ==> 1800 <= YearVal(p) <= 2099
  {
    ParseYearValNotAvailable();
  }

  /** Records without a year sort after every record with one. */
  lemma YearlessSortLast(s: seq<Paper>)
    requires forall p :: p in s ==> p.year == "N/A" || IsScholarYear(p.year)
    ensures var r := SortByYear(s);
      forall i, j :: 0 <= i < j < |r| && r[i].year == "N/A" ==> r[j].year == "N/A"
  {
    var r := SortBy(s, YearVal);
    SortBySorted(s, YearVal);
    SortByPermutes(s, YearVal);
    forall k | 0 <= k < |r|
      ensures r[k].year == "N/A" <==> YearVal(r[k]) == NoYear
      ensures YearVal(r[k]) <= NoYear
    {
      assert r[k] in multiset(s);
      YearValBelowSentinel(r[k]);
    }
    forall i, j | 0 <= i < j < |r| && r[i].year == "N/A"
      ensures r[j].year == "N/A"
    {
      var key: Paper -> int := YearVal;
      assert key(r[i]) <= key(r[j]);
      assert key(r[i]) == YearVal(r[i]) == NoYear;
      assert key(r[j]) == YearVal(r[j]) <= NoYear;
    }
  }

  // ---------------------------------------------------------------------
  // scrape_google_scholar_100_pages
  // ---------------------------------------------------------------------

  const MaxPages := 100
  const PageSize := 10

  /** One search: quote, the page oracle (the result blocks the browser shows for a URL), and the arguments. */
  datatype Search = Search(quote: string -> string, fetch: string -> seq<ResultBlock>,
                           query: string, startYear: Option<int>, endYear: Option<int>)

  /** The URL of the k-th request (k >= 1): start = 10 * (k - 1), default language. */
  function PageUrl(c: Search, k: nat): string
    requires k >= 1
  {
    BuildScholarPageUrl(c.quote, c.query, PageSize * (k - 1), c.startYear, c.endYear, DefaultLang)
  }

  /** The records parsed from page k. */
  function PageResults(c: Search, k: nat): seq<Paper>
    requires k >= 1
  {
    Parsed(c.fetch(PageUrl(c, k)))
  }

  /** How many of pages 1..n come before the first page k where full(k) fails (n when none fails). */
  function Leading(full: nat -> bool, n: nat): (m: nat)
    ensures m <= n
  {
    if n == 0 then 0
    else
      var p := Leading(full, n - 1);
      if p < n - 1 then p
      else if !full(n) then n - 1
      else n
  }

  /** The pages counted all satisfy full, and the page after them, if any, does not. */
  lemma {:induction false} LeadingMeaning(full: nat -> bool, n: nat)
    ensures forall k :: 1 <= k <= Leading(full, n) ==> full(k)
    ensures Leading(full, n) < n ==> !full(Leading(full, n) + 1)
  {
    if n > 0 {
      LeadingMeaning(full, n - 1);
      var p := Leading(full, n - 1);
      if p == n - 1 && full(n) {
        forall k | 1 <= k <= n
          ensures full(k)
        {
          if k < n {
            assert k <= p;
          }
        }
      }
    }
  }

  /** After the first failing page, later pages no longer count. */
  lemma {:induction false} LeadingStable(full: nat -> bool, m: nat, n: nat)
    requires m <= n && Leading(full, m) < m
    ensures Leading(full, n) == Leading(full, m)
  {
    if n > m {
      LeadingStable(full, m, n - 1);
    }
  }

  /** Whether page k (k >= 1) has at least one result. */
  function HasResults(c: Search): nat -> bool {
    k => k >= 1 && |PageResults(c, k)| > 0
  }

  /** How many of the first n pages come before the first empty page (n when none is empty). */
  function FullPages(c: Search, n: nat): (m: nat)
    ensures m <= n
  {
    Leading(HasResults(c), n)
  }

  /** The pages counted are all non-empty, and the page after them, if any, is empty. */
  lemma FullPagesMeaning(c: Search, n: nat)
    ensures forall k :: 1 <= k <= FullPages(c, n) ==> |PageResults(c, k)| > 0
    ensures FullPages(c, n) < n ==> |PageResults(c, FullPages(c, n) + 1)| == 0
  {
    var full := HasResults(c);
    LeadingMeaning(full, n);
    forall k | 1 <= k <= FullPages(c, n)
      ensures |PageResults(c, k)| > 0
    {
      assert full(k);
    }
    if FullPages(c, n) < n {
      assert !full(FullPages(c, n) + 1);
    }
  }

  /** After the first empty page, later pages no longer count. */
  lemma FullPagesStable(c: Search, m: nat, n: nat)
    requires m <= n && FullPages(c, m) < m
    ensures FullPages(c, n) == FullPages(c, m)
  {
    LeadingStable(HasResults(c), m, n);
  }

  /** While every page so far was full, one more page counts exactly when it has results. */
  lemma FullPagesStep(c: Search, n: nat)
    requires FullPages(c, n) == n
    ensures FullPages(c, n + 1) == if |PageResults(c, n + 1)| > 0 then n + 1 else n
  {
  }

  /** The records of pages 1..n, in page order: what all_results.extend accumulates. */
  function Collected(c: Search, n: nat): seq<Paper>
  {
    if n == 0 then [] else Collected(c, n - 1) + PageResults(c, n)
  }

  /** f(0), ..., f(n - 1), built one element at a time. */
  function Tabulate<T>(f: nat -> T, n: nat): (r: seq<T>)
    ensures |r| == n
  {
    if n == 0 then [] else Tabulate(f, n - 1) + [f(n - 1)]
  }

  lemma {:induction false} TabulateAt<T>(f: nat -> T, n: nat, k: nat)
    requires k < n
    ensures Tabulate(f, n)[k] == f(k)
  {
    if k < n - 1 {
      TabulateAt(f, n - 1, k);
    }
  }

  /** The URLs of the first n requests. */
  function RequestedUrls(c: Search, n: nat): (urls: seq<string>)
    ensures |urls| == n
  {
    Tabulate(k => PageUrl(c, k + 1), n)
  }

  /** One more request appends the URL of the next page. */
  lemma RequestedUrlsStep(c: Search, n: nat)
    ensures RequestedUrls(c, n + 1) == RequestedUrls(c, n) + [PageUrl(c, n + 1)]
  {
  }

  /** The k-th request (from 0) is page k + 1. */
  lemma RequestedUrlsAt(c: Search, n: nat, k: nat)
    requires k < n
    ensures RequestedUrls(c, n)[k] == PageUrl(c, k + 1)
  {
    TabulateAt(k => PageUrl(c, k + 1), n, k);
  }

  /** The k-th request (from 0) is the page URL with start = 10 * k. */
  lemma RequestedStart(c: Search, n: nat, k: nat)
    requires k < n
    ensures RequestedUrls(c, n)[k] == BuildScholarPageUrl(c.quote, c.query, 10 * k, c.startYear, c.endYear, DefaultLang)
  {
    RequestedUrlsAt(c, n, k);
    assert PageSize * (k + 1 - 1) == 10 * k;
  }

  /** Requesting the URL built with start = 10 * n extends the requests made so far by page n + 1. */
  lemma RequestedNext(c: Search, n: nat, requested: seq<string>, url: string)
    requires requested == RequestedUrls(c, n)
    requires url == BuildScholarPageUrl(c.quote, c.query, PageSize * n, c.startYear, c.endYear, DefaultLang)
    ensures requested + [url] == RequestedUrls(c, n + 1)
  {
    PageUrlNext(c, n);
    RequestedUrlsStep(c, n);
  }

  /**
   * While pages 1..n all had results, page n + 1 counts exactly when its
   * records are not empty, and an empty page n + 1 fixes the count at n.
   */
  lemma FullPagesNext(c: Search, n: nat, url: string, results: seq<Paper>)
    requires n < MaxPages && FullPages(c, n) == n
    requires url == BuildScholarPageUrl(c.quote, c.query, PageSize * n, c.startYear, c.endYear, DefaultLang)
    requires results == Parsed(c.fetch(url))
    ensures |results| > 0 ==> FullPages(c, n + 1) == n + 1
    ensures |results| == 0 ==> FullPages(c, MaxPages) == n
  {
    PageUrlNext(c, n);
    FullPagesStep(c, n);
    if |results| == 0 {
      FullPagesStable(c, n + 1, MaxPages);
    }
  }

  /** The records parsed from the URL with start = 10 * n extend the collection by page n + 1. */
  lemma CollectedNext(c: Search, n: nat, collected: seq<Paper>, url: string, results: seq<Paper>)
    requires collected == Collected(c, n)
    requires url == BuildScholarPageUrl(c.quote, c.query, PageSize * n, c.startYear, c.endYear, DefaultLang)
    requires results == Parsed(c.fetch(url))
    ensures collected + results == Collected(c, n + 1)
  {
    PageUrlNext(c, n);
    CollectedStep(c, n);
    assert results == PageResults(c, n + 1);
  }

  /** The URL built with start = 10 * n is the URL of page n + 1. */
  lemma PageUrlNext(c: Search, n: nat)
    ensures PageUrl(c, n + 1) == BuildScholarPageUrl(c.quote, c.query, PageSize * n, c.startYear, c.endYear, DefaultLang)
  {
    assert n + 1 - 1 == n;
  }

  /** Collecting one more page appends its records. */
  lemma CollectedStep(c: Search, n: nat)
    ensures Collected(c, n + 1) == Collected(c, n) + PageResults(c, n + 1)
  {
  }

  /**
   * scrape_google_scholar_100_pages: request pages with start 0, 10, 20, ...
   * until a page has no results or 100 pages have been read; `requested`
   * lists the URLs requested, `sortedResults` the collected records sorted
   * by year.
   */
  method ScrapeGoogleScholar100Pages(quote: string -> string, fetch: string -> seq<ResultBlock>,
                                     query: string, startYear: Option<int>, endYear: Option<int>)
    returns (sortedResults: seq<Paper>, requested: seq<string>)
    ensures var c := Search(quote, fetch, query, startYear, endYear);
      var n := FullPages(c, MaxPages);
      && (n < MaxPages ==> requested == RequestedUrls(c, n + 1))
      && (n == MaxPages ==> requested == RequestedUrls(c, MaxPages))
      && sortedResults == SortByYear(Collected(c, n))
  {
    ghost var c := Search(quote, fetch, query, startYear, endYear);
    var allResults: seq<Paper> := [];
    var pageCount := 0;
    var start := 0;
    requested := [];
    while true
      invariant pageCount <= MaxPages
      invariant start == PageSize * pageCount
      invariant requested == RequestedUrls(c, pageCount)
      invariant FullPages(c, pageCount) == pageCount
      invariant allResults == Collected(c, pageCount)
      decreases MaxPages - pageCount
    {
      ghost var done := pageCount;
      pageCount := pageCount + 1;
      if pageCount > MaxPages {
        break;
      }
      var pageUrl := BuildScholarPageUrl(quote, query, start, startYear, endYear, DefaultLang);
      RequestedNext(c, done, requested, pageUrl);
      requested := requested + [pageUrl];
      var resultsOnPage := ParseScholarResults(fetch(pageUrl));
      FullPagesNext(c, done, pageUrl, resultsOnPage);
      CollectedNext(c, done, allResults, pageUrl, resultsOnPage);
      if |resultsOnPage| == 0 {
        break;
      }
      allResults := allResults + resultsOnPage;
      start := start + PageSize;
    }
    sortedResults := SortByYear(allResults);
  }

  /** Every collected record has "N/A" or a year in 1800..2099. */
  lemma {:induction false} CollectedYears(c: Search, n: nat)
    ensures forall p :: p in Collected(c, n) ==> p.year == "N/A" || IsScholarYear(p.year)
  {
    if n > 0 {
      CollectedYears(c, n - 1);
      var page := c.fetch(PageUrl(c, n));
      forall i | 0 <= i < |page|
        ensures PageResults(c, n)[i].year == "N/A" || IsScholarYear(PageResults(c, n)[i].year)
      {
        ParseBlockFields(page[i], page[i].title);
      }
    }
  }
}
