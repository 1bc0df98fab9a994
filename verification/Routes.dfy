/**
 The hash routes of the public catalogue: printing and parsing, for hashes in the alphabet the
 printers use. Lengths count UTF-16 code units, as the script's `slice` does.
 */
module Routes {
  import opened Basics
  import opened Numerals
  import opened Splitting
  import opened Utf8Coding
  import opened UrlCoding

  const MAX_PAGE: nat := 10_000

  const MAX_SAFE_INTEGER: nat := 0x1F_FFFF_FFFF_FFFF

  const MAX_LENGTH: nat := 200

  const FILTER_KEYS: seq<string> := [
    "game_mode", "year_min", "year_max", "rating_min", "rating_max", "genre", "developer", "publisher",
    "region", "language", "tag", "size_min", "size_max", "sort", "order"]

  type Filters = map<string, string>

  datatype Route =
    | Platforms
    | Search(query: string, page: nat, filters: Filters)
    | Platform(id: nat, slug: string, query: string, page: nat, filters: Filters)
    | Game(id: nat)
    | NotFound

  // ---------- texts ----------

  /** White space and line ends as the script's `trim` knows them. */
  predicate White(c: char) {
    var n := c as int;
    9 <= n <= 13 || n == 0x20 || n == 0xA0 || n == 0x1680 || 0x2000 <= n <= 0x200A || n == 0x2028 || n == 0x2029 ||
    n == 0x202F || n == 0x205F || n == 0x3000 || n == 0xFEFF
  }

  function TrimStart(s: string): string
    decreases |s|
  {
    if s != [] && White(s[0]) then TrimStart(s[1..]) else s
  }

  function TrimEnd(s: string): string
    decreases |s|
  {
    if s != [] && White(s[|s| - 1]) then TrimEnd(s[..|s| - 1]) else s
  }

  function Trim(s: string): string {
    TrimEnd(TrimStart(s))
  }

  function Units(c: char): nat {
    if c as int < 0x1_0000 then 1 else 2
  }

  function Length(s: string): nat
    decreases |s|
  {
    if s == [] then 0 else Units(s[0]) + Length(s[1..])
  }

  /** The longest prefix of at most `limit` code units; a pair is never cut in two here. */
  function Clip(s: string, limit: nat): string
    decreases |s|
  {
    if s == [] || Units(s[0]) > limit then [] else [s[0]] + Clip(s[1..], limit - Units(s[0]))
  }

  function Clean(s: string): string {
    Clip(Trim(s), MAX_LENGTH)
  }

  lemma {:induction false} ClipIsIdentity(s: string, limit: nat)
    requires Length(s) <= limit
    ensures Clip(s, limit) == s
    decreases |s|
  {
    if s != [] {
      ClipIsIdentity(s[1..], limit - Units(s[0]));
    }
  }

  /** A text that cleaning leaves alone. */
  predicate IsClean(s: string) {
    (s != [] ==> !White(s[0]) && !White(s[|s| - 1])) && Length(s) <= MAX_LENGTH
  }

  lemma CleanIsKept(s: string)
    requires IsClean(s)
    ensures Trim(s) == s && Clean(s) == s
  {
    ClipIsIdentity(s, MAX_LENGTH);
  }

  // ---------- numbers ----------

  function DigitPrefix(s: string): (d: string)
    ensures forall c :: c in d ==> IsDigit(c)
    decreases |s|
  {
    if s != [] && IsDigit(s[0]) then [s[0]] + DigitPrefix(s[1..]) else []
  }

  /** The page number in a query; anything that is no positive safe integer is page 1. */
  function ParsePage(text: Option<string>): nat {
    if text.None? then 1
    else
      var s := TrimStart(text.value);
      var digits := DigitPrefix(if s != [] && s[0] == '+' then s[1..] else s);
      var n := Value(digits);
      if 0 < n <= MAX_SAFE_INTEGER then (if n < MAX_PAGE then n else MAX_PAGE) else 1
  }

  function ParsePositiveInteger(s: string): Option<nat> {
    if AllDigits(s) && 0 < Value(s) <= MAX_SAFE_INTEGER then Some(Value(s)) else None
  }

  lemma {:induction false} DigitPrefixOfDigits(s: string)
    requires forall c :: c in s ==> IsDigit(c)
    ensures DigitPrefix(s) == s
    decreases |s|
  {
    if s != [] {
      assert s[0] in s && forall c :: c in s[1..] ==> c in s;
      DigitPrefixOfDigits(s[1..]);
    }
  }

  lemma PageRoundTrip(page: nat)
    requires 1 <= page <= MAX_PAGE
    ensures ParsePage(Some(Digits(page))) == page
  {
    DigitsRoundTrip(page);
    var s := Digits(page);
    assert s[0] in s && TrimStart(s) == s;
    DigitPrefixOfDigits(s);
  }

  // ---------- filters ----------

  /** The filters that count: known keys with a non-empty cleaned value. */
  function CatalogFilters(values: Filters): Filters {
    Cleaned(values, FILTER_KEYS)
  }

  function Cleaned(values: Filters, keys: seq<string>): Filters {
    map key | key in values && key in keys && Clean(values[key]) != [] :: Clean(values[key])
  }

  /** The filters as parameters, in the fixed order of the keys. */
  function FilterParams(filters: Filters, keys: seq<string>): Params
    decreases |keys|
  {
    if keys == [] then []
    else if keys[0] in filters then [(keys[0], filters[keys[0]])] + FilterParams(filters, keys[1..])
    else FilterParams(filters, keys[1..])
  }

  function RouteParams(query: string, page: nat, filters: Filters): Params {
    (if Trim(query) == [] then [] else [("q", Trim(query))]) +
    FilterParams(CatalogFilters(filters), FILTER_KEYS) +
    (if page > 1 then [("page", Digits(page))] else [])
  }

  function First(params: Params, key: string): Option<string>
    decreases |params|
  {
    if params == [] then None
    else if params[0].0 == key then Some(params[0].1)
    else First(params[1..], key)
  }

  /** All parameters as a record; a later one replaces an earlier one with its key. */
  function Record(params: Params): Filters
    decreases |params|
  {
    if params == [] then map[] else map[params[0].0 := params[0].1] + Record(params[1..])
  }

  function WithShorthands(values: Filters): Filters {
    var years := if "year" in values && values["year"] != []
                 then values["year_min" := values["year"]]["year_max" := values["year"]] else values;
    if "rating" in years && years["rating"] != []
    then years["rating_min" := years["rating"]]["rating_max" := years["rating"]] else years
  }

  // ---------- printing and parsing ----------

  function Suffix(params: Params): string {
    if params == [] then "" else "?" + PrintParams(params)
  }

  function PageOf(page: int): nat {
    if 0 < page <= MAX_SAFE_INTEGER then (if page < MAX_PAGE then page else MAX_PAGE) else 1
  }

  function PlatformHash(id: nat, slug: string, query: string, page: int, filters: Filters): string {
    "#/platform/" + Encode(Digits(id), false) + "/" + Encode(slug, false) +
    Suffix(RouteParams(query, PageOf(page), filters))
  }

  function SearchHash(query: string, page: int, filters: Filters): string {
    "#/search" + Suffix(RouteParams(query, PageOf(page), filters))
  }

  function GameHash(id: nat): string {
    "#/game/" + Encode(Digits(id), false)
  }

  predicate DotSegment(s: string) {
    s in [".", "%2e", "%2E"]
  }

  predicate DoubleDotSegment(s: string) {
    |s| <= 6 && (s == ".." || s in [".%2e", ".%2E", "%2e.", "%2E.", "%2e%2e", "%2e%2E", "%2E%2e", "%2E%2E"])
  }

  /** The URL standard's path: dot segments go, double dots also take the segment before them. */
  function Resolve(segments: seq<string>, done: seq<string>): seq<string>
    decreases |segments|
  {
    if segments == [] then done
    else if DotSegment(segments[0]) then Resolve(segments[1..], done)
    else if DoubleDotSegment(segments[0]) then
      Resolve(segments[1..], if done == [] then [] else done[..|done| - 1])
    else Resolve(segments[1..], done + [segments[0]])
  }

  function NonEmpty(parts: seq<string>): seq<string>
    decreases |parts|
  {
    if parts == [] then [] else (if parts[0] == [] then [] else [parts[0]]) + NonEmpty(parts[1..])
  }

  function DecodeAll(parts: seq<string>): Option<seq<string>>
    decreases |parts|
  {
    if parts == [] then Some([])
    else
      match (Decode(parts[0], false), DecodeAll(parts[1..]))
      case (Some(part), Some(rest)) => Some([part] + rest)
      case _ => None
  }

  /** Cut at the first `?`. */
  function CutQuery(s: string): (string, string)
    decreases |s|
  {
    if s == [] then ([], [])
    else if s[0] == '?' then ([], s[1..])
    else
      var (path, query) := CutQuery(s[1..]);
      ([s[0]] + path, query)
  }

  function Raw(hash: string): string {
    var raw := if hash != [] && hash[0] == '#' then hash[1..] else hash;
    if raw == [] then "/" else if raw[0] == '/' then raw else "/" + raw
  }

  function ParseParts(parts: seq<string>, params: Params): Route {
    var page := ParsePage(First(params, "page"));
    var query := Clean(match First(params, "q") case None => [] case Some(q) => q);
    var filters := CatalogFilters(WithShorthands(Record(params)));
    if parts == [] then Platforms
    else if parts[0] == "search" && |parts| == 1 then Search(query, page, filters)
    else if parts[0] == "platform" && |parts| >= 2 && ParsePositiveInteger(parts[1]).Some? then
      Platform(ParsePositiveInteger(parts[1]).value, if |parts| > 2 then parts[2] else [], query, page, filters)
    else if parts[0] == "game" && |parts| == 2 && ParsePositiveInteger(parts[1]).Some? then
      Game(ParsePositiveInteger(parts[1]).value)
    else NotFound
  }

  function ParseRoute(hash: string): Route {
    var (path, query) := CutQuery(Raw(hash));
    match (DecodeAll(NonEmpty(Resolve(SplitOn(path, '/'), []))), ParseParams(query))
    case (Some(parts), Some(params)) => ParseParts(parts, params)
    case _ => NotFound
  }

  // ---------- round trips ----------

  lemma {:induction false} CutAtQuery(path: string, query: string)
    requires '?' !in path
    ensures CutQuery(path + "?" + query) == (path, query) && CutQuery(path) == (path, [])
    decreases |path|
  {
    var s := path + "?" + query;
    if path == [] {
      assert s[1..] == query;
    } else {
      assert path[0] in path && forall c :: c in path[1..] ==> c in path;
      assert s[1..] == path[1..] + "?" + query;
      CutAtQuery(path[1..], query);
      assert path == [path[0]] + path[1..];
    }
  }

  lemma NothingToPrint(path: string)
    ensures path + Suffix([]) == path
  {
  }

  lemma PrintedAfterMark(path: string, params: Params)
    requires params != []
    ensures path + Suffix(params) == path + "?" + PrintParams(params)
  {
    Regroup(path, "?", PrintParams(params));
  }

  lemma CutPrinted(path: string, params: Params)
    requires '?' !in path
    ensures CutQuery(path + Suffix(params)) == (path, PrintParams(params))
    ensures ParseParams(PrintParams(params)) == Some(params)
  {
    CutAtQuery(path, PrintParams(params));
    ParamsRoundTrip(params);
    if params == [] {
      NothingToPrint(path);
    } else {
      PrintedAfterMark(path, params);
    }
  }

  ghost predicate GoodFilters(filters: Filters, keys: seq<string>) {
    forall key :: key in filters ==> key in keys && filters[key] != [] && IsClean(filters[key])
  }

  lemma GoodFiltersAreKept(filters: Filters, keys: seq<string>)
    requires GoodFilters(filters, keys)
    ensures Cleaned(filters, keys) == filters
  {
    forall key | key in filters ensures Clean(filters[key]) == filters[key] {
      CleanIsKept(filters[key]);
    }
  }

  lemma {:induction false} FilterParamsRecord(filters: Filters, keys: seq<string>)
    ensures var r := Record(FilterParams(filters, keys));
      && (forall key :: key in r <==> key in filters && key in keys)
      && (forall key :: key in r ==> r[key] == filters[key])
    decreases |keys|
  {
    if keys != [] {
      FilterParamsRecord(filters, keys[1..]);
      assert keys == [keys[0]] + keys[1..];
    }
  }

  lemma MergeAgain(a: Filters, b: Filters, c: Filters)
    ensures (a + b) + c == a + (b + c)
  {
  }

  lemma {:induction false} RecordAppends(a: Params, b: Params)
    ensures Record(a + b) == Record(a) + Record(b)
    decreases |a|
  {
    if a == [] {
      assert a + b == b;
      assert Record(a) + Record(b) == Record(b);
    } else {
      assert (a + b)[1..] == a[1..] + b;
      RecordAppends(a[1..], b);
      MergeAgain(map[a[0].0 := a[0].1], Record(a[1..]), Record(b));
    }
  }

  lemma {:induction false} FirstAppends(a: Params, b: Params, key: string)
    ensures First(a + b, key) == if First(a, key).Some? then First(a, key) else First(b, key)
    decreases |a|
  {
    if a == [] {
      assert a + b == b;
    } else {
      assert (a + b)[1..] == a[1..] + b;
      FirstAppends(a[1..], b, key);
    }
  }

  lemma {:induction false} NotAFilter(filters: Filters, keys: seq<string>, key: string)
    requires key !in keys
    ensures First(FilterParams(filters, keys), key) == None
    decreases |keys|
  {
    if keys != [] {
      assert keys[0] in keys && forall k :: k in keys[1..] ==> k in keys;
      NotAFilter(filters, keys[1..], key);
    }
  }

  function QueryParams(query: string): Params {
    if query == [] then [] else [("q", query)]
  }

  function PageParams(page: nat): Params {
    if page > 1 then [("page", Digits(page))] else []
  }

  lemma RouteParamsAre(query: string, page: nat, filters: Filters)
    requires IsClean(query) && GoodFilters(filters, FILTER_KEYS)
    ensures RouteParams(query, page, filters) ==
            QueryParams(query) + FilterParams(filters, FILTER_KEYS) + PageParams(page)
  {
    CleanIsKept(query);
    GoodFiltersAreKept(filters, FILTER_KEYS);
  }

  lemma FirstOfThree(a: Params, b: Params, c: Params, key: string)
    requires First(b, key) == None
    ensures First(a + b + c, key) == if First(a, key).Some? then First(a, key) else First(c, key)
  {
    FirstAppends(a + b, c, key);
    FirstAppends(a, b, key);
  }

  /** Keys other than the two the printers add, and than the two shorthands the parser knows. */
  ghost predicate PlainKeys(keys: seq<string>) {
    "q" !in keys && "page" !in keys && "year" !in keys && "rating" !in keys
  }

  lemma QueryRoundTrip(query: string, page: nat, f: Params)
    requires IsClean(query) && First(f, "q") == None
    ensures var q := First(QueryParams(query) + f + PageParams(page), "q");
      Clean(match q case None => [] case Some(q) => q) == query
  {
    CleanIsKept(query);
    FirstOfThree(QueryParams(query), f, PageParams(page), "q");
    if page > 1 {
      assert PageParams(page)[1..] == [];
    }
  }

  lemma PageParamRoundTrip(query: string, page: nat, f: Params)
    requires 1 <= page <= MAX_PAGE && First(f, "page") == None
    ensures ParsePage(First(QueryParams(query) + f + PageParams(page), "page")) == page
  {
    PageRoundTrip(page);
    FirstOfThree(QueryParams(query), f, PageParams(page), "page");
    if query != [] {
      assert QueryParams(query)[1..] == [];
    }
  }

  lemma RecordOfOne(key: string, value: string)
    ensures Record([(key, value)]) == map[key := value]
  {
    assert [(key, value)][1..] == [];
  }

  lemma RecordOfThree(query: string, page: nat, filters: Filters, keys: seq<string>)
    requires GoodFilters(filters, keys) && PlainKeys(keys)
    ensures var r := Record(QueryParams(query) + FilterParams(filters, keys) + PageParams(page));
      && (forall key :: key in keys ==> (key in r <==> key in filters))
      && (forall key :: key in filters ==> key in r && r[key] == filters[key])
      && "year" !in r && "rating" !in r
  {
    var q, f, p := QueryParams(query), FilterParams(filters, keys), PageParams(page);
    RecordAppends(q + f, p);
    RecordAppends(q, f);
    FilterParamsRecord(filters, keys);
    RecordOfOne("q", query);
    RecordOfOne("page", Digits(page));
    assert Record(q).Keys <= {"q"} && Record(p).Keys <= {"page"};
  }

  lemma FiltersRoundTrip(values: Filters, filters: Filters, keys: seq<string>)
    requires GoodFilters(filters, keys) && "year" !in values && "rating" !in values
    requires forall key :: key in keys ==> (key in values <==> key in filters)
    requires forall key :: key in filters ==> key in values && values[key] == filters[key]
    ensures Cleaned(WithShorthands(values), keys) == filters
  {
    forall key | key in filters ensures Clean(values[key]) == filters[key] {
      CleanIsKept(filters[key]);
    }
  }

  lemma FilterKeysArePlain()
    ensures PlainKeys(FILTER_KEYS)
  {
  }

  /** What the parser reads from the parameters. */
  ghost predicate Carries(params: Params, query: string, page: nat, filters: Filters) {
    ParsePage(First(params, "page")) == page &&
    Clean(match First(params, "q") case None => [] case Some(q) => q) == query &&
    CatalogFilters(WithShorthands(Record(params))) == filters
  }

  /** The printed parameters give query, page and filters back. */
  lemma RouteParamsRoundTrip(query: string, page: nat, filters: Filters)
    requires IsClean(query) && 1 <= page <= MAX_PAGE && GoodFilters(filters, FILTER_KEYS)
    ensures Carries(RouteParams(query, page, filters), query, page, filters)
  {
    FilterKeysArePlain();
    RouteParamsAre(query, page, filters);
    var f := FilterParams(filters, FILTER_KEYS);
    NotAFilter(filters, FILTER_KEYS, "page");
    NotAFilter(filters, FILTER_KEYS, "q");
    PageParamRoundTrip(query, page, f);
    QueryRoundTrip(query, page, f);
    RecordOfThree(query, page, filters, FILTER_KEYS);
    FiltersRoundTrip(Record(RouteParams(query, page, filters)), filters, FILTER_KEYS);
  }

  /** A dot is never escaped, so an escape at the front is not one of a dot. */
  lemma NoEscapedDot(s: string)
    requires Encode(s, false) != [] && Encode(s, false)[0] == '%'
    ensures |Encode(s, false)| >= 3
    ensures !(Encode(s, false)[1] == '2' && (Encode(s, false)[2] == 'e' || Encode(s, false)[2] == 'E'))
  {
    var b := Utf8(s[0])[0];
    assert EncodeChar(s[0], false) == PercentByte(b) + PercentBytes(Utf8(s[0])[1..]);
    HexRoundTrip(b / 16);
    HexRoundTrip(b % 16);
    assert ComponentKeeps('.');
  }

  ghost predicate EscapedDot(s: string) {
    |s| >= 3 && s[0] == '%' && s[1] == '2' && (s[2] == 'e' || s[2] == 'E')
  }

  /** What the dot segments of the URL standard start with. */
  lemma DotsLookLike(s: string)
    requires DotSegment(s) || DoubleDotSegment(s)
    ensures s == "." || s == ".." || EscapedDot(s) || (s[0] == '.' && EscapedDot(s[1..]))
  {
  }

  lemma EncodedIsNoDot(s: string)
    requires s != "." && s != ".."
    ensures !DotSegment(Encode(s, false)) && !DoubleDotSegment(Encode(s, false))
  {
    var e := Encode(s, false);
    if DotSegment(e) || DoubleDotSegment(e) {
      DotsLookLike(e);
      if EscapedDot(e) {
        NoEscapedDot(s);
      } else {
        StartsWithDot(s);
        DotThenNoDot(s[1..]);
      }
    }
  }

  lemma OnlyADotEncodesToADot(s: string)
    ensures Encode(s, false) == "." ==> s == "."
  {
    if Encode(s, false) == "." {
      StartsWithDot(s);
      EncodedIsSafe(s[1..], false);
      assert s == [s[0]] + s[1..];
    }
  }

  /** After a first dot nothing, a last dot or an escaped dot would have to follow. */
  lemma DotThenNoDot(rest: string)
    requires rest != "" && rest != "."
    ensures var e := Encode(rest, false); e != "" && e != "." && !EscapedDot(e)
  {
    EncodedIsSafe(rest, false);
    OnlyADotEncodesToADot(rest);
    if EscapedDot(Encode(rest, false)) {
      NoEscapedDot(rest);
    }
  }

  lemma StartsWithDot(s: string)
    requires Encode(s, false) != [] && Encode(s, false)[0] == '.'
    ensures s[0] == '.' && Encode(s, false)[1..] == Encode(s[1..], false)
  {
    assert Utf8(s[0]) == [Utf8(s[0])[0]] + Utf8(s[0])[1..];
  }

  /** A character the encoding never produces does not occur in encoded text. */
  lemma Lacks(part: string, sep: char)
    requires !EncodedChar(sep) && forall c :: c in part ==> EncodedChar(c)
    ensures sep !in part
  {
  }

  /** How a printed path comes apart again. */
  lemma PathSplits(parts: seq<string>)
    requires parts != [] && forall part :: part in parts ==> forall c :: c in part ==> EncodedChar(c)
    ensures SplitOn("/" + JoinWith(parts, '/'), '/') == [""] + parts
    ensures '?' !in "/" + JoinWith(parts, '/')
  {
    forall part | part in parts ensures '/' !in part {
      Lacks(part, '/');
    }
    SplitUndoesJoin(parts, '/');
    SplitAtFirst("", '/', JoinWith(parts, '/'));
    assert "" + ['/'] + JoinWith(parts, '/') == "/" + JoinWith(parts, '/');
    JoinedCharacters(parts);
    assert !EncodedChar('?');
  }

  lemma {:induction false} JoinedCharacters(parts: seq<string>)
    requires parts != [] && forall part :: part in parts ==> forall c :: c in part ==> EncodedChar(c)
    ensures forall c :: c in JoinWith(parts, '/') ==> EncodedChar(c) || c == '/'
    decreases |parts|
  {
    assert parts[0] in parts;
    if |parts| > 1 {
      assert forall part :: part in parts[1..] ==> part in parts;
      JoinedCharacters(parts[1..]);
    }
  }

  lemma PlainDecodes(s: string)
    requires forall c :: c in s ==> ComponentKeeps(c)
    ensures Encode(s, false) == s && Decode(s, false) == Some(s)
    decreases |s|
  {
    KeepsAll(s);
    CodingRoundTrip(s, false);
  }

  lemma {:induction false} KeepsAll(s: string)
    requires forall c :: c in s ==> ComponentKeeps(c)
    ensures Encode(s, false) == s
    decreases |s|
  {
    if s != [] {
      assert s[0] in s && forall c :: c in s[1..] ==> c in s;
      KeepsAll(s[1..]);
      assert s == [s[0]] + s[1..];
    }
  }

  /** The three path segments of a platform route, as printed. */
  function PlatformSegments(id: nat, slug: string): seq<string> {
    ["platform", Encode(Digits(id), false), Encode(slug, false)]
  }

  lemma JoinThree(a: string, b: string, c: string)
    ensures "/" + JoinWith([a, b, c], '/') == "/" + a + "/" + b + "/" + c
  {
    assert [a, b, c][1..] == [b, c] && [b, c][1..] == [c];
    assert JoinWith([b, c], '/') == b + ['/'] + c;
    assert JoinWith([a, b, c], '/') == a + ['/'] + (b + ['/'] + c);
  }

  lemma ThreeParts(a: string, b: string, c: string)
    requires forall x :: x in a ==> EncodedChar(x)
    requires forall x :: x in b ==> EncodedChar(x)
    requires forall x :: x in c ==> EncodedChar(x)
    ensures var path := "/" + a + "/" + b + "/" + c;
      SplitOn(path, '/') == [""] + [a, b, c] && '?' !in path
  {
    PathSplits([a, b, c]);
    JoinThree(a, b, c);
  }

  lemma SlashesAround(word: string, around: string, b: string, c: string)
    requires around == "/" + word + "/" && forall x :: x in word ==> EncodedChar(x)
    requires forall x :: x in b ==> EncodedChar(x)
    requires forall x :: x in c ==> EncodedChar(x)
    ensures SplitOn(around + b + "/" + c, '/') == [""] + [word, b, c] && '?' !in around + b + "/" + c
  {
    ThreeParts(word, b, c);
  }

  lemma PlatformPath(id: nat, slug: string)
    ensures var path := "/platform/" + Encode(Digits(id), false) + "/" + Encode(slug, false);
      && SplitOn(path, '/') == [""] + PlatformSegments(id, slug)
      && '?' !in path
  {
    EncodedIsSafe(Digits(id), false);
    EncodedIsSafe(slug, false);
    SlashesAround("platform", "/platform/", Encode(Digits(id), false), Encode(slug, false));
  }

  lemma DigitsEncode(id: nat)
    ensures Encode(Digits(id), false) == Digits(id) && Decode(Digits(id), false) == Some(Digits(id))
  {
    DigitsRoundTrip(id);
    PlainDecodes(Digits(id));
  }

  lemma NoDots(s: string)
    requires s == [] || (s[0] != '.' && s[0] != '%')
    ensures !DotSegment(s) && !DoubleDotSegment(s)
  {
    if DotSegment(s) || DoubleDotSegment(s) {
      DotsLookLike(s);
    }
  }

  lemma DigitsAreNoDots(id: nat)
    ensures Digits(id) != [] && !DotSegment(Digits(id)) && !DoubleDotSegment(Digits(id))
  {
    DigitsRoundTrip(id);
    var d := Digits(id);
    assert d[0] in d && d[0] != '.' && d[0] != '%';
    NoDots(d);
  }

  lemma {:induction false} PlainResolve(segments: seq<string>, done: seq<string>)
    requires forall s :: s in segments ==> !DotSegment(s) && !DoubleDotSegment(s)
    ensures Resolve(segments, done) == done + segments
    decreases |segments|
  {
    if segments != [] {
      assert segments[0] in segments && forall s :: s in segments[1..] ==> s in segments;
      PlainResolve(segments[1..], done + [segments[0]]);
      assert done + [segments[0]] + segments[1..] == done + segments;
    }
  }

  lemma {:induction false} ResolveInTwo(a: seq<string>, b: seq<string>, done: seq<string>)
    ensures Resolve(a + b, done) == Resolve(b, Resolve(a, done))
    decreases |a|
  {
    if a == [] {
      assert a + b == b;
    } else {
      assert (a + b)[1..] == a[1..] + b;
      ResolveInTwo(a[1..], b,
        if DotSegment(a[0]) then done
        else if DoubleDotSegment(a[0]) then if done == [] then [] else done[..|done| - 1]
        else done + [a[0]]);
    }
  }

  lemma ResolveOne(s: string, done: seq<string>)
    ensures Resolve([s], done) ==
            if DotSegment(s) then done
            else if DoubleDotSegment(s) then if done == [] then [] else done[..|done| - 1]
            else done + [s]
  {
    assert [s][1..] == [];
  }

  lemma NonEmptyOne(s: string, rest: seq<string>)
    ensures NonEmpty([s] + rest) == (if s == [] then [] else [s]) + NonEmpty(rest)
  {
    assert ([s] + rest)[1..] == rest;
  }

  lemma PlatformHead(id: nat)
    ensures Resolve(["", "platform", Digits(id)], []) == ["", "platform", Digits(id)]
  {
    DigitsAreNoDots(id);
    NoDots("");
    NoDots("platform");
    PlainResolve(["", "platform", Digits(id)], []);
  }

  lemma PlatformSegmentsResolve(id: nat, slug: string)
    ensures Resolve([""] + PlatformSegments(id, slug), []) ==
            if slug == "." then ["", "platform", Digits(id)]
            else if slug == ".." then ["", "platform"]
            else ["", "platform", Digits(id), Encode(slug, false)]
  {
    var e, head := Encode(slug, false), ["", "platform", Digits(id)];
    DigitsEncode(id);
    assert [""] + PlatformSegments(id, slug) == head + [e];
    ResolveInTwo(head, [e], []);
    PlatformHead(id);
    ResolveOne(e, head);
    assert head[..2] == ["", "platform"];
    if slug == "." || slug == ".." {
      PlainDecodes(slug);
    } else {
      EncodedIsNoDot(slug);
    }
  }

  lemma RawOfHash(path: string, suffix: string)
    requires path != [] && path[0] == '/'
    ensures Raw("#" + path + suffix) == path + suffix
  {
    var hash := "#" + path + suffix;
    assert hash[0] == '#' && hash[1] == '/' && hash[1..] == path + suffix;
  }

  lemma HashText(d: string, s: string, suffix: string)
    ensures "#/platform/" + d + "/" + s + suffix == "#" + ("/platform/" + d + "/" + s) + suffix
  {
    assert "#" + "/platform/" == "#/platform/";
    Regroup("#", "/platform/", d);
    Regroup("#", "/platform/" + d, "/");
    Regroup("#", "/platform/" + d + "/", s);
  }

  lemma NonEmptyUpToThree(b: string, c: string, d: string)
    requires b != [] && c != []
    ensures NonEmpty(["", b]) == [b] && NonEmpty(["", b, c]) == [b, c]
    ensures NonEmpty(["", b, c, d]) == [b, c] + if d == [] then [] else [d]
  {
    Lists("", b, c, d);
    NonEmptyOne(d, []);
    NonEmptyOne(c, []);
    NonEmptyOne(c, [d]);
    NonEmptyOne(b, []);
    NonEmptyOne(b, [c]);
    NonEmptyOne(b, [c, d]);
    NonEmptyOne("", [b]);
    NonEmptyOne("", [b, c]);
    NonEmptyOne("", [b, c, d]);
  }

  lemma DecodeUpToThree(b: string, c: string, d: string, value: string)
    requires Decode(b, false) == Some(b) && Decode(c, false) == Some(c) && Decode(d, false) == Some(value)
    ensures DecodeAll([b]) == Some([b]) && DecodeAll([b, c]) == Some([b, c])
    ensures DecodeAll([b, c, d]) == Some([b, c, value])
  {
    Lists("", b, c, d);
    Lists("", b, c, value);
    DecodeCons(d, value, [], []);
    DecodeCons(c, c, [], []);
    DecodeCons(c, c, [d], [value]);
    DecodeCons(b, b, [], []);
    DecodeCons(b, b, [c], [c]);
    DecodeCons(b, b, [c, d], [c, value]);
  }

  lemma DecodeCons(part: string, value: string, rest: seq<string>, values: seq<string>)
    requires Decode(part, false) == Some(value) && DecodeAll(rest) == Some(values)
    ensures DecodeAll([part] + rest) == Some([value] + values)
  {
    assert ([part] + rest)[1..] == rest;
  }

  lemma Lists(a: string, b: string, c: string, d: string)
    ensures [a] + [b] == [a, b] && [a] + [b, c] == [a, b, c] && [a] + [b, c, d] == [a, b, c, d]
    ensures [b] + [c] == [b, c] && [b] + [c, d] == [b, c, d] && [c] + [d] == [c, d]
    ensures [a] + [] == [a] && [b] + [] == [b] && [c] + [] == [c] && [d] + [] == [d]
  {
  }

  /** The parts of a printed path that are left when dot segments and empty ones are gone. */
  function PartsLeft(word: string, id: string, last: string, slug: string): seq<string> {
    if slug == "." || slug == [] then [word, id]
    else if slug == ".." then [word]
    else [word, id, last]
  }

  function PlatformPartsOf(id: nat, slug: string): seq<string> {
    PartsLeft("platform", Digits(id), slug, slug)
  }

  function PrintedPartsOf(id: nat, slug: string): seq<string> {
    PartsLeft("platform", Digits(id), Encode(slug, false), slug)
  }

  lemma PlatformNonEmpty(id: nat, slug: string)
    ensures NonEmpty(Resolve([""] + PlatformSegments(id, slug), [])) == PrintedPartsOf(id, slug)
  {
    PlatformSegmentsResolve(id, slug);
    EncodedIsSafe(slug, false);
    DigitsAreNoDots(id);
    NonEmptyUpToThree("platform", Digits(id), Encode(slug, false));
  }

  lemma PartsDecode(word: string, id: nat, slug: string)
    requires forall c :: c in word ==> ComponentKeeps(c)
    ensures DecodeAll(PartsLeft(word, Digits(id), Encode(slug, false), slug)) ==
            Some(PartsLeft(word, Digits(id), slug, slug))
  {
    PlainDecodes(word);
    DigitsEncode(id);
    CodingRoundTrip(slug, false);
    DecodeUpToThree(word, Digits(id), Encode(slug, false), slug);
  }

  /** The decoded parts of a printed platform path. */
  lemma PlatformParts(id: nat, slug: string)
    ensures DecodeAll(PrintedPartsOf(id, slug)) == Some(PlatformPartsOf(id, slug))
  {
    PartsDecode("platform", id, slug);
  }

  /** Parsing, given what the pieces of the hash parse to. */
  lemma ParseRouteOf(hash: string, path: string, query: string, parts: seq<string>, params: Params)
    requires CutQuery(Raw(hash)) == (path, query)
    requires DecodeAll(NonEmpty(Resolve(SplitOn(path, '/'), []))) == Some(parts)
    requires ParseParams(query) == Some(params)
    ensures ParseRoute(hash) == ParseParts(parts, params)
  {
  }

  /** Parsing a printed hash comes down to the parts of its path and the parameters. */
  lemma PrintedHash(path: string, parts: seq<string>, params: Params)
    requires path != [] && path[0] == '/' && '?' !in path
    requires DecodeAll(NonEmpty(Resolve(SplitOn(path, '/'), []))) == Some(parts)
    ensures ParseRoute("#" + path + Suffix(params)) == ParseParts(parts, params)
  {
    RawOfHash(path, Suffix(params));
    CutPrinted(path, params);
    ParseRouteOf("#" + path + Suffix(params), path, PrintParams(params), parts, params);
  }

  lemma PlatformParses(id: nat, slug: string, params: Params, query: string, page: nat, filters: Filters)
    requires 1 <= id <= MAX_SAFE_INTEGER && Carries(params, query, page, filters)
    ensures ParseParts(PlatformPartsOf(id, slug), params) == Platform(id, slug, query, page, filters) <==>
            slug != "." && slug != ".."
  {
    DigitsRoundTrip(id);
    var parts := PlatformPartsOf(id, slug);
    assert parts[0] == "platform" && "platform" != "search";
  }

  /**
   A platform route survives printing and parsing exactly when its slug is neither "." nor "..", for
   every positive safe id, trimmed query of at most 200 units, page and non-empty trimmed filters.
   */
  lemma PlatformRoundTrip(id: nat, slug: string, query: string, page: nat, filters: Filters)
    requires 1 <= id <= MAX_SAFE_INTEGER && IsClean(query) && 1 <= page <= MAX_PAGE
    requires GoodFilters(filters, FILTER_KEYS)
    ensures ParseRoute(PlatformHash(id, slug, query, page, filters)) == Platform(id, slug, query, page, filters) <==>
            slug != "." && slug != ".."
  {
    var params := RouteParams(query, page, filters);
    RouteParamsRoundTrip(query, page, filters);
    assert PageOf(page) == page;
    PrintedPlatform(id, slug, params, query, page, filters);
  }

  lemma PrintedPlatform(id: nat, slug: string, params: Params, query: string, page: nat, filters: Filters)
    requires 1 <= id <= MAX_SAFE_INTEGER && Carries(params, query, page, filters)
    ensures var hash := "#/platform/" + Encode(Digits(id), false) + "/" + Encode(slug, false) + Suffix(params);
      ParseRoute(hash) == Platform(id, slug, query, page, filters) <==> slug != "." && slug != ".."
  {
    var path := "/platform/" + Encode(Digits(id), false) + "/" + Encode(slug, false);
    HashText(Encode(Digits(id), false), Encode(slug, false), Suffix(params));
    PlatformPath(id, slug);
    PlatformNonEmpty(id, slug);
    PlatformParts(id, slug);
    PrintedHash(path, PlatformPartsOf(id, slug), params);
    PlatformParses(id, slug, params, query, page, filters);
  }

  /** A search route always survives printing and parsing. */
  lemma SearchRoundTrip(query: string, page: nat, filters: Filters)
    requires IsClean(query) && 1 <= page <= MAX_PAGE && GoodFilters(filters, FILTER_KEYS)
    ensures ParseRoute(SearchHash(query, page, filters)) == Search(query, page, filters)
  {
    var params := RouteParams(query, page, filters);
    RouteParamsRoundTrip(query, page, filters);
    assert PageOf(page) == page;
    PrintedSearch(params, query, page, filters);
  }

  lemma OneWordSplits(word: string)
    requires '/' !in word
    ensures SplitOn("/" + word, '/') == ["", word]
  {
    SplitOnePart(word, '/');
    SplitAtFirst("", '/', word);
    assert "" + ['/'] + word == "/" + word && [""] + [word] == ["", word];
  }

  lemma OneWordResolves(word: string)
    requires word != [] && word[0] != '.' && word[0] != '%'
    ensures NonEmpty(Resolve(["", word], [])) == [word]
  {
    NoDots("");
    NoDots(word);
    PlainResolve(["", word], []);
    assert [] + ["", word] == ["", word];
    NonEmptyUpToThree(word, word, "");
  }

  lemma OneWordDecodes(word: string)
    requires forall c :: c in word ==> ComponentKeeps(c)
    ensures DecodeAll([word]) == Some([word])
  {
    PlainDecodes(word);
    DecodeCons(word, word, [], []);
    assert [word] + [] == [word];
  }

  /** A path of one plain word comes through every stage of the parser. */
  lemma OneWord(word: string, params: Params)
    requires word != [] && forall c :: c in word ==> Alphanumeric(c)
    ensures ParseRoute("#" + ("/" + word) + Suffix(params)) == ParseParts([word], params)
  {
    assert word[0] in word && '/' !in word && '?' !in word;
    OneWordSplits(word);
    OneWordResolves(word);
    OneWordDecodes(word);
    PrintedHash("/" + word, [word], params);
  }

  lemma SearchParses(params: Params, query: string, page: nat, filters: Filters)
    requires Carries(params, query, page, filters)
    ensures ParseParts(["search"], params) == Search(query, page, filters)
  {
  }

  lemma PrintedSearch(params: Params, query: string, page: nat, filters: Filters)
    requires Carries(params, query, page, filters)
    ensures ParseRoute("#/search" + Suffix(params)) == Search(query, page, filters)
  {
    assert "#" + ("/" + "search") == "#/search";
    OneWord("search", params);
    SearchParses(params, query, page, filters);
  }

  lemma TwoWords(word: string, d: string)
    requires word != [] && d != [] && forall c :: c in word + d ==> Alphanumeric(c)
    ensures ParseRoute("#" + ("/" + JoinWith([word, d], '/')) + Suffix([])) == ParseParts([word, d], [])
  {
    assert forall c :: c in word ==> c in word + d;
    assert forall c :: c in d ==> c in word + d;
    assert word[0] in word && d[0] in d;
    PathSplits([word, d]);
    assert [""] + [word, d] == ["", word, d];
    NoDots("");
    NoDots(word);
    NoDots(d);
    PlainResolve(["", word, d], []);
    assert [] + ["", word, d] == ["", word, d];
    NonEmptyUpToThree(word, d, "");
    PlainDecodes(word);
    PlainDecodes(d);
    DecodeUpToThree(word, d, d, d);
    PrintedHash("/" + JoinWith([word, d], '/'), [word, d], []);
  }

  lemma JoinTwo(a: string, b: string)
    ensures "#" + ("/" + JoinWith([a, b], '/')) + Suffix([]) == "#/" + a + "/" + b
  {
    assert [a, b][1..] == [b];
    assert JoinWith([a, b], '/') == a + ['/'] + b;
    assert "#" + ("/" + (a + ['/'] + b)) + "" == "#/" + a + "/" + b;
  }

  lemma GameParses(id: nat)
    requires 1 <= id <= MAX_SAFE_INTEGER
    ensures ParseParts(["game", Digits(id)], []) == Game(id)
  {
    DigitsRoundTrip(id);
  }

  /** A game route survives printing and parsing for every positive safe id. */
  lemma GameRoundTrip(id: nat)
    requires 1 <= id <= MAX_SAFE_INTEGER
    ensures ParseRoute(GameHash(id)) == Game(id)
  {
    DigitsRoundTrip(id);
    DigitsEncode(id);
    JoinTwo("game", Digits(id));
    assert "#/" + "game" + "/" == "#/game/";
    TwoWords("game", Digits(id));
    GameParses(id);
  }

  // ---------- what is parsed, and what is printed ----------

  /** A number of digits only, from 1 to the greatest integer the script can represent exactly. */
  predicate IsId(s: string) {
    s != [] && (forall i :: 0 <= i < |s| ==> '0' <= s[i] <= '9') && AllDigits(s) && 0 < Value(s) < 0x20_0000_0000_0000
  }

  /** Which path parts mean which route. */
  lemma WhichPartsParse(parts: seq<string>, params: Params)
    ensures var r := ParseParts(parts, params);
      && (r.Platforms? <==> parts == [])
      && (r.Search? <==> parts == ["search"])
      && (r.Platform? <==> |parts| >= 2 && parts[0] == "platform" && IsId(parts[1]))
      && (r.Game? <==> |parts| == 2 && parts[0] == "game" && IsId(parts[1]))
      && (r.Platform? || r.Game? ==> r.id == Value(parts[1]))
      && (r.Platform? ==> r.slug == if |parts| > 2 then parts[2] else [])
  {
    if |parts| >= 2 {
      DigitsOrNot(parts[1]);
      assert IsId(parts[1]) <==> ParsePositiveInteger(parts[1]).Some?;
    }
    if |parts| == 1 {
      assert parts == [parts[0]];
    }
  }

  lemma DigitsOrNot(s: string)
    ensures AllDigits(s) <==> s != [] && forall i :: 0 <= i < |s| ==> '0' <= s[i] <= '9'
  {
    if AllDigits(s) {
      forall i | 0 <= i < |s| ensures '0' <= s[i] <= '9' {
        assert s[i] in s;
      }
    }
    if s != [] && forall i :: 0 <= i < |s| ==> '0' <= s[i] <= '9' {
      forall c | c in s ensures IsDigit(c) {
        var i :| 0 <= i < |s| && s[i] == c;
      }
    }
  }

  /** The white space of the script, by code points. */
  lemma WhiteSpaceIs(c: char)
    ensures White(c) <==>
            c as int in {0x09, 0x0A, 0x0B, 0x0C, 0x0D, 0x20, 0xA0, 0x1680, 0x2000, 0x2001, 0x2002, 0x2003, 0x2004,
                         0x2005, 0x2006, 0x2007, 0x2008, 0x2009, 0x200A, 0x2028, 0x2029, 0x202F, 0x205F, 0x3000, 0xFEFF}
  {
  }

  /** The number sign and the slash in front of a hash may be missing, and an empty hash is the start page's. */
  lemma HashesMayBeShort(s: string)
    requires s != [] && s[0] != '/' && s[0] != '#'
    ensures ParseRoute("#" + s) == ParseRoute("#/" + s) == ParseRoute("/" + s) == ParseRoute(s)
    ensures ParseRoute([]) == ParseRoute("#") == ParseRoute("#/")
  {
    assert ("#" + s)[1..] == s && ("#/" + s)[1..] == "/" + s;
    assert "#"[1..] == [] && "#/"[1..] == "/";
    assert Raw("#" + s) == Raw("#/" + s) == Raw("/" + s) == Raw(s) == "/" + s;
    assert Raw([]) == Raw("#") == Raw("#/") == "/";
  }

  predicate NoNumber(c: char) {
    !White(c) && c != '+' && !IsDigit(c)
  }

  /** Any number in a page parameter: numbers beyond the last page mean the last one, impossible ones the first. */
  lemma PagesAreBounded(page: nat, text: Option<string>)
    ensures ParsePage(Some(Digits(page))) ==
            if page == 0 || page > MAX_SAFE_INTEGER then 1 else if page > 10_000 then 10_000 else page
    ensures 1 <= ParsePage(text) <= 10_000
    ensures ParsePage(None) == 1
    ensures text.Some? && (text.value == [] || NoNumber(text.value[0])) ==> ParsePage(text) == 1
    ensures PageOf(page) == ParsePage(Some(Digits(page)))
  {
    DigitsRoundTrip(page);
    var s := Digits(page);
    assert s[0] in s && TrimStart(s) == s;
    DigitPrefixOfDigits(s);
  }

  /** Only known keys with a value that is more than white space are filters, and each has its cleaned value. */
  lemma WhichFiltersCount(values: Filters, key: string)
    ensures key in CatalogFilters(values) <==>
            key in values && Clean(values[key]) != [] &&
            key in {"game_mode", "year_min", "year_max", "rating_min", "rating_max", "genre", "developer", "publisher",
                    "region", "language", "tag", "size_min", "size_max", "sort", "order"}
    ensures key in CatalogFilters(values) ==> CatalogFilters(values)[key] == Clean(values[key])
  {
    assert key in FILTER_KEYS <==>
           key in {"game_mode", "year_min", "year_max", "rating_min", "rating_max", "genre", "developer", "publisher",
                   "region", "language", "tag", "size_min", "size_max", "sort", "order"} by {
      assert FILTER_KEYS == [FILTER_KEYS[0], FILTER_KEYS[1], FILTER_KEYS[2], FILTER_KEYS[3], FILTER_KEYS[4],
                             FILTER_KEYS[5], FILTER_KEYS[6], FILTER_KEYS[7], FILTER_KEYS[8], FILTER_KEYS[9],
                             FILTER_KEYS[10], FILTER_KEYS[11], FILTER_KEYS[12], FILTER_KEYS[13], FILTER_KEYS[14]];
    }
  }

  /** A single year stands for both ends of its range, and so does a single rating; nothing else changes. */
  lemma ShorthandsMean(values: Filters)
    ensures var w := WithShorthands(values);
      && ("year" in values && values["year"] != [] ==>
            w["year_min"] == w["year_max"] == values["year"])
      && ("rating" in values && values["rating"] != [] ==>
            w["rating_min"] == w["rating_max"] == values["rating"])
      && (forall key :: key !in {"year_min", "year_max", "rating_min", "rating_max"} ==>
            (key in w <==> key in values) && (key in values ==> w[key] == values[key]))
      && ("year" !in values && "rating" !in values ==> w == values)
  {
  }

  /** Trimming removes white space at both ends and nothing else. */
  lemma TrimMeans(s: string) returns (before: string, after: string)
    ensures s == before + Trim(s) + after
    ensures (forall c :: c in before ==> White(c)) && (forall c :: c in after ==> White(c))
    ensures Trim(s) != [] ==> !White(Trim(s)[0]) && !White(Trim(s)[|Trim(s)| - 1])
  {
    before := TrimsFront(s);
    after := TrimsBack(TrimStart(s));
    Regroup(before, Trim(s), after);
  }

  lemma {:induction false} TrimsFront(s: string) returns (before: string)
    ensures s == before + TrimStart(s) && forall c :: c in before ==> White(c)
    ensures TrimStart(s) != [] ==> !White(TrimStart(s)[0])
    decreases |s|
  {
    before := [];
    if s != [] && White(s[0]) {
      var more := TrimsFront(s[1..]);
      before := [s[0]] + more;
      assert s == [s[0]] + s[1..];
      Regroup([s[0]], more, TrimStart(s));
    } else {
      assert [] + s == s;
    }
  }

  lemma {:induction false} TrimsBack(s: string) returns (after: string)
    ensures s == TrimEnd(s) + after && forall c :: c in after ==> White(c)
    ensures TrimEnd(s) != [] ==> !White(TrimEnd(s)[|TrimEnd(s)| - 1])
    ensures TrimEnd(s) != [] ==> s != [] && TrimEnd(s)[0] == s[0]
    decreases |s|
  {
    after := [];
    if s != [] && White(s[|s| - 1]) {
      var more := TrimsBack(s[..|s| - 1]);
      after := more + [s[|s| - 1]];
      assert s == s[..|s| - 1] + [s[|s| - 1]];
      Regroup(TrimEnd(s), more, [s[|s| - 1]]);
    } else {
      assert s + [] == s;
    }
  }

  /** Clipping keeps the longest beginning of at most `limit` code units. */
  lemma {:induction false} ClipMeans(s: string, limit: nat)
    ensures var c := Clip(s, limit);
      && c <= s && Length(c) <= limit && (c != s ==> Length(c) + Units(s[|c|]) > limit)
    decreases |s|
  {
    if s != [] && Units(s[0]) <= limit {
      ClipMeans(s[1..], limit - Units(s[0]));
      var rest := Clip(s[1..], limit - Units(s[0]));
      assert ([s[0]] + rest)[1..] == rest;
    }
  }

  lemma NothingAsked()
    ensures RouteParams([], PageOf(1), map[]) == []
  {
    NoFilters(FILTER_KEYS);
    assert CatalogFilters(map[]) == map[];
  }

  lemma GameHashLooks(id: nat)
    ensures GameHash(id) == "#/game/" + Digits(id)
  {
    DigitsEncode(id);
  }

  lemma SearchHashLooks()
    ensures SearchHash([], 1, map[]) == "#/search"
  {
    NothingAsked();
    NothingToPrint("#/search");
  }

  lemma PlatformHashLooks(id: nat, slug: string)
    ensures PlatformHash(id, slug, [], 1, map[]) == "#/platform/" + Digits(id) + "/" + Encode(slug, false)
  {
    DigitsEncode(id);
    NothingAsked();
    NothingToPrint("#/platform/" + Digits(id) + "/" + Encode(slug, false));
  }

  /** What the printed hashes look like: a path, and no query if there is nothing to say. */
  lemma HashesLook(id: nat, slug: string)
    ensures GameHash(id) == "#/game/" + Digits(id)
    ensures SearchHash([], 1, map[]) == "#/search"
    ensures PlatformHash(id, slug, [], 1, map[]) == "#/platform/" + Digits(id) + "/" + Encode(slug, false)
  {
    GameHashLooks(id);
    SearchHashLooks();
    PlatformHashLooks(id, slug);
  }

  lemma {:induction false} NoFilters(keys: seq<string>)
    ensures FilterParams(map[], keys) == []
    decreases |keys|
  {
    if keys != [] {
      NoFilters(keys[1..]);
    }
  }
}
