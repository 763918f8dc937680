/** The listing-search address (`montar_url`): the category page, an optional
    region path, and a query string carrying the search term, the price
    ceiling and the result page. */
module SearchUrl {
  import opened Wrappers
  import opened Text
  import opened Numerals
  import opened Quote

  /** The cars-and-vans category every search starts from. */
  const Base: string := "https://www.olx.com.br/autos-e-pecas/carros-vans-e-utilitarios"

  /** How a region name is written in the path: trimmed of white space, then
      of slashes, lower-cased, spaces turned into dashes. */
  function Segment(s: string): string {
    Replace(LowerString(Strip(Strip(s, Whitespace), Chars("/"))), ' ', '-')
  }

  /** Where the kept part of a region name starts in the raw text. */
  function SegmentStart(s: string): nat {
    LeadingCount(s, Whitespace) + LeadingCount(Strip(s, Whitespace), Chars("/"))
  }

  /** How one kept character of a region name is written. */
  function SegmentChar(c: char): (d: char)
    ensures d != ' ' && !IsUpper(d)
    ensures d == '/' <==> c == '/'
  {
    if c == ' ' then '-' else Lower(c)
  }

  /** The segment is the trimmed slice of the raw name (it starts where the
      trimming stops and is exactly as long as what trimming keeps), written
      one character for one;
      it holds no space and no upper-case letter, and neither starts nor ends
      with a slash. */
  predicate WellFormedSegment(s: string, r: string) {
    && SegmentStart(s) + |r| <= |s|
    && |r| == |Strip(Strip(s, Whitespace), Chars("/"))|
    && (forall k :: 0 <= k < |r| ==> r[k] == SegmentChar(s[SegmentStart(s) + k]))
    && (forall k :: 0 <= k < |r| ==> r[k] != ' ' && !IsUpper(r[k]))
    && (|r| > 0 ==> r[0] != '/' && r[|r| - 1] != '/')
  }

  /** Trimming twice keeps the raw name read from `SegmentStart`, and what is
      kept does not start or end with a slash. */
  lemma TrimmedSlice(s: string)
    ensures var b := Strip(Strip(s, Whitespace), Chars("/"));
            && SegmentStart(s) + |b| <= |s|
            && (forall k :: 0 <= k < |b| ==> b[k] == s[SegmentStart(s) + k])
            && (|b| > 0 ==> b[0] != '/' && b[|b| - 1] != '/')
  {
    var a := Strip(s, Whitespace);
    var b := Strip(a, Chars("/"));
    ComposeReads(s, a, b, LeadingCount(s, Whitespace), LeadingCount(a, Chars("/")));
  }

  /** Lower-casing then dashing spaces writes each character as `SegmentChar`. */
  lemma WrittenChars(b: string)
    ensures var r := Replace(LowerString(b), ' ', '-');
            |r| == |b| && forall k :: 0 <= k < |r| ==> r[k] == SegmentChar(b[k])
  {
  }

  /** The shape of a segment from what is known about its pieces: `b` is read
      from `s` at `i`, and `r` writes each character of `b` as `SegmentChar`. */
  lemma ShapeFrom(s: string, i: nat, b: string, r: string)
    requires i + |b| <= |s| && forall k :: 0 <= k < |b| ==> b[k] == s[i + k]
    requires |b| > 0 ==> b[0] != '/' && b[|b| - 1] != '/'
    requires |r| == |b| && forall k :: 0 <= k < |r| ==> r[k] == SegmentChar(b[k])
    ensures i + |r| <= |s|
    ensures forall k :: 0 <= k < |r| ==> r[k] == SegmentChar(s[i + k])
    ensures forall k :: 0 <= k < |r| ==> r[k] != ' ' && !IsUpper(r[k])
    ensures |r| > 0 ==> r[0] != '/' && r[|r| - 1] != '/'
  {
  }

  lemma SegmentShape(s: string)
    ensures WellFormedSegment(s, Segment(s))
  {
    var b := Strip(Strip(s, Whitespace), Chars("/"));
    TrimmedSlice(s);
    WrittenChars(b);
    ShapeFrom(s, SegmentStart(s), b, Segment(s));
  }

  /** The region path (`montar_url`'s `path`): empty without a state;
      "/state" with a state only; "/state/city" with both. A city given
      without a state is ignored. */
  function RegionPath(estado: Option<string>, cidade: Option<string>): string
  {
    if Truthy(estado) then
      var path := "/" + Segment(estado.value);
      if Truthy(cidade) then path + "/" + Segment(cidade.value) else path
    else ""
  }

  /** A name already written as a segment (lower-case, no space, nothing
      to trim at either end) is kept as it is. */
  lemma SegmentOfClean(s: string)
    requires forall k :: 0 <= k < |s| ==> s[k] != ' ' && !IsUpper(s[k])
    requires |s| > 0 ==> !IsSpace(s[0]) && !IsSpace(s[|s| - 1])
                         && s[0] != '/' && s[|s| - 1] != '/'
    ensures Segment(s) == s
  {
    assert Strip(s, Whitespace) == s by {
      StripUntouched(s, Whitespace);
    }
    assert Strip(s, Chars("/")) == s by {
      assert |s| > 0 ==> !Cut(Chars("/"), s[0]) && !Cut(Chars("/"), s[|s| - 1]) by {
        assert "/" == ['/'];
      }
      StripUntouched(s, Chars("/"));
    }
    CleanWritten(s);
  }

  /** Lower-case text without spaces is written as it is. */
  lemma CleanWritten(s: string)
    requires forall k :: 0 <= k < |s| ==> s[k] != ' ' && !IsUpper(s[k])
    ensures Replace(LowerString(s), ' ', '-') == s
  {
    assert LowerString(s) == s;
    assert Replace(s, ' ', '-') == s;
  }

  lemma SplitFree(s: string, sep: char)
    requires Free(s, sep)
    ensures Split(s, sep) == [s]
  {
  }

  lemma OneLevel(e: string)
    requires Free(e, '/')
    ensures Split("/" + e, '/') == ["", e]
  {
    assert "/" + e == [] + ['/'] + e;
    SplitCons([], '/', e);
    SplitFree(e, '/');
  }

  lemma TwoLevels(e: string, c: string)
    requires Free(e, '/') && Free(c, '/')
    ensures Split("/" + e + "/" + c, '/') == ["", e, c]
  {
    assert "/" + e + "/" + c == [] + ['/'] + (e + ['/'] + c);
    SplitCons([], '/', e + ['/'] + c);
    SplitCons(e, '/', c);
    SplitFree(c, '/');
  }

  /** Reading the region path back: split at '/', it gives an empty first
      field and then the state's and the city's segments, one per level,
      as long as neither segment holds a '/' of its own. */
  lemma RegionPathLevels(estado: Option<string>, cidade: Option<string>)
    requires Truthy(estado) ==> Free(Segment(estado.value), '/')
    requires Truthy(estado) && Truthy(cidade) ==> Free(Segment(cidade.value), '/')
    ensures !Truthy(estado) ==> Split(RegionPath(estado, cidade), '/') == [""]
    ensures Truthy(estado) && !Truthy(cidade) ==>
              Split(RegionPath(estado, cidade), '/') == ["", Segment(estado.value)]
    ensures Truthy(estado) && Truthy(cidade) ==>
              Split(RegionPath(estado, cidade), '/')
              == ["", Segment(estado.value), Segment(cidade.value)]
  {
    if !Truthy(estado) {
      SplitFree("", '/');
    } else if !Truthy(cidade) {
      OneLevel(Segment(estado.value));
    } else {
      TwoLevels(Segment(estado.value), Segment(cidade.value));
    }
  }

  /** A name with no '/', no white space and no upper-case letter, such as
      "sp" or "campinas". */
  predicate PlainName(s: string) {
    |s| > 0 && forall k :: 0 <= k < |s| ==> s[k] != '/' && !IsSpace(s[k]) && !IsUpper(s[k])
  }

  /** `strip("/")` trims only the ends, so a '/' inside a name stays and adds
      a level: the state "sp/campinas" alone gives the same path as the
      state "sp" with the city "campinas", and likewise for any two plain
      names. */
  lemma InnerSlashAddsLevel(e: string, c: string)
    requires PlainName(e) && PlainName(c)
    ensures RegionPath(Some(e + "/" + c), None) == RegionPath(Some(e), Some(c))
  {
    OneName(e, c);
    TwoNames(e, c);
    SlashRegroup(e, c);
  }

  lemma OneName(e: string, c: string)
    requires PlainName(e) && PlainName(c)
    ensures RegionPath(Some(e + "/" + c), None) == "/" + (e + "/" + c)
  {
    JoinedSegment(e, c);
  }

  lemma TwoNames(e: string, c: string)
    requires PlainName(e) && PlainName(c)
    ensures RegionPath(Some(e), Some(c)) == "/" + e + "/" + c
  {
    SegmentOfClean(e);
    SegmentOfClean(c);
  }

  /** Two plain names joined by '/' are written as they are. */
  lemma JoinedSegment(e: string, c: string)
    requires PlainName(e) && PlainName(c)
    ensures Segment(e + "/" + c) == e + "/" + c
  {
    var both := e + "/" + c;
    assert both[0] == e[0] && both[|both| - 1] == c[|c| - 1];
    forall k | 0 <= k < |both| ensures both[k] != ' ' && !IsUpper(both[k]) {
      if k < |e| { assert both[k] == e[k]; }
      else if k > |e| { assert both[k] == c[k - |e| - 1]; }
    }
    SegmentOfClean(both);
  }

  lemma SlashRegroup(e: string, c: string)
    ensures "/" + (e + "/" + c) == "/" + e + "/" + c
  {
  }

  /** The query string (`params`): the form-encoded term, `sf=1`, the
      ceiling as a whole number, and the page number only past the first
      page. */
  function Query(modelo: string, teto: int, page: int): string {
    "?" + QueryBody(modelo, teto, page)
  }

  function QueryBody(modelo: string, teto: int, page: int): string {
    "q=" + QuotePlus(modelo) + "&sf=1&pe=" + IntToString(teto)
    + (if page > 1 then "&o=" + IntToString(page) else "")
  }

  /** `montar_url`: the category page, then the region path, then the query. */
  function BuildUrl(modelo: string, teto: int, estado: Option<string>,
                    cidade: Option<string>, page: int): (url: string)
    ensures |Base| <= |url| && url[..|Base|] == Base
  {
    Base + RegionPath(estado, cidade) + Query(modelo, teto, page)
  }

  // ---------------------------------------------------------------------
  // Reading an address back: the query is what follows the last '?', its
  // parameters are separated by '&', and each is split at its first '='.

  predicate Free(s: string, c: char) {
    forall k :: 0 <= k < |s| ==> s[k] != c
  }

  function LastIndex(s: string, c: char): (r: Option<nat>)
    ensures r.Some? ==> r.value < |s| && s[r.value] == c && Free(s[r.value + 1..], c)
    ensures r.None? ==> Free(s, c)
  {
    if |s| == 0 then None
    else if s[|s| - 1] == c then Some(|s| - 1)
    else
      var r := LastIndex(s[..|s| - 1], c);
      assert r.Some? ==> s[r.value + 1..] == s[..|s| - 1][r.value + 1..] + [s[|s| - 1]];
      r
  }

  function FirstIndex(s: string, c: char): (r: Option<nat>)
    ensures r.Some? ==> r.value < |s| && s[r.value] == c && Free(s[..r.value], c)
    ensures r.None? ==> Free(s, c)
  {
    if |s| == 0 then None
    else if s[0] == c then Some(0)
    else match FirstIndex(s[1..], c)
      case None => None
      case Some(i) => Some(i + 1)
  }

  /** `s.split(sep)`. */
  function Split(s: string, sep: char): (parts: seq<string>)
    ensures |parts| >= 1
    decreases |s|
  {
    match FirstIndex(s, sep)
    case None => [s]
    case Some(i) => [s[..i]] + Split(s[i + 1..], sep)
  }

  /** One parameter: name and value around the first '='. */
  function Pair(p: string): (string, string) {
    match FirstIndex(p, '=')
    case None => (p, "")
    case Some(i) => (p[..i], p[i + 1..])
  }

  function Pairs(ps: seq<string>): (r: seq<(string, string)>)
    ensures |r| == |ps|
  {
    if |ps| == 0 then [] else [Pair(ps[0])] + Pairs(ps[1..])
  }

  /** Splits an address into what precedes the query and the query's
      parameters; `None` when there is no '?'. */
  function ParseUrl(url: string): Option<(string, seq<(string, string)>)> {
    match LastIndex(url, '?')
    case None => None
    case Some(i) => Some((url[..i], Pairs(Split(url[i + 1..], '&'))))
  }

  /** How one parameter is written. */
  function Entry(p: (string, string)): string {
    p.0 + "=" + p.1
  }

  /** Parameters written "name=value" and joined by '&'. */
  function Join(ps: seq<(string, string)>): string {
    if |ps| == 0 then ""
    else if |ps| == 1 then Entry(ps[0])
    else Entry(ps[0]) + "&" + Join(ps[1..])
  }

  /** Names and values that can be written unambiguously. */
  predicate Writable(ps: seq<(string, string)>) {
    forall k :: 0 <= k < |ps| ==>
      Free(ps[k].0, '=') && Free(ps[k].0, '&') && Free(ps[k].1, '&')
      && Free(ps[k].0, '?') && Free(ps[k].1, '?')
  }

  /** The parameters `montar_url` puts in the query, in order. */
  function Params(modelo: string, teto: int, page: int): seq<(string, string)> {
    [("q", QuotePlus(modelo)), ("sf", "1"), ("pe", IntToString(teto))]
    + (if page > 1 then [("o", IntToString(page))] else [])
  }

  lemma {:induction false} LastIndexAfter(a: string, c: char, b: string)
    requires Free(b, c)
    ensures LastIndex(a + [c] + b, c) == Some(|a|)
    decreases |b|
  {
    var s := a + [c] + b;
    if |b| > 0 {
      var b' := b[..|b| - 1];
      assert s[..|s| - 1] == a + [c] + b';
      assert s[|s| - 1] == b[|b| - 1];
      assert Free(b', c) by {
        forall k | 0 <= k < |b'| ensures b'[k] != c {
          assert b'[k] == b[k];
        }
      }
      LastIndexAfter(a, c, b');
    }
  }

  lemma FirstIndexBefore(a: string, c: char, b: string)
    requires Free(a, c)
    ensures FirstIndex(a + [c] + b, c) == Some(|a|)
  {
    var s := a + [c] + b;
    assert s[|a|] == c && s[..|a|] == a;
  }

  lemma SplitCons(a: string, sep: char, b: string)
    requires Free(a, sep)
    ensures Split(a + [sep] + b, sep) == [a] + Split(b, sep)
  {
    FirstIndexBefore(a, sep, b);
    var s := a + [sep] + b;
    assert s[..|a|] == a && s[|a| + 1..] == b;
  }

  lemma PairAt(name: string, value: string)
    requires Free(name, '=')
    ensures Pair(name + "=" + value) == (name, value)
  {
    FirstIndexBefore(name, '=', value);
    var s := name + "=" + value;
    assert s[..|name|] == name && s[|name| + 1..] == value;
  }

  lemma FreeConcat(a: string, b: string, c: char)
    requires Free(a, c) && Free(b, c)
    ensures Free(a + b, c)
  {
    forall k | 0 <= k < |a + b| ensures (a + b)[k] != c {
      if k >= |a| { assert (a + b)[k] == b[k - |a|]; }
    }
  }

  lemma EntryFree(p: (string, string), c: char)
    requires Free(p.0, c) && Free(p.1, c) && c != '='
    ensures Free(p.0 + "=" + p.1, c)
  {
    FreeConcat(p.0, "=", c);
    FreeConcat(p.0 + "=", p.1, c);
  }

  lemma WritableTail(ps: seq<(string, string)>)
    requires |ps| >= 1 && Writable(ps)
    ensures Writable(ps[1..])
  {
    var rest := ps[1..];
    forall k | 0 <= k < |rest| ensures Free(rest[k].0, '=') && Free(rest[k].0, '&')
      && Free(rest[k].1, '&') && Free(rest[k].0, '?') && Free(rest[k].1, '?')
    {
      assert rest[k] == ps[k + 1];
    }
  }

  lemma PairsCons(p: string, ps: seq<string>)
    ensures Pairs([p] + ps) == [Pair(p)] + Pairs(ps)
  {
    assert ([p] + ps)[1..] == ps;
  }

  /** One more parameter in front of a query that reads back correctly. */
  lemma SplitJoinStep(ps: seq<(string, string)>)
    requires |ps| > 1 && Writable(ps)
    requires Free(Join(ps[1..]), '?') && Pairs(Split(Join(ps[1..]), '&')) == ps[1..]
    ensures Free(Join(ps), '?') && Pairs(Split(Join(ps), '&')) == ps
  {
    var e, rest := ps[0].0 + "=" + ps[0].1, ps[1..];
    EntryFree(ps[0], '&');
    EntryFree(ps[0], '?');
    PairAt(ps[0].0, ps[0].1);
    JoinSuffix(ps);
    SplitCons(e, '&', Join(rest));
    PairsCons(e, Split(Join(rest), '&'));
    FreeConcat(e, ['&'], '?');
    FreeConcat(e + ['&'], Join(rest), '?');
    assert ps == [ps[0]] + rest;
  }

  /** Splitting joined parameters at '&' and each at its first '=' gives
      them back. */
  lemma {:induction false} SplitJoin(ps: seq<(string, string)>)
    requires |ps| >= 1 && Writable(ps)
    ensures Free(Join(ps), '?')
    ensures Pairs(Split(Join(ps), '&')) == ps
    decreases |ps|
  {
    if |ps| == 1 {
      EntryFree(ps[0], '&');
      EntryFree(ps[0], '?');
      PairAt(ps[0].0, ps[0].1);
    } else {
      WritableTail(ps);
      SplitJoin(ps[1..]);
      SplitJoinStep(ps);
    }
  }

  lemma QuotedFree(s: string, c: char)
    requires !QuotedChar(c)
    ensures Free(QuotePlus(s), c)
  {
  }

  lemma NumberFree(i: int, c: char)
    requires c != '-' && !IsDigit(c)
    ensures Free(IntToString(i), c)
  {
    var s := IntToString(i);
    forall k | 0 <= k < |s| ensures s[k] != c {
      if k == 0 && i < 0 { assert s[0] == '-'; }
    }
  }

  lemma ParamsWritable(modelo: string, teto: int, page: int)
    ensures Writable(Params(modelo, teto, page))
  {
    QuotedFree(modelo, '?'); QuotedFree(modelo, '&');
    NumberFree(teto, '?'); NumberFree(teto, '&');
    NumberFree(page, '?'); NumberFree(page, '&');
  }

  lemma QueryLiteral(q: string, t: string, tail: string)
    ensures "q=" + q + "&sf=1&pe=" + t + tail
            == Entry(("q", q)) + "&" + (Entry(("sf", "1")) + "&" + (Entry(("pe", t)) + tail))
  {
    assert "q=" + q + "&sf=1&pe=" + t + tail
           == "q=" + q + ("&sf=1&pe=" + (t + tail));
    assert Entry(("q", q)) + "&" + (Entry(("sf", "1")) + "&" + (Entry(("pe", t)) + tail))
           == "q=" + q + ("&" + ("sf=1" + ("&" + ("pe=" + (t + tail)))));
  }

  lemma JoinSuffix(ps: seq<(string, string)>)
    requires |ps| > 1
    ensures Join(ps) == Entry(ps[0]) + "&" + Join(ps[1..])
  {
  }

  /** The last one or two parameters joined, as `montar_url` writes them. */
  lemma JoinLast(t: string, p: string, paged: bool)
    ensures Join([("pe", t)] + (if paged then [("o", p)] else []))
            == Entry(("pe", t)) + (if paged then "&o=" + p else "")
  {
    var ps := [("pe", t)] + (if paged then [("o", p)] else []);
    if paged {
      JoinSuffix(ps);
      assert ps[1..] == [("o", p)];
      assert "&o=" + p == "&" + Entry(("o", p));
    }
  }

  /** The first two parameters in front of the rest. */
  lemma JoinFront(q: string, rest: seq<(string, string)>)
    requires |rest| >= 1
    ensures Join([("q", q), ("sf", "1")] + rest)
            == Entry(("q", q)) + "&" + (Entry(("sf", "1")) + "&" + Join(rest))
  {
    var ps := [("q", q), ("sf", "1")] + rest;
    JoinSuffix(ps);
    JoinSuffix(ps[1..]);
    assert ps[1..][1..] == rest;
  }

  /** The query `montar_url` writes is its parameters joined. */
  lemma QueryBodyJoin(modelo: string, teto: int, page: int)
    ensures QueryBody(modelo, teto, page) == Join(Params(modelo, teto, page))
  {
    var q, t, p := QuotePlus(modelo), IntToString(teto), IntToString(page);
    var rest := [("pe", t)] + (if page > 1 then [("o", p)] else []);
    assert Params(modelo, teto, page) == [("q", q), ("sf", "1")] + rest;
    JoinLast(t, p, page > 1);
    JoinFront(q, rest);
    QueryLiteral(q, t, if page > 1 then "&o=" + p else "");
  }

  /** Whatever precedes it, the query `montar_url` appends reads back as
      its parameters. */
  lemma ParseAfter(front: string, modelo: string, teto: int, page: int)
    ensures ParseUrl(front + Query(modelo, teto, page))
            == Some((front, Params(modelo, teto, page)))
  {
    var body := QueryBody(modelo, teto, page);
    var url := front + Query(modelo, teto, page);
    QueryBodyJoin(modelo, teto, page);
    ParamsWritable(modelo, teto, page);
    SplitJoin(Params(modelo, teto, page));
    assert url == front + ['?'] + body;
    LastIndexAfter(front, '?', body);
    assert url[..|front|] == front && url[|front| + 1..] == body;
  }

  /** Reading back the address `montar_url` builds recovers every piece: the
      category page followed by the region path, and exactly the parameters
      q (the encoded term), sf=1, pe (the ceiling), and o (the page) if and
      only if the page is past the first. This reader splits at the last
      '?', which finds the query this function writes, since neither the
      encoded term nor a number contains '?', '&' or '='. A standard parser
      splits at the first '?' instead (`FirstQuestionMarkMisreads`). */
  lemma ParseBuildUrl(modelo: string, teto: int, estado: Option<string>,
                      cidade: Option<string>, page: int)
    ensures ParseUrl(BuildUrl(modelo, teto, estado, cidade, page))
            == Some((Base + RegionPath(estado, cidade), Params(modelo, teto, page)))
  {
    ParseAfter(Base + RegionPath(estado, cidade), modelo, teto, page);
  }

  /** How a standard parser reads an address: the query starts at the first
      '?' (section 3.4 of RFC 3986). */
  function ParseUrlFirst(url: string): Option<(string, seq<(string, string)>)> {
    match FirstIndex(url, '?')
    case None => None
    case Some(i) => Some((url[..i], Pairs(Split(url[i + 1..], '&'))))
  }

  /** Region names are written into the path unencoded. A state whose
      segment holds a '?' makes a standard parser start the query inside the
      path, so the server does not get the parameters `montar_url` meant,
      although the last-'?' reader still recovers them. */
  lemma FirstQuestionMarkMisreads(modelo: string, teto: int, estado: Option<string>,
                                  cidade: Option<string>, page: int)
    requires Truthy(estado) && !Free(Segment(estado.value), '?')
    ensures var url := BuildUrl(modelo, teto, estado, cidade, page);
            var front := Base + RegionPath(estado, cidade);
            ParseUrl(url) == Some((front, Params(modelo, teto, page)))
            && ParseUrlFirst(url).Some? && |ParseUrlFirst(url).value.0| < |front|
  {
    ParseBuildUrl(modelo, teto, estado, cidade, page);
    QuestionMarkInPath(estado, cidade);
    HeldAfter(Base, RegionPath(estado, cidade));
    FirstInFront(Base + RegionPath(estado, cidade), Query(modelo, teto, page));
  }

  /** A '?' in the state's segment is a '?' in the region path. */
  lemma QuestionMarkInPath(estado: Option<string>, cidade: Option<string>)
    requires Truthy(estado) && !Free(Segment(estado.value), '?')
    ensures !Free(RegionPath(estado, cidade), '?')
  {
    var path := "/" + Segment(estado.value);
    HeldAfter("/", Segment(estado.value));
    if Truthy(cidade) {
      HeldBefore(path, "/");
      HeldBefore(path + "/", Segment(cidade.value));
    }
  }

  lemma HeldBefore(a: string, b: string)
    requires !Free(a, '?')
    ensures !Free(a + b, '?')
  {
    var k :| 0 <= k < |a| && a[k] == '?';
    assert (a + b)[k] == '?';
  }

  lemma HeldAfter(a: string, b: string)
    requires !Free(b, '?')
    ensures !Free(a + b, '?')
  {
    var k :| 0 <= k < |b| && b[k] == '?';
    assert (a + b)[|a| + k] == '?';
  }

  /** A reader that splits at the first '?' stops inside `front` when
      `front` holds a '?'. */
  lemma FirstInFront(front: string, q: string)
    requires !Free(front, '?')
    ensures ParseUrlFirst(front + q).Some? && |ParseUrlFirst(front + q).value.0| < |front|
  {
    var k :| 0 <= k < |front| && front[k] == '?';
    FirstBefore(front, q, k);
  }

  /** The first '?' of `a + b` lies within `a` when `a` holds one. */
  lemma FirstBefore(a: string, b: string, k: nat)
    requires k < |a| && a[k] == '?'
    ensures FirstIndex(a + b, '?').Some? && FirstIndex(a + b, '?').value <= k
  {
    var s := a + b;
    assert s[k] == '?';
  }

  /** The page parameter is present exactly on pages after the first. */
  lemma PageParamIffPastFirst(modelo: string, teto: int, estado: Option<string>,
                              cidade: Option<string>, page: int)
    ensures var parsed := ParseUrl(BuildUrl(modelo, teto, estado, cidade, page));
            parsed.Some? && (|parsed.value.1| == 4 <==> page > 1)
            && (page > 1 ==> parsed.value.1[3] == ("o", IntToString(page)))
  {
    ParseBuildUrl(modelo, teto, estado, cidade, page);
  }
}
