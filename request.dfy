/**
 * Building the HTTP request of a trigger: the GET and POST pairs read from
 * the configuration (`getParams`, `getPostData` in src/WebGetter.php,
 * `_addGetParams`, `_addPostParams` in src/Erebot/Module/WebGetter.php),
 * the query merge, the method, and the options of both variants. The
 * result is a descriptor; sending it is not part of this model.
 */
module Request {
  import opened Wrappers
  import opened PhpStrings
  import opened PhpArray
  import opened Config
  import opened Formatter
  import opened UrlEncoding

  /**
   * The formatter as the request builder uses it: `injectContext` with the
   * request's context, applied to one configured template. The handlers
   * pass `t => InjectContext(t, Assoc(ctx))`.
   */
  type Fmt = string -> Result<string, FormatError>

  // ------------------------------------------------------ GET / POST pairs

  function PairName(cfg: Config, index: nat, section: string, i: nat): string
    requires KeyOf(Pair(index, section), i) in cfg
  {
    cfg[KeyOf(Pair(index, section), i)]
  }

  /** A pair's value goes through the formatter; its name does not. */
  function PairValue(cfg: Config, index: nat, section: string, fmt: Fmt, i: nat): Result<string, FormatError>
    requires ValueKey(index, section, i) in cfg
  {
    fmt(cfg[ValueKey(index, section, i)])
  }

  /** Pairs 1 .. j-1 have both a name and a value. */
  ghost predicate PairsExist(cfg: Config, index: nat, section: string, j: nat) {
    forall i :: 1 <= i < j ==> KeyOf(Pair(index, section), i) in cfg && ValueKey(index, section, i) in cfg
  }

  /** The n such that pairs 1 .. n-1 have both a name and a value and pair n does not. */
  function PairCount(cfg: Config, index: nat, section: string): (n: nat)
    ensures n >= 1 && !Present(cfg, Pair(index, section), n) && PairsExist(cfg, index, section, n)
  {
    var n := RunEnd(cfg, Pair(index, section), 1);
    assert PairsExist(cfg, index, section, n) by {
      forall i | 1 <= i < n ensures KeyOf(Pair(index, section), i) in cfg && ValueKey(index, section, i) in cfg {
        assert Present(cfg, Pair(index, section), i);
      }
    }
    n
  }

  /** `$data[$name] = $value` for pairs 1 .. j-1 in turn, starting from `init`; the first formatting failure ends it. */
  function PairsUpTo(cfg: Config, index: nat, section: string, fmt: Fmt, init: Entries<string>, j: nat): Result<Entries<string>, FormatError>
    requires 1 <= j && PairsExist(cfg, index, section, j)
    decreases j
  {
    if j == 1 then Ok(init)
    else match PairsUpTo(cfg, index, section, fmt, init, j - 1)
      case Err(e) => Err(e)
      case Ok(acc) =>
        match PairValue(cfg, index, section, fmt, j - 1)
        case Err(e) => Err(e)
        case Ok(v) => Ok(Put(acc, PairName(cfg, index, section, j - 1), v))
  }

  /** The configured pairs collected into `init`. */
  function Pairs(cfg: Config, index: nat, section: string, fmt: Fmt, init: Entries<string>): Result<Entries<string>, FormatError> {
    PairsUpTo(cfg, index, section, fmt, init, PairCount(cfg, index, section))
  }

  /** The pair loop stops at the first pair without a name or a value. */
  lemma PairCountAt(cfg: Config, index: nat, section: string, i: nat)
    requires 1 <= i <= PairCount(cfg, index, section)
    requires !(KeyOf(Pair(index, section), i) in cfg && ValueKey(index, section, i) in cfg)
    ensures i == PairCount(cfg, index, section)
  {
  }

  /** Pair i exists below the count, so pairs 1 .. i do. */
  lemma PairNext(cfg: Config, index: nat, section: string, i: nat)
    requires 1 <= i < PairCount(cfg, index, section)
    ensures PairsExist(cfg, index, section, i + 1)
  {
    var n := PairCount(cfg, index, section);
    forall i' | 1 <= i' < i + 1 ensures KeyOf(Pair(index, section), i') in cfg && ValueKey(index, section, i') in cfg {
      assert i' < n;
    }
  }

  lemma {:induction false} ErrorStays(cfg: Config, index: nat, section: string, fmt: Fmt, init: Entries<string>, j: nat, k: nat)
    requires 1 <= j <= k && PairsExist(cfg, index, section, k)
    requires PairsUpTo(cfg, index, section, fmt, init, j).Err?
    ensures PairsUpTo(cfg, index, section, fmt, init, k) == PairsUpTo(cfg, index, section, fmt, init, j)
    decreases k - j
  {
    if j < k {
      assert PairsExist(cfg, index, section, k - 1);
      ErrorStays(cfg, index, section, fmt, init, j, k - 1);
    }
  }

  /** The loop of `getParams` and `getPostData`, collecting into a fresh array. */
  method CollectPairs(cfg: Config, index: nat, section: string, fmt: Fmt) returns (r: Result<Entries<string>, FormatError>)
    ensures r == Pairs(cfg, index, section, fmt, [])
  {
    ghost var n := PairCount(cfg, index, section);
    var data: Entries<string> := [];
    var i := 1;
    while KeyOf(Pair(index, section), i) in cfg && ValueKey(index, section, i) in cfg
      invariant 1 <= i <= n
      invariant PairsUpTo(cfg, index, section, fmt, [], i) == Ok(data)
      decreases n - i
    {
      assert i != n;
      var name := cfg[KeyOf(Pair(index, section), i)];
      var value := fmt(cfg[ValueKey(index, section, i)]);
      PairsStep(cfg, index, section, fmt, [], i);
      if value.Err? {
        return Err(value.error);
      }
      data := Put(data, name, value.value);
      i := i + 1;
    }
    PairCountAt(cfg, index, section, i);
    return Ok(data);
  }

  /** One pair further: its value formatted and stored under its name, or the failure that ends the loop. */
  lemma PairsStep(cfg: Config, index: nat, section: string, fmt: Fmt, init: Entries<string>, i: nat)
    requires 1 <= i < PairCount(cfg, index, section)
    requires PairsExist(cfg, index, section, i) && PairsUpTo(cfg, index, section, fmt, init, i).Ok?
    ensures PairsExist(cfg, index, section, i + 1)
    ensures PairValue(cfg, index, section, fmt, i).Ok? ==>
      PairsUpTo(cfg, index, section, fmt, init, i + 1) ==
      Ok(Put(PairsUpTo(cfg, index, section, fmt, init, i).value, PairName(cfg, index, section, i), PairValue(cfg, index, section, fmt, i).value))
    ensures PairValue(cfg, index, section, fmt, i).Err? ==>
      Pairs(cfg, index, section, fmt, init) == Err(PairValue(cfg, index, section, fmt, i).error)
  {
    PairNext(cfg, index, section, i);
    if PairValue(cfg, index, section, fmt, i).Err? {
      ErrorStays(cfg, index, section, fmt, init, i + 1, PairCount(cfg, index, section));
    }
  }

  /** Pair i is the last one before j with its name. */
  ghost predicate LastWithName(cfg: Config, index: nat, section: string, i: nat, j: nat)
    requires 1 <= i < j && PairsExist(cfg, index, section, j)
  {
    forall i' :: i < i' < j ==> PairName(cfg, index, section, i') != PairName(cfg, index, section, i)
  }

  /** Collecting succeeds exactly when every value formats. */
  lemma {:induction false} UpToOk(cfg: Config, index: nat, section: string, fmt: Fmt, init: Entries<string>, j: nat)
    requires 1 <= j && PairsExist(cfg, index, section, j)
    ensures PairsUpTo(cfg, index, section, fmt, init, j).Ok? <==>
      forall i :: 1 <= i < j ==> PairValue(cfg, index, section, fmt, i).Ok?
    decreases j
  {
    if j > 1 {
      assert PairsExist(cfg, index, section, j - 1);
      UpToOk(cfg, index, section, fmt, init, j - 1);
    }
  }

  /** A failure is the failure of the first value that does not format. */
  lemma {:induction false} UpToFirstError(cfg: Config, index: nat, section: string, fmt: Fmt, init: Entries<string>, j: nat)
    requires 1 <= j && PairsExist(cfg, index, section, j)
    requires PairsUpTo(cfg, index, section, fmt, init, j).Err?
    ensures exists i :: 1 <= i < j && PairValue(cfg, index, section, fmt, i) == Err(PairsUpTo(cfg, index, section, fmt, init, j).error) &&
              (forall i' :: 1 <= i' < i ==> PairValue(cfg, index, section, fmt, i').Ok?)
    decreases j
  {
    assert PairsExist(cfg, index, section, j - 1);
    var prev := PairsUpTo(cfg, index, section, fmt, init, j - 1);
    if prev.Err? {
      UpToFirstError(cfg, index, section, fmt, init, j - 1);
    } else {
      UpToOk(cfg, index, section, fmt, init, j - 1);
      assert PairValue(cfg, index, section, fmt, j - 1) == Err(PairsUpTo(cfg, index, section, fmt, init, j).error);
    }
  }

  /** Collecting into an array with unique keys keeps them unique. */
  lemma {:induction false} UpToUnique(cfg: Config, index: nat, section: string, fmt: Fmt, init: Entries<string>, j: nat)
    requires 1 <= j && PairsExist(cfg, index, section, j)
    requires PairsUpTo(cfg, index, section, fmt, init, j).Ok? && UniqueKeys(init)
    ensures UniqueKeys(PairsUpTo(cfg, index, section, fmt, init, j).value)
    decreases j
  {
    if j > 1 {
      assert PairsExist(cfg, index, section, j - 1);
      UpToUnique(cfg, index, section, fmt, init, j - 1);
      var acc := PairsUpTo(cfg, index, section, fmt, init, j - 1).value;
      PutUnique(acc, PairName(cfg, index, section, j - 1), PairValue(cfg, index, section, fmt, j - 1).value);
    }
  }

  /** The last pair with a given name decides its value. */
  lemma {:induction false} UpToLast(cfg: Config, index: nat, section: string, fmt: Fmt, init: Entries<string>, i: nat, j: nat)
    requires 1 <= i < j && PairsExist(cfg, index, section, j)
    requires PairsUpTo(cfg, index, section, fmt, init, j).Ok? && LastWithName(cfg, index, section, i, j)
    ensures PairValue(cfg, index, section, fmt, i).Ok?
    ensures Get(PairsUpTo(cfg, index, section, fmt, init, j).value, PairName(cfg, index, section, i)) ==
      Some(PairValue(cfg, index, section, fmt, i).value)
    decreases j
  {
    assert PairsExist(cfg, index, section, j - 1);
    var acc := PairsUpTo(cfg, index, section, fmt, init, j - 1).value;
    var name := PairName(cfg, index, section, j - 1);
    var v := PairValue(cfg, index, section, fmt, j - 1).value;
    assert PairsUpTo(cfg, index, section, fmt, init, j).value == Put(acc, name, v);
    if i == j - 1 {
      PutGet(acc, name, v);
    } else {
      assert name != PairName(cfg, index, section, i);
      PutOther(acc, name, v, PairName(cfg, index, section, i));
      assert LastWithName(cfg, index, section, i, j - 1);
      UpToLast(cfg, index, section, fmt, init, i, j - 1);
    }
  }

  /** A key that comes out of the loop was in `init` or is the name of a pair. */
  lemma {:induction false} UpToKeyFrom(cfg: Config, index: nat, section: string, fmt: Fmt, init: Entries<string>, j: nat, k: string)
    requires 1 <= j && PairsExist(cfg, index, section, j)
    requires PairsUpTo(cfg, index, section, fmt, init, j).Ok? && HasKey(PairsUpTo(cfg, index, section, fmt, init, j).value, k)
    ensures HasKey(init, k) || exists i :: 1 <= i < j && PairName(cfg, index, section, i) == k
    decreases j
  {
    if j > 1 {
      assert PairsExist(cfg, index, section, j - 1);
      var acc := PairsUpTo(cfg, index, section, fmt, init, j - 1).value;
      var name := PairName(cfg, index, section, j - 1);
      if name == k {
        assert PairName(cfg, index, section, j - 1) == k;
      } else {
        PutOther(acc, name, PairValue(cfg, index, section, fmt, j - 1).value, k);
        UpToKeyFrom(cfg, index, section, fmt, init, j - 1, k);
      }
    }
  }

  /** A key no pair names keeps what `init` gave it. */
  lemma {:induction false} UpToOther(cfg: Config, index: nat, section: string, fmt: Fmt, init: Entries<string>, j: nat, k: string)
    requires 1 <= j && PairsExist(cfg, index, section, j)
    requires PairsUpTo(cfg, index, section, fmt, init, j).Ok?
    requires forall i :: 1 <= i < j ==> PairName(cfg, index, section, i) != k
    ensures Get(PairsUpTo(cfg, index, section, fmt, init, j).value, k) == Get(init, k)
    decreases j
  {
    if j > 1 {
      assert PairsExist(cfg, index, section, j - 1);
      var acc := PairsUpTo(cfg, index, section, fmt, init, j - 1).value;
      assert PairName(cfg, index, section, j - 1) != k;
      PutOther(acc, PairName(cfg, index, section, j - 1), PairValue(cfg, index, section, fmt, j - 1).value, k);
      UpToOther(cfg, index, section, fmt, init, j - 1, k);
    }
  }

  /** When `getParams` or `getPostData` succeeds, every value was formatted and no key repeats. */
  lemma PairsFormatted(cfg: Config, index: nat, section: string, fmt: Fmt)
    requires Pairs(cfg, index, section, fmt, []).Ok?
    ensures UniqueKeys(Pairs(cfg, index, section, fmt, []).value)
    ensures forall i :: 1 <= i < PairCount(cfg, index, section) ==> PairValue(cfg, index, section, fmt, i).Ok?
  {
    var n := PairCount(cfg, index, section);
    UpToOk(cfg, index, section, fmt, [], n);
    UpToUnique(cfg, index, section, fmt, [], n);
  }

  /** Names are kept verbatim, and a name given several times keeps the value of its last pair. */
  lemma PairsLastWins(cfg: Config, index: nat, section: string, fmt: Fmt, i: nat)
    requires Pairs(cfg, index, section, fmt, []).Ok?
    requires 1 <= i < PairCount(cfg, index, section) && LastWithName(cfg, index, section, i, PairCount(cfg, index, section))
    ensures PairValue(cfg, index, section, fmt, i).Ok?
    ensures Get(Pairs(cfg, index, section, fmt, []).value, PairName(cfg, index, section, i)) ==
      Some(PairValue(cfg, index, section, fmt, i).value)
  {
    UpToLast(cfg, index, section, fmt, [], i, PairCount(cfg, index, section));
  }

  /** No key appears that is not the name of some pair. */
  lemma PairsKeys(cfg: Config, index: nat, section: string, fmt: Fmt, k: string)
    requires Pairs(cfg, index, section, fmt, []).Ok? && HasKey(Pairs(cfg, index, section, fmt, []).value, k)
    ensures exists i :: 1 <= i < PairCount(cfg, index, section) && PairName(cfg, index, section, i) == k
  {
    UpToKeyFrom(cfg, index, section, fmt, [], PairCount(cfg, index, section), k);
  }

  /** Collecting into a prepared array leaves the keys no pair names as they were. */
  lemma PairsKeepOthers(cfg: Config, index: nat, section: string, fmt: Fmt, init: Entries<string>, k: string)
    requires Pairs(cfg, index, section, fmt, init).Ok?
    requires forall i :: 1 <= i < PairCount(cfg, index, section) ==> PairName(cfg, index, section, i) != k
    ensures Get(Pairs(cfg, index, section, fmt, init).value, k) == Get(init, k)
  {
    UpToOther(cfg, index, section, fmt, init, PairCount(cfg, index, section), k);
  }

  /** The collection fails exactly when some value fails to format, with the first such failure. */
  lemma PairsFailure(cfg: Config, index: nat, section: string, fmt: Fmt, init: Entries<string>)
    ensures var n := PairCount(cfg, index, section);
      Pairs(cfg, index, section, fmt, init).Err? <==> exists i :: 1 <= i < n && PairValue(cfg, index, section, fmt, i).Err?
    ensures var n := PairCount(cfg, index, section);
      Pairs(cfg, index, section, fmt, init).Err? ==>
        exists i :: 1 <= i < n && PairValue(cfg, index, section, fmt, i) == Err(Pairs(cfg, index, section, fmt, init).error) &&
          forall i' :: 1 <= i' < i ==> PairValue(cfg, index, section, fmt, i').Ok?
  {
    var n := PairCount(cfg, index, section);
    UpToOk(cfg, index, section, fmt, init, n);
    if Pairs(cfg, index, section, fmt, init).Err? {
      UpToFirstError(cfg, index, section, fmt, init, n);
    }
  }

  /** `getParams` and `getPostData`: the collected pairs as a query string. */
  method BuildQuery(cfg: Config, index: nat, section: string, fmt: Fmt) returns (r: Result<string, FormatError>)
    ensures Pairs(cfg, index, section, fmt, []).Ok? ==> r == Ok(HttpBuildQuery(Pairs(cfg, index, section, fmt, []).value))
    ensures Pairs(cfg, index, section, fmt, []).Err? ==> r == Err(Pairs(cfg, index, section, fmt, []).error)
  {
    var data := CollectPairs(cfg, index, section, fmt);
    if data.Err? {
      return Err(data.error);
    }
    return Ok(HttpBuildQuery(data.value));
  }

  // ------------------------------------------------------------ the URL

  /** A URL cut into what precedes the query, the query and the fragment. */
  datatype Uri = Uri(head: string, query: Option<string>, fragment: Option<string>)

  function ParseUri(s: string): Uri {
    var f := Strcspn(s, '#');
    var beforeFragment := s[..f];
    var fragment := if f < |s| then Some(s[f + 1..]) else None;
    var q := Strcspn(beforeFragment, '?');
    var query := if q < |beforeFragment| then Some(beforeFragment[q + 1..]) else None;
    Uri(beforeFragment[..q], query, fragment)
  }

  function UriString(u: Uri): string {
    u.head
      + (match u.query case Some(q) => "?" + q case None => "")
      + (match u.fragment case Some(f) => "#" + f case None => "")
  }

  /** Cutting a string at the first `c` and putting `c` back gives it back. */
  lemma CutAt(s: string, c: char)
    ensures var n := Strcspn(s, c);
      if n < |s| then s == s[..n] + [c] + s[n + 1..] else s[..n] == s
  {
  }

  /** What precedes the fragment comes back from the head and the query. */
  lemma HeadQueryRoundTrip(b: string)
    ensures var q := Strcspn(b, '?');
      b[..q] + (if q < |b| then "?" + b[q + 1..] else "") == b
  {
    CutAt(b, '?');
  }

  /** Cutting a URL into its parts loses nothing. */
  lemma ParseUriRoundTrip(s: string)
    ensures UriString(ParseUri(s)) == s
  {
    var f := Strcspn(s, '#');
    var b := s[..f];
    var q := Strcspn(b, '?');
    var u := ParseUri(s);
    calc {
      UriString(u);
      u.head + (match u.query case Some(x) => "?" + x case None => "") + (match u.fragment case Some(x) => "#" + x case None => "");
      b[..q] + (if q < |b| then "?" + b[q + 1..] else "") + (if f < |s| then "#" + s[f + 1..] else "");
      { HeadQueryRoundTrip(b); }
      b + (if f < |s| then "#" + s[f + 1..] else "");
      { CutAt(s, '#'); }
      s;
    }
  }

  /** `rtrim($getParams . '&' . $query, '&')`: the new query string. */
  function MergeQuery(getParams: string, query: Option<string>): string {
    RTrimChar(getParams + "&" + query.GetOr(""), '&')
  }

  lemma RTrimCharNoTrailing(s: string, c: char)
    requires s == [] || s[|s| - 1] != c
    ensures RTrimChar(s, c) == s
  {
  }

  lemma {:induction false} RTrimCharAppend(a: string, b: string, c: char)
    requires b != [] && b[|b| - 1] != c
    ensures RTrimChar(a + b, c) == a + b
  {
  }

  /** A built query string never ends with `&`. */
  lemma BuiltQueryEnd(data: Entries<string>)
    ensures HttpBuildQuery(data) == [] || HttpBuildQuery(data)[|HttpBuildQuery(data)| - 1] != '&'
  {
    if data != [] {
      var xs := EncodePairs(data);
      var p := data[|data| - 1];
      var last := EncodePair(p);
      assert xs[|xs| - 1] == last;
      assert |last| >= 1 by {
        assert |last| == |EncodeName(p.0)| + 1 + |RawUrlEncode(p.1)|;
      }
      EncodedPair(p);
      JoinLast(xs, '&');
      assert last[|last| - 1] != '&';
    }
  }

  lemma {:induction false} JoinLast(xs: seq<string>, sep: char)
    requires |xs| >= 1 && xs[|xs| - 1] != []
    ensures Join(xs, sep) != [] && Join(xs, sep)[|Join(xs, sep)| - 1] == xs[|xs| - 1][|xs[|xs| - 1]| - 1]
    decreases |xs|
  {
    if |xs| > 1 {
      JoinLast(xs[1..], sep);
    }
  }

  /** The built parameters come first, then the URL's own query, joined by one `&`. */
  lemma MergeQueryOrder(data: Entries<string>, query: Option<string>)
    requires data != []
    requires query.Some? && query.value != [] ==> query.value[|query.value| - 1] != '&'
    ensures query.None? || query.value == [] ==> MergeQuery(HttpBuildQuery(data), query) == HttpBuildQuery(data)
    ensures query.Some? && query.value != [] ==> MergeQuery(HttpBuildQuery(data), query) == HttpBuildQuery(data) + "&" + query.value
  {
    var g := HttpBuildQuery(data);
    var xs := EncodePairs(data);
    EncodedPair(data[0]);
    assert g != [] by {
      JoinNonEmpty(xs, '&');
    }
    BuiltQueryEnd(data);
    if query.None? || query.value == [] {
      var s := g + "&" + query.GetOr("");
      assert s == g + "&";
      assert s[..|s| - 1] == g;
    }
  }

  lemma {:induction false} JoinNonEmpty(xs: seq<string>, sep: char)
    requires |xs| >= 1 && xs[0] != []
    ensures Join(xs, sep) != []
  {
  }

  /** Without GET parameters the URL's own query is kept after a leading `&`. */
  lemma MergeQueryWithoutParams(query: string)
    requires query != [] && query[|query| - 1] != '&'
    ensures MergeQuery("", Some(query)) == "&" + query
  {
    assert "" + "&" + query == "&" + query;
  }

  // --------------------------------------------------------- the request

  datatype Method = HttpGet | HttpPost

  /** The `useragent` option: absent, set to null, or a value. */
  datatype UserAgent = LibraryDefault | NoAgent | Agent(name: string)

  datatype Options = Options(verify: bool, verifyName: bool, timeout: int, userAgent: UserAgent)

  /** What `Requests::request` is called with. */
  datatype HttpRequest = HttpRequest(url: string, body: string, verb: Method, options: Options)

  datatype RequestError = BadConfig(c: ConfigError) | BadFormat(f: FormatError)

  function PostKey(index: nat): string {
    KeyOf(Pair(index, "post"), 1)
  }

  /** POST exactly when the first POST name is configured. */
  function MethodOf(cfg: Config, index: nat): (m: Method)
    ensures m == HttpPost <==> Dec(index) + ".post.1.name" in cfg
  {
    assert PostKey(index) == Dec(index) + ".post.1.name";
    if PostKey(index) in cfg then HttpPost else HttpGet
  }

  function UserAgentKey(index: nat): string {
    Dec(index) + ".user-agent"
  }

  /** An empty configured user agent sends none; a non-empty one is used; none configured leaves the library's. */
  function UserAgentOf(cfg: Config, index: nat): (ua: UserAgent)
    ensures UserAgentKey(index) !in cfg <==> ua == LibraryDefault
    ensures UserAgentKey(index) in cfg && cfg[UserAgentKey(index)] == "" <==> ua == NoAgent
    ensures ua.Agent? ==> ua.name == cfg[UserAgentKey(index)] && ua.name != ""
  {
    if UserAgentKey(index) !in cfg then LibraryDefault
    else if cfg[UserAgentKey(index)] == "" then NoAgent
    else Agent(cfg[UserAgentKey(index)])
  }

  function UrlTemplateKey(index: nat): string {
    Dec(index) + ".url"
  }

  /** The request `handleRequest` sends, or the exception that stops it first. */
  function RequestOf(cfg: Config, index: nat, fmt: Fmt): Result<HttpRequest, RequestError> {
    if UrlTemplateKey(index) !in cfg then Err(BadConfig(MissingParam(UrlTemplateKey(index))))
    else match fmt(cfg[UrlTemplateKey(index)])
      case Err(e) => Err(BadFormat(e))
      case Ok(url) =>
        match Pairs(cfg, index, "get", fmt, [])
        case Err(e) => Err(BadFormat(e))
        case Ok(getData) =>
          match Pairs(cfg, index, "post", fmt, [])
          case Err(e) => Err(BadFormat(e))
          case Ok(postData) =>
            match ParseInt(cfg, "timeout", 8)
            case Err(e) => Err(BadConfig(e))
            case Ok(timeout) =>
              var u := ParseUri(url);
              var merged := u.(query := Some(MergeQuery(HttpBuildQuery(getData), u.query)));
              Ok(HttpRequest(UriString(merged), HttpBuildQuery(postData), MethodOf(cfg, index),
                             Options(false, false, timeout, UserAgentOf(cfg, index))))
  }

  /** Lines 489-518 of src/WebGetter.php up to the call that sends the request. */
  method BuildRequest(cfg: Config, index: nat, fmt: Fmt) returns (r: Result<HttpRequest, RequestError>)
    ensures r == RequestOf(cfg, index, fmt)
  {
    var verb := if PostKey(index) in cfg then HttpPost else HttpGet;
    if UrlTemplateKey(index) !in cfg {
      return Err(BadConfig(MissingParam(UrlTemplateKey(index))));
    }
    var url := fmt(cfg[UrlTemplateKey(index)]);
    if url.Err? {
      return Err(BadFormat(url.error));
    }
    var uri := ParseUri(url.value);
    var getParams := BuildQuery(cfg, index, "get", fmt);
    if getParams.Err? {
      return Err(BadFormat(getParams.error));
    }
    var postData := BuildQuery(cfg, index, "post", fmt);
    if postData.Err? {
      return Err(BadFormat(postData.error));
    }
    var timeout := ParseInt(cfg, "timeout", 8);
    if timeout.Err? {
      return Err(BadConfig(timeout.error));
    }
    uri := uri.(query := Some(RTrimChar(getParams.value + "&" + uri.query.GetOr(""), '&')));
    var userAgent := LibraryDefault;
    if UserAgentKey(index) in cfg {
      var ua := cfg[UserAgentKey(index)];
      if ua == "" {
        userAgent := NoAgent;
      } else {
        userAgent := Agent(ua);
      }
    }
    var options := Options(false, false, timeout.value, userAgent);
    return Ok(HttpRequest(UriString(uri), postData.value, verb, options));
  }

  /** The fixed options: no certificate or host-name check, and a timeout of 8 unless configured. */
  lemma RequestOptions(cfg: Config, index: nat, fmt: Fmt)
    requires RequestOf(cfg, index, fmt).Ok?
    ensures var o := RequestOf(cfg, index, fmt).value.options;
      && !o.verify && !o.verifyName
      && ("timeout" !in cfg ==> o.timeout == 8)
      && o.userAgent == UserAgentOf(cfg, index)
    ensures RequestOf(cfg, index, fmt).value.verb == HttpPost <==> Dec(index) + ".post.1.name" in cfg
  {
  }

  // ----------------------------------------------------- legacy variant

  /** The options `_prepareRequest` passes to `HTTP_Request2`. */
  datatype LegacyOptions = LegacyOptions(
    followRedirects: bool, sslVerifyPeer: bool, sslVerifyHost: bool, timeout: int, connectTimeout: int)

  /** What an `HTTP_Request2` holds once prepared: URL, method, options, cookie jar, query variables, POST parameters. */
  datatype LegacyDescriptor = LegacyDescriptor(
    url: string, verb: Method, options: LegacyOptions, cookieJar: bool,
    queryVariables: Entries<string>, postParameters: Entries<string>)

  class LegacyRequest {
    var url: string
    var verb: Method
    var options: LegacyOptions
    var cookieJar: bool
    /** Variables set on the URL with `setQueryVariable`. */
    var queryVariables: Entries<string>
    /** Parameters added with `addPostParameter`. */
    var postParameters: Entries<string>

    constructor (url: string, verb: Method, options: LegacyOptions)
      ensures this.url == url && this.verb == verb && this.options == options
      ensures !cookieJar && queryVariables == [] && postParameters == []
    {
      this.url := url;
      this.verb := verb;
      this.options := options;
      cookieJar := false;
      queryVariables := [];
      postParameters := [];
    }

    /** The request as it would be sent. */
    function Descriptor(): LegacyDescriptor
      reads this
    {
      LegacyDescriptor(url, verb, options, cookieJar, queryVariables, postParameters)
    }

    method SetCookieJar()
      modifies this
      ensures cookieJar
      ensures url == old(url) && verb == old(verb) && options == old(options)
      ensures queryVariables == old(queryVariables) && postParameters == old(postParameters)
    {
      cookieJar := true;
    }

    /** `_addGetParams`: each pair is set as a query variable of the URL. */
    method AddGetParams(cfg: Config, index: nat, fmt: Fmt) returns (r: Result<(), FormatError>)
      modifies this
      ensures Pairs(cfg, index, "get", fmt, old(queryVariables)).Ok? ==>
        r.Ok? && queryVariables == Pairs(cfg, index, "get", fmt, old(queryVariables)).value
      ensures Pairs(cfg, index, "get", fmt, old(queryVariables)).Err? ==>
        r == Err(Pairs(cfg, index, "get", fmt, old(queryVariables)).error)
      ensures url == old(url) && verb == old(verb) && options == old(options)
      ensures cookieJar == old(cookieJar) && postParameters == old(postParameters)
    {
      ghost var init := queryVariables;
      ghost var n := PairCount(cfg, index, "get");
      var i := 1;
      while KeyOf(Pair(index, "get"), i) in cfg && ValueKey(index, "get", i) in cfg
        invariant 1 <= i <= n
        invariant PairsUpTo(cfg, index, "get", fmt, init, i) == Ok(queryVariables)
        invariant url == old(url) && verb == old(verb) && options == old(options)
        invariant cookieJar == old(cookieJar) && postParameters == old(postParameters)
        decreases n - i
      {
        assert i != n;
        var name := cfg[KeyOf(Pair(index, "get"), i)];
        var value := fmt(cfg[ValueKey(index, "get", i)]);
        PairsStep(cfg, index, "get", fmt, init, i);
        if value.Err? {
          return Err(value.error);
        }
        queryVariables := Put(queryVariables, name, value.value);
        i := i + 1;
      }
      PairCountAt(cfg, index, "get", i);
      return Ok(());
    }

    /** `_addPostParams`: each pair is added as a POST parameter. */
    method AddPostParams(cfg: Config, index: nat, fmt: Fmt) returns (r: Result<(), FormatError>)
      modifies this
      ensures Pairs(cfg, index, "post", fmt, old(postParameters)).Ok? ==>
        r.Ok? && postParameters == Pairs(cfg, index, "post", fmt, old(postParameters)).value
      ensures Pairs(cfg, index, "post", fmt, old(postParameters)).Err? ==>
        r == Err(Pairs(cfg, index, "post", fmt, old(postParameters)).error)
      ensures url == old(url) && verb == old(verb) && options == old(options)
      ensures cookieJar == old(cookieJar) && queryVariables == old(queryVariables)
    {
      ghost var init := postParameters;
      ghost var n := PairCount(cfg, index, "post");
      var i := 1;
      while KeyOf(Pair(index, "post"), i) in cfg && ValueKey(index, "post", i) in cfg
        invariant 1 <= i <= n
        invariant PairsUpTo(cfg, index, "post", fmt, init, i) == Ok(postParameters)
        invariant url == old(url) && verb == old(verb) && options == old(options)
        invariant cookieJar == old(cookieJar) && queryVariables == old(queryVariables)
        decreases n - i
      {
        assert i != n;
        var name := cfg[KeyOf(Pair(index, "post"), i)];
        var value := fmt(cfg[ValueKey(index, "post", i)]);
        PairsStep(cfg, index, "post", fmt, init, i);
        if value.Err? {
          return Err(value.error);
        }
        postParameters := Put(postParameters, name, value.value);
        i := i + 1;
      }
      PairCountAt(cfg, index, "post", i);
      return Ok(());
    }
  }

  /** The options of `_prepareRequest`: redirects followed, no peer or host check, timeouts 8 and 3 unless configured. */
  function LegacyOptionsOf(cfg: Config): (r: Result<LegacyOptions, ConfigError>)
    ensures r.Ok? ==> r.value.followRedirects && !r.value.sslVerifyPeer && !r.value.sslVerifyHost
    ensures r.Ok? && "timeout" !in cfg ==> r.value.timeout == 8
    ensures r.Ok? && "conn_timeout" !in cfg ==> r.value.connectTimeout == 3
    ensures "timeout" !in cfg && "conn_timeout" !in cfg ==> r == Ok(LegacyOptions(true, false, false, 8, 3))
  {
    match ParseInt(cfg, "timeout", 8)
    case Err(e) => Err(e)
    case Ok(timeout) =>
      match ParseInt(cfg, "conn_timeout", 3)
      case Err(e) => Err(e)
      case Ok(connectTimeout) => Ok(LegacyOptions(true, false, false, timeout, connectTimeout))
  }

  /** `_prepareRequest`: the request for the formatted URL, with the fixed options and a cookie jar. */
  method PrepareLegacyRequest(cfg: Config, index: nat, fmt: Fmt, verb: Method) returns (r: Result<LegacyRequest, RequestError>)
    ensures UrlTemplateKey(index) !in cfg ==> r == Err(BadConfig(MissingParam(UrlTemplateKey(index))))
    ensures UrlTemplateKey(index) in cfg && fmt(cfg[UrlTemplateKey(index)]).Err? ==>
      r == Err(BadFormat(fmt(cfg[UrlTemplateKey(index)]).error))
    ensures UrlTemplateKey(index) in cfg && fmt(cfg[UrlTemplateKey(index)]).Ok? && LegacyOptionsOf(cfg).Err? ==>
      r == Err(BadConfig(LegacyOptionsOf(cfg).error))
    ensures UrlTemplateKey(index) in cfg && fmt(cfg[UrlTemplateKey(index)]).Ok? && LegacyOptionsOf(cfg).Ok? ==> r.Ok?
    ensures r.Ok? ==>
      && UrlTemplateKey(index) in cfg
      && fresh(r.value)
      && Ok(r.value.url) == fmt(cfg[UrlTemplateKey(index)])
      && r.value.verb == verb
      && Ok(r.value.options) == LegacyOptionsOf(cfg)
      && r.value.cookieJar
      && r.value.queryVariables == [] && r.value.postParameters == []
  {
    if UrlTemplateKey(index) !in cfg {
      return Err(BadConfig(MissingParam(UrlTemplateKey(index))));
    }
    var url := fmt(cfg[UrlTemplateKey(index)]);
    if url.Err? {
      return Err(BadFormat(url.error));
    }
    var options := LegacyOptionsOf(cfg);
    if options.Err? {
      return Err(BadConfig(options.error));
    }
    var request := new LegacyRequest(url.value, verb, options.value);
    request.SetCookieJar();
    return Ok(request);
  }

  /** The request the legacy `handleRequest` sends, or the exception that stops it first. */
  function LegacyRequestOf(cfg: Config, index: nat, fmt: Fmt): Result<LegacyDescriptor, RequestError> {
    if UrlTemplateKey(index) !in cfg then Err(BadConfig(MissingParam(UrlTemplateKey(index))))
    else match fmt(cfg[UrlTemplateKey(index)])
      case Err(e) => Err(BadFormat(e))
      case Ok(url) =>
        match LegacyOptionsOf(cfg)
        case Err(e) => Err(BadConfig(e))
        case Ok(options) =>
          match Pairs(cfg, index, "get", fmt, [])
          case Err(e) => Err(BadFormat(e))
          case Ok(query) =>
            match Pairs(cfg, index, "post", fmt, [])
            case Err(e) => Err(BadFormat(e))
            case Ok(post) => Ok(LegacyDescriptor(url, MethodOf(cfg, index), options, true, query, post))
  }

  /** Lines 497-505 of src/Erebot/Module/WebGetter.php: `_prepareRequest`, then the GET and the POST pairs. */
  method BuildLegacyRequest(cfg: Config, index: nat, fmt: Fmt) returns (r: Result<LegacyRequest, RequestError>)
    ensures r.Ok? ==> fresh(r.value) && LegacyRequestOf(cfg, index, fmt) == Ok(r.value.Descriptor())
    ensures r.Err? ==> LegacyRequestOf(cfg, index, fmt) == Err(r.error)
  {
    var verb := if PostKey(index) in cfg then HttpPost else HttpGet;
    var prepared := PrepareLegacyRequest(cfg, index, fmt, verb);
    if prepared.Err? {
      return Err(prepared.error);
    }
    var request := prepared.value;
    var added := request.AddGetParams(cfg, index, fmt);
    if added.Err? {
      return Err(BadFormat(added.error));
    }
    added := request.AddPostParams(cfg, index, fmt);
    if added.Err? {
      return Err(BadFormat(added.error));
    }
    return Ok(request);
  }

  /**
   * The legacy request: the formatted URL, POST exactly when `post.1.name`
   * is configured, redirects followed, no peer or host check, a cookie jar,
   * and the pairs as query variables and POST parameters.
   */
  lemma LegacyRequestShape(cfg: Config, index: nat, fmt: Fmt)
    requires LegacyRequestOf(cfg, index, fmt).Ok?
    ensures var d := LegacyRequestOf(cfg, index, fmt).value;
      && UrlTemplateKey(index) in cfg && fmt(cfg[UrlTemplateKey(index)]) == Ok(d.url)
      && (d.verb == HttpPost <==> Dec(index) + ".post.1.name" in cfg)
      && d.options.followRedirects && !d.options.sslVerifyPeer && !d.options.sslVerifyHost
      && ("timeout" !in cfg ==> d.options.timeout == 8)
      && ("conn_timeout" !in cfg ==> d.options.connectTimeout == 3)
      && d.cookieJar
      && Pairs(cfg, index, "get", fmt, []) == Ok(d.queryVariables)
      && Pairs(cfg, index, "post", fmt, []) == Ok(d.postParameters)
  {
  }
}
