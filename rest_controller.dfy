/** `RestController`: content negotiation from the Accept header, the body
    parser chosen by the Content-Type, the retargeting of the action name to
    the HTTP method, and the status line table. */
module Rest {
  import opened Wrappers
  import opened PhpStrings

  // ---------------------------------------------------------------------
  // accept(): the client's preference list
  // ---------------------------------------------------------------------

  /** One entry of the array `accept()` returns: a media type and its priority,
      the q-value of section 5.3.1 of RFC 7231 scaled by 1000. */
  datatype Pref = Pref(mime: string, priority: int)

  /** `$q = 1`, the priority of an entry without a q-value. */
  const DefaultPriority := 1000

  /** The media types of a preference list. */
  function Mimes(s: seq<Pref>): set<string> {
    set p | p in s :: p.mime
  }

  /** A PHP array has each key once. */
  predicate UniqueMimes(s: seq<Pref>) {
    forall i, j :: 0 <= i < j < |s| ==> s[i].mime != s[j].mime
  }

  /** Sorted from the highest priority down. */
  predicate NonIncreasing(s: seq<Pref>) {
    forall i, j :: 0 <= i < j < |s| ==> s[i].priority >= s[j].priority
  }

  /** `explode(',', strtolower(str_replace(' ', '', $header)))`. */
  function Tokens(header: string): (tokens: seq<string>)
    ensures |tokens| >= 1
    ensures forall i :: 0 <= i < |tokens| ==> ',' !in tokens[i]
    ensures Join(tokens, ',') == Lower(RemoveChar(header, ' '))
  {
    var s := Lower(RemoveChar(header, ' '));
    JoinExplode(s, ',');
    Explode(s, ',')
  }

  /** The second piece of `explode(';q=', $a)`, given what follows the first
      marker: everything up to the next marker, or to the end. */
  function QField(rest: string): (q: string)
    ensures q <= rest
    ensures Find(q, ";q=").None?
    ensures Find(rest, ";q=").None? ==> q == rest
    // the q-text stops right before the next marker
    ensures Find(rest, ";q=").Some? ==> q == rest[..Find(rest, ";q=").value]
  {
    match Find(rest, ";q=")
    case Some(j) =>
      FindInPrefix(rest, ";q=", j);
      rest[..j]
    case None => rest
  }

  /** One pass of the loop body of `accept()`: the entry `a` becomes
      `mime => q`, where `parseQ` reads a q-value as an integer priority. */
  function ParseEntry(a: string, parseQ: string -> int): (e: Pref)
    // `strpos` finds the marker at a position > 0: the type is what precedes
    // the first marker, the priority what follows it up to the next marker
    ensures var p := Find(a, ";q=");
      p.Some? && p.value > 0 ==>
        e.mime == a[..p.value] && e.priority == parseQ(QField(a[p.value + 3..]))
    // otherwise the whole entry is the type, with the default priority
    ensures var p := Find(a, ";q=");
      !(p.Some? && p.value > 0) ==> e == Pref(a, DefaultPriority)
  {
    var p := Find(a, ";q=");
    if p.Some? && p.value > 0 then
      Pref(a[..p.value], parseQ(QField(a[p.value + 3..])))
    else
      Pref(a, DefaultPriority)
  }

  /** The first index holding `mime`. */
  function IndexOfMime(types: seq<Pref>, mime: string): (r: Option<nat>)
    ensures r.Some? ==> r.value < |types| && types[r.value].mime == mime
    ensures r.None? <==> mime !in Mimes(types)
    decreases |types|
  {
    if |types| == 0 then None
    else if types[0].mime == mime then Some(0)
    else
      match IndexOfMime(types[1..], mime)
      case Some(i) => Some(i + 1)
      case None =>
        assert types == [types[0]] + types[1..];
        None
  }

  /** `$aTypes[$a] = $q`: a known media type keeps its position and takes the
      new priority; a new one is appended. */
  function Register(types: seq<Pref>, e: Pref): (r: seq<Pref>)
    ensures e in r
    ensures Mimes(r) == Mimes(types) + {e.mime}
    ensures forall p :: p in types && p.mime != e.mime ==> p in r
    ensures UniqueMimes(types) ==> UniqueMimes(r)
    ensures UniqueMimes(types) ==>
      forall i :: 0 <= i < |types| && types[i].mime == e.mime ==> r == types[i := e]
    ensures e.mime !in Mimes(types) ==> r == types + [e]
  {
    match IndexOfMime(types, e.mime)
    case Some(i) =>
      var r := types[i := e];
      assert r[i] == e;
      assert forall p :: p in types && p.mime != e.mime ==> p in r by {
        forall p | p in types && p.mime != e.mime ensures p in r {
          var k :| 0 <= k < |types| && types[k] == p;
          assert r[k] == p;
        }
      }
      assert Mimes(r) == Mimes(types) + {e.mime} by {
        forall m | m in Mimes(types) ensures m in Mimes(r) {
          var p :| p in types && p.mime == m;
          if m != e.mime { assert p in r; } else { assert r[i] == e; }
        }
        forall m | m in Mimes(r) ensures m in Mimes(types) + {e.mime} {
          var p :| p in r && p.mime == m;
          var k :| 0 <= k < |r| && r[k] == p;
          if k != i { assert types[k] == p; }
        }
      }
      r
    case None =>
      var r := types + [e];
      assert Mimes(r) == Mimes(types) + {e.mime} by {
        forall m | m in Mimes(r) ensures m in Mimes(types) + {e.mime} {
          var p :| p in r && p.mime == m;
          var k :| 0 <= k < |r| && r[k] == p;
          if k < |types| { assert types[k] == p; }
        }
      }
      r
  }

  /** The array the loop of `accept()` has built after reading `tokens`. */
  function Collect(tokens: seq<string>, parseQ: string -> int): (r: seq<Pref>)
    ensures UniqueMimes(r)
    ensures Mimes(r) == set a | a in tokens :: ParseEntry(a, parseQ).mime
    decreases |tokens|
  {
    if |tokens| == 0 then []
    else
      var init := tokens[..|tokens| - 1];
      var last := tokens[|tokens| - 1];
      assert tokens == init + [last];
      assert (set a | a in tokens :: ParseEntry(a, parseQ).mime)
          == (set a | a in init :: ParseEntry(a, parseQ).mime) + {ParseEntry(last, parseQ).mime};
      Register(Collect(init, parseQ), ParseEntry(last, parseQ))
  }

  /** A repeated media type takes the priority of its last entry: the last
      entry for a type is what the array holds for it. */
  lemma {:induction false} CollectLastWins(tokens: seq<string>, parseQ: string -> int, k: nat)
    requires k < |tokens|
    requires forall j :: k < j < |tokens| ==>
      ParseEntry(tokens[j], parseQ).mime != ParseEntry(tokens[k], parseQ).mime
    ensures ParseEntry(tokens[k], parseQ) in Collect(tokens, parseQ)
    decreases |tokens|
  {
    var init := tokens[..|tokens| - 1];
    if k < |tokens| - 1 {
      assert forall j :: k < j < |init| ==> init[j] == tokens[j];
      CollectLastWins(init, parseQ, k);
      assert init[k] == tokens[k];
    }
  }

  lemma MimesCons(p: Pref, s: seq<Pref>)
    ensures Mimes([p] + s) == Mimes(s) + {p.mime}
  {
    assert forall x :: x in [p] + s <==> x == p || x in s;
  }

  lemma UniqueCons(p: Pref, s: seq<Pref>)
    ensures UniqueMimes([p] + s) <==> UniqueMimes(s) && p.mime !in Mimes(s)
  {
    var r := [p] + s;
    assert forall k :: 0 <= k < |s| ==> r[k + 1] == s[k];
    if UniqueMimes(r) {
      forall x | x in s ensures x.mime != p.mime {
        var k :| 0 <= k < |s| && s[k] == x;
        assert r[0] == p && r[k + 1] == x;
      }
    }
    if UniqueMimes(s) && p.mime !in Mimes(s) {
      forall i, j | 0 <= i < j < |r| ensures r[i].mime != r[j].mime {
        if i == 0 { assert r[j] in s; }
      }
    }
  }

  lemma NonIncreasingCons(p: Pref, s: seq<Pref>)
    requires NonIncreasing(s)
    requires forall i :: 0 <= i < |s| ==> p.priority >= s[i].priority
    ensures NonIncreasing([p] + s)
  {
    var r := [p] + s;
    forall i, j | 0 <= i < j < |r| ensures r[i].priority >= r[j].priority {
      if i == 0 { assert r[j] == s[j - 1]; }
      else { assert r[i] == s[i - 1] && r[j] == s[j - 1]; }
    }
  }

  /** Equal multisets of entries have the same media types. */
  lemma MimesOfMultiset(a: seq<Pref>, b: seq<Pref>)
    requires multiset(a) == multiset(b)
    ensures Mimes(a) == Mimes(b)
  {
    forall p ensures p in a <==> p in b {
      assert p in a <==> p in multiset(a);
      assert p in b <==> p in multiset(b);
    }
  }

  /** A bound on every entry of `s` and on `e` bounds every entry of a
      sequence holding the entries of `s` and `e`. */
  lemma BoundedAbove(b: int, s: seq<Pref>, t: seq<Pref>, e: Pref)
    requires multiset(t) == multiset(s) + multiset{e}
    requires forall i :: 0 <= i < |s| ==> s[i].priority <= b
    requires e.priority <= b
    ensures forall i :: 0 <= i < |t| ==> b >= t[i].priority
  {
    forall i | 0 <= i < |t| ensures b >= t[i].priority {
      assert t[i] in multiset(t);
      if t[i] != e {
        assert t[i] in multiset(s);
        var k :| 0 <= k < |s| && s[k] == t[i];
      }
    }
  }

  /** Inserting one entry into a list sorted by priority, before every entry
      of equal or lower priority: the entries of `s` and `e`, nothing else. */
  function InsertByPriority(e: Pref, s: seq<Pref>): (r: seq<Pref>)
    ensures multiset(r) == multiset(s) + multiset{e}
    decreases |s|
  {
    if |s| == 0 || e.priority >= s[0].priority then
      [e] + s
    else
      assert s == [s[0]] + s[1..];
      [s[0]] + InsertByPriority(e, s[1..])
  }

  /** Inserting into a sorted list keeps it sorted. */
  lemma {:induction false} InsertKeepsOrder(e: Pref, s: seq<Pref>)
    requires NonIncreasing(s)
    ensures NonIncreasing(InsertByPriority(e, s))
    decreases |s|
  {
    if |s| == 0 || e.priority >= s[0].priority {
      forall i | 0 <= i < |s| ensures e.priority >= s[i].priority {
        assert s[0].priority >= s[i].priority;
      }
      NonIncreasingCons(e, s);
    } else {
      assert s == [s[0]] + s[1..];
      var rest := InsertByPriority(e, s[1..]);
      InsertKeepsOrder(e, s[1..]);
      forall i | 0 <= i < |s[1..]| ensures s[1..][i].priority <= s[0].priority {
        assert s[1..][i] == s[i + 1];
      }
      BoundedAbove(s[0].priority, s[1..], rest, e);
      NonIncreasingCons(s[0], rest);
    }
  }

  /** Inserting an entry of a new media type keeps the types distinct. */
  lemma {:induction false} InsertKeepsUnique(e: Pref, s: seq<Pref>)
    requires UniqueMimes(s) && e.mime !in Mimes(s)
    ensures UniqueMimes(InsertByPriority(e, s))
    decreases |s|
  {
    if |s| == 0 || e.priority >= s[0].priority {
      UniqueCons(e, s);
    } else {
      assert s == [s[0]] + s[1..];
      var rest := InsertByPriority(e, s[1..]);
      UniqueCons(s[0], s[1..]);
      MimesCons(s[0], s[1..]);
      InsertKeepsUnique(e, s[1..]);
      assert multiset(rest) == multiset(s[1..] + [e]);
      MimesOfMultiset(rest, s[1..] + [e]);
      assert Mimes(s[1..] + [e]) == Mimes(s[1..]) + {e.mime} by {
        MimesCons(e, s[1..]);
        assert multiset(s[1..] + [e]) == multiset([e] + s[1..]);
        MimesOfMultiset(s[1..] + [e], [e] + s[1..]);
      }
      UniqueCons(s[0], rest);
    }
  }

  /** `arsort($aTypes)`: the same entries (`multiset`), ordered by
      non-increasing priority; entries of equal priority keep their order. */
  function SortByPriority(s: seq<Pref>): (r: seq<Pref>)
    ensures multiset(r) == multiset(s)
    decreases |s|
  {
    if |s| == 0 then []
    else
      assert s == [s[0]] + s[1..];
      InsertByPriority(s[0], SortByPriority(s[1..]))
  }

  /** The sorted array is sorted by priority. */
  lemma {:induction false} SortIsOrdered(s: seq<Pref>)
    ensures NonIncreasing(SortByPriority(s))
    decreases |s|
  {
    if |s| > 0 {
      SortIsOrdered(s[1..]);
      InsertKeepsOrder(s[0], SortByPriority(s[1..]));
    }
  }

  /** Sorting neither adds, drops nor duplicates a media type. */
  lemma {:induction false} SortKeepsMimes(s: seq<Pref>)
    ensures Mimes(SortByPriority(s)) == Mimes(s)
    ensures UniqueMimes(s) ==> UniqueMimes(SortByPriority(s))
    decreases |s|
  {
    MimesOfMultiset(SortByPriority(s), s);
    if |s| > 0 && UniqueMimes(s) {
      assert s == [s[0]] + s[1..];
      UniqueCons(s[0], s[1..]);
      SortKeepsMimes(s[1..]);
      InsertKeepsUnique(s[0], SortByPriority(s[1..]));
    }
  }

  /** What `accept()` returns for the header `header`. */
  function Preferences(header: string, parseQ: string -> int): (r: seq<Pref>)
    ensures NonIncreasing(r)
    ensures UniqueMimes(r)
    ensures multiset(r) == multiset(Collect(Tokens(header), parseQ))
  {
    var c := Collect(Tokens(header), parseQ);
    SortIsOrdered(c);
    SortKeepsMimes(c);
    SortByPriority(c)
  }

  /** `RestController::accept()`, with `$_SERVER['HTTP_ACCEPT']` passed in. */
  method Accept(header: string, parseQ: string -> int) returns (types: seq<Pref>)
    ensures types == Preferences(header, parseQ)
    ensures NonIncreasing(types)
    ensures UniqueMimes(types)
    ensures multiset(types) == multiset(Collect(Tokens(header), parseQ))
    ensures Mimes(types) == set a | a in Tokens(header) :: ParseEntry(a, parseQ).mime
  {
    var accept := Tokens(header);
    var aTypes: seq<Pref> := [];
    for i := 0 to |accept|
      invariant aTypes == Collect(accept[..i], parseQ)
    {
      var a := accept[i];
      var e := ParseEntry(a, parseQ);
      assert accept[..i + 1][..i] == accept[..i];
      aTypes := Register(aTypes, e);
    }
    assert accept[..|accept|] == accept;
    types := SortByPriority(aTypes);
    SortIsOrdered(aTypes);
    SortKeepsMimes(aTypes);
  }

  // ---------------------------------------------------------------------
  // Output format
  // ---------------------------------------------------------------------

  /** The default `_outputType` registry: media type to view template. */
  const DefaultOutputType: map<string, string> := map[
    "application/json" := "json",
    "application/xml" := "xml",
    "text/xml" := "xml",
    "text/csv" := "csv"]

  /** Entry `i` is the first of `accepted` whose type is registered. */
  predicate FirstRegistered(accepted: seq<Pref>, outputType: map<string, string>, i: int) {
    && 0 <= i < |accepted|
    && accepted[i].mime in outputType
    && forall j :: 0 <= j < i ==> accepted[j].mime !in outputType
  }

  /** `empty($f) ? 'json' : $f`. */
  function OrJson(f: string): (r: string)
    ensures !Empty(r)
    ensures Empty(f) ==> r == "json"
    ensures !Empty(f) ==> r == f
  {
    if Empty(f) then "json" else f
  }

  /** The output-format part of `initREST`: the first accepted type that is a
      key of `outputType` picks the format, else the current one stays; an
      empty result becomes "json". */
  method NegotiateOutput(accepted: seq<Pref>, outputType: map<string, string>, current: string)
    returns (format: string)
    ensures !Empty(format)
    ensures forall i :: FirstRegistered(accepted, outputType, i) ==>
      format == OrJson(outputType[accepted[i].mime])
    ensures (forall j :: 0 <= j < |accepted| ==> accepted[j].mime !in outputType) ==>
      format == OrJson(current)
    ensures outputType == DefaultOutputType && Empty(current) ==> format in {"json", "xml", "csv"}
  {
    format := current;
    var i := 0;
    while i < |accepted|
      invariant 0 <= i <= |accepted|
      invariant forall j :: 0 <= j < i ==> accepted[j].mime !in outputType
      invariant format == current
    {
      if accepted[i].mime in outputType {
        format := outputType[accepted[i].mime];
        assert FirstRegistered(accepted, outputType, i);
        break;
      }
      i := i + 1;
    }
    if Empty(format) {
      format := "json";
    }
  }

  // ---------------------------------------------------------------------
  // setCode()
  // ---------------------------------------------------------------------

  // The status table of `setCode`: section 6 of RFC 7231, with 422 and 423
  // from section 11 of RFC 4918, grouped by class as `setCode` groups it.

  /** The 1xx entries of the table. */
  const Informational: map<int, string> := map[
    100 := "100 Continue",
    101 := "101 Switching Protocols"]

  /** The 2xx entries of the table. */
  const Successful: map<int, string> := map[
    200 := "200 OK",
    201 := "201 Created",
    202 := "202 Accepted",
    203 := "203 Non-Authoritative Information",
    204 := "204 No Content",
    205 := "205 Reset Content",
    206 := "206 Partial Content"]

  /** The 3xx entries of the table. */
  const Redirection: map<int, string> := map[
    300 := "300 Multiple Choices",
    301 := "301 Moved Permanently",
    302 := "302 Found",
    303 := "303 See Other",
    304 := "304 Not Modified",
    305 := "305 Use Proxy",
    306 := "306 (Unused)",
    307 := "307 Temporary Redirect"]

  /** The 4xx entries of the table. */
  const ClientError: map<int, string> := map[
    400 := "400 Bad Request",
    401 := "401 Unauthorized",
    402 := "402 Payment Required",
    403 := "403 Forbidden",
    404 := "404 Not Found",
    405 := "405 Method Not Allowed",
    406 := "406 Not Acceptable",
    407 := "407 Proxy Authentication Required",
    408 := "408 Request Timeout",
    409 := "409 Conflict",
    410 := "410 Gone",
    411 := "411 Length Required",
    412 := "412 Precondition Failed",
    413 := "413 Request Entity Too Large",
    414 := "414 Request-URI Too Long",
    415 := "415 Unsupported Media Type",
    416 := "416 Requested Range Not Satisfiable",
    417 := "417 Expectation Failed",
    422 := "422 Unprocessable Entity",
    423 := "423 Locked"]

  /** The 5xx entries of the table. */
  const ServerError: map<int, string> := map[
    500 := "500 Internal Server Error",
    501 := "501 Not Implemented",
    502 := "502 Bad Gateway",
    503 := "503 Service Unavailable",
    504 := "504 Gateway Timeout",
    505 := "505 HTTP Version Not Supported"]

  /** The whole status table of `setCode`. */
  const StatusTable: map<int, string> :=
    Informational + Successful + Redirection + ClientError + ServerError

  /** The table value `v` for code `n` begins with `n` printed in decimal and a space. */
  predicate StartsWithCode(n: int, v: string) {
    n >= 0 && |v| > 4 && v[..4] == DecimalString(n) + " "
  }

  lemma InformationalCodes(n: int)
    requires n in Informational
    ensures n in {100, 101}
  {
  }

  lemma RepeatsCode100To101(n: int)
    requires n in {100, 101}
    ensures StartsWithCode(n, Informational[n])
  {
    if n == 100 {
      assert Informational[100] == "100 Continue";
      assert DecimalString(100) == "100";
    } else if n == 101 {
      assert Informational[101] == "101 Switching Protocols";
      assert DecimalString(101) == "101";
    }
  }

  lemma SuccessfulCodes(n: int)
    requires n in Successful
    ensures n in {200, 201, 202, 203, 204, 205, 206}
  {
  }

  lemma RepeatsCode200To203(n: int)
    requires n in {200, 201, 202, 203}
    ensures StartsWithCode(n, Successful[n])
  {
    if n == 200 {
      assert Successful[200] == "200 OK";
      assert DecimalString(200) == "200";
    } else if n == 201 {
      assert Successful[201] == "201 Created";
      assert DecimalString(201) == "201";
    } else if n == 202 {
      assert Successful[202] == "202 Accepted";
      assert DecimalString(202) == "202";
    } else if n == 203 {
      assert Successful[203] == "203 Non-Authoritative Information";
      assert DecimalString(203) == "203";
    }
  }

  lemma RepeatsCode204To206(n: int)
    requires n in {204, 205, 206}
    ensures StartsWithCode(n, Successful[n])
  {
    if n == 204 {
      assert Successful[204] == "204 No Content";
      assert DecimalString(204) == "204";
    } else if n == 205 {
      assert Successful[205] == "205 Reset Content";
      assert DecimalString(205) == "205";
    } else if n == 206 {
      assert Successful[206] == "206 Partial Content";
      assert DecimalString(206) == "206";
    }
  }

  lemma RedirectionCodes(n: int)
    requires n in Redirection
    ensures n in {300, 301, 302, 303, 304, 305, 306, 307}
  {
  }

  lemma RepeatsCode300To303(n: int)
    requires n in {300, 301, 302, 303}
    ensures StartsWithCode(n, Redirection[n])
  {
    if n == 300 {
      assert Redirection[300] == "300 Multiple Choices";
      assert DecimalString(300) == "300";
    } else if n == 301 {
      assert Redirection[301] == "301 Moved Permanently";
      assert DecimalString(301) == "301";
    } else if n == 302 {
      assert Redirection[302] == "302 Found";
      assert DecimalString(302) == "302";
    } else if n == 303 {
      assert Redirection[303] == "303 See Other";
      assert DecimalString(303) == "303";
    }
  }

  lemma RepeatsCode304To307(n: int)
    requires n in {304, 305, 306, 307}
    ensures StartsWithCode(n, Redirection[n])
  {
    if n == 304 {
      assert Redirection[304] == "304 Not Modified";
      assert DecimalString(304) == "304";
    } else if n == 305 {
      assert Redirection[305] == "305 Use Proxy";
      assert DecimalString(305) == "305";
    } else if n == 306 {
      assert Redirection[306] == "306 (Unused)";
      assert DecimalString(306) == "306";
    } else if n == 307 {
      assert Redirection[307] == "307 Temporary Redirect";
      assert DecimalString(307) == "307";
    }
  }

  lemma ClientErrorCodes(n: int)
    requires n in ClientError
    ensures n in {400, 401, 402, 403, 404, 405, 406, 407, 408, 409, 410, 411, 412, 413, 414, 415, 416, 417, 422, 423}
  {
  }

  lemma RepeatsCode400To403(n: int)
    requires n in {400, 401, 402, 403}
    ensures StartsWithCode(n, ClientError[n])
  {
    if n == 400 {
      assert ClientError[400] == "400 Bad Request";
      assert DecimalString(400) == "400";
    } else if n == 401 {
      assert ClientError[401] == "401 Unauthorized";
      assert DecimalString(401) == "401";
    } else if n == 402 {
      assert ClientError[402] == "402 Payment Required";
      assert DecimalString(402) == "402";
    } else if n == 403 {
      assert ClientError[403] == "403 Forbidden";
      assert DecimalString(403) == "403";
    }
  }

  lemma RepeatsCode404To407(n: int)
    requires n in {404, 405, 406, 407}
    ensures StartsWithCode(n, ClientError[n])
  {
    if n == 404 {
      assert ClientError[404] == "404 Not Found";
      assert DecimalString(404) == "404";
    } else if n == 405 {
      assert ClientError[405] == "405 Method Not Allowed";
      assert DecimalString(405) == "405";
    } else if n == 406 {
      assert ClientError[406] == "406 Not Acceptable";
      assert DecimalString(406) == "406";
    } else if n == 407 {
      assert ClientError[407] == "407 Proxy Authentication Required";
      assert DecimalString(407) == "407";
    }
  }

  lemma RepeatsCode408To411(n: int)
    requires n in {408, 409, 410, 411}
    ensures StartsWithCode(n, ClientError[n])
  {
    if n == 408 {
      assert ClientError[408] == "408 Request Timeout";
      assert DecimalString(408) == "408";
    } else if n == 409 {
      assert ClientError[409] == "409 Conflict";
      assert DecimalString(409) == "409";
    } else if n == 410 {
      assert ClientError[410] == "410 Gone";
      assert DecimalString(410) == "410";
    } else if n == 411 {
      assert ClientError[411] == "411 Length Required";
      assert DecimalString(411) == "411";
    }
  }

  lemma RepeatsCode412To415(n: int)
    requires n in {412, 413, 414, 415}
    ensures StartsWithCode(n, ClientError[n])
  {
    if n == 412 {
      assert ClientError[412] == "412 Precondition Failed";
      assert DecimalString(412) == "412";
    } else if n == 413 {
      assert ClientError[413] == "413 Request Entity Too Large";
      assert DecimalString(413) == "413";
    } else if n == 414 {
      assert ClientError[414] == "414 Request-URI Too Long";
      assert DecimalString(414) == "414";
    } else if n == 415 {
      assert ClientError[415] == "415 Unsupported Media Type";
      assert DecimalString(415) == "415";
    }
  }

  lemma RepeatsCode416To423(n: int)
    requires n in {416, 417, 422, 423}
    ensures StartsWithCode(n, ClientError[n])
  {
    if n == 416 {
      assert ClientError[416] == "416 Requested Range Not Satisfiable";
      assert DecimalString(416) == "416";
    } else if n == 417 {
      assert ClientError[417] == "417 Expectation Failed";
      assert DecimalString(417) == "417";
    } else if n == 422 {
      assert ClientError[422] == "422 Unprocessable Entity";
      assert DecimalString(422) == "422";
    } else if n == 423 {
      assert ClientError[423] == "423 Locked";
      assert DecimalString(423) == "423";
    }
  }

  lemma ServerErrorCodes(n: int)
    requires n in ServerError
    ensures n in {500, 501, 502, 503, 504, 505}
  {
  }

  lemma RepeatsCode500To503(n: int)
    requires n in {500, 501, 502, 503}
    ensures StartsWithCode(n, ServerError[n])
  {
    if n == 500 {
      assert ServerError[500] == "500 Internal Server Error";
      assert DecimalString(500) == "500";
    } else if n == 501 {
      assert ServerError[501] == "501 Not Implemented";
      assert DecimalString(501) == "501";
    } else if n == 502 {
      assert ServerError[502] == "502 Bad Gateway";
      assert DecimalString(502) == "502";
    } else if n == 503 {
      assert ServerError[503] == "503 Service Unavailable";
      assert DecimalString(503) == "503";
    }
  }

  lemma RepeatsCode504To505(n: int)
    requires n in {504, 505}
    ensures StartsWithCode(n, ServerError[n])
  {
    if n == 504 {
      assert ServerError[504] == "504 Gateway Timeout";
      assert DecimalString(504) == "504";
    } else if n == 505 {
      assert ServerError[505] == "505 HTTP Version Not Supported";
      assert DecimalString(505) == "505";
    }
  }

  /** Every value of the table starts with its own three-digit code and a space. */
  lemma StatusTableRepeatsCode(n: int)
    requires n in StatusTable
    ensures 100 <= n <= 505
    ensures StartsWithCode(n, StatusTable[n])
  {
    if n in ServerError {
      ServerErrorCodes(n);
      if n < 504 { RepeatsCode500To503(n); }
      else { RepeatsCode504To505(n); }
    } else if n in ClientError {
      ClientErrorCodes(n);
      if n < 404 { RepeatsCode400To403(n); }
      else if n < 408 { RepeatsCode404To407(n); }
      else if n < 412 { RepeatsCode408To411(n); }
      else if n < 416 { RepeatsCode412To415(n); }
      else { RepeatsCode416To423(n); }
    } else if n in Redirection {
      RedirectionCodes(n);
      if n < 304 { RepeatsCode300To303(n); }
      else { RepeatsCode304To307(n); }
    } else if n in Successful {
      SuccessfulCodes(n);
      if n < 204 { RepeatsCode200To203(n); }
      else { RepeatsCode204To206(n); }
    } else {
      InformationalCodes(n);
      RepeatsCode100To101(n);
    }
  }

  lemma HeadIsCode(n: int, v: string)
    requires StartsWithCode(n, v)
    ensures v == DecimalString(n) + " " + v[4..]
  {
    assert v == v[..4] + v[4..];
  }

  lemma StatusLineRepeatsCode(n: int)
    requires n in StatusTable
    ensures 100 <= n <= 505
    ensures |StatusTable[n]| > 4
    ensures "HTTP/1.1 " + DecimalString(n) + " " + StatusTable[n] ==
      "HTTP/1.1 " + DecimalString(n) + " " + DecimalString(n) + " " + StatusTable[n][4..]
  {
    var v := StatusTable[n];
    StatusTableRepeatsCode(n);
    HeadIsCode(n, v);
  }

  /** `setCode($num)`: the header line sent, or nothing for a code outside the table. */
  function StatusLine(n: int): (r: Option<string>)
    ensures r.None? <==> n !in StatusTable
    // the code is printed by `%d` and then again as the head of the table value
    ensures r.Some? ==> 100 <= n <= 505
    ensures r.Some? ==>
      |StatusTable[n]| > 4 &&
      r.value == "HTTP/1.1 " + DecimalString(n) + " " + DecimalString(n) + " " + StatusTable[n][4..]
  {
    if n in StatusTable then
      StatusLineRepeatsCode(n);
      Some("HTTP/1.1 " + DecimalString(n) + " " + StatusTable[n])
    else None
  }

  // ---------------------------------------------------------------------
  // Input registry and param()
  // ---------------------------------------------------------------------

  /** What a body parser returns, as `if ($result)` sees it. */
  datatype Parsed<D> = Falsy | Value(data: D)

  /** An `_inputType` entry: a callback `is_callable` accepts, or anything else. */
  datatype Parser<D> = Callable(run: string -> Parsed<D>) | NotCallable

  /** What `param()` returns: the raw request body or a parser's result. */
  datatype Body<D> = RawBody(text: string) | ParsedBody(data: D)

  /** The default `_inputType` registry, given the four parsers of the class. */
  function DefaultInputType<D>(json: string -> Parsed<D>, xml: string -> Parsed<D>,
                               csv: string -> Parsed<D>, form: string -> Parsed<D>)
    : (r: map<string, Parser<D>>)
    ensures r.Keys == {"application/json", "application/xml", "text/xml", "text/csv",
                       "application/x-www-form-urlencoded"}
    ensures forall k :: k in r ==> r[k].Callable?
    ensures r["application/xml"] == r["text/xml"]
    // each type goes to its own parser
    ensures r["application/json"] == Callable(json)
    ensures r["application/xml"] == Callable(xml) && r["text/xml"] == Callable(xml)
    ensures r["text/csv"] == Callable(csv)
    ensures r["application/x-www-form-urlencoded"] == Callable(form)
  {
    map["application/json" := Callable(json),
        "application/xml" := Callable(xml),
        "text/xml" := Callable(xml),
        "text/csv" := Callable(csv),
        "application/x-www-form-urlencoded" := Callable(form)]
  }

  // ---------------------------------------------------------------------
  // actionExist() and the parameter union
  // ---------------------------------------------------------------------

  /** `actionExist($name)`: the controller declares a method called `name`,
      compared without regard to case as `method_exists` does, and it is
      public. `methods` maps each declared method to whether it is public. */
  predicate ActionExist(methods: map<string, bool>, name: string)
    // a public method is an action under its own name
    ensures name in methods && methods[name] ==> ActionExist(methods, name)
    // an action needs a public method
    ensures ActionExist(methods, name) ==> exists m :: m in methods && methods[m]
    // a name that matches no declared method is not an action
    ensures (forall m :: m in methods ==> Lower(m) != Lower(name)) ==> !ActionExist(methods, name)
  {
    exists m :: m in methods && methods[m] && Lower(m) == Lower(name)
  }

  /** A public method is found under its own name and under any other casing
      of it; a method that is not public is never found under its name alone. */
  lemma ActionExistCaseless(methods: map<string, bool>, m: string, name: string)
    requires m in methods && Lower(m) == Lower(name)
    ensures methods[m] ==> ActionExist(methods, name)
    ensures ActionExist(methods, name) ==>
      exists m' :: m' in methods && methods[m'] && Lower(m') == Lower(m)
  {
  }

  /** Only the lower-cased action name matters. */
  lemma ActionExistIgnoresCase(methods: map<string, bool>, name: string)
    ensures ActionExist(methods, name) <==> ActionExist(methods, Lower(name))
  {
    LowerIdempotent(name);
  }

  /** A name whose declared methods, in every casing, are all non-public is
      not an action: `isPublic()` answers false. */
  lemma NoPublicMethodNoAction(methods: map<string, bool>, name: string)
    requires forall m :: m in methods && Lower(m) == Lower(name) ==> !methods[m]
    ensures !ActionExist(methods, name)
  {
  }

  /** PHP's `$a + $b` on two lists: a key-wise union in which `a` wins on the
      keys both have and `b` supplies the keys past the end of `a`. */
  function KeyUnion(a: seq<string>, b: seq<string>): (r: seq<string>)
    ensures |r| == if |a| >= |b| then |a| else |b|
    ensures forall i :: 0 <= i < |a| ==> r[i] == a[i]
    ensures forall i :: |a| <= i < |b| ==> r[i] == b[i]
  {
    if |a| >= |b| then a else a + b[|a|..]
  }

  /** `array($action) + $parameters` overwrites the first parameter instead of
      prepending the action: the result is one shorter than a prepend would
      give, and the old first parameter is gone. */
  lemma {:induction false} UnionOverwritesFirst(action: string, parameters: seq<string>)
    requires |parameters| >= 1
    ensures KeyUnion([action], parameters) == [action] + parameters[1..]
    ensures |KeyUnion([action], parameters)| == |parameters|
    ensures KeyUnion([action], parameters) != [action] + parameters
  {
    var r := KeyUnion([action], parameters);
    assert |r| == |parameters|;
    assert forall i :: 1 <= i < |r| ==> r[i] == parameters[i];
    assert r == [action] + parameters[1..];
  }

  /** `array($action) + array()` is just the action. */
  lemma UnionWithNoParameters(action: string)
    ensures KeyUnion([action], []) == [action]
  {
  }

  /** The end of `initREST()`: how the action `action` with parameters
      `params` becomes `newAction` with `newParams` for the HTTP method
      `requestMethod`. A public `<method>_<action>` is taken as it is;
      otherwise `index` with any method but post becomes `getAll`; otherwise
      the lowered method is the action, and an action other than `index` is
      merged into the parameters by key-wise union. */
  predicate Retargeted(methods: map<string, bool>, requestMethod: string,
                       action: string, params: seq<string>,
                       newAction: string, newParams: seq<string>)
  {
    var httpMethod := Lower(requestMethod);
    var rewrite := httpMethod + "_" + action;
    && (ActionExist(methods, rewrite) ==> newAction == rewrite && newParams == params)
    && (!ActionExist(methods, rewrite) && action == "index" && httpMethod != "post" ==>
          newAction == "getAll" && newParams == params)
    && (!ActionExist(methods, rewrite) && !(action == "index" && httpMethod != "post") ==>
          newAction == httpMethod &&
          newParams == (if action == "index" then params else KeyUnion([action], params)))
  }

  /** The retargeting is determined: one action and one parameter list satisfy it. */
  lemma RetargetedIsUnique(methods: map<string, bool>, requestMethod: string,
                           action: string, params: seq<string>,
                           a1: string, p1: seq<string>, a2: string, p2: seq<string>)
    requires Retargeted(methods, requestMethod, action, params, a1, p1)
    requires Retargeted(methods, requestMethod, action, params, a2, p2)
    ensures a1 == a2 && p1 == p2
  {
  }

  /** A request against `index` with a method other than post and no public
      `<method>_index` goes to `getAll` with the parameters untouched. */
  lemma IndexGetGoesToGetAll(methods: map<string, bool>, params: seq<string>)
    requires !ActionExist(methods, "get_index")
    ensures Retargeted(methods, "GET", "index", params, "getAll", params)
  {
    assert Lower("GET") == "get";
  }

  // ---------------------------------------------------------------------
  // The controller
  // ---------------------------------------------------------------------

  /** The state of a `RestController` that `initREST` and `param` use.
      An empty `fInput` or `fOutput` stands for PHP's `null` as well as "". */
  class RestController<D> {
    var actionName: string
    var parameters: seq<string>
    var fInput: string
    var fOutput: string
    const inputType: map<string, Parser<D>>
    const outputType: map<string, string>
    const methods: map<string, bool>

    /** A controller as the dispatcher creates it, before `initREST`. */
    constructor(actionName: string, parameters: seq<string>,
                inputType: map<string, Parser<D>>, outputType: map<string, string>,
                methods: map<string, bool>)
      ensures this.actionName == actionName && this.parameters == parameters
      ensures fInput == "" && fOutput == ""
      ensures this.inputType == inputType && this.outputType == outputType
      ensures this.methods == methods
    {
      this.actionName := actionName;
      this.parameters := parameters;
      fInput := "";
      fOutput := "";
      this.inputType := inputType;
      this.outputType := outputType;
      this.methods := methods;
    }

    /** `initREST()`. `contentType` is the CONTENT_TYPE server variable if
        set, `acceptHeader` the Accept header, `requestMethod` the method the
        router reports, `parseQ` the reading of a q-value. */
    method InitREST(contentType: Option<string>, acceptHeader: string,
                    requestMethod: string, parseQ: string -> int)
      modifies this
      ensures fInput == contentType.GetOr("")
      // the output format: the first accepted type the registry knows
      ensures !Empty(fOutput)
      ensures forall i :: FirstRegistered(Preferences(acceptHeader, parseQ), outputType, i) ==>
        fOutput == OrJson(outputType[Preferences(acceptHeader, parseQ)[i].mime])
      ensures (forall j :: 0 <= j < |Preferences(acceptHeader, parseQ)| ==>
                 Preferences(acceptHeader, parseQ)[j].mime !in outputType) ==>
        fOutput == OrJson(old(fOutput))
      ensures outputType == DefaultOutputType && Empty(old(fOutput)) ==>
        fOutput in {"json", "xml", "csv"}
      // the action: `<method>_<action>` when public, else getAll, else the method
      ensures Retargeted(methods, requestMethod, old(actionName), old(parameters),
                         actionName, parameters)
    {
      fInput := contentType.GetOr("");
      var accept := Accept(acceptHeader, parseQ);
      fOutput := NegotiateOutput(accept, outputType, fOutput);
      RetargetAction(requestMethod);
    }

    /** The second half of `initREST()`: the action is renamed after the
        HTTP method `requestMethod`, and the parameters reshaped. */
    method RetargetAction(requestMethod: string)
      modifies this
      ensures fInput == old(fInput) && fOutput == old(fOutput)
      ensures Retargeted(methods, requestMethod, old(actionName), old(parameters),
                         actionName, parameters)
    {
      var action := actionName;
      var httpMethod := Lower(requestMethod);
      var rewrite := httpMethod + "_" + action;
      if ActionExist(methods, rewrite) {
        actionName := rewrite;
      } else if action == "index" && httpMethod != "post" {
        actionName := "getAll";
      } else {
        actionName := httpMethod;
        parameters := if action == "index" then parameters else KeyUnion([action], parameters);
      }
    }

    /** `param()` for the request body `input`. */
    function Param(input: string): (b: Body<D>)
      reads this
      // a registered, callable parser with a truthy result decides
      ensures fInput in inputType && inputType[fInput].Callable? &&
              inputType[fInput].run(input).Value? ==>
        b == ParsedBody(inputType[fInput].run(input).data)
      // otherwise the raw body comes back unchanged
      ensures fInput !in inputType || inputType[fInput].NotCallable? ==>
        b == RawBody(input)
      ensures fInput in inputType && inputType[fInput].Callable? &&
              inputType[fInput].run(input).Falsy? ==>
        b == RawBody(input)
      ensures b.RawBody? ==> b.text == input
    {
      if fInput in inputType && inputType[fInput].Callable? then
        match inputType[fInput].run(input)
        case Value(d) => ParsedBody(d)
        case Falsy => RawBody(input)
      else RawBody(input)
    }

    /** With the default registry, a content type it does not list (such as
        "text/plain", or none at all) leaves the body raw. */
    lemma UnregisteredContentTypeIsRaw(json: string -> Parsed<D>, xml: string -> Parsed<D>,
                                       csv: string -> Parsed<D>, form: string -> Parsed<D>,
                                       input: string)
      requires inputType == DefaultInputType(json, xml, csv, form)
      requires fInput !in {"application/json", "application/xml", "text/xml", "text/csv",
                           "application/x-www-form-urlencoded"}
      ensures Param(input) == RawBody(input)
    {
      assert fInput !in inputType.Keys;
    }
  }
}
