/** The response object: the raw bytes a server sent back, parsed into a
    status code, an ordered list of headers, one record per Set-Cookie
    header, and the body.

    The parse is specified by functions over the raw text (the split at the
    first blank line, the status-line pattern, the header-line split and the
    Set-Cookie tokeniser, folded over the header lines); the class builds its
    fields with loops and is proved to agree with them. */
module Responses {
  import opened Text

  const Separator: Bytes := "\r\n\r\n"

  datatype Header = Header(name: Bytes, value: Bytes)

  /** One parsed Set-Cookie header. A field is None when no token set it;
      `expires` keeps the attribute's text. */
  datatype Cookie = Cookie(name: Option<Bytes>, value: Option<Bytes>, expires: Option<Bytes>,
                           path: Option<Bytes>, domain: Option<Bytes>,
                           secure: bool, httponly: bool)

  const NoCookie := Cookie(None, None, None, None, None, false, false)

  // ---------------------------------------------------------------------
  // Header block and body

  /** substr($res, 0, strpos($res, "\r\n\r\n")): the text before the first
      blank line, or "" when there is none (false counts as 0). */
  function HeaderBlock(res: Bytes): (r: Bytes)
    ensures StrPos(res, Separator).None? ==> r == []
    ensures StrPos(res, Separator).Some? ==> r <= res && !Contains(r, Separator)
    ensures StrPos(res, Separator).Some? ==>
              OccursAt(res, Separator, |r|) && forall j :: 0 <= j < |r| ==> !OccursAt(res, Separator, j)
  {
    match StrPos(res, Separator)
    case None => []
    case Some(p) =>
      assert forall j :: OccursAt(res[..p], Separator, j) ==> OccursAt(res, Separator, j) by {
        forall j | OccursAt(res[..p], Separator, j) ensures OccursAt(res, Separator, j) {
          assert res[..p][j..j + 4] == res[j..j + 4];
        }
      }
      res[..p]
  }

  /** substr($res, $pos + 4): everything after the first blank line; when
      there is none the body starts at byte 4. */
  function Body(res: Bytes): (r: Bytes)
    ensures StrPos(res, Separator).Some? ==> res == HeaderBlock(res) + Separator + r
    ensures StrPos(res, Separator).None? ==> r == if |res| < 4 then [] else res[4..]
  {
    match StrPos(res, Separator)
    case None => if |res| < 4 then [] else res[4..]
    case Some(p) =>
      assert res[p..p + 4] == Separator;
      assert res == res[..p] + res[p..p + 4] + res[p + 4..];
      res[p + 4..]
  }

  /** A message made of a header block, a blank line and a body is split
      back into the two, provided the header block neither contains a blank
      line nor ends in CR or LF (which would let the blank line start
      earlier). */
  lemma SplitRoundTrip(head: Bytes, body: Bytes)
    requires !Contains(head, Separator)
    requires head != [] ==> head[|head| - 1] != '\r' && head[|head| - 1] != '\n'
    ensures HeaderBlock(head + Separator + body) == head
    ensures Body(head + Separator + body) == body
  {
    var res := head + Separator + body;
    assert OccursAt(res, Separator, |head|) by {
      assert res[|head|..|head| + 4] == Separator;
    }
    forall j | 0 <= j < |head| ensures !OccursAt(res, Separator, j) {
      if j + 4 <= |head| {
        assert res[j..j + 4] == head[j..j + 4];
        assert !OccursAt(head, Separator, j);
      } else {
        // The occurrence would start inside head and run into the
        // separator: head's last byte would be CR or LF.
        assert res[|head| - 1] == head[|head| - 1];
        assert res[j..j + 4][|head| - 1 - j] == res[|head| - 1];
        assert Separator[|head| - 1 - j] == '\r' || Separator[|head| - 1 - j] == '\n';
      }
    }
    assert StrPos(res, Separator) == Some(|head|);
    assert res[..|head|] == head;
    assert res[|head| + 4..] == body;
  }

  // ---------------------------------------------------------------------
  // The status line: preg_match('/^HTTP\/.+ ([1-5][0-9]{2}) .*$/')

  predicate IsDigit(c: Octet) {
    '0' <= c <= '9'
  }

  /** The pattern matches h with its capture group at k+1..k+4: "HTTP/",
      at least one byte other than LF, a space, a code whose first digit is
      1 to 5, a space, and a rest with no LF except possibly as the very
      last byte (where '$' may also match). */
  predicate IsStatusAt(h: Bytes, k: int) {
    6 <= k && k + 5 <= |h| && h[..5] == "HTTP/"
    && (forall i :: 5 <= i < k ==> h[i] != '\n')
    && h[k] == ' ' && '1' <= h[k + 1] <= '5' && IsDigit(h[k + 2]) && IsDigit(h[k + 3])
    && h[k + 4] == ' '
    && (forall i :: k + 5 <= i < |h| - 1 ==> h[i] != '\n')
  }

  /** The largest match position not above k. */
  function LastStatusAt(h: Bytes, k: int): (r: Option<nat>)
    ensures r.Some? ==> r.value <= k && IsStatusAt(h, r.value)
                        && forall j :: r.value < j <= k ==> !IsStatusAt(h, j)
    ensures r.None? ==> forall j :: j <= k ==> !IsStatusAt(h, j)
    decreases k
  {
    if k < 6 then None
    else if IsStatusAt(h, k) then Some(k)
    else LastStatusAt(h, k - 1)
  }

  /** The captured status code. `.+` is greedy, so among all ways to match
      the line the one with the rightmost code wins. */
  function StatusCode(h: Bytes): (r: Option<Bytes>)
    ensures r.None? <==> forall k :: !IsStatusAt(h, k)
    ensures r.Some? ==> exists k :: IsStatusAt(h, k) && r.value == h[k + 1..k + 4]
                                    && forall j :: IsStatusAt(h, j) ==> j <= k
  {
    match LastStatusAt(h, |h| - 5)
    case None => None
    case Some(k) => Some(h[k + 1..k + 4])
  }

  /** A status line needs a space after the code: "HTTP/1.1 200" alone is
      an ordinary header line. */
  lemma StatusNeedsReason()
    ensures StatusCode("HTTP/1.1 200 OK") == Some("200")
    ensures StatusCode("HTTP/1.1 200").None?
  {
    var h: Bytes := "HTTP/1.1 200 OK";
    assert h[..5] == "HTTP/";
    assert IsStatusAt(h, 8);
    assert !IsStatusAt(h, 9) && !IsStatusAt(h, 10);
    assert h[9..12] == "200";
  }

  // ---------------------------------------------------------------------
  // Set-Cookie: parseCookie()

  /** list($on, $ov) = explode('=', $o): the text before the first '=' and
      the text between the first and the second '=' (the split has no
      limit); a missing second piece is null, which reads as "". */
  function AttributeOf(o: Bytes): (r: (Bytes, Bytes))
    ensures '=' !in r.0 && '=' !in r.1
  {
    var parts := Explode(o, "=");
    ExplodePiecesFree(o, "=");
    SingleByteContains(parts[0], '=');
    if |parts| >= 2 then
      SingleByteContains(parts[1], '=');
      (parts[0], parts[1])
    else (parts[0], [])
  }

  lemma SingleByteContains(s: Bytes, c: Octet)
    requires !Contains(s, [c])
    ensures c !in s
  {
    forall i | 0 <= i < |s| ensures s[i] != c {
      assert s[i..i + 1] == [s[i]];
      assert !OccursAt(s, [c], i);
    }
  }

  /** The value of a token is cut at its second '=': "id=YQ==" gives ("id", "YQ"). */
  lemma AttributeStopsAtSecondEquals(a: Bytes, b: Bytes, c: Bytes)
    requires '=' !in a && '=' !in b
    ensures AttributeOf(a + "=" + b + "=" + c) == (a, b)
    ensures AttributeOf(a + "=" + b) == (a, b)
  {
    var pieces := Explode(c, "=");
    assert |pieces| >= 1;
    JoinExplode([a, b] + pieces, '=') by {
      ExplodePiecesFree(c, "=");
      forall i | 0 <= i < |pieces| ensures '=' !in pieces[i] {
        SingleByteContains(pieces[i], '=');
      }
    }
    ExplodeJoin(c, "=");
    assert Join([a, b] + pieces, "=") == a + "=" + Join([b] + pieces, "=") by {
      JoinCons(a, [b] + pieces, "=");
      assert [a] + ([b] + pieces) == [a, b] + pieces;
    }
    JoinCons(b, pieces, "=");
    assert a + "=" + (b + "=" + c) == a + "=" + b + "=" + c;
    JoinExplode([a, b], '=');
    assert Join([a, b], "=") == a + "=" + b by {
      assert [a, b][1..] == [b];
    }
  }

  /** What one token of a Set-Cookie value does. */
  datatype Token = Skip | Secure | HttpOnly
                 | Expires(v: Bytes) | Path(v: Bytes) | Domain(v: Bytes)
                 | NameValue(name: Bytes, value: Bytes)

  /** How parseCookie() reads one token: an empty token (after trimming) is
      skipped, "secure" and "httponly" in any case are flags, and otherwise
      the attribute name, compared in lower case but NOT trimmed, selects
      expires, path or domain; any other name makes the token the cookie's
      own name and value. Names and values are stored trimmed. */
  function ClassifyToken(o: Bytes): (t: Token)
    ensures t.Skip? <==> Trim(o) == []
    ensures t.Secure? <==> Trim(o) != [] && Lower(Trim(o)) == "secure"
    ensures t.HttpOnly? <==> Trim(o) != [] && Lower(Trim(o)) == "httponly"
    ensures Trim(o) != [] && Lower(Trim(o)) != "secure" && Lower(Trim(o)) != "httponly" ==>
              var (on, ov) := AttributeOf(Trim(o));
              (Lower(on) == "expires" ==> t == Expires(Trim(ov)))
              && (Lower(on) == "path" ==> t == Path(Trim(ov)))
              && (Lower(on) == "domain" ==> t == Domain(Trim(ov)))
              && (Lower(on) != "expires" && Lower(on) != "path" && Lower(on) != "domain" ==>
                    t == NameValue(Trim(on), Trim(ov)))
  {
    var t := Trim(o);
    if t == [] then Skip
    else if Lower(t) == "secure" then Secure
    else if Lower(t) == "httponly" then HttpOnly
    else
      var (on, ov) := AttributeOf(t);
      if Lower(on) == "expires" then Expires(Trim(ov))
      else if Lower(on) == "path" then Path(Trim(ov))
      else if Lower(on) == "domain" then Domain(Trim(ov))
      else NameValue(Trim(on), Trim(ov))
  }

  /** A token "name=value" is read by its name exactly as written, so a
      name with a space before the '=' ("path =/x") is no attribute and
      becomes the cookie's own name; only the value and the stored name are
      trimmed. */
  lemma AttributeTokenRead(a: Bytes, b: Bytes)
    requires '=' !in a && '=' !in b
    requires a != [] && !IsTrimChar(a[0])
    requires b == [] || !IsTrimChar(b[|b| - 1])
    ensures var t := ClassifyToken(a + "=" + b);
            (Lower(a) == "expires" ==> t == Expires(Trim(b)))
            && (Lower(a) == "path" ==> t == Path(Trim(b)))
            && (Lower(a) == "domain" ==> t == Domain(Trim(b)))
            && (Lower(a) != "expires" && Lower(a) != "path" && Lower(a) != "domain" ==>
                  t == NameValue(Trim(a), Trim(b)))
  {
    AttributeTokenText(a, b);
  }

  /** The facts about the text of such a token that ClassifyToken tests. */
  lemma AttributeTokenText(a: Bytes, b: Bytes)
    requires '=' !in a && '=' !in b
    requires a != [] && !IsTrimChar(a[0])
    requires b == [] || !IsTrimChar(b[|b| - 1])
    ensures var o := a + "=" + b;
            Trim(o) == o && o != [] && Lower(o) != "secure" && Lower(o) != "httponly"
            && AttributeOf(o) == (a, b)
  {
    var o := a + "=" + b;
    assert o[0] == a[0];
    assert o[|o| - 1] == if b == [] then '=' else b[|b| - 1];
    TrimUnchanged(o);
    AttributeStopsAtSecondEquals(a, b, []);
    assert Lower(o)[|a|] == '=';
    EqualsNotFlag(Lower(o), |a|);
  }

  /** A text holding '=' is neither flag. */
  lemma EqualsNotFlag(x: Bytes, k: nat)
    requires k < |x| && x[k] == '='
    ensures x != "secure" && x != "httponly"
  {
    assert '=' !in "secure" && '=' !in "httponly";
  }

  function ApplyToken(c: Cookie, t: Token): Cookie {
    match t
    case Skip => c
    case Secure => c.(secure := true)
    case HttpOnly => c.(httponly := true)
    case Expires(v) => c.(expires := Some(v))
    case Path(v) => c.(path := Some(v))
    case Domain(v) => c.(domain := Some(v))
    case NameValue(n, v) => c.(name := Some(n), value := Some(v))
  }

  /** The tokens applied in order, starting from an empty record. */
  function ApplyTokens(ts: seq<Token>): Cookie {
    if ts == [] then NoCookie
    else ApplyToken(ApplyTokens(ts[..|ts| - 1]), ts[|ts| - 1])
  }

  /** Each token classified, in order. */
  function ClassifyTokens(options: seq<Bytes>): (ts: seq<Token>)
    ensures |ts| == |options|
  {
    if options == [] then []
    else ClassifyTokens(options[..|options| - 1]) + [ClassifyToken(options[|options| - 1])]
  }

  /** explode(';', trim($cookiestr)). */
  function CookieTokens(cookiestr: Bytes): seq<Bytes> {
    Explode(Trim(cookiestr), ";")
  }

  /** The record parseCookie() appends for one Set-Cookie value. */
  function CookieOf(cookiestr: Bytes): Cookie {
    ApplyTokens(ClassifyTokens(CookieTokens(cookiestr)))
  }

  predicate IsNameValueToken(t: Token) { t.NameValue? }
  predicate IsPathToken(t: Token) { t.Path? }
  predicate IsDomainToken(t: Token) { t.Domain? }
  predicate IsExpiresToken(t: Token) { t.Expires? }

  /** ts[i] is the last token of the kind p picks out. */
  predicate IsLastOf(ts: seq<Token>, i: int, p: Token -> bool) {
    0 <= i < |ts| && p(ts[i]) && forall j :: i < j < |ts| ==> !p(ts[j])
  }

  /** The name and value come from the last token that is not a flag or a
      known attribute; with no such token both stay unset. */
  lemma {:induction false} LastNameTokenWins(ts: seq<Token>)
    ensures (forall i :: 0 <= i < |ts| ==> !ts[i].NameValue?) ==>
              ApplyTokens(ts).name.None? && ApplyTokens(ts).value.None?
    ensures forall i :: IsLastOf(ts, i, IsNameValueToken) ==>
              ApplyTokens(ts).name == Some(ts[i].name) && ApplyTokens(ts).value == Some(ts[i].value)
  {
    if ts != [] {
      var n := |ts| - 1;
      var init := ts[..n];
      LastNameTokenWins(init);
      assert ApplyTokens(ts) == ApplyToken(ApplyTokens(init), ts[n]);
      forall i | IsLastOf(ts, i, IsNameValueToken)
        ensures ApplyTokens(ts).name == Some(ts[i].name) && ApplyTokens(ts).value == Some(ts[i].value)
      {
        if i < n {
          assert IsLastOf(init, i, IsNameValueToken);
        }
      }
      if forall i :: 0 <= i < |ts| ==> !ts[i].NameValue? {
        assert !ts[n].NameValue?;
        assert forall i :: 0 <= i < |init| ==> !init[i].NameValue?;
      }
    }
  }

  /** Likewise the path comes from the last path token. */
  lemma {:induction false} LastPathWins(ts: seq<Token>)
    ensures (forall i :: 0 <= i < |ts| ==> !ts[i].Path?) ==> ApplyTokens(ts).path.None?
    ensures forall i :: IsLastOf(ts, i, IsPathToken) ==> ApplyTokens(ts).path == Some(ts[i].v)
  {
    if ts != [] {
      var n := |ts| - 1;
      var init := ts[..n];
      LastPathWins(init);
      assert ApplyTokens(ts) == ApplyToken(ApplyTokens(init), ts[n]);
      forall i | IsLastOf(ts, i, IsPathToken) ensures ApplyTokens(ts).path == Some(ts[i].v) {
        if i < n {
          assert IsLastOf(init, i, IsPathToken);
        }
      }
      if forall i :: 0 <= i < |ts| ==> !ts[i].Path? {
        assert !ts[n].Path?;
        assert forall i :: 0 <= i < |init| ==> !init[i].Path?;
      }
    }
  }

  /** The domain comes from the last domain token. */
  lemma {:induction false} LastDomainWins(ts: seq<Token>)
    ensures (forall i :: 0 <= i < |ts| ==> !ts[i].Domain?) ==> ApplyTokens(ts).domain.None?
    ensures forall i :: IsLastOf(ts, i, IsDomainToken) ==> ApplyTokens(ts).domain == Some(ts[i].v)
  {
    if ts != [] {
      var n := |ts| - 1;
      var init := ts[..n];
      LastDomainWins(init);
      assert ApplyTokens(ts) == ApplyToken(ApplyTokens(init), ts[n]);
      forall i | IsLastOf(ts, i, IsDomainToken) ensures ApplyTokens(ts).domain == Some(ts[i].v) {
        if i < n {
          assert IsLastOf(init, i, IsDomainToken);
        }
      }
      if forall i :: 0 <= i < |ts| ==> !ts[i].Domain? {
        assert !ts[n].Domain?;
        assert forall i :: 0 <= i < |init| ==> !init[i].Domain?;
      }
    }
  }

  /** The expiry comes from the last expires token. */
  lemma {:induction false} LastExpiresWins(ts: seq<Token>)
    ensures (forall i :: 0 <= i < |ts| ==> !ts[i].Expires?) ==> ApplyTokens(ts).expires.None?
    ensures forall i :: IsLastOf(ts, i, IsExpiresToken) ==> ApplyTokens(ts).expires == Some(ts[i].v)
  {
    if ts != [] {
      var n := |ts| - 1;
      var init := ts[..n];
      LastExpiresWins(init);
      assert ApplyTokens(ts) == ApplyToken(ApplyTokens(init), ts[n]);
      forall i | IsLastOf(ts, i, IsExpiresToken) ensures ApplyTokens(ts).expires == Some(ts[i].v) {
        if i < n {
          assert IsLastOf(init, i, IsExpiresToken);
        }
      }
      if forall i :: 0 <= i < |ts| ==> !ts[i].Expires? {
        assert !ts[n].Expires?;
        assert forall i :: 0 <= i < |init| ==> !init[i].Expires?;
      }
    }
  }

  /** The secure flag is set exactly when some token is "secure" in any
      case, and the httponly flag exactly when some token is "httponly". */
  lemma {:induction false} Flags(ts: seq<Token>)
    ensures ApplyTokens(ts).secure <==> Secure in ts
    ensures ApplyTokens(ts).httponly <==> HttpOnly in ts
  {
    if ts != [] {
      var n := |ts| - 1;
      var init := ts[..n];
      Flags(init);
      assert ApplyTokens(ts) == ApplyToken(ApplyTokens(init), ts[n]);
      assert ts == init + [ts[n]];
    }
  }

  // ---------------------------------------------------------------------
  // Header lines

  /** list($hn, $hv) = explode(':', $h, 2): the text before the first ':'
      and everything after it; with no ':' the whole line and null (""). */
  function HeaderParts(h: Bytes): (r: (Bytes, Bytes))
    ensures ':' !in r.0
    ensures ':' in h ==> h == r.0 + ":" + r.1
    ensures ':' !in h ==> r == (h, [])
  {
    var (before, after) := SplitFirst(h, ':');
    (before, after.GetOr([]))
  }

  /** A name without ':' and any value (colons included) come back apart. */
  lemma HeaderPartsRoundTrip(name: Bytes, value: Bytes)
    requires ':' !in name
    ensures HeaderParts(name + ":" + value) == (name, value)
  {
    var h := name + ":" + value;
    var (hn, hv) := HeaderParts(h);
    assert h[|name|] == ':';
    assert h == hn + ":" + hv;
    assert h[|hn|] == ':';
    assert forall k :: 0 <= k < |hn| ==> h[k] == hn[k];
    assert forall k :: 0 <= k < |name| ==> h[k] == name[k];
    assert |hn| == |name|;
    assert hn == h[..|name|] == name;
    assert hv == h[|name| + 1..] == value;
  }

  /** What one header line is to the constructor. */
  datatype Line = StatusLine(code: Bytes) | SetCookieLine(cookie: Cookie) | HeaderLine(header: Header)

  /** A line that matches the status pattern gives the captured code; any
      other is split at its first ':', and a name that trims and
      lower-cases to "set-cookie" makes it a cookie line (its value passed
      untrimmed); all else is a header, name and value trimmed. */
  function ClassifyLine(h: Bytes): (l: Line)
    ensures l.StatusLine? <==> StatusCode(h).Some?
    ensures l.StatusLine? ==> StatusCode(h) == Some(l.code)
    ensures StatusCode(h).None? && Lower(Trim(HeaderParts(h).0)) == "set-cookie" ==>
              l == SetCookieLine(CookieOf(HeaderParts(h).1))
    ensures StatusCode(h).None? && Lower(Trim(HeaderParts(h).0)) != "set-cookie" ==>
              l == HeaderLine(Header(Trim(HeaderParts(h).0), Trim(HeaderParts(h).1)))
  {
    match StatusCode(h)
    case Some(code) => StatusLine(code)
    case None =>
      var (hn, hv) := HeaderParts(h);
      if Lower(Trim(hn)) == "set-cookie" then SetCookieLine(CookieOf(hv))
      else HeaderLine(Header(Trim(hn), Trim(hv)))
  }

  /** A line "name:value" whose name has no ':' and does not open like a
      status line is a cookie line when the name trims and lower-cases to
      "set-cookie" (the value handed over untrimmed), and otherwise a
      header with trimmed name and value. */
  lemma HeaderLineRead(name: Bytes, value: Bytes)
    requires ':' !in name
    requires |name| >= 5 ==> name[..5] != "HTTP/"
    ensures Lower(Trim(name)) == "set-cookie" ==> ClassifyLine(name + ":" + value) == SetCookieLine(CookieOf(value))
    ensures Lower(Trim(name)) != "set-cookie" ==>
              ClassifyLine(name + ":" + value) == HeaderLine(Header(Trim(name), Trim(value)))
  {
    var h := name + ":" + value;
    HeaderPartsRoundTrip(name, value);
    if |h| >= 5 {
      if |name| >= 5 {
        assert h[..5] == name[..5];
      } else {
        assert h[|name|] == ':';
        assert h[..5][|name|] == ':';
      }
      assert h[..5] != "HTTP/";
    }
    assert forall k :: !IsStatusAt(h, k);
  }

  /** What the constructor's loop has gathered so far. */
  datatype Parsed = Parsed(status: Option<Bytes>, headers: seq<Header>, cookies: seq<Cookie>)

  function ParseLine(p: Parsed, l: Line): Parsed {
    match l
    case StatusLine(code) => p.(status := Some(code))
    case SetCookieLine(cookie) => p.(cookies := p.cookies + [cookie])
    case HeaderLine(header) => p.(headers := p.headers + [header])
  }

  /** The lines applied in order, starting from no status and empty lists. */
  function ParseAll(ls: seq<Line>): Parsed {
    if ls == [] then Parsed(None, [], [])
    else ParseLine(ParseAll(ls[..|ls| - 1]), ls[|ls| - 1])
  }

  lemma ParseAllSnoc(ls: seq<Line>, i: nat)
    requires i < |ls|
    ensures ParseAll(ls[..i + 1]) == ParseLine(ParseAll(ls[..i]), ls[i])
  {
    assert ls[..i + 1][..i] == ls[..i];
  }

  function ClassifyLines(lines: seq<Bytes>): (ls: seq<Line>)
    ensures |ls| == |lines|
    ensures forall i :: 0 <= i < |lines| ==> ls[i] == ClassifyLine(lines[i])
  {
    seq(|lines|, i requires 0 <= i < |lines| => ClassifyLine(lines[i]))
  }

  /** explode("\r\n", ...) of the header block. */
  function HeaderLines(res: Bytes): seq<Bytes> {
    Explode(HeaderBlock(res), "\r\n")
  }

  /** What the constructor makes of a whole response. */
  function ParseResponse(res: Bytes): Parsed {
    ParseAll(ClassifyLines(HeaderLines(res)))
  }

  /** The headers the ordinary lines give, in order. */
  function HeadersOf(ls: seq<Line>): seq<Header> {
    if ls == [] then []
    else HeadersOf(ls[..|ls| - 1]) + (if ls[|ls| - 1].HeaderLine? then [ls[|ls| - 1].header] else [])
  }

  /** The records of the Set-Cookie lines, in order. */
  function CookiesOf(ls: seq<Line>): seq<Cookie> {
    if ls == [] then []
    else CookiesOf(ls[..|ls| - 1]) + (if ls[|ls| - 1].SetCookieLine? then [ls[|ls| - 1].cookie] else [])
  }

  function CountStatusLines(ls: seq<Line>): nat {
    if ls == [] then 0
    else CountStatusLines(ls[..|ls| - 1]) + (if ls[|ls| - 1].StatusLine? then 1 else 0)
  }

  /** Every line lands in exactly one place: status lines only set the
      status, the headers are the ordinary lines in order, and each
      Set-Cookie line gives one cookie record, in order. */
  lemma {:induction false} EveryLineOnce(ls: seq<Line>)
    ensures ParseAll(ls).headers == HeadersOf(ls)
    ensures ParseAll(ls).cookies == CookiesOf(ls)
    ensures |HeadersOf(ls)| + |CookiesOf(ls)| + CountStatusLines(ls) == |ls|
  {
    if ls != [] {
      EveryLineOnce(ls[..|ls| - 1]);
    }
  }

  /** The status is the code of the last status line, or unset when there is
      no status line: a later status line overwrites an earlier one. */
  lemma {:induction false} LastStatusLineWins(ls: seq<Line>)
    ensures (forall i :: 0 <= i < |ls| ==> !ls[i].StatusLine?) ==> ParseAll(ls).status.None?
    ensures forall i :: 0 <= i < |ls| && ls[i].StatusLine? && (forall j :: i < j < |ls| ==> !ls[j].StatusLine?) ==>
              ParseAll(ls).status == Some(ls[i].code)
  {
    if ls != [] {
      var init := ls[..|ls| - 1];
      LastStatusLineWins(init);
      assert forall i :: 0 <= i < |init| ==> init[i] == ls[i];
    }
  }

  // ---------------------------------------------------------------------
  // getHeader() and getCookie()

  /** xs is an order-preserving selection from ys. */
  predicate IsSubsequence<T(==)>(xs: seq<T>, ys: seq<T>)
    decreases |ys|
  {
    xs == [] || (ys != [] && if xs[|xs| - 1] == ys[|ys| - 1]
                            then IsSubsequence(xs[..|xs| - 1], ys[..|ys| - 1])
                            else IsSubsequence(xs, ys[..|ys| - 1]))
  }

  /** The elements whose key equals the name once both are lower-cased, in
      order: every matching element as often as it occurs, and nothing else. */
  function Select<T(==,!new)>(xs: seq<T>, key: T -> Bytes, name: Bytes): (r: seq<T>)
    ensures IsSubsequence(r, xs)
    ensures forall i :: 0 <= i < |r| ==> Lower(key(r[i])) == Lower(name)
    ensures forall x :: multiset(r)[x] == if Lower(key(x)) == Lower(name) then multiset(xs)[x] else 0
  {
    if xs == [] then []
    else
      var init, last := xs[..|xs| - 1], xs[|xs| - 1];
      assert xs == init + [last];
      var rest := Select(init, key, name);
      SelectStep(init, last, rest, key, name);
      if Lower(key(last)) == Lower(name) then rest + [last] else rest
  }

  /** Select's contract carries over from the fields before the last one to
      all of them. */
  lemma SelectStep<T(!new)>(init: seq<T>, last: T, rest: seq<T>, key: T -> Bytes, name: Bytes)
    requires IsSubsequence(rest, init)
    requires forall i :: 0 <= i < |rest| ==> Lower(key(rest[i])) == Lower(name)
    requires forall x :: multiset(rest)[x] == if Lower(key(x)) == Lower(name) then multiset(init)[x] else 0
    ensures var r := if Lower(key(last)) == Lower(name) then rest + [last] else rest;
            IsSubsequence(r, init + [last])
            && (forall i :: 0 <= i < |r| ==> Lower(key(r[i])) == Lower(name))
            && (forall x :: multiset(r)[x] == if Lower(key(x)) == Lower(name) then multiset(init + [last])[x] else 0)
  {
    assert multiset(init + [last]) == multiset(init) + multiset{last};
    if Lower(key(last)) == Lower(name) {
      SubsequenceSnoc(rest, init, last);
      assert multiset(rest + [last]) == multiset(rest) + multiset{last};
    } else {
      assert rest != [] ==> rest[|rest| - 1] != last;
      SubsequenceSnoc(rest, init, last);
    }
  }

  /** A selection from ys stays one when an element is added to ys, whether
      or not it is selected too. */
  lemma SubsequenceSnoc<T>(r: seq<T>, init: seq<T>, last: T)
    requires IsSubsequence(r, init)
    ensures IsSubsequence(r + [last], init + [last])
    ensures r == [] || r[|r| - 1] != last ==> IsSubsequence(r, init + [last])
  {
    var ys := init + [last];
    assert ys[..|ys| - 1] == init;
    var xs := r + [last];
    assert xs[..|xs| - 1] == r;
  }

  lemma SelectEmpty<T(!new)>(xs: seq<T>, key: T -> Bytes, name: Bytes)
    ensures Select(xs, key, name) == [] <==> forall i :: 0 <= i < |xs| ==> Lower(key(xs[i])) != Lower(name)
  {
    var r := Select(xs, key, name);
    if r == [] {
      forall i | 0 <= i < |xs| ensures Lower(key(xs[i])) != Lower(name) {
        assert multiset(xs)[xs[i]] > 0;
        assert multiset(r)[xs[i]] == 0;
      }
    } else {
      assert multiset(r)[r[0]] > 0;
      assert r[0] in multiset(xs);
    }
  }

  function HeaderName(h: Header): Bytes {
    h.name
  }

  /** A cookie without a name compares as "". */
  function CookieName(c: Cookie): Bytes {
    c.name.GetOr([])
  }

  /** parseCookie()'s loop: the tokens applied one by one to an empty
      record (ClassifyToken is the branching on each token, ApplyToken the
      assignment it makes). */
  method ReadTokens(ts: seq<Token>) returns (c: Cookie)
    ensures c == ApplyTokens(ts)
  {
    c := NoCookie;
    var i := 0;
    while i < |ts|
      invariant 0 <= i <= |ts|
      invariant c == ApplyTokens(ts[..i])
    {
      assert ts[..i + 1][..i] == ts[..i];
      c := ApplyToken(c, ts[i]);
      i := i + 1;
    }
    assert ts[..|ts|] == ts;
  }

  class Response {
    var status: Option<Bytes>
    var data: Bytes
    var headers: seq<Header>
    var cookies: seq<Cookie>

    /** new PHPHttpResponse($res): each header line in turn, then the body. */
    constructor (res: Bytes)
      ensures Parsed(status, headers, cookies) == ParseResponse(res)
      ensures data == Body(res)
    {
      status, data, headers, cookies := None, [], [], [];
      new;
      var lines := Explode(HeaderBlock(res), "\r\n");
      ReadLines(lines);
      data := Body(res);
    }

    /** The constructor's loop over the header lines, from no status and
        empty lists. */
    method ReadLines(lines: seq<Bytes>)
      requires status.None? && headers == [] && cookies == []
      modifies this`status, this`headers, this`cookies
      ensures Parsed(status, headers, cookies) == ParseAll(ClassifyLines(lines))
    {
      ghost var ls := ClassifyLines(lines);
      var i := 0;
      while i < |lines|
        invariant 0 <= i <= |lines|
        invariant Parsed(status, headers, cookies) == ParseAll(ls[..i])
      {
        ParseAllSnoc(ls, i);
        assert ls[i] == ClassifyLine(lines[i]);
        ReadLine(lines[i]);
        i := i + 1;
      }
      assert ls[..|lines|] == ls;
    }

    /** One turn of the constructor's loop: a status line sets the status,
        a Set-Cookie line goes to parseCookie(), any other line is added to
        the headers with its name and value trimmed. */
    method ReadLine(h: Bytes)
      modifies this`status, this`headers, this`cookies
      ensures Parsed(status, headers, cookies) == ParseLine(old(Parsed(status, headers, cookies)), ClassifyLine(h))
    {
      var code := StatusCode(h);
      if code.Some? {
        assert ClassifyLine(h) == StatusLine(code.value);
        status := code;
      } else {
        var (hn, hv) := HeaderParts(h);
        if Lower(Trim(hn)) == "set-cookie" {
          assert ClassifyLine(h) == SetCookieLine(CookieOf(hv));
          ParseCookie(hv);
        } else {
          ghost var hd := Header(Trim(hn), Trim(hv));
          assert ClassifyLine(h) == HeaderLine(hd);
          headers := headers + [Header(Trim(hn), Trim(hv))];
          assert headers == old(headers) + [hd];
        }
      }
    }

    /** parseCookie($cookiestr): the record built from the value's tokens,
        appended to the cookie list. */
    method ParseCookie(cookiestr: Bytes)
      modifies this`cookies
      ensures cookies == old(cookies) + [CookieOf(cookiestr)]
    {
      var options := Explode(Trim(cookiestr), ";");
      var c := ReadTokens(ClassifyTokens(options));
      cookies := cookies + [c];
    }

    /** getHeader($name): every header for a PHP-empty name; otherwise the
        headers whose name matches in any case, in order, or None (false)
        when there are none. */
    method GetHeader(name: Bytes) returns (r: Option<seq<Header>>)
      ensures IsPhpEmpty(name) ==> r == Some(headers)
      ensures !IsPhpEmpty(name) ==>
                (r.None? <==> forall i :: 0 <= i < |headers| ==> Lower(headers[i].name) != Lower(name))
      ensures !IsPhpEmpty(name) && r.Some? ==> r.value == Select(headers, HeaderName, name)
    {
      if IsPhpEmpty(name) {
        return Some(headers);
      }
      var res := [];
      var i := 0;
      while i < |headers|
        invariant 0 <= i <= |headers|
        invariant res == Select(headers[..i], HeaderName, name)
      {
        assert headers[..i + 1][..i] == headers[..i];
        if Lower(name) == Lower(headers[i].name) {
          res := res + [headers[i]];
        }
        i := i + 1;
      }
      assert headers[..|headers|] == headers;
      SelectEmpty(headers, HeaderName, name);
      if res == [] {
        r := None;
      } else {
        r := Some(res);
      }
    }

    /** getCookie($name): the same over the cookie records' names. */
    method GetCookie(name: Bytes) returns (r: Option<seq<Cookie>>)
      ensures IsPhpEmpty(name) ==> r == Some(cookies)
      ensures !IsPhpEmpty(name) ==>
                (r.None? <==> forall i :: 0 <= i < |cookies| ==> Lower(CookieName(cookies[i])) != Lower(name))
      ensures !IsPhpEmpty(name) && r.Some? ==> r.value == Select(cookies, CookieName, name)
    {
      if IsPhpEmpty(name) {
        return Some(cookies);
      }
      var res := [];
      var i := 0;
      while i < |cookies|
        invariant 0 <= i <= |cookies|
        invariant res == Select(cookies[..i], CookieName, name)
      {
        assert cookies[..i + 1][..i] == cookies[..i];
        if Lower(name) == Lower(cookies[i].name.GetOr([])) {
          res := res + [cookies[i]];
        }
        i := i + 1;
      }
      assert cookies[..|cookies|] == cookies;
      SelectEmpty(cookies, CookieName, name);
      if res == [] {
        r := None;
      } else {
        r := Some(res);
      }
    }

    /** __get($name): only status and data can be read; any other name gives
        null. The status is null until a status line is seen. */
    function Property(name: Bytes): (r: Option<Bytes>)
      reads this
      ensures name == "status" ==> r == status
      ensures name == "data" ==> r == Some(data)
      ensures name != "status" && name != "data" ==> r.None?
    {
      if name == "status" then status
      else if name == "data" then Some(data)
      else None
    }
  }
}
