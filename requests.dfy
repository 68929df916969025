/** The request object, modelled on the XMLHttpRequest pattern: open() picks
    the verb and the URL, setRequestHeader() and setCookie() fill two
    tables, send() builds the body and hands the whole request to the
    transport, and a reply becomes the object's response.

    The transport (fsockopen, fwrite, the reading loop) is an explicit
    input: a function from the target host, the port and the request text
    to the reply, or to None when no connection could be made. parse_url()
    is left to the caller, who passes the URL already split into its
    components, and the boundary drawn from md5(rand()) is passed in too. */
module Requests {
  import opened Text
  import opened Encoding
  import opened Assoc
  import opened Files
  import opened Forms
  import opened Bodies
  import opened Responses

  /** The methods open() accepts. */
  predicate IsMethod(m: Bytes) {
    m == "HEAD" || m == "GET" || m == "PUT" || m == "POST" || m == "DELETE"
  }

  /** A URL as parse_url() splits it; a component it does not report is None. */
  datatype Url = Url(scheme: Option<Bytes>, host: Option<Bytes>, port: Option<nat>,
                     user: Option<Bytes>, pass: Option<Bytes>,
                     path: Option<Bytes>, query: Option<Bytes>)

  /** open()'s test on a URL: a scheme and a host, and the scheme exactly
      "http" or "https" (as written, not case-folded). */
  predicate Accepts(url: Url) {
    url.scheme.Some? && url.host.Some?
    && (url.scheme.value == "http" || url.scheme.value == "https")
  }

  function DefaultPort(scheme: Bytes): nat {
    if scheme == "http" then 80 else 443
  }

  /** The header table reset() installs. */
  const DefaultHeaders: Dict := [("User-Agent", "PHPHttpRequest/0.1"), ("Accept", "*/*"),
                                 ("Connection", "close"), ("Cache-Control", "no-cache")]

  /** No entry of the header table is named "cookie" in any case: the only
      Cookie line genHeader() builds on purpose is the one from the cookie
      table. A name that merely begins with "Cookie:" is not caught
      (CookieThroughHeaderName). */
  predicate NoCookieHeader(hs: Dict) {
    forall i :: 0 <= i < |hs| ==> Lower(hs[i].0) != "cookie"
  }

  /** What setRequestHeader($name, $value) does to the header table: both
      sides trimmed, and a name that reads "cookie" once trimmed and
      lower-cased ignored. */
  function HeaderPut(hs: Dict, name: Bytes, value: Bytes): Dict {
    if Lower(Trim(name)) != "cookie" then Put(hs, Trim(name), Trim(value)) else hs
  }

  lemma DefaultHeadersValid()
    ensures UniqueKeys(DefaultHeaders) && NoCookieHeader(DefaultHeaders)
  {
    var d := DefaultHeaders;
    assert d[0].0[0] == 'U' && d[1].0[0] == 'A' && d[2].0[0] == 'C' && d[3].0[0] == 'C';
    assert d[2].0[1] == 'o' && d[3].0[1] == 'a';
    assert Lower(d[1].0)[0] == 'a';
    forall i | 0 <= i < |d| ensures Lower(d[i].0) != "cookie" {
      if i != 1 {
        assert |Lower(d[i].0)| != 6;
      }
    }
  }

  /** setRequestHeader() keeps the table a proper PHP array (unique keys)
      and never lets a Cookie header in; a name that is not "cookie" gets
      the trimmed value, every other header keeps its value. */
  lemma HeaderPutKeepsTable(hs: Dict, name: Bytes, value: Bytes)
    requires UniqueKeys(hs) && NoCookieHeader(hs)
    ensures UniqueKeys(HeaderPut(hs, name, value)) && NoCookieHeader(HeaderPut(hs, name, value))
    ensures Lower(Trim(name)) == "cookie" ==> HeaderPut(hs, name, value) == hs
    ensures Lower(Trim(name)) != "cookie" ==> Assoc.Get(HeaderPut(hs, name, value), Trim(name)) == Some(Trim(value))
    ensures forall k :: k != Trim(name) ==> Assoc.Get(HeaderPut(hs, name, value), k) == Assoc.Get(hs, k)
  {
    var r := HeaderPut(hs, name, value);
    if Lower(Trim(name)) != "cookie" {
      PutThenGet(hs, Trim(name), Trim(value));
      PutKeepsKeysUnique(hs, Trim(name), value);
      PutKeepsKeysUnique(hs, Trim(name), Trim(value));
      var k := Trim(name);
      if k in Keys(hs) {
        forall i | 0 <= i < |r| ensures Lower(r[i].0) != "cookie" {
          assert Keys(r)[i] == Keys(hs)[i];
        }
      }
    }
  }

  // ---------------------------------------------------------------------
  // The request head genHeader() writes

  /** "$method $path[?$query] HTTP/1.1"; an unset field is written as "". */
  function RequestLine(verb: Option<Bytes>, path: Option<Bytes>, query: Option<Bytes>): Bytes {
    var target: Bytes := path.GetOr([]) + (if query.Some? then "?" + query.value else []);
    verb.GetOr([]) + " " + target + " HTTP/1.1"
  }

  function HostLine(host: Option<Bytes>): Bytes {
    "Host: " + host.GetOr([])
  }

  function FieldLine(h: (Bytes, Bytes)): Bytes {
    h.0 + ": " + h.1
  }

  function FieldLines(hs: Dict): (ls: seq<Bytes>)
    ensures |ls| == |hs|
  {
    if hs == [] then [] else FieldLines(hs[..|hs| - 1]) + [FieldLine(hs[|hs| - 1])]
  }

  function CookiePair(c: (Bytes, Bytes)): Bytes {
    c.0 + "=" + c.1
  }

  function CookiePairs(cs: Dict): (ps: seq<Bytes>)
    ensures |ps| == |cs|
  {
    if cs == [] then [] else CookiePairs(cs[..|cs| - 1]) + [CookiePair(cs[|cs| - 1])]
  }

  /** The Cookie line: every cookie as name=value, joined by "; ", and no
      line at all when the table is empty. */
  function CookieLines(cs: Dict): seq<Bytes> {
    if cs == [] then [] else ["Cookie: " + Join(CookiePairs(cs), "; ")]
  }

  /** The lines of the request head, in the order genHeader() writes them. */
  function HeadLines(verb: Option<Bytes>, path: Option<Bytes>, query: Option<Bytes>,
                     host: Option<Bytes>, hs: Dict, cs: Dict): seq<Bytes>
  {
    [RequestLine(verb, path, query), HostLine(host)] + FieldLines(hs) + CookieLines(cs)
  }

  /** setRequestHeader() compares the whole trimmed name with "cookie", so
      the name "Cookie: a" passes its filter, the table still holds no entry
      named "cookie", and the head carries a line "Cookie: a: b" beside the
      one built from the cookie table. */
  lemma CookieThroughHeaderName()
    ensures var hs := HeaderPut([], "Cookie: a", "b");
            var lines := HeadLines(None, None, None, None, hs, [("x", "1")]);
            NoCookieHeader(hs) && |lines| == 4
            && lines[2] == "Cookie: a: b" && lines[3] == "Cookie: x=1"
  {
    var name: Bytes := "Cookie: a";
    TrimUnchanged(name);
    TrimUnchanged("b");
    assert |Lower(name)| == 9;
    var hs := HeaderPut([], name, "b");
    assert hs == [(name, "b")];
    assert FieldLines(hs) == [FieldLine((name, "b"))];
    assert CookiePairs([("x", "1")]) == [CookiePair(("x", "1"))];
  }

  /** The request head in the form of section 3 of RFC 7230: each line
      followed by CRLF, then the empty line. */
  function RequestHead(verb: Option<Bytes>, path: Option<Bytes>, query: Option<Bytes>,
                       host: Option<Bytes>, hs: Dict, cs: Dict): Bytes
  {
    ConcatTerminated(HeadLines(verb, path, query, host, hs, cs), CRLF) + CRLF
  }

  /** A line of the head: not empty, and free of CR and LF. */
  predicate IsLine(x: Bytes) {
    x != [] && '\r' !in x && '\n' !in x
  }

  /** Lines joined by CRLF: every CR is followed by LF and then by a byte
      that is not CR, and the text neither starts nor ends a line break. */
  predicate Spliced(s: Bytes) {
    s != [] && s[|s| - 1] != '\r' && s[|s| - 1] != '\n'
    && forall p :: 0 <= p < |s| && s[p] == '\r' ==> p + 2 < |s| && s[p + 1] == '\n' && s[p + 2] != '\r'
  }

  lemma LineSpliced(x: Bytes)
    requires IsLine(x)
    ensures Spliced(x)
  {
    assert x[|x| - 1] in x;
  }

  lemma SplicedSnoc(a: Bytes, x: Bytes)
    requires Spliced(a) && IsLine(x)
    ensures Spliced(a + CRLF + x)
  {
    var s := a + CRLF + x;
    assert s[|s| - 1] == x[|x| - 1] && x[|x| - 1] in x;
    forall p | 0 <= p < |s|
      ensures s[p] == '\r' ==> p + 2 < |s| && s[p + 1] == '\n' && s[p + 2] != '\r'
    {
      if p < |a| {
        assert s[p] == a[p];
        if a[p] == '\r' {
          assert s[p + 1] == a[p + 1] && s[p + 2] == a[p + 2];
        }
      } else if p == |a| {
        assert s[p + 1] == '\n' && s[p + 2] == x[0] && x[0] in x;
      } else if p == |a| + 1 {
        assert s[p] == '\n';
      } else {
        assert s[p] == x[p - |a| - 2] && x[p - |a| - 2] in x;
      }
    }
  }

  lemma {:induction false} JoinSpliced(xs: seq<Bytes>)
    requires xs != []
    requires forall i :: 0 <= i < |xs| ==> IsLine(xs[i])
    ensures Spliced(Join(xs, CRLF))
  {
    if |xs| == 1 {
      LineSpliced(xs[0]);
    } else {
      var init := xs[..|xs| - 1];
      JoinSpliced(init);
      JoinSnoc(init, xs[|xs| - 1], CRLF);
      assert init + [xs[|xs| - 1]] == xs;
      SplicedSnoc(Join(init, CRLF), xs[|xs| - 1]);
    }
  }

  lemma SplicedHasNoBlankLine(s: Bytes)
    requires Spliced(s)
    ensures !Contains(s, Separator)
  {
    forall k | 0 <= k <= |s| ensures !OccursAt(s, Separator, k) {
      if k + 4 <= |s| {
        if s[k] == '\r' {
          assert s[k..k + 4][2] == s[k + 2];
        } else {
          assert s[k..k + 4][0] == s[k];
        }
      }
    }
  }

  /** Lines free of line breaks, each ended by CRLF and followed by the
      empty line and a body, are read back by the response parser's split
      (the first blank line) as exactly those lines joined by CRLF, and the
      body after them. */
  lemma {:induction false} FramedReadBack(lines: seq<Bytes>, body: Bytes)
    requires lines != []
    requires forall i :: 0 <= i < |lines| ==> IsLine(lines[i])
    ensures HeaderBlock(ConcatTerminated(lines, CRLF) + CRLF + body) == Join(lines, CRLF)
    ensures Responses.Body(ConcatTerminated(lines, CRLF) + CRLF + body) == body
  {
    var head := Join(lines, CRLF);
    JoinSpliced(lines);
    SplicedHasNoBlankLine(head);
    ConcatTerminatedIsJoin(lines, CRLF);
    assert ConcatTerminated(lines, CRLF) + CRLF + body == head + Separator + body;
    SplitRoundTrip(head, body);
  }

  predicate NoBreaks(x: Bytes) {
    '\r' !in x && '\n' !in x
  }

  /** Every line genHeader() writes is non-empty: each carries a fixed
      piece of text. */
  lemma HeadLinesNotEmpty(verb: Option<Bytes>, path: Option<Bytes>, query: Option<Bytes>,
                          host: Option<Bytes>, hs: Dict, cs: Dict)
    ensures forall i :: 0 <= i < |HeadLines(verb, path, query, host, hs, cs)| ==>
              HeadLines(verb, path, query, host, hs, cs)[i] != []
  {
    var ls := HeadLines(verb, path, query, host, hs, cs);
    forall i | 0 <= i < |ls| ensures ls[i] != [] {
      if 2 <= i < 2 + |hs| {
        FieldLinesAt(hs, i - 2);
      }
    }
  }

  lemma {:induction false} FieldLinesAt(hs: Dict, i: nat)
    requires i < |hs|
    ensures FieldLines(hs)[i] == FieldLine(hs[i])
  {
    if i < |hs| - 1 {
      FieldLinesAt(hs[..|hs| - 1], i);
    }
  }

  /** When no field of the request carries CR or LF, a reader that splits
      the request at its first blank line, as the response parser does,
      gets back the head's lines joined by CRLF and the body untouched: no
      header, cookie or URL part can end the head early or leak into the
      body. */
  lemma RequestReadBack(verb: Option<Bytes>, path: Option<Bytes>, query: Option<Bytes>,
                        host: Option<Bytes>, hs: Dict, cs: Dict, body: Bytes)
    requires forall i :: 0 <= i < |HeadLines(verb, path, query, host, hs, cs)| ==>
               NoBreaks(HeadLines(verb, path, query, host, hs, cs)[i])
    ensures var text := RequestHead(verb, path, query, host, hs, cs) + body;
            HeaderBlock(text) == Join(HeadLines(verb, path, query, host, hs, cs), CRLF)
            && Responses.Body(text) == body
  {
    var ls := HeadLines(verb, path, query, host, hs, cs);
    HeadLinesNotEmpty(verb, path, query, host, hs, cs);
    assert ConcatTerminated(ls, CRLF) + CRLF + body == RequestHead(verb, path, query, host, hs, cs) + body;
    FramedReadBack(ls, body);
  }

  // ---------------------------------------------------------------------
  // The body send() builds

  /** What send() is given: a string, a File or a FormData. */
  datatype Payload = Raw(bytes: Bytes) | FilePayload(file: File) | FormPayload(form: FormData)

  function FormOf(data: Payload): set<object> {
    if data.FormPayload? then {data.form} else {}
  }

  /** The payload's content at the time of sending: for a form, its pending
      fields and whether it goes out as multipart (hasFile or multipart). */
  datatype Content = RawContent(bytes: Bytes) | FileContent(file: File)
                   | FormContent(members: seq<Member>, multipart: bool)

  ghost function ContentOf(data: Payload): Content
    reads FormOf(data)
  {
    match data
    case Raw(d) => RawContent(d)
    case FilePayload(f) => FileContent(f)
    case FormPayload(form) => FormContent(form.members, form.hasFile || form.multipart)
  }

  /** send() writes a body only for a method other than GET, HEAD and DELETE. */
  predicate SendsBody(verb: Option<Bytes>) {
    verb != Some("GET") && verb != Some("HEAD") && verb != Some("DELETE")
  }

  /** The Content-Type send() sets: none for a string, the file's MIME type
      ("" when unset), or the form encoding with its boundary. */
  function ContentTypeOf(boundary: Bytes, c: Content): Option<Bytes> {
    match c
    case RawContent(_) => None
    case FileContent(f) => Some(f.mimetype.GetOr([]))
    case FormContent(_, multipart) => Some(if multipart then MultipartPrefix + boundary else UrlEncodedType)
  }

  /** The body send() writes: the string, the whole file ("" when it cannot
      be read), or the form in its encoding. */
  function BodyOf(fs: FileSystem, boundary: Bytes, c: Content): Bytes {
    match c
    case RawContent(d) => d
    case FileContent(f) => ReadAll(fs, f).GetOr([])
    case FormContent(ms, multipart) =>
      if multipart then MultipartBody(fs, boundary, ms) else UrlEncodedBody(ms)
  }

  /** The body send() writes: none for GET, HEAD and DELETE. */
  function SentBody(verb: Option<Bytes>, fs: FileSystem, boundary: Bytes, c: Content): Bytes {
    if SendsBody(verb) then BodyOf(fs, boundary, c) else []
  }

  /** The header table send() leaves: Content-Type and Content-Length set
      only when a body is written. */
  function SentHeaders(verb: Option<Bytes>, hs: Dict, boundary: Bytes, c: Content, body: Bytes): Dict {
    if SendsBody(verb) then WithBodyHeaders(hs, ContentTypeOf(boundary, c), body) else hs
  }

  const ContentTypeName: Bytes := "Content-Type"
  const ContentLengthName: Bytes := "Content-Length"

  /** Both tables are PHP arrays with unique keys, and the header table
      holds no Cookie header. */
  predicate ProperTables(hs: Dict, cs: Dict) {
    UniqueKeys(hs) && NoCookieHeader(hs) && UniqueKeys(cs)
  }

  /** The header table after send() has set Content-Type (when it does) and
      then Content-Length; BodyHeadersAreSet shows these are the two
      setRequestHeader() calls. */
  function WithBodyHeaders(hs: Dict, ctype: Option<Bytes>, body: Bytes): Dict {
    var typed := if ctype.Some? then Put(hs, ContentTypeName, Trim(ctype.value)) else hs;
    Put(typed, ContentLengthName, Decimal(|body|))
  }

  lemma LengthNameIsPlain()
    ensures Trim(ContentLengthName) == ContentLengthName && Lower(ContentLengthName) != "cookie"
  {
    TrimUnchanged(ContentLengthName);
  }

  lemma TypeNameIsPlain()
    ensures Trim(ContentTypeName) == ContentTypeName && Lower(ContentTypeName) != "cookie"
  {
    TrimUnchanged(ContentTypeName);
  }

  lemma NamesDiffer()
    ensures ContentTypeName != ContentLengthName
  {
    assert |ContentTypeName| != |ContentLengthName|;
  }

  lemma DecimalIsPlain(n: nat)
    ensures Trim(Decimal(n)) == Decimal(n)
  {
    var d := Decimal(n);
    assert '0' <= d[0] <= '9' && '0' <= d[|d| - 1] <= '9';
    TrimUnchanged(d);
  }

  lemma HeaderPutPlain(hs: Dict, name: Bytes, value: Bytes)
    requires Trim(name) == name && Lower(name) != "cookie"
    ensures HeaderPut(hs, name, value) == Put(hs, name, Trim(value))
  {
  }

  /** send()'s two setRequestHeader() calls build WithBodyHeaders. */
  lemma BodyHeadersAreSet(hs: Dict, ctype: Option<Bytes>, body: Bytes)
    ensures var typed := if ctype.Some? then HeaderPut(hs, ContentTypeName, ctype.value) else hs;
            WithBodyHeaders(hs, ctype, body) == HeaderPut(typed, ContentLengthName, Decimal(|body|))
  {
    TypeNameIsPlain();
    LengthNameIsPlain();
    var d := Decimal(|body|);
    DecimalIsPlain(|body|);
    var typed := if ctype.Some? then HeaderPut(hs, ContentTypeName, ctype.value) else hs;
    if ctype.Some? {
      HeaderPutPlain(hs, ContentTypeName, ctype.value);
      assert typed == Put(hs, ContentTypeName, Trim(ctype.value));
    } else {
      assert typed == hs;
    }
    HeaderPutPlain(typed, ContentLengthName, d);
    assert HeaderPut(typed, ContentLengthName, d) == Put(typed, ContentLengthName, d);
  }

  /** send()'s two assignments keep the header table proper. */
  lemma BodyHeadersKeepTable(hs: Dict, ctype: Option<Bytes>, body: Bytes)
    requires UniqueKeys(hs) && NoCookieHeader(hs)
    ensures UniqueKeys(WithBodyHeaders(hs, ctype, body)) && NoCookieHeader(WithBodyHeaders(hs, ctype, body))
  {
    var typed := if ctype.Some? then HeaderPut(hs, ContentTypeName, ctype.value) else hs;
    if ctype.Some? {
      HeaderPutKeepsTable(hs, ContentTypeName, ctype.value);
    }
    HeaderPutKeepsTable(typed, ContentLengthName, Decimal(|body|));
    BodyHeadersAreSet(hs, ctype, body);
  }

  /** The header table stays proper through send(), and its Content-Length
      is the body's length: read back as a number it is |body|. */
  lemma ContentLengthIsBodyLength(hs: Dict, ctype: Option<Bytes>, body: Bytes)
    requires UniqueKeys(hs) && NoCookieHeader(hs)
    ensures UniqueKeys(WithBodyHeaders(hs, ctype, body)) && NoCookieHeader(WithBodyHeaders(hs, ctype, body))
    ensures Assoc.Get(WithBodyHeaders(hs, ctype, body), ContentLengthName) == Some(Decimal(|body|))
    ensures DecimalValue(Decimal(|body|)) == |body|
  {
    BodyHeadersKeepTable(hs, ctype, body);
    var typed := if ctype.Some? then Put(hs, ContentTypeName, Trim(ctype.value)) else hs;
    PutThenGet(typed, ContentLengthName, Decimal(|body|));
    DecimalRoundTrip(|body|);
  }

  /** A Content-Type value that trim() leaves alone is the one the table
      holds after send(). */
  lemma ContentTypeIsKept(hs: Dict, ctype: Bytes, body: Bytes)
    requires ctype != [] ==> !IsTrimChar(ctype[0]) && !IsTrimChar(ctype[|ctype| - 1])
    ensures Assoc.Get(WithBodyHeaders(hs, Some(ctype), body), ContentTypeName) == Some(ctype)
  {
    TrimUnchanged(ctype);
    TypeKept(hs, ctype, body);
  }

  lemma TypeKept(hs: Dict, ctype: Bytes, body: Bytes)
    requires Trim(ctype) == ctype
    ensures Assoc.Get(WithBodyHeaders(hs, Some(ctype), body), ContentTypeName) == Some(ctype)
  {
    var typed := Put(hs, ContentTypeName, ctype);
    PutThenGet(hs, ContentTypeName, ctype);
    PutThenGet(typed, ContentLengthName, Decimal(|body|));
    NamesDiffer();
  }

  lemma MultipartTypeKept(hs: Dict, boundary: Bytes, body: Bytes)
    requires IsBoundary(boundary)
    ensures Assoc.Get(WithBodyHeaders(hs, Some(MultipartPrefix + boundary), body), ContentTypeName)
            == Some(MultipartPrefix + boundary)
  {
    var v := MultipartPrefix + boundary;
    assert v[0] == 'm' && v[|v| - 1] == boundary[36];
    ContentTypeIsKept(hs, v, body);
  }

  /** For a multipart form, the Content-Type header names the very boundary
      whose delimiter opens the body. */
  lemma MultipartNamesItsBoundary(hs: Dict, fs: FileSystem, boundary: Bytes, ms: seq<Member>)
    requires IsBoundary(boundary)
    ensures var c := FormContent(ms, true);
            var body := BodyOf(fs, boundary, c);
            Assoc.Get(WithBodyHeaders(hs, ContentTypeOf(boundary, c), body), ContentTypeName)
              == Some(MultipartPrefix + boundary)
            && body[..|Delimiter(boundary)|] == Delimiter(boundary)
  {
    MultipartTypeKept(hs, boundary, MultipartBody(fs, boundary, ms));
    MultipartOpensWithDelimiter(fs, boundary, ms);
  }

  lemma MultipartOpensWithDelimiter(fs: FileSystem, boundary: Bytes, ms: seq<Member>)
    ensures MultipartBody(fs, boundary, ms)[..|Delimiter(boundary)|] == Delimiter(boundary)
  {
    assert MultipartBody(fs, boundary, ms)
        == Delimiter(boundary) + (Parts(fs, boundary, ms) + "--" + CRLF);
  }

  // ---------------------------------------------------------------------
  // The two loops over a form's fields

  /** shift() on a form whose pending fields are the fields of `all` from
      index k on, the first k having been shifted after `before`. */
  method ShiftNext(form: FormData, ghost all: seq<Member>, ghost before: seq<Member>, ghost k: nat)
    returns (m: Option<Member>)
    requires form.Valid()
    requires k <= |all| && form.members == all[k..] && form.shifted == before + all[..k]
    modifies form`members, form`shifted
    ensures form.Valid()
    ensures k < |all| ==> m == Some(all[k]) && form.members == all[k + 1..]
                          && form.shifted == before + all[..k + 1]
    ensures k == |all| ==> m.None? && form.members == [] && form.shifted == before + all
  {
    m := form.Shift();
    if k < |all| {
      assert all[k..][1..] == all[k + 1..];
      assert before + all[..k] + [all[k]] == before + all[..k + 1];
    } else {
      assert all[..k] == all;
    }
  }

  /** The multipart branch of send(): the delimiter, then one part per field
      taken with shift(), then "--" and CRLF. */
  method WriteMultipart(form: FormData, boundary: Bytes, fs: FileSystem) returns (postdata: Bytes)
    requires form.Valid()
    modifies form`members, form`shifted
    ensures form.Valid()
    ensures postdata == MultipartBody(fs, boundary, old(form.members))
    ensures form.members == [] && form.shifted == old(form.shifted) + old(form.members)
  {
    ghost var all := form.members;
    ghost var before := form.shifted;
    postdata := Delimiter(boundary);
    assert all[..0] == [];
    ghost var k := 0;
    var m := ShiftNext(form, all, before, 0);
    while m.Some?
      invariant form.Valid()
      invariant 0 <= k <= |all|
      invariant m.Some? ==> k < |all| && m.value == all[k] && form.members == all[k + 1..]
                            && form.shifted == before + all[..k + 1]
      invariant m.None? ==> k == |all| && form.members == [] && form.shifted == before + all
      invariant postdata == Delimiter(boundary) + Parts(fs, boundary, all[..k])
      decreases |all| - k
    {
      PartsStep(fs, boundary, all, k, postdata);
      postdata := postdata + Part(fs, boundary, m.value);
      k := k + 1;
      m := ShiftNext(form, all, before, k);
    }
    assert all[..k] == all;
    MultipartClose(fs, boundary, all, postdata);
    postdata := postdata + "--" + CRLF;
  }

  /** The urlencoded branch of send(): name=value& for every field taken
      with shift(), then the last byte cut off. */
  method WriteUrlEncoded(form: FormData) returns (postdata: Bytes)
    requires form.Valid()
    modifies form`members, form`shifted
    ensures form.Valid()
    ensures postdata == UrlEncodedBody(old(form.members))
    ensures form.members == [] && form.shifted == old(form.shifted) + old(form.members)
  {
    ghost var all := form.members;
    ghost var before := form.shifted;
    postdata := [];
    ghost var k := 0;
    var m := ShiftNext(form, all, before, 0);
    while m.Some?
      invariant form.Valid()
      invariant 0 <= k <= |all|
      invariant m.Some? ==> k < |all| && m.value == all[k] && form.members == all[k + 1..]
                            && form.shifted == before + all[..k + 1]
      invariant m.None? ==> k == |all| && form.members == [] && form.shifted == before + all
      invariant postdata == PairsWritten(all[..k])
      invariant k > 0 ==> |postdata| > 0
      decreases |all| - k
    {
      PairsWrittenStep(all, k, postdata);
      postdata := postdata + Pair(m.value) + "&";
      k := k + 1;
      m := ShiftNext(form, all, before, k);
    }
    assert all[..k] == all;
    PairsWrittenTerminated(all);
    assert all == [] <==> |postdata| == 0;
    postdata := if |postdata| == 0 then [] else postdata[..|postdata| - 1];
  }

  // ---------------------------------------------------------------------
  // The request object

  /** The transport: target host, port and request text to the reply, or
      None when fsockopen() fails. */
  type Exchange = (Bytes, nat, Bytes) -> Option<Bytes>

  /** The host sendRequest() connects to: TLS unless the scheme is "http". */
  function Target(scheme: Option<Bytes>, host: Option<Bytes>): Bytes {
    (if scheme == Some("http") then [] else "tls://") + host.GetOr([])
  }

  // ---------------------------------------------------------------------
  // The steps of genHeader()

  /** The request line and the Host line, each ended by CRLF. */
  lemma HeadStart(verb: Option<Bytes>, path: Option<Bytes>, query: Option<Bytes>, host: Option<Bytes>)
    ensures verb.GetOr([]) + " " + path.GetOr([]) + (if query.Some? then "?" + query.value else [])
            + " HTTP/1.1" + CRLF + "Host: " + host.GetOr([]) + CRLF
            == ConcatTerminated([RequestLine(verb, path, query), HostLine(host)], CRLF)
  {
    var v, t := verb.GetOr([]), path.GetOr([]);
    var q: Bytes := if query.Some? then "?" + query.value else [];
    var rl := RequestLine(verb, path, query);
    Associative(v + " ", t, q);
    assert v + " " + t + q + " HTTP/1.1" == rl;
    ConcatTerminatedSnoc([], rl, CRLF);
    assert [] + [rl] == [rl];
    assert [] + rl == rl;
    ConcatTerminatedSnoc([rl], HostLine(host), CRLF);
    assert [rl] + [HostLine(host)] == [rl, HostLine(host)];
    Associative(rl + CRLF, "Host: ", host.GetOr([]));
  }

  /** One more header field line. */
  lemma FieldStep(start: seq<Bytes>, hs: Dict, i: nat, written: Bytes)
    requires i < |hs|
    requires written == ConcatTerminated(start + FieldLines(hs[..i]), CRLF)
    ensures written + hs[i].0 + ": " + hs[i].1 + CRLF
            == ConcatTerminated(start + FieldLines(hs[..i + 1]), CRLF)
  {
    assert hs[..i + 1][..i] == hs[..i];
    assert start + FieldLines(hs[..i + 1]) == (start + FieldLines(hs[..i])) + [FieldLine(hs[i])];
    ConcatTerminatedSnoc(start + FieldLines(hs[..i]), FieldLine(hs[i]), CRLF);
  }

  /** One more name=value pair on the Cookie line. */
  lemma CookieStep(cs: Dict, j: nat, prefix: Bytes, written: Bytes)
    requires j < |cs|
    requires written == prefix + ConcatTerminated(CookiePairs(cs[..j]), "; ")
    ensures written + cs[j].0 + "=" + cs[j].1 + "; " == prefix + ConcatTerminated(CookiePairs(cs[..j + 1]), "; ")
  {
    assert cs[..j + 1][..j] == cs[..j];
    ConcatTerminatedSnoc(CookiePairs(cs[..j]), CookiePair(cs[j]), "; ");
  }

  /** Dropping the last "; " and ending the Cookie line with CRLF. */
  lemma CookieFinish(lines: seq<Bytes>, cs: Dict, header: Bytes)
    requires cs != []
    requires header == ConcatTerminated(lines, CRLF) + "Cookie: " + ConcatTerminated(CookiePairs(cs), "; ")
    ensures |header| >= 2
    ensures header[..|header| - 2] + CRLF == ConcatTerminated(lines + CookieLines(cs), CRLF)
  {
    var upto := ConcatTerminated(lines, CRLF);
    ConcatTerminatedIsJoin(CookiePairs(cs), "; ");
    var line := "Cookie: " + Join(CookiePairs(cs), "; ");
    assert header == upto + line + "; ";
    assert header[..|header| - 2] == upto + line;
    ConcatTerminatedSnoc(lines, line, CRLF);
  }

  class HttpRequest {
    var verb: Option<Bytes>
    var scheme: Option<Bytes>
    var host: Option<Bytes>
    var port: Option<nat>
    var user: Option<Bytes>
    var password: Option<Bytes>
    var path: Option<Bytes>
    var query: Option<Bytes>
    var response: Response?
    var headers: Dict
    var cookies: Dict

    /** The tables are proper, and once a URL is accepted its scheme is
        http or https and the method, host, port and path are set. */
    ghost predicate Valid()
      reads this
    {
      ProperTables(headers, cookies)
      && (scheme.Some? ==>
            verb.Some? && host.Some? && port.Some? && path.Some?
            && (scheme.value == "http" || scheme.value == "https"))
    }

    /** The state reset() leaves: every URL field and the verb unset, the
        default headers and no cookies. */
    ghost predicate Cleared()
      reads this
    {
      verb.None? && scheme.None? && host.None? && port.None?
      && user.None? && password.None? && path.None? && query.None?
      && headers == DefaultHeaders && cookies == []
    }

    constructor ()
      ensures Valid() && Cleared()
      ensures response == null
    {
      response := null;
      new;
      Reset();
    }

    /** reset(): ready for the next request; the last response is kept. */
    method Reset()
      modifies this
      ensures Valid() && Cleared()
      ensures response == old(response)
    {
      verb, scheme, host, port := None, None, None, None;
      user, password, path, query := None, None, None, None;
      headers := DefaultHeaders;
      cookies := [];
      DefaultHeadersValid();
    }

    /** setRequestHeader($name, $value). */
    method SetRequestHeader(name: Bytes, value: Bytes)
      requires Valid()
      modifies this`headers
      ensures Valid()
      ensures headers == HeaderPut(old(headers), name, value)
    {
      HeaderPutKeepsTable(headers, name, value);
      if Lower(Trim(name)) != "cookie" {
        headers := Put(headers, Trim(name), Trim(value));
      }
    }

    /** setCookie($name, $value): set or overwrite one cookie. */
    method SetCookie(name: Bytes, value: Bytes)
      requires Valid()
      modifies this`cookies
      ensures Valid()
      ensures cookies == Put(old(cookies), name, value)
      ensures Assoc.Get(cookies, name) == Some(value)
      ensures forall k :: k != name ==> Assoc.Get(cookies, k) == Assoc.Get(old(cookies), k)
    {
      PutKeepsKeysUnique(cookies, name, value);
      PutThenGet(cookies, name, value);
      cookies := Put(cookies, name, value);
    }

    /** __get($name): only the response can be read; any other name gives
        null. */
    function Property(name: Bytes): (r: Response?)
      reads this
      ensures name == "response" ==> r == response
      ensures name != "response" ==> r == null
    {
      if name == "response" then response else null
    }

    /** The URL part of open(): scheme, host, port (80 or 443 by default)
        and path ("/" by default) are set; user, password and query only
        when the URL has them. */
    method SetUrl(url: Url)
      requires Valid() && verb.Some? && Accepts(url)
      modifies this`scheme, this`host, this`port, this`path, this`user, this`password, this`query
      ensures Valid()
      ensures scheme == url.scheme && host == url.host
              && port == Some(url.port.GetOr(DefaultPort(url.scheme.value)))
              && path == Some(url.path.GetOr("/"))
              && user == (if url.user.Some? then url.user else old(user))
              && password == (if url.pass.Some? then url.pass else old(password))
              && query == (if url.query.Some? then url.query else old(query))
    {
      var p := if url.port.Some? then url.port.value else DefaultPort(url.scheme.value);
      var target := if url.path.Some? then url.path.value else "/";
      scheme, host, port, path, user, password, query :=
        url.scheme, url.host, Some(p), Some(target),
        (if url.user.Some? then url.user else user),
        (if url.pass.Some? then url.pass else password),
        (if url.query.Some? then url.query else query);
    }

    /** open($method, $url). The method is upper-cased; one outside
        HEAD/GET/PUT/POST/DELETE changes nothing. A valid method is stored
        even when the URL is then refused; an accepted URL is stored as
        SetUrl says. */
    method Open(verb: Bytes, url: Url) returns (ok: bool)
      requires Valid()
      modifies this
      ensures Valid()
      ensures ok <==> IsMethod(Upper(verb)) && Accepts(url)
      ensures IsMethod(Upper(verb)) ==> this.verb == Some(Upper(verb))
      ensures !IsMethod(Upper(verb)) ==> this.verb == old(this.verb)
      ensures ok ==> scheme == url.scheme && host == url.host
                     && port == Some(url.port.GetOr(DefaultPort(url.scheme.value)))
                     && path == Some(url.path.GetOr("/"))
                     && user == (if url.user.Some? then url.user else old(user))
                     && password == (if url.pass.Some? then url.pass else old(password))
                     && query == (if url.query.Some? then url.query else old(query))
      ensures !ok ==> scheme == old(scheme) && host == old(host) && port == old(port)
                      && path == old(path) && user == old(user)
                      && password == old(password) && query == old(query)
      ensures headers == old(headers) && cookies == old(cookies) && response == old(response)
    {
      var m := Upper(verb);
      if IsMethod(m) {
        this.verb := Some(m);
        if Accepts(url) {
          SetUrl(url);
          return true;
        }
      }
      return false;
    }

    /** The cookie part of genHeader(): when there are cookies, "Cookie: "
        and every name=value followed by "; ", whose last "; " is then
        replaced by CRLF. */
    method AppendCookieLine(ghost lines: seq<Bytes>, header: Bytes) returns (r: Bytes)
      requires header == ConcatTerminated(lines, CRLF)
      ensures r == ConcatTerminated(lines + CookieLines(cookies), CRLF)
    {
      r := header;
      if |cookies| > 0 {
        r := r + "Cookie: ";
        ghost var prefix := r;
        assert cookies[..0] == [];
        var j := 0;
        while j < |cookies|
          invariant 0 <= j <= |cookies|
          invariant r == prefix + ConcatTerminated(CookiePairs(cookies[..j]), "; ")
        {
          CookieStep(cookies, j, prefix, r);
          r := r + cookies[j].0 + "=" + cookies[j].1 + "; ";
          j := j + 1;
        }
        assert cookies[..j] == cookies;
        CookieFinish(lines, cookies, r);
        r := r[..|r| - 2] + CRLF;
      } else {
        assert lines + CookieLines(cookies) == lines;
      }
    }

    /** genHeader(): the request line, the Host line, one line per header in
        table order, the Cookie line when there are cookies, and the empty
        line. */
    method GenHeader() returns (header: Bytes)
      ensures header == RequestHead(verb, path, query, host, headers, cookies)
    {
      header := verb.GetOr([]) + " " + path.GetOr([])
                + (if query.Some? then "?" + query.value else []) + " HTTP/1.1" + CRLF;
      header := header + "Host: " + host.GetOr([]) + CRLF;
      ghost var start := [RequestLine(verb, path, query), HostLine(host)];
      HeadStart(verb, path, query, host);
      assert headers[..0] == [];
      assert start + FieldLines(headers[..0]) == start;
      var i := 0;
      while i < |headers|
        invariant 0 <= i <= |headers|
        invariant header == ConcatTerminated(start + FieldLines(headers[..i]), CRLF)
      {
        FieldStep(start, headers, i, header);
        header := header + headers[i].0 + ": " + headers[i].1 + CRLF;
        i := i + 1;
      }
      assert headers[..i] == headers;
      ghost var lines := start + FieldLines(headers);
      header := AppendCookieLine(lines, header);
      header := header + CRLF;
    }

    /** sendRequest($data): the head and the data go to the transport; on a
        reply the response is parsed from it and the object is reset, with
        no reply nothing changes. */
    method SendRequest(data: Bytes, exchange: Exchange) returns (ok: bool)
      requires Valid() && scheme.Some?
      modifies this
      ensures Valid()
      ensures var reply := exchange(Target(old(scheme), old(host)), old(port).value,
                                    old(RequestHead(verb, path, query, host, headers, cookies)) + data);
              (ok <==> reply.Some?)
              && (ok ==> Cleared() && fresh(response)
                         && Parsed(response.status, response.headers, response.cookies)
                            == ParseResponse(reply.value)
                         && response.data == Responses.Body(reply.value))
              && (!ok ==> unchanged(this))
    {
      var head := GenHeader();
      var reply := exchange(Target(scheme, host), port.value, head + data);
      if reply.None? {
        return false;
      }
      var r := new Response(reply.value);
      response := r;
      Reset();
      return true;
    }

    /** The form branch of send($data): a form holding a file, or marked
        multipart, goes as multipart/form-data, any other form urlencoded;
        either way its pending fields are drained. */
    method WriteForm(form: FormData, boundary: Bytes, fs: FileSystem) returns (postdata: Bytes)
      requires Valid() && form.Valid()
      modifies this`headers, form`members, form`shifted
      ensures Valid() && form.Valid()
      ensures var c := FormContent(old(form.members), old(form.hasFile || form.multipart));
              postdata == BodyOf(fs, boundary, c)
              && headers == HeaderPut(old(headers), ContentTypeName, ContentTypeOf(boundary, c).value)
      ensures form.members == [] && form.shifted == old(form.shifted) + old(form.members)
    {
      ghost var c := FormContent(form.members, form.hasFile || form.multipart);
      if form.Property("hasFile") || form.Property("multipart") {
        assert ContentTypeOf(boundary, c).value == MultipartPrefix + boundary;
        SetRequestHeader(ContentTypeName, MultipartPrefix + boundary);
        postdata := WriteMultipart(form, boundary, fs);
      } else {
        assert ContentTypeOf(boundary, c).value == UrlEncodedType;
        SetRequestHeader(ContentTypeName, UrlEncodedType);
        postdata := WriteUrlEncoded(form);
      }
    }

    /** The branching on the payload in send($data): a form is written by
        WriteForm, a File sets Content-Type to its MIME type and sends its
        contents, a string is sent as it is. */
    method WriteContent(data: Payload, boundary: Bytes, fs: FileSystem) returns (postdata: Bytes)
      requires Valid()
      requires data.FormPayload? ==> data.form.Valid()
      modifies this`headers, FormOf(data)
      ensures Valid()
      ensures postdata == BodyOf(fs, boundary, old(ContentOf(data)))
      ensures var ctype := ContentTypeOf(boundary, old(ContentOf(data)));
              headers == if ctype.Some? then HeaderPut(old(headers), ContentTypeName, ctype.value) else old(headers)
      ensures data.FormPayload? ==>
                data.form.Valid() && data.form.members == []
                && data.form.shifted == old(data.form.shifted) + old(data.form.members)
                && data.form.popped == old(data.form.popped)
                && data.form.hasFile == old(data.form.hasFile)
                && data.form.multipart == old(data.form.multipart)
    {
      ghost var c := ContentOf(data);
      match data {
        case FormPayload(form) =>
          assert c == FormContent(form.members, form.hasFile || form.multipart);
          postdata := WriteForm(form, boundary, fs);
        case FilePayload(f) =>
          assert c == FileContent(f);
          SetRequestHeader(ContentTypeName, f.mimetype.GetOr([]));
          postdata := ReadAll(fs, f).GetOr([]);
        case Raw(d) =>
          postdata := d;
      }
    }

    /** The body-building part of send($data): sets Content-Type (not for a
        string), writes the body and sets Content-Length to its length. */
    method WriteBody(data: Payload, boundary: Bytes, fs: FileSystem) returns (postdata: Bytes)
      requires Valid()
      requires data.FormPayload? ==> data.form.Valid()
      modifies this`headers, FormOf(data)
      ensures Valid()
      ensures postdata == BodyOf(fs, boundary, old(ContentOf(data)))
      ensures headers == WithBodyHeaders(old(headers), ContentTypeOf(boundary, old(ContentOf(data))), postdata)
      ensures data.FormPayload? ==>
                data.form.Valid() && data.form.members == []
                && data.form.shifted == old(data.form.shifted) + old(data.form.members)
                && data.form.popped == old(data.form.popped)
                && data.form.hasFile == old(data.form.hasFile)
                && data.form.multipart == old(data.form.multipart)
    {
      ghost var c := ContentOf(data);
      postdata := WriteContent(data, boundary, fs);
      SetRequestHeader(ContentLengthName, Decimal(|postdata|));
      BodyHeadersAreSet(old(headers), ContentTypeOf(boundary, c), postdata);
    }

    /** The part of send($data) before the request goes out: a body, with
        its two headers, only for a method other than GET, HEAD and DELETE. */
    method PrepareBody(data: Payload, boundary: Bytes, fs: FileSystem) returns (postdata: Bytes)
      requires Valid() && scheme.Some?
      requires data.FormPayload? ==> data.form.Valid()
      modifies this`headers, FormOf(data)
      ensures Valid() && scheme.Some?
      ensures postdata == SentBody(verb, fs, boundary, old(ContentOf(data)))
      ensures headers == SentHeaders(verb, old(headers), boundary, old(ContentOf(data)), postdata)
      ensures data.FormPayload? ==>
                data.form.Valid() && data.form.popped == old(data.form.popped)
                && data.form.hasFile == old(data.form.hasFile)
                && data.form.multipart == old(data.form.multipart)
      ensures data.FormPayload? && SendsBody(verb) ==>
                data.form.members == [] && data.form.shifted == old(data.form.shifted) + old(data.form.members)
      ensures data.FormPayload? && !SendsBody(verb) ==> unchanged(data.form)
    {
      postdata := [];
      if SendsBody(verb) {
        postdata := WriteBody(data, boundary, fs);
      }
    }

    /** send($data). Without an accepted URL nothing happens. Otherwise a
        method other than GET, HEAD and DELETE sends a body (see WriteBody)
        and the request goes out as sendRequest() sends it; when the
        transport fails the headers send() added stay in the table. */
    method Send(data: Payload, boundary: Bytes, fs: FileSystem, exchange: Exchange)
      returns (ok: bool, ghost body: Bytes, ghost table: Dict)
      requires Valid()
      requires data.FormPayload? ==> data.form.Valid()
      requires IsBoundary(boundary)
      modifies this, FormOf(data)
      ensures Valid()
      ensures data.FormPayload? ==>
                data.form.Valid() && data.form.popped == old(data.form.popped)
                && data.form.hasFile == old(data.form.hasFile)
                && data.form.multipart == old(data.form.multipart)
      ensures old(scheme).None? ==> !ok && unchanged(this) && unchanged(FormOf(data))
      ensures old(scheme).Some? ==>
                body == SentBody(old(verb), fs, boundary, old(ContentOf(data)))
                && table == SentHeaders(old(verb), old(headers), boundary, old(ContentOf(data)), body)
      ensures old(scheme).Some? ==>
                var reply := exchange(Target(old(scheme), old(host)), old(port).value,
                                      RequestHead(old(verb), old(path), old(query), old(host), table, old(cookies)) + body);
                (ok <==> reply.Some?)
                && (ok ==> Cleared() && fresh(response)
                           && Parsed(response.status, response.headers, response.cookies)
                              == ParseResponse(reply.value)
                           && response.data == Responses.Body(reply.value))
                && (!ok ==> headers == table && cookies == old(cookies) && response == old(response)
                            && verb == old(verb) && scheme == old(scheme) && host == old(host)
                            && port == old(port) && path == old(path) && query == old(query)
                            && user == old(user) && password == old(password))
      ensures data.FormPayload? && old(scheme).Some? && SendsBody(old(verb)) ==>
                data.form.members == [] && data.form.shifted == old(data.form.shifted) + old(data.form.members)
      ensures data.FormPayload? && !(old(scheme).Some? && SendsBody(old(verb))) ==>
                unchanged(data.form)
    {
      if scheme.None? {
        return false, [], headers;
      }
      var postdata := PrepareBody(data, boundary, fs);
      assert verb == old(verb) && path == old(path) && query == old(query) && host == old(host)
        && cookies == old(cookies) && scheme == old(scheme) && port == old(port);
      body, table := postdata, headers;
      ok := SendRequest(postdata, exchange);
    }
  }
}
