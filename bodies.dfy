/** The request bodies send() builds from a form: the
    application/x-www-form-urlencoded encoding (name=value pairs joined by
    '&', both sides percent-encoded) and the multipart/form-data encoding of
    RFC 7578, framed by boundary delimiters as in section 5.1.1 of RFC 2046.

    Each is specified here as a function of the fields sent; the request's
    send() builds the same text with a loop over shift(). */
module Bodies {
  import opened Text
  import opened Encoding
  import opened Files
  import opened Forms

  const UrlEncodedType: Bytes := "application/x-www-form-urlencoded"
  const MultipartPrefix: Bytes := "multipart/form-data; boundary="
  const NamePrefix: Bytes := "Content-Disposition: form-data; name=\""
  const FilenameInfix: Bytes := "\"; filename=\""
  const Quote: Bytes := "\""
  const ContentTypePrefix: Bytes := "Content-Type: "

  predicate IsLowerHex(c: Octet) {
    ('0' <= c <= '9') || ('a' <= c <= 'f')
  }

  /** The boundary send() draws: 27 dashes and the first ten hexadecimal
      digits of an md5 digest. */
  predicate IsBoundary(b: Bytes) {
    |b| == 37
    && (forall i :: 0 <= i < 27 ==> b[i] == '-')
    && (forall i :: 27 <= i < 37 ==> IsLowerHex(b[i]))
  }

  // ---------------------------------------------------------------------
  // application/x-www-form-urlencoded

  /** The text of a field. A file never reaches the urlencoded branch: a
      form holding one has hasFile set and is sent as multipart. */
  function TextOf(v: Value): Bytes {
    match v
    case Text(t) => t
    case Upload(_) => []
  }

  /** rawurlencode($name) . '=' . rawurlencode($value). */
  function Pair(m: Member): Bytes {
    RawUrlEncode(m.name) + "=" + RawUrlEncode(TextOf(m.value))
  }

  function Pairs(ms: seq<Member>): (ps: seq<Bytes>)
    ensures |ps| == |ms|
    ensures forall i :: 0 <= i < |ms| ==> ps[i] == Pair(ms[i])
  {
    seq(|ms|, i requires 0 <= i < |ms| => Pair(ms[i]))
  }

  /** What send() writes for a form without files: every pair followed by
      '&', then the last byte cut off. */
  function UrlEncodedBody(ms: seq<Member>): (r: Bytes)
    ensures ms == [] ==> r == []
    ensures ms != [] ==> r == Join(Pairs(ms), "&")
  {
    var loop := ConcatTerminated(Pairs(ms), "&");
    if ms == [] then []
    else
      ConcatTerminatedIsJoin(Pairs(ms), "&");
      loop[..|loop| - 1]
  }

  /** What the urlencoded loop has written after the given fields: each
      pair followed by '&'. */
  function PairsWritten(ms: seq<Member>): Bytes {
    if ms == [] then [] else PairsWritten(ms[..|ms| - 1]) + Pair(ms[|ms| - 1]) + "&"
  }

  /** One more field for the urlencoded loop. */
  lemma PairsWrittenStep(ms: seq<Member>, k: nat, written: Bytes)
    requires k < |ms|
    requires written == PairsWritten(ms[..k])
    ensures written + Pair(ms[k]) + "&" == PairsWritten(ms[..k + 1])
    ensures |PairsWritten(ms[..k + 1])| > 0
  {
    var p := ms[..k + 1];
    assert p[..|p| - 1] == ms[..k];
  }

  lemma {:induction false} PairsWrittenTerminated(ms: seq<Member>)
    ensures PairsWritten(ms) == ConcatTerminated(Pairs(ms), "&")
  {
    if ms != [] {
      var init := ms[..|ms| - 1];
      PairsWrittenTerminated(init);
      assert Pairs(ms) == Pairs(init) + [Pair(ms[|ms| - 1])];
      ConcatTerminatedSnoc(Pairs(init), Pair(ms[|ms| - 1]), "&");
    }
  }

  /** The names and texts the body carries. */
  function Fields(ms: seq<Member>): (fields: seq<(Bytes, Bytes)>)
    ensures |fields| == |ms|
    ensures forall i :: 0 <= i < |ms| ==> fields[i] == (ms[i].name, TextOf(ms[i].value))
  {
    seq(|ms|, i requires 0 <= i < |ms| => (ms[i].name, TextOf(ms[i].value)))
  }

  /** A receiver's reading of one pair: split at the first '=' and
      percent-decode both sides. */
  function DecodePair(p: Bytes): Option<(Bytes, Bytes)> {
    match SplitFirst(p, '=')
    case (_, None) => None
    case (n, Some(v)) =>
      match (PercentDecode(n), PercentDecode(v))
      case (Some(a), Some(b)) => Some((a, b))
      case _ => None
  }

  function DecodePairs(ps: seq<Bytes>): Option<seq<(Bytes, Bytes)>> {
    if ps == [] then Some([])
    else
      match (DecodePair(ps[0]), DecodePairs(ps[1..]))
      case (Some(f), Some(rest)) => Some([f] + rest)
      case _ => None
  }

  /** A receiver's reading of a whole body: the empty body has no fields. */
  function DecodeUrlEncoded(body: Bytes): Option<seq<(Bytes, Bytes)>> {
    if body == [] then Some([]) else DecodePairs(Explode(body, "&"))
  }

  /** The first occurrence of the separator is the one after a prefix that
      does not contain it. */
  lemma SplitFirstAt(a: Bytes, c: Octet, b: Bytes)
    requires c !in a
    ensures SplitFirst(a + [c] + b, c) == (a, Some(b))
  {
    var s := a + [c] + b;
    assert s[|a|] == c;
    var (x, y) := SplitFirst(s, c);
    assert y.Some?;
    assert s == x + [c] + y.value;
    assert s[|x|] == c;
    assert forall k :: 0 <= k < |x| ==> s[k] == x[k];
    assert forall k :: 0 <= k < |a| ==> s[k] == a[k];
    assert |x| == |a|;
    assert x == s[..|a|] == a;
    assert y.value == s[|a| + 1..] == b;
  }

  lemma EncodedHasNoDelimiters(s: Bytes)
    ensures '=' !in RawUrlEncode(s) && '&' !in RawUrlEncode(s)
  {
    var e := RawUrlEncode(s);
    forall i | 0 <= i < |e| ensures e[i] != '=' && e[i] != '&' {
      assert IsUnreserved(e[i]) || e[i] == '%';
    }
  }

  lemma PairRoundTrip(m: Member)
    ensures '&' !in Pair(m)
    ensures DecodePair(Pair(m)) == Some((m.name, TextOf(m.value)))
  {
    var n, v := RawUrlEncode(m.name), RawUrlEncode(TextOf(m.value));
    EncodedHasNoDelimiters(m.name);
    EncodedHasNoDelimiters(TextOf(m.value));
    SplitFirstAt(n, '=', v);
    assert Pair(m) == n + ['='] + v;
    RawUrlRoundTrip(m.name);
    RawUrlRoundTrip(TextOf(m.value));
  }

  lemma {:induction false} PairsRoundTrip(ms: seq<Member>)
    ensures DecodePairs(Pairs(ms)) == Some(Fields(ms))
  {
    if ms != [] {
      var ps := Pairs(ms);
      PairsRoundTrip(ms[1..]);
      PairRoundTrip(ms[0]);
      assert ps[1..] == Pairs(ms[1..]);
      DecodePairsCons(ps, (ms[0].name, TextOf(ms[0].value)), Fields(ms[1..]));
      assert Fields(ms) == [(ms[0].name, TextOf(ms[0].value))] + Fields(ms[1..]);
    }
  }

  lemma DecodePairsCons(ps: seq<Bytes>, f: (Bytes, Bytes), rest: seq<(Bytes, Bytes)>)
    requires ps != [] && DecodePair(ps[0]) == Some(f) && DecodePairs(ps[1..]) == Some(rest)
    ensures DecodePairs(ps) == Some([f] + rest)
  {
  }

  /** A receiver that splits the body at '&' and each pair at its first '='
      and percent-decodes both sides gets back every field's name and text,
      in order: neither separator can occur inside an encoded name or value. */
  lemma UrlEncodedRoundTrip(ms: seq<Member>)
    ensures DecodeUrlEncoded(UrlEncodedBody(ms)) == Some(Fields(ms))
  {
    if ms != [] {
      var ps := Pairs(ms);
      forall i | 0 <= i < |ps| ensures '&' !in ps[i] {
        PairRoundTrip(ms[i]);
      }
      JoinExplode(ps, '&');
      assert Join(ps, "&") != [] by {
        if |ps| == 1 {
          assert Join(ps, "&") == ps[0];
        }
        assert |ps[0]| > 0 by { assert ps[0] == Pair(ms[0]); }
        JoinHead(ps, "&");
      }
      PairsRoundTrip(ms);
    }
  }

  lemma JoinHead(xs: seq<Bytes>, sep: Bytes)
    requires xs != []
    ensures |Join(xs, sep)| >= |xs[0]|
  {
  }

  // ---------------------------------------------------------------------
  // multipart/form-data

  /** The header lines of one part: the Content-Disposition line with the
      field's name and, for a file, its filename (the override given to
      append(), else the file's own name) and a Content-Type line with its
      MIME type. An unset name or type is written as "". */
  function PartHead(m: Member): Bytes {
    match m.value
    case Text(_) =>
      NamePrefix + m.name + Quote + CRLF
    case Upload(f) =>
      NamePrefix + m.name + FilenameInfix + m.filename.GetOr(f.filename.GetOr([])) + Quote + CRLF
      + ContentTypePrefix + f.mimetype.GetOr([]) + CRLF
  }

  /** The bytes a part carries: the text, or the whole file as
      readAsString() returns it (false written as ""). */
  function PartContent(fs: FileSystem, m: Member): Bytes {
    match m.value
    case Text(t) => t
    case Upload(f) => ReadAll(fs, f).GetOr("")
  }

  /** A body part in the sense of RFC 2046: header lines, a blank line, the content. */
  function BodyPart(fs: FileSystem, m: Member): Bytes {
    PartHead(m) + CRLF + PartContent(fs, m)
  }

  function Delimiter(boundary: Bytes): Bytes {
    "--" + boundary
  }

  /** What one turn of send()'s multipart loop appends. */
  function Part(fs: FileSystem, boundary: Bytes, m: Member): Bytes {
    CRLF + BodyPart(fs, m) + CRLF + Delimiter(boundary)
  }

  function Parts(fs: FileSystem, boundary: Bytes, ms: seq<Member>): Bytes {
    if ms == [] then []
    else Parts(fs, boundary, ms[..|ms| - 1]) + Part(fs, boundary, ms[|ms| - 1])
  }

  /** One more field for the loop that writes the parts after the opening
      delimiter. */
  lemma PartsStep(fs: FileSystem, boundary: Bytes, ms: seq<Member>, k: nat, written: Bytes)
    requires k < |ms|
    requires written == Delimiter(boundary) + Parts(fs, boundary, ms[..k])
    ensures written + Part(fs, boundary, ms[k]) == Delimiter(boundary) + Parts(fs, boundary, ms[..k + 1])
  {
    var p := ms[..k + 1];
    assert p[..|p| - 1] == ms[..k] && p[|p| - 1] == ms[k];
    var done, next := Parts(fs, boundary, ms[..k]), Part(fs, boundary, ms[k]);
    assert Parts(fs, boundary, p) == done + next;
    Associative(Delimiter(boundary), done, next);
  }

  lemma Associative(a: Bytes, b: Bytes, c: Bytes)
    ensures a + b + c == a + (b + c)
  {
  }

  /** What send() writes for a form with a file or with multipart set. */
  function MultipartBody(fs: FileSystem, boundary: Bytes, ms: seq<Member>): Bytes {
    Delimiter(boundary) + Parts(fs, boundary, ms) + "--" + CRLF
  }

  /** The loop's text once every field is written, closed by "--" and CRLF. */
  lemma MultipartClose(fs: FileSystem, boundary: Bytes, ms: seq<Member>, written: Bytes)
    requires written == Delimiter(boundary) + Parts(fs, boundary, ms)
    ensures written + "--" + CRLF == MultipartBody(fs, boundary, ms)
  {
  }

  function BodyParts(fs: FileSystem, ms: seq<Member>): (bs: seq<Bytes>)
    ensures |bs| == |ms|
  {
    if ms == [] then [] else BodyParts(fs, ms[..|ms| - 1]) + [BodyPart(fs, ms[|ms| - 1])]
  }

  lemma {:induction false} PartsFraming(fs: FileSystem, boundary: Bytes, ms: seq<Member>)
    requires ms != []
    ensures Parts(fs, boundary, ms)
            == CRLF + Join(BodyParts(fs, ms), CRLF + Delimiter(boundary) + CRLF) + CRLF + Delimiter(boundary)
  {
    var d := Delimiter(boundary);
    var sep := CRLF + d + CRLF;
    var n := |ms| - 1;
    if n == 0 {
    } else {
      var init := ms[..n];
      PartsFraming(fs, boundary, init);
      JoinSnoc(BodyParts(fs, init), BodyPart(fs, ms[n]), sep);
      var j := Join(BodyParts(fs, init), sep);
      var b := BodyPart(fs, ms[n]);
      assert Parts(fs, boundary, ms) == Parts(fs, boundary, init) + Part(fs, boundary, ms[n]);
      Regroup(j, b, d);
    }
  }

  lemma Regroup(j: Bytes, b: Bytes, d: Bytes)
    ensures (CRLF + j + CRLF + d) + (CRLF + b + CRLF + d) == CRLF + (j + (CRLF + d + CRLF) + b) + CRLF + d
  {
  }

  /** The framing of section 5.1.1 of RFC 2046: the delimiter line, the body
      parts separated by delimiter lines, and the close delimiter
      ("--" boundary "--") followed by CRLF. */
  lemma MultipartFraming(fs: FileSystem, boundary: Bytes, ms: seq<Member>)
    requires ms != []
    ensures MultipartBody(fs, boundary, ms)
            == Delimiter(boundary) + CRLF
               + Join(BodyParts(fs, ms), CRLF + Delimiter(boundary) + CRLF)
               + CRLF + Delimiter(boundary) + "--" + CRLF
  {
    PartsFraming(fs, boundary, ms);
    Reframe(Delimiter(boundary), Join(BodyParts(fs, ms), CRLF + Delimiter(boundary) + CRLF));
  }

  lemma Reframe(d: Bytes, j: Bytes)
    ensures d + (CRLF + j + CRLF + d) + "--" + CRLF == d + CRLF + j + CRLF + d + "--" + CRLF
  {
  }

  /** With no field at all, the body is the close delimiter alone. */
  lemma MultipartEmpty(fs: FileSystem, boundary: Bytes)
    ensures MultipartBody(fs, boundary, []) == Delimiter(boundary) + "--" + CRLF
  {
  }
}
