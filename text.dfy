/** Byte strings and the PHP string primitives the client relies on:
    trim, strtolower/strtoupper, strpos, explode, implode, substr and the
    decimal rendering of an integer. */
module Text {

  /** One byte: a character below 256. A PHP string is a sequence of them. */
  type Octet = c: char | c as int < 256

  type Bytes = seq<Octet>

  datatype Option<+T> = None | Some(value: T) {
    function GetOr(default: T): T {
      match this
      case Some(v) => v
      case None => default
    }
  }

  const CRLF: Bytes := "\r\n"

  /** PHP `empty()` on a string: true for "" and for "0". */
  predicate IsPhpEmpty(s: Bytes) {
    s == "" || s == "0"
  }

  // ---------------------------------------------------------------------
  // Case mapping (ASCII only, as PHP's strtolower/strtoupper)

  function LowerChar(c: Octet): (r: Octet)
    ensures 'A' <= c <= 'Z' ==> r as int == c as int + 32
    ensures !('A' <= c <= 'Z') ==> r == c
  {
    if 'A' <= c <= 'Z' then (c as int + 32) as char else c
  }

  function UpperChar(c: Octet): (r: Octet)
    ensures 'a' <= c <= 'z' ==> r as int == c as int - 32
    ensures !('a' <= c <= 'z') ==> r == c
  {
    if 'a' <= c <= 'z' then (c as int - 32) as char else c
  }

  function Lower(s: Bytes): (r: Bytes)
    ensures |r| == |s|
    ensures forall i :: 0 <= i < |s| ==> r[i] == LowerChar(s[i])
  {
    seq(|s|, i requires 0 <= i < |s| => LowerChar(s[i]))
  }

  function Upper(s: Bytes): (r: Bytes)
    ensures |r| == |s|
    ensures forall i :: 0 <= i < |s| ==> r[i] == UpperChar(s[i])
  {
    seq(|s|, i requires 0 <= i < |s| => UpperChar(s[i]))
  }

  // ---------------------------------------------------------------------
  // trim(): strips " \t\n\r\0\x0B" from both ends

  predicate IsTrimChar(c: Octet) {
    c == ' ' || c == '\t' || c == '\n' || c == '\r' || c == '\0' || c == '\U{B}'
  }

  predicate AllTrimChars(s: Bytes) {
    forall i :: 0 <= i < |s| ==> IsTrimChar(s[i])
  }

  /** The index of the first byte from i on that is not a trim character. */
  function LeadingTrim(s: Bytes, i: nat): (k: nat)
    requires i <= |s|
    ensures i <= k <= |s|
    ensures forall m :: i <= m < k ==> IsTrimChar(s[m])
    ensures k < |s| ==> !IsTrimChar(s[k])
    decreases |s| - i
  {
    if i < |s| && IsTrimChar(s[i]) then LeadingTrim(s, i + 1) else i
  }

  /** The index just past the last byte before j that is not a trim character. */
  function TrailingTrim(s: Bytes, j: nat): (k: nat)
    requires j <= |s|
    ensures k <= j
    ensures forall m :: k <= m < j ==> IsTrimChar(s[m])
    ensures k > 0 ==> !IsTrimChar(s[k - 1])
  {
    if j > 0 && IsTrimChar(s[j - 1]) then TrailingTrim(s, j - 1) else j
  }

  /** What is left once the leading trim characters are cut: a suffix of
      the input. */
  function TrimLeft(s: Bytes): (r: Bytes)
    ensures |r| <= |s|
    ensures forall i :: 0 <= i < |r| ==> r[i] == s[|s| - |r| + i]
    ensures forall i :: 0 <= i < |s| - |r| ==> IsTrimChar(s[i])
    ensures r != [] ==> !IsTrimChar(r[0])
  {
    var k := LeadingTrim(s, 0);
    seq(|s| - k, i requires 0 <= i < |s| - k => s[k + i])
  }

  /** What is left once the trailing trim characters are cut: a prefix of
      the input. */
  function TrimRight(s: Bytes): (r: Bytes)
    ensures |r| <= |s|
    ensures forall i :: 0 <= i < |r| ==> r[i] == s[i]
    ensures forall i :: |r| <= i < |s| ==> IsTrimChar(s[i])
    ensures r != [] ==> !IsTrimChar(r[|r| - 1])
  {
    var k := TrailingTrim(s, |s|);
    seq(k, i requires 0 <= i < k => s[i])
  }

  function Trim(s: Bytes): Bytes {
    TrimRight(TrimLeft(s))
  }

  /** trim() leaves alone a string that neither starts nor ends with a
      trim character. */
  lemma TrimUnchanged(s: Bytes)
    requires s != [] ==> !IsTrimChar(s[0]) && !IsTrimChar(s[|s| - 1])
    ensures Trim(s) == s
  {
    assert TrimLeft(s) == s;
  }

  /** trim() removes exactly a run of trim characters at each end: what is
      left is a factor of the input that neither starts nor ends with one. */
  lemma TrimCharacterised(s: Bytes)
    ensures exists i, j :: 0 <= i <= j <= |s| && Trim(s) == s[i..j]
                           && AllTrimChars(s[..i]) && AllTrimChars(s[j..])
    ensures Trim(s) != [] ==> !IsTrimChar(Trim(s)[0]) && !IsTrimChar(Trim(s)[|Trim(s)| - 1])
  {
    var l := TrimLeft(s);
    var r := TrimRight(l);
    var i := |s| - |l|;
    var j := i + |r|;
    assert r == s[i..j] by {
      forall k | 0 <= k < |r| ensures r[k] == s[i..j][k] {
        assert r[k] == l[k] == s[i + k];
      }
    }
    assert AllTrimChars(s[..i]) by {
      forall k | 0 <= k < i ensures IsTrimChar(s[..i][k]) {
        assert s[..i][k] == s[k];
      }
    }
    assert AllTrimChars(s[j..]) by {
      forall k | 0 <= k < |s| - j ensures IsTrimChar(s[j..][k]) {
        assert s[j..][k] == l[|r| + k];
      }
    }
    if r != [] {
      assert r[0] == l[0];
    }
  }

  // ---------------------------------------------------------------------
  // strpos(): the first occurrence of a non-empty pattern

  predicate OccursAt(s: Bytes, pat: Bytes, k: int) {
    0 <= k && k + |pat| <= |s| && s[k..k + |pat|] == pat
  }

  function FindFrom(s: Bytes, pat: Bytes, from: nat): (r: Option<nat>)
    requires |pat| > 0
    ensures r.Some? ==> from <= r.value && OccursAt(s, pat, r.value)
                        && forall j :: from <= j < r.value ==> !OccursAt(s, pat, j)
    ensures r.None? ==> forall j :: from <= j ==> !OccursAt(s, pat, j)
    decreases |s| - from
  {
    if from + |pat| > |s| then None
    else if s[from..from + |pat|] == pat then Some(from)
    else FindFrom(s, pat, from + 1)
  }

  /** PHP strpos($s, $pat): the index of the first occurrence, or None for false. */
  function StrPos(s: Bytes, pat: Bytes): (r: Option<nat>)
    requires |pat| > 0
    ensures r.Some? ==> OccursAt(s, pat, r.value)
                        && forall j :: 0 <= j < r.value ==> !OccursAt(s, pat, j)
    ensures r.None? ==> forall j :: 0 <= j ==> !OccursAt(s, pat, j)
  {
    FindFrom(s, pat, 0)
  }

  // ---------------------------------------------------------------------
  // implode() and explode()

  function Join(xs: seq<Bytes>, sep: Bytes): Bytes {
    if xs == [] then []
    else if |xs| == 1 then xs[0]
    else xs[0] + sep + Join(xs[1..], sep)
  }

  /** PHP explode($sep, $s) without a limit. It never returns an empty list. */
  function Explode(s: Bytes, sep: Bytes): (r: seq<Bytes>)
    requires |sep| > 0
    ensures |r| >= 1
    decreases |s|
  {
    match StrPos(s, sep)
    case None => [s]
    case Some(k) => [s[..k]] + Explode(s[k + |sep|..], sep)
  }

  predicate Contains(s: Bytes, pat: Bytes) {
    exists k :: 0 <= k <= |s| && OccursAt(s, pat, k)
  }

  /** explode() is undone by implode() with the same separator. */
  lemma {:induction false} ExplodeJoin(s: Bytes, sep: Bytes)
    requires |sep| > 0
    ensures Join(Explode(s, sep), sep) == s
    decreases |s|
  {
    var p := StrPos(s, sep);
    if p.Some? {
      var k := p.value;
      var rest := s[k + |sep|..];
      var head := s[..k];
      assert Explode(s, sep) == [head] + Explode(rest, sep);
      ExplodeJoin(rest, sep);
      JoinCons(head, Explode(rest, sep), sep);
      assert s == head + s[k..k + |sep|] + rest;
    } else {
      assert Explode(s, sep) == [s];
    }
  }

  lemma JoinCons(x: Bytes, xs: seq<Bytes>, sep: Bytes)
    requires xs != []
    ensures Join([x] + xs, sep) == x + sep + Join(xs, sep)
  {
    assert ([x] + xs)[1..] == xs;
  }

  /** No piece that explode() returns contains the separator. */
  lemma {:induction false} ExplodePiecesFree(s: Bytes, sep: Bytes)
    requires |sep| > 0
    ensures forall i :: 0 <= i < |Explode(s, sep)| ==> !Contains(Explode(s, sep)[i], sep)
    decreases |s|
  {
    match StrPos(s, sep)
    case None =>
      assert Explode(s, sep) == [s];
      forall j | OccursAt(s, sep, j) ensures false {
      }
    case Some(k) =>
      var rest := s[k + |sep|..];
      ExplodePiecesFree(rest, sep);
      var piece := s[..k];
      assert Explode(s, sep) == [piece] + Explode(rest, sep);
      forall j | OccursAt(piece, sep, j) ensures false {
        assert piece[j..j + |sep|] == s[j..j + |sep|];
        assert OccursAt(s, sep, j);
      }
  }

  /** With a one-byte separator the converse also holds: explode() recovers
      the pieces that were imploded, provided none contains the separator. */
  lemma {:induction false} JoinExplode(xs: seq<Bytes>, c: Octet)
    requires |xs| >= 1
    requires forall i :: 0 <= i < |xs| ==> c !in xs[i]
    ensures Explode(Join(xs, [c]), [c]) == xs
  {
    var s := Join(xs, [c]);
    if |xs| == 1 {
      match StrPos(s, [c])
      case None =>
      case Some(k) =>
        NoByteNoOccurrence(s, c);
        assert false;
    } else {
      var x := xs[0];
      var rest := Join(xs[1..], [c]);
      assert s == x + [c] + rest;
      assert OccursAt(s, [c], |x|) by { assert s[|x|..|x| + 1] == [c]; }
      forall j | 0 <= j < |x| ensures !OccursAt(s, [c], j) {
        assert s[j] == x[j];
      }
      assert StrPos(s, [c]) == Some(|x|);
      assert s[..|x|] == x;
      assert s[|x| + 1..] == rest;
      JoinExplode(xs[1..], c);
    }
  }

  lemma NoByteNoOccurrence(s: Bytes, c: Octet)
    requires c !in s
    ensures forall j :: !OccursAt(s, [c], j)
  {
    forall j ensures !OccursAt(s, [c], j) {
      if 0 <= j && j + 1 <= |s| {
        assert s[j..j + 1][0] == s[j];
      }
    }
  }

  /** The first piece of explode(':', $s, 2): text before the first separator
      byte, and the remainder after it if there is one. */
  function SplitFirst(s: Bytes, c: Octet): (r: (Bytes, Option<Bytes>))
    ensures r.1.None? ==> r.0 == s && c !in s
    ensures r.1.Some? ==> s == r.0 + [c] + r.1.value && c !in r.0
  {
    match StrPos(s, [c])
    case None =>
      assert forall i :: 0 <= i < |s| ==> s[i] != c by {
        forall i | 0 <= i < |s| ensures s[i] != c {
          assert !OccursAt(s, [c], i);
          assert s[i..i + 1] == [s[i]];
        }
      }
      (s, None)
    case Some(k) =>
      assert s[k..k + 1] == [c];
      assert forall i :: 0 <= i < k ==> s[i] != c by {
        forall i | 0 <= i < k ensures s[i] != c {
          assert !OccursAt(s, [c], i);
          assert s[i..i + 1] == [s[i]];
        }
      }
      assert s == s[..k] + [c] + s[k + 1..];
      (s[..k], Some(s[k + 1..]))
  }

  /** The concatenation a loop builds when it appends every item followed by
      the separator. */
  function ConcatTerminated(xs: seq<Bytes>, sep: Bytes): Bytes {
    if xs == [] then [] else ConcatTerminated(xs[..|xs| - 1], sep) + xs[|xs| - 1] + sep
  }

  /** Appending `item . sep` for every item and cutting the last |sep| bytes
      (PHP's `substr($s, 0, -n)`) gives implode($sep, $items). */
  lemma {:induction false} ConcatTerminatedIsJoin(xs: seq<Bytes>, sep: Bytes)
    requires xs != []
    ensures |ConcatTerminated(xs, sep)| >= |sep|
    ensures ConcatTerminated(xs, sep) == Join(xs, sep) + sep
  {
    if |xs| == 1 {
      assert ConcatTerminated(xs, sep) == xs[0] + sep;
    } else {
      var init := xs[..|xs| - 1];
      ConcatTerminatedIsJoin(init, sep);
      JoinSnoc(init, xs[|xs| - 1], sep);
      assert init + [xs[|xs| - 1]] == xs;
    }
  }

  /** One more item at the end. */
  lemma ConcatTerminatedSnoc(xs: seq<Bytes>, x: Bytes, sep: Bytes)
    ensures ConcatTerminated(xs + [x], sep) == ConcatTerminated(xs, sep) + x + sep
  {
    assert (xs + [x])[..|xs|] == xs;
  }

  lemma {:induction false} JoinSnoc(xs: seq<Bytes>, x: Bytes, sep: Bytes)
    requires xs != []
    ensures Join(xs + [x], sep) == Join(xs, sep) + sep + x
  {
    if |xs| == 1 {
      assert (xs + [x])[1..] == [x];
    } else {
      assert (xs + [x])[1..] == xs[1..] + [x];
      JoinSnoc(xs[1..], x, sep);
    }
  }

  // ---------------------------------------------------------------------
  // Decimal rendering of a non-negative integer (PHP's int-to-string)

  function DigitChar(d: nat): (c: Octet)
    requires d < 10
    ensures '0' <= c <= '9' && c as int - '0' as int == d
  {
    ('0' as int + d) as char
  }

  function Decimal(n: nat): (r: Bytes)
    ensures |r| >= 1
    ensures forall i :: 0 <= i < |r| ==> '0' <= r[i] <= '9'
    ensures r[0] == '0' ==> n == 0
  {
    if n < 10 then [DigitChar(n)] else Decimal(n / 10) + [DigitChar(n % 10)]
  }

  /** Reads a string of decimal digits back into a number. */
  function DecimalValue(s: Bytes): nat
    requires forall i :: 0 <= i < |s| ==> '0' <= s[i] <= '9'
  {
    if s == [] then 0
    else DecimalValue(s[..|s| - 1]) * 10 + (s[|s| - 1] as int - '0' as int)
  }

  /** The decimal rendering is read back as the same number. */
  lemma {:induction false} DecimalRoundTrip(n: nat)
    ensures DecimalValue(Decimal(n)) == n
  {
    if n >= 10 {
      var r := Decimal(n);
      DecimalRoundTrip(n / 10);
      assert r[..|r| - 1] == Decimal(n / 10);
    }
  }
}
