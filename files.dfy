/** The File object: a handle on a regular file that a request can upload,
    either as the whole body or as one part of a multipart form.

    Its four fields are assigned once, by the constructor, and never changed
    afterwards, so the object is modelled as a value. The file system it
    consults (file_exists, is_file, the MIME sniffing of finfo, filesize and
    file_get_contents) is an explicit input: a map from paths to what is
    stored there. */
module Files {
  import opened Text
  import opened Encoding

  /** What the file system holds at a path. */
  datatype Node = Regular(mime: Bytes, content: Bytes) | Directory

  type FileSystem = map<Bytes, Node>

  predicate IsRegularFile(fs: FileSystem, path: Bytes) {
    path in fs && fs[path].Regular?
  }

  /** A File object. A field that the constructor did not assign stays
      unset (PHP null): a constructor that returns false still yields an
      object. */
  datatype File = File(filepath: Option<Bytes>, mimetype: Option<Bytes>,
                       filesize: Option<nat>, filename: Option<Bytes>)

  const Unset := File(None, None, None, None)

  // ---------------------------------------------------------------------
  // basename()

  /** The path without the run of '/' it ends with. */
  function StripTrailingSlashes(p: Bytes): (r: Bytes)
    ensures |r| <= |p| && r == p[..|r|]
    ensures r == [] || r[|r| - 1] != '/'
    ensures forall i :: |r| <= i < |p| ==> p[i] == '/'
  {
    if p != [] && p[|p| - 1] == '/' then StripTrailingSlashes(p[..|p| - 1]) else p
  }

  /** The text after the last '/', or all of it when there is none. */
  function LastSegment(p: Bytes): (r: Bytes)
    ensures |r| <= |p| && r == p[|p| - |r|..]
    ensures '/' !in r
    ensures |r| < |p| ==> p[|p| - |r| - 1] == '/'
  {
    if p == [] || p[|p| - 1] == '/' then []
    else
      var r := LastSegment(p[..|p| - 1]) + [p[|p| - 1]];
      assert p[|p| - |r|..] == p[..|p| - 1][|p| - |r|..] + [p[|p| - 1]];
      r
  }

  /** PHP basename(): the last segment of the path once trailing slashes are
      removed. */
  function Basename(p: Bytes): (r: Bytes)
    ensures '/' !in r
    ensures var q := StripTrailingSlashes(p);
            |r| <= |q| && r == q[|q| - |r|..] && (|r| < |q| ==> q[|q| - |r| - 1] == '/')
  {
    LastSegment(StripTrailingSlashes(p))
  }

  /** The basename of "dir/name" is "name", whatever the directory part is. */
  lemma BasenameOfChild(dir: Bytes, name: Bytes)
    requires name != [] && '/' !in name
    ensures Basename(dir + "/" + name) == name
  {
    var a := dir + "/";
    var p := a + name;
    assert p[|p| - 1] == name[|name| - 1];
    assert StripTrailingSlashes(p) == p;
    LastSegmentAfterSlash(a, name);
  }

  lemma {:induction false} LastSegmentAfterSlash(a: Bytes, name: Bytes)
    requires a != [] && a[|a| - 1] == '/' && '/' !in name
    ensures LastSegment(a + name) == name
  {
    if name != [] {
      var p := a + name;
      var init := name[..|name| - 1];
      var last := name[|name| - 1];
      assert p[|p| - 1] == last && last != '/';
      assert p[..|p| - 1] == a + init;
      assert '/' !in init by {
        forall i | 0 <= i < |init| ensures init[i] != '/' {
          assert init[i] == name[i];
        }
      }
      LastSegmentAfterSlash(a, init);
      assert LastSegment(p) == LastSegment(a + init) + [last];
      assert init + [last] == name;
    } else {
      assert a + name == a;
    }
  }

  // ---------------------------------------------------------------------
  // The constructor

  /** new File($filepath): the fields are set only when the path is not
      PHP-empty ("" or "0") and names an existing regular file. */
  function NewFile(fs: FileSystem, path: Bytes): (f: File)
    ensures f.filepath.Some? <==> !IsPhpEmpty(path) && IsRegularFile(fs, path)
    ensures f.filepath.None? ==> f == Unset
    ensures f.filepath.Some? ==>
              f.filepath == Some(path) && f.mimetype == Some(fs[path].mime)
              && f.filesize == Some(|fs[path].content|) && f.filename == Some(Basename(path))
  {
    if !IsPhpEmpty(path) && IsRegularFile(fs, path) then
      File(Some(path), Some(fs[path].mime), Some(|fs[path].content|), Some(Basename(path)))
    else Unset
  }

  // ---------------------------------------------------------------------
  // __get()

  /** What the magic getter hands out. */
  datatype Attr = AttrText(text: Bytes) | AttrSize(size: nat) | AttrNull | AttrFalse

  function TextAttr(o: Option<Bytes>): Attr {
    match o
    case Some(s) => AttrText(s)
    case None => AttrNull
  }

  /** $file->$name: the name is lower-cased and must be one of the four
      fields; any other name gives false. An unset field gives null. */
  function Get(f: File, name: Bytes): (r: Attr)
    ensures r.AttrFalse? <==> Lower(name) !in {"mimetype", "filesize", "filename", "filepath"}
    ensures Lower(name) == "filename" ==> r == TextAttr(f.filename)
    ensures Lower(name) == "filepath" ==> r == TextAttr(f.filepath)
    ensures Lower(name) == "mimetype" ==> r == TextAttr(f.mimetype)
    ensures Lower(name) == "filesize" ==> (r.AttrSize? <==> f.filesize.Some?)
    ensures Lower(name) == "filesize" && f.filesize.Some? ==> r == AttrSize(f.filesize.value)
    ensures Lower(name) == "filesize" && f.filesize.None? ==> r == AttrNull
  {
    var n := Lower(name);
    if n == "mimetype" then TextAttr(f.mimetype)
    else if n == "filesize" then (if f.filesize.Some? then AttrSize(f.filesize.value) else AttrNull)
    else if n == "filename" then TextAttr(f.filename)
    else if n == "filepath" then TextAttr(f.filepath)
    else AttrFalse
  }

  // ---------------------------------------------------------------------
  // readAsString() and readAsDataURI()

  /** An argument as PHP's is_int() sees it: an integer, or anything else. */
  datatype Scalar = Int(n: int) | NotInt

  /** The offset readAsString() passes on: a non-integer, or an integer
      below -1, becomes -1. */
  function NormalizeOffset(offset: Scalar): (o: int)
    ensures o >= -1
    ensures offset.Int? && offset.n >= -1 ==> o == offset.n
    ensures !(offset.Int? && offset.n >= -1) ==> o == -1
  {
    if offset.Int? && offset.n >= -1 then offset.n else -1
  }

  /** The length limit readAsString() passes on: only an integer above 0
      limits the read. */
  function ReadLimit(maxlen: Scalar): (r: Option<nat>)
    ensures r.Some? <==> maxlen.Int? && maxlen.n > 0
    ensures r.Some? ==> r.value == maxlen.n
  {
    if maxlen.Int? && maxlen.n > 0 then Some(maxlen.n) else None
  }

  /** Where a read starts in a file of the given length: offset -1 means
      the start (file_get_contents() up to PHP 7.0, whose default offset it
      was), and an offset past the end means the end. */
  function ReadStart(o: int, length: nat): (start: nat)
    requires o >= -1
    ensures start <= length
    ensures o == -1 ==> start == 0
    ensures 0 <= o <= length ==> start == o
    ensures o > length ==> start == length
  {
    if o == -1 then 0 else if o > length then length else o
  }

  predicate IsFactor(s: Bytes, whole: Bytes) {
    exists i, j :: 0 <= i <= j <= |whole| && whole[i..j] == s
  }

  /** $file->readAsString($offset, $maxlen), with file_get_contents() as it
      was up to PHP 7.0. None stands for PHP false, which it returns when the
      path is unset or names nothing any more. A path that has become a
      directory opens, and reading it gives "". On a regular file, offset -1
      reads from the start and an offset past the end reads nothing. */
  function ReadAsString(fs: FileSystem, f: File, offset: Scalar, maxlen: Scalar): (r: Option<Bytes>)
    ensures r.Some? <==> f.filepath.Some? && f.filepath.value in fs
    ensures r.Some? && fs[f.filepath.value].Directory? ==> r.value == []
    ensures r.Some? && IsRegularFile(fs, f.filepath.value) ==> IsFactor(r.value, fs[f.filepath.value].content)
    ensures r.Some? && ReadLimit(maxlen).Some? ==> |r.value| <= ReadLimit(maxlen).value
    ensures r.Some? && IsRegularFile(fs, f.filepath.value) && NormalizeOffset(offset) == -1
            && ReadLimit(maxlen).None? ==>
              r.value == fs[f.filepath.value].content
    ensures r.Some? && IsRegularFile(fs, f.filepath.value) && NormalizeOffset(offset) >= 0 ==>
              var content := fs[f.filepath.value].content;
              var start := NormalizeOffset(offset);
              (start >= |content| ==> r.value == []) &&
              (start < |content| ==> r.value <= content[start..])
  {
    if f.filepath.Some? && IsRegularFile(fs, f.filepath.value) then
      var content := fs[f.filepath.value].content;
      var o := NormalizeOffset(offset);
      var start := ReadStart(o, |content|);
      var stop := match ReadLimit(maxlen)
        case Some(n) => if start + n < |content| then start + n else |content|
        case None => |content|;
      Some(content[start..stop])
    else if f.filepath.Some? && f.filepath.value in fs then Some([])
    else None
  }

  /** Which bytes readAsString() returns: those from where the read starts,
      as many as the limit allows or up to the end of the file when there
      is no limit or the limit reaches past it. */
  lemma ReadAsStringExact(fs: FileSystem, f: File, offset: Scalar, maxlen: Scalar)
    requires f.filepath.Some? && IsRegularFile(fs, f.filepath.value)
    ensures var r := ReadAsString(fs, f, offset, maxlen).value;
            var content := fs[f.filepath.value].content;
            var start := ReadStart(NormalizeOffset(offset), |content|);
            start + |r| <= |content| && r == content[start..start + |r|]
            && (ReadLimit(maxlen).None? ==> start + |r| == |content|)
            && (ReadLimit(maxlen).Some? ==>
                  |r| == if start + ReadLimit(maxlen).value < |content|
                         then ReadLimit(maxlen).value else |content| - start)
  {
  }

  /** readAsString() with its default arguments: the whole file. */
  function ReadAll(fs: FileSystem, f: File): Option<Bytes> {
    ReadAsString(fs, f, Int(-1), NotInt)
  }

  /** $file->readAsDataURI(): a data URL (RFC 2397) carrying the MIME type
      and the base 64 form of the whole file. A null field and a false read
      both turn into the empty string. */
  function DataUri(fs: FileSystem, f: File): (r: Bytes)
    ensures exists e :: r == "data:" + f.mimetype.GetOr("") + ";base64," + e
                        && Base64Decode(e) == Some(ReadAll(fs, f).GetOr(""))
  {
    var content := ReadAll(fs, f).GetOr("");
    Base64RoundTrip(content);
    "data:" + f.mimetype.GetOr("") + ";base64," + Base64(content)
  }

  /** The text after ";base64," is fixed by the file: it is the one text
      that decodes to the whole file, so every such text is the one
      readAsDataURI() writes. */
  lemma DataUriCanonical(fs: FileSystem, f: File, e: Bytes)
    requires Base64Decode(e) == Some(ReadAll(fs, f).GetOr(""))
    ensures DataUri(fs, f) == "data:" + f.mimetype.GetOr("") + ";base64," + e
  {
    Base64Canonical(e, ReadAll(fs, f).GetOr(""));
  }
}
