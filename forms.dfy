/** FormData: the fields of an HTML form, in the order they were appended.

    The object keeps three lists: the pending fields, the fields already
    taken from the front (shift) and those already taken from the back (pop).
    Taking a field moves it between lists rather than dropping it, so that
    reset() can put every field back where it was. */
module Forms {
  import opened Text
  import opened Files

  /** A field's value: a string, or a File to upload. */
  datatype Value = Text(text: Bytes) | Upload(file: File)

  /** One form field; `filename` overrides the uploaded file's own name. */
  datatype Member = Member(name: Bytes, value: Value, filename: Option<Bytes>)

  predicate HasUpload(ms: seq<Member>) {
    exists i :: 0 <= i < |ms| && ms[i].value.Upload?
  }

  /** What append() accepts: a name that is not PHP-empty, and a filename
      override only on a file field and only when it is not PHP-empty. */
  predicate WellFormed(m: Member) {
    !IsPhpEmpty(m.name)
    && (m.filename.Some? ==> m.value.Upload? && !IsPhpEmpty(m.filename.value))
  }

  predicate AllWellFormed(ms: seq<Member>) {
    forall i :: 0 <= i < |ms| ==> WellFormed(ms[i])
  }

  lemma HasUploadConcat(a: seq<Member>, b: seq<Member>)
    ensures HasUpload(a + b) <==> HasUpload(a) || HasUpload(b)
    ensures AllWellFormed(a + b) <==> AllWellFormed(a) && AllWellFormed(b)
  {
    if HasUpload(a + b) {
      var i :| 0 <= i < |a + b| && (a + b)[i].value.Upload?;
      if i >= |a| {
        assert b[i - |a|] == (a + b)[i];
      }
    }
    if HasUpload(b) {
      var i :| 0 <= i < |b| && b[i].value.Upload?;
      assert (a + b)[i + |a|] == b[i];
    }
    if HasUpload(a) {
      var i :| 0 <= i < |a| && a[i].value.Upload?;
      assert (a + b)[i] == a[i];
    }
    if AllWellFormed(a + b) {
      forall i | 0 <= i < |a| ensures WellFormed(a[i]) {
        assert (a + b)[i] == a[i];
      }
      forall i | 0 <= i < |b| ensures WellFormed(b[i]) {
        assert (a + b)[i + |a|] == b[i];
      }
    }
    if AllWellFormed(a) && AllWellFormed(b) {
      forall i | 0 <= i < |a + b| ensures WellFormed((a + b)[i]) {
        if i >= |a| {
          assert (a + b)[i] == b[i - |a|];
        }
      }
    }
  }

  /** How appending m to the pending list changes the two invariants. */
  lemma UploadSplit(s: seq<Member>, ms: seq<Member>, p: seq<Member>, old_ms: seq<Member>, m: Member)
    requires ms == old_ms + [m]
    ensures HasUpload(s + ms + p) <==> HasUpload(s + old_ms + p) || m.value.Upload?
    ensures AllWellFormed(s + ms + p) <==> AllWellFormed(s + old_ms + p) && WellFormed(m)
  {
    assert s + ms + p == (s + old_ms) + ([m] + p);
    HasUploadConcat(s + old_ms, [m] + p);
    HasUploadConcat([m], p);
    HasUploadConcat(s + old_ms, p);
    assert s + old_ms + p == (s + old_ms) + p;
    assert HasUpload([m]) <==> m.value.Upload? by {
      if m.value.Upload? { assert [m][0] == m; }
    }
    assert AllWellFormed([m]) <==> WellFormed(m) by {
      assert [m][0] == m;
    }
  }

  class FormData {
    /** The pending fields ($member). */
    var members: seq<Member>
    /** Fields taken by shift(), oldest first ($member_s). */
    var shifted: seq<Member>
    /** Fields taken by pop(), in their original order ($member_p). */
    var popped: seq<Member>
    var hasFile: bool
    var multipart: bool

    /** Every field ever appended: the shifted ones, the pending ones and
        the popped ones, in the order reset() puts them back. This is the
        append order only while no field was appended after a pop()
        (PopThenAppendReorders). */
    ghost function Contents(): seq<Member>
      reads this
    {
      shifted + members + popped
    }

    /** hasFile says exactly whether some field is a file, and every field
        passed append()'s checks. */
    ghost predicate Valid()
      reads this
    {
      (hasFile <==> HasUpload(Contents()))
      && AllWellFormed(Contents())
    }

    constructor ()
      ensures Valid()
      ensures members == [] && shifted == [] && popped == []
      ensures !hasFile && !multipart
    {
      members, shifted, popped := [], [], [];
      hasFile, multipart := false, false;
    }

    /** append($name, $value, $filename). A PHP-empty name is refused and
        nothing changes; otherwise the field goes to the end of the pending
        list, a file sets hasFile for good, and a filename override is kept
        only for a file and only when it is not PHP-empty. */
    method Append(name: Bytes, value: Value, filename: Bytes) returns (ok: bool)
      requires Valid()
      modifies this
      ensures Valid()
      ensures ok <==> !IsPhpEmpty(name)
      ensures !ok ==> unchanged(this)
      ensures ok ==> members == old(members) + [Member(name, value,
                        if value.Upload? && !IsPhpEmpty(filename) then Some(filename) else None)]
      ensures ok ==> hasFile == (old(hasFile) || value.Upload?)
      ensures shifted == old(shifted) && popped == old(popped) && multipart == old(multipart)
    {
      if IsPhpEmpty(name) {
        return false;
      }
      var m: Member;
      if value.Upload? {
        var override := if !IsPhpEmpty(filename) then Some(filename) else None;
        m := Member(name, value, override);
        hasFile := true;
      } else {
        m := Member(name, value, None);
      }
      members := members + [m];
      UploadSplit(shifted, members, popped, old(members), m);
      ok := true;
    }

    /** shift(): moves the first pending field to the end of `shifted` and
        returns it; None (PHP false) when nothing is pending. */
    method Shift() returns (m: Option<Member>)
      requires Valid()
      modifies this`members, this`shifted
      ensures Valid()
      ensures Contents() == old(Contents())
      ensures old(members) == [] ==> m.None? && members == [] && shifted == old(shifted)
      ensures old(members) != [] ==>
                m == Some(old(members)[0]) && members == old(members)[1..]
                && shifted == old(shifted) + [old(members)[0]]
    {
      if members == [] {
        return None;
      }
      var first := members[0];
      ghost var before := Contents();
      members := members[1..];
      shifted := shifted + [first];
      assert Contents() == before;
      m := Some(first);
    }

    /** pop(): moves the last pending field to the front of `popped` and
        returns it; None (PHP false) when nothing is pending. */
    method Pop() returns (m: Option<Member>)
      requires Valid()
      modifies this`members, this`popped
      ensures Valid()
      ensures Contents() == old(Contents())
      ensures old(members) == [] ==> m.None? && members == [] && popped == old(popped)
      ensures old(members) != [] ==>
                m == Some(old(members)[|old(members)| - 1])
                && members == old(members)[..|old(members)| - 1]
                && popped == [old(members)[|old(members)| - 1]] + old(popped)
    {
      if members == [] {
        return None;
      }
      var last := members[|members| - 1];
      ghost var before := Contents();
      members := members[..|members| - 1];
      popped := [last] + popped;
      assert Contents() == before;
      m := Some(last);
    }

    /** reset(): every field back in the pending list: the shifted ones,
        then the pending ones, then the popped ones. */
    method Reset()
      requires Valid()
      modifies this`members, this`shifted, this`popped
      ensures Valid()
      ensures members == old(Contents()) && shifted == [] && popped == []
      ensures Contents() == old(Contents())
    {
      members := shifted + members + popped;
      shifted, popped := [], [];
      assert Contents() == members;
    }

    /** __get($name): only hasFile and multipart can be read; any other name
        gives false. */
    function Property(name: Bytes): (r: bool)
      reads this
      ensures name == "hasFile" ==> r == hasFile
      ensures name == "multipart" ==> r == multipart
      ensures name != "hasFile" && name != "multipart" ==> !r
    {
      if name == "hasFile" then hasFile
      else if name == "multipart" then multipart
      else false
    }

    /** __set($name, $value): only multipart can be written, and the value is
        coerced to a boolean (the caller passes PHP's (bool) of it). */
    method SetProperty(name: Bytes, value: bool)
      requires Valid()
      modifies this`multipart
      ensures Valid()
      ensures multipart == if name == "multipart" then value else old(multipart)
    {
      if name == "multipart" {
        multipart := value;
      }
    }
  }

  /** Any run of shift() and pop() calls (true for shift, false for pop)
      followed by reset() leaves the pending list as it was before the run
      began, with every field taken earlier put back around it. */
  method TakeThenReset(form: FormData, takeFront: seq<bool>)
    requires form.Valid()
    modifies form
    ensures form.Valid()
    ensures form.members == old(form.Contents())
    ensures form.shifted == [] && form.popped == []
  {
    var i := 0;
    while i < |takeFront|
      invariant 0 <= i <= |takeFront|
      invariant form.Valid()
      invariant form.Contents() == old(form.Contents())
    {
      var m;
      if takeFront[i] {
        m := form.Shift();
      } else {
        m := form.Pop();
      }
      i := i + 1;
    }
    form.Reset();
  }

  /** reset() does not give back the append order once a field is appended
      after a pop(): append(a), pop(), append(b), reset() leaves b before a,
      because the popped fields go back after the pending ones. */
  method PopThenAppendReorders(na: Bytes, va: Bytes, nb: Bytes, vb: Bytes) returns (pending: seq<Member>)
    requires !IsPhpEmpty(na) && !IsPhpEmpty(nb)
    ensures pending == [Member(nb, Text(vb), None), Member(na, Text(va), None)]
  {
    var form := new FormData();
    var ok := form.Append(na, Text(va), []);
    var m := form.Pop();
    ok := form.Append(nb, Text(vb), []);
    form.Reset();
    pending := form.members;
  }
}
