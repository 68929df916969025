/** PHP's associative array with string keys, as the request object uses it
    for its header and cookie tables: a list of entries in insertion order,
    where assigning to an existing key overwrites that entry where it stands
    and assigning to a new key appends an entry at the end. */
module Assoc {
  import opened Text

  type Dict = seq<(Bytes, Bytes)>

  function Keys(d: Dict): (ks: seq<Bytes>)
    ensures |ks| == |d|
    ensures forall i {:trigger ks[i]} :: 0 <= i < |d| ==> ks[i] == d[i].0
  {
    seq(|d|, i requires 0 <= i < |d| => d[i].0)
  }

  /** No key occurs twice: what a PHP array guarantees. */
  predicate UniqueKeys(d: Dict) {
    forall i, j :: 0 <= i < j < |d| ==> Keys(d)[i] != Keys(d)[j]
  }

  /** The value of the first entry at or after position i whose key is k. */
  function Find(d: Dict, k: Bytes, i: nat): (r: Option<Bytes>)
    requires i <= |d|
    ensures r.None? <==> forall j :: i <= j < |d| ==> d[j].0 != k
    ensures r.Some? ==> exists j :: i <= j < |d| && d[j] == (k, r.value)
    decreases |d| - i
  {
    if i == |d| then None
    else if d[i].0 == k then Some(d[i].1)
    else Find(d, k, i + 1)
  }

  /** $d[$k], or None when the key is not set. */
  function Get(d: Dict, k: Bytes): (r: Option<Bytes>)
    ensures r.None? <==> k !in Keys(d)
    ensures r.Some? ==> (k, r.value) in d
  {
    var r := Find(d, k, 0);
    assert r.None? <==> k !in Keys(d) by {
      var ks := Keys(d);
      if k in ks {
        var j :| 0 <= j < |ks| && ks[j] == k;
        assert d[j].0 == k;
      }
      if r.Some? {
        var j :| 0 <= j < |d| && d[j] == (k, r.value);
        assert ks[j] == k;
      }
    }
    r
  }

  /** $d[$k] = $v: an existing key is overwritten where it stands, a new
      key is appended. (A PHP array holds each key once, so the entry with
      key k is the only one to overwrite.) */
  function Put(d: Dict, k: Bytes, v: Bytes): (r: Dict)
    ensures k in Keys(d) ==> Keys(r) == Keys(d)
    ensures k !in Keys(d) ==> r == d + [(k, v)]
  {
    if k in Keys(d) then
      var r := seq(|d|, i requires 0 <= i < |d| => if d[i].0 == k then (k, v) else d[i]);
      assert Keys(r) == Keys(d);
      r
    else d + [(k, v)]
  }

  /** Overwriting every entry with key k, in place, changes only what Find
      gives for k. */
  lemma {:induction false} FindAfterOverwrite(d: Dict, r: Dict, k: Bytes, v: Bytes, k': Bytes, i: nat)
    requires i <= |d| == |r|
    requires forall j :: 0 <= j < |d| ==> r[j] == if d[j].0 == k then (k, v) else d[j]
    ensures Find(r, k', i) == if k' == k && Find(d, k, i).Some? then Some(v) else Find(d, k', i)
    decreases |d| - i
  {
    if i < |d| {
      FindAfterOverwrite(d, r, k, v, k', i + 1);
    }
  }

  lemma {:induction false} FindAppend(d: Dict, k: Bytes, v: Bytes, k': Bytes, i: nat)
    requires i <= |d|
    requires k !in Keys(d)
    ensures Find(d + [(k, v)], k', i) == if k' == k then Some(v) else Find(d, k', i)
    decreases |d| - i
  {
    var r := d + [(k, v)];
    if i < |d| {
      assert r[i] == d[i];
      assert Keys(d)[i] == d[i].0;
      FindAppend(d, k, v, k', i + 1);
    } else {
      assert r[i] == (k, v);
    }
  }

  /** After $d[$k] = $v, $d[$k] is $v and every other key reads as before. */
  lemma PutThenGet(d: Dict, k: Bytes, v: Bytes)
    ensures Get(Put(d, k, v), k) == Some(v)
    ensures forall k' :: k' != k ==> Get(Put(d, k, v), k') == Get(d, k')
  {
    if k in Keys(d) {
      var r := Put(d, k, v);
      forall k' ensures Find(r, k', 0) == if k' == k && Find(d, k, 0).Some? then Some(v) else Find(d, k', 0) {
        FindAfterOverwrite(d, r, k, v, k', 0);
      }
    } else {
      forall k' ensures Find(d + [(k, v)], k', 0) == if k' == k then Some(v) else Find(d, k', 0) {
        FindAppend(d, k, v, k', 0);
      }
    }
  }

  /** A table whose keys are unique keeps them unique under assignment. */
  lemma PutKeepsKeysUnique(d: Dict, k: Bytes, v: Bytes)
    requires UniqueKeys(d)
    ensures UniqueKeys(Put(d, k, v))
  {
    var r := Put(d, k, v);
    if k !in Keys(d) {
      forall i, j | 0 <= i < j < |r| ensures Keys(r)[i] != Keys(r)[j] {
        assert Keys(r) == Keys(d) + [k];
      }
    }
  }
}
