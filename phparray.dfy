/** PHP's ordered array with string keys, as `get_status` builds its `$info`:
    writing to a key that exists replaces the value in place, writing to a
    new key appends an entry at the end, and reading a missing key gives
    null. */
module PhpArray {
  import opened Bytes
  import opened Wrappers
  import Php

  /** The values `$info` holds: strings, the integers `intval` makes and
      the plugin list `explode` makes. */
  datatype Value = Str(s: bytes) | Int(i: int) | List(items: seq<bytes>)

  datatype Entry = Entry(key: bytes, value: Value)

  type Array = seq<Entry>

  predicate UniqueKeys(a: Array) {
    forall i, j :: 0 <= i < j < |a| ==> a[i].key != a[j].key
  }

  predicate HasKey(a: Array, k: bytes) {
    exists i :: 0 <= i < |a| && a[i].key == k
  }

  function IndexOf(a: Array, k: bytes): (r: Option<nat>)
    ensures r.Some? ==> r.value < |a| && a[r.value].key == k
    ensures r.Some? ==> forall i :: 0 <= i < r.value ==> a[i].key != k
    ensures r.None? <==> !HasKey(a, k)
  {
    if |a| == 0 then None
    else if a[0].key == k then Some(0)
    else
      var r := IndexOf(a[1..], k);
      assert HasKey(a, k) <==> HasKey(a[1..], k) by {
        if HasKey(a, k) {
          var i :| 0 <= i < |a| && a[i].key == k;
          assert a[1..][i - 1].key == k;
        }
        if HasKey(a[1..], k) {
          var i :| 0 <= i < |a| - 1 && a[1..][i].key == k;
          assert a[i + 1].key == k;
        }
      }
      match r
      case None => None
      case Some(i) => Some(i + 1)
  }

  /** `$a[$k]`, where a missing key reads as null (None). */
  function Get(a: Array, k: bytes): (r: Option<Value>)
    ensures r.Some? <==> HasKey(a, k)
  {
    match IndexOf(a, k)
    case None => None
    case Some(i) => Some(a[i].value)
  }

  /** `$a[$k] = $v`, entry by entry: the entry with the key takes the new
      value in place, and a key not found is appended at the end. What a
      write does to reads, order and uniqueness is stated by the lemmas
      below. */
  function Set(a: Array, k: bytes, v: Value): Array {
    if a == [] then [Entry(k, v)]
    else if a[0].key == k then [Entry(k, v)] + a[1..]
    else [a[0]] + Set(a[1..], k, v)
  }

  /** A write to a new key appends an entry at the end; a write to an
      existing key replaces its first entry in place. */
  lemma {:induction false} SetAt(a: Array, k: bytes, v: Value)
    ensures IndexOf(a, k).None? ==> Set(a, k, v) == a + [Entry(k, v)]
    ensures IndexOf(a, k).Some? ==> Set(a, k, v) == a[IndexOf(a, k).value := Entry(k, v)]
  {
    if a != [] && a[0].key != k {
      SetAt(a[1..], k, v);
      assert a == [a[0]] + a[1..];
    }
  }

  /** A write makes the key read back the value and leaves every other key
      reading as before. */
  lemma SetGet(a: Array, k: bytes, v: Value)
    ensures Get(Set(a, k, v), k) == Some(v)
    ensures forall k' :: k' != k ==> Get(Set(a, k, v), k') == Get(a, k')
  {
    SetAt(a, k, v);
    match IndexOf(a, k)
    case None => AppendGet(a, Entry(k, v));
    case Some(i) => ReplaceGet(a, i, Entry(k, v));
  }

  /** Appending an entry with a new key: the key reads back its value,
      every other key reads as before. */
  lemma AppendGet(a: Array, e: Entry)
    requires !HasKey(a, e.key)
    ensures Get(a + [e], e.key) == Some(e.value)
    ensures forall k' :: k' != e.key ==> Get(a + [e], k') == Get(a, k')
  {
    var r := a + [e];
    IndexOfIs(r, e.key, |a|);
    forall k' | k' != e.key ensures Get(r, k') == Get(a, k') {
      SameKeysPrefixIndex(a, r, k');
    }
  }

  /** Replacing the first entry with a key: the key reads back the new
      value, every other key reads as before. */
  lemma ReplaceGet(a: Array, i: nat, e: Entry)
    requires IndexOf(a, e.key) == Some(i)
    ensures Get(a[i := e], e.key) == Some(e.value)
    ensures forall k' :: k' != e.key ==> Get(a[i := e], k') == Get(a, k')
  {
    var r := a[i := e];
    IndexOfIs(r, e.key, i);
    forall k' | k' != e.key ensures Get(r, k') == Get(a, k') {
      SameKeysPrefixIndex(a, r, k');
      SameKeysPrefixIndex(r, a, k');
    }
  }

  /** A write to a new key appends an entry at the end; a write to an
      existing key keeps every key where it was. */
  lemma SetShape(a: Array, k: bytes, v: Value)
    ensures !HasKey(a, k) ==> Set(a, k, v) == a + [Entry(k, v)]
    ensures HasKey(a, k) ==> |Set(a, k, v)| == |a| && forall i :: 0 <= i < |a| ==> Set(a, k, v)[i].key == a[i].key
  {
    SetAt(a, k, v);
  }

  /** A write never duplicates a key: it replaces an existing entry in
      place or appends a key that was absent. */
  lemma SetKeepsUnique(a: Array, k: bytes, v: Value)
    requires UniqueKeys(a)
    ensures UniqueKeys(Set(a, k, v))
  {
    SetAt(a, k, v);
  }

  /** `IndexOf` is pinned down by its contract: the first index with key `k`. */
  lemma IndexOfIs(a: Array, k: bytes, i: nat)
    requires i < |a| && a[i].key == k
    requires forall j :: 0 <= j < i ==> a[j].key != k
    ensures IndexOf(a, k) == Some(i)
  {
    assert HasKey(a, k);
  }

  /** When `b` starts with the keys of `a`, a key found in `a` is found at
      the same place in `b`; a key not found in `a` is found in `b` only
      past the end of `a`. */
  lemma SameKeysPrefixIndex(a: Array, b: Array, k: bytes)
    requires |a| <= |b|
    requires forall i :: 0 <= i < |a| ==> a[i].key == b[i].key
    ensures IndexOf(a, k).Some? ==> IndexOf(b, k) == IndexOf(a, k)
    ensures IndexOf(a, k).None? && |a| == |b| ==> IndexOf(b, k).None?
    ensures IndexOf(a, k).None? && IndexOf(b, k).Some? ==> IndexOf(b, k).value >= |a|
  {
    if IndexOf(a, k).Some? {
      IndexOfIs(b, k, IndexOf(a, k).value);
    }
  }

  /** `intval($v)` for a value that may be null. */
  function IntValOf(v: Option<Value>): int {
    match v
    case None => 0
    case Some(Str(s)) => Php.IntVal(s)
    case Some(Int(i)) => i
    case Some(List(xs)) => if xs == [] then 0 else 1
  }

  /** PHP's `if ($v)` on a value that may be null. */
  predicate TruthyValue(v: Option<Value>) {
    match v
    case None => false
    case Some(Str(s)) => Php.Truthy(s)
    case Some(Int(i)) => i != 0
    case Some(List(xs)) => xs != []
  }

  /** The string PHP converts a value to when a string is expected. */
  function StringOf(v: Value): bytes {
    match v
    case Str(s) => s
    case Int(i) => Php.SignedDecimal(i)
    case List(_) => Ascii("Array")
  }
}
