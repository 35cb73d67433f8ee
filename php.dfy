/** The parts of PHP's value semantics that the models rely on: cells of
    fetched rows and `empty()`, string concatenation with null, ordered
    associative arrays, and the sequence shapes the fetch loops produce. */
module Php {

  datatype Option<+T> = None | Some(value: T)

  /** A scalar cell of a fetched row: SQL NULL (or a key the row lacks), or
      the string the store hands back for it. */
  datatype Field = Null | Str(s: string)

  /** PHP `empty()` on a scalar cell: null, "" and "0" are empty. */
  predicate Empty(f: Field) {
    f.Null? || f.s == "" || f.s == "0"
  }

  /** PHP's conversion of a cell to a string: null becomes "". */
  function AsString(f: Field): string {
    if f.Null? then "" else f.s
  }

  /** The idiom `(!empty($x)) ? $x : ''`. */
  function OrEmpty(f: Field): (r: string)
    ensures r == "" <==> Empty(f)
    ensures r != "" ==> f == Str(r) && !Empty(Str(r))
  {
    if Empty(f) then "" else f.s
  }

  /** `$x . '%'`: the raw string form of the cell, unchanged, then a percent sign. */
  function Percent(f: Field): (r: string)
    ensures |r| == |AsString(f)| + 1
    ensures r[..|r| - 1] == AsString(f) && r[|r| - 1] == '%'
  {
    AsString(f) + "%"
  }

  predicate Distinct<K(==,!new)>(s: seq<K>) {
    forall i, j :: 0 <= i < j < |s| ==> s[i] != s[j]
  }

  /** A distinct sequence minus its last element is distinct and does not
      hold that element. */
  lemma DistinctSnoc<K(!new)>(s: seq<K>, k: K)
    requires Distinct(s + [k])
    ensures Distinct(s) && k !in s
  {
    assert forall i :: 0 <= i < |s| ==> (s + [k])[i] == s[i];
    assert (s + [k])[|s|] == k;
  }

  /** The iteration order of a PHP array after the keys `ks` are written in
      turn: a key stands where it was first written, and writing it again
      keeps its place. */
  function KeyOrder<K(==,!new)>(ks: seq<K>): (r: seq<K>)
    ensures forall k :: k in r <==> k in ks
    ensures Distinct(r)
    ensures |r| <= |ks|
  {
    if ks == [] then []
    else
      var p := KeyOrder(ks[..|ks| - 1]);
      var k := ks[|ks| - 1];
      assert forall x :: x in ks <==> x in ks[..|ks| - 1] || x == k by {
        assert ks == ks[..|ks| - 1] + [k];
      }
      if k in p then p else p + [k]
  }

  /** Keys written once each keep exactly their writing order. */
  lemma {:induction false} KeyOrderOfDistinct<K(!new)>(ks: seq<K>)
    requires Distinct(ks)
    ensures KeyOrder(ks) == ks
  {
    if ks != [] {
      var p := ks[..|ks| - 1];
      assert Distinct(p);
      KeyOrderOfDistinct(p);
      assert ks[|ks| - 1] !in p;
      assert ks == p + [ks[|ks| - 1]];
    }
  }

  /** Writing one more key: a new key goes to the end, an old one stays put. */
  lemma KeyOrderSnoc<K(!new)>(ks: seq<K>, k: K)
    ensures KeyOrder(ks + [k]) == if k in ks then KeyOrder(ks) else KeyOrder(ks) + [k]
  {
    assert (ks + [k])[..|ks|] == ks;
  }

  /** `s` with every occurrence of `k` removed, the rest in order. */
  function Without<K(==,!new)>(s: seq<K>, k: K): (r: seq<K>)
    ensures forall x :: x in r <==> x in s && x != k
  {
    if s == [] then []
    else
      var p := s[..|s| - 1];
      var x := s[|s| - 1];
      assert forall y :: y in s <==> y in p || y == x by {
        assert s == p + [x];
      }
      Without(p, k) + (if x == k then [] else [x])
  }

  /** Removing a key from distinct keys leaves them distinct. */
  lemma {:induction false} WithoutDistinct<K(!new)>(s: seq<K>, k: K)
    requires Distinct(s)
    ensures Distinct(Without(s, k))
  {
    if s != [] {
      var p := s[..|s| - 1];
      var x := s[|s| - 1];
      assert Distinct(p);
      assert x !in p;
      WithoutDistinct(p, k);
    }
  }

  lemma {:induction false} WithoutAbsent<K(!new)>(s: seq<K>, k: K)
    requires k !in s
    ensures Without(s, k) == s
  {
    if s != [] {
      var p := s[..|s| - 1];
      assert s == p + [s[|s| - 1]];
      WithoutAbsent(p, k);
    }
  }

  /** Removing the one occurrence of `k` that stands between `a` and `b`. */
  lemma {:induction false} WithoutMiddle<K(!new)>(a: seq<K>, k: K, b: seq<K>)
    requires k !in a && k !in b
    ensures Without(a + [k] + b, k) == a + b
    decreases |b|
  {
    if b == [] {
      var s := a + [k];
      assert a + [k] + b == s && a + b == a;
      assert s[..|s| - 1] == a;
      WithoutAbsent(a, k);
    } else {
      var s := a + [k] + b;
      var b' := b[..|b| - 1];
      assert s[..|s| - 1] == a + [k] + b';
      assert b == b' + [b[|b| - 1]];
      WithoutMiddle(a, k, b');
      assert a + b == (a + b') + [b[|b| - 1]];
    }
  }

  /** A PHP array: its keys in iteration order and the value under each key. */
  datatype PArray<K(==,!new), V> = PArray(keys: seq<K>, vals: map<K, V>) {

    ghost predicate Valid() {
      Distinct(keys) && forall k :: k in vals <==> k in keys
    }

    /** `$a[$k]`: the value, or null for a missing key. */
    function Get(k: K): (r: Option<V>)
      ensures r.None? <==> k !in vals
      ensures r.Some? ==> r.value == vals[k]
    {
      if k in vals then Some(vals[k]) else None
    }

    /** `$a[$k] = $v`: overwriting keeps the key's position, a new key is appended. */
    function Put(k: K, v: V): (r: PArray<K, V>)
      requires Valid()
      ensures r.Valid()
      ensures r.vals == vals[k := v]
      ensures k in vals ==> r.keys == keys
      ensures k !in vals ==> r.keys == keys + [k]
    {
      if k in vals then PArray(keys, vals[k := v]) else PArray(keys + [k], vals[k := v])
    }

    /** `unset($a[$k])`: the other keys keep their order. */
    function Unset(k: K): (r: PArray<K, V>)
      requires Valid()
      ensures r.Valid()
      ensures r.vals == vals - {k}
      ensures r.keys == Without(keys, k)
    {
      WithoutDistinct(keys, k);
      PArray(Without(keys, k), vals - {k})
    }

    /** `array_values($a)`: the values re-indexed from 0, in iteration order. */
    function Values(): (r: seq<V>)
      requires Valid()
      ensures |r| == |keys|
      ensures forall i :: 0 <= i < |keys| ==> r[i] == vals[keys[i]]
    {
      seq(|keys|, i requires 0 <= i < |keys| => vals[keys[i]])
    }
  }

  /** Writing key `k` into an array whose keys were written as `ks`. */
  lemma PutKeyOrder<K(!new), V>(a: PArray<K, V>, ks: seq<K>, k: K, v: V)
    requires a.Valid() && a.keys == KeyOrder(ks)
    ensures a.Put(k, v).keys == KeyOrder(ks + [k])
  {
    KeyOrderSnoc(ks, k);
  }

  /** `[]` */
  function NewArray<K(==,!new), V>(): (r: PArray<K, V>)
    ensures r.Valid() && r.keys == [] && r.vals == map[]
  {
    PArray([], map[])
  }

  /** The elements of `s` that satisfy `p`, in their order in `s`. */
  function Select<T(!new)>(s: seq<T>, p: T -> bool): (r: seq<T>)
    ensures |r| <= |s|
    ensures forall x :: x in r <==> x in s && p(x)
    ensures r == [] <==> forall x :: x in s ==> !p(x)
  {
    if s == [] then []
    else
      var q := Select(s[..|s| - 1], p);
      var x := s[|s| - 1];
      assert s == s[..|s| - 1] + [x];
      if p(x) then q + [x] else q
  }

  lemma SelectSnoc<T(!new)>(s: seq<T>, x: T, p: T -> bool)
    ensures Select(s + [x], p) == Select(s, p) + (if p(x) then [x] else [])
  {
    assert (s + [x])[..|s|] == s;
  }

  /** Selecting from distinct elements gives distinct elements. */
  lemma {:induction false} SelectDistinct<T(!new)>(s: seq<T>, p: T -> bool)
    requires Distinct(s)
    ensures Distinct(Select(s, p))
  {
    if s != [] {
      var s' := s[..|s| - 1];
      assert Distinct(s');
      SelectDistinct(s', p);
      assert s[|s| - 1] !in s';
    }
  }

  /** What `$a[k]` holds after `$a[key(x)] = val(x)` ran for each row `x` of
      `rows` in turn: the value of the last row with key `k`, or `none` when
      no row has that key. */
  function LastWrite<T, K(==), V>(rows: seq<T>, key: T -> K, val: T -> V, k: K, none: V): V {
    if rows == [] then none
    else if key(rows[|rows| - 1]) == k then val(rows[|rows| - 1])
    else LastWrite(rows[..|rows| - 1], key, val, k, none)
  }

  lemma LastWriteSnoc<T, K, V>(rows: seq<T>, x: T, key: T -> K, val: T -> V, k: K, none: V)
    ensures LastWrite(rows + [x], key, val, k, none) == if key(x) == k then val(x) else LastWrite(rows, key, val, k, none)
  {
    assert (rows + [x])[..|rows|] == rows;
  }

  /** `f` applied to every element, in order. */
  function MapSeq<A, B>(s: seq<A>, f: A -> B): (r: seq<B>)
    ensures |r| == |s|
    ensures forall i :: 0 <= i < |s| ==> r[i] == f(s[i])
  {
    seq(|s|, i requires 0 <= i < |s| => f(s[i]))
  }

  lemma MapSeqSnoc<A, B>(s: seq<A>, x: A, f: A -> B)
    ensures MapSeq(s + [x], f) == MapSeq(s, f) + [f(x)]
  {
    assert forall i :: 0 <= i < |s| ==> (s + [x])[i] == s[i];
  }

  /** The first element of `s` that satisfies `p`: what `->fetch()` returns
      from a query whose rows are `s` and whose filter is `p`. */
  function First<T(!new)>(s: seq<T>, p: T -> bool): (r: Option<T>)
    ensures r.None? <==> forall x :: x in s ==> !p(x)
    ensures r.Some? ==> r.value in s && p(r.value)
  {
    if s == [] then None
    else if p(s[0]) then Some(s[0])
    else First(s[1..], p)
  }

  /** The first match stands before every other match. */
  lemma {:induction false} FirstIsEarliest<T(!new)>(s: seq<T>, p: T -> bool, j: nat)
    requires j < |s| && p(s[j])
    ensures First(s, p).Some?
    ensures exists i :: 0 <= i <= j && s[i] == First(s, p).value
  {
    if !p(s[0]) {
      FirstIsEarliest(s[1..], p, j - 1);
      var i :| 0 <= i <= j - 1 && s[1..][i] == First(s[1..], p).value;
      assert s[i + 1] == First(s, p).value;
    }
  }
}
