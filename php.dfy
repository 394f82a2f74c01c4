/**
 The slice of PHP's value model that the homepage code relies on: byte strings, the
 truthiness of a string, and PHP arrays as ordered maps from integer or string keys to
 values, with the two array operations the code uses (`$a[$k] = $v` and `array_merge`).
 */
module Php {
  import opened Wrappers

  /** One byte of a PHP string: PHP strings, and so the cache files, are byte strings. */
  newtype byte = b: int | 0 <= b < 256

  type Bytes = seq<byte>

  /** The byte '0'. */
  const Zero: byte := 48

  /** PHP's conversion of a string to bool: only "" and "0" are false. */
  predicate StringIsTruthy(s: Bytes) {
    s != [] && s != [Zero]
  }

  /** An array key: PHP arrays are keyed by integers or by strings. */
  datatype ArrayKey = IntKey(n: int) | StrKey(s: string)

  /** The PHP values the model needs to tell apart. */
  datatype Value =
    | Null
    | Bool(b: bool)
    | Int(i: int)
    | Str(s: string)
    | Arr(entries: seq<(ArrayKey, Value)>)

  /** A PHP array: its entries in insertion order. Every array PHP builds has distinct keys. */
  type PhpArray = seq<(ArrayKey, Value)>

  predicate DistinctKeys(a: PhpArray) {
    forall i, j :: 0 <= i < j < |a| ==> a[i].0 != a[j].0
  }

  function Keys(a: PhpArray): set<ArrayKey> {
    set p | p in a :: p.0
  }

  /** The value stored under `k`, if any (`array_key_exists` and `$a[$k]` together). */
  function Lookup(a: PhpArray, k: ArrayKey): (r: Option<Value>)
    ensures r.None? <==> k !in Keys(a)
    ensures r.Some? ==> (k, r.value) in a
    decreases |a|
  {
    if a == [] then None
    else if a[0].0 == k then Some(a[0].1)
    else
      var r := Lookup(a[1..], k);
      assert k in Keys(a[1..]) <==> k in Keys(a) by {
        if k in Keys(a) {
          var p :| p in a && p.0 == k;
          assert p != a[0];
          assert p in a[1..];
        }
      }
      r
  }

  /** The position of key `k` in `a`. */
  function IndexOf(a: PhpArray, k: ArrayKey): (i: nat)
    requires k in Keys(a)
    ensures i < |a| && a[i].0 == k
    ensures forall j :: 0 <= j < i ==> a[j].0 != k
    decreases |a|
  {
    if a[0].0 == k then 0
    else
      assert k in Keys(a[1..]) by {
        var p :| p in a && p.0 == k;
        assert p in a[1..];
      }
      1 + IndexOf(a[1..], k)
  }

  /** `$a[$k] = $v`: overwrites the entry of `k` where it stands, or appends a new entry. */
  function Assign(a: PhpArray, k: ArrayKey, v: Value): (r: PhpArray)
    ensures Keys(r) == Keys(a) + {k}
    ensures |r| == if k in Keys(a) then |a| else |a| + 1
    ensures forall i :: 0 <= i < |a| ==> r[i].0 == a[i].0
  {
    if k in Keys(a) then
      var i := IndexOf(a, k);
      var r := a[i := (k, v)];
      assert Keys(r) == Keys(a) by {
        forall q | q in Keys(a) ensures q in Keys(r) {
          var p :| p in a && p.0 == q;
          var j :| 0 <= j < |a| && a[j] == p;
          assert r[j].0 == q;
        }
      }
      r
    else
      a + [(k, v)]
  }

  /** With distinct keys, the entry at position `i` is the one `Lookup` finds. */
  lemma LookupAt(a: PhpArray, i: nat)
    requires DistinctKeys(a) && i < |a|
    ensures Lookup(a, a[i].0) == Some(a[i].1)
  {
    var r := Lookup(a, a[i].0);
    var j :| 0 <= j < |a| && a[j] == (a[i].0, r.value);
  }

  /** After `$a[$k] = $v` on an array with distinct keys: the keys stay distinct, `k` holds
      `v`, and every other key holds what it held before. */
  lemma AssignLookup(a: PhpArray, k: ArrayKey, v: Value)
    requires DistinctKeys(a)
    ensures DistinctKeys(Assign(a, k, v))
    ensures Lookup(Assign(a, k, v), k) == Some(v)
    ensures forall j :: j != k ==> Lookup(Assign(a, k, v), j) == Lookup(a, j)
  {
    var r := Assign(a, k, v);
    if k in Keys(a) {
      var i := IndexOf(a, k);
      assert r == a[i := (k, v)];
    } else {
      assert r == a + [(k, v)];
      forall i | 0 <= i < |a| ensures a[i].0 != k {
        assert a[i] in a;
      }
    }
    assert DistinctKeys(r);
    LookupAt(r, if k in Keys(a) then IndexOf(a, k) else |a|);
    forall j | j != k ensures Lookup(r, j) == Lookup(a, j) {
      if j in Keys(a) {
        var i := IndexOf(a, j);
        assert r[i] == a[i];
        LookupAt(a, i);
        LookupAt(r, i);
      } else {
        assert j !in Keys(r);
      }
    }
  }

  /** `count($a)`: with distinct keys the number of entries is the number of keys. */
  lemma {:induction false} CountIsKeyCount(a: PhpArray)
    requires DistinctKeys(a)
    ensures |Keys(a)| == |a|
  {
    if a != [] {
      var t := a[1..];
      CountIsKeyCount(t);
      KeysCons(a);
      assert a[0].0 !in Keys(t) by {
        forall j | 0 <= j < |t| ensures t[j].0 != a[0].0 {
          assert t[j] == a[j + 1];
        }
      }
    }
  }

  // array_merge

  /** The array being built by `array_merge`, with PHP's next free integer index. */
  datatype Merged = Merged(entries: PhpArray, nextFree: int)

  /** Every integer key of the array being built is below the next free index, so the
      next append cannot collide: what PHP's next-free counter guarantees. */
  predicate MergedOk(m: Merged) {
    && DistinctKeys(m.entries)
    && forall i :: 0 <= i < |m.entries| && m.entries[i].0.IntKey? ==> m.entries[i].0.n < m.nextFree
  }

  /** Copies the entries of `s` into `m` as `array_merge` does: a string key is assigned
      (overwriting in place when present), an integer key is dropped and its value appended
      under the next free integer index. */
  function MergeInto(m: Merged, s: PhpArray): (r: Merged)
    ensures |m.entries| <= |r.entries| <= |m.entries| + |s|
    ensures forall i :: 0 <= i < |m.entries| ==> r.entries[i].0 == m.entries[i].0
    ensures forall k: ArrayKey :: k.StrKey? ==> (k in Keys(r.entries) <==> k in Keys(m.entries) || k in Keys(s))
    decreases |s|
  {
    if s == [] then m
    else
      KeysCons(s);
      MergeInto(MergeEntry(m, s[0]), s[1..])
  }

  /** One entry copied by `array_merge`: a string key is assigned, an integer key is
      replaced by the next free index and its value appended. */
  function MergeEntry(m: Merged, e: (ArrayKey, Value)): (r: Merged)
    ensures |m.entries| <= |r.entries| <= |m.entries| + 1
    ensures forall i :: 0 <= i < |m.entries| ==> r.entries[i].0 == m.entries[i].0
    ensures forall k: ArrayKey :: k.StrKey? ==> (k in Keys(r.entries) <==> k in Keys(m.entries) || k == e.0)
  {
    if e.0.StrKey? then
      Merged(Assign(m.entries, e.0, e.1), m.nextFree)
    else
      KeysSnoc(m.entries, (IntKey(m.nextFree), e.1));
      Merged(m.entries + [(IntKey(m.nextFree), e.1)], m.nextFree + 1)
  }

  /** `array_merge($a, $b)`: a fresh array filled from `a`, then from `b`. Its string keys
      are those of `a` and `b` together, and it has at most as many entries as both. */
  function ArrayMerge(a: PhpArray, b: PhpArray): (r: PhpArray)
    ensures |r| <= |a| + |b|
    ensures forall k: ArrayKey :: k.StrKey? ==> (k in Keys(r) <==> k in Keys(a) || k in Keys(b))
  {
    MergeInto(MergeInto(Merged([], 0), a), b).entries
  }

  lemma KeysCons(s: PhpArray)
    requires s != []
    ensures Keys(s) == {s[0].0} + Keys(s[1..])
  {
    forall q | q in Keys(s) ensures q in {s[0].0} + Keys(s[1..]) {
      var p :| p in s && p.0 == q;
      if p != s[0] { assert p in s[1..]; }
    }
  }

  lemma KeysSnoc(a: PhpArray, e: (ArrayKey, Value))
    ensures Keys(a + [e]) == Keys(a) + {e.0}
  {
    forall q | q in Keys(a + [e]) ensures q in Keys(a) + {e.0} {
      var p :| p in a + [e] && p.0 == q;
      if p != e { assert p in a; }
    }
  }

  /** One `array_merge` step keeps the built array's keys distinct and the counter ahead,
      and on a string key it changes only that key's value. */
  lemma MergeEntryOk(m: Merged, e: (ArrayKey, Value))
    requires MergedOk(m)
    ensures MergedOk(MergeEntry(m, e))
    ensures forall k: ArrayKey :: k.StrKey? ==>
              Lookup(MergeEntry(m, e).entries, k) == if k == e.0 then Some(e.1) else Lookup(m.entries, k)
  {
    var a := m.entries;
    if e.0.StrKey? {
      AssignLookup(a, e.0, e.1);
      if e.0 !in Keys(a) {
        assert Assign(a, e.0, e.1) == a + [e];
      }
    } else {
      assert IntKey(m.nextFree) !in Keys(a) by {
        forall p | p in a ensures p.0 != IntKey(m.nextFree) {
          var j :| 0 <= j < |a| && a[j] == p;
        }
      }
      AssignLookup(a, IntKey(m.nextFree), e.1);
      assert MergeEntry(m, e).entries == Assign(a, IntKey(m.nextFree), e.1);
    }
  }

  lemma {:induction false} MergeIntoOk(m: Merged, s: PhpArray)
    requires MergedOk(m)
    ensures MergedOk(MergeInto(m, s))
    decreases |s|
  {
    if s != [] {
      MergeEntryOk(m, s[0]);
      MergeIntoOk(MergeEntry(m, s[0]), s[1..]);
    }
  }

  /** How a lookup in an array with distinct keys splits over its first entry. */
  lemma LookupCons(s: PhpArray, k: ArrayKey)
    requires DistinctKeys(s) && s != []
    ensures s[0].0 !in Keys(s[1..])
    ensures (k in Keys(s) <==> k == s[0].0 || k in Keys(s[1..]))
    ensures Lookup(s, k) == if k == s[0].0 then Some(s[0].1) else Lookup(s[1..], k)
  {
    var t := s[1..];
    KeysCons(s);
    assert s[0].0 !in Keys(t) by {
      forall j | 0 <= j < |t| ensures t[j].0 != s[0].0 {
        assert t[j] == s[j + 1];
      }
    }
    LookupAt(s, 0);
    if k != s[0].0 && k in Keys(t) {
      var j := IndexOf(t, k);
      LookupAt(t, j);
      LookupAt(s, j + 1);
    }
  }

  /** For a string key, merging `s` in leaves the value `s` gives it, or else the value the
      array already had. */
  lemma {:induction false} MergeIntoLookup(m: Merged, s: PhpArray, k: ArrayKey)
    requires MergedOk(m) && DistinctKeys(s) && k.StrKey?
    ensures Lookup(MergeInto(m, s).entries, k) == if k in Keys(s) then Lookup(s, k) else Lookup(m.entries, k)
    decreases |s|
  {
    if s != [] {
      var m' := MergeEntry(m, s[0]);
      assert MergeInto(m, s) == MergeInto(m', s[1..]);
      MergeEntryOk(m, s[0]);
      MergeIntoLookup(m', s[1..], k);
      LookupCons(s, k);
    }
  }

  /** `array_merge($a, $b)` on string keys: a key of `b` takes `b`'s value, a key only in `a`
      keeps `a`'s value, a key in neither stays absent; the result has distinct keys. */
  lemma ArrayMergeLookup(a: PhpArray, b: PhpArray, k: string)
    requires DistinctKeys(a) && DistinctKeys(b)
    ensures DistinctKeys(ArrayMerge(a, b))
    ensures Lookup(ArrayMerge(a, b), StrKey(k)) ==
            if StrKey(k) in Keys(b) then Lookup(b, StrKey(k)) else Lookup(a, StrKey(k))
  {
    var m0 := Merged([], 0);
    MergeIntoOk(m0, a);
    MergeIntoOk(MergeInto(m0, a), b);
    MergeIntoLookup(m0, a, StrKey(k));
    MergeIntoLookup(MergeInto(m0, a), b, StrKey(k));
  }
}
