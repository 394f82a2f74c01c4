/**
 The page template object: a parameter store (a PHP array) written by `__set` and by the
 `array_merge` at the start of `render`, read by `__get`, `__isset` and `count`, and walked
 by a `foreach` through PHP's Iterator interface, which here delegates to the array's own
 internal pointer (`reset`, `current`, `key`, `next`).
 */
module Templates {
  import opened Wrappers
  import opened Php

  /** What `__get` gives: the value, and whether it raised the "doesn't exist" notice. */
  datatype Read = Read(value: Value, notice: bool)

  /** The entries a `foreach` over the template yields starting from pointer `pos`: it
      continues while `valid()` holds, that is, while `current()` is not `false`. */
  ghost function Visits(a: PhpArray, pos: nat): (v: seq<(ArrayKey, Value)>)
    ensures pos + |v| <= |a| || v == []
    ensures v != [] ==> v == a[pos..pos + |v|]
    ensures forall e :: e in v ==> e.1 != Bool(false)
    decreases |a| - pos
  {
    if pos < |a| && a[pos].1 != Bool(false) then
      var rest := Visits(a, pos + 1);
      assert rest != [] ==> a[pos..pos + 1 + |rest|] == [a[pos]] + a[pos + 1..pos + 1 + |rest|];
      [a[pos]] + rest
    else
      []
  }

  /** A `foreach` yields a contiguous run of entries from the pointer, none holding
      `false`, and stops at the end of the array or at the first stored `false`. */
  lemma {:induction false} VisitsStopAtFalse(a: PhpArray, pos: nat)
    requires pos <= |a|
    ensures var v := Visits(a, pos);
            pos + |v| <= |a| && v == a[pos..pos + |v|] &&
            (forall i :: 0 <= i < |v| ==> v[i].1 != Bool(false)) &&
            (pos + |v| == |a| || a[pos + |v|].1 == Bool(false))
    decreases |a| - pos
  {
    if pos < |a| && a[pos].1 != Bool(false) {
      VisitsStopAtFalse(a, pos + 1);
    }
  }

  class Template {
    /** `$params`, in insertion order. */
    var params: PhpArray
    /** The internal pointer of `$params`: an index, `|params|` once it has run past the end. */
    var pos: nat

    ghost predicate WellFormed()
      reads this
    {
      DistinctKeys(params) && pos <= |params|
    }

    /** The entries a `foreach` would still yield from the current pointer. */
    ghost function Remaining(): seq<(ArrayKey, Value)>
      reads this
    {
      Visits(params, pos)
    }

    /** `protected $params = array()`. */
    constructor ()
      ensures WellFormed() && params == [] && pos == 0
    {
      params := [];
      pos := 0;
    }

    /** `render`, the parameter part: the template's parameters become
        `array_merge($this->params, $params)`, whose pointer is at its first entry. For a
        string key the render-time value wins, earlier keys not mentioned keep their
        values, and the merged parameters stay in place after the call. */
    method Render(tplParams: PhpArray)
      requires WellFormed() && DistinctKeys(tplParams)
      modifies this
      ensures WellFormed() && params == ArrayMerge(old(params), tplParams) && pos == 0
      ensures forall k: string :: Lookup(params, StrKey(k)) ==
                if StrKey(k) in Keys(tplParams) then Lookup(tplParams, StrKey(k)) else Lookup(old(params), StrKey(k))
    {
      ghost var before := params;
      params := ArrayMerge(params, tplParams);
      pos := 0;
      forall k: string
        ensures Lookup(params, StrKey(k)) ==
                if StrKey(k) in Keys(tplParams) then Lookup(tplParams, StrKey(k)) else Lookup(before, StrKey(k))
      {
        ArrayMergeLookup(before, tplParams, k);
      }
      ArrayMergeLookup(before, tplParams, "");
    }

    /** `__set`: `$params[$key] = $value`. The key then holds the value (readable by `__get`
        and `__isset` unless the value is null), every other key is unchanged, and the
        pointer keeps its position. */
    method SetParam(key: ArrayKey, value: Value)
      requires WellFormed()
      modifies this`params
      ensures WellFormed() && params == Assign(old(params), key, value)
      ensures Lookup(params, key) == Some(value)
      ensures value != Null ==> GetParam(key) == Read(value, false) && IssetParam(key)
      ensures value == Null ==> GetParam(key) == Read(Null, true) && !IssetParam(key)
      ensures forall j :: j != key ==> Lookup(params, j) == Lookup(old(params), j)
      ensures old(pos) == old(|params|) && key !in Keys(old(params)) ==> Current() == value
    {
      AssignLookup(params, key, value);
      params := Assign(params, key, value);
    }

    /** `__get`: the stored value when `isset` holds; otherwise (key absent, or stored
        null) an E_USER_NOTICE and null. */
    function GetParam(key: ArrayKey): (r: Read)
      reads this
      requires WellFormed()
      ensures r.notice <==> !IssetParam(key)
      ensures !r.notice ==> Lookup(params, key) == Some(r.value) && r.value != Null
      ensures r.notice ==> r.value == Null
    {
      if IssetParam(key) then Read(Lookup(params, key).value, false) else Read(Null, true)
    }

    /** `__isset`: PHP's `isset`, true exactly when some entry has the key and a non-null value. */
    function IssetParam(key: ArrayKey): (b: bool)
      reads this
      requires WellFormed()
      ensures b <==> exists i :: 0 <= i < |params| && params[i].0 == key && params[i].1 != Null
    {
      var r := Lookup(params, key);
      if r.Some? then
        var i := IndexOf(params, key);
        LookupAt(params, i);
        r.value != Null
      else
        assert forall i :: 0 <= i < |params| ==> params[i] in params;
        false
    }

    /** `count`: the number of keys stored, null-valued keys included. */
    function Count(): (n: nat)
      reads this
      requires WellFormed()
      ensures n == |Keys(params)|
    {
      CountIsKeyCount(params);
      |params|
    }

    /** `rewind`: `reset` puts the pointer on the first entry; a `foreach` then yields the
        entries from the first one up to the end or up to the first stored `false`. */
    method Rewind()
      requires WellFormed()
      modifies this`pos
      ensures WellFormed() && pos == 0
      ensures var v := Remaining();
              |v| <= |params| && v == params[..|v|] &&
              (|v| == |params| || params[|v|].1 == Bool(false))
    {
      pos := 0;
      VisitsStopAtFalse(params, 0);
    }

    /** `current`: the value under the pointer, or `false` once it is past the end. */
    function Current(): (v: Value)
      reads this
      requires WellFormed()
      ensures pos < |params| ==> Lookup(params, params[pos].0) == Some(v)
      ensures pos == |params| ==> v == Bool(false)
    {
      if pos < |params| then
        LookupAt(params, pos);
        params[pos].1
      else
        Bool(false)
    }

    /** `key`: the key under the pointer (None for PHP's null past the end); it is the key
        whose value `current` reports. */
    function Key(): (k: Option<ArrayKey>)
      reads this
      requires WellFormed()
      ensures k.Some? <==> pos < |params|
      ensures k.Some? ==> k.value == params[pos].0
      ensures k.Some? ==> Lookup(params, k.value) == Some(Current())
    {
      if pos < |params| then Some(params[pos].0) else None
    }

    /** `next`: the pointer moves one entry on (staying past the end once there), and the
        new `current` is returned. A `foreach` step that was valid consumes exactly the
        entry it was on. */
    method Next() returns (v: Value)
      requires WellFormed()
      modifies this`pos
      ensures WellFormed()
      ensures pos == if old(pos) < |params| then old(pos) + 1 else old(pos)
      ensures v == Current()
      ensures old(Valid()) ==> old(Remaining()) == [params[old(pos)]] + Remaining()
    {
      if pos < |params| {
        pos := pos + 1;
      }
      v := Current();
    }

    /** `valid`: `current() !== false`, so iteration ends past the last entry and also,
        early, at an entry that stores `false`. */
    function Valid(): (b: bool)
      reads this
      requires WellFormed()
      ensures b <==> pos < |params| && params[pos].1 != Bool(false)
    {
      Current() != Bool(false)
    }
  }
}
