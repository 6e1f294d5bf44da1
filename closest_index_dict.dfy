/**
 * `ClosestIndexDict` of notebooks/sp500/utils.py: a mapping whose lookup
 * answers with the value of the smallest stored key at or above the query.
 * It keeps a Python dict (`_dict`, here the map `dict` together with the
 * dict's insertion order `order`) and a sorted list of keys (`_keys`),
 * searched with `bisect_left`. Keys are datetimes in the source; any totally
 * ordered type behaves the same, and the model uses integers.
 */
module ClosestIndex {
  import opened Wrappers

  ghost predicate SortedAsc(s: seq<int>) {
    forall i, j :: 0 <= i < j < |s| ==> s[i] <= s[j]
  }

  ghost predicate Distinct(s: seq<int>) {
    forall i, j :: 0 <= i < j < |s| ==> s[i] != s[j]
  }

  /** The two `KeyError`s `__getitem__` can raise: its own "outside the
      range" one, and the one `self._dict[...]` raises for a key that is in
      `_keys` but no longer in the dict. */
  datatype LookupError = OutsideRange(query: int) | MissingKey(key: int)

  /** `bisect.bisect_left`: the first position whose element is not below x. */
  method BisectLeft(a: seq<int>, x: int) returns (lo: nat)
    requires SortedAsc(a)
    ensures lo <= |a|
    ensures forall i :: 0 <= i < lo ==> a[i] < x
    ensures forall i :: lo <= i < |a| ==> a[i] >= x
  {
    lo := 0;
    var hi := |a|;
    while lo < hi
      invariant 0 <= lo <= hi <= |a|
      invariant forall i :: 0 <= i < lo ==> a[i] < x
      invariant forall i :: hi <= i < |a| ==> a[i] >= x
    {
      var mid := (lo + hi) / 2;
      if a[mid] < x {
        lo := mid + 1;
      } else {
        hi := mid;
      }
    }
  }

  /** `bisect.bisect_right`: the first position whose element is above x. */
  method BisectRight(a: seq<int>, x: int) returns (lo: nat)
    requires SortedAsc(a)
    ensures lo <= |a|
    ensures forall i :: 0 <= i < lo ==> a[i] <= x
    ensures forall i :: lo <= i < |a| ==> a[i] > x
  {
    lo := 0;
    var hi := |a|;
    while lo < hi
      invariant 0 <= lo <= hi <= |a|
      invariant forall i :: 0 <= i < lo ==> a[i] <= x
      invariant forall i :: hi <= i < |a| ==> a[i] > x
    {
      var mid := (lo + hi) / 2;
      if x < a[mid] {
        hi := mid;
      } else {
        lo := mid + 1;
      }
    }
  }

  /** The linear scan of `list.remove`: the first position holding x. */
  method FirstIndexOf(a: seq<int>, x: int) returns (i: nat)
    requires x in a
    ensures i < |a| && a[i] == x
    ensures forall j :: 0 <= j < i ==> a[j] != x
  {
    i := 0;
    while a[i] != x
      invariant i < |a|
      invariant forall j :: 0 <= j < i ==> a[j] != x
      invariant x in a[i..]
      decreases |a| - i
    {
      assert a[i..] == [a[i]] + a[i + 1..];
      i := i + 1;
    }
  }

  /** The dict's insertion order with key x taken out. */
  function Without(s: seq<int>, x: int): (r: seq<int>)
    ensures forall y :: y in r <==> y in s && y != x
    ensures multiset(r) == multiset(s)[x := 0]
  {
    if s == [] then []
    else
      assert s == [s[0]] + s[1..];
      if s[0] == x then Without(s[1..], x) else [s[0]] + Without(s[1..], x)
  }

  lemma {:induction false} WithoutDistinct(s: seq<int>, x: int)
    requires Distinct(s)
    ensures Distinct(Without(s, x))
  {
    if s != [] {
      WithoutDistinct(s[1..], x);
      if s[0] != x {
        assert s[0] !in Without(s[1..], x);
      }
    }
  }

  class ClosestIndexDict<V> {
    var dict: map<int, V>
    var order: seq<int>
    var keys: seq<int>

    /** What every method keeps: `_keys` is sorted; `order` lists each dict
        key once; every dict key is in `_keys`; and `_keys` is never shorter
        than the dict (it may hold duplicates and keys already deleted). */
    ghost predicate Valid()
      reads this
    {
      && SortedAsc(keys)
      && Distinct(order)
      && (forall k :: k in dict <==> k in order)
      && (forall k :: k in dict ==> k in keys)
      && |order| <= |keys|
    }

    /** `_keys` is exactly the dict's keys, each once: no key has been set twice. */
    ghost predicate Clean()
      reads this
    {
      multiset(keys) == multiset(order)
    }

    /** `__init__`: both the dict and the key list start empty. */
    constructor ()
      ensures Valid() && Clean()
      ensures dict == map[] && order == [] && keys == []
    {
      dict := map[];
      order := [];
      keys := [];
    }

    /** `__len__`: the number of dict entries. */
    function Len(): (n: nat)
      reads this
      requires Valid()
      ensures n == |dict.Keys|
      ensures n <= |keys|
    {
      DistinctElements(order);
      assert forall x :: x in dict.Keys <==> x in (set y | y in order);
      assert dict.Keys == (set y | y in order);
      |order|
    }

    /** `__iter__`: the keys in dict insertion order, not in sorted order. */
    method Iter() returns (ks: seq<int>)
      requires Valid()
      ensures ks == order
      ensures forall k :: k in ks <==> k in dict
    {
      ks := order;
    }

    /** `__getitem__`. As written, the answer comes from the first position of
        `_keys` at or above the query, and the range test compares that position
        with the number of dict entries. When `_keys` is clean it is the value of
        the smallest stored key at or above the query, and "outside the range"
        exactly when every stored key is below it. */
    method Get(k: int) returns (r: Result<V, LookupError>)
      requires Valid()
      ensures var ind := CountBelow(keys, k);
        && (r.Err? && r.error.OutsideRange? <==> ind >= Len())
        && (r.Err? && r.error.MissingKey? <==> ind < Len() && keys[ind] !in dict)
        && (r.Ok? ==> ind < Len() && keys[ind] in dict && r.value == dict[keys[ind]])
        && (r.Err? && r.error.OutsideRange? ==> r.error.query == k)
      ensures Clean() ==> (r.Err? <==> forall m :: m in dict ==> m < k)
      ensures Clean() && r.Err? ==> r.error == OutsideRange(k)
      ensures Clean() && r.Ok? ==>
        exists m :: m in dict && m >= k && r.value == dict[m] && (forall m' :: m' in dict && m' >= k ==> m <= m')
      ensures Clean() && k in dict ==> r == Ok(dict[k])
    {
      var ind := BisectLeft(keys, k);
      BelowCount(keys, k, ind);
      if ind >= |order| {
        r := Err(OutsideRange(k));
      } else {
        var key := keys[ind];
        if key !in dict {
          r := Err(MissingKey(key));
        } else {
          r := Ok(dict[key]);
        }
      }
      if Clean() {
        assert |keys| == |multiset(keys)| == |multiset(order)| == |order|;
        if ind < |keys| {
          assert keys[ind] in multiset(order);
          forall m' | m' in dict && m' >= k ensures keys[ind] <= m' {
            var j :| 0 <= j < |keys| && keys[j] == m';
          }
        } else {
          forall m | m in dict ensures m < k {
            var j :| 0 <= j < |keys| && keys[j] == m;
          }
        }
      }
    }

    /** `__setitem__`: the dict gets the value (a new key goes to the end of
        the insertion order, an existing one keeps its place), and `bisect.insort`
        adds k to `_keys` again even when it is already there. */
    method SetItem(k: int, v: V)
      requires Valid()
      modifies this
      ensures Valid()
      ensures dict == old(dict)[k := v]
      ensures order == if k in old(dict) then old(order) else old(order) + [k]
      ensures Len() == if k in old(dict) then old(Len()) else old(Len()) + 1
      ensures multiset(keys) == old(multiset(keys)) + multiset{k}
      ensures var p := CountAtMost(old(keys), k); keys == old(keys)[..p] + [k] + old(keys)[p..]
      ensures old(Clean()) && k !in old(dict) ==> Clean()
      ensures k in old(dict) ==> !Clean()
    {
      if k !in dict {
        order := order + [k];
      }
      dict := dict[k := v];
      Insort(k);
      if old(k in dict) {
        assert multiset(order)[k] == 1 by { DistinctCount(order, k); }
        assert multiset(keys)[k] >= 2;
      }
    }

    /** `__setitem__` as evidently intended: `_keys` gains k only when k is a
        new key, so that `_keys` stays the sorted list of the dict's keys. */
    method SetItemFixed(k: int, v: V)
      requires Valid()
      modifies this
      ensures Valid()
      ensures dict == old(dict)[k := v]
      ensures order == if k in old(dict) then old(order) else old(order) + [k]
      ensures multiset(keys) == if k in old(dict) then old(multiset(keys)) else old(multiset(keys)) + multiset{k}
      ensures old(Clean()) ==> Clean()
    {
      if k !in dict {
        order := order + [k];
        dict := dict[k := v];
        Insort(k);
      } else {
        dict := dict[k := v];
      }
    }

    /** `bisect.insort(self._keys, k)`: insert after the equal elements. */
    method Insort(k: int)
      requires SortedAsc(keys)
      modifies this
      ensures SortedAsc(keys)
      ensures forall y :: y in keys <==> y in old(keys) || y == k
      ensures var p := CountAtMost(old(keys), k); keys == old(keys)[..p] + [k] + old(keys)[p..]
      ensures multiset(keys) == old(multiset(keys)) + multiset{k}
      ensures |keys| == |old(keys)| + 1
      ensures dict == old(dict) && order == old(order)
    {
      var pos := BisectRight(keys, k);
      AtMostCount(keys, k, pos);
      InsertAtSorted(keys, k, pos);
      keys := keys[..pos] + [k] + keys[pos..];
    }

    /** `self._keys.remove(k)`: the first occurrence of k leaves the list. */
    method RemoveFirst(k: int)
      requires SortedAsc(keys) && k in keys
      modifies this
      ensures SortedAsc(keys)
      ensures multiset(keys) == old(multiset(keys)) - multiset{k}
      ensures |keys| == |old(keys)| - 1
      ensures forall y :: y in old(keys) && y != k ==> y in keys
      ensures dict == old(dict) && order == old(order)
    {
      var i := FirstIndexOf(keys, k);
      RemoveAtSorted(keys, i);
      keys := keys[..i] + keys[i + 1..];
    }

    /** `__delitem__`: a missing key raises `KeyError` before `_keys` is touched
        (reported as false, nothing changes); otherwise the entry leaves the dict
        and the first occurrence of k leaves `_keys`. */
    method DelItem(k: int) returns (found: bool)
      requires Valid()
      modifies this
      ensures Valid()
      ensures found <==> k in old(dict)
      ensures !found ==> dict == old(dict) && order == old(order) && keys == old(keys)
      ensures found ==> dict == old(dict) - {k} && order == Without(old(order), k)
      ensures found ==> multiset(keys) == old(multiset(keys)) - multiset{k}
      ensures found ==> Len() == old(Len()) - 1
      ensures old(Clean()) ==> Clean()
    {
      if k !in dict {
        return false;
      }
      DistinctCount(order, k);
      WithoutDistinct(order, k);
      assert multiset(order)[k := 0] == multiset(order) - multiset{k};
      dict := dict - {k};
      order := Without(order, k);
      RemoveFirst(k);
      return true;
    }
  }

  /** Taking one element out of a sorted list keeps it sorted, drops exactly
      that element, and keeps every other value present. */
  lemma RemoveAtSorted(a: seq<int>, i: nat)
    requires SortedAsc(a) && i < |a|
    ensures SortedAsc(a[..i] + a[i + 1..])
    ensures multiset(a[..i] + a[i + 1..]) == multiset(a) - multiset{a[i]}
    ensures forall y :: y in a && y != a[i] ==> y in a[..i] + a[i + 1..]
  {
    RemoveAtOrder(a, i);
    RemoveAtMembers(a, i);
    assert a == a[..i] + [a[i]] + a[i + 1..];
    assert multiset(a) == multiset(a[..i]) + multiset{a[i]} + multiset(a[i + 1..]);
  }

  lemma RemoveAtOrder(a: seq<int>, i: nat)
    requires SortedAsc(a) && i < |a|
    ensures SortedAsc(a[..i] + a[i + 1..])
  {
    var b := a[..i] + a[i + 1..];
    forall p, q | 0 <= p < q < |b| ensures b[p] <= b[q] {
      var ap := if p < i then p else p + 1;
      var aq := if q < i then q else q + 1;
      assert b[p] == a[ap] && b[q] == a[aq];
    }
  }

  lemma RemoveAtMembers(a: seq<int>, i: nat)
    requires i < |a|
    ensures forall y :: y in a && y != a[i] ==> y in a[..i] + a[i + 1..]
  {
    var b := a[..i] + a[i + 1..];
    forall y | y in a && y != a[i] ensures y in b {
      var j :| 0 <= j < |a| && a[j] == y;
      if j < i { assert b[j] == y; } else { assert b[j - 1] == y; }
    }
  }

  /** A sequence without repeats has as many elements as members. */
  lemma {:induction false} DistinctElements(s: seq<int>)
    requires Distinct(s)
    ensures |(set x | x in s)| == |s|
  {
    if s != [] {
      var rest := s[1..];
      assert Distinct(rest) by {
        forall i, j | 0 <= i < j < |rest| ensures rest[i] != rest[j] {
          assert rest[i] == s[i + 1] && rest[j] == s[j + 1];
        }
      }
      DistinctElements(rest);
      assert s[0] !in rest by {
        forall j | 0 <= j < |rest| ensures rest[j] != s[0] {
          assert rest[j] == s[j + 1];
        }
      }
      assert (set x | x in s) == (set x | x in rest) + {s[0]} by {
        assert s == [s[0]] + rest;
      }
    }
  }

  lemma {:induction false} DistinctCount(s: seq<int>, x: int)
    requires Distinct(s)
    ensures multiset(s)[x] == if x in s then 1 else 0
    ensures x in s ==> |Without(s, x)| == |s| - 1
  {
    assert |Without(s, x)| == |multiset(Without(s, x))|;
    if s != [] {
      assert s == [s[0]] + s[1..];
      DistinctCount(s[1..], x);
    }
  }

  /** How many elements of s lie below x. */
  function CountBelow(s: seq<int>, x: int): (c: nat)
    ensures c <= |s|
  {
    if s == [] then 0 else (if s[0] < x then 1 else 0) + CountBelow(s[1..], x)
  }

  /** Putting x between the elements at or below it and those above it keeps
      the list sorted and adds exactly one x. */
  lemma InsertAtSorted(a: seq<int>, x: int, pos: nat)
    requires SortedAsc(a) && pos <= |a|
    requires forall i :: 0 <= i < pos ==> a[i] <= x
    requires forall i :: pos <= i < |a| ==> a[i] > x
    ensures SortedAsc(a[..pos] + [x] + a[pos..])
    ensures multiset(a[..pos] + [x] + a[pos..]) == multiset(a) + multiset{x}
    ensures forall y :: y in a[..pos] + [x] + a[pos..] <==> y in a || y == x
  {
    var b := a[..pos] + [x] + a[pos..];
    InsertAtSortedOrder(a, x, pos);
    assert a == a[..pos] + a[pos..];
    assert multiset(b) == multiset(a[..pos]) + multiset{x} + multiset(a[pos..]);
    forall y ensures y in b <==> y in a || y == x {
      assert y in b <==> y in multiset(b);
      assert y in a <==> y in multiset(a);
    }
  }

  lemma InsertAtSortedOrder(a: seq<int>, x: int, pos: nat)
    requires SortedAsc(a) && pos <= |a|
    requires forall i :: 0 <= i < pos ==> a[i] <= x
    requires forall i :: pos <= i < |a| ==> a[i] > x
    ensures SortedAsc(a[..pos] + [x] + a[pos..])
  {
    var b := a[..pos] + [x] + a[pos..];
    forall i, j | 0 <= i < j < |b| ensures b[i] <= b[j] {
      var ai := if i < pos then a[i] else if i == pos then x else a[i - 1];
      var aj := if j < pos then a[j] else if j == pos then x else a[j - 1];
      assert b[i] == ai && b[j] == aj;
    }
  }

  /** How many elements of s lie at or below x. */
  function CountAtMost(s: seq<int>, x: int): (c: nat)
    ensures c <= |s|
  {
    if s == [] then 0 else (if s[0] <= x then 1 else 0) + CountAtMost(s[1..], x)
  }

  /** The position `bisect_right` returns counts the keys at or below the value. */
  lemma {:induction false} AtMostCount(a: seq<int>, x: int, lo: nat)
    requires lo <= |a|
    requires forall i :: 0 <= i < lo ==> a[i] <= x
    requires forall i :: lo <= i < |a| ==> a[i] > x
    ensures CountAtMost(a, x) == lo
  {
    if a != [] {
      if lo > 0 {
        AtMostCount(a[1..], x, lo - 1);
      } else {
        AtMostCount(a[1..], x, 0);
      }
    }
  }

  /** The position `bisect_left` returns counts the keys below the query. */
  lemma {:induction false} BelowCount(a: seq<int>, x: int, lo: nat)
    requires lo <= |a|
    requires forall i :: 0 <= i < lo ==> a[i] < x
    requires forall i :: lo <= i < |a| ==> a[i] >= x
    ensures CountBelow(a, x) == lo
  {
    if a != [] {
      if lo > 0 {
        BelowCount(a[1..], x, lo - 1);
      } else {
        BelowCount(a[1..], x, 0);
      }
    }
  }

  /** `d[1] = 10` on a fresh instance. */
  method SetOne() returns (d: ClosestIndexDict<int>)
    ensures fresh(d) && d.Valid()
    ensures d.dict == map[1 := 10] && d.order == [1] && d.keys == [1]
  {
    d := new ClosestIndexDict<int>();
    assert [][..0] + [1] + [][0..] == [1];
    d.SetItem(1, 10);
  }

  /** `d[1] = 10; d[1] = 11`: key 1 is stored once and listed twice. */
  method SetOneTwice() returns (d: ClosestIndexDict<int>)
    ensures fresh(d) && d.Valid()
    ensures d.dict == map[1 := 11] && d.order == [1] && d.keys == [1, 1]
  {
    d := SetOne();
    assert CountAtMost([1], 1) == 1;
    assert [1][..1] + [1] + [1][1..] == [1, 1];
    d.SetItem(1, 11);
  }

  /** Setting key 1 twice and then key 2 leaves `_keys` as [1, 1, 2] with two
      dict entries, so looking up the stored key 2 reports it outside the range. */
  method ReassignedKeyLookup() returns (r: Result<int, LookupError>)
    ensures r == Err(OutsideRange(2))
  {
    var d := SetOneTwice();
    assert CountAtMost([1, 1], 2) == 2;
    assert [1, 1][..2] + [2] + [1, 1][2..] == [1, 1, 2];
    d.SetItem(2, 20);
    assert d.keys == [1, 1, 2] && d.order == [1, 2];
    assert CountBelow([1, 1, 2], 2) == 2;
    r := d.Get(2);
  }

  /** The same calls through the corrected `__setitem__` find key 2. */
  method ReassignedKeyLookupFixed() returns (r: Result<int, LookupError>)
    ensures r == Ok(20)
  {
    var d := new ClosestIndexDict<int>();
    d.SetItemFixed(1, 10);
    d.SetItemFixed(1, 11);
    d.SetItemFixed(2, 20);
    r := d.Get(2);
  }

  /** Iteration follows insertion order: keys set as 2 then 1 come back as [2, 1]. */
  method IterationOrder() returns (ks: seq<int>)
    ensures ks == [2, 1]
  {
    var d := new ClosestIndexDict<string>();
    d.SetItem(2, "b");
    d.SetItem(1, "a");
    ks := d.Iter();
  }
}
