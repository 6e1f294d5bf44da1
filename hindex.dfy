/**
 * The H-index reduction of the Hacker News tool, in its two forms:
 * `h_index` of hn-index/script.py (a count over a descending sort), as the
 * function HIndex, and `calculateHIndex` of hn-index/app.js (an in-place
 * descending sort followed by a scan that stops at the first failing
 * position), as the method CalculateHIndex.
 */
module HIndexReduction {

  // ---------------------------------------------------------------------------
  // Descending sort of integers (Python's `sorted(..., reverse=True)`)
  // ---------------------------------------------------------------------------

  /** Every element is at least every element after it. */
  ghost predicate SortedDesc(s: seq<int>) {
    forall i, j :: 0 <= i < j < |s| ==> s[i] >= s[j]
  }

  /** Inserts x into a descending sequence, in front of the first element below it. */
  function Insert(x: int, s: seq<int>): (r: seq<int>)
    ensures |r| == |s| + 1
    ensures multiset(r) == multiset(s) + multiset{x}
  {
    if s == [] || x >= s[0] then [x] + s
    else
      assert s == [s[0]] + s[1..];
      [s[0]] + Insert(x, s[1..])
  }

  lemma {:induction false} InsertSorted(x: int, s: seq<int>)
    requires SortedDesc(s)
    ensures SortedDesc(Insert(x, s))
  {
    if s != [] && x < s[0] {
      var tail := Insert(x, s[1..]);
      InsertSorted(x, s[1..]);
      forall k | 0 <= k < |tail| ensures s[0] >= tail[k] {
        assert tail[k] in multiset(s[1..]) + multiset{x};
      }
    }
  }

  /** A descending permutation of s. */
  function SortDesc(s: seq<int>): (r: seq<int>)
    ensures |r| == |s|
    ensures multiset(r) == multiset(s)
    ensures SortedDesc(r)
  {
    if s == [] then []
    else
      assert s == [s[0]] + s[1..];
      InsertSorted(s[0], SortDesc(s[1..]));
      Insert(s[0], SortDesc(s[1..]))
  }

  /** Two descending sequences with the same elements are equal: the
      descending order of a multiset of integers is unique. */
  lemma HeadIsMaximum(a: seq<int>, x: int)
    requires SortedDesc(a)
    requires x in a
    ensures a[0] >= x
  {
    var j :| 0 <= j < |a| && a[j] == x;
    assert j == 0 || a[0] >= a[j];
  }

  lemma TailSorted(a: seq<int>)
    requires SortedDesc(a) && a != []
    ensures SortedDesc(a[1..])
  {
    forall i, j | 0 <= i < j < |a| - 1 ensures a[1..][i] >= a[1..][j] {
      assert a[1..][i] == a[i + 1] && a[1..][j] == a[j + 1];
    }
  }

  lemma TailMultiset(a: seq<int>)
    requires a != []
    ensures multiset(a[1..]) == multiset(a) - multiset{a[0]}
    ensures a[0] in multiset(a)
  {
    assert a == [a[0]] + a[1..];
  }

  /** A descending sequence starts with the largest element of its multiset. */
  lemma HeadsEqual(a: seq<int>, b: seq<int>)
    requires SortedDesc(a) && SortedDesc(b)
    requires multiset(a) == multiset(b)
    requires a != []
    ensures b != [] && a[0] == b[0]
  {
    TailMultiset(a);
    assert a[0] in b;
    HeadIsMaximum(b, a[0]);
    TailMultiset(b);
    HeadIsMaximum(a, b[0]);
  }

  lemma {:induction false} SortedUnique(a: seq<int>, b: seq<int>)
    requires SortedDesc(a) && SortedDesc(b)
    requires multiset(a) == multiset(b)
    ensures a == b
  {
    if a == [] {
      assert |b| == |multiset(b)| == 0;
    } else {
      HeadsEqual(a, b);
      TailMultiset(a);
      TailMultiset(b);
      TailSorted(a);
      TailSorted(b);
      SortedUnique(a[1..], b[1..]);
      assert a == [a[0]] + a[1..];
      assert b == [b[0]] + b[1..];
    }
  }

  // ---------------------------------------------------------------------------
  // The Python form: h_index(scores) = sum(x >= i + 1 for i, x in enumerate(sorted desc))
  // ---------------------------------------------------------------------------

  /** The number of positions p >= i of s whose value is at least p + 1. */
  function CountFrom(s: seq<int>, i: nat): (c: nat)
    requires i <= |s|
    ensures c <= |s| - i
    decreases |s| - i
  {
    if i == |s| then 0
    else (if s[i] >= i + 1 then 1 else 0) + CountFrom(s, i + 1)
  }

  /** `h_index` of hn-index/script.py. */
  function HIndex(scores: seq<int>): (h: nat)
    ensures h <= |scores|
  {
    CountFrom(SortDesc(scores), 0)
  }

  /** In a descending sequence, once a position fails the test every later one
      fails too, so nothing is counted from there on. */
  lemma {:induction false} NoneCountedAfterFailure(s: seq<int>, i: nat)
    requires SortedDesc(s)
    requires i <= |s|
    requires forall p :: i <= p < |s| ==> s[p] < i + 1
    ensures CountFrom(s, i) == 0
    decreases |s| - i
  {
    if i < |s| {
      NoneCountedAfterFailure(s, i + 1);
    }
  }

  /** h is the first position of s where the test `s[h] >= h + 1` fails, or |s|. */
  ghost predicate IsFirstFailure(s: seq<int>, h: nat) {
    h <= |s|
    && (forall p :: 0 <= p < h ==> s[p] >= p + 1)
    && (h < |s| ==> s[h] < h + 1)
  }

  lemma {:induction false} CountFromIsFirstFailure(s: seq<int>, i: nat)
    requires SortedDesc(s)
    requires i <= |s|
    requires forall p :: 0 <= p < i ==> s[p] >= p + 1
    ensures IsFirstFailure(s, i + CountFrom(s, i))
    decreases |s| - i
  {
    if i < |s| {
      if s[i] >= i + 1 {
        CountFromIsFirstFailure(s, i + 1);
      } else {
        NoneCountedAfterFailure(s, i + 1);
      }
    }
  }

  /** The count over a descending sequence is its first failure: for h > 0 the
      h-th largest score is at least h, and when h < n the (h+1)-th is below h + 1. */
  lemma HIndexIsFirstFailure(scores: seq<int>)
    ensures IsFirstFailure(SortDesc(scores), HIndex(scores))
  {
    CountFromIsFirstFailure(SortDesc(scores), 0);
  }

  /** Only the multiset of scores matters. */
  lemma HIndexPermutation(s: seq<int>, t: seq<int>)
    requires multiset(s) == multiset(t)
    ensures HIndex(s) == HIndex(t)
  {
    SortedUnique(SortDesc(s), SortDesc(t));
  }

  /** A sequence that is already descending is its own sort. */
  lemma SortDescOfSorted(s: seq<int>)
    requires SortedDesc(s)
    ensures SortDesc(s) == s
  {
    SortedUnique(SortDesc(s), s);
  }

  lemma HIndexOfEmpty()
    ensures HIndex([]) == 0
  {
  }

  // ---------------------------------------------------------------------------
  // The H-index by counts, and why scores of zero do not matter
  // ---------------------------------------------------------------------------

  /** How many elements of s are at least b. */
  function AtLeast(s: seq<int>, b: int): (c: nat)
    ensures c <= |s|
  {
    if s == [] then 0 else (if s[0] >= b then 1 else 0) + AtLeast(s[1..], b)
  }

  lemma {:induction false} AtLeastAppend(a: seq<int>, c: seq<int>, b: int)
    ensures AtLeast(a + c, b) == AtLeast(a, b) + AtLeast(c, b)
  {
    if a == [] {
      assert a + c == c;
    } else {
      assert (a + c)[0] == a[0];
      assert (a + c)[1..] == a[1..] + c;
      AtLeastAppend(a[1..], c, b);
    }
  }

  lemma {:induction false} AtLeastPermutation(s: seq<int>, t: seq<int>, b: int)
    requires multiset(s) == multiset(t)
    ensures AtLeast(s, b) == AtLeast(t, b)
    decreases |s|
  {
    if s != [] {
      assert s == [s[0]] + s[1..];
      assert s[0] in multiset(t);
      var i :| 0 <= i < |t| && t[i] == s[0];
      var rest := t[..i] + t[i + 1..];
      AtLeastRemove(t, i, b);
      assert multiset(s[1..]) == multiset(rest);
      AtLeastPermutation(s[1..], rest, b);
    }
  }

  /** Counting over a list is counting over the list without one element,
      plus that element's own contribution. */
  lemma AtLeastRemove(t: seq<int>, i: nat, b: int)
    requires i < |t|
    ensures AtLeast(t, b) == AtLeast(t[..i] + t[i + 1..], b) + (if t[i] >= b then 1 else 0)
    ensures multiset(t[..i] + t[i + 1..]) == multiset(t) - multiset{t[i]}
  {
    assert t == t[..i] + [t[i]] + t[i + 1..];
    assert multiset(t) == multiset(t[..i]) + multiset{t[i]} + multiset(t[i + 1..]);
    AtLeastAppend(t[..i] + [t[i]], t[i + 1..], b);
    AtLeastAppend(t[..i], [t[i]], b);
    AtLeastAppend(t[..i], t[i + 1..], b);
  }

  lemma {:induction false} AtLeastMonotone(s: seq<int>, b: int, c: int)
    ensures b <= c ==> AtLeast(s, c) <= AtLeast(s, b)
  {
    if s != [] {
      AtLeastMonotone(s[1..], b, c);
    }
  }

  lemma {:induction false} AtLeastAll(s: seq<int>, b: int)
    requires forall p :: 0 <= p < |s| ==> s[p] >= b
    ensures AtLeast(s, b) == |s|
  {
    if s != [] {
      AtLeastAll(s[1..], b);
    }
  }

  lemma {:induction false} AtLeastNone(s: seq<int>, b: int)
    requires forall p :: 0 <= p < |s| ==> s[p] < b
    ensures AtLeast(s, b) == 0
  {
    if s != [] {
      AtLeastNone(s[1..], b);
    }
  }

  /** In a descending sequence whose first failure is at h, the first h
      elements are at least h and the rest are below h + 1. */
  lemma SortedCounts(r: seq<int>, h: nat)
    requires SortedDesc(r)
    requires IsFirstFailure(r, h)
    ensures AtLeast(r, h) >= h
    ensures AtLeast(r, h + 1) <= h
  {
    assert r == r[..h] + r[h..];
    PrefixAtLeast(r, h);
    SuffixBelow(r, h);
    AtLeastAppend(r[..h], r[h..], h);
    AtLeastAppend(r[..h], r[h..], h + 1);
  }

  lemma PrefixAtLeast(r: seq<int>, h: nat)
    requires SortedDesc(r)
    requires IsFirstFailure(r, h)
    ensures AtLeast(r[..h], h) == h
  {
    forall p | 0 <= p < h ensures r[..h][p] >= h {
      assert r[p] >= r[h - 1] >= h;
    }
    AtLeastAll(r[..h], h);
  }

  lemma SuffixBelow(r: seq<int>, h: nat)
    requires SortedDesc(r)
    requires IsFirstFailure(r, h)
    ensures AtLeast(r[h..], h + 1) == 0
  {
    forall p | 0 <= p < |r[h..]| ensures r[h..][p] < h + 1 {
      assert r[h + p] <= r[h];
    }
    AtLeastNone(r[h..], h + 1);
  }

  /** `h_index` is an H-index in the usual sense: at least h scores are at
      least h, and at most h scores are at least h + 1. */
  lemma HIndexByCounts(scores: seq<int>)
    ensures AtLeast(scores, HIndex(scores)) >= HIndex(scores)
    ensures AtLeast(scores, HIndex(scores) + 1) <= HIndex(scores)
  {
    var r := SortDesc(scores);
    var h := HIndex(scores);
    HIndexIsFirstFailure(scores);
    SortedCounts(r, h);
    AtLeastPermutation(r, scores, h);
    AtLeastPermutation(r, scores, h + 1);
  }

  /** Conversely, those two counts single out the H-index. */
  lemma CountsDetermineHIndex(scores: seq<int>, h: nat)
    requires AtLeast(scores, h) >= h
    requires AtLeast(scores, h + 1) <= h
    ensures h == HIndex(scores)
  {
    var g := HIndex(scores);
    HIndexByCounts(scores);
    AtLeastMonotone(scores, h + 1, g);
    AtLeastMonotone(scores, g + 1, h);
  }

  /** The scores with every zero taken out. */
  function DropZeros(s: seq<int>): (r: seq<int>)
    ensures |r| <= |s|
  {
    if s == [] then [] else (if s[0] != 0 then [s[0]] else []) + DropZeros(s[1..])
  }

  lemma {:induction false} DropZerosAppend(a: seq<int>, c: seq<int>)
    ensures DropZeros(a + c) == DropZeros(a) + DropZeros(c)
  {
    if a == [] {
      assert a + c == c;
    } else {
      assert (a + c)[0] == a[0];
      assert (a + c)[1..] == a[1..] + c;
      DropZerosAppend(a[1..], c);
    }
  }

  lemma {:induction false} AtLeastDropZeros(s: seq<int>, b: int)
    requires b >= 1
    ensures AtLeast(DropZeros(s), b) == AtLeast(s, b)
  {
    if s != [] {
      AtLeastDropZeros(s[1..], b);
      var head := if s[0] != 0 then [s[0]] else [];
      AtLeastAppend(head, DropZeros(s[1..]), b);
    }
  }

  lemma DropZerosCounts(s: seq<int>, h: nat)
    requires AtLeast(s, h) >= h && AtLeast(s, h + 1) <= h
    ensures AtLeast(DropZeros(s), h) >= h && AtLeast(DropZeros(s), h + 1) <= h
  {
    AtLeastDropZeros(s, h + 1);
    if h >= 1 {
      AtLeastDropZeros(s, h);
    }
  }

  /** A score of zero never counts towards an H-index. */
  lemma HIndexIgnoresZeros(s: seq<int>)
    ensures HIndex(DropZeros(s)) == HIndex(s)
  {
    HIndexByCounts(s);
    DropZerosCounts(s, HIndex(s));
    CountsDetermineHIndex(DropZeros(s), HIndex(s));
  }

  // ---------------------------------------------------------------------------
  // The JavaScript form
  // ---------------------------------------------------------------------------

  /** An element of the JavaScript `scores` array: the `score` field that
      was pushed, which is `undefined` for a story record that lacks one. */
  datatype JsScore = Num(n: int) | Undefined

  /** x may stand before y in the array `scores.sort((a, b) => b - a)` leaves:
      numbers in non-increasing order, and `undefined` (which Array.prototype.sort
      moves to the end without consulting the comparator) after every number. */
  predicate Ranks(x: JsScore, y: JsScore) {
    y.Undefined? || (x.Num? && x.n >= y.n)
  }

  ghost predicate SortedJs(s: seq<JsScore>) {
    forall i, j :: 0 <= i < j < |s| ==> Ranks(s[i], s[j])
  }

  /** The test `sortedScores[i] >= i + 1` at line 20 of app.js; `undefined >= n` is false. */
  predicate Passes(x: JsScore, bound: int) {
    x.Num? && x.n >= bound
  }

  ghost predicate IsFirstFailureJs(s: seq<JsScore>, h: nat) {
    h <= |s|
    && (forall p :: 0 <= p < h ==> Passes(s[p], p + 1))
    && (h < |s| ==> !Passes(s[h], h + 1))
  }

  /** The numbers of a JavaScript score array, in order. */
  function Present(s: seq<JsScore>): (r: seq<int>)
    ensures |r| <= |s|
  {
    if s == [] then []
    else (if s[0].Num? then [s[0].n] else []) + Present(s[1..])
  }

  lemma {:induction false} PresentAppend(a: seq<JsScore>, c: seq<JsScore>)
    ensures Present(a + c) == Present(a) + Present(c)
  {
    if a == [] {
      assert a + c == c;
    } else {
      assert (a + c)[0] == a[0];
      assert (a + c)[1..] == a[1..] + c;
      PresentAppend(a[1..], c);
    }
  }

  lemma {:induction false} PresentCount(s: seq<JsScore>, x: int)
    ensures multiset(Present(s))[x] == multiset(s)[Num(x)]
  {
    if s != [] {
      PresentCount(s[1..], x);
      var head := if s[0].Num? then [s[0].n] else [];
      assert Present(s) == head + Present(s[1..]);
      assert multiset(Present(s)) == multiset(head) + multiset(Present(s[1..]));
      assert s == [s[0]] + s[1..];
      assert multiset(s) == multiset{s[0]} + multiset(s[1..]);
      assert multiset(head)[x] == multiset{s[0]}[Num(x)];
    }
  }

  /** Reordering the JavaScript array does not change the multiset of its numbers. */
  lemma PresentPermutation(s: seq<JsScore>, t: seq<JsScore>)
    requires multiset(s) == multiset(t)
    ensures multiset(Present(s)) == multiset(Present(t))
  {
    forall x: int ensures multiset(Present(s))[x] == multiset(Present(t))[x] {
      PresentCount(s, x);
      PresentCount(t, x);
    }
  }

  /** A sorted JavaScript array is its numbers, descending, followed only by `undefined`. */
  lemma {:induction false} SortedJsShape(s: seq<JsScore>)
    requires SortedJs(s)
    ensures SortedDesc(Present(s))
    ensures forall p :: 0 <= p < |Present(s)| ==> s[p] == Num(Present(s)[p])
    ensures forall p :: |Present(s)| <= p < |s| ==> s[p].Undefined?
  {
    if s != [] {
      SortedJsShape(s[1..]);
      var rest := Present(s[1..]);
      if s[0].Num? {
        assert Present(s) == [s[0].n] + rest;
        forall p | 0 <= p < |rest| ensures s[0].n >= rest[p] {
          assert s[p + 1] == Num(rest[p]);
          assert Ranks(s[0], s[p + 1]);
        }
      } else {
        assert Present(s) == rest;
        forall p | 0 <= p < |s| ensures s[p].Undefined? {
          if p > 0 { assert Ranks(s[0], s[p]); }
        }
        if |rest| > 0 {
          assert false;
        }
      }
    }
  }

  /** The loop of `calculateHIndex` from position i: advance while the test holds. */
  function ScanFrom(s: seq<JsScore>, i: nat): (h: nat)
    requires i <= |s|
    ensures i <= h <= |s|
    decreases |s| - i
  {
    if i < |s| && Passes(s[i], i + 1) then ScanFrom(s, i + 1) else i
  }

  /** The characterization IsFirstFailureJs determines the scan's result. */
  lemma {:induction false} FirstFailureIsScan(s: seq<JsScore>, h: nat, i: nat)
    requires IsFirstFailureJs(s, h)
    requires i <= h
    ensures ScanFrom(s, i) == h
    decreases h - i
  {
    if i < h {
      FirstFailureIsScan(s, h, i + 1);
    }
  }

  lemma {:induction false} ScanMatchesCount(s: seq<JsScore>, i: nat)
    requires SortedJs(s)
    requires i <= |Present(s)|
    ensures ScanFrom(s, i) == i + CountFrom(Present(s), i)
    decreases |s| - i
  {
    var p := Present(s);
    SortedJsShape(s);
    if i < |p| {
      assert s[i] == Num(p[i]);
      if p[i] >= i + 1 {
        ScanMatchesCount(s, i + 1);
      } else {
        NoneCountedAfterFailure(p, i);
      }
    }
  }

  /** The break-on-first-failure scan of app.js over an array it has sorted
      yields the Python count over the numbers of that array: the two H-index
      implementations agree. */
  lemma ScanAgreesWithHIndex(s: seq<JsScore>, h: nat)
    requires SortedJs(s)
    requires IsFirstFailureJs(s, h)
    ensures h == HIndex(Present(s))
  {
    SortedJsShape(s);
    SortDescOfSorted(Present(s));
    FirstFailureIsScan(s, h, 0);
    ScanMatchesCount(s, 0);
  }

  /** Exchanges two elements of a. */
  method Swap(a: array<JsScore>, i: nat, j: nat)
    requires i < a.Length && j < a.Length
    modifies a
    ensures a[..] == old(a[..])[i := old(a[j])][j := old(a[i])]
    ensures multiset(a[..]) == old(multiset(a[..]))
  {
    a[i], a[j] := a[j], a[i];
  }

  /** `scores.sort((a, b) => b - a)`: sorts the caller's array in place. The
      engine's algorithm is not fixed by the language; any algorithm yields the
      same array, because the order Ranks leaves no two distinct values tied. */
  method SortInPlace(a: array<JsScore>)
    modifies a
    ensures SortedJs(a[..])
    ensures multiset(a[..]) == old(multiset(a[..]))
  {
    var i := 0;
    while i < a.Length
      invariant 0 <= i <= a.Length
      invariant forall p, q :: 0 <= p < q < i ==> Ranks(a[p], a[q])
      invariant forall p, q :: 0 <= p < i <= q < a.Length ==> Ranks(a[p], a[q])
      invariant multiset(a[..]) == old(multiset(a[..]))
    {
      var m := i;
      var j := i + 1;
      while j < a.Length
        invariant i <= m < a.Length
        invariant i < j <= a.Length
        invariant forall q :: i <= q < j ==> Ranks(a[m], a[q])
      {
        if !Ranks(a[m], a[j]) {
          m := j;
        }
        j := j + 1;
      }
      Swap(a, i, m);
      i := i + 1;
    }
  }

  /** `calculateHIndex` of hn-index/app.js: sorts `scores` in place (the caller
      sees the sorted array) and returns the scan's result, which is the Python
      `h_index` of the numbers in the array. */
  method CalculateHIndex(scores: array<JsScore>) returns (hIndex: nat)
    modifies scores
    ensures SortedJs(scores[..])
    ensures multiset(scores[..]) == old(multiset(scores[..]))
    ensures IsFirstFailureJs(scores[..], hIndex)
    ensures hIndex == HIndex(Present(old(scores[..])))
  {
    SortInPlace(scores);
    hIndex := 0;
    var i := 0;
    while i < scores.Length
      invariant 0 <= i <= scores.Length
      invariant hIndex == i
      invariant forall p :: 0 <= p < i ==> Passes(scores[p], p + 1)
    {
      if Passes(scores[i], i + 1) {
        hIndex := i + 1;
      } else {
        break;
      }
      i := i + 1;
    }
    ScanAgreesWithHIndex(scores[..], hIndex);
    PresentPermutation(scores[..], old(scores[..]));
    HIndexPermutation(Present(scores[..]), Present(old(scores[..])));
  }
}
