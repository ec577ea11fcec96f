/**
 * The array methods the dashboard calls (`filter`, `findIndex`/`find`, `slice`, `sort`),
 * as functions on sequences.
 */
module Arrays {

  import opened Js

  /** `xs.filter(p)`: the elements that satisfy p, in their original order. */
  function Filter<T>(xs: seq<T>, p: T -> bool): (r: seq<T>)
    ensures |r| <= |xs|
    ensures forall i :: 0 <= i < |r| ==> r[i] in xs && p(r[i])
    ensures forall i :: 0 <= i < |xs| && p(xs[i]) ==> xs[i] in r
  {
    if xs == [] then [] else (if p(xs[0]) then [xs[0]] else []) + Filter(xs[1..], p)
  }

  /** The result of `filter` is a sub-multiset of its input. */
  lemma {:induction false} FilterSubMultiset<T>(xs: seq<T>, p: T -> bool)
    ensures multiset(Filter(xs, p)) <= multiset(xs)
  {
    if xs != [] {
      FilterSubMultiset(xs[1..], p);
      assert multiset(xs) == multiset{xs[0]} + multiset(xs[1..]) by {
        assert xs == [xs[0]] + xs[1..];
      }
      if p(xs[0]) {
        assert Filter(xs, p) == [xs[0]] + Filter(xs[1..], p);
      } else {
        assert Filter(xs, p) == Filter(xs[1..], p);
      }
    }
  }

  /** An element of the result of `filter` is an element of its input that satisfies p. */
  lemma FilterMember<T>(xs: seq<T>, p: T -> bool, x: T)
    requires x in Filter(xs, p)
    ensures x in xs && p(x)
  {
    var r := Filter(xs, p);
    var i :| 0 <= i < |r| && r[i] == x;
  }

  /** Filtering distributes over concatenation, which is how `filter` keeps the store order. */
  lemma {:induction false} FilterAppend<T>(xs: seq<T>, ys: seq<T>, p: T -> bool)
    ensures Filter(xs + ys, p) == Filter(xs, p) + Filter(ys, p)
  {
    if xs == [] {
      assert xs + ys == ys;
    } else {
      assert (xs + ys)[1..] == xs[1..] + ys;
      FilterAppend(xs[1..], ys, p);
    }
  }

  /** Filtering with a predicate that holds everywhere keeps everything. */
  lemma {:induction false} FilterAll<T>(xs: seq<T>, p: T -> bool)
    requires forall i :: 0 <= i < |xs| ==> p(xs[i])
    ensures Filter(xs, p) == xs
  {
    if xs != [] {
      FilterAll(xs[1..], p);
    }
  }

  /** Filtering with a predicate that holds nowhere keeps nothing. */
  lemma {:induction false} FilterNone<T>(xs: seq<T>, p: T -> bool)
    requires forall i :: 0 <= i < |xs| ==> !p(xs[i])
    ensures Filter(xs, p) == []
  {
    if xs != [] {
      FilterNone(xs[1..], p);
    }
  }

  /** An element that fails p makes the result of `filter` shorter than its input. */
  lemma {:induction false} FilterDrops<T>(xs: seq<T>, p: T -> bool, i: nat)
    requires i < |xs| && !p(xs[i])
    ensures |Filter(xs, p)| < |xs|
  {
    if i > 0 {
      FilterDrops(xs[1..], p, i - 1);
    }
  }

  /** The number of elements satisfying p. */
  function Count<T>(xs: seq<T>, p: T -> bool): nat
  {
    |Filter(xs, p)|
  }

  /** Appending one element adds one to the count exactly when it satisfies p. */
  lemma CountSnoc<T>(xs: seq<T>, x: T, p: T -> bool)
    ensures Count(xs + [x], p) == Count(xs, p) + if p(x) then 1 else 0
  {
    FilterAppend(xs, [x], p);
    assert Filter([x], p) == if p(x) then [x] else [] by {
      assert [x][1..] == [];
    }
  }

  /** `xs.findIndex(p)`: the index of the first element satisfying p, or None for -1. */
  function FindIndex<T>(xs: seq<T>, p: T -> bool): (r: Option<nat>)
    ensures r.Some? ==> r.value < |xs| && p(xs[r.value])
    ensures r.Some? ==> forall j :: 0 <= j < r.value ==> !p(xs[j])
    ensures r.None? ==> forall j :: 0 <= j < |xs| ==> !p(xs[j])
  {
    if xs == [] then None
    else if p(xs[0]) then Some(0)
    else
      var r := FindIndex(xs[1..], p);
      if r.None? then None else Some(r.value + 1)
  }

  /** `xs.find(p)`: the first element satisfying p, if any. */
  function Find<T>(xs: seq<T>, p: T -> bool): (r: Option<T>)
    ensures r.Some? <==> exists i :: 0 <= i < |xs| && p(xs[i])
    ensures r.Some? ==> r.value in xs && p(r.value)
  {
    match FindIndex(xs, p)
    case None => None
    case Some(i) => Some(xs[i])
  }

  // ---------------------------------------------------------------------------
  // slice

  /** How `slice` reads a start or end argument: negative values count from the end. */
  function SliceIndex(i: int, len: nat): (k: nat)
    ensures k <= len
    ensures 0 <= i ==> k == if i <= len then i else len
  {
    if i < 0 then (if len + i < 0 then 0 else len + i) else if i > len then len else i
  }

  /** `xs.slice(start, end)`. */
  function Slice<T>(xs: seq<T>, start: int, end: int): (r: seq<T>)
    ensures |r| <= |xs|
    ensures 0 <= start <= end ==> |r| <= end - start
  {
    var a := SliceIndex(start, |xs|);
    var b := SliceIndex(end, |xs|);
    if a <= b then xs[a..b] else []
  }

  /** `slice(0, n)` with n >= 0 is the first min(n, |xs|) elements. */
  lemma SlicePrefix<T>(xs: seq<T>, n: int)
    requires n >= 0
    ensures Slice(xs, 0, n) == xs[..if n <= |xs| then n else |xs|]
  {
  }

  // ---------------------------------------------------------------------------
  // sort

  /**
   * `prec(a, b)` says that the comparator puts a strictly before b (it returns a negative
   * number). `sort` is only meaningful for a strict weak order: asymmetric, and whenever a
   * precedes c, any b either follows a or precedes c.
   */
  ghost predicate IsStrictWeakOrder<T(!new)>(prec: (T, T) -> bool)
  {
    && (forall a, b :: prec(a, b) ==> !prec(b, a))
    && (forall a, b, c {:trigger prec(a, b), prec(b, c)} {:trigger prec(a, c), prec(a, b)} {:trigger prec(a, c), prec(b, c)}
         :: prec(a, c) ==> prec(a, b) || prec(b, c))
  }

  /** No element precedes an element that comes before it. */
  ghost predicate SortedBy<T>(xs: seq<T>, prec: (T, T) -> bool)
  {
    forall i, j :: 0 <= i < j < |xs| ==> !prec(xs[j], xs[i])
  }

  /** Places x before the first element it does not strictly follow. */
  function Insert<T>(x: T, ys: seq<T>, prec: (T, T) -> bool): (r: seq<T>)
    ensures |r| == |ys| + 1
  {
    if ys == [] then [x]
    else if prec(ys[0], x) then [ys[0]] + Insert(x, ys[1..], prec)
    else [x] + ys
  }

  /**
   * `[...xs].sort(cmp)`: a stable sort, as `Array.prototype.sort` is. Inserting the earlier
   * element into the sorted rest keeps it in front of every element it ties with.
   */
  function SortBy<T>(xs: seq<T>, prec: (T, T) -> bool): (r: seq<T>)
    ensures |r| == |xs|
  {
    if xs == [] then [] else Insert(xs[0], SortBy(xs[1..], prec), prec)
  }

  lemma {:induction false} InsertMultiset<T>(x: T, ys: seq<T>, prec: (T, T) -> bool)
    ensures multiset(Insert(x, ys, prec)) == multiset(ys) + multiset{x}
  {
    if ys != [] && prec(ys[0], x) {
      InsertMultiset(x, ys[1..], prec);
      assert multiset(ys) == multiset{ys[0]} + multiset(ys[1..]) by {
        assert ys == [ys[0]] + ys[1..];
      }
      assert Insert(x, ys, prec) == [ys[0]] + Insert(x, ys[1..], prec);
      assert multiset(Insert(x, ys, prec)) == multiset{ys[0]} + multiset(Insert(x, ys[1..], prec));
    } else {
      assert Insert(x, ys, prec) == [x] + ys;
    }
  }

  /** Sorting only reorders: the result is a permutation of the input. */
  lemma {:induction false} SortByPermutation<T>(xs: seq<T>, prec: (T, T) -> bool)
    ensures multiset(SortBy(xs, prec)) == multiset(xs)
  {
    if xs != [] {
      SortByPermutation(xs[1..], prec);
      InsertMultiset(xs[0], SortBy(xs[1..], prec), prec);
      assert xs == [xs[0]] + xs[1..];
    }
  }

  lemma {:induction false} InsertSorted<T(!new)>(x: T, ys: seq<T>, prec: (T, T) -> bool)
    requires IsStrictWeakOrder(prec)
    requires SortedBy(ys, prec)
    ensures SortedBy(Insert(x, ys, prec), prec)
  {
    if ys == [] {
    } else if prec(ys[0], x) {
      var rest := Insert(x, ys[1..], prec);
      InsertSorted(x, ys[1..], prec);
      InsertMultiset(x, ys[1..], prec);
      forall j | 0 <= j < |rest| ensures !prec(rest[j], ys[0]) {
        assert rest[j] in multiset(rest);
        if rest[j] != x {
          assert rest[j] in ys[1..];
          var k :| 0 <= k < |ys[1..]| && ys[1..][k] == rest[j];
          assert ys[k + 1] == rest[j];
        }
      }
    } else {
      forall j | 0 < j < |ys| ensures !prec(ys[j], x) {
        assert !prec(ys[j], ys[0]);
      }
    }
  }

  /** Sorting with a strict weak order yields a sorted sequence. */
  lemma {:induction false} SortBySorted<T(!new)>(xs: seq<T>, prec: (T, T) -> bool)
    requires IsStrictWeakOrder(prec)
    ensures SortedBy(SortBy(xs, prec), prec)
  {
    if xs != [] {
      SortBySorted(xs[1..], prec);
      InsertSorted(xs[0], SortBy(xs[1..], prec), prec);
    }
  }
}
