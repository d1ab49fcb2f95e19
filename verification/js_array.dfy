/**
  The built-in array operations the recommendation service is written with:
  `filter`, `slice(0, end)` and `sort(comparefn)`. Since its 2019 edition
  ECMA-262 requires `Array.prototype.sort` to be stable; with a consistent
  comparator a stable sort has exactly one possible result (SortIsUnique),
  so stable insertion sort serves as its definition here.
 */
module JsArray {

  /**
    `s.filter(p)`: the elements of `s` satisfying `p`, each occurrence kept,
    in their original order (FilterConcat).
   */
  function Filter<T>(p: T -> bool, s: seq<T>): (r: seq<T>)
    ensures forall x :: x in r ==> x in s && p(x)
    ensures forall x :: x in s && p(x) ==> x in r
    ensures multiset(r) <= multiset(s)
    ensures forall x :: x in s ==> multiset(r)[x] == if p(x) then multiset(s)[x] else 0
  {
    if s == [] then []
    else
      assert s == [s[0]] + s[1..];
      (if p(s[0]) then [s[0]] else []) + Filter(p, s[1..])
  }

  /** Filtering a non-empty `s`: its head when it satisfies `p`, then the filtered tail. */
  lemma FilterHead<T>(p: T -> bool, s: seq<T>)
    requires s != []
    ensures Filter(p, s) == (if p(s[0]) then [s[0]] else []) + Filter(p, s[1..])
  {
  }

  lemma TailOfConcat<T>(a: seq<T>, b: seq<T>)
    requires a != []
    ensures (a + b)[0] == a[0] && (a + b)[1..] == a[1..] + b
  {
  }

  lemma ConcatAssoc<T>(h: seq<T>, x: seq<T>, y: seq<T>)
    ensures h + (x + y) == (h + x) + y
  {
  }

  /** One step of FilterConcat: from the tail of `a` to `a`. */
  lemma FilterConcatStep<T>(p: T -> bool, a: seq<T>, b: seq<T>)
    requires a != []
    requires Filter(p, a[1..] + b) == Filter(p, a[1..]) + Filter(p, b)
    ensures Filter(p, a + b) == Filter(p, a) + Filter(p, b)
  {
    TailOfConcat(a, b);
    FilterHead(p, a + b);
    FilterHead(p, a);
    ConcatAssoc(if p(a[0]) then [a[0]] else [], Filter(p, a[1..]), Filter(p, b));
  }

  /** Filtering distributes over concatenation, so the kept elements stay in input order. */
  lemma {:induction false} FilterConcat<T>(p: T -> bool, a: seq<T>, b: seq<T>)
    ensures Filter(p, a + b) == Filter(p, a) + Filter(p, b)
  {
    if a == [] {
      assert a + b == b;
    } else {
      FilterConcat(p, a[1..], b);
      FilterConcatStep(p, a, b);
    }
  }

  /** `s.slice(0, end)` for a non-negative `end`: the longest prefix of length at most `end`. */
  function Slice<T>(s: seq<T>, end: nat): (r: seq<T>)
    ensures |r| == if end < |s| then end else |s|
    ensures r <= s
  {
    if end < |s| then s[..end] else s
  }

  /**
    A comparator in the sense of ECMA-262: a negative result puts `a` before
    `b`, a positive one puts `b` before `a`, zero leaves them in input order.
    It is consistent when swapping its arguments flips the sign and "not
    after" is transitive.
   */
  ghost predicate Consistent<T(!new)>(cmp: (T, T) -> int) {
    && (forall a, b :: cmp(a, b) < 0 <==> cmp(b, a) > 0)
    && (forall a, b, c {:trigger NotAfter(cmp, a, b), NotAfter(cmp, b, c)}
          :: NotAfter(cmp, a, b) && NotAfter(cmp, b, c) ==> NotAfter(cmp, a, c))
  }

  /** `a` may be placed before `b`. Transitivity is stated on this name only, so
      that the prover chains comparisons where a proof asks for it. */
  ghost predicate NotAfter<T>(cmp: (T, T) -> int, a: T, b: T) {
    cmp(a, b) <= 0
  }

  predicate SortedBy<T>(cmp: (T, T) -> int, s: seq<T>) {
    forall i, j :: 0 <= i < j < |s| ==> cmp(s[i], s[j]) <= 0
  }

  /** The elements of `s` that `cmp` ranks equal to `k`, in their order in `s`. */
  function Tied<T>(cmp: (T, T) -> int, s: seq<T>, k: T): (r: seq<T>)
    ensures forall x :: x in r ==> x in s && cmp(x, k) == 0
  {
    if s == [] then []
    else (if cmp(s[0], k) == 0 then [s[0]] else []) + Tied(cmp, s[1..], k)
  }

  /** Inserts `x` in front of the first element it is not ranked after. */
  function Insert<T>(cmp: (T, T) -> int, x: T, s: seq<T>): (r: seq<T>)
    ensures multiset(r) == multiset(s) + multiset{x}
  {
    if s == [] || cmp(x, s[0]) <= 0 then [x] + s
    else
      assert s == [s[0]] + s[1..];
      [s[0]] + Insert(cmp, x, s[1..])
  }

  /** `s.sort(cmp)` on a copy of `s`: stable insertion sort. */
  function Sort<T>(cmp: (T, T) -> int, s: seq<T>): (r: seq<T>)
    ensures multiset(r) == multiset(s)
  {
    if s == [] then []
    else
      assert s == [s[0]] + s[1..];
      Insert(cmp, s[0], Sort(cmp, s[1..]))
  }

  lemma {:induction false} InsertKeepsSorted<T(!new)>(cmp: (T, T) -> int, x: T, s: seq<T>)
    requires Consistent(cmp) && SortedBy(cmp, s)
    ensures SortedBy(cmp, Insert(cmp, x, s))
  {
    if s == [] || cmp(x, s[0]) <= 0 {
      var r := [x] + s;
      forall i, j | 0 <= i < j < |r| ensures cmp(r[i], r[j]) <= 0 {
        if i == 0 && j > 1 {
          assert NotAfter(cmp, x, s[0]) && NotAfter(cmp, s[0], s[j - 1]);
        }
      }
    } else {
      var rest := Insert(cmp, x, s[1..]);
      InsertKeepsSorted(cmp, x, s[1..]);
      var r := [s[0]] + rest;
      forall j | 0 < j < |r| ensures cmp(s[0], r[j]) <= 0 {
        assert r[j] in multiset(rest);
        assert r[j] in multiset(s[1..]) + multiset{x};
        if r[j] != x {
          var m :| 0 <= m < |s[1..]| && s[1..][m] == r[j];
          assert s[m + 1] == r[j];
        }
      }
    }
  }

  /** Stable insertion sort puts its result in the comparator's order. */
  lemma {:induction false} SortIsSorted<T(!new)>(cmp: (T, T) -> int, s: seq<T>)
    requires Consistent(cmp)
    ensures SortedBy(cmp, Sort(cmp, s))
  {
    if s != [] {
      SortIsSorted(cmp, s[1..]);
      InsertKeepsSorted(cmp, s[0], Sort(cmp, s[1..]));
    }
  }

  /** The tie class of `k` in `[y] + t` is y's contribution followed by t's. */
  lemma TiedCons<T>(cmp: (T, T) -> int, y: T, t: seq<T>, k: T)
    ensures Tied(cmp, [y] + t, k) == (if cmp(y, k) == 0 then [y] else []) + Tied(cmp, t, k)
  {
    assert ([y] + t)[1..] == t;
  }

  /** An element ranked after `x` and `x` are never both tied with the same key. */
  lemma NotBothTied<T(!new)>(cmp: (T, T) -> int, x: T, y: T, k: T)
    requires Consistent(cmp) && cmp(x, y) > 0
    ensures !(cmp(x, k) == 0 && cmp(y, k) == 0)
  {
    if cmp(x, k) == 0 && cmp(y, k) == 0 {
      assert NotAfter(cmp, x, k) && NotAfter(cmp, k, y);
      assert false;
    }
  }

  /** The tie class of `k` in a non-empty `s`, split at the head. */
  lemma TiedHead<T>(cmp: (T, T) -> int, s: seq<T>, k: T)
    requires s != []
    ensures Tied(cmp, s, k) == (if cmp(s[0], k) == 0 then [s[0]] else []) + Tied(cmp, s[1..], k)
  {
    TiedCons(cmp, s[0], s[1..], k);
    assert [s[0]] + s[1..] == s;
  }

  /** The tie contributions of two elements ranked apart commute, as one of them is empty. */
  lemma TieContributionsCommute<T(!new)>(cmp: (T, T) -> int, x: T, y: T, k: T, t: seq<T>)
    requires Consistent(cmp) && cmp(x, y) > 0
    ensures var tx := if cmp(x, k) == 0 then [x] else [];
            var ty := if cmp(y, k) == 0 then [y] else [];
            ty + (tx + t) == tx + (ty + t)
  {
    NotBothTied(cmp, x, y, k);
  }

  lemma {:induction false} InsertTied<T(!new)>(cmp: (T, T) -> int, x: T, s: seq<T>, k: T)
    requires Consistent(cmp)
    ensures Tied(cmp, Insert(cmp, x, s), k)
         == (if cmp(x, k) == 0 then [x] else []) + Tied(cmp, s, k)
  {
    if s == [] || cmp(x, s[0]) <= 0 {
      TiedCons(cmp, x, s, k);
    } else {
      var rest := Insert(cmp, x, s[1..]);
      InsertTied(cmp, x, s[1..], k);
      assert Insert(cmp, x, s) == [s[0]] + rest;
      TiedCons(cmp, s[0], rest, k);
      TiedHead(cmp, s, k);
      TieContributionsCommute(cmp, x, s[0], k, Tied(cmp, s[1..], k));
    }
  }

  /** Elements ranked equal keep their input order. */
  lemma {:induction false} SortIsStable<T(!new)>(cmp: (T, T) -> int, s: seq<T>, k: T)
    requires Consistent(cmp)
    ensures Tied(cmp, Sort(cmp, s), k) == Tied(cmp, s, k)
  {
    if s != [] {
      SortIsStable(cmp, s[1..], k);
      InsertTied(cmp, s[0], Sort(cmp, s[1..]), k);
    }
  }

  lemma FirstsRankedEqual<T(!new)>(cmp: (T, T) -> int, a: seq<T>, b: seq<T>)
    requires Consistent(cmp) && SortedBy(cmp, a) && SortedBy(cmp, b)
    requires multiset(a) == multiset(b) && a != []
    ensures b != [] && cmp(a[0], b[0]) == 0
  {
    assert a[0] in multiset(b);
    var j :| 0 <= j < |b| && b[j] == a[0];
    assert !(cmp(a[0], a[0]) < 0) && !(cmp(a[0], a[0]) > 0);
    assert cmp(b[0], a[0]) <= 0;
    assert b[0] in multiset(a);
    var i :| 0 <= i < |a| && a[i] == b[0];
    assert cmp(a[0], b[0]) <= 0;
  }

  lemma TailsTied<T>(cmp: (T, T) -> int, a: seq<T>, b: seq<T>)
    requires a != [] && b != [] && a[0] == b[0]
    requires forall k :: Tied(cmp, a, k) == Tied(cmp, b, k)
    ensures forall k :: Tied(cmp, a[1..], k) == Tied(cmp, b[1..], k)
  {
    forall k ensures Tied(cmp, a[1..], k) == Tied(cmp, b[1..], k) {
      var t0 := if cmp(a[0], k) == 0 then [a[0]] else [];
      assert Tied(cmp, a, k) == t0 + Tied(cmp, a[1..], k);
      assert Tied(cmp, b, k) == t0 + Tied(cmp, b[1..], k);
      assert Tied(cmp, a[1..], k) == Tied(cmp, a, k)[|t0|..];
      assert Tied(cmp, b[1..], k) == Tied(cmp, b, k)[|t0|..];
    }
  }

  lemma SameFirst<T(!new)>(cmp: (T, T) -> int, a: seq<T>, b: seq<T>)
    requires Consistent(cmp) && SortedBy(cmp, a) && SortedBy(cmp, b)
    requires multiset(a) == multiset(b) && a != []
    requires forall k :: Tied(cmp, a, k) == Tied(cmp, b, k)
    ensures b != [] && a[0] == b[0]
  {
    FirstsRankedEqual(cmp, a, b);
    var a0, b0 := a[0], b[0];
    assert cmp(a0, a0) == 0 by { assert !(cmp(a0, a0) < 0) && !(cmp(a0, a0) > 0); }
    assert cmp(b0, a0) == 0;
    assert Tied(cmp, a, a0)[0] == a0;
    assert Tied(cmp, b, a0)[0] == b0;
    assert Tied(cmp, a, a0) == Tied(cmp, b, a0);
  }

  lemma TailsPermuted<T>(a: seq<T>, b: seq<T>)
    requires a != [] && b != [] && a[0] == b[0] && multiset(a) == multiset(b)
    ensures multiset(a[1..]) == multiset(b[1..])
  {
    assert a == [a[0]] + a[1..] && b == [b[0]] + b[1..];
    assert multiset(a[1..]) == multiset(a) - multiset{a[0]};
    assert multiset(b[1..]) == multiset(b) - multiset{b[0]};
  }

  lemma {:induction false} SortedTiedUnique<T(!new)>(cmp: (T, T) -> int, a: seq<T>, b: seq<T>)
    requires Consistent(cmp) && SortedBy(cmp, a) && SortedBy(cmp, b)
    requires multiset(a) == multiset(b)
    requires forall k :: Tied(cmp, a, k) == Tied(cmp, b, k)
    ensures a == b
  {
    if a == [] {
      assert |b| == |multiset(b)| == 0;
    } else {
      SameFirst(cmp, a, b);
      TailsTied(cmp, a, b);
      TailsPermuted(a, b);
      SortedTiedUnique(cmp, a[1..], b[1..]);
      assert a == [a[0]] + a[1..] && b == [b[0]] + b[1..];
    }
  }

  /**
    Any ordering of `s` that is sorted by `cmp`, is a permutation of `s` and
    keeps tied elements in input order is the result of Sort: every stable
    sort returns the same sequence.
   */
  lemma SortIsUnique<T(!new)>(cmp: (T, T) -> int, s: seq<T>, r: seq<T>)
    requires Consistent(cmp) && SortedBy(cmp, r)
    requires multiset(r) == multiset(s)
    requires forall k :: Tied(cmp, r, k) == Tied(cmp, s, k)
    ensures r == Sort(cmp, s)
  {
    SortIsSorted(cmp, s);
    forall k ensures Tied(cmp, r, k) == Tied(cmp, Sort(cmp, s), k) {
      SortIsStable(cmp, s, k);
    }
    SortedTiedUnique(cmp, r, Sort(cmp, s));
  }

  lemma {:induction false} TiedOfPrefix<T>(cmp: (T, T) -> int, a: seq<T>, b: seq<T>, k: T)
    requires a <= b
    ensures Tied(cmp, a, k) <= Tied(cmp, b, k)
  {
    if a != [] {
      assert a[1..] <= b[1..];
      TiedOfPrefix(cmp, a[1..], b[1..], k);
    }
  }

  /**
    `r` is what `s.sort(cmp).slice(0, n)` must be: min(n, |s|) elements drawn
    from `s`, in the comparator's order; no element left out is ranked before
    one kept; and among elements ranked equal, those kept are the first ones
    of `s`, in input order.
   */
  ghost predicate TopRanked<T(!new)>(cmp: (T, T) -> int, s: seq<T>, n: nat, r: seq<T>) {
    && |r| == (if n < |s| then n else |s|)
    && multiset(r) <= multiset(s)
    && SortedBy(cmp, r)
    && (forall i, x :: 0 <= i < |r| && x in multiset(s) - multiset(r) ==> cmp(r[i], x) <= 0)
    && (forall k :: Tied(cmp, r, k) <= Tied(cmp, s, k))
  }

  /** A prefix of `s` takes part of its multiset; what it leaves is the rest of `s`. */
  lemma SliceMultiset<T>(s: seq<T>, n: nat)
    ensures multiset(Slice(s, n)) <= multiset(s)
    ensures multiset(s) - multiset(Slice(s, n)) == multiset(s[|Slice(s, n)|..])
  {
    var r := Slice(s, n);
    assert s == r + s[|r|..];
    assert multiset(s) == multiset(r) + multiset(s[|r|..]);
  }

  /** A prefix of a sorted sequence is sorted and ranked no later than what it leaves. */
  lemma SliceOfSorted<T>(cmp: (T, T) -> int, s: seq<T>, n: nat)
    requires SortedBy(cmp, s)
    ensures SortedBy(cmp, Slice(s, n))
    ensures forall i, x :: 0 <= i < |Slice(s, n)| && x in multiset(s) - multiset(Slice(s, n))
                           ==> cmp(Slice(s, n)[i], x) <= 0
  {
    var r := Slice(s, n);
    var rest := s[|r|..];
    SliceMultiset(s, n);
    forall i, x | 0 <= i < |r| && x in multiset(rest) ensures cmp(r[i], x) <= 0 {
      var m :| 0 <= m < |rest| && rest[m] == x;
      assert s[i] == r[i] && s[|r| + m] == x;
    }
  }

  /** Slicing an ordering of `s` that is sorted, a permutation and stable yields a top-n selection. */
  lemma SliceOfStableSorted<T(!new)>(cmp: (T, T) -> int, s: seq<T>, sorted: seq<T>, n: nat)
    requires SortedBy(cmp, sorted) && multiset(sorted) == multiset(s)
    requires forall k :: Tied(cmp, sorted, k) == Tied(cmp, s, k)
    ensures TopRanked(cmp, s, n, Slice(sorted, n))
  {
    var r := Slice(sorted, n);
    assert |sorted| == |multiset(sorted)| == |multiset(s)| == |s|;
    SliceMultiset(sorted, n);
    SliceOfSorted(cmp, sorted, n);
    forall k ensures Tied(cmp, r, k) <= Tied(cmp, s, k) {
      TiedOfPrefix(cmp, r, sorted, k);
    }
  }

  lemma SliceOfSort<T(!new)>(cmp: (T, T) -> int, s: seq<T>, n: nat)
    requires Consistent(cmp)
    ensures TopRanked(cmp, s, n, Slice(Sort(cmp, s), n))
  {
    SortIsSorted(cmp, s);
    forall k ensures Tied(cmp, Sort(cmp, s), k) == Tied(cmp, s, k) {
      SortIsStable(cmp, s, k);
    }
    SliceOfStableSorted(cmp, s, Sort(cmp, s), n);
  }
}
