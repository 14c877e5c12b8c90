/** Generic sequence operations the dashboard's table idioms are built from:
    `unique()`, `sort_values(...).head(n)`, sums, and "is a subsequence of". */
module Seqs {

  datatype Option<+T> = None | Some(value: T)

  datatype Result<+T, +E> = Ok(value: T) | Err(error: E)

  /** No element occurs twice. */
  ghost predicate NoDup<T>(s: seq<T>)
  {
    forall i, j :: 0 <= i < j < |s| ==> s[i] != s[j]
  }

  /** `a` is `b` with some elements deleted (order kept). */
  ghost predicate Subsequence<T>(a: seq<T>, b: seq<T>)
    decreases |b|
  {
    if a == [] then true
    else if b == [] then false
    else if a[|a| - 1] == b[|b| - 1] then Subsequence(a[..|a| - 1], b[..|b| - 1])
    else Subsequence(a, b[..|b| - 1])
  }

  lemma {:induction false} SubsequenceSnoc<T>(a: seq<T>, b: seq<T>, x: T, keep: bool)
    requires Subsequence(a, b)
    ensures Subsequence(if keep then a + [x] else a, b + [x])
  {
    var b' := b + [x];
    assert b'[..|b'| - 1] == b;
    if keep {
      var a' := a + [x];
      assert a'[..|a'| - 1] == a;
    } else if a != [] && a[|a| - 1] == x {
      SubsequenceDropLast(a, b);
    }
  }

  /** Dropping the last element of `a` keeps it a subsequence. */
  lemma {:induction false} SubsequenceDropLast<T>(a: seq<T>, b: seq<T>)
    requires a != [] && Subsequence(a, b)
    ensures Subsequence(a[..|a| - 1], b)
    decreases |b|, 1
  {
    var a' := a[..|a| - 1];
    if a' == [] {
    } else if a[|a| - 1] == b[|b| - 1] {
      SubsequenceSkip(a', b);
    } else {
      SubsequenceDropLast(a, b[..|b| - 1]);
      SubsequenceSkip(a', b);
    }
  }

  /** A subsequence of the front of `b` is a subsequence of `b`. */
  lemma {:induction false} SubsequenceSkip<T>(a: seq<T>, b: seq<T>)
    requires b != [] && Subsequence(a, b[..|b| - 1])
    ensures Subsequence(a, b)
    decreases |b|, 0
  {
    if a == [] {
    } else if a[|a| - 1] == b[|b| - 1] {
      SubsequenceDropLast(a, b[..|b| - 1]);
    }
  }

  /** `pd.Series.unique()`: every value once, in order of first occurrence. */
  function Distinct<T(==, !new)>(s: seq<T>): (r: seq<T>)
    ensures NoDup(r)
    ensures forall x :: x in r <==> x in s
    ensures Subsequence(r, s)
    ensures FirstOccurrenceOrder(r, s)
  {
    if s == [] then []
    else
      var front, x := s[..|s| - 1], s[|s| - 1];
      var d := Distinct(front);
      assert s == front + [x];
      SubsequenceSnoc(d, front, x, x !in d);
      DistinctOrderStep(front, x, d);
      if x in d then d else d + [x]
  }

  /** Every value of `r` occurs in `s`, and a value listed earlier in `r` first occurs
      earlier in `s`. */
  ghost predicate FirstOccurrenceOrder<T>(r: seq<T>, s: seq<T>)
  {
    forall i, j :: 0 <= i < j < |r| ==>
      IndexOf(s, r[i]).Some? && IndexOf(s, r[j]).Some? && IndexOf(s, r[i]).value < IndexOf(s, r[j]).value
  }

  /** A position holding `x` with no earlier `x` is the one `IndexOf` finds. */
  lemma IndexOfAt<T>(s: seq<T>, x: T, k: nat)
    requires k < |s| && s[k] == x && x !in s[..k]
    ensures IndexOf(s, x) == Some(k)
  {
    assert s[k] in s;
  }

  /** Appending `x` keeps the first occurrence of every value already present. */
  lemma IndexOfSnoc<T>(front: seq<T>, x: T, y: T)
    ensures y in front ==> IndexOf(front + [x], y) == IndexOf(front, y)
    ensures y !in front && y == x ==> IndexOf(front + [x], y) == Some(|front|)
  {
    var s := front + [x];
    if y in front {
      var k := IndexOf(front, y).value;
      assert s[..k] == front[..k];
      IndexOfAt(s, y, k);
    } else if y == x {
      assert s[..|front|] == front;
      IndexOfAt(s, y, |front|);
    }
  }

  lemma DistinctOrderStep<T>(front: seq<T>, x: T, d: seq<T>)
    requires forall y :: y in d <==> y in front
    requires FirstOccurrenceOrder(d, front)
    ensures FirstOccurrenceOrder(if x in d then d else d + [x], front + [x])
  {
    var s := front + [x];
    var r := if x in d then d else d + [x];
    forall i | 0 <= i < |r|
      ensures IndexOf(s, r[i]).Some?
      ensures i < |d| ==> IndexOf(s, r[i]) == IndexOf(front, r[i]) && IndexOf(front, r[i]).value < |front|
      ensures i == |d| ==> IndexOf(s, r[i]) == Some(|front|)
    {
      IndexOfSnoc(front, x, r[i]);
      if i < |d| {
        assert r[i] == d[i] && d[i] in d;
      } else {
        assert r[i] == x && x !in front;
      }
    }
  }

  /** `s[mask]` for the mask `p`: the elements satisfying `p`, in their original order,
      each as often as in `s`. */
  function Where<T(==, !new)>(s: seq<T>, p: T -> bool): (r: seq<T>)
    ensures forall x :: x in r <==> x in s && p(x)
    ensures forall x :: p(x) ==> multiset(r)[x] == multiset(s)[x]
    ensures Subsequence(r, s)
  {
    if s == [] then []
    else
      var front, x := s[..|s| - 1], s[|s| - 1];
      var w := Where(front, p);
      assert s == front + [x];
      WhereStep(front, x, p, w);
      if p(x) then w + [x] else w
  }

  lemma WhereStep<T(!new)>(front: seq<T>, x: T, p: T -> bool, w: seq<T>)
    requires forall y :: y in w <==> y in front && p(y)
    requires forall y :: p(y) ==> multiset(w)[y] == multiset(front)[y]
    requires Subsequence(w, front)
    ensures var r, s := (if p(x) then w + [x] else w), front + [x];
      && (forall y :: y in r <==> y in s && p(y))
      && (forall y :: p(y) ==> multiset(r)[y] == multiset(s)[y])
      && Subsequence(r, s)
  {
    SubsequenceSnoc(w, front, x, p(x));
    var s := front + [x];
    assert multiset(s) == multiset(front) + multiset{x};
    if p(x) {
      assert multiset(w + [x]) == multiset(w) + multiset{x};
    }
  }

  /** Filtering by `p` then by `q` is filtering once by their conjunction `pq`. */
  lemma {:induction false} WhereWhere<T(!new)>(s: seq<T>, p: T -> bool, q: T -> bool, pq: T -> bool)
    requires forall x :: pq(x) == (p(x) && q(x))
    ensures Where(Where(s, p), q) == Where(s, pq)
  {
    if s != [] {
      var front, x := s[..|s| - 1], s[|s| - 1];
      WhereWhere(front, p, q, pq);
      var w := Where(front, p);
      var w' := w + if p(x) then [x] else [];
      if p(x) {
        assert w'[..|w'| - 1] == w;
      } else {
        assert w' == w;
      }
    }
  }

  /** Filters by pointwise-equal predicates agree. */
  lemma {:induction false} WhereSame<T(!new)>(s: seq<T>, p: T -> bool, q: T -> bool)
    requires forall x :: p(x) == q(x)
    ensures Where(s, p) == Where(s, q)
  {
    if s != [] {
      WhereSame(s[..|s| - 1], p, q);
    }
  }

  /** A filter that admits everything is the identity. */
  lemma {:induction false} WhereAll<T(!new)>(s: seq<T>, p: T -> bool)
    requires forall x :: p(x)
    ensures Where(s, p) == s
  {
    if s != [] {
      WhereAll(s[..|s| - 1], p);
      assert s == s[..|s| - 1] + [s[|s| - 1]];
    }
  }

  /** A filter and the filter by its negation split a sequence's elements between them. */
  lemma WherePartition<T(!new)>(s: seq<T>, p: T -> bool, q: T -> bool)
    requires forall x :: q(x) == !p(x)
    ensures multiset(Where(s, p)) + multiset(Where(s, q)) == multiset(s)
  {
    forall x
      ensures (multiset(Where(s, p)) + multiset(Where(s, q)))[x] == multiset(s)[x]
    {
      if p(x) {
        assert x !in Where(s, q);
      } else {
        assert x !in Where(s, p);
      }
    }
  }

  /** The number of elements satisfying `p` (pandas' `.sum()` of a boolean column). */
  function Count<T>(s: seq<T>, p: T -> bool): (n: nat)
    ensures n <= |s|
  {
    if s == [] then 0 else Count(s[..|s| - 1], p) + (if p(s[|s| - 1]) then 1 else 0)
  }

  /** Counting the elements satisfying `p` is the length of the filter by `p`. */
  lemma {:induction false} CountIsWhereLength<T(!new)>(s: seq<T>, p: T -> bool)
    ensures Count(s, p) == |Where(s, p)|
  {
    if s != [] {
      CountIsWhereLength(s[..|s| - 1], p);
    }
  }

  /** `part / whole` for counts, a share of the whole. */
  function Fraction(part: nat, whole: nat): (r: real)
    requires part <= whole && whole > 0
    ensures 0.0 <= r <= 1.0
    ensures r == 0.0 <==> part == 0
    ensures r == 1.0 <==> part == whole
    ensures r * whole as real == part as real
  {
    part as real / whole as real
  }

  /** Every element satisfies exactly one of `p` and its negation `q`. */
  lemma {:induction false} CountComplement<T>(s: seq<T>, p: T -> bool, q: T -> bool)
    requires forall x :: q(x) == !p(x)
    ensures Count(s, p) + Count(s, q) == |s|
  {
    if s != [] {
      CountComplement(s[..|s| - 1], p, q);
    }
  }

  /** Position of the first occurrence of `x` (`list.index`); None where Python raises ValueError. */
  function IndexOf<T(==)>(s: seq<T>, x: T): (r: Option<nat>)
    ensures r.None? <==> x !in s
    ensures r.Some? ==> r.value < |s| && s[r.value] == x && x !in s[..r.value]
  {
    if s == [] then None
    else if s[0] == x then Some(0)
    else
      match IndexOf(s[1..], x)
      case None => None
      case Some(i) =>
        assert s[..i + 1] == [s[0]] + s[1..][..i];
        Some(i + 1)
  }

  /** Sorted (ascending) by `key`. */
  ghost predicate SortedBy<T>(s: seq<T>, key: T -> real)
  {
    forall i, j :: 0 <= i < j < |s| ==> key(s[i]) <= key(s[j])
  }

  function InsertBy<T(==, !new)>(x: T, s: seq<T>, key: T -> real): (r: seq<T>)
    requires SortedBy(s, key)
    ensures SortedBy(r, key)
    ensures multiset(r) == multiset(s) + multiset{x}
    ensures |r| == |s| + 1 && (r[0] == x || (s != [] && r[0] == s[0]))
  {
    if s == [] || key(x) <= key(s[0]) then
      SortedCons(x, s, key);
      [x] + s
    else
      var rest := InsertBy(x, s[1..], key);
      assert s == [s[0]] + s[1..];
      assert multiset(s) == multiset{s[0]} + multiset(s[1..]);
      assert key(s[0]) <= key(rest[0]);
      SortedCons(s[0], rest, key);
      var r := [s[0]] + rest;
      assert r[0] == s[0] && multiset(r) == multiset{s[0]} + multiset(rest);
      r
  }

  /** Putting an element no greater than the head in front of a sorted sequence keeps it sorted. */
  lemma SortedCons<T>(y: T, t: seq<T>, key: T -> real)
    requires SortedBy(t, key) && (t == [] || key(y) <= key(t[0]))
    ensures SortedBy([y] + t, key)
  {
    var r := [y] + t;
    forall i, j | 0 <= i < j < |r|
      ensures key(r[i]) <= key(r[j])
    {
      if i == 0 && j > 1 {
        assert key(t[0]) <= key(t[j - 1]);
      }
    }
  }

  /** `sort_values(key)`: a permutation of `s` in ascending key order.  The tie order is
      not part of the contract (pandas' default quicksort is not stable). */
  function SortBy<T(==, !new)>(s: seq<T>, key: T -> real): (r: seq<T>)
    ensures SortedBy(r, key)
    ensures multiset(r) == multiset(s)
  {
    if s == [] then []
    else
      assert s == [s[0]] + s[1..];
      InsertBy(s[0], SortBy(s[1..], key), key)
  }

  /** Cutting a sorted permutation `t` of `s` at `k`: the front ranks at or before every element left out. */
  lemma {:induction false} SortedCut<T(!new)>(s: seq<T>, t: seq<T>, key: T -> real, k: nat)
    requires SortedBy(t, key) && multiset(t) == multiset(s) && k <= |t|
    ensures SortedBy(t[..k], key)
    ensures multiset(t[..k]) <= multiset(s)
    ensures forall x, y :: x in multiset(s) - multiset(t[..k]) && y in t[..k] ==> key(y) <= key(x)
  {
    CutMultiset(s, t, k);
    forall x, y | x in multiset(s) - multiset(t[..k]) && y in t[..k]
      ensures key(y) <= key(x)
    {
      assert x in t[k..];
      var i :| 0 <= i < |t[k..]| && t[k..][i] == x;
      var j :| 0 <= j < k && t[..k][j] == y;
      assert t[j] == y && t[k + i] == x;
    }
  }

  lemma CutMultiset<T>(s: seq<T>, t: seq<T>, k: nat)
    requires multiset(t) == multiset(s) && k <= |t|
    ensures multiset(t[..k]) <= multiset(s)
    ensures multiset(s) - multiset(t[..k]) == multiset(t[k..])
  {
    assert t == t[..k] + t[k..];
    assert multiset(t) == multiset(t[..k]) + multiset(t[k..]);
  }

  /** `sort_values(key).head(n)`: the `n` rows of least key, in ascending order. */
  function Rank<T(==, !new)>(s: seq<T>, key: T -> real, n: nat): (r: seq<T>)
    ensures |r| == if n < |s| then n else |s|
    ensures SortedBy(r, key)
    ensures multiset(r) <= multiset(s)
    ensures forall x, y :: x in multiset(s) - multiset(r) && y in r ==> key(y) <= key(x)
  {
    var t := SortBy(s, key);
    var k := if n < |t| then n else |t|;
    SortedCut(s, t, key, k);
    t[..k]
  }

  /** Sum of a sequence of rationals. */
  function Sum(xs: seq<real>): real
  {
    if xs == [] then 0.0 else Sum(xs[..|xs| - 1]) + xs[|xs| - 1]
  }

  lemma {:induction false} SumAppend(xs: seq<real>, ys: seq<real>)
    ensures Sum(xs + ys) == Sum(xs) + Sum(ys)
    decreases |ys|
  {
    if ys == [] {
      assert xs + ys == xs;
    } else {
      var zs := xs + ys;
      assert zs[..|zs| - 1] == xs + ys[..|ys| - 1];
      SumAppend(xs, ys[..|ys| - 1]);
    }
  }

  /** Every element in [lo, hi] puts the sum in [|xs|·lo, |xs|·hi]. */
  lemma {:induction false} SumBounds(xs: seq<real>, lo: real, hi: real)
    requires forall i :: 0 <= i < |xs| ==> lo <= xs[i] <= hi
    ensures |xs| as real * lo <= Sum(xs) <= |xs| as real * hi
  {
    if xs != [] {
      SumBounds(xs[..|xs| - 1], lo, hi);
    }
  }

  /** `Series.mean()`; None is the dashboard's "N/A" for an empty column. */
  function Mean(xs: seq<real>): (r: Option<real>)
    ensures r.None? <==> xs == []
    ensures r.Some? ==> r.value * |xs| as real == Sum(xs)
  {
    if xs == [] then None else Some(Sum(xs) / |xs| as real)
  }

  /** The mean of values in [lo, hi] lies in [lo, hi]. */
  lemma MeanBounds(xs: seq<real>, lo: real, hi: real)
    requires xs != []
    requires forall i :: 0 <= i < |xs| ==> lo <= xs[i] <= hi
    ensures lo <= Mean(xs).value <= hi
  {
    SumBounds(xs, lo, hi);
    QuotientBounds(Sum(xs), |xs| as real, lo, hi);
  }

  lemma QuotientBounds(s: real, n: real, lo: real, hi: real)
    requires n > 0.0 && n * lo <= s <= n * hi
    ensures lo <= s / n <= hi
  {
    assert s / n - lo == (s - n * lo) / n;
    assert hi - s / n == (n * hi - s) / n;
  }
}
