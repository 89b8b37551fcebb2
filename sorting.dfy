/**
 * `Array.prototype.sort(compare)`, which ECMAScript requires to be stable, modelled
 * as a stable insertion sort over a "not after" relation `leq` (the comparator
 * returning a value <= 0), and the code-point order that stands in for
 * `localeCompare`.
 */
module Sorting {
  import opened Common

  ghost predicate TotalPreorder<T(!new)>(leq: (T, T) -> bool)
  {
    && (forall a, b :: leq(a, b) || leq(b, a))
    && (forall a, b, c :: leq(a, b) && leq(b, c) ==> leq(a, c))
  }

  ghost predicate SortedBy<T>(s: seq<T>, leq: (T, T) -> bool)
  {
    forall i, j | 0 <= i < j < |s| :: leq(s[i], s[j])
  }

  /** The elements of `s` that satisfy `p`, in their order. */
  function Filter<T>(s: seq<T>, p: T -> bool): (r: seq<T>)
    ensures |r| <= |s|
  {
    if s == [] then []
    else if p(s[0]) then [s[0]] + Filter(s[1..], p)
    else Filter(s[1..], p)
  }

  /** What the filter keeps: exactly the elements that pass. */
  lemma {:induction false} FilterMembers<T>(s: seq<T>, p: T -> bool)
    ensures forall y | y in Filter(s, p) :: y in s && p(y)
    ensures forall y | y in s && p(y) :: y in Filter(s, p)
    decreases |s|
  {
    if s != [] {
      FilterMembers(s[1..], p);
      assert s == [s[0]] + s[1..];
    }
  }

  /** Filtering a concatenation filters each part. */
  lemma {:induction false} FilterAppend<T>(a: seq<T>, b: seq<T>, p: T -> bool)
    ensures Filter(a + b, p) == Filter(a, p) + Filter(b, p)
    decreases |a|
  {
    if a == [] {
      assert a + b == b;
    } else {
      assert (a + b)[0] == a[0] && (a + b)[1..] == a[1..] + b;
      FilterAppend(a[1..], b, p);
    }
  }

  /** `s.filter(p).map(f)` fails exactly when `f` fails on some element that `p` keeps. */
  lemma FilterMapAllErr<T, U, E>(s: seq<T>, p: T -> bool, f: T -> Result<U, E>)
    ensures MapAll(Filter(s, p), f).Err? <==> exists i | 0 <= i < |s| :: p(s[i]) && f(s[i]).Err?
  {
    var kept := Filter(s, p);
    FilterMembers(s, p);
    if MapAll(kept, f).Err? {
      var j :| 0 <= j < |kept| && f(kept[j]).Err?;
      assert kept[j] in kept;
      var i :| 0 <= i < |s| && s[i] == kept[j];
    }
    if exists i | 0 <= i < |s| :: p(s[i]) && f(s[i]).Err? {
      var i :| 0 <= i < |s| && p(s[i]) && f(s[i]).Err?;
      assert s[i] in s;
      assert s[i] in kept;
      var j :| 0 <= j < |kept| && kept[j] == s[i];
    }
  }

  /** Filtering one more element of `s`. */
  lemma FilterSnoc<T>(s: seq<T>, i: nat, p: T -> bool)
    requires i < |s|
    ensures Filter(s[..i + 1], p) == Filter(s[..i], p) + (if p(s[i]) then [s[i]] else [])
  {
    assert s[..i + 1] == s[..i] + [s[i]];
    FilterAppend(s[..i], [s[i]], p);
    assert [s[i]][1..] == [];
  }

  /**
   * `s.forEach(x => { if (p(x)) acc.push(f(x)); })` where `f` may throw, element by
   * element: `acc` with the results pushed so far, or the error that stopped it.
   */
  function PushAll<T, U, E>(s: seq<T>, p: T -> bool, f: T -> Result<U, E>, acc: seq<U>): Result<seq<U>, E>
  {
    if s == [] then Ok(acc)
    else
      var n := |s| - 1;
      match PushAll(s[..n], p, f, acc)
      case Err(e) => Err(e)
      case Ok(pushed) =>
        if !p(s[n]) then Ok(pushed)
        else (match f(s[n]) case Err(e) => Err(e) case Ok(u) => Ok(pushed + [u]))
  }

  /** Once pushing a prefix has failed, pushing the whole fails with the same error. */
  lemma {:induction false} PushAllErrExtends<T, U, E>(s: seq<T>, k: nat, p: T -> bool, f: T -> Result<U, E>, acc: seq<U>)
    requires k <= |s| && PushAll(s[..k], p, f, acc).Err?
    ensures PushAll(s, p, f, acc) == PushAll(s[..k], p, f, acc)
    decreases |s| - k
  {
    if k < |s| {
      assert s[..k + 1][..k] == s[..k];
      PushAllErrExtends(s, k + 1, p, f, acc);
    } else {
      assert s[..k] == s;
    }
  }

  /** Pushing element by element is `filter` followed by `map`, appended to `acc`. */
  lemma {:induction false} PushAllIsFilterMap<T, U, E>(s: seq<T>, p: T -> bool, f: T -> Result<U, E>, acc: seq<U>)
    ensures PushAll(s, p, f, acc) ==
      match MapAll(Filter(s, p), f)
      case Err(e) => Err(e)
      case Ok(us) => Ok(acc + us)
    decreases |s|
  {
    if s != [] {
      var n := |s| - 1;
      PushAllIsFilterMap(s[..n], p, f, acc);
      assert s[..n + 1] == s;
      FilterSnoc(s, n, p);
      var front := Filter(s[..n], p);
      if p(s[n]) {
        MapAllSnoc(front, s[n], f);
        match MapAll(front, f)
        case Err(e) =>
        case Ok(us) =>
          match f(s[n])
          case Err(e) =>
          case Ok(u) => assert acc + (us + [u]) == (acc + us) + [u];
      } else {
        assert Filter(s, p) == front;
      }
    } else {
      assert acc + [] == acc;
    }
  }

  /**
   * `s.filter(p).forEach(x => acc.push(f(x)))` where `f` may throw: `acc` followed by
   * the results of the kept elements, or the first error.
   */
  method PushFiltered<T, U, E>(s: seq<T>, p: T -> bool, f: T -> Result<U, E>, acc: seq<U>) returns (r: Result<seq<U>, E>)
    ensures r.Err? <==> MapAll(Filter(s, p), f).Err?
    ensures r.Err? ==> r.error == MapAll(Filter(s, p), f).error
    ensures r.Ok? ==> r.value == acc + MapAll(Filter(s, p), f).value
  {
    PushAllIsFilterMap(s, p, f, acc);
    var pushed := acc;
    for i := 0 to |s|
      invariant PushAll(s[..i], p, f, acc) == Ok(pushed)
    {
      assert s[..i + 1][..i] == s[..i];
      if p(s[i]) {
        var y := f(s[i]);
        if y.Err? {
          PushAllErrExtends(s, i + 1, p, f, acc);
          return Err(y.error);
        }
        pushed := pushed + [y.value];
      }
    }
    assert s[..|s|] == s;
    r := Ok(pushed);
  }

  /** `s.map(f).filter(Boolean)`: the present results of `f`, in the order of `s`. */
  function FilterMap<T, U>(s: seq<T>, f: T -> Option<U>): seq<U>
  {
    if s == [] then []
    else
      var n := |s| - 1;
      var y := f(s[n]);
      FilterMap(s[..n], f) + (if y.Some? then [y.value] else [])
  }

  /** An element is kept exactly when some input maps to it. */
  lemma {:induction false} FilterMapExact<T, U>(s: seq<T>, f: T -> Option<U>, u: U)
    ensures u in FilterMap(s, f) <==> exists i | 0 <= i < |s| :: f(s[i]) == Some(u)
    decreases |s|
  {
    if s != [] {
      var n := |s| - 1;
      FilterMapExact(s[..n], f, u);
      if exists i | 0 <= i < |s| :: f(s[i]) == Some(u) {
        var i :| 0 <= i < |s| && f(s[i]) == Some(u);
        if i < n {
          assert s[..n][i] == s[i];
        }
      }
      if exists i | 0 <= i < n :: f(s[..n][i]) == Some(u) {
        var i :| 0 <= i < n && f(s[..n][i]) == Some(u);
        assert s[i] == s[..n][i];
      }
    }
  }

  /** Inserts `x` in front of the first element that `x` does not exceed. */
  function Insert<T>(x: T, s: seq<T>, leq: (T, T) -> bool): (r: seq<T>)
    ensures multiset(r) == multiset(s) + multiset{x}
  {
    if s == [] then [x]
    else if leq(x, s[0]) then [x] + s
    else
      assert s == [s[0]] + s[1..];
      [s[0]] + Insert(x, s[1..], leq)
  }

  /** The sorted permutation of `s` that keeps equivalent elements in their input order. */
  function SortBy<T>(s: seq<T>, leq: (T, T) -> bool): (r: seq<T>)
    ensures multiset(r) == multiset(s)
  {
    if s == [] then []
    else
      assert s == [s[0]] + s[1..];
      Insert(s[0], SortBy(s[1..], leq), leq)
  }

  lemma {:induction false} InsertSorted<T(!new)>(x: T, s: seq<T>, leq: (T, T) -> bool)
    requires TotalPreorder(leq) && SortedBy(s, leq)
    ensures SortedBy(Insert(x, s, leq), leq)
    decreases |s|
  {
    if s != [] && !leq(x, s[0]) {
      var t := Insert(x, s[1..], leq);
      InsertSorted(x, s[1..], leq);
      forall y | y in t
        ensures leq(s[0], y)
      {
        assert y in multiset(t);
        if y != x {
          assert y in multiset(s[1..]);
          assert y in s[1..];
        }
      }
      ConsSorted(s[0], t, leq);
    }
  }

  /** An element below everything in a sorted sequence can go in front of it. */
  lemma ConsSorted<T>(a: T, t: seq<T>, leq: (T, T) -> bool)
    requires SortedBy(t, leq) && forall y | y in t :: leq(a, y)
    ensures SortedBy([a] + t, leq)
  {
    var r := [a] + t;
    forall i, j | 0 <= i < j < |r|
      ensures leq(r[i], r[j])
    {
      if i == 0 {
        assert r[j] == t[j - 1];
        assert r[j] in t;
      } else {
        assert r[i] == t[i - 1] && r[j] == t[j - 1];
      }
    }
  }

  /** The result of SortBy is ordered by `leq`. */
  lemma {:induction false} SortBySorted<T(!new)>(s: seq<T>, leq: (T, T) -> bool)
    requires TotalPreorder(leq)
    ensures SortedBy(SortBy(s, leq), leq)
    decreases |s|
  {
    if s != [] {
      SortBySorted(s[1..], leq);
      InsertSorted(s[0], SortBy(s[1..], leq), leq);
    }
  }

  /** The elements that `leq` cannot tell apart from `x`. */
  function EquivalentTo<T>(leq: (T, T) -> bool, x: T): T -> bool
  {
    y => leq(x, y) && leq(y, x)
  }

  lemma {:induction false} InsertKeepsClassOrder<T(!new)>(z: T, t: seq<T>, leq: (T, T) -> bool, x: T)
    requires TotalPreorder(leq)
    ensures var e := EquivalentTo(leq, x);
      Filter(Insert(z, t, leq), e) == if e(z) then [z] + Filter(t, e) else Filter(t, e)
    decreases |t|
  {
    var e := EquivalentTo(leq, x);
    if t != [] && !leq(z, t[0]) {
      InsertKeepsClassOrder(z, t[1..], leq, x);
      assert Insert(z, t, leq) == [t[0]] + Insert(z, t[1..], leq);
      if e(z) {
        assert !e(t[0]);
      }
    }
  }

  /** Stability: within every class of equivalent elements, SortBy keeps the input order. */
  lemma {:induction false} SortByStable<T(!new)>(s: seq<T>, leq: (T, T) -> bool, x: T)
    requires TotalPreorder(leq)
    ensures Filter(SortBy(s, leq), EquivalentTo(leq, x)) == Filter(s, EquivalentTo(leq, x))
    decreases |s|
  {
    if s != [] {
      SortByStable(s[1..], leq, x);
      InsertKeepsClassOrder(s[0], SortBy(s[1..], leq), leq, x);
    }
  }

  /** Code-point lexicographic order on strings (the stand-in for `localeCompare`). */
  predicate StringLeq(a: string, b: string)
  {
    a == [] || (b != [] && (a[0] < b[0] || (a[0] == b[0] && StringLeq(a[1..], b[1..]))))
  }

  lemma {:induction false} StringLeqTotal(a: string, b: string)
    ensures StringLeq(a, b) || StringLeq(b, a)
    decreases |a|
  {
    if a != [] && b != [] && a[0] == b[0] {
      StringLeqTotal(a[1..], b[1..]);
    }
  }

  lemma {:induction false} StringLeqTransitive(a: string, b: string, c: string)
    requires StringLeq(a, b) && StringLeq(b, c)
    ensures StringLeq(a, c)
    decreases |a|
  {
    if a != [] && b != [] && c != [] && a[0] == b[0] == c[0] {
      StringLeqTransitive(a[1..], b[1..], c[1..]);
    }
  }

  lemma {:induction false} StringLeqAntisymmetric(a: string, b: string)
    requires StringLeq(a, b) && StringLeq(b, a)
    ensures a == b
    decreases |a|
  {
    if a != [] {
      StringLeqAntisymmetric(a[1..], b[1..]);
      assert a == [a[0]] + a[1..] && b == [b[0]] + b[1..];
    }
  }

  /** Code-point order is a total order, so sorting by it is well defined. */
  lemma StringOrderIsTotalPreorder()
    ensures TotalPreorder((a: string, b: string) => StringLeq(a, b))
  {
    forall a: string, b: string
      ensures StringLeq(a, b) || StringLeq(b, a)
    {
      StringLeqTotal(a, b);
    }
    forall a: string, b: string, c: string | StringLeq(a, b) && StringLeq(b, c)
      ensures StringLeq(a, c)
    {
      StringLeqTransitive(a, b, c);
    }
  }
}
