/** Option and Result, the shapes used for JavaScript's `undefined`/`null` and for thrown errors. */
module Common {

  datatype Option<+T> = None | Some(value: T)

  datatype Result<+T, +E> = Ok(value: T) | Err(error: E)

  function Min(a: int, b: int): int { if a <= b then a else b }

  function Max(a: int, b: int): int { if a <= b then b else a }

  /** JavaScript truthiness of an optional string: present and not empty. */
  predicate Truthy(s: Option<string>)
  {
    s.Some? && s.value != ""
  }

  /** No element occurs twice. */
  predicate Distinct<T(==)>(s: seq<T>)
  {
    forall i, j | 0 <= i < j < |s| :: s[i] != s[j]
  }

  /** A sequence without repeats has as many elements as the set of its elements. */
  lemma {:induction false} DistinctCard<T>(s: seq<T>)
    requires Distinct(s)
    ensures |set x | x in s| == |s|
    decreases |s|
  {
    if s != [] {
      var n := |s| - 1;
      var pre := s[..n];
      assert Distinct(pre) by {
        forall i, j | 0 <= i < j < n ensures pre[i] != pre[j] {
          assert s[i] != s[j];
        }
      }
      DistinctCard(pre);
      assert s == pre + [s[n]];
      assert (set x | x in s) == (set x | x in pre) + {s[n]};
      assert s[n] !in (set x | x in pre) by {
        forall i | 0 <= i < n ensures pre[i] != s[n] {
          assert s[i] != s[n];
        }
      }
    }
  }

  /**
   * `xs.map(f)` where `f` may throw: every result in order, or the first error
   * (the error of the earliest element that fails).
   */
  function MapAll<T, U, E>(s: seq<T>, f: T -> Result<U, E>): (r: Result<seq<U>, E>)
    ensures r.Ok? ==> |r.value| == |s| && forall i | 0 <= i < |s| :: f(s[i]) == Ok(r.value[i])
    ensures r.Err? <==> exists i | 0 <= i < |s| :: f(s[i]).Err?
  {
    if s == [] then Ok([])
    else
      var n := |s| - 1;
      assert forall k | 0 <= k < n :: s[..n][k] == s[k];
      match MapAll(s[..n], f)
      case Err(e) => Err(e)
      case Ok(us) =>
        (match f(s[n])
         case Err(e) => Err(e)
         case Ok(u) => Ok(us + [u]))
  }

  /** One more element: its result is appended, unless something has failed. */
  lemma MapAllSnoc<T, U, E>(s: seq<T>, x: T, f: T -> Result<U, E>)
    ensures MapAll(s + [x], f) ==
      match MapAll(s, f)
      case Err(e) => Err(e)
      case Ok(us) => (match f(x) case Err(e) => Err(e) case Ok(u) => Ok(us + [u]))
  {
    assert (s + [x])[..|s|] == s;
  }

  /** Once a prefix has failed, the whole fails with the same error. */
  lemma {:induction false} MapAllErrExtends<T, U, E>(a: seq<T>, b: seq<T>, f: T -> Result<U, E>)
    requires MapAll(a, f).Err?
    ensures MapAll(a + b, f) == MapAll(a, f)
    decreases |b|
  {
    if b == [] {
      assert a + b == a;
    } else {
      var n := |b| - 1;
      MapAllErrExtends(a, b[..n], f);
      assert a + b == (a + b[..n]) + [b[n]];
      MapAllSnoc(a + b[..n], b[n], f);
    }
  }

  /** The results of two parts put together: both parts' values, or the first failure. */
  function Both<U, E>(r1: Result<seq<U>, E>, r2: Result<seq<U>, E>): Result<seq<U>, E>
  {
    match r1
    case Err(e) => Err(e)
    case Ok(us) => (match r2 case Err(e) => Err(e) case Ok(vs) => Ok(us + vs))
  }

  /** One more result after a part: the value is appended, unless something has failed. */
  function Then<U, E>(r: Result<seq<U>, E>, y: Result<U, E>): Result<seq<U>, E>
  {
    match r
    case Err(e) => Err(e)
    case Ok(us) => (match y case Err(e) => Err(e) case Ok(u) => Ok(us + [u]))
  }

  lemma ThenBoth<U, E>(r1: Result<seq<U>, E>, r2: Result<seq<U>, E>, y: Result<U, E>)
    ensures Then(Both(r1, r2), y) == Both(r1, Then(r2, y))
  {
    if r1.Ok? && r2.Ok? && y.Ok? {
      assert r1.value + (r2.value + [y.value]) == (r1.value + r2.value) + [y.value];
    }
  }

  /** Mapping a concatenation: both parts succeed, or the first failure. */
  lemma {:induction false} MapAllAppend<T, U, E>(a: seq<T>, b: seq<T>, f: T -> Result<U, E>)
    ensures MapAll(a + b, f) == Both(MapAll(a, f), MapAll(b, f))
    decreases |b|
  {
    if b == [] {
      assert a + b == a;
      if MapAll(a, f).Ok? {
        assert MapAll(a, f).value + [] == MapAll(a, f).value;
      }
    } else {
      var n := |b| - 1;
      var c, x := b[..n], b[n];
      MapAllAppend(a, c, f);
      assert a + b == (a + c) + [x];
      MapAllSnoc(a + c, x, f);
      assert b == c + [x];
      MapAllSnoc(c, x, f);
      ThenBoth(MapAll(a, f), MapAll(c, f), f(x));
    }
  }
}
