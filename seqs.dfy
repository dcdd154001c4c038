/** List operations the source performs with Python list idioms: keeping the
    elements that pass a test (a `for ... if ...: append` loop), concatenating
    per-element lists, and `list.remove(x)`. */
module Seqs {

  /** The elements of `s` that pass `keep`, in their original order. */
  function Filter<T>(s: seq<T>, keep: T -> bool): (r: seq<T>)
    ensures |r| <= |s|
    ensures forall x :: x in r ==> x in s && keep(x)
  {
    if s == [] then []
    else (if keep(s[0]) then [s[0]] else []) + Filter(s[1..], keep)
  }

  /** The lists `f(x)` of the elements `x` of `s`, concatenated in order. */
  function FlatMap<T, U>(s: seq<T>, f: T -> seq<U>): seq<U>
  {
    if s == [] then [] else f(s[0]) + FlatMap(s[1..], f)
  }

  /** Python's `list.remove(x)`: drops the first element equal to `x`
      (the source only calls it on an element that is present). */
  function RemoveFirst<T(==)>(s: seq<T>, x: T): (r: seq<T>)
    requires x in s
    ensures |r| == |s| - 1
    ensures DropsFirst(s, x, r)
  {
    assert s == [s[0]] + s[1..];
    if s[0] == x then
      assert s[..0] == [] && s[0 + 1..] == s[1..];
      s[1..]
    else
      var rest := RemoveFirst(s[1..], x);
      FirstOccurrenceCons(s, x, rest);
      [s[0]] + rest
  }

  /** `r` is `s` without its first occurrence of `x`. */
  ghost predicate DropsFirst<T>(s: seq<T>, x: T, r: seq<T>)
  {
    exists k :: 0 <= k < |s| && s[k] == x && x !in s[..k] && r == s[..k] + s[k + 1..]
  }

  /** Dropping the first `x` from the tail of a list whose head is not `x`
      drops the first `x` from the whole list. */
  lemma FirstOccurrenceCons<T>(s: seq<T>, x: T, rest: seq<T>)
    requires |s| > 0 && s[0] != x && DropsFirst(s[1..], x, rest)
    ensures DropsFirst(s, x, [s[0]] + rest)
  {
    var j :| 0 <= j < |s[1..]| && s[1..][j] == x && x !in s[1..][..j] && rest == s[1..][..j] + s[1..][j + 1..];
    var k := j + 1;
    assert s[..k] == [s[0]] + s[1..][..j];
    assert s[k + 1..] == s[1..][j + 1..];
    assert 0 <= k < |s| && s[k] == x && x !in s[..k] && [s[0]] + rest == s[..k] + s[k + 1..];
  }

  /** The test "not one of the elements of `r`". */
  function NotIn<T(==)>(r: seq<T>): T -> bool
  {
    x => x !in r
  }

  /** The negation of a test. */
  function Not<T>(p: T -> bool): T -> bool
  {
    x => !p(x)
  }

  /** No element of `s` occurs twice. */
  ghost predicate Distinct<T>(s: seq<T>)
  {
    forall j, k :: 0 <= j < k < |s| ==> s[j] != s[k]
  }

  /** No two elements of `s` have the same `key`. */
  ghost predicate KeysDistinct<T, K>(s: seq<T>, key: T -> K)
  {
    forall j, k :: 0 <= j < k < |s| ==> key(s[j]) != key(s[k])
  }

  lemma KeysDistinctIsDistinct<T, K>(s: seq<T>, key: T -> K)
    requires KeysDistinct(s, key)
    ensures Distinct(s)
  {
  }

  lemma {:induction false} FilterMembership<T>(s: seq<T>, keep: T -> bool, x: T)
    ensures x in Filter(s, keep) <==> x in s && keep(x)
  {
    if s != [] {
      FilterMembership(s[1..], keep, x);
      assert x in s <==> x == s[0] || x in s[1..];
    }
  }

  /** Every element either passes a test or fails it: the two filtered
      lists together are as long as the list. */
  lemma {:induction false} FilterSplitLength<T>(s: seq<T>, keep: T -> bool)
    ensures |Filter(s, keep)| + |Filter(s, Not(keep))| == |s|
  {
    if s != [] {
      FilterSplitLength(s[1..], keep);
    }
  }

  lemma {:induction false} FilterConcat<T>(a: seq<T>, b: seq<T>, keep: T -> bool)
    ensures Filter(a + b, keep) == Filter(a, keep) + Filter(b, keep)
  {
    if a == [] {
      assert a + b == b;
    } else {
      assert (a + b)[1..] == a[1..] + b;
      FilterConcat(a[1..], b, keep);
    }
  }

  /** Appending one element to the input appends it to the output when it passes. */
  lemma FilterSnoc<T>(s: seq<T>, x: T, keep: T -> bool)
    ensures Filter(s + [x], keep) == Filter(s, keep) + (if keep(x) then [x] else [])
  {
    FilterConcat(s, [x], keep);
    assert Filter([x], keep) == (if keep(x) then [x] else []) + Filter([], keep);
  }

  /** A test every element passes keeps the whole list. */
  lemma {:induction false} FilterAll<T>(s: seq<T>, keep: T -> bool)
    requires forall x :: x in s ==> keep(x)
    ensures Filter(s, keep) == s
  {
    if s != [] {
      FilterAll(s[1..], keep);
      assert s == [s[0]] + s[1..];
    }
  }

  /** Two tests that agree on the elements of `s` keep the same elements. */
  lemma {:induction false} FilterCongruence<T>(s: seq<T>, p: T -> bool, q: T -> bool)
    requires forall x :: x in s ==> p(x) == q(x)
    ensures Filter(s, p) == Filter(s, q)
  {
    if s != [] {
      FilterCongruence(s[1..], p, q);
    }
  }

  /** Dropping the elements that were kept by `p` is keeping those that fail `p`. */
  lemma FilterOutFiltered<T>(s: seq<T>, p: T -> bool)
    ensures Filter(s, NotIn(Filter(s, p))) == Filter(s, Not(p))
  {
    forall x | x in s ensures NotIn(Filter(s, p))(x) == Not(p)(x) {
      FilterMembership(s, p, x);
    }
    FilterCongruence(s, NotIn(Filter(s, p)), Not(p));
  }

  /** Keeping a sub-list never makes two keys collide. */
  lemma {:induction false} FilterKeysDistinct<T, K>(s: seq<T>, keep: T -> bool, key: T -> K)
    requires KeysDistinct(s, key)
    ensures KeysDistinct(Filter(s, keep), key)
  {
    if s != [] {
      var tail := Filter(s[1..], keep);
      assert KeysDistinct(s[1..], key) by {
        forall j, k | 0 <= j < k < |s[1..]| ensures key(s[1..][j]) != key(s[1..][k]) {
          assert s[1..][j] == s[j + 1] && s[1..][k] == s[k + 1];
        }
      }
      FilterKeysDistinct(s[1..], keep, key);
      if keep(s[0]) {
        forall y | y in tail ensures key(s[0]) != key(y) {
          var k :| 0 <= k < |s[1..]| && s[1..][k] == y;
          assert s[k + 1] == y;
        }
        KeysDistinctConcat([s[0]], tail, key);
      }
    }
  }

  lemma FilterDistinct<T>(s: seq<T>, keep: T -> bool)
    requires Distinct(s)
    ensures Distinct(Filter(s, keep))
  {
    var id := (x: T) => x;
    assert KeysDistinct(s, id);
    FilterKeysDistinct(s, keep, id);
    var r := Filter(s, keep);
    assert forall j, k :: 0 <= j < k < |r| ==> id(r[j]) != id(r[k]);
  }

  lemma KeysDistinctConcat<T, K>(a: seq<T>, b: seq<T>, key: T -> K)
    requires KeysDistinct(a, key) && KeysDistinct(b, key)
    requires forall x, y :: x in a && y in b ==> key(x) != key(y)
    ensures KeysDistinct(a + b, key)
  {
    forall j, k | 0 <= j < k < |a + b| ensures key((a + b)[j]) != key((a + b)[k]) {
      if k < |a| {
        assert (a + b)[j] == a[j] && (a + b)[k] == a[k];
      } else if j < |a| {
        assert (a + b)[j] == a[j] && (a + b)[k] == b[k - |a|];
        assert a[j] in a && b[k - |a|] in b;
      } else {
        assert (a + b)[j] == b[j - |a|] && (a + b)[k] == b[k - |a|];
      }
    }
  }

  lemma {:induction false} FlatMapConcat<T, U>(a: seq<T>, b: seq<T>, f: T -> seq<U>)
    ensures FlatMap(a + b, f) == FlatMap(a, f) + FlatMap(b, f)
  {
    if a == [] {
      assert a + b == b;
    } else {
      assert (a + b)[1..] == a[1..] + b;
      FlatMapConcat(a[1..], b, f);
    }
  }

  /** Appending one element to the input appends its list to the output. */
  lemma FlatMapSnoc<T, U>(s: seq<T>, x: T, f: T -> seq<U>)
    ensures FlatMap(s + [x], f) == FlatMap(s, f) + f(x)
  {
    FlatMapConcat(s, [x], f);
    assert FlatMap([x], f) == f(x) + FlatMap([], f);
  }

  /** Lists of at most `b` elements each concatenate to at most `b` per element. */
  lemma {:induction false} FlatMapLengthBound<T, U>(s: seq<T>, f: T -> seq<U>, b: nat)
    requires forall x :: x in s ==> |f(x)| <= b
    ensures |FlatMap(s, f)| <= b * |s|
  {
    if s != [] {
      FlatMapLengthBound(s[1..], f, b);
      assert b * |s| == b + b * |s[1..]|;
    }
  }

  lemma {:induction false} FlatMapMembership<T, U>(s: seq<T>, f: T -> seq<U>, y: U)
    ensures y in FlatMap(s, f) <==> exists x :: x in s && y in f(x)
  {
    if s != [] {
      FlatMapMembership(s[1..], f, y);
      assert forall x :: x in s <==> x == s[0] || x in s[1..];
    }
  }

  /** Removing, one at a time, the elements of a list without repetitions:
      after `list.remove(x)` the list is the original one without `r + [x]`. */
  lemma {:induction false} RemoveFirstFromFiltered<T>(s: seq<T>, r: seq<T>, x: T)
    requires Distinct(s) && x in s && x !in r
    ensures x in Filter(s, NotIn(r))
    ensures RemoveFirst(Filter(s, NotIn(r)), x) == Filter(s, NotIn(r + [x]))
  {
    FilterMembership(s, NotIn(r), x);
    var h, t := s[0], s[1..];
    assert Distinct(t) by {
      forall j, k | 0 <= j < k < |t| ensures t[j] != t[k] {
        assert t[j] == s[j + 1] && t[k] == s[k + 1];
      }
    }
    var before := Filter(t, NotIn(r));
    var after := Filter(t, NotIn(r + [x]));
    assert Filter(s, NotIn(r)) == (if h !in r then [h] else []) + before;
    assert Filter(s, NotIn(r + [x])) == (if h !in r + [x] then [h] else []) + after;
    if h == x {
      assert x !in t by {
        forall k | 0 <= k < |t| ensures t[k] != x { assert t[k] == s[k + 1]; }
      }
      FilterCongruence(t, NotIn(r), NotIn(r + [x]));
      assert ([x] + before)[1..] == before;
      assert RemoveFirst([x] + before, x) == before;
    } else {
      assert x in t;
      RemoveFirstFromFiltered(t, r, x);
      if h in r {
        assert h in r + [x];
        assert Filter(s, NotIn(r)) == before && Filter(s, NotIn(r + [x])) == after;
      } else {
        assert ([h] + before)[1..] == before;
        assert RemoveFirst([h] + before, x) == [h] + RemoveFirst(before, x);
      }
    }
  }
}
