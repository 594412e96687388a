/**
 * The two query operators the employee service composes, over finite sequences:
 * `Where` (keep the elements that satisfy a predicate, in order) and `OrderBy`
 * (reorder by a total preorder, keeping the original order among ties). LINQ to
 * Objects' OrderBy is a stable sort; the model sorts by insertion.
 */
module Linq {

  /** The elements of `s` that satisfy `p`, in their original order. */
  function Where<T(!new)>(s: seq<T>, p: T -> bool): (r: seq<T>)
    ensures |r| <= |s|
    ensures forall i :: 0 <= i < |r| ==> p(r[i]) && r[i] in s
  {
    if s == [] then []
    else
      assert s == [s[0]] + s[1..];
      (if p(s[0]) then [s[0]] else []) + Where(s[1..], p)
  }

  /** Where keeps every occurrence of an element that satisfies the predicate and drops every other. */
  lemma {:induction false} WhereCounts<T(!new)>(s: seq<T>, p: T -> bool, x: T)
    ensures multiset(Where(s, p))[x] == if p(x) then multiset(s)[x] else 0
  {
    if s != [] {
      WhereCounts(s[1..], p, x);
      assert s == [s[0]] + s[1..];
    }
  }

  /** Membership in the result of Where: exactly the elements of the input that satisfy the predicate. */
  lemma WhereMembers<T(!new)>(s: seq<T>, p: T -> bool, x: T)
    ensures x in Where(s, p) <==> x in s && p(x)
  {
    WhereCounts(s, p, x);
    assert x in Where(s, p) <==> x in multiset(Where(s, p));
  }

  /** `a` is `b` with some of its elements deleted (and nothing added or reordered). */
  predicate IsSubsequence<T(==)>(a: seq<T>, b: seq<T>)
    decreases |b|
  {
    if b == [] then a == []
    else (a != [] && a[0] == b[0] && IsSubsequence(a[1..], b[1..])) || IsSubsequence(a, b[1..])
  }

  lemma {:induction false} WhereIsSubsequence<T(!new)>(s: seq<T>, p: T -> bool)
    ensures IsSubsequence(Where(s, p), s)
  {
    if s != [] {
      WhereIsSubsequence(s[1..], p);
      var r := Where(s, p);
      if p(s[0]) {
        assert r == [s[0]] + Where(s[1..], p);
        assert r[1..] == Where(s[1..], p);
      } else {
        assert r == Where(s[1..], p);
      }
    }
  }

  /** A predicate that holds of every element leaves the sequence unchanged. */
  lemma {:induction false} WhereAll<T(!new)>(s: seq<T>, p: T -> bool)
    requires forall x :: x in s ==> p(x)
    ensures Where(s, p) == s
  {
    if s != [] {
      WhereAll(s[1..], p);
      assert s == [s[0]] + s[1..];
    }
  }

  /** Two filters applied one after the other are one filter by their conjunction. */
  lemma {:induction false} WhereWhere<T(!new)>(s: seq<T>, f: T -> bool, g: T -> bool, h: T -> bool)
    requires forall x :: h(x) == (f(x) && g(x))
    ensures Where(Where(s, f), g) == Where(s, h)
  {
    if s != [] {
      WhereWhere(s[1..], f, g, h);
      var once := Where(s, f);
      if f(s[0]) {
        assert once == [s[0]] + Where(s[1..], f);
        assert once[0] == s[0] && once[1..] == Where(s[1..], f);
        assert Where(once, g) == (if g(s[0]) then [s[0]] else []) + Where(Where(s[1..], f), g);
      } else {
        assert once == Where(s[1..], f);
      }
    }
  }

  /** `le` may be used as a sort order: any two elements compare, and comparison chains. */
  ghost predicate TotalPreorder<T(!new)>(le: (T, T) -> bool)
  {
    && (forall a, b :: le(a, b) || le(b, a))
    && (forall a, b, c :: le(a, b) && le(b, c) ==> le(a, c))
  }

  predicate Sorted<T>(s: seq<T>, le: (T, T) -> bool)
  {
    forall i, j :: 0 <= i < j < |s| ==> le(s[i], s[j])
  }

  /** Puts `x` in front of the first element of `t` it may precede, so that `x` comes before its ties. */
  function Insert<T>(x: T, t: seq<T>, le: (T, T) -> bool): (r: seq<T>)
    ensures multiset(r) == multiset(t) + multiset{x}
    ensures |r| == |t| + 1
  {
    if t == [] then [x]
    else if le(x, t[0]) then [x] + t
    else
      assert t == [t[0]] + t[1..];
      [t[0]] + Insert(x, t[1..], le)
  }

  /** A stable sort of `s` by `le`, as LINQ's OrderBy / OrderByDescending are; here by insertion. */
  function OrderBy<T>(s: seq<T>, le: (T, T) -> bool): (r: seq<T>)
    ensures |r| == |s|
    ensures multiset(r) == multiset(s)
  {
    if s == [] then []
    else
      assert s == [s[0]] + s[1..];
      Insert(s[0], OrderBy(s[1..], le), le)
  }

  lemma {:induction false} InsertSorted<T(!new)>(x: T, t: seq<T>, le: (T, T) -> bool)
    requires TotalPreorder(le)
    requires Sorted(t, le)
    ensures Sorted(Insert(x, t, le), le)
  {
    if t != [] && !le(x, t[0]) {
      var u := Insert(x, t[1..], le);
      InsertSorted(x, t[1..], le);
      var r := Insert(x, t, le);
      assert r == [t[0]] + u;
      forall j | 0 < j < |r|
        ensures le(t[0], r[j])
      {
        assert r[j] == u[j - 1];
        assert r[j] in multiset(u);
        if r[j] != x {
          assert r[j] in multiset(t[1..]);
          var k :| 0 <= k < |t[1..]| && t[1..][k] == r[j];
          assert t[k + 1] == r[j];
        }
      }
    }
  }

  /** The result of OrderBy is ordered by `le` and holds exactly the input's elements. */
  lemma {:induction false} OrderBySorted<T(!new)>(s: seq<T>, le: (T, T) -> bool)
    requires TotalPreorder(le)
    ensures Sorted(OrderBy(s, le), le)
    ensures multiset(OrderBy(s, le)) == multiset(s)
  {
    if s != [] {
      OrderBySorted(s[1..], le);
      InsertSorted(s[0], OrderBy(s[1..], le), le);
    }
  }

  /** `p` only ever selects elements that are tied with one another under `le`. */
  ghost predicate SelectsTies<T(!new)>(p: T -> bool, le: (T, T) -> bool)
  {
    forall a, b :: p(a) && p(b) ==> le(a, b)
  }

  /** Where on a sequence with a first element `x`: `x` if it passes, then Where on the rest. */
  lemma WhereCons<T(!new)>(x: T, t: seq<T>, p: T -> bool)
    ensures Where([x] + t, p) == (if p(x) then [x] else []) + Where(t, p)
  {
    var s := [x] + t;
    assert s[0] == x && s[1..] == t;
  }

  lemma {:induction false} WhereInsert<T(!new)>(x: T, t: seq<T>, le: (T, T) -> bool, p: T -> bool)
    requires SelectsTies(p, le)
    ensures Where(Insert(x, t, le), p) == (if p(x) then [x] else []) + Where(t, p)
  {
    if t == [] || le(x, t[0]) {
      WhereCons(x, t, p);
    } else {
      var u := Insert(x, t[1..], le);
      WhereInsert(x, t[1..], le, p);
      assert Insert(x, t, le) == [t[0]] + u;
      assert t == [t[0]] + t[1..];
      WhereBehind(t[0], x, u, t[1..], p);
    }
  }

  /**
   * Putting `y` in front of two sequences that Where maps to the same result, up to
   * an `x` at the head of the first, keeps them so, provided `x` and `y` do not both pass.
   */
  lemma {:induction false} WhereBehind<T(!new)>(y: T, x: T, u: seq<T>, v: seq<T>, p: T -> bool)
    requires !(p(x) && p(y))
    requires Where(u, p) == (if p(x) then [x] else []) + Where(v, p)
    ensures Where([y] + u, p) == (if p(x) then [x] else []) + Where([y] + v, p)
  {
    WhereCons(y, u, p);
    WhereCons(y, v, p);
    if p(x) {
      assert Where([y] + u, p) == Where(u, p);
      assert Where([y] + v, p) == Where(v, p);
    }
  }

  /** Stability: among elements that tie, OrderBy keeps the order they had in the input. */
  lemma {:induction false} OrderByStable<T(!new)>(s: seq<T>, le: (T, T) -> bool, p: T -> bool)
    requires SelectsTies(p, le)
    ensures Where(OrderBy(s, le), p) == Where(s, p)
  {
    if s != [] {
      OrderByStable(s[1..], le, p);
      WhereInsert(s[0], OrderBy(s[1..], le), le, p);
    }
  }
}
