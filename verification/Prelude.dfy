/** Shared vocabulary: failure values, and the ascending iteration order that the
    program gets from its ordered sets and maps. */
module Prelude {

  datatype Option<+T> = None | Some(value: T)

  datatype Result<+T, +E> = Success(value: T) | Failure(error: E) {
    predicate IsFailure() {
      Failure?
    }
    function PropagateFailure<U>(): Result<U, E>
      requires Failure?
    {
      Failure(error)
    }
    function Extract(): T
      requires Success?
    {
      value
    }
  }

  ghost predicate StrictlyIncreasing(s: seq<nat>) {
    forall i, j :: 0 <= i < j < |s| ==> s[i] < s[j]
  }

  predicate Distinct<T(==)>(s: seq<T>) {
    forall i, j :: 0 <= i < j < |s| ==> s[i] != s[j]
  }

  /** `r` lists the elements of `s` in ascending order. */
  ghost predicate Enumerates(r: seq<nat>, s: set<nat>) {
    StrictlyIncreasing(r) && forall x :: x in r <==> x in s
  }

  /** An ascending enumeration is determined by its elements. */
  lemma {:induction false} SameElementsSameOrder(a: seq<nat>, b: seq<nat>)
    requires StrictlyIncreasing(a) && StrictlyIncreasing(b)
    requires forall x :: x in a <==> x in b
    ensures a == b
  {
    assert a != [] ==> a[0] in b;
    assert b != [] ==> b[0] in a;
    if a != [] {
      var la, lb := a[|a| - 1], b[|b| - 1];
      assert la in b && lb in a;
      InitElements(a);
      InitElements(b);
      assert la == lb;
      var a', b' := a[..|a| - 1], b[..|b| - 1];
      forall x
        ensures x in a' <==> x in b'
      {
        assert x in a' <==> x in a && x != la;
        assert x in b' <==> x in b && x != la;
      }
      SameElementsSameOrder(a', b');
      assert a == a' + [la] && b == b' + [lb];
    }
  }

  lemma InitElements(a: seq<nat>)
    requires StrictlyIncreasing(a) && a != []
    ensures forall x :: x in a[..|a| - 1] <==> x in a && x != a[|a| - 1]
    ensures forall x :: x in a ==> x <= a[|a| - 1]
  {
    assert a == a[..|a| - 1] + [a[|a| - 1]];
  }

  lemma {:induction false} MaximumExists(s: set<nat>) returns (m: nat)
    requires s != {}
    ensures m in s && forall y :: y in s ==> y <= m
  {
    var x :| x in s;
    var rest := s - {x};
    m := x;
    if rest != {} {
      var other := MaximumExists(rest);
      m := if x < other then other else x;
    }
    assert forall y :: y in s ==> y == x || y in rest;
  }

  lemma {:induction false} EnumerationExists(s: set<nat>) returns (r: seq<nat>)
    ensures Enumerates(r, s)
  {
    if s == {} {
      r := [];
    } else {
      var m := MaximumExists(s);
      var rest := EnumerationExists(s - {m});
      r := rest + [m];
      assert forall i :: 0 <= i < |rest| ==> rest[i] in s - {m};
    }
  }

  lemma EnumerationUnique(s: set<nat>)
    ensures exists r :: Enumerates(r, s)
    ensures forall a, b :: Enumerates(a, s) && Enumerates(b, s) ==> a == b
  {
    var r := EnumerationExists(s);
    forall a, b | Enumerates(a, s) && Enumerates(b, s)
      ensures a == b
    {
      SameElementsSameOrder(a, b);
    }
  }

  lemma EnumerationLength(r: seq<nat>, s: set<nat>)
    requires Enumerates(r, s)
    ensures |r| == |s|
  {
    DistinctLength(r);
    assert Elements(r) == s;
  }

  /** The elements of a set in ascending order: what iterating a `BTreeSet`, the keys
      of a `BTreeMap`, or a sorted and deduplicated vector yields. */
  ghost function Ascending(s: set<nat>): (r: seq<nat>)
    ensures Enumerates(r, s) && |r| == |s|
  {
    EnumerationUnique(s);
    var r :| Enumerates(r, s);
    EnumerationLength(r, s);
    r
  }

  lemma AscendingUnique(r: seq<nat>, s: set<nat>)
    requires Enumerates(r, s)
    ensures r == Ascending(s)
  {
    EnumerationUnique(s);
  }

  function Maximum(s: set<nat>): (m: nat)
    requires s != {}
    ensures m in s && forall y :: y in s ==> y <= m
  {
    assert exists m :: m in s && forall y :: y in s ==> y <= m by {
      var m := MaximumExists(s);
    }
    var m :| m in s && forall y :: y in s ==> y <= m;
    m
  }

  /** Iterating an ordered set. */
  method AscendingOf(s: set<nat>) returns (r: seq<nat>)
    ensures r == Ascending(s)
  {
    r := [];
    var rest := s;
    while rest != {}
      invariant rest <= s
      invariant StrictlyIncreasing(r)
      invariant forall x :: x in s <==> x in r || x in rest
      invariant forall x, y :: x in r && y in rest ==> y < x
      decreases rest
    {
      var m := Maximum(rest);
      assert forall i :: 0 <= i < |r| ==> r[i] in r && m < r[i];
      r := [m] + r;
      rest := rest - {m};
    }
    AscendingUnique(r, s);
  }

  function Upto(n: nat): (r: seq<nat>)
    ensures |r| == n && forall i :: 0 <= i < n ==> r[i] == i
  {
    seq(n, i => i)
  }

  ghost function Elements<T>(s: seq<T>): set<T> {
    set x | x in s
  }

  lemma ElementsAppend<T>(s: seq<T>, x: T)
    ensures Elements(s + [x]) == Elements(s) + {x}
  {
  }

  lemma UptoElements(n: nat)
    ensures forall x: nat :: x in Upto(n) <==> x < n
  {
    forall x: nat | x < n
      ensures x in Upto(n)
    {
      assert Upto(n)[x] == x;
    }
  }

  /** A duplicate-free sequence has as many elements as its set of elements. */
  lemma {:induction false} DistinctLength<T>(s: seq<T>)
    requires Distinct(s)
    ensures |Elements(s)| == |s|
  {
    if s != [] {
      var last, init := s[|s| - 1], s[..|s| - 1];
      DistinctLength(init);
      assert s == init + [last];
      ElementsAppend(init, last);
      assert last !in init;
    }
  }

  /** A set of naturals below `n` has at most `n` members, and `n` only if it is
      everything below `n`. */
  lemma {:induction false} BoundedSet(s: set<nat>, n: nat)
    requires forall x :: x in s ==> x < n
    ensures |s| <= n
    ensures |s| == n ==> forall x: nat :: x < n ==> x in s
  {
    if n == 0 {
      assert s == {};
    } else {
      var t := s - {n - 1};
      BoundedSet(t, n - 1);
      if n - 1 in s {
        assert |s| == |t| + 1;
      } else {
        assert s == t;
      }
    }
  }

  function MapSeq<A, B>(s: seq<A>, f: A -> B): (r: seq<B>)
    ensures |r| == |s| && forall i :: 0 <= i < |s| ==> r[i] == f(s[i])
  {
    seq(|s|, i requires 0 <= i < |s| => f(s[i]))
  }

  function Without<T>(s: seq<T>, k: nat): seq<T>
    requires k < |s|
  {
    s[..k] + s[k + 1..]
  }

  lemma WithoutMultiset<T>(s: seq<T>, k: nat)
    requires k < |s|
    ensures multiset(s) == multiset(Without(s, k)) + multiset{s[k]}
  {
    assert s == s[..k] + [s[k]] + s[k + 1..];
  }

  lemma WithoutMapped<A, B>(s: seq<A>, k: nat, f: A -> B)
    requires k < |s|
    ensures MapSeq(Without(s, k), f) == Without(MapSeq(s, f), k)
  {
  }

  lemma WithoutBoth<T>(s: seq<T>, t: seq<T>, k: nat)
    requires s != [] && k < |t| && s[0] == t[k] && multiset(s) == multiset(t)
    ensures multiset(Without(s, 0)) == multiset(Without(t, k))
  {
    WithoutMultiset(s, 0);
    WithoutMultiset(t, k);
    assert multiset(Without(s, 0)) == multiset(s) - multiset{s[0]} == multiset(t) - multiset{s[0]};
  }

  /** Mapping a function over two rearrangements of one collection gives two
      rearrangements of one collection. */
  lemma {:induction false} MapPermutation<A, B>(s: seq<A>, t: seq<A>, f: A -> B)
    requires multiset(s) == multiset(t)
    ensures multiset(MapSeq(s, f)) == multiset(MapSeq(t, f))
    decreases |s|
  {
    if s == [] {
      assert |multiset(t)| == 0;
      assert t == [];
    } else {
      assert s[0] in multiset(t);
      var k :| 0 <= k < |t| && t[k] == s[0];
      WithoutBoth(s, t, k);
      MapPermutation(Without(s, 0), Without(t, k), f);
      WithoutMapped(s, 0, f);
      WithoutMapped(t, k, f);
      WithoutMultiset(MapSeq(s, f), 0);
      WithoutMultiset(MapSeq(t, f), k);
    }
  }

  /** Two duplicate-free enumerations of the same elements are rearrangements of
      each other. */
  lemma {:induction false} DistinctPermutation<T>(s: seq<T>, t: seq<T>)
    requires Distinct(s) && Distinct(t)
    requires forall x :: x in s <==> x in t
    ensures multiset(s) == multiset(t)
  {
    DistinctMultiset(s);
    DistinctMultiset(t);
    forall x
      ensures multiset(s)[x] == multiset(t)[x]
    {
      assert x in s <==> x in t;
    }
  }

  lemma {:induction false} DistinctMultiset<T>(s: seq<T>)
    requires Distinct(s)
    ensures forall x :: multiset(s)[x] == if x in s then 1 else 0
  {
    if s != [] {
      var last, init := s[|s| - 1], s[..|s| - 1];
      assert s == init + [last];
      DistinctMultiset(init);
      assert last !in init;
      assert multiset(s) == multiset(init) + multiset{last};
      forall x
        ensures multiset(s)[x] == if x in s then 1 else 0
      {
        assert x in s <==> x in init || x == last;
      }
    }
  }
}
