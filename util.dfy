/** Small helpers shared by the models of the three scraper scripts. */
module Util {

  datatype Option<T> = None | Some(value: T)

  function Abs(n: int): (r: nat)
    ensures r == n || r == -n
  {
    if n < 0 then -n else n
  }

  /** The elements of `s` that pass `p`, in their original order: the shape of a
      Python loop that appends to a fresh list every element passing a test. */
  function Filter<T(!new)>(s: seq<T>, p: T -> bool): (r: seq<T>)
    ensures |r| <= |s|
    ensures forall x :: x in r <==> x in s && p(x)
  {
    if s == [] then []
    else
      assert s == s[..|s| - 1] + [s[|s| - 1]];
      Filter(s[..|s| - 1], p) + (if p(s[|s| - 1]) then [s[|s| - 1]] else [])
  }

  /** Filtering commutes with concatenation, so the kept elements keep their order. */
  lemma {:induction false} FilterConcat<T(!new)>(a: seq<T>, b: seq<T>, p: T -> bool)
    ensures Filter(a + b, p) == Filter(a, p) + Filter(b, p)
    decreases |b|
  {
    if b == [] {
      assert a + b == a;
    } else {
      var last := b[|b| - 1];
      assert (a + b)[..|a + b| - 1] == a + b[..|b| - 1];
      FilterConcat(a, b[..|b| - 1], p);
    }
  }

  /** One step of a left-to-right filtering loop. */
  lemma FilterSnoc<T(!new)>(s: seq<T>, i: nat, p: T -> bool)
    requires i < |s|
    ensures Filter(s[..i + 1], p) == Filter(s[..i], p) + (if p(s[i]) then [s[i]] else [])
  {
    assert s[..i + 1][..i] == s[..i];
  }

  /** The concatenation of `f(x)` for every `x` of `s`, in order: the shape of a
      Python loop that appends zero or more items per element. */
  function FlatMap<A, B>(s: seq<A>, f: A -> seq<B>): seq<B>
  {
    if s == [] then [] else FlatMap(s[..|s| - 1], f) + f(s[|s| - 1])
  }

  lemma {:induction false} FlatMapConcat<A, B>(a: seq<A>, b: seq<A>, f: A -> seq<B>)
    ensures FlatMap(a + b, f) == FlatMap(a, f) + FlatMap(b, f)
    decreases |b|
  {
    if b == [] {
      assert a + b == a;
    } else {
      assert (a + b)[..|a + b| - 1] == a + b[..|b| - 1];
      FlatMapConcat(a, b[..|b| - 1], f);
    }
  }

  /** One step of a left-to-right loop that appends `f(s[i])`. */
  lemma FlatMapSnoc<A, B>(s: seq<A>, i: nat, f: A -> seq<B>)
    requires i < |s|
    ensures FlatMap(s[..i + 1], f) == FlatMap(s[..i], f) + f(s[i])
  {
    assert s[..i + 1][..i] == s[..i];
  }

  /** When every element contributes at most one item, there are at most as many items as elements. */
  lemma {:induction false} FlatMapAtMostOne<A, B>(s: seq<A>, f: A -> seq<B>)
    requires forall i :: 0 <= i < |s| ==> |f(s[i])| <= 1
    ensures |FlatMap(s, f)| <= |s|
    decreases |s|
  {
    if s != [] {
      FlatMapAtMostOne(s[..|s| - 1], f);
    }
  }

  /** An item is produced exactly when some element's contribution holds it. */
  lemma {:induction false} FlatMapMember<A, B>(s: seq<A>, f: A -> seq<B>, y: B)
    ensures y in FlatMap(s, f) <==> exists i :: 0 <= i < |s| && y in f(s[i])
    decreases |s|
  {
    if s != [] {
      FlatMapMember(s[..|s| - 1], f, y);
      if y in FlatMap(s[..|s| - 1], f) {
        var i :| 0 <= i < |s| - 1 && y in f(s[..|s| - 1][i]);
        assert s[..|s| - 1][i] == s[i];
      }
      if exists i :: 0 <= i < |s| && y in f(s[i]) {
        var i :| 0 <= i < |s| && y in f(s[i]);
        if i < |s| - 1 {
          assert s[..|s| - 1][i] == s[i];
        }
      }
    }
  }

  /** The concatenation of `f(first + k, s[k])` for every position `k` of `s`, in
      order: a loop that appends zero or more items per element and numbers
      the elements from `first`. */
  function Numbered<A, B>(s: seq<A>, first: nat, f: (nat, A) -> seq<B>): seq<B>
  {
    if s == [] then [] else Numbered(s[..|s| - 1], first, f) + f(first + |s| - 1, s[|s| - 1])
  }

  lemma {:induction false} NumberedConcat<A, B>(a: seq<A>, b: seq<A>, first: nat, f: (nat, A) -> seq<B>)
    ensures Numbered(a + b, first, f) == Numbered(a, first, f) + Numbered(b, first + |a|, f)
    decreases |b|
  {
    if b == [] {
      assert a + b == a;
    } else {
      assert (a + b)[..|a + b| - 1] == a + b[..|b| - 1];
      NumberedConcat(a, b[..|b| - 1], first, f);
    }
  }

  /** One step of a left-to-right numbering loop. */
  lemma NumberedSnoc<A, B>(s: seq<A>, i: nat, first: nat, f: (nat, A) -> seq<B>)
    requires i < |s|
    ensures Numbered(s[..i + 1], first, f) == Numbered(s[..i], first, f) + f(first + i, s[i])
  {
    assert s[..i + 1][..i] == s[..i];
  }
}
