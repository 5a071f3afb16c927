/** Stream operations over repository rows (`filter`, `count`, the `Optional`
    returned by a derived finder) and the facts about them that the services rely on. */
module Sequences {
  import opened Base

  /** `stream().filter(p).collect(toList())`: the elements of `s` that satisfy `p`, in order. */
  function Filter<T(==)>(p: T -> bool, s: seq<T>): (r: seq<T>)
    ensures |r| <= |s|
    ensures forall i :: 0 <= i < |r| ==> r[i] in s && p(r[i])
    ensures forall i :: 0 <= i < |s| && p(s[i]) ==> s[i] in r
  {
    if s == [] then []
    else if p(s[0]) then [s[0]] + Filter(p, s[1..])
    else Filter(p, s[1..])
  }

  /** `stream().filter(p).count()`. */
  function Count<T(==)>(p: T -> bool, s: seq<T>): nat
  {
    |Filter(p, s)|
  }

  /** `stream().map(f).collect(toList())`. */
  function Map<A, B>(f: A -> B, s: seq<A>): (r: seq<B>)
    ensures |r| == |s|
    ensures forall k :: 0 <= k < |s| ==> r[k] == f(s[k])
  {
    seq(|s|, k requires 0 <= k < |s| => f(s[k]))
  }

  /** The images of the elements that pass a filter are exactly the images of
      the elements of `s` satisfying `p`. */
  lemma MapFilterMembers<A, B>(f: A -> B, p: A -> bool, s: seq<A>)
    ensures forall y :: y in Map(f, Filter(p, s)) <==> exists x :: x in s && p(x) && y == f(x)
  {
    var fs := Filter(p, s);
    forall x | x in s && p(x)
      ensures f(x) in Map(f, fs)
    {
      var k :| 0 <= k < |fs| && fs[k] == x;
      assert Map(f, fs)[k] == f(x);
    }
    forall y | y in Map(f, fs)
      ensures exists x :: x in s && p(x) && y == f(x)
    {
      var k :| 0 <= k < |fs| && Map(f, fs)[k] == y;
      assert fs[k] in s && p(fs[k]);
    }
  }

  /** The conjunction of two filters, as one predicate. */
  function Both<T>(p: T -> bool, q: T -> bool): T -> bool
  {
    x => p(x) && q(x)
  }

  /** The predicate "has key `k`", for finders such as `findByRa`. */
  function HasKey<T, K(==)>(key: T -> K, k: K): T -> bool
  {
    x => key(x) == k
  }

  /** The first position whose element satisfies `p`, if any. */
  function FindFirst<T>(p: T -> bool, s: seq<T>): (r: Option<nat>)
    ensures r.Some? ==> r.value < |s| && p(s[r.value])
    ensures r.Some? ==> forall j :: 0 <= j < r.value ==> !p(s[j])
    ensures r.None? ==> forall j :: 0 <= j < |s| ==> !p(s[j])
  {
    if s == [] then None
    else if p(s[0]) then Some(0)
    else match FindFirst(p, s[1..])
      case None => None
      case Some(k) => Some(k + 1)
  }

  /** No two positions of `s` carry the same key (a unique column). */
  ghost predicate UniqueBy<T, K>(key: T -> K, s: seq<T>)
  {
    forall i, j :: 0 <= i < |s| && 0 <= j < |s| && i != j ==> key(s[i]) != key(s[j])
  }

  /** `a` is `b` with some elements left out, the rest in the same order. */
  predicate IsSubsequence<T(==)>(a: seq<T>, b: seq<T>)
    decreases |b|
  {
    a == [] || (b != [] && ((a[0] == b[0] && IsSubsequence(a[1..], b[1..])) || IsSubsequence(a, b[1..])))
  }

  /** Filtering keeps the survivors in their original order. */
  lemma {:induction false} FilterIsSubsequence<T>(p: T -> bool, s: seq<T>)
    ensures IsSubsequence(Filter(p, s), s)
  {
    if s != [] {
      FilterIsSubsequence(p, s[1..]);
      if p(s[0]) {
        assert Filter(p, s)[1..] == Filter(p, s[1..]);
      }
    }
  }

  /** Every sequence is a subsequence of itself. */
  lemma {:induction false} SubsequenceReflexive<T>(s: seq<T>)
    ensures IsSubsequence(s, s)
  {
    if s != [] {
      SubsequenceReflexive(s[1..]);
    }
  }

  /** A subsequence of a subsequence is a subsequence. */
  lemma {:induction false} SubsequenceTransitive<T>(a: seq<T>, b: seq<T>, c: seq<T>)
    requires IsSubsequence(a, b) && IsSubsequence(b, c)
    ensures IsSubsequence(a, c)
    decreases |c|
  {
    if a != [] {
      if b[0] == c[0] && IsSubsequence(b[1..], c[1..]) {
        if a[0] == b[0] && IsSubsequence(a[1..], b[1..]) {
          SubsequenceTransitive(a[1..], b[1..], c[1..]);
        } else {
          SubsequenceTransitive(a, b[1..], c[1..]);
        }
      } else {
        SubsequenceTransitive(a, b, c[1..]);
      }
    }
  }

  /** Filters that agree on every element of `s` select the same elements. */
  lemma {:induction false} FilterAgree<T>(p: T -> bool, q: T -> bool, s: seq<T>)
    requires forall x :: x in s ==> p(x) == q(x)
    ensures Filter(p, s) == Filter(q, s)
  {
    if s != [] {
      FilterAgree(p, q, s[1..]);
    }
  }

  /** A filter that every element passes keeps the whole sequence. */
  lemma {:induction false} FilterKeepsAll<T>(p: T -> bool, s: seq<T>)
    requires forall x :: x in s ==> p(x)
    ensures Filter(p, s) == s
  {
    if s != [] {
      FilterKeepsAll(p, s[1..]);
    }
  }

  /** Two filters in a row are one filter by the conjunction. */
  lemma {:induction false} FilterFilter<T>(p: T -> bool, q: T -> bool, s: seq<T>)
    ensures Filter(q, Filter(p, s)) == Filter(Both(p, q), s)
  {
    if s != [] {
      FilterFilter(p, q, s[1..]);
      if p(s[0]) {
        assert Filter(p, s) == [s[0]] + Filter(p, s[1..]);
        assert Filter(p, s)[0] == s[0] && Filter(p, s)[1..] == Filter(p, s[1..]);
      }
    }
  }

  /** The order in which two filters are applied does not matter. */
  lemma {:induction false} FilterCommutes<T>(p: T -> bool, q: T -> bool, s: seq<T>)
    ensures Filter(q, Filter(p, s)) == Filter(p, Filter(q, s))
  {
    if s != [] {
      FilterCommutes(p, q, s[1..]);
      if p(s[0]) {
        assert Filter(p, s)[0] == s[0] && Filter(p, s)[1..] == Filter(p, s[1..]);
      }
      if q(s[0]) {
        assert Filter(q, s)[0] == s[0] && Filter(q, s)[1..] == Filter(q, s[1..]);
      }
    }
  }

  /** Two counts by predicates no element satisfies together add up to at most the length. */
  lemma {:induction false} CountDisjoint<T>(p: T -> bool, q: T -> bool, s: seq<T>)
    requires forall x :: !(p(x) && q(x))
    ensures Count(p, s) + Count(q, s) <= |s|
  {
    if s != [] {
      CountDisjoint(p, q, s[1..]);
    }
  }

  /** A count by a predicate that is the disjoint union of two others is the sum of their counts. */
  lemma {:induction false} CountSplit<T>(p: T -> bool, q: T -> bool, u: T -> bool, s: seq<T>)
    requires forall x :: p(x) <==> q(x) || u(x)
    requires forall x :: !(q(x) && u(x))
    ensures Count(p, s) == Count(q, s) + Count(u, s)
  {
    if s != [] {
      CountSplit(p, q, u, s[1..]);
    }
  }

  /** With a unique key, the first element carrying a key is the only one. */
  lemma UniqueFindFirst<T, K>(key: T -> K, s: seq<T>, i: nat)
    requires UniqueBy(key, s) && i < |s|
    ensures FindFirst(HasKey(key, key(s[i])), s) == Some(i)
  {
    var f := FindFirst(HasKey(key, key(s[i])), s);
    assert HasKey(key, key(s[i]))(s[i]);
  }

  /** Overwriting one position with an element whose key no other position has keeps keys unique. */
  lemma ReplaceKeepsUnique<T, K>(key: T -> K, s: seq<T>, i: nat, x: T)
    requires UniqueBy(key, s) && i < |s|
    requires forall j :: 0 <= j < |s| && j != i ==> key(s[j]) != key(x)
    ensures UniqueBy(key, s[i := x])
  {
  }

  /** Overwriting one position with an element of the same key keeps keys unique. */
  lemma ReplaceSameKeyKeepsUnique<T, K>(key: T -> K, s: seq<T>, i: nat, x: T)
    requires UniqueBy(key, s) && i < |s| && key(x) == key(s[i])
    ensures UniqueBy(key, s[i := x])
  {
    assert forall j :: 0 <= j < |s| && j != i ==> key(s[j]) != key(s[i]);
    ReplaceKeepsUnique(key, s, i, x);
  }

  /** Appending an element with a key nobody has keeps keys unique. */
  lemma AppendKeepsUnique<T, K>(key: T -> K, s: seq<T>, x: T)
    requires UniqueBy(key, s)
    requires forall j :: 0 <= j < |s| ==> key(s[j]) != key(x)
    ensures UniqueBy(key, s + [x])
  {
  }

  /** The sequence without position `i` (a `deleteById` on a table). */
  function RemoveAt<T>(s: seq<T>, i: nat): seq<T>
    requires i < |s|
  {
    s[..i] + s[i + 1..]
  }

  /** Removing the element at `i` from a table with a unique key removes exactly
      the elements with that key and keeps the key unique. */
  lemma RemoveAtUnique<T, K>(key: T -> K, s: seq<T>, i: nat)
    requires UniqueBy(key, s) && i < |s|
    ensures UniqueBy(key, RemoveAt(s, i))
    ensures |RemoveAt(s, i)| == |s| - 1
    ensures forall x :: x in RemoveAt(s, i) <==> x in s && key(x) != key(s[i])
  {
    var r := RemoveAt(s, i);
    forall a, b | 0 <= a < |r| && 0 <= b < |r| && a != b
      ensures key(r[a]) != key(r[b])
    {
      var a' := if a < i then a else a + 1;
      var b' := if b < i then b else b + 1;
      assert r[a] == s[a'] && r[b] == s[b'];
    }
    forall x | x in s && key(x) != key(s[i])
      ensures x in r
    {
      var k :| 0 <= k < |s| && s[k] == x;
      if k < i { assert r[k] == x; } else { assert k > i && r[k - 1] == x; }
    }
    forall x | x in r
      ensures x in s && key(x) != key(s[i])
    {
      var k :| 0 <= k < |r| && r[k] == x;
      if k < i { assert x == s[k]; } else { assert x == s[k + 1]; }
    }
  }
}
