/**
 * Sequence helpers over integer lists: the Java streams `reduce(plus)`,
 * `max`, `distinct().count()`, `List.remove(Object)` and Guava's
 * `Lists.partition`, written as total functions with their meaning stated.
 */
module Seqs {

  /** Sum of a list of integers (`reduce(Duration::plus)` on whole seconds). */
  function Sum(s: seq<int>): int
  {
    if |s| == 0 then 0 else Sum(s[..|s| - 1]) + s[|s| - 1]
  }

  lemma {:induction false} SumAppend(a: seq<int>, b: seq<int>)
    ensures Sum(a + b) == Sum(a) + Sum(b)
    decreases |b|
  {
    if |b| == 0 {
      assert a + b == a;
    } else {
      assert (a + b)[..|a + b| - 1] == a + b[..|b| - 1];
      SumAppend(a, b[..|b| - 1]);
    }
  }

  /** Largest element of a non-empty list (`stream().max(Integer::compare).get()`). */
  function Max(s: seq<int>): (r: int)
    requires |s| > 0
    ensures r in s
    ensures forall i :: 0 <= i < |s| ==> s[i] <= r
  {
    if |s| == 1 then s[0]
    else
      var m := Max(s[..|s| - 1]);
      assert forall i :: 0 <= i < |s| - 1 ==> s[..|s| - 1][i] == s[i];
      if s[|s| - 1] > m then s[|s| - 1] else m
  }

  /** Smallest element of a non-empty list. */
  function Min(s: seq<int>): (r: int)
    requires |s| > 0
    ensures r in s
    ensures forall i :: 0 <= i < |s| ==> r <= s[i]
  {
    if |s| == 1 then s[0]
    else
      var m := Min(s[..|s| - 1]);
      assert forall i :: 0 <= i < |s| - 1 ==> s[..|s| - 1][i] == s[i];
      if s[|s| - 1] < m then s[|s| - 1] else m
  }

  /** Appending one element to a non-empty list raises its maximum only if the element is larger. */
  lemma MaxSnoc(s: seq<int>, x: int)
    requires |s| > 0
    ensures Max(s + [x]) == if x > Max(s) then x else Max(s)
  {
    assert (s + [x])[..|s + [x]| - 1] == s;
  }

  /** The distinct values of a list. */
  function Elements(s: seq<int>): set<int>
  {
    set x | x in s
  }

  lemma ElementsSnoc(s: seq<int>, x: int)
    ensures Elements(s + [x]) == Elements(s) + {x}
  {
    forall y
      ensures y in Elements(s + [x]) <==> y in Elements(s) + {x}
    {
      assert y in s + [x] <==> y in s || y == x;
    }
  }

  /** `stream().distinct().count()`. */
  function DistinctCount(s: seq<int>): nat
  {
    |Elements(s)|
  }

  /** A list has exactly one distinct value, that value being `x`, iff every element is `x` and it is non-empty. */
  lemma SingleDistinct(s: seq<int>, x: int)
    requires x in s
    ensures DistinctCount(s) == 1 <==> forall i :: 0 <= i < |s| ==> s[i] == x
  {
    if DistinctCount(s) == 1 {
      forall i | 0 <= i < |s|
        ensures s[i] == x
      {
        if s[i] != x {
          assert {x, s[i]} <= Elements(s);
          assert |{x, s[i]}| == 2;
          SubsetCardinality({x, s[i]}, Elements(s));
        }
      }
    }
    if forall i :: 0 <= i < |s| ==> s[i] == x {
      assert Elements(s) == {x};
    }
  }

  lemma SubsetCardinality(a: set<int>, b: set<int>)
    requires a <= b
    ensures |a| <= |b|
  {
    assert b == a + (b - a);
  }

  /**
   * Keeps the elements `lo <= x <= hi`, in order and with repetition: each
   * kept value occurs as often as in `s`, and `BetweenAppend` fixes the order.
   */
  function Between(s: seq<int>, lo: int, hi: int): (r: seq<int>)
    ensures forall x :: x in r <==> x in s && lo <= x <= hi
    ensures forall x :: Count(r, x) == if lo <= x <= hi then Count(s, x) else 0
    ensures |r| <= |s|
  {
    if |s| == 0 then []
    else
      var rest := Between(s[1..], lo, hi);
      assert s == [s[0]] + s[1..];
      assert multiset(s) == multiset{s[0]} + multiset(s[1..]);
      assert forall x :: x in s <==> x == s[0] || x in s[1..];
      if lo <= s[0] <= hi then
        assert multiset([s[0]] + rest) == multiset{s[0]} + multiset(rest);
        [s[0]] + rest
      else rest
  }

  /** Filtering a concatenation filters each part and keeps them in order. */
  lemma {:induction false} BetweenAppend(a: seq<int>, b: seq<int>, lo: int, hi: int)
    ensures Between(a + b, lo, hi) == Between(a, lo, hi) + Between(b, lo, hi)
    decreases |a|
  {
    if |a| == 0 {
      assert a + b == b;
    } else {
      assert (a + b)[0] == a[0] && (a + b)[1..] == a[1..] + b;
      BetweenAppend(a[1..], b, lo, hi);
    }
  }

  /**
   * Keeps the elements `x <= hi`, in order and with repetition: each kept
   * value occurs as often as in `s`, and `AtMostAppend` fixes the order.
   */
  function AtMost(s: seq<int>, hi: int): (r: seq<int>)
    ensures forall x :: x in r <==> x in s && x <= hi
    ensures forall x :: Count(r, x) == if x <= hi then Count(s, x) else 0
    ensures |r| <= |s|
  {
    if |s| == 0 then []
    else
      var rest := AtMost(s[1..], hi);
      assert s == [s[0]] + s[1..];
      assert multiset(s) == multiset{s[0]} + multiset(s[1..]);
      assert forall x :: x in s <==> x == s[0] || x in s[1..];
      if s[0] <= hi then
        assert multiset([s[0]] + rest) == multiset{s[0]} + multiset(rest);
        [s[0]] + rest
      else rest
  }

  /** Filtering a concatenation filters each part and keeps them in order. */
  lemma {:induction false} AtMostAppend(a: seq<int>, b: seq<int>, hi: int)
    ensures AtMost(a + b, hi) == AtMost(a, hi) + AtMost(b, hi)
    decreases |a|
  {
    if |a| == 0 {
      assert a + b == b;
    } else {
      assert (a + b)[0] == a[0] && (a + b)[1..] == a[1..] + b;
      AtMostAppend(a[1..], b, hi);
    }
  }

  /** `List.remove(Object)`: drops the FIRST occurrence of `x`, if any. */
  function RemoveFirst(s: seq<int>, x: int): (r: seq<int>)
    ensures x in s ==> multiset(r) == multiset(s) - multiset{x}
    ensures x !in s ==> r == s
  {
    if |s| == 0 then []
    else
      assert s == [s[0]] + s[1..];
      if s[0] == x then s[1..] else [s[0]] + RemoveFirst(s[1..], x)
  }

  /** The number of occurrences of `x` in `s`. */
  function Count(s: seq<int>, x: int): nat
  {
    multiset(s)[x]
  }

  /**
   * Removing one occurrence of `x` leaves `x` among the distinct values iff it
   * occurred at least twice; every other value is untouched.
   */
  lemma RemoveFirstElements(s: seq<int>, x: int)
    ensures Elements(RemoveFirst(s, x)) == if Count(s, x) >= 2 then Elements(s) else Elements(s) - {x}
  {
    var r := RemoveFirst(s, x);
    forall y
      ensures y in Elements(r) <==> y in (if Count(s, x) >= 2 then Elements(s) else Elements(s) - {x})
    {
      assert y in r <==> multiset(r)[y] > 0;
      assert y in s <==> multiset(s)[y] > 0;
    }
  }

  lemma ConcatAssoc<T>(a: seq<T>, b: seq<T>, c: seq<T>)
    ensures a + b + c == a + (b + c)
  {
  }

  /** Concatenation of a list of lists. */
  function Flatten<T>(ss: seq<seq<T>>): seq<T>
  {
    if |ss| == 0 then [] else ss[0] + Flatten(ss[1..])
  }

  /** An element is in the concatenation iff it is in one of the lists. */
  lemma {:induction false} InFlatten<T>(ss: seq<seq<T>>, x: T)
    ensures x in Flatten(ss) <==> exists k :: 0 <= k < |ss| && x in ss[k]
    decreases |ss|
  {
    if |ss| > 0 {
      InFlatten(ss[1..], x);
      if exists k :: 0 <= k < |ss[1..]| && x in ss[1..][k] {
        var k :| 0 <= k < |ss[1..]| && x in ss[1..][k];
        assert x in ss[k + 1];
      }
      if exists k :: 0 <= k < |ss| && x in ss[k] {
        var k :| 0 <= k < |ss| && x in ss[k];
        if k > 0 {
          assert x in ss[1..][k - 1];
        }
      }
    }
  }

  /**
   * Guava `Lists.partition(s, n)`: consecutive sub-lists of size `n`, the
   * last one possibly shorter; no sub-list for an empty list.
   */
  function Chunks<T>(s: seq<T>, n: nat): seq<seq<T>>
    requires n > 0
    decreases |s|
  {
    if |s| == 0 then []
    else if |s| <= n then [s]
    else [s[..n]] + Chunks(s[n..], n)
  }

  /**
   * The partition loses and reorders nothing, and every group is non-empty
   * and of size `n` except possibly the last.
   */
  lemma {:induction false} ChunksPartition<T>(s: seq<T>, n: nat)
    requires n > 0
    ensures Flatten(Chunks(s, n)) == s
    ensures forall i :: 0 <= i < |Chunks(s, n)| ==> 0 < |Chunks(s, n)[i]| <= n
    ensures forall i :: 0 <= i < |Chunks(s, n)| - 1 ==> |Chunks(s, n)[i]| == n
    decreases |s|
  {
    var r := Chunks(s, n);
    if |s| == 0 {
    } else if |s| <= n {
      assert Flatten([s]) == s + Flatten([s][1..]);
    } else {
      var rest := Chunks(s[n..], n);
      ChunksPartition(s[n..], n);
      assert r == [s[..n]] + rest;
      assert r[1..] == rest;
      assert Flatten(r) == s[..n] + Flatten(rest);
      assert s == s[..n] + s[n..];
      forall i | 1 <= i < |r|
        ensures r[i] == rest[i - 1]
      {
      }
    }
  }

  /** Appending a group of at most `n` to a list of `groups` full groups appends one group. */
  lemma {:induction false} ChunksAppend<T>(a: seq<T>, b: seq<T>, n: nat, groups: nat)
    requires n > 0
    requires |a| == groups * n
    requires 0 < |b| <= n
    ensures Chunks(a + b, n) == Chunks(a, n) + [b]
    decreases groups
  {
    if groups == 0 {
      assert a + b == b;
    } else {
      var ab := a + b;
      assert |a| == (groups - 1) * n + n;
      assert ab[..n] == a[..n];
      assert ab[n..] == a[n..] + b;
      if groups == 1 {
        assert a[n..] + b == b;
        assert a[..n] == a;
      } else {
        ChunksAppend(a[n..], b, n, groups - 1);
      }
    }
  }
}
