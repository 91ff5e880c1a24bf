/**
 * The sequence operators the analyzer builds its queries from (`Where`, `Select`,
 * `SelectMany`, and dropping absent values), with the facts about them that the
 * rest of the model relies on: a `Where` keeps exactly the elements that satisfy
 * its predicate, in their original order.
 */
module Linq {
  import opened Wrappers

  /** `sub` is `s` with some elements left out and the others kept in their order. */
  ghost predicate IsSubsequence<T>(sub: seq<T>, s: seq<T>)
  {
    if sub == [] then true
    else if s == [] then false
    else (sub[0] == s[0] && IsSubsequence(sub[1..], s[1..])) || IsSubsequence(sub, s[1..])
  }

  /** The elements of `s` that satisfy `p`, in order (LINQ `Where`). */
  function Where<T(==,!new)>(s: seq<T>, p: T -> bool): (r: seq<T>)
    ensures forall x :: x in r <==> x in s && p(x)
    ensures IsSubsequence(r, s)
    ensures r == [] <==> forall x :: x in s ==> !p(x)
  {
    if s == [] then []
    else
      assert forall x :: x in s <==> x == s[0] || x in s[1..] by {
        assert s == [s[0]] + s[1..];
      }
      if p(s[0]) then [s[0]] + Where(s[1..], p)
      else Where(s[1..], p)
  }

  /** `f` applied to every element of `s` (LINQ `Select`). */
  function Select<T, U>(s: seq<T>, f: T -> U): (r: seq<U>)
    ensures |r| == |s|
    ensures forall i :: 0 <= i < |s| ==> r[i] == f(s[i])
  {
    seq(|s|, i requires 0 <= i < |s| => f(s[i]))
  }

  /** The sequences `f` gives for the elements of `s`, concatenated (LINQ `SelectMany`). */
  function SelectMany<T, U(==,!new)>(s: seq<T>, f: T -> seq<U>): (r: seq<U>)
    ensures forall y :: y in r <==> exists x :: x in s && y in f(x)
  {
    if s == [] then []
    else f(s[0]) + SelectMany(s[1..], f)
  }

  /** The present values of `s`, in order (LINQ `Where(x => x != null)`). */
  function Somes<T(==,!new)>(s: seq<Option<T>>): (r: seq<T>)
    ensures forall x :: x in r <==> Some(x) in s
  {
    if s == [] then []
    else
      assert forall o :: o in s <==> o == s[0] || o in s[1..] by {
        assert s == [s[0]] + s[1..];
      }
      match s[0]
      case Some(x) => [x] + Somes(s[1..])
      case None => Somes(s[1..])
  }

  /** Filtering by a predicate and by its negation splits `s` into two parts that together are `s`. */
  lemma {:induction false} WherePartition<T(!new)>(s: seq<T>, p: T -> bool, q: T -> bool)
    requires forall x :: q(x) == !p(x)
    ensures |Where(s, p)| + |Where(s, q)| == |s|
    ensures multiset(Where(s, p)) + multiset(Where(s, q)) == multiset(s)
  {
    if s != [] {
      WherePartition(s[1..], p, q);
      assert s == [s[0]] + s[1..];
    }
  }

  /** Two predicates that agree on the elements of `s` select the same elements. */
  lemma {:induction false} WhereCongruent<T(!new)>(s: seq<T>, p: T -> bool, q: T -> bool)
    requires forall x :: x in s ==> p(x) == q(x)
    ensures Where(s, p) == Where(s, q)
  {
    if s != [] {
      WhereCongruent(s[1..], p, q);
    }
  }

  /** A stronger predicate keeps a subsequence of what a weaker one keeps. */
  lemma {:induction false} WhereStronger<T(!new)>(s: seq<T>, p: T -> bool, q: T -> bool)
    requires forall x :: x in s && p(x) ==> q(x)
    ensures IsSubsequence(Where(s, p), Where(s, q))
  {
    if s != [] {
      WhereStronger(s[1..], p, q);
      var rest := Where(s[1..], p);
      if p(s[0]) {
        assert Where(s, p)[1..] == rest;
      } else if q(s[0]) {
        SubsequenceOfTail(rest, Where(s, q));
      }
    }
  }

  /** A subsequence of the tail of `s` is a subsequence of `s`. */
  lemma SubsequenceOfTail<T(!new)>(sub: seq<T>, s: seq<T>)
    requires s != [] && IsSubsequence(sub, s[1..])
    ensures IsSubsequence(sub, s)
  {
  }

  /** `Where` distributes over concatenation. */
  lemma {:induction false} WhereConcat<T(!new)>(s: seq<T>, t: seq<T>, p: T -> bool)
    ensures Where(s + t, p) == Where(s, p) + Where(t, p)
  {
    if s == [] {
      assert s + t == t;
    } else {
      var st := s + t;
      assert st[0] == s[0] && st[1..] == s[1..] + t;
      WhereConcat(s[1..], t, p);
      if p(s[0]) {
        calc {
          Where(st, p);
          [s[0]] + Where(s[1..] + t, p);
          [s[0]] + (Where(s[1..], p) + Where(t, p));
          ([s[0]] + Where(s[1..], p)) + Where(t, p);
        }
      } else {
        assert Where(st, p) == Where(s[1..] + t, p);
      }
    }
  }

  /** When every element satisfies `p`, `Where` keeps all of `s`. */
  lemma {:induction false} WhereAll<T(!new)>(s: seq<T>, p: T -> bool)
    requires forall x :: x in s ==> p(x)
    ensures Where(s, p) == s
  {
    if s != [] {
      WhereAll(s[1..], p);
    }
  }


  /**
   * Regrouping `s` as the elements failing `p`, then `added` (all failing `p`),
   * then the elements satisfying `p`: the `p` elements are unchanged and last,
   * the others are the old ones followed by `added`, and nothing is lost.
   */
  lemma Regroup<T(!new)>(s: seq<T>, added: seq<T>, p: T -> bool, q: T -> bool)
    requires forall x :: q(x) == !p(x)
    requires forall x :: x in added ==> q(x)
    ensures Where(Where(s, q) + added + Where(s, p), p) == Where(s, p)
    ensures Where(Where(s, q) + added + Where(s, p), q) == Where(s, q) + added
    ensures multiset(Where(s, q) + added + Where(s, p)) == multiset(s) + multiset(added)
  {
    RegroupKeepsLast(s, added, p, q);
    RegroupKeepsFirst(s, added, p, q);
    WherePartition(s, p, q);
  }

  lemma RegroupKeepsLast<T(!new)>(s: seq<T>, added: seq<T>, p: T -> bool, q: T -> bool)
    requires forall x :: q(x) == !p(x)
    requires forall x :: x in added ==> q(x)
    ensures Where(Where(s, q) + added + Where(s, p), p) == Where(s, p)
  {
    var front := Where(s, q) + added;
    WhereConcat(Where(s, q), added, p);
    WhereConcat(front, Where(s, p), p);
    WhereAll(Where(s, p), p);
    assert Where(Where(s, q), p) == [];
    assert Where(added, p) == [];
  }

  lemma RegroupKeepsFirst<T(!new)>(s: seq<T>, added: seq<T>, p: T -> bool, q: T -> bool)
    requires forall x :: q(x) == !p(x)
    requires forall x :: x in added ==> q(x)
    ensures Where(Where(s, q) + added + Where(s, p), q) == Where(s, q) + added
  {
    var front := Where(s, q) + added;
    WhereConcat(Where(s, q), added, q);
    WhereConcat(front, Where(s, p), q);
    WhereAll(Where(s, q), q);
    WhereAll(added, q);
    assert Where(Where(s, p), q) == [];
  }

  /** In `Where(s, q) + added + Where(s, p)`, every element satisfying `p` comes after every one that does not. */
  lemma RegroupOrdered<T(!new)>(s: seq<T>, added: seq<T>, p: T -> bool, q: T -> bool)
    requires forall x :: q(x) == !p(x)
    requires forall x :: x in added ==> q(x)
    ensures var all := Where(s, q) + added + Where(s, p);
      forall i, j :: 0 <= i < j < |all| && p(all[i]) ==> p(all[j])
  {
    var front := Where(s, q) + added;
    var all := front + Where(s, p);
    forall k | 0 <= k < |front|
      ensures q(front[k])
    {
      if k < |Where(s, q)| {
        assert front[k] in Where(s, q);
      } else {
        assert front[k] == added[k - |Where(s, q)|];
      }
    }
    forall i, j | 0 <= i < j < |all| && p(all[i])
      ensures p(all[j])
    {
      assert all[j] == Where(s, p)[j - |front|];
    }
  }
}
