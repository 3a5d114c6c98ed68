/**
 * `ORDER BY a DESC, b DESC` as the queries of the core use it: rows are ranked by a
 * primary and a secondary key, both descending. The sort is an insertion sort that places
 * a row before the first row it ranks at least as high as, so equal rows keep their
 * storage order.
 */
module Ranking {

  datatype Rank = Rank(primary: real, secondary: int)

  /** `a` may come before `b` in a descending two-key order. */
  predicate Outranks(a: Rank, b: Rank) {
    a.primary > b.primary || (a.primary == b.primary && a.secondary >= b.secondary)
  }

  lemma OutranksTotalPreorder(a: Rank, b: Rank, c: Rank)
    ensures Outranks(a, a)
    ensures Outranks(a, b) || Outranks(b, a)
    ensures Outranks(a, b) && Outranks(b, c) ==> Outranks(a, c)
  {
  }

  ghost predicate SortedBy<T>(s: seq<T>, key: T -> Rank) {
    forall i, j :: 0 <= i < j < |s| ==> Outranks(key(s[i]), key(s[j]))
  }

  function Insert<T>(x: T, s: seq<T>, key: T -> Rank): seq<T>
    decreases |s|
  {
    if s == [] then [x]
    else if Outranks(key(x), key(s[0])) then [x] + s
    else [s[0]] + Insert(x, s[1..], key)
  }

  /** The rows of `s` in descending order of `key`. */
  function SortDesc<T>(s: seq<T>, key: T -> Rank): seq<T>
    decreases |s|
  {
    if s == [] then [] else Insert(s[0], SortDesc(s[1..], key), key)
  }

  /** Every row of `s` is outranked by `a`. */
  ghost predicate Dominates<T>(a: Rank, s: seq<T>, key: T -> Rank) {
    forall k :: 0 <= k < |s| ==> Outranks(a, key(s[k]))
  }

  lemma {:induction false} InsertDominated<T>(a: Rank, x: T, s: seq<T>, key: T -> Rank)
    requires Dominates(a, s, key) && Outranks(a, key(x))
    ensures Dominates(a, Insert(x, s, key), key)
    decreases |s|
  {
    if s != [] && !Outranks(key(x), key(s[0])) {
      InsertDominated(a, x, s[1..], key);
    }
  }

  lemma {:induction false} InsertSorted<T>(x: T, s: seq<T>, key: T -> Rank)
    requires SortedBy(s, key)
    ensures SortedBy(Insert(x, s, key), key)
    decreases |s|
  {
    if s != [] {
      if Outranks(key(x), key(s[0])) {
        forall k | 0 <= k < |s| ensures Outranks(key(x), key(s[k])) {
          OutranksTotalPreorder(key(x), key(s[0]), key(s[k]));
        }
      } else {
        InsertSorted(x, s[1..], key);
        OutranksTotalPreorder(key(x), key(s[0]), key(s[0]));
        InsertDominated(key(s[0]), x, s[1..], key);
      }
    }
  }

  lemma {:induction false} InsertPermutes<T>(x: T, s: seq<T>, key: T -> Rank)
    ensures multiset(Insert(x, s, key)) == multiset(s) + multiset{x}
    decreases |s|
  {
    if s != [] && !Outranks(key(x), key(s[0])) {
      InsertPermutes(x, s[1..], key);
      assert s == [s[0]] + s[1..];
    }
  }

  /** The sort orders its input and returns a permutation of it. */
  lemma {:induction false} SortDescCorrect<T>(s: seq<T>, key: T -> Rank)
    ensures multiset(SortDesc(s, key)) == multiset(s)
    ensures SortedBy(SortDesc(s, key), key)
    ensures |SortDesc(s, key)| == |s|
    decreases |s|
  {
    if s != [] {
      SortDescCorrect(s[1..], key);
      InsertSorted(s[0], SortDesc(s[1..], key), key);
      InsertPermutes(s[0], SortDesc(s[1..], key), key);
      assert s == [s[0]] + s[1..];
      assert |multiset(SortDesc(s, key))| == |multiset(s)|;
    }
  }

  /** After sorting, an element of the input sits at some position of the output. */
  lemma SortDescMembers<T>(s: seq<T>, key: T -> Rank, x: T)
    ensures x in SortDesc(s, key) <==> x in s
  {
    SortDescCorrect(s, key);
    assert x in multiset(SortDesc(s, key)) <==> x in multiset(s);
  }

  /** The first `n` rows, as SQL `LIMIT n` keeps them (everything when there are fewer). */
  function Take<T>(s: seq<T>, n: int): (r: seq<T>)
    ensures |r| <= |s| && (n >= 0 ==> |r| <= n)
    ensures n >= |s| ==> r == s
    ensures 0 <= n <= |s| ==> |r| == n
    ensures r == s[..|r|]
  {
    if n <= 0 then [] else if n >= |s| then s else s[..n]
  }

  /** SQL `LIMIT limit OFFSET offset` on already ordered rows (both non-negative). */
  function Window<T>(s: seq<T>, offset: nat, limit: nat): (r: seq<T>)
    ensures |r| <= limit && (r == [] || offset + |r| <= |s|)
    ensures offset >= |s| ==> r == []
    ensures offset <= |s| ==> |r| == (if offset + limit <= |s| then limit else |s| - offset)
    ensures forall k :: 0 <= k < |r| ==> r[k] == s[offset + k]
  {
    if offset >= |s| then [] else Take(s[offset..], limit)
  }
}
