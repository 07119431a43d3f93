/**
 * A stable sort of a sequence by a string key, ascending or descending.
 * Descending order uses the reversed comparator, not a reversal of the
 * ascending result, so records with equal keys keep their input order in
 * both directions, as Python's `sorted(..., reverse=True)` does.
 */
module StableSort {
  import opened LexOrder
  import Text

  datatype Direction = Ascending | Descending

  /** The comparator: may a record with key `a` come before one with key `b`? */
  predicate Before(dir: Direction, a: string, b: string) {
    match dir
    case Ascending => LexLe(a, b)
    case Descending => LexLe(b, a)
  }

  lemma BeforeReflexive(dir: Direction, a: string)
    ensures Before(dir, a, a)
  {
    LexLeReflexive(a);
  }

  lemma BeforeTotal(dir: Direction, a: string, b: string)
    ensures Before(dir, a, b) || Before(dir, b, a)
  {
    LexLeTotal(a, b);
  }

  lemma BeforeTransitive(dir: Direction, a: string, b: string, c: string)
    requires Before(dir, a, b) && Before(dir, b, c)
    ensures Before(dir, a, c)
  {
    if dir == Ascending {
      LexLeTransitive(a, b, c);
    } else {
      LexLeTransitive(c, b, a);
    }
  }

  lemma BeforeAntisymmetric(dir: Direction, a: string, b: string)
    requires Before(dir, a, b) && Before(dir, b, a)
    ensures a == b
  {
    LexLeAntisymmetric(a, b);
  }

  /** Every record comes no later, by the comparator, than every record after it. */
  ghost predicate SortedBy<T>(s: seq<T>, key: T -> string, dir: Direction) {
    forall i, j :: 0 <= i < j < |s| ==> Before(dir, key(s[i]), key(s[j]))
  }

  /** No two records of `s` share a key. */
  ghost predicate DistinctKeys<T>(s: seq<T>, key: T -> string) {
    forall i, j :: 0 <= i < j < |s| ==> key(s[i]) != key(s[j])
  }

  /** Every record of `s` may come after a record with key `k`. */
  ghost predicate AllAfter<T>(k: string, s: seq<T>, key: T -> string, dir: Direction) {
    forall i :: 0 <= i < |s| ==> Before(dir, k, key(s[i]))
  }

  /** The records of `s` whose key is `k`, in their order in `s`. */
  function WithKey<T>(s: seq<T>, key: T -> string, k: string): (r: seq<T>)
    ensures forall i :: 0 <= i < |r| ==> key(r[i]) == k
    ensures |r| <= |s|
  {
    if s == [] then []
    else (if key(s[0]) == k then [s[0]] else []) + WithKey(s[1..], key, k)
  }

  /**
   * Stability: for every key, the records with that key appear in the
   * output in the same order as in the input.
   */
  ghost predicate Stable<T>(input: seq<T>, output: seq<T>, key: T -> string) {
    forall k :: WithKey(output, key, k) == WithKey(input, key, k)
  }

  /**
   * Places `x` in front of the first record of `t` it may precede, that is,
   * after every record that must come before it.
   */
  function Insert<T>(x: T, t: seq<T>, key: T -> string, dir: Direction): (r: seq<T>)
    ensures |r| == |t| + 1
  {
    if t == [] then [x]
    else if Before(dir, key(x), key(t[0])) then [x] + t
    else [t[0]] + Insert(x, t[1..], key, dir)
  }

  /** `sorted(s, key=key, reverse=(dir == Descending))`. */
  function SortBy<T>(s: seq<T>, key: T -> string, dir: Direction): (r: seq<T>)
    ensures |r| == |s|
  {
    if s == [] then []
    else Insert(s[0], SortBy(s[1..], key, dir), key, dir)
  }

  /** Inserting adds `x` and keeps every record of `t`. */
  lemma {:induction false} InsertPermutes<T>(x: T, t: seq<T>, key: T -> string, dir: Direction)
    ensures multiset(Insert(x, t, key, dir)) == multiset(t) + multiset{x}
  {
    if t != [] && !Before(dir, key(x), key(t[0])) {
      InsertPermutes(x, t[1..], key, dir);
      assert t == [t[0]] + t[1..];
    }
  }

  /** The sorted sequence is a permutation of its input. */
  lemma {:induction false} SortByPermutes<T>(s: seq<T>, key: T -> string, dir: Direction)
    ensures multiset(SortBy(s, key, dir)) == multiset(s)
  {
    if s != [] {
      SortByPermutes(s[1..], key, dir);
      InsertPermutes(s[0], SortBy(s[1..], key, dir), key, dir);
      assert s == [s[0]] + s[1..];
    }
  }

  // ---------------------------------------------------------------------
  // Sortedness
  // ---------------------------------------------------------------------

  lemma {:induction false} InsertAllAfter<T>(k: string, x: T, t: seq<T>, key: T -> string, dir: Direction)
    requires Before(dir, k, key(x)) && AllAfter(k, t, key, dir)
    ensures AllAfter(k, Insert(x, t, key, dir), key, dir)
    decreases |t|
  {
    if t != [] && !Before(dir, key(x), key(t[0])) {
      InsertAllAfter(k, x, t[1..], key, dir);
    }
  }

  lemma {:induction false} InsertSorted<T>(x: T, t: seq<T>, key: T -> string, dir: Direction)
    requires SortedBy(t, key, dir)
    ensures SortedBy(Insert(x, t, key, dir), key, dir)
    decreases |t|
  {
    if t == [] {
    } else if Before(dir, key(x), key(t[0])) {
      forall j | 0 < j < |t|
        ensures Before(dir, key(x), key(t[j]))
      {
        BeforeTransitive(dir, key(x), key(t[0]), key(t[j]));
      }
    } else {
      BeforeTotal(dir, key(x), key(t[0]));
      InsertSorted(x, t[1..], key, dir);
      InsertAllAfter(key(t[0]), x, t[1..], key, dir);
    }
  }

  /** The sort's output is in order by the comparator. */
  lemma {:induction false} SortBySorted<T>(s: seq<T>, key: T -> string, dir: Direction)
    ensures SortedBy(SortBy(s, key, dir), key, dir)
    decreases |s|
  {
    if s != [] {
      SortBySorted(s[1..], key, dir);
      InsertSorted(s[0], SortBy(s[1..], key, dir), key, dir);
    }
  }

  /**
   * Where `Insert` puts `x`: after the leading records it may not precede,
   * in front of the first one it may.
   */
  lemma {:induction false} InsertAt<T>(x: T, t: seq<T>, key: T -> string, dir: Direction, p: nat)
    requires p <= |t|
    requires forall i :: 0 <= i < p ==> !Before(dir, key(x), key(t[i]))
    requires p == |t| || Before(dir, key(x), key(t[p]))
    ensures Insert(x, t, key, dir) == t[..p] + [x] + t[p..]
    decreases p
  {
    if p == 0 {
      assert t[..0] + [x] + t[0..] == [x] + t;
    } else {
      var u := t[1..];
      assert forall i :: 0 <= i < p - 1 ==> u[i] == t[i + 1];
      InsertAt(x, u, key, dir, p - 1);
      InsertPast(x, t, key, dir);
      assert t == [t[0]] + u;
      SpliceCons(t[0], u, x, p - 1);
    }
  }

  /** A record that may not precede the first one is inserted into the rest. */
  lemma InsertPast<T>(x: T, t: seq<T>, key: T -> string, dir: Direction)
    requires t != [] && !Before(dir, key(x), key(t[0]))
    ensures Insert(x, t, key, dir) == [t[0]] + Insert(x, t[1..], key, dir)
  {
  }

  /** Splicing `x` into `u` at `q`, then putting `a` in front, splices it into `[a] + u` at `q + 1`. */
  lemma SpliceCons<T>(a: T, u: seq<T>, x: T, q: nat)
    requires q <= |u|
    ensures [a] + (u[..q] + [x] + u[q..]) == ([a] + u)[..q + 1] + [x] + ([a] + u)[q + 1..]
  {
    assert ([a] + u)[..q + 1] == [a] + u[..q];
    assert ([a] + u)[q + 1..] == u[q..];
  }

  /** Order between neighbours is enough: the comparator is transitive. */
  lemma {:induction false} SortedByNeighbours<T>(s: seq<T>, key: T -> string, dir: Direction)
    requires forall i :: 0 <= i < |s| - 1 ==> Before(dir, key(s[i]), key(s[i + 1]))
    ensures SortedBy(s, key, dir)
    decreases |s|
  {
    if s != [] {
      SortedByNeighbours(s[1..], key, dir);
      forall j | 0 < j < |s|
        ensures Before(dir, key(s[0]), key(s[j]))
      {
        var m := 1;
        while m < j
          invariant 1 <= m <= j
          invariant Before(dir, key(s[0]), key(s[m]))
        {
          BeforeTransitive(dir, key(s[0]), key(s[m]), key(s[m + 1]));
          m := m + 1;
        }
      }
    }
  }

  /** Neighbours in strict order make a sorted list with no key repeated. */
  lemma StrictNeighboursDistinct<T>(s: seq<T>, key: T -> string, dir: Direction)
    requires forall i :: 0 <= i < |s| - 1 ==> Before(dir, key(s[i]), key(s[i + 1]))
    requires forall i :: 0 <= i < |s| - 1 ==> key(s[i]) != key(s[i + 1])
    ensures SortedBy(s, key, dir)
    ensures DistinctKeys(s, key)
  {
    SortedByNeighbours(s, key, dir);
    forall i, j | 0 <= i < j < |s|
      ensures key(s[i]) != key(s[j])
    {
      if key(s[i]) == key(s[j]) {
        assert i + 1 < j;
        BeforeAntisymmetric(dir, key(s[i]), key(s[i + 1]));
        assert false;
      }
    }
  }

  /** Input already in order comes out unchanged. */
  lemma {:induction false} SortByOfSorted<T>(s: seq<T>, key: T -> string, dir: Direction)
    requires SortedBy(s, key, dir)
    ensures SortBy(s, key, dir) == s
    decreases |s|
  {
    if s != [] {
      SortByOfSorted(s[1..], key, dir);
      assert s == [s[0]] + s[1..];
    }
  }

  /** When every record has the same key, the sort returns its input unchanged. */
  lemma SortByTied<T>(s: seq<T>, key: T -> string, dir: Direction, k: string)
    requires forall i :: 0 <= i < |s| ==> key(s[i]) == k
    ensures SortBy(s, key, dir) == s
  {
    BeforeReflexive(dir, k);
    SortByOfSorted(s, key, dir);
  }

  // ---------------------------------------------------------------------
  // Stability
  // ---------------------------------------------------------------------

  lemma {:induction false} InsertWithKey<T>(x: T, t: seq<T>, key: T -> string, dir: Direction, k: string)
    ensures WithKey(Insert(x, t, key, dir), key, k)
         == (if key(x) == k then [x] else []) + WithKey(t, key, k)
    decreases |t|
  {
    if t == [] {
    } else if Before(dir, key(x), key(t[0])) {
      WithKeyCons(x, t, key, k);
    } else {
      InsertWithKey(x, t[1..], key, dir, k);
      InsertPastWithKey(x, t, key, dir, k);
    }
  }

  /** The step of `InsertWithKey` where `x` goes past the first record. */
  lemma InsertPastWithKey<T>(x: T, t: seq<T>, key: T -> string, dir: Direction, k: string)
    requires t != [] && !Before(dir, key(x), key(t[0]))
    requires WithKey(Insert(x, t[1..], key, dir), key, k)
          == (if key(x) == k then [x] else []) + WithKey(t[1..], key, k)
    ensures WithKey(Insert(x, t, key, dir), key, k)
         == (if key(x) == k then [x] else []) + WithKey(t, key, k)
  {
    BeforeReflexive(dir, key(x));
    var rest := Insert(x, t[1..], key, dir);
    var w := WithKey(t[1..], key, k);
    assert Insert(x, t, key, dir) == [t[0]] + rest;
    WithKeyCons(t[0], rest, key, k);
    assert t == [t[0]] + t[1..];
    WithKeyCons(t[0], t[1..], key, k);
    if key(x) == k {
      assert key(t[0]) != k;
      assert WithKey([t[0]] + rest, key, k) == [x] + w;
    } else if key(t[0]) == k {
      assert WithKey([t[0]] + rest, key, k) == [t[0]] + w;
    } else {
      assert WithKey([t[0]] + rest, key, k) == w;
    }
  }

  /** The filter of a list with a record in front. */
  lemma WithKeyCons<T>(a: T, u: seq<T>, key: T -> string, k: string)
    ensures WithKey([a] + u, key, k) == (if key(a) == k then [a] else []) + WithKey(u, key, k)
  {
    assert ([a] + u)[1..] == u;
  }

  /** Records with equal keys keep their input order. */
  lemma {:induction false} SortByStable<T>(s: seq<T>, key: T -> string, dir: Direction)
    ensures Stable(s, SortBy(s, key, dir), key)
    decreases |s|
  {
    if s != [] {
      SortByStable(s[1..], key, dir);
      forall k
        ensures WithKey(SortBy(s, key, dir), key, k) == WithKey(s, key, k)
      {
        InsertWithKey(s[0], SortBy(s[1..], key, dir), key, dir, k);
      }
    }
  }

  // ---------------------------------------------------------------------
  // Descending order against the reversed ascending order
  // ---------------------------------------------------------------------

  lemma {:induction false} NoKeyNoMatch<T>(s: seq<T>, key: T -> string, k: string)
    requires forall i :: 0 <= i < |s| ==> key(s[i]) != k
    ensures WithKey(s, key, k) == []
    decreases |s|
  {
    if s != [] {
      NoKeyNoMatch(s[1..], key, k);
    }
  }

  lemma {:induction false} DistinctKeysFewMatches<T>(s: seq<T>, key: T -> string, k: string)
    requires DistinctKeys(s, key)
    ensures |WithKey(s, key, k)| <= 1
    decreases |s|
  {
    if s != [] {
      if key(s[0]) == k {
        NoKeyNoMatch(s[1..], key, k);
      } else {
        DistinctKeysFewMatches(s[1..], key, k);
      }
    }
  }

  lemma {:induction false} SharedKeyManyMatches<T>(s: seq<T>, key: T -> string, i: nat, j: nat)
    requires i < j < |s| && key(s[i]) == key(s[j])
    ensures |WithKey(s, key, key(s[i]))| >= 2
    decreases |s|
  {
    if i == 0 {
      HasKeyMatch(s[1..], key, j - 1);
    } else {
      SharedKeyManyMatches(s[1..], key, i - 1, j - 1);
    }
  }

  lemma {:induction false} HasKeyMatch<T>(s: seq<T>, key: T -> string, j: nat)
    requires j < |s|
    ensures |WithKey(s, key, key(s[j]))| >= 1
    decreases |s|
  {
    if j > 0 {
      HasKeyMatch(s[1..], key, j - 1);
    }
  }

  /** A stable reordering of records with distinct keys still has distinct keys. */
  lemma StableKeepsDistinct<T>(input: seq<T>, output: seq<T>, key: T -> string)
    requires Stable(input, output, key) && DistinctKeys(input, key)
    ensures DistinctKeys(output, key)
  {
    forall i, j | 0 <= i < j < |output|
      ensures key(output[i]) != key(output[j])
    {
      if key(output[i]) == key(output[j]) {
        SharedKeyManyMatches(output, key, i, j);
        DistinctKeysFewMatches(input, key, key(output[i]));
        assert false;
      }
    }
  }

  lemma {:induction false} ReverseMultiset<T>(s: seq<T>)
    ensures multiset(Text.Reverse(s)) == multiset(s)
    decreases |s|
  {
    if s != [] {
      ReverseMultiset(s[1..]);
      assert s == [s[0]] + s[1..];
    }
  }

  /** With no key shared, no record occurs twice. */
  lemma {:induction false} DistinctKeysCount<T>(a: seq<T>, key: T -> string, x: T)
    requires DistinctKeys(a, key)
    ensures multiset(a)[x] == (if x in a then 1 else 0)
    decreases |a|
  {
    if a != [] {
      var u := a[1..];
      assert DistinctKeys(u, key) by {
        assert forall i :: 0 <= i < |u| ==> u[i] == a[i + 1];
      }
      DistinctKeysCount(u, key, x);
      assert a == [a[0]] + u;
    }
  }

  /** Two lists with no key shared that hold the same records hold each the same number of times. */
  lemma SameRecordsSameMultiset<T>(a: seq<T>, b: seq<T>, key: T -> string)
    requires DistinctKeys(a, key) && DistinctKeys(b, key)
    requires forall x :: x in a <==> x in b
    ensures multiset(a) == multiset(b)
  {
    forall x
      ensures multiset(a)[x] == multiset(b)[x]
    {
      DistinctKeysCount(a, key, x);
      DistinctKeysCount(b, key, x);
    }
  }

  /**
   * Two orderings of the same records, both in order by the comparator,
   * with no key shared, are the same sequence.
   */
  lemma {:induction false} SortedUnique<T>(a: seq<T>, b: seq<T>, key: T -> string, dir: Direction)
    requires multiset(a) == multiset(b)
    requires SortedBy(a, key, dir) && SortedBy(b, key, dir)
    requires DistinctKeys(a, key) && DistinctKeys(b, key)
    ensures a == b
    decreases |a|
  {
    assert |a| == |multiset(a)| == |multiset(b)| == |b|;
    if a != [] {
      SortedSameFirst(a, b, key, dir);
      assert a == [a[0]] + a[1..];
      assert b == [b[0]] + b[1..];
      assert multiset(a[1..]) == multiset(b[1..]) by {
        assert multiset(a[1..]) == multiset(a) - multiset{a[0]};
        assert multiset(b[1..]) == multiset(b) - multiset{b[0]};
      }
      TailSortedDistinct(a, key, dir);
      TailSortedDistinct(b, key, dir);
      SortedUnique(a[1..], b[1..], key, dir);
    }
  }

  /** Two sorted arrangements of the same records with no key shared start alike. */
  lemma SortedSameFirst<T>(a: seq<T>, b: seq<T>, key: T -> string, dir: Direction)
    requires a != [] && b != [] && multiset(a) == multiset(b)
    requires SortedBy(a, key, dir) && SortedBy(b, key, dir)
    requires DistinctKeys(a, key) && DistinctKeys(b, key)
    ensures a[0] == b[0]
  {
    assert a[0] in multiset(b);
    var j :| 0 <= j < |b| && b[j] == a[0];
    assert b[0] in multiset(a);
    var i :| 0 <= i < |a| && a[i] == b[0];
    if a[0] != b[0] {
      assert Before(dir, key(b[0]), key(a[0]));
      assert Before(dir, key(a[0]), key(b[0]));
      BeforeAntisymmetric(dir, key(a[0]), key(b[0]));
      assert false;
    }
  }

  /** Dropping the first record keeps a list sorted and its keys distinct. */
  lemma TailSortedDistinct<T>(a: seq<T>, key: T -> string, dir: Direction)
    requires a != [] && SortedBy(a, key, dir) && DistinctKeys(a, key)
    ensures SortedBy(a[1..], key, dir) && DistinctKeys(a[1..], key)
  {
    assert forall i :: 0 <= i < |a| - 1 ==> a[1..][i] == a[i + 1];
  }


  /**
   * With no key shared, the sort's outcome is the only arrangement of the
   * records that is in order.
   */
  lemma SortByUnique<T>(s: seq<T>, e: seq<T>, key: T -> string, dir: Direction)
    requires DistinctKeys(s, key)
    requires forall x :: x in e <==> x in s
    requires SortedBy(e, key, dir) && DistinctKeys(e, key)
    ensures SortBy(s, key, dir) == e
  {
    var sorted := SortBy(s, key, dir);
    SortBySorted(s, key, dir);
    SortByStable(s, key, dir);
    SortByPermutes(s, key, dir);
    StableKeepsDistinct(s, sorted, key);
    SameRecordsSameMultiset(s, e, key);
    SortedUnique(sorted, e, key, dir);
  }

  /** Reversing an ascending sequence with distinct keys gives a descending one. */
  lemma ReverseAscending<T>(a: seq<T>, key: T -> string)
    requires SortedBy(a, key, Ascending) && DistinctKeys(a, key)
    ensures SortedBy(Text.Reverse(a), key, Descending)
    ensures DistinctKeys(Text.Reverse(a), key)
  {
    var r := Text.Reverse(a);
    forall i, j | 0 <= i < j < |r|
      ensures Before(Descending, key(r[i]), key(r[j])) && key(r[i]) != key(r[j])
    {
      assert r[i] == a[|a| - 1 - i] && r[j] == a[|a| - 1 - j];
    }
  }

  /**
   * With no key shared, sorting descending gives exactly the reverse of
   * sorting ascending. (With shared keys it does not: equal-key records
   * keep their input order in both directions.)
   */
  lemma DescendingReversesAscending<T>(s: seq<T>, key: T -> string)
    requires DistinctKeys(s, key)
    ensures SortBy(s, key, Descending) == Text.Reverse(SortBy(s, key, Ascending))
  {
    var a := SortBy(s, key, Ascending);
    var d := SortBy(s, key, Descending);
    var r := Text.Reverse(a);
    SortBySorted(s, key, Ascending);
    SortBySorted(s, key, Descending);
    SortByStable(s, key, Ascending);
    SortByStable(s, key, Descending);
    SortByPermutes(s, key, Ascending);
    SortByPermutes(s, key, Descending);
    StableKeepsDistinct(s, a, key);
    StableKeepsDistinct(s, d, key);
    ReverseMultiset(a);
    ReverseAscending(a, key);
    SortedUnique(d, r, key, Descending);
  }
}
