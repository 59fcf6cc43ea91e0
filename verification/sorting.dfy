/** Python's `list.sort(key=...)` and `sorted(...)` as a stable insertion sort
    over an arbitrary key and total preorder, together with the filtering
    used to state stability. Lexicographic string order, as Python compares
    `str` values, is one instance. */
module Sorting {

  // ---------------------------------------------------------------------------
  // Filtering

  /** The elements of `s` satisfying `p`, in their original order. */
  function Filter<T(!new)>(s: seq<T>, p: T -> bool): (r: seq<T>)
    ensures |r| <= |s|
  {
    if s == [] then [] else (if p(s[0]) then [s[0]] else []) + Filter(s[1..], p)
  }

  /** Exactly the elements satisfying `p` are kept. */
  lemma {:induction false} FilterMembers<T(!new)>(s: seq<T>, p: T -> bool)
    ensures forall x :: x in Filter(s, p) <==> x in s && p(x)
  {
    if s != [] {
      FilterMembers(s[1..], p);
      assert forall x :: x in s <==> x == s[0] || x in s[1..];
    }
  }

  lemma {:induction false} FilterAppend<T(!new)>(a: seq<T>, b: seq<T>, p: T -> bool)
    ensures Filter(a + b, p) == Filter(a, p) + Filter(b, p)
  {
    if a != [] {
      var h := if p(a[0]) then [a[0]] else [];
      assert (a + b)[0] == a[0] && (a + b)[1..] == a[1..] + b;
      assert Filter(a + b, p) == h + Filter(a[1..] + b, p);
      FilterAppend(a[1..], b, p);
      assert Filter(a, p) == h + Filter(a[1..], p);
    } else {
      assert a + b == b;
    }
  }

  /** A filter that no element passes is empty. */
  lemma {:induction false} FilterNone<T(!new)>(s: seq<T>, p: T -> bool)
    requires forall i :: 0 <= i < |s| ==> !p(s[i])
    ensures Filter(s, p) == []
  {
    if s != [] {
      FilterNone(s[1..], p);
    }
  }

  /** Two kept elements at distinct positions stay at distinct positions. */
  lemma {:induction false} FilterKeepsPair<T(!new)>(s: seq<T>, p: T -> bool, i: nat, j: nat)
    requires i < j < |s| && p(s[i]) && p(s[j])
    ensures |Filter(s, p)| >= 2
  {
    if i == 0 {
      FilterMembers(s[1..], p);
      assert s[j] == s[1..][j - 1];
      assert s[j] in Filter(s[1..], p);
    } else {
      FilterKeepsPair(s[1..], p, i - 1, j - 1);
    }
  }

  // ---------------------------------------------------------------------------
  // Orders

  /** `le` is total and transitive: what `sort` needs of the key comparison. */
  ghost predicate TotalPreorder<K(!new)>(le: (K, K) -> bool) {
    && (forall a, b :: le(a, b) || le(b, a))
    && (forall a, b, c :: le(a, b) && le(b, c) ==> le(a, c))
  }

  predicate SortedBy<T, K>(s: seq<T>, key: T -> K, le: (K, K) -> bool) {
    forall i, j :: 0 <= i < j < |s| ==> le(key(s[i]), key(s[j]))
  }

  /** The elements whose key is equivalent to `k`: the ones a stable sort
      must keep in their original relative order. */
  function SameKey<T, K>(key: T -> K, le: (K, K) -> bool, k: K): T -> bool {
    x => le(key(x), k) && le(k, key(x))
  }

  function IntLe(a: int, b: int): bool {
    a <= b
  }

  lemma IntLeIsTotalPreorder()
    ensures TotalPreorder(IntLe)
  {
  }

  /** Python's ordering of `str` values: code point by code point, a proper
      prefix before the longer string. */
  function LexLe(a: string, b: string): bool {
    if a == [] then true
    else if b == [] then false
    else a[0] < b[0] || (a[0] == b[0] && LexLe(a[1..], b[1..]))
  }

  lemma {:induction false} LexLeTotal(a: string, b: string)
    ensures LexLe(a, b) || LexLe(b, a)
  {
    if a != [] && b != [] && a[0] == b[0] {
      LexLeTotal(a[1..], b[1..]);
    }
  }

  lemma {:induction false} LexLeTransitive(a: string, b: string, c: string)
    requires LexLe(a, b) && LexLe(b, c)
    ensures LexLe(a, c)
  {
    if a != [] && b != [] && c != [] && a[0] == b[0] && b[0] == c[0] {
      LexLeTransitive(a[1..], b[1..], c[1..]);
    }
  }

  lemma LexLeIsTotalPreorder()
    ensures TotalPreorder(LexLe)
  {
    forall a, b ensures LexLe(a, b) || LexLe(b, a) {
      LexLeTotal(a, b);
    }
    forall a, b, c | LexLe(a, b) && LexLe(b, c) ensures LexLe(a, c) {
      LexLeTransitive(a, b, c);
    }
  }

  // ---------------------------------------------------------------------------
  // Stable insertion sort

  /** Places `x` after every leading element whose key is not greater than
      its own. */
  function InsertBy<T, K>(x: T, s: seq<T>, key: T -> K, le: (K, K) -> bool): (r: seq<T>)
    ensures |r| == |s| + 1
    ensures multiset(r) == multiset(s) + multiset{x}
  {
    if s == [] then [x]
    else if le(key(s[0]), key(x)) then
      assert s == [s[0]] + s[1..];
      [s[0]] + InsertBy(x, s[1..], key, le)
    else [x] + s
  }

  /** `sorted(s, key=key)`: each element in turn is inserted after the
      equal-keyed elements that came before it. */
  function SortBy<T, K>(s: seq<T>, key: T -> K, le: (K, K) -> bool): (r: seq<T>)
    ensures |r| == |s|
    ensures multiset(r) == multiset(s)
  {
    if s == [] then []
    else
      assert s == s[..|s| - 1] + [s[|s| - 1]];
      InsertBy(s[|s| - 1], SortBy(s[..|s| - 1], key, le), key, le)
  }

  lemma {:induction false} InsertKeepsSorted<T, K(!new)>(x: T, s: seq<T>, key: T -> K, le: (K, K) -> bool)
    requires TotalPreorder(le) && SortedBy(s, key, le)
    ensures SortedBy(InsertBy(x, s, key, le), key, le)
  {
    if s != [] && le(key(s[0]), key(x)) {
      assert SortedBy(s[1..], key, le);
      InsertKeepsSorted(x, s[1..], key, le);
      HeadBeforeInserted(x, s, key, le);
    } else if s != [] {
      FrontBeforeSorted(x, s, key, le);
    }
  }

  /** Every element of `s` has a key at or above `lo`. */
  predicate AllAbove<T, K>(s: seq<T>, key: T -> K, le: (K, K) -> bool, lo: K) {
    forall i :: 0 <= i < |s| ==> le(lo, key(s[i]))
  }

  /** Inserting an element at or above a bound keeps everything above it. */
  lemma {:induction false} InsertStaysAbove<T, K>(x: T, s: seq<T>, key: T -> K, le: (K, K) -> bool, lo: K)
    requires AllAbove(s, key, le, lo) && le(lo, key(x))
    ensures AllAbove(InsertBy(x, s, key, le), key, le, lo)
  {
    if s != [] && le(key(s[0]), key(x)) {
      var t := InsertBy(x, s[1..], key, le);
      assert AllAbove(s[1..], key, le, lo) by {
        forall i | 0 <= i < |s| - 1 ensures le(lo, key(s[1..][i])) {
          assert s[1..][i] == s[i + 1];
        }
      }
      InsertStaysAbove(x, s[1..], key, le, lo);
      var u := [s[0]] + t;
      assert InsertBy(x, s, key, le) == u;
      forall i | 0 <= i < |u| ensures le(lo, key(u[i])) {
        if i > 0 {
          assert u[i] == t[i - 1];
        }
      }
    } else if s != [] {
      var u := [x] + s;
      assert InsertBy(x, s, key, le) == u;
      forall i | 0 <= i < |u| ensures le(lo, key(u[i])) {
        if i > 0 {
          assert u[i] == s[i - 1];
        }
      }
    }
  }

  /** The head stays first: it is not above the rest of `s` nor above `x`. */
  lemma HeadBeforeInserted<T, K>(x: T, s: seq<T>, key: T -> K, le: (K, K) -> bool)
    requires SortedBy(s, key, le) && s != [] && le(key(s[0]), key(x))
    requires SortedBy(InsertBy(x, s[1..], key, le), key, le)
    ensures SortedBy(InsertBy(x, s, key, le), key, le)
  {
    var t := InsertBy(x, s[1..], key, le);
    assert AllAbove(s[1..], key, le, key(s[0])) by {
      forall i | 0 <= i < |s| - 1 ensures le(key(s[0]), key(s[1..][i])) {
        assert s[1..][i] == s[i + 1];
      }
    }
    InsertStaysAbove(x, s[1..], key, le, key(s[0]));
    var u := [s[0]] + t;
    assert InsertBy(x, s, key, le) == u;
    forall i, j | 0 <= i < j < |u| ensures le(key(u[i]), key(u[j])) {
      assert u[j] == t[j - 1];
      if i > 0 {
        assert u[i] == t[i - 1];
      }
    }
  }

  /** `x` goes first when the head's key is above its own, and with a total
      order it is then below every element of `s`. */
  lemma FrontBeforeSorted<T, K(!new)>(x: T, s: seq<T>, key: T -> K, le: (K, K) -> bool)
    requires TotalPreorder(le) && SortedBy(s, key, le)
    requires s != [] && !le(key(s[0]), key(x))
    ensures SortedBy(InsertBy(x, s, key, le), key, le)
  {
    var u := [x] + s;
    assert InsertBy(x, s, key, le) == u;
    assert le(key(x), key(s[0]));
    forall i, j | 0 <= i < j < |u| ensures le(key(u[i]), key(u[j])) {
      assert u[j] == s[j - 1];
      if i > 0 {
        assert u[i] == s[i - 1];
      } else if j > 1 {
        assert le(key(s[0]), key(s[j - 1]));
      }
    }
  }

  /** The result is ordered by key. */
  lemma {:induction false} SortByIsSorted<T, K(!new)>(s: seq<T>, key: T -> K, le: (K, K) -> bool)
    requires TotalPreorder(le)
    ensures SortedBy(SortBy(s, key, le), key, le)
  {
    if s != [] {
      SortByIsSorted(s[..|s| - 1], key, le);
      InsertKeepsSorted(s[|s| - 1], SortBy(s[..|s| - 1], key, le), key, le);
    }
  }

  lemma {:induction false} InsertIsStable<T(!new), K(!new)>(x: T, s: seq<T>, key: T -> K, le: (K, K) -> bool, k: K)
    requires TotalPreorder(le) && SortedBy(s, key, le)
    ensures Filter(InsertBy(x, s, key, le), SameKey(key, le, k))
         == Filter(s, SameKey(key, le, k)) + Filter([x], SameKey(key, le, k))
  {
    var p := SameKey(key, le, k);
    if s == [] {
    } else if le(key(s[0]), key(x)) {
      assert SortedBy(s[1..], key, le);
      InsertIsStable(x, s[1..], key, le, k);
      InsertAfterHead(x, s, key, le, p);
    } else {
      assert InsertBy(x, s, key, le) == [x] + s;
      FilterAppend([x], s, p);
      InsertFrontStable(x, s, key, le, k);
    }
  }

  /** When `x` goes after the head, the head's class keeps its place in front. */
  lemma InsertAfterHead<T(!new), K>(x: T, s: seq<T>, key: T -> K, le: (K, K) -> bool, p: T -> bool)
    requires s != [] && le(key(s[0]), key(x))
    requires Filter(InsertBy(x, s[1..], key, le), p) == Filter(s[1..], p) + Filter([x], p)
    ensures Filter(InsertBy(x, s, key, le), p) == Filter(s, p) + Filter([x], p)
  {
    var t := InsertBy(x, s[1..], key, le);
    assert InsertBy(x, s, key, le) == [s[0]] + t;
    assert [s[0]] + s[1..] == s;
    FilterConsBoth(s[0], s[1..], t, Filter([x], p), p);
  }

  /** A common head passes or fails the filter in both sequences alike. */
  lemma FilterConsBoth<T(!new)>(h: T, a: seq<T>, b: seq<T>, tail: seq<T>, p: T -> bool)
    requires Filter(b, p) == Filter(a, p) + tail
    ensures Filter([h] + b, p) == Filter([h] + a, p) + tail
  {
    FilterCons(h, a, p);
    FilterCons(h, b, p);
    ConcatAssoc(if p(h) then [h] else [], Filter(a, p), tail);
  }

  lemma ConcatAssoc<T>(a: seq<T>, b: seq<T>, c: seq<T>)
    ensures a + (b + c) == (a + b) + c
  {
  }

  lemma FilterCons<T(!new)>(h: T, t: seq<T>, p: T -> bool)
    ensures Filter([h] + t, p) == (if p(h) then [h] else []) + Filter(t, p)
  {
    assert ([h] + t)[0] == h && ([h] + t)[1..] == t;
  }

  /** When `x` goes in front, no element after it shares its key class. */
  lemma InsertFrontStable<T(!new), K(!new)>(x: T, s: seq<T>, key: T -> K, le: (K, K) -> bool, k: K)
    requires TotalPreorder(le) && SortedBy(s, key, le)
    requires s != [] && !le(key(s[0]), key(x))
    ensures Filter([x], SameKey(key, le, k)) + Filter(s, SameKey(key, le, k))
         == Filter(s, SameKey(key, le, k)) + Filter([x], SameKey(key, le, k))
  {
    var p := SameKey(key, le, k);
    assert [x][1..] == [];
    if p(x) {
      forall i | 0 <= i < |s| ensures !p(s[i]) {
        if i > 0 {
          assert le(key(s[0]), key(s[i]));
        }
      }
      FilterNone(s, p);
    } else {
      assert Filter([x], p) == [];
    }
  }

  /** Stability: the elements of each key class keep their input order. */
  lemma {:induction false} SortByIsStable<T(!new), K(!new)>(s: seq<T>, key: T -> K, le: (K, K) -> bool, k: K)
    requires TotalPreorder(le)
    ensures Filter(SortBy(s, key, le), SameKey(key, le, k)) == Filter(s, SameKey(key, le, k))
  {
    if s != [] {
      var init, last := s[..|s| - 1], s[|s| - 1];
      SortByIsStable(init, key, le, k);
      SortByIsSorted(init, key, le);
      InsertIsStable(last, SortBy(init, key, le), key, le, k);
      assert init + [last] == s;
      FilterAppend(init, [last], SameKey(key, le, k));
    }
  }
}
