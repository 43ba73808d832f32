/**
 `list.sort(key=..., reverse=True)`: a stable sort into descending key order.
 Python's documentation promises that `reverse=True` keeps records with equal
 keys in their original order; the model is an insertion sort that has that
 property, specified independently of how it is computed (a permutation, in
 descending order, with every run of equal keys in input order).
 */
module StableSort {

  /** The elements of `s` whose key is `v`, in their order in `s`. */
  function Only<T>(s: seq<T>, key: T -> int, v: int): (r: seq<T>)
    ensures |r| <= |s|
  {
    if s == [] then []
    else (if key(s[0]) == v then [s[0]] else []) + Only(s[1..], key, v)
  }

  ghost predicate SortedDesc<T>(s: seq<T>, key: T -> int) {
    forall i, j :: 0 <= i < j < |s| ==> key(s[i]) >= key(s[j])
  }

  /** Inserts `x` after every element whose key is at least `key(x)`. */
  function Insert<T>(t: seq<T>, x: T, key: T -> int): (r: seq<T>)
    ensures |r| == |t| + 1
  {
    if t == [] || key(t[0]) < key(x) then [x] + t
    else [t[0]] + Insert(t[1..], x, key)
  }

  /** Insertion adds `x` and loses nothing. */
  lemma {:induction false} InsertPerm<T>(t: seq<T>, x: T, key: T -> int)
    ensures multiset(Insert(t, x, key)) == multiset(t) + multiset{x}
    decreases |t|
  {
    if t != [] && key(t[0]) >= key(x) {
      InsertPerm(t[1..], x, key);
      var rest := Insert(t[1..], x, key);
      assert Insert(t, x, key) == [t[0]] + rest;
      assert multiset([t[0]] + rest) == multiset([t[0]]) + multiset(rest);
      assert t == [t[0]] + t[1..];
      assert multiset(t) == multiset([t[0]]) + multiset(t[1..]);
    }
  }

  /** Stable descending sort: each element in input order is inserted behind
      the ones already placed with an equal or larger key. */
  function SortDesc<T>(s: seq<T>, key: T -> int): (r: seq<T>)
    ensures multiset(r) == multiset(s)
    ensures |r| == |s|
    ensures SortedDesc(r, key)
  {
    if s == [] then []
    else
      var t := SortDesc(s[..|s| - 1], key);
      SortDescStep(s, t, key);
      Insert(t, s[|s| - 1], key)
  }

  /** Inserting the last element into the sorted prefix sorts the whole. */
  lemma SortDescStep<T>(s: seq<T>, t: seq<T>, key: T -> int)
    requires s != []
    requires multiset(t) == multiset(s[..|s| - 1]) && SortedDesc(t, key)
    ensures var r := Insert(t, s[|s| - 1], key);
      multiset(r) == multiset(s) && SortedDesc(r, key) && |r| == |s|
  {
    InsertSorted(t, s[|s| - 1], key);
    InsertPerm(t, s[|s| - 1], key);
    assert s == s[..|s| - 1] + [s[|s| - 1]];
    var r := Insert(t, s[|s| - 1], key);
    assert |r| == |multiset(r)|;
  }

  lemma {:induction false} InsertSorted<T>(t: seq<T>, x: T, key: T -> int)
    requires SortedDesc(t, key)
    ensures SortedDesc(Insert(t, x, key), key)
    ensures |Insert(t, x, key)| > 0 && Insert(t, x, key)[0] in multiset(t) + multiset{x}
    decreases |t|
  {
    var r := Insert(t, x, key);
    InsertPerm(t, x, key);
    assert r[0] in multiset(r);
    if t != [] && key(t[0]) >= key(x) {
      SortedTail(t, key);
      InsertSorted(t[1..], x, key);
      InsertPerm(t[1..], x, key);
      var rest := Insert(t[1..], x, key);
      assert r == [t[0]] + rest;
      forall j | 0 <= j < |rest| ensures key(t[0]) >= key(rest[j]) {
        assert rest[j] in multiset(rest);
        assert rest[j] in multiset(t[1..]) + multiset{x};
        if rest[j] != x {
          assert rest[j] in t[1..];
        }
      }
    }
  }

  lemma {:induction false} OnlyAppend<T>(a: seq<T>, b: seq<T>, key: T -> int, v: int)
    ensures Only(a + b, key, v) == Only(a, key, v) + Only(b, key, v)
  {
    if a == [] {
      assert a + b == b;
    } else {
      var h := if key(a[0]) == v then [a[0]] else [];
      assert (a + b)[0] == a[0];
      assert (a + b)[1..] == a[1..] + b;
      OnlyAppend(a[1..], b, key, v);
      assert Only(a + b, key, v) == h + Only(a[1..] + b, key, v);
      assert h + (Only(a[1..], key, v) + Only(b, key, v)) == (h + Only(a[1..], key, v)) + Only(b, key, v);
    }
  }

  /** `[x]` when `x` has key `v`, else nothing. */
  function OnlyOne<T>(x: T, key: T -> int, v: int): seq<T> {
    if key(x) == v then [x] else []
  }

  /** Inserting `x` into a sorted sequence puts it behind every element with
      the same key. */
  lemma {:induction false} InsertOnly<T>(t: seq<T>, x: T, key: T -> int, v: int)
    requires SortedDesc(t, key)
    ensures Only(Insert(t, x, key), key, v) == Only(t, key, v) + OnlyOne(x, key, v)
    decreases |t|
  {
    if t == [] || key(t[0]) < key(x) {
      InsertOnlyFront(t, x, key, v);
    } else {
      SortedTail(t, key);
      InsertOnly(t[1..], x, key, v);
      InsertOnlyBehind(t, x, key, v);
    }
  }

  lemma SortedTail<T>(t: seq<T>, key: T -> int)
    requires t != [] && SortedDesc(t, key)
    ensures SortedDesc(t[1..], key)
  {
    forall i, j | 0 <= i < j < |t[1..]| ensures key(t[1..][i]) >= key(t[1..][j]) {
      assert t[1..][i] == t[i + 1] && t[1..][j] == t[j + 1];
    }
  }

  /** `x` goes in front: no element with its key can come before it. */
  lemma InsertOnlyFront<T>(t: seq<T>, x: T, key: T -> int, v: int)
    requires SortedDesc(t, key)
    requires t == [] || key(t[0]) < key(x)
    ensures Only(Insert(t, x, key), key, v) == Only(t, key, v) + OnlyOne(x, key, v)
  {
    assert Insert(t, x, key) == [x] + t;
    OnlyAppend([x], t, key, v);
    assert Only([x], key, v) == OnlyOne(x, key, v) + Only([x][1..], key, v);
    if key(x) == v && t != [] {
      NoneAbove(t, key, v);
    }
  }

  /** `x` goes behind the head: the head's contribution comes first. */
  lemma InsertOnlyBehind<T>(t: seq<T>, x: T, key: T -> int, v: int)
    requires t != [] && key(t[0]) >= key(x)
    requires Only(Insert(t[1..], x, key), key, v) == Only(t[1..], key, v) + OnlyOne(x, key, v)
    ensures Only(Insert(t, x, key), key, v) == Only(t, key, v) + OnlyOne(x, key, v)
  {
    var rest := Insert(t[1..], x, key);
    var h := [t[0]];
    assert Insert(t, x, key) == h + rest;
    OnlyAppend(h, rest, key, v);
    assert t == h + t[1..];
    OnlyAppend(h, t[1..], key, v);
    Regroup(Only(h, key, v), Only(t[1..], key, v), OnlyOne(x, key, v));
  }

  lemma Regroup<T>(a: seq<T>, b: seq<T>, c: seq<T>)
    ensures a + (b + c) == (a + b) + c
  {
  }

  /** A sorted sequence headed by a key below `v` holds no element with key `v`. */
  lemma {:induction false} NoneAbove<T>(t: seq<T>, key: T -> int, v: int)
    requires SortedDesc(t, key)
    requires t != [] && key(t[0]) < v
    ensures Only(t, key, v) == []
    decreases |t|
  {
    if |t| > 1 {
      assert key(t[1]) <= key(t[0]);
      NoneAbove(t[1..], key, v);
    }
  }

  /** Stability: for every key, the elements with that key appear in the sorted
      result in the same order as in the input. */
  lemma {:induction false} SortDescStable<T>(s: seq<T>, key: T -> int, v: int)
    ensures Only(SortDesc(s, key), key, v) == Only(s, key, v)
    decreases |s|
  {
    if s != [] {
      var init := s[..|s| - 1];
      var x := s[|s| - 1];
      SortDescStable(init, key, v);
      InsertOnly(SortDesc(init, key), x, key, v);
      assert OnlyOne(x, key, v) == Only([x], key, v);
      assert s == init + [x];
      OnlyAppend(init, [x], key, v);
    }
  }

  /** The index of the first element with the largest key. */
  function FirstMaxIndex<T>(s: seq<T>, key: T -> int): (m: nat)
    requires |s| > 0
    ensures m < |s|
    ensures forall j :: 0 <= j < |s| ==> key(s[j]) <= key(s[m])
    ensures forall j :: 0 <= j < m ==> key(s[j]) < key(s[m])
  {
    if |s| == 1 then 0
    else
      var m := FirstMaxIndex(s[..|s| - 1], key);
      assert forall j :: 0 <= j < |s| - 1 ==> s[j] == s[..|s| - 1][j];
      if key(s[|s| - 1]) > key(s[m]) then |s| - 1 else m
  }

  lemma {:induction false} OnlyFirst<T>(s: seq<T>, key: T -> int, v: int, m: nat)
    requires m < |s| && key(s[m]) == v
    requires forall j :: 0 <= j < m ==> key(s[j]) != v
    ensures |Only(s, key, v)| > 0 && Only(s, key, v)[0] == s[m]
    decreases m
  {
    if m > 0 {
      assert key(s[0]) != v;
      OnlyFirst(s[1..], key, v, m - 1);
    }
  }

  /** The head of a sorted permutation carries the largest key. */
  lemma SortDescHeadKey<T>(s: seq<T>, key: T -> int)
    requires |s| > 0
    ensures key(SortDesc(s, key)[0]) == key(s[FirstMaxIndex(s, key)])
  {
    var r := SortDesc(s, key);
    var m := FirstMaxIndex(s, key);
    assert r[0] in multiset(s);
    assert s[m] in multiset(r);
    BelowFirstMax(s, key, r[0]);
    BelowHead(r, key, s[m]);
  }

  /** No element of `s` has a key above the one `FirstMaxIndex` picks. */
  lemma BelowFirstMax<T>(s: seq<T>, key: T -> int, x: T)
    requires |s| > 0 && x in s
    ensures key(x) <= key(s[FirstMaxIndex(s, key)])
  {
    var q :| 0 <= q < |s| && s[q] == x;
  }

  /** No element of a sorted sequence has a key above its head's. */
  lemma BelowHead<T>(r: seq<T>, key: T -> int, x: T)
    requires SortedDesc(r, key) && |r| > 0 && x in r
    ensures key(x) <= key(r[0])
  {
    var p :| 0 <= p < |r| && r[p] == x;
    if p > 0 {
      assert key(r[0]) >= key(r[p]);
    }
  }

  /** The head of the stable descending sort is the first element, in input
      order, among those with the largest key. */
  lemma SortDescHead<T>(s: seq<T>, key: T -> int)
    requires |s| > 0
    ensures SortDesc(s, key)[0] == s[FirstMaxIndex(s, key)]
  {
    var r := SortDesc(s, key);
    var m := FirstMaxIndex(s, key);
    var v := key(s[m]);
    SortDescHeadKey(s, key);
    OnlyFirst(r, key, v, 0);
    OnlyFirst(s, key, v, m);
    SortDescStable(s, key, v);
  }

  /** Everything but the head of the sort: all elements except the first one
      with the largest key. */
  lemma SortDescTail<T>(s: seq<T>, key: T -> int)
    requires |s| > 0
    ensures multiset(SortDesc(s, key)[1..]) == multiset(s) - multiset{s[FirstMaxIndex(s, key)]}
  {
    var r := SortDesc(s, key);
    SortDescHead(s, key);
    assert r == [r[0]] + r[1..];
    assert multiset(r) == multiset{r[0]} + multiset(r[1..]);
  }
}
