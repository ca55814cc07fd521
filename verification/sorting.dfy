/** Python's `list.sort(key=..., reverse=...)`: a stable sort. Elements whose
    keys are equal keep their input order, in both directions. Keys are the
    values the program sorts by: integers, datetimes and strings, each kind
    ordered as Python orders it (strings by code point, lexicographically). */
module Sorting {

  datatype Key = IntKey(i: int) | DateKey(instant: int) | StrKey(s: string)

  /** Python's `a <= b` on strings. */
  predicate StrLe(a: string, b: string)
    decreases |a|
  {
    |a| == 0 || (|b| > 0 && (a[0] < b[0] || (a[0] == b[0] && StrLe(a[1..], b[1..]))))
  }

  function Rank(k: Key): nat {
    match k
    case IntKey(_) => 0
    case DateKey(_) => 1
    case StrKey(_) => 2
  }

  /** A total order on keys: within a kind as Python orders it; kinds apart
      by rank (the program never compares keys of different kinds: see
      `Build.SortListing`). */
  predicate KeyLe(a: Key, b: Key) {
    if Rank(a) != Rank(b) then Rank(a) < Rank(b)
    else match (a, b)
      case (IntKey(x), IntKey(y)) => x <= y
      case (DateKey(x), DateKey(y)) => x <= y
      case (StrKey(x), StrKey(y)) => StrLe(x, y)
      case _ => false
  }

  lemma {:induction false} StrLeTotal(a: string, b: string)
    ensures StrLe(a, b) || StrLe(b, a)
    decreases |a|
  {
    if |a| > 0 && |b| > 0 && a[0] == b[0] {
      StrLeTotal(a[1..], b[1..]);
    }
  }

  lemma {:induction false} StrLeTransitive(a: string, b: string, c: string)
    requires StrLe(a, b) && StrLe(b, c)
    ensures StrLe(a, c)
    decreases |a|
  {
    if |a| > 0 && a[0] == b[0] && b[0] == c[0] {
      StrLeTransitive(a[1..], b[1..], c[1..]);
    }
  }

  lemma {:induction false} StrLeAntisymmetric(a: string, b: string)
    requires StrLe(a, b) && StrLe(b, a)
    ensures a == b
    decreases |a|
  {
    if |a| > 0 {
      StrLeAntisymmetric(a[1..], b[1..]);
      assert a == [a[0]] + a[1..];
      assert b == [b[0]] + b[1..];
    }
  }

  /** `KeyLe` is a total order: total, transitive and antisymmetric. */
  lemma KeyLeTotalOrder(a: Key, b: Key, c: Key)
    ensures KeyLe(a, b) || KeyLe(b, a)
    ensures KeyLe(a, b) && KeyLe(b, c) ==> KeyLe(a, c)
    ensures KeyLe(a, b) && KeyLe(b, a) ==> a == b
  {
    if a.StrKey? && b.StrKey? {
      StrLeTotal(a.s, b.s);
      if StrLe(a.s, b.s) && StrLe(b.s, a.s) {
        StrLeAntisymmetric(a.s, b.s);
      }
    }
    if a.StrKey? && b.StrKey? && c.StrKey? && StrLe(a.s, b.s) && StrLe(b.s, c.s) {
      StrLeTransitive(a.s, b.s, c.s);
    }
  }

  /** Whether key `a` may stand before key `b` in a list sorted ascending
      (`desc` false) or with `reverse=True` (`desc` true). */
  predicate Precedes(a: Key, b: Key, desc: bool) {
    if desc then KeyLe(b, a) else KeyLe(a, b)
  }

  ghost predicate Sorted<T>(s: seq<T>, key: T -> Key, desc: bool) {
    forall i, j :: 0 <= i < j < |s| ==> Precedes(key(s[i]), key(s[j]), desc)
  }

  /** The elements of `s` whose key is `k`, in order. */
  function WithKey<T>(s: seq<T>, key: T -> Key, k: Key): seq<T> {
    if |s| == 0 then []
    else (if key(s[0]) == k then [s[0]] else []) + WithKey(s[1..], key, k)
  }

  /** Puts `x` before the first element it may precede. */
  function Insert<T>(x: T, s: seq<T>, key: T -> Key, desc: bool): seq<T>
    decreases |s|
  {
    if |s| == 0 then [x]
    else if Precedes(key(x), key(s[0]), desc) then [x] + s
    else [s[0]] + Insert(x, s[1..], key, desc)
  }

  lemma {:induction false} InsertPermutes<T>(x: T, s: seq<T>, key: T -> Key, desc: bool)
    ensures multiset(Insert(x, s, key, desc)) == multiset(s) + multiset{x}
    decreases |s|
  {
    if |s| > 0 && !Precedes(key(x), key(s[0]), desc) {
      InsertPermutes(x, s[1..], key, desc);
      assert s == [s[0]] + s[1..];
    }
  }

  lemma PrecedesTotal(a: Key, b: Key, desc: bool)
    ensures Precedes(a, b, desc) || Precedes(b, a, desc)
  {
    KeyLeTotalOrder(a, b, a);
  }

  lemma PrecedesTransitive(a: Key, b: Key, c: Key, desc: bool)
    requires Precedes(a, b, desc) && Precedes(b, c, desc)
    ensures Precedes(a, c, desc)
  {
    if desc {
      KeyLeTotalOrder(c, b, a);
    } else {
      KeyLeTotalOrder(a, b, c);
    }
  }

  /** Every element of `Insert(x, s)` is `x` or an element of `s`. */
  lemma {:induction false} InsertElements<T>(x: T, s: seq<T>, key: T -> Key, desc: bool)
    ensures forall y :: y in Insert(x, s, key, desc) ==> y == x || y in s
    decreases |s|
  {
    if |s| > 0 && !Precedes(key(x), key(s[0]), desc) {
      InsertElements(x, s[1..], key, desc);
      assert Insert(x, s, key, desc) == [s[0]] + Insert(x, s[1..], key, desc);
    }
  }

  lemma {:induction false} InsertSorted<T>(x: T, s: seq<T>, key: T -> Key, desc: bool)
    requires Sorted(s, key, desc)
    ensures Sorted(Insert(x, s, key, desc), key, desc)
    decreases |s|
  {
    if |s| == 0 {
    } else if Precedes(key(x), key(s[0]), desc) {
      var r := [x] + s;
      assert Insert(x, s, key, desc) == r;
      forall i, j | 0 <= i < j < |r|
        ensures Precedes(key(r[i]), key(r[j]), desc)
      {
        if i == 0 && j > 1 {
          PrecedesTransitive(key(x), key(s[0]), key(s[j - 1]), desc);
        } else if i > 0 {
          assert r[i] == s[i - 1] && r[j] == s[j - 1];
        }
      }
    } else {
      var rest := Insert(x, s[1..], key, desc);
      var r := [s[0]] + rest;
      assert Insert(x, s, key, desc) == r;
      InsertSorted(x, s[1..], key, desc);
      InsertElements(x, s[1..], key, desc);
      PrecedesTotal(key(x), key(s[0]), desc);
      forall i, j | 0 <= i < j < |r|
        ensures Precedes(key(r[i]), key(r[j]), desc)
      {
        if i == 0 {
          var y := rest[j - 1];
          assert r[j] == y;
          assert y in rest;
          if y != x {
            assert y in s[1..];
            var m :| 0 <= m < |s[1..]| && s[1..][m] == y;
            assert s[m + 1] == y;
          }
        } else {
          assert r[i] == rest[i - 1] && r[j] == rest[j - 1];
        }
      }
    }
  }

  lemma {:induction false} StrLeReflexive(a: string)
    ensures StrLe(a, a)
    decreases |a|
  {
    if |a| > 0 {
      StrLeReflexive(a[1..]);
    }
  }

  /** A key may always precede an equal key. */
  lemma PrecedesReflexive(a: Key, desc: bool)
    ensures Precedes(a, a, desc)
  {
    if a.StrKey? {
      StrLeReflexive(a.s);
    }
  }

  /** The elements with key `k` of `[y] + t`. */
  lemma WithKeyCons<T>(y: T, t: seq<T>, key: T -> Key, k: Key)
    ensures WithKey([y] + t, key, k) == (if key(y) == k then [y] else []) + WithKey(t, key, k)
  {
    assert ([y] + t)[1..] == t;
  }

  lemma {:induction false} InsertWithKey<T>(x: T, s: seq<T>, key: T -> Key, desc: bool, k: Key)
    ensures WithKey(Insert(x, s, key, desc), key, k) == (if key(x) == k then [x] else []) + WithKey(s, key, k)
    decreases |s|
  {
    if |s| == 0 || Precedes(key(x), key(s[0]), desc) {
      assert Insert(x, s, key, desc) == [x] + s;
      WithKeyCons(x, s, key, k);
    } else {
      var rest := Insert(x, s[1..], key, desc);
      assert Insert(x, s, key, desc) == [s[0]] + rest;
      InsertWithKey(x, s[1..], key, desc, k);
      if key(s[0]) == key(x) {
        PrecedesReflexive(key(x), desc);
      }
      InsertWithKeyStep(x, s[0], s[1..], rest, key, k);
    }
  }

  /** The step of `InsertWithKey` where `x` goes after `y`, whose key differs. */
  lemma InsertWithKeyStep<T>(x: T, y: T, t: seq<T>, rest: seq<T>, key: T -> Key, k: Key)
    requires key(y) != key(x)
    requires WithKey(rest, key, k) == (if key(x) == k then [x] else []) + WithKey(t, key, k)
    ensures WithKey([y] + rest, key, k) == (if key(x) == k then [x] else []) + WithKey([y] + t, key, k)
  {
    WithKeyCons(y, rest, key, k);
    WithKeyCons(y, t, key, k);
    if key(y) == k {
      assert key(x) != k;
    }
  }

  /** Python's stable `sorted(s, key=key, reverse=desc)`: a permutation of
      `s`, ordered by key, in which equal keys keep their input order. */
  function Sort<T>(s: seq<T>, key: T -> Key, desc: bool): (r: seq<T>)
    ensures multiset(r) == multiset(s)
    ensures |r| == |s|
    ensures Sorted(r, key, desc)
    ensures forall k :: WithKey(r, key, k) == WithKey(s, key, k)
    decreases |s|
  {
    if |s| == 0 then []
    else
      assert s == [s[0]] + s[1..];
      var sorted := Sort(s[1..], key, desc);
      var r := Insert(s[0], sorted, key, desc);
      InsertSorted(s[0], sorted, key, desc);
      InsertPermutes(s[0], sorted, key, desc);
      assert forall k :: WithKey(r, key, k) == WithKey(s, key, k) by {
        forall k
          ensures WithKey(r, key, k) == WithKey(s, key, k)
        {
          InsertWithKey(s[0], sorted, key, desc, k);
        }
      }
      assert |r| == |multiset(r)|;
      r
  }
}
