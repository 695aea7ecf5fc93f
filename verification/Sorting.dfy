/** Sorting by a text key, as far as its outcome is determined. */
module Sorting {

  /** Lexicographic order. */
  predicate Less(a: string, b: string) {
    b != [] && (a == [] || a[0] < b[0] || (a[0] == b[0] && Less(a[1..], b[1..])))
  }

  /** The first difference decides, and a proper beginning comes first. */
  lemma {:induction false} LessExactly(a: string, b: string)
    ensures Less(a, b) <==>
            exists k :: 0 <= k <= |a| && k < |b| && a[..k] == b[..k] && (k == |a| || a[k] < b[k])
  {
    if a != [] && b != [] && a[0] == b[0] {
      LessExactly(a[1..], b[1..]);
      if k :| 0 <= k <= |a[1..]| && k < |b[1..]| && a[1..][..k] == b[1..][..k] && (k == |a[1..]| || a[1..][k] < b[1..][k]) {
        assert a[..k + 1] == [a[0]] + a[1..][..k] && b[..k + 1] == [b[0]] + b[1..][..k];
      }
      if k :| 0 <= k <= |a| && k < |b| && a[..k] == b[..k] && (k == |a| || a[k] < b[k]) {
        assert k > 0;
        assert a[1..][..k - 1] == a[..k][1..] && b[1..][..k - 1] == b[..k][1..];
      }
    } else {
      if Less(a, b) {
        assert a[..0] == b[..0];
      }
      if k :| 0 <= k <= |a| && k < |b| && a[..k] == b[..k] && (k == |a| || a[k] < b[k]) {
        SameHead(a, b, k);
      }
    }
  }

  lemma SameHead(a: string, b: string, k: nat)
    ensures 0 < k <= |a| && k <= |b| && a[..k] == b[..k] ==> a[0] == b[0]
  {
    if 0 < k <= |a| && k <= |b| && a[..k] == b[..k] {
      assert a[..k][0] == b[..k][0];
    }
  }

  lemma {:induction false} LessIrreflexive(a: string)
    ensures !Less(a, a)
  {
    if a != [] {
      LessIrreflexive(a[1..]);
    }
  }

  lemma {:induction false} LessTransitive(a: string, b: string, c: string)
    requires Less(a, b) && Less(b, c)
    ensures Less(a, c)
  {
    if a != [] && a[0] == b[0] == c[0] {
      LessTransitive(a[1..], b[1..], c[1..]);
    }
  }

  lemma {:induction false} LessTotal(a: string, b: string)
    ensures a == b || Less(a, b) || Less(b, a)
  {
    if a != [] && b != [] && a[0] == b[0] {
      LessTotal(a[1..], b[1..]);
      assert a == [a[0]] + a[1..] && b == [b[0]] + b[1..];
    }
  }

  /** No element has a smaller key than one before it. */
  ghost predicate Ascending<T>(key: T -> string, s: seq<T>) {
    forall i, j :: 0 <= i < j < |s| ==> !Less(key(s[j]), key(s[i]))
  }

  ghost predicate StrictlyAscending<T>(key: T -> string, s: seq<T>) {
    forall i, j :: 0 <= i < j < |s| ==> Less(key(s[i]), key(s[j]))
  }

  function Insert<T>(key: T -> string, x: T, s: seq<T>): seq<T> {
    if s == [] || !Less(key(s[0]), key(x)) then [x] + s else [s[0]] + Insert(key, x, s[1..])
  }

  function InsertionSort<T>(key: T -> string, s: seq<T>): seq<T> {
    if s == [] then [] else Insert(key, s[0], InsertionSort(key, s[1..]))
  }

  /** A sort by key. Nothing but this contract is used of it: elements with equal keys may come out in any
      order. */
  method Sort<T>(key: T -> string, s: seq<T>) returns (r: seq<T>)
    ensures Ascending(key, r) && multiset(r) == multiset(s)
  {
    InsertionSortSorts(key, s);
    r := InsertionSort(key, s);
  }

  lemma NotLessTransitive(a: string, b: string, c: string)
    requires !Less(b, a) && !Less(c, b)
    ensures !Less(c, a)
  {
    if Less(c, a) {
      LessTotal(a, b);
      if a == b {
      } else {
        LessTransitive(c, a, b);
      }
    }
  }

  lemma AscendingCons<T>(key: T -> string, x: T, s: seq<T>)
    requires Ascending(key, s) && (forall y :: y in s ==> !Less(key(y), key(x)))
    ensures Ascending(key, [x] + s)
  {
  }

  lemma AscendingHead<T>(key: T -> string, s: seq<T>)
    requires s != [] && Ascending(key, s)
    ensures Ascending(key, s[1..]) && forall y :: y in s ==> !Less(key(y), key(s[0]))
  {
    LessIrreflexive(key(s[0]));
  }

  lemma {:induction false} InsertSorts<T>(key: T -> string, x: T, s: seq<T>)
    requires Ascending(key, s)
    ensures Ascending(key, Insert(key, x, s))
    ensures multiset(Insert(key, x, s)) == multiset{x} + multiset(s)
    decreases |s|
  {
    if s == [] {
    } else if !Less(key(s[0]), key(x)) {
      AscendingHead(key, s);
      forall y | y in s
        ensures !Less(key(y), key(x))
      {
        NotLessTransitive(key(x), key(s[0]), key(y));
      }
      AscendingCons(key, x, s);
    } else {
      AscendingHead(key, s);
      InsertSorts(key, x, s[1..]);
      var tail := Insert(key, x, s[1..]);
      forall y | y in tail
        ensures !Less(key(y), key(s[0]))
      {
        assert y in multiset(tail);
        assert y == x || y in s[1..];
        if y == x && Less(key(x), key(s[0])) {
          LessTransitive(key(x), key(s[0]), key(x));
          LessIrreflexive(key(x));
        }
      }
      AscendingCons(key, s[0], tail);
      assert s == [s[0]] + s[1..];
    }
  }

  lemma {:induction false} InsertionSortSorts<T>(key: T -> string, s: seq<T>)
    ensures Ascending(key, InsertionSort(key, s)) && multiset(InsertionSort(key, s)) == multiset(s)
    decreases |s|
  {
    if s != [] {
      InsertionSortSorts(key, s[1..]);
      InsertSorts(key, s[0], InsertionSort(key, s[1..]));
      assert s == [s[0]] + s[1..];
    }
  }

  /** When the key determines the element, the outcome of the sort is unique. */
  lemma {:induction false} SortUnique<T>(key: T -> string, a: seq<T>, b: seq<T>)
    requires Ascending(key, a) && Ascending(key, b) && multiset(a) == multiset(b)
    requires forall x, y :: x in a && y in a && key(x) == key(y) ==> x == y
    ensures a == b
    decreases |a|
  {
    hide Ascending, Less;
    SameMultiset(a, b);
    if a != [] {
      var x, y := a[0], b[0];
      AscendingHead(key, a);
      AscendingHead(key, b);
      assert y in a && x in b;
      LessTotal(key(x), key(y));
      assert x == y;
      WithoutHead(a);
      WithoutHead(b);
      SortUnique(key, a[1..], b[1..]);
    }
  }

  lemma SameMultiset<T>(a: seq<T>, b: seq<T>)
    requires multiset(a) == multiset(b)
    ensures |a| == |b| && forall x :: x in a <==> x in b
  {
    assert |multiset(a)| == |a| && |multiset(b)| == |b|;
    assert forall x :: (x in a <==> x in multiset(a)) && (x in b <==> x in multiset(b));
  }

  lemma Without<T>(a: seq<T>, x: T) returns (a': seq<T>)
    requires x in a
    ensures |a'| == |a| - 1 && multiset(a) == multiset{x} + multiset(a')
    ensures forall y :: y in a && y != x ==> y in a'
  {
    var k :| 0 <= k < |a| && a[k] == x;
    a' := a[..k] + a[k + 1..];
    assert a == a[..k] + [x] + a[k + 1..];
  }

  lemma {:induction false} PigeonHole<T>(a: seq<T>, b: seq<T>)
    requires |a| == |b| && (forall x :: x in b ==> x in a)
    requires forall i, j :: 0 <= i < j < |b| ==> b[i] != b[j]
    ensures multiset(a) == multiset(b)
    decreases |b|
  {
    if b != [] {
      var x, rest := b[0], b[1..];
      assert x in b;
      var a' := Without(a, x);
      forall y | y in rest
        ensures y in a'
      {
        assert y in b && y != x;
      }
      PigeonHole(a', rest);
      assert b == [x] + rest;
    } else {
      assert a == [];
    }
  }

  lemma WithoutHead<T>(s: seq<T>)
    requires s != []
    ensures s == [s[0]] + s[1..] && multiset(s[1..]) == multiset(s) - multiset{s[0]}
  {
    assert s == [s[0]] + s[1..];
  }

  ghost predicate NoDuplicates<T>(s: seq<T>) {
    forall i, j :: 0 <= i < j < |s| ==> s[i] != s[j]
  }

  lemma {:induction false} CountOnce<T>(s: seq<T>, x: T)
    requires NoDuplicates(s)
    ensures multiset(s)[x] == if x in s then 1 else 0
    decreases |s|
  {
    if s != [] {
      CountOnce(s[1..], x);
      assert s == [s[0]] + s[1..];
      assert s[0] !in s[1..];
    }
  }

  lemma SameElements<T>(a: seq<T>, b: seq<T>)
    requires NoDuplicates(a) && NoDuplicates(b) && forall x :: x in a <==> x in b
    ensures multiset(a) == multiset(b)
  {
    forall x
      ensures multiset(a)[x] == multiset(b)[x]
    {
      CountOnce(a, x);
      CountOnce(b, x);
    }
  }

  /** Sorting elements with distinct keys leaves them strictly ascending. */
  lemma DistinctKeysStrict<T>(key: T -> string, r: seq<T>, s: seq<T>)
    requires Ascending(key, r) && multiset(r) == multiset(s)
    requires forall i, j :: 0 <= i < j < |s| ==> key(s[i]) != key(s[j])
    ensures StrictlyAscending(key, r)
  {
    forall i, j | 0 <= i < j < |r|
      ensures Less(key(r[i]), key(r[j]))
    {
      LessTotal(key(r[i]), key(r[j]));
      if key(r[i]) == key(r[j]) {
        SameKeyTwice(key, s, r, i, j);
      }
    }
  }

  lemma SameKeyTwice<T>(key: T -> string, s: seq<T>, r: seq<T>, i: nat, j: nat)
    requires multiset(r) == multiset(s) && i < j < |r| && key(r[i]) == key(r[j])
    ensures exists k, l :: 0 <= k < l < |s| && key(s[k]) == key(s[l])
  {
    assert r[i] in multiset(s) && r[j] in multiset(s);
    if r[i] == r[j] {
      if NoDuplicates(s) {
        CountOnce(s, r[i]);
        Twice(r, i, j);
      }
      var k, l :| 0 <= k < l < |s| && s[k] == s[l];
      assert key(s[k]) == key(s[l]);
    } else {
      var k :| 0 <= k < |s| && s[k] == r[i];
      var l :| 0 <= l < |s| && s[l] == r[j];
      assert key(s[k]) == key(s[l]);
      if l < k {
        assert key(s[l]) == key(s[k]);
      }
    }
  }

  lemma Twice<T>(r: seq<T>, i: nat, j: nat)
    requires i < j < |r| && r[i] == r[j]
    ensures multiset(r)[r[i]] >= 2
  {
    assert r == r[..j] + r[j..];
    assert r[..j][i] == r[i] && r[j..][0] == r[j];
    assert r[i] in multiset(r[..j]) && r[i] in multiset(r[j..]);
  }
}
