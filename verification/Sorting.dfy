/** Sorting by an integer key: what the library sorts that the sources call guarantee. */
module Sorting {

  predicate Ordered<T>(s: seq<T>, key: T -> int) {
    forall i, j :: 0 <= i < j < |s| ==> key(s[i]) <= key(s[j])
  }

  function InsertAt<T>(s: seq<T>, i: nat, x: T): (r: seq<T>)
    requires i <= |s|
    ensures |r| == |s| + 1
    ensures forall k :: 0 <= k < |r| ==> r[k] == if k < i then s[k] else if k == i then x else s[k - 1]
  {
    s[..i] + [x] + s[i..]
  }

  lemma {:induction false} InsertOrdered<T>(s: seq<T>, i: nat, x: T, key: T -> int)
    requires Ordered(s, key) && i <= |s|
    requires forall j :: 0 <= j < i ==> key(s[j]) <= key(x)
    requires forall j :: i <= j < |s| ==> key(s[j]) > key(x)
    ensures Ordered(InsertAt(s, i, x), key)
  {
    var r := InsertAt(s, i, x);
    forall a, b | 0 <= a < b < |r| ensures key(r[a]) <= key(r[b]) {
      var a' := if a < i then a else a - 1;
      var b' := if b < i then b else b - 1;
      if a != i && b != i {
        assert r[a] == s[a'] && r[b] == s[b'];
      }
    }
  }

  lemma {:induction false} InsertMultiset<T>(s: seq<T>, i: nat, x: T)
    requires i <= |s|
    ensures multiset(InsertAt(s, i, x)) == multiset(s) + multiset{x}
  {
    assert s == s[..i] + s[i..];
  }

  lemma {:induction false} RemoveMultiset<T>(s: seq<T>, j: nat)
    requires j < |s|
    ensures multiset(s) == multiset(s[..j] + s[j + 1..]) + multiset{s[j]}
  {
    assert s == s[..j] + [s[j]] + s[j + 1..];
  }

  method Insert<T>(s: seq<T>, x: T, key: T -> int) returns (r: seq<T>)
    requires Ordered(s, key)
    ensures Ordered(r, key) && multiset(r) == multiset(s) + multiset{x}
  {
    var i := |s|;
    while i > 0 && key(s[i - 1]) > key(x)
      invariant 0 <= i <= |s|
      invariant forall j :: i <= j < |s| ==> key(s[j]) > key(x)
    {
      i := i - 1;
    }
    assert i == 0 || forall j :: 0 <= j < i ==> key(s[j]) <= key(s[i - 1]);
    InsertOrdered(s, i, x, key);
    InsertMultiset(s, i, x);
    r := InsertAt(s, i, x);
  }

  method SortByKey<T>(s: seq<T>, key: T -> int) returns (r: seq<T>)
    ensures Ordered(r, key) && multiset(r) == multiset(s)
  {
    r := [];
    for n := 0 to |s|
      invariant Ordered(r, key) && multiset(r) == multiset(s[..n])
    {
      assert s[..n + 1] == s[..n] + [s[n]];
      r := Insert(r, s[n], key);
    }
    assert s[..|s|] == s;
  }
}
