/**
 The stable sort the backend relies on: Python's `sorted` and `list.sort` with an
 integer key. The elements are inserted from last to first, each before the
 elements whose key is not smaller.
 */
module StableOrder {

  function Insert<T>(x: T, s: seq<T>, key: T -> int): seq<T> {
    if s == [] || key(x) <= key(s[0]) then [x] + s else [s[0]] + Insert(x, s[1..], key)
  }

  function SortBy<T>(s: seq<T>, key: T -> int): seq<T> {
    if s == [] then [] else Insert(s[0], SortBy(s[1..], key), key)
  }

  ghost predicate SortedBy<T>(s: seq<T>, key: T -> int) {
    forall i, j :: 0 <= i < j < |s| ==> key(s[i]) <= key(s[j])
  }

  lemma {:induction false} InsertIsSorted<T>(x: T, s: seq<T>, key: T -> int)
    requires SortedBy(s, key)
    ensures SortedBy(Insert(x, s, key), key)
    ensures multiset(Insert(x, s, key)) == multiset{x} + multiset(s)
  {
    if s == [] || key(x) <= key(s[0]) {
      SortedCons(x, s, key);
    } else {
      var t := Insert(x, s[1..], key);
      InsertIsSorted(x, s[1..], key);
      assert s == [s[0]] + s[1..];
      forall j | 0 <= j < |t|
        ensures key(s[0]) <= key(t[j])
      {
        assert t[j] in multiset(t);
        assert t[j] == x || t[j] in s[1..];
      }
      SortedCons(s[0], t, key);
    }
  }

  lemma SortedCons<T>(x: T, t: seq<T>, key: T -> int)
    requires SortedBy(t, key)
    requires forall j :: 0 <= j < |t| ==> key(x) <= key(t[j])
    ensures SortedBy([x] + t, key)
  {
    var r := [x] + t;
    forall i, j | 0 <= i < j < |r|
      ensures key(r[i]) <= key(r[j])
    {
      assert r[j] == t[j - 1];
      if i > 0 {
        assert r[i] == t[i - 1];
      }
    }
  }

  // Sorting yields a sorted permutation of its input.
  lemma {:induction false} SortByIsSorted<T>(s: seq<T>, key: T -> int)
    ensures SortedBy(SortBy(s, key), key)
    ensures multiset(SortBy(s, key)) == multiset(s)
    ensures |SortBy(s, key)| == |s|
  {
    if s != [] {
      SortByIsSorted(s[1..], key);
      InsertIsSorted(s[0], SortBy(s[1..], key), key);
      assert s == [s[0]] + s[1..];
    }
    assert |multiset(SortBy(s, key))| == |multiset(s)|;
  }

  function Only<T>(s: seq<T>, keep: T -> bool): seq<T> {
    if s == [] then [] else (if keep(s[0]) then [s[0]] else []) + Only(s[1..], keep)
  }

  lemma {:induction false} OnlyIsFilter<T>(s: seq<T>, keep: T -> bool)
    ensures forall x :: x in Only(s, keep) <==> x in s && keep(x)
  {
    if s != [] {
      OnlyIsFilter(s[1..], keep);
    }
  }

  lemma {:induction false} OnlyKeepsAll<T>(s: seq<T>, keep: T -> bool)
    requires forall x :: x in s ==> keep(x)
    ensures Only(s, keep) == s
  {
    if s != [] {
      OnlyKeepsAll(s[1..], keep);
    }
  }

  lemma {:induction false} OnlyElement<T>(s: seq<T>, keep: T -> bool, j: nat) returns (k: nat)
    requires j < |Only(s, keep)|
    ensures k < |s| && s[k] == Only(s, keep)[j]
  {
    if keep(s[0]) && j == 0 {
      k := 0;
    } else {
      var i := OnlyElement(s[1..], keep, if keep(s[0]) then j - 1 else j);
      k := i + 1;
    }
  }

  lemma {:induction false} OnlyKeepsSorted<T>(s: seq<T>, keep: T -> bool, key: T -> int)
    requires SortedBy(s, key)
    ensures SortedBy(Only(s, keep), key)
  {
    if s != [] {
      var rest := Only(s[1..], keep);
      OnlyKeepsSorted(s[1..], keep, key);
      forall j | 0 <= j < |rest|
        ensures key(s[0]) <= key(rest[j])
      {
        var k := OnlyElement(s[1..], keep, j);
        assert rest[j] == s[k + 1];
      }
      SortedCons(s[0], rest, key);
    }
  }

  lemma {:induction false} OnlyCounts<T>(s: seq<T>, keep: T -> bool, x: T)
    ensures multiset(Only(s, keep))[x] == if keep(x) then multiset(s)[x] else 0
  {
    if s != [] {
      OnlyCounts(s[1..], keep, x);
      assert s == [s[0]] + s[1..];
    }
  }

  lemma {:induction false} OnlyAppend<T>(s: seq<T>, x: T, keep: T -> bool)
    ensures Only(s + [x], keep) == Only(s, keep) + if keep(x) then [x] else []
  {
    if s == [] {
    } else {
      OnlyAppend(s[1..], x, keep);
      assert (s + [x])[1..] == s[1..] + [x];
    }
  }

  lemma {:induction false} OnlyPrefix<T>(s: seq<T>, i: nat, keep: T -> bool)
    requires i <= |s|
    ensures |Only(s[..i], keep)| <= |Only(s, keep)|
    ensures Only(s, keep)[..|Only(s[..i], keep)|] == Only(s[..i], keep)
    decreases |s|
  {
    if i == |s| {
      assert s[..i] == s;
    } else {
      var n := |s| - 1;
      OnlyPrefix(s[..n], i, keep);
      OnlyAppend(s[..n], s[n], keep);
      assert s[..n] + [s[n]] == s && s[..n][..i] == s[..i];
    }
  }

  ghost predicate Distinct<T>(s: seq<T>) {
    forall i, j :: 0 <= i < j < |s| ==> s[i] != s[j]
  }

  lemma SameElements<T>(s: seq<T>, t: seq<T>)
    requires multiset(s) == multiset(t)
    ensures forall x :: x in s <==> x in t
  {
    forall x
      ensures x in s <==> x in t
    {
      assert x in s <==> x in multiset(s);
      assert x in t <==> x in multiset(t);
    }
  }

  lemma {:induction false} InsertKeepsDistinct<T>(x: T, s: seq<T>, key: T -> int)
    requires Distinct(s) && x !in s
    ensures Distinct(Insert(x, s, key))
    ensures forall y :: y in Insert(x, s, key) <==> y == x || y in s
  {
    if s != [] && key(x) > key(s[0]) {
      InsertKeepsDistinct(x, s[1..], key);
      assert s[0] !in s[1..];
    }
  }

  lemma {:induction false} SortByKeepsDistinct<T>(s: seq<T>, key: T -> int)
    requires Distinct(s)
    ensures Distinct(SortBy(s, key))
  {
    if s != [] {
      SortByKeepsDistinct(s[1..], key);
      SortByIsSorted(s[1..], key);
      SameElements(SortBy(s[1..], key), s[1..]);
      InsertKeepsDistinct(s[0], SortBy(s[1..], key), key);
    }
  }
}
