/**
 * JavaScript's array sort with a comparator that subtracts numeric keys:
 * ascending by key and, since ES2019, stable (elements with equal keys keep
 * their input order). Modelled as a stable insertion sort; the lemmas state
 * the properties that determine a stable sort's result.
 */
module Sorting {

  ghost predicate SortedBy<T>(s: seq<T>, key: T -> real) {
    forall i, j :: 0 <= i < j < |s| ==> key(s[i]) <= key(s[j])
  }

  /** Inserts x in front of the first element whose key is not smaller. */
  function Insert<T>(x: T, s: seq<T>, key: T -> real): (r: seq<T>)
    ensures multiset(r) == multiset(s) + multiset{x}
    ensures |r| == |s| + 1
    ensures r[0] == x || (s != [] && r[0] == s[0])
  {
    if s == [] || key(x) <= key(s[0]) then [x] + s
    else
      assert s == [s[0]] + s[1..];
      [s[0]] + Insert(x, s[1..], key)
  }

  /** Putting an element no larger than the head in front of a sorted
      sequence keeps it sorted. */
  lemma {:induction false} SortedCons<T>(x: T, s: seq<T>, key: T -> real)
    requires SortedBy(s, key) && (s != [] ==> key(x) <= key(s[0]))
    ensures SortedBy([x] + s, key)
  {
    var r := [x] + s;
    forall i, j | 0 <= i < j < |r| ensures key(r[i]) <= key(r[j]) {
      assert r[j] == s[j - 1];
      if i == 0 {
        assert j == 1 || key(s[0]) <= key(s[j - 1]);
      } else {
        assert r[i] == s[i - 1];
      }
    }
  }

  /** Inserting into a sorted sequence keeps it sorted. */
  lemma {:induction false} InsertSorted<T>(x: T, s: seq<T>, key: T -> real)
    requires SortedBy(s, key)
    ensures SortedBy(Insert(x, s, key), key)
  {
    if s == [] || key(x) <= key(s[0]) {
      SortedCons(x, s, key);
    } else {
      var tail := s[1..];
      assert SortedBy(tail, key) by {
        forall i, j | 0 <= i < j < |tail| ensures key(tail[i]) <= key(tail[j]) {
          assert tail[i] == s[i + 1] && tail[j] == s[j + 1];
        }
      }
      InsertSorted(x, tail, key);
      var rest := Insert(x, tail, key);
      assert Insert(x, s, key) == [s[0]] + rest;
      assert key(s[0]) <= key(rest[0]) by {
        if tail != [] {
          assert s[1] == tail[0];
        }
      }
      SortedCons(s[0], rest, key);
    }
  }

  /** The stable ascending sort of s by key. */
  function SortBy<T>(s: seq<T>, key: T -> real): (r: seq<T>)
    ensures multiset(r) == multiset(s)
    ensures |r| == |s|
    ensures SortedBy(r, key)
  {
    if s == [] then []
    else
      var t := SortBy(s[1..], key);
      InsertSorted(s[0], t, key);
      assert s == [s[0]] + s[1..];
      Insert(s[0], t, key)
  }

  /** The index of the first element with the smallest key. */
  function FirstMinIndex<T>(s: seq<T>, key: T -> real): (i: nat)
    requires |s| > 0
    ensures i < |s|
    ensures forall j :: 0 <= j < |s| ==> key(s[i]) <= key(s[j])
    ensures forall j :: 0 <= j < i ==> key(s[i]) < key(s[j])
  {
    if |s| == 1 then 0
    else
      var m := FirstMinIndex(s[1..], key);
      if key(s[0]) <= key(s[1 + m]) then 0 else 1 + m
  }

  /** The sort puts first the earliest of the elements with the smallest key. */
  lemma {:induction false} SortByHead<T>(s: seq<T>, key: T -> real)
    requires |s| > 0
    ensures SortBy(s, key)[0] == s[FirstMinIndex(s, key)]
  {
    if |s| > 1 {
      var t := SortBy(s[1..], key);
      SortByHead(s[1..], key);
    }
  }

  /** The elements of s whose key is k, in their order in s. */
  function WithKey<T>(s: seq<T>, key: T -> real, k: real): seq<T> {
    if s == [] then []
    else (if key(s[0]) == k then [s[0]] else []) + WithKey(s[1..], key, k)
  }

  /** WithKey keeps exactly the elements whose key is k. */
  lemma {:induction false} WithKeyMembers<T>(s: seq<T>, key: T -> real, k: real)
    ensures var r := WithKey(s, key, k);
      && (forall i :: 0 <= i < |r| ==> r[i] in s && key(r[i]) == k)
      && (forall i :: 0 <= i < |s| && key(s[i]) == k ==> s[i] in r)
  {
    if s != [] {
      WithKeyMembers(s[1..], key, k);
      var r := WithKey(s, key, k);
      var rest := WithKey(s[1..], key, k);
      var head := if key(s[0]) == k then [s[0]] else [];
      assert r == head + rest;
      forall i | 0 <= i < |r| ensures r[i] in s && key(r[i]) == k {
        if i >= |head| {
          assert r[i] == rest[i - |head|];
          var m :| 0 <= m < |s[1..]| && s[1..][m] == r[i];
          assert s[m + 1] == r[i];
        }
      }
      forall i | 0 <= i < |s| && key(s[i]) == k ensures s[i] in r {
        if i > 0 {
          assert s[i] == s[1..][i - 1];
          var m :| 0 <= m < |rest| && rest[m] == s[i];
          assert r[m + |head|] == s[i];
        }
      }
    }
  }

  /** Inserting x puts it in front of the elements that share its key. */
  lemma {:induction false} WithKeyInsert<T>(x: T, s: seq<T>, key: T -> real, k: real)
    ensures WithKey(Insert(x, s, key), key, k) == (if key(x) == k then [x] else []) + WithKey(s, key, k)
  {
    var head := if key(x) == k then [x] else [];
    if s == [] || key(x) <= key(s[0]) {
      var r := [x] + s;
      assert Insert(x, s, key) == r;
      assert r[0] == x && r[1..] == s;
      assert WithKey(r, key, k) == head + WithKey(s, key, k);
    } else {
      var t := s[1..];
      var rest := Insert(x, t, key);
      var r := [s[0]] + rest;
      assert Insert(x, s, key) == r;
      assert r[0] == s[0] && r[1..] == rest;
      WithKeyInsert(x, t, key, k);
      var first := if key(s[0]) == k then [s[0]] else [];
      assert WithKey(r, key, k) == first + WithKey(rest, key, k);
      assert WithKey(s, key, k) == first + WithKey(t, key, k);
      assert first == [] || head == [];
      assert first + (head + WithKey(t, key, k)) == head + (first + WithKey(t, key, k));
    }
  }

  /** Stability: for every key value, the elements carrying it come out of the
      sort in the order they went in. */
  lemma {:induction false} SortByStable<T>(s: seq<T>, key: T -> real, k: real)
    ensures WithKey(SortBy(s, key), key, k) == WithKey(s, key, k)
  {
    if s != [] {
      SortByStable(s[1..], key, k);
      WithKeyInsert(s[0], SortBy(s[1..], key), key, k);
    }
  }

  ghost predicate DistinctBy<T, U>(s: seq<T>, f: T -> U) {
    forall i, j :: 0 <= i < j < |s| ==> f(s[i]) != f(s[j])
  }

  /** Where the insertion puts x: after every element with a smaller key,
      in front of the first one that is not smaller. */
  function InsertPos<T>(x: T, s: seq<T>, key: T -> real): (p: nat)
    ensures p <= |s|
    ensures forall i :: 0 <= i < p ==> key(s[i]) < key(x)
    ensures p < |s| ==> key(x) <= key(s[p])
  {
    if s == [] || key(x) <= key(s[0]) then 0
    else
      var q := InsertPos(x, s[1..], key);
      assert forall i :: 1 <= i <= q ==> s[i] == s[1..][i - 1];
      q + 1
  }

  /** s with x spliced in at position p. */
  ghost predicate SplicedAt<T>(r: seq<T>, s: seq<T>, x: T, p: nat) {
    && p <= |s| && |r| == |s| + 1
    && (forall i :: 0 <= i < p ==> r[i] == s[i])
    && r[p] == x
    && (forall i :: p < i <= |s| ==> r[i] == s[i - 1])
  }

  /** Putting the same head in front of both sides of a splice moves the
      splice point one place on. */
  lemma {:induction false} SplicedAtCons<T>(h: T, rest: seq<T>, t: seq<T>, x: T, q: nat)
    requires SplicedAt(rest, t, x, q)
    ensures SplicedAt([h] + rest, [h] + t, x, q + 1)
  {
    var r, s := [h] + rest, [h] + t;
    forall i | 1 <= i <= q ensures r[i] == s[i] {
      assert r[i] == rest[i - 1] && s[i] == t[i - 1];
    }
    forall i | q + 1 < i <= |s| ensures r[i] == s[i - 1] {
      assert r[i] == rest[i - 1] && s[i - 1] == t[i - 2];
    }
  }

  /** The insertion's result is s with x spliced in at InsertPos. */
  lemma {:induction false} InsertSplice<T>(x: T, s: seq<T>, key: T -> real)
    ensures SplicedAt(Insert(x, s, key), s, x, InsertPos(x, s, key))
  {
    if s != [] && key(s[0]) < key(x) {
      var t := s[1..];
      InsertSplice(x, t, key);
      SplicedAtCons(s[0], Insert(x, t, key), t, x, InsertPos(x, t, key));
      assert [s[0]] + t == s;
    }
  }

  lemma {:induction false} InsertDistinctBy<T, U>(x: T, s: seq<T>, key: T -> real, f: T -> U)
    requires DistinctBy(s, f)
    requires forall m :: 0 <= m < |s| ==> f(s[m]) != f(x)
    ensures DistinctBy(Insert(x, s, key), f)
  {
    var p := InsertPos(x, s, key);
    var r := Insert(x, s, key);
    InsertSplice(x, s, key);
    forall i, j | 0 <= i < j < |r| ensures f(r[i]) != f(r[j]) {
      if j < p {
        assert f(s[i]) != f(s[j]);
      } else if j == p {
        assert f(s[i]) != f(x);
      } else if i < p {
        assert f(s[i]) != f(s[j - 1]);
      } else if i == p {
        assert f(s[j - 1]) != f(x);
      } else {
        assert f(s[i - 1]) != f(s[j - 1]);
      }
    }
  }

  /** Sorting keeps a projection that is injective on the input injective. */
  lemma {:induction false} SortByDistinctBy<T, U>(s: seq<T>, key: T -> real, f: T -> U)
    requires DistinctBy(s, f)
    ensures DistinctBy(SortBy(s, key), f)
  {
    if s != [] {
      var t := SortBy(s[1..], key);
      SortByDistinctBy(s[1..], key, f);
      forall m | 0 <= m < |t| ensures f(t[m]) != f(s[0]) {
        assert t[m] in multiset(t);
        assert t[m] in s[1..];
        var j :| 0 <= j < |s[1..]| && s[1..][j] == t[m];
        assert s[j + 1] == t[m];
      }
      InsertDistinctBy(s[0], t, key, f);
    }
  }
}
