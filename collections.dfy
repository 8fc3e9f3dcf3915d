/** Generic facts about the JavaScript collections the calendar view builds: `new Set(values)`
    and `new Map(entries)`. */
module Collections {

  /** `new Set(values)`: the distinct values of a list. */
  function Elements<T>(s: seq<T>): set<T>
  {
    set x | x in s
  }

  /** No value occurs twice in the list. */
  predicate NoDuplicates<T(==)>(s: seq<T>)
  {
    forall i, j :: 0 <= i < j < |s| ==> s[i] != s[j]
  }

  /** `new Map(entries)`: entries are set in order, so a later entry replaces an earlier one with
      the same key. Every key is the key of some entry, and every entry's key is in the map. */
  function MapFromEntries<K(==,!new), V>(entries: seq<(K, V)>): (m: map<K, V>)
    ensures forall k :: k in m <==> exists i :: 0 <= i < |entries| && entries[i].0 == k
  {
    if entries == [] then map[]
    else
      var prefix := entries[..|entries| - 1];
      assert forall i :: 0 <= i < |prefix| ==> prefix[i] == entries[i];
      MapFromEntries(prefix)[entries[|entries| - 1].0 := entries[|entries| - 1].1]
  }

  /** Entry `i` has key `k` and no later entry does. */
  predicate IsLastWithKey<K(==), V>(entries: seq<(K, V)>, i: int, k: K)
    requires 0 <= i < |entries|
  {
    entries[i].0 == k && forall j :: i < j < |entries| ==> entries[j].0 != k
  }

  // ---- Lemmas ----

  /** A key of the map holds the value of the last entry with that key. */
  lemma {:induction false} MapFromEntriesKeepsLast<K(!new), V>(entries: seq<(K, V)>, k: K)
    requires k in MapFromEntries(entries)
    ensures exists i :: 0 <= i < |entries| && MapFromEntries(entries)[k] == entries[i].1 && IsLastWithKey(entries, i, k)
  {
    var n := |entries|;
    var prefix := entries[..n - 1];
    if entries[n - 1].0 == k {
      assert IsLastWithKey(entries, n - 1, k);
    } else {
      assert k in MapFromEntries(prefix);
      MapFromEntriesKeepsLast(prefix, k);
      var i :| 0 <= i < |prefix| && MapFromEntries(prefix)[k] == prefix[i].1 && IsLastWithKey(prefix, i, k);
      assert IsLastWithKey(entries, i, k);
    }
  }

  lemma ElementsSnoc<T>(s: seq<T>)
    requires s != []
    ensures Elements(s) == Elements(s[..|s| - 1]) + {s[|s| - 1]}
  {
    assert s == s[..|s| - 1] + [s[|s| - 1]];
  }

  /** A list has at most as many distinct values as entries, and as many exactly when no value
      repeats. */
  lemma {:induction false} ElementsCount<T>(s: seq<T>)
    ensures |Elements(s)| <= |s|
    ensures |Elements(s)| == |s| <==> NoDuplicates(s)
    ensures s != [] ==> 1 <= |Elements(s)|
  {
    if s != [] {
      var n := |s|;
      var prefix := s[..n - 1];
      ElementsSnoc(s);
      ElementsCount(prefix);
      if s[n - 1] in prefix {
        var i :| 0 <= i < n - 1 && prefix[i] == s[n - 1];
        assert s[i] == s[n - 1];
        assert !NoDuplicates(s);
      } else {
        NoDuplicatesSnoc(s);
      }
    }
  }

  /** Appending a value not yet in the list keeps it free of repeats. */
  lemma NoDuplicatesSnoc<T>(s: seq<T>)
    requires s != [] && s[|s| - 1] !in s[..|s| - 1]
    ensures NoDuplicates(s) <==> NoDuplicates(s[..|s| - 1])
  {
    var n, prefix := |s|, s[..|s| - 1];
    if NoDuplicates(prefix) {
      forall i, j | 0 <= i < j < n
        ensures s[i] != s[j]
      {
        if j < n - 1 {
          assert s[i] == prefix[i] && s[j] == prefix[j];
        } else {
          assert s[i] == prefix[i];
        }
      }
    }
    if NoDuplicates(s) {
      forall i, j | 0 <= i < j < n - 1
        ensures prefix[i] != prefix[j]
      {
        assert s[i] == prefix[i] && s[j] == prefix[j];
      }
    }
  }

  /** Two lists that repeat a value at exactly the same pairs of positions have as many distinct
      values. */
  lemma {:induction false} SamePatternSameCount<A, B>(a: seq<A>, b: seq<B>)
    requires |a| == |b|
    requires forall i, j :: 0 <= i < |a| && 0 <= j < |a| ==> (a[i] == a[j] <==> b[i] == b[j])
    ensures |Elements(a)| == |Elements(b)|
  {
    if a != [] {
      var n := |a| - 1;
      var a', b' := a[..n], b[..n];
      SamePatternSameCount(a', b');
      ElementsSnoc(a);
      ElementsSnoc(b);
      if a[n] in Elements(a') {
        var i :| 0 <= i < n && a'[i] == a[n];
        assert b'[i] == b[n];
        assert b[n] in Elements(b');
        assert Elements(a) == Elements(a') && Elements(b) == Elements(b');
      } else {
        forall i | 0 <= i < n
          ensures b'[i] != b[n]
        {
          assert a'[i] != a[n];
        }
      }
    }
  }

  /** The `n` consecutive integers `top, top - 1, ..., top - n + 1`. */
  function DownFrom(top: int, n: nat): (r: set<int>)
    ensures forall x :: x in r <==> top - n < x <= top
    ensures |r| == n
  {
    if n == 0 then {} else DownFrom(top, n - 1) + {top - n + 1}
  }

  /** If a list holds `n` consecutive integers, it has at least `n` distinct values. */
  lemma ConsecutiveValuesCount(s: seq<int>, top: int, n: nat)
    requires forall x :: top - n < x <= top ==> x in s
    ensures n <= |Elements(s)|
  {
    assert DownFrom(top, n) <= Elements(s);
    SubsetCount(DownFrom(top, n), Elements(s));
  }

  lemma SubsetCount<T>(a: set<T>, b: set<T>)
    requires a <= b
    ensures |a| <= |b|
  {
    assert b == a + (b - a);
  }

  /** Keyed entries with the largest key first. */
  predicate SortedByKeyDescending<T>(xs: seq<(int, T)>)
  {
    forall i, j :: 0 <= i < j < |xs| ==> xs[i].0 >= xs[j].0
  }

  function InsertByKeyDescending<T>(x: (int, T), xs: seq<(int, T)>): (r: seq<(int, T)>)
    requires SortedByKeyDescending(xs)
    ensures |r| == |xs| + 1
    ensures r[0] == x || (xs != [] && r[0] == xs[0])
    ensures SortedByKeyDescending(r)
    ensures multiset(r) == multiset(xs) + multiset{x}
  {
    if xs == [] || x.0 >= xs[0].0 then
      ConsSorted(x, xs);
      [x] + xs
    else
      var rest := InsertByKeyDescending(x, xs[1..]);
      assert xs == [xs[0]] + xs[1..];
      ConsSorted(xs[0], rest);
      [xs[0]] + rest
  }

  /** An entry whose key is at least the first key of a sorted list may go in front of it. */
  lemma ConsSorted<T>(y: (int, T), ys: seq<(int, T)>)
    requires SortedByKeyDescending(ys) && (ys != [] ==> ys[0].0 <= y.0)
    ensures SortedByKeyDescending([y] + ys)
  {
    var r := [y] + ys;
    forall i, j | 0 <= i < j < |r|
      ensures r[i].0 >= r[j].0
    {
      if i == 0 && 1 < j {
        assert r[j] == ys[j - 1] && ys[0].0 >= ys[j - 1].0;
      }
    }
  }

  /** The keys of keyed entries, in order. */
  function Keys<T>(xs: seq<(int, T)>): (ks: seq<int>)
    ensures |ks| == |xs|
    ensures forall i :: 0 <= i < |xs| ==> ks[i] == xs[i].0
  {
    seq(|xs|, i requires 0 <= i < |xs| => xs[i].0)
  }

  /** Two lists holding the same entries have the same set of keys. */
  lemma PermutationKeepsKeys<T>(a: seq<(int, T)>, b: seq<(int, T)>)
    requires multiset(a) == multiset(b)
    ensures Elements(Keys(a)) == Elements(Keys(b))
  {
    forall k | k in Elements(Keys(a))
      ensures k in Elements(Keys(b))
    {
      KeyOfMember(a, b, k);
    }
    forall k | k in Elements(Keys(b))
      ensures k in Elements(Keys(a))
    {
      KeyOfMember(b, a, k);
    }
  }

  lemma KeyOfMember<T>(a: seq<(int, T)>, b: seq<(int, T)>, k: int)
    requires multiset(a) == multiset(b) && k in Elements(Keys(a))
    ensures k in Elements(Keys(b))
  {
    var i :| 0 <= i < |a| && Keys(a)[i] == k;
    assert a[i] in multiset(b);
    var j :| 0 <= j < |b| && b[j] == a[i];
    assert Keys(b)[j] == k;
  }

  /** `array.sort((a, b) => key(b) - key(a))`: the same entries, largest key first. */
  function SortByKeyDescending<T>(xs: seq<(int, T)>): (r: seq<(int, T)>)
    ensures SortedByKeyDescending(r)
    ensures multiset(r) == multiset(xs)
  {
    if xs == [] then []
    else
      assert xs == [xs[0]] + xs[1..];
      InsertByKeyDescending(xs[0], SortByKeyDescending(xs[1..]))
  }
}
