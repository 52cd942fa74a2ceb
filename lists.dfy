/** List operations the game code relies on (`min`, `max`, `list.index`,
    `list.remove`, `list.sort`), stated over Dafny sequences of integers. */
module Lists {

  datatype Option<T> = None | Some(value: T)

  predicate Ascending(s: seq<int>) {
    forall i, j :: 0 <= i < j < |s| ==> s[i] <= s[j]
  }

  predicate Descending(s: seq<int>) {
    forall i, j :: 0 <= i < j < |s| ==> s[i] >= s[j]
  }

  predicate StrictlyAscending(s: seq<int>) {
    forall i, j :: 0 <= i < j < |s| ==> s[i] < s[j]
  }

  /** The last element of a non-empty sequence. */
  function Last(s: seq<int>): int
    requires s != []
  {
    s[|s| - 1]
  }

  /** `min(s)`: the least element of a non-empty list. */
  function Min(s: seq<int>): (m: int)
    requires s != []
    ensures m in s
    ensures forall x :: x in s ==> m <= x
  {
    if |s| == 1 then s[0]
    else
      var t := Min(s[1..]);
      assert forall x :: x in s ==> x == s[0] || x in s[1..];
      if s[0] <= t then s[0] else t
  }

  /** `max(s)`: the greatest element of a non-empty list. */
  function Max(s: seq<int>): (m: int)
    requires s != []
    ensures m in s
    ensures forall x :: x in s ==> x <= m
  {
    if |s| == 1 then s[0]
    else
      var t := Max(s[1..]);
      assert forall x :: x in s ==> x == s[0] || x in s[1..];
      if s[0] >= t then s[0] else t
  }

  /** `s.index(x)`: the position of the first occurrence of `x`. */
  function IndexOf(s: seq<int>, x: int): (k: nat)
    requires x in s
    ensures k < |s| && s[k] == x
    ensures forall j :: 0 <= j < k ==> s[j] != x
  {
    if s[0] == x then 0 else 1 + IndexOf(s[1..], x)
  }

  /** The dictionary built by inserting the pairs `keys[i]: values[i]` in
      order, as a dict comprehension does; see MapOfLastWins for which
      value a repeated key keeps. */
  function MapOf<K(==, !new), V>(keys: seq<K>, values: seq<V>): (m: map<K, V>)
    requires |keys| == |values|
    ensures m.Keys == set k | k in keys
    ensures forall x :: x in m ==> m[x] in values
    decreases |keys|
  {
    if keys == [] then map[]
    else
      var n := |keys| - 1;
      var m := MapOf(keys[..n], values[..n]);
      assert forall i :: 0 <= i < n ==> keys[..n][i] == keys[i] && values[..n][i] == values[i];
      m[keys[n] := values[n]]
  }

  /** Inserting one more pair. */
  lemma MapOfAppend<K(!new), V>(keys: seq<K>, values: seq<V>, k: K, v: V)
    requires |keys| == |values|
    ensures MapOf(keys + [k], values + [v]) == MapOf(keys, values)[k := v]
  {
    assert (keys + [k])[..|keys|] == keys && (values + [v])[..|values|] == values;
  }

  /** A key is bound to the value of its last occurrence: a later pair
      replaces an earlier one with the same key. */
  lemma {:induction false} MapOfLastWins<K(!new), V>(keys: seq<K>, values: seq<V>, i: nat)
    requires |keys| == |values| && i < |keys|
    requires forall j :: i < j < |keys| ==> keys[j] != keys[i]
    ensures keys[i] in MapOf(keys, values) && MapOf(keys, values)[keys[i]] == values[i]
    decreases |keys|
  {
    var n := |keys| - 1;
    if i < n {
      assert keys[..n][i] == keys[i] && values[..n][i] == values[i];
      assert forall j :: i < j < n ==> keys[..n][j] == keys[j];
      MapOfLastWins(keys[..n], values[..n], i);
    }
  }

  /** `s.remove(x)`: the list without the first occurrence of `x`. */
  function RemoveFirst(s: seq<int>, x: int): (r: seq<int>)
    requires x in s
    ensures |r| == |s| - 1
    ensures multiset(r) == multiset(s) - multiset{x}
    ensures forall j :: 0 <= j < IndexOf(s, x) ==> r[j] == s[j]
    ensures forall j :: IndexOf(s, x) <= j < |r| ==> r[j] == s[j + 1]
  {
    var k := IndexOf(s, x);
    MultisetSplit(s, k, k + 1);
    assert s[k..k + 1] == [x];
    s[..k] + s[k + 1..]
  }

  /** Inserts `x` into an ascending sequence, keeping it ascending. */
  function Insert(x: int, s: seq<int>): (r: seq<int>)
    requires Ascending(s)
    ensures Ascending(r)
    ensures multiset(r) == multiset(s) + multiset{x}
    ensures |r| == |s| + 1
    ensures forall i :: 0 <= i < |r| ==> r[i] == x || r[i] in s
  {
    if s == [] then [x]
    else if x <= s[0] then [x] + s
    else
      assert s == [s[0]] + s[1..];
      AscendingTail(s);
      var t := Insert(x, s[1..]);
      AscendingCons(s[0], t);
      [s[0]] + t
  }

  /** `sorted(s)` / `s.sort()`: an ascending permutation of `s`. */
  function Sort(s: seq<int>): (r: seq<int>)
    ensures Ascending(r)
    ensures multiset(r) == multiset(s)
    ensures |r| == |s|
  {
    if s == [] then []
    else
      assert s == [s[0]] + s[1..];
      Insert(s[0], Sort(s[1..]))
  }

  function Reverse(s: seq<int>): (r: seq<int>)
    ensures |r| == |s|
    ensures forall i :: 0 <= i < |s| ==> r[i] == s[|s| - 1 - i]
  {
    if s == [] then [] else Reverse(s[1..]) + [s[0]]
  }

  /** `s.sort(reverse=True)`: a descending permutation of `s`. */
  function SortDescending(s: seq<int>): (r: seq<int>)
    ensures |r| == |s|
  {
    Reverse(Sort(s))
  }

  lemma {:induction false} ReverseMultiset(s: seq<int>)
    ensures multiset(Reverse(s)) == multiset(s)
  {
    if s != [] {
      ReverseMultiset(s[1..]);
      assert s == [s[0]] + s[1..];
    }
  }

  lemma SortDescendingIsDescendingPermutation(s: seq<int>)
    ensures Descending(SortDescending(s))
    ensures multiset(SortDescending(s)) == multiset(s)
  {
    ReverseMultiset(Sort(s));
  }

  /** An element at most every element of an ascending list can go in
      front of it. */
  lemma AscendingCons(a: int, t: seq<int>)
    requires Ascending(t) && forall i :: 0 <= i < |t| ==> a <= t[i]
    ensures Ascending([a] + t)
  {
    var r := [a] + t;
    forall i, j | 0 <= i < j < |r| ensures r[i] <= r[j] {
      assert r[j] == t[j - 1];
      if 0 < i {
        assert r[i] == t[i - 1];
      }
    }
  }

  lemma AscendingTail(s: seq<int>)
    requires s != [] && Ascending(s)
    ensures Ascending(s[1..])
  {
    forall i, j | 0 <= i < j < |s| - 1 ensures s[1..][i] <= s[1..][j] {
      assert s[1..][i] == s[i + 1] && s[1..][j] == s[j + 1];
    }
  }

  /** Every element of the sorted sequence is an element of the input. */
  lemma SortMembers(s: seq<int>)
    ensures forall i :: 0 <= i < |Sort(s)| ==> Sort(s)[i] in s
  {
    var r := Sort(s);
    forall i | 0 <= i < |r| ensures r[i] in s {
      assert r[i] in multiset(r);
    }
  }

  /** Two ascending sequences with the same elements are equal, so `Sort`
      is the only result a correct sort can give. */
  lemma {:induction false} SortedUnique(a: seq<int>, b: seq<int>)
    requires Ascending(a) && Ascending(b)
    requires multiset(a) == multiset(b)
    ensures a == b
  {
    if a != [] {
      assert a[0] in multiset(b);
      assert b != [];
      assert b[0] in multiset(a);
      assert a[0] == b[0] by {
        assert a[0] in b && b[0] in a;
      }
      assert a == [a[0]] + a[1..];
      assert b == [b[0]] + b[1..];
      assert multiset(a) == multiset{a[0]} + multiset(a[1..]);
      assert multiset(b) == multiset{b[0]} + multiset(b[1..]);
      assert multiset(a[1..]) == multiset(a) - multiset{a[0]};
      assert multiset(b[1..]) == multiset(b) - multiset{b[0]};
      AscendingTail(a);
      AscendingTail(b);
      SortedUnique(a[1..], b[1..]);
    } else {
      assert |multiset(b)| == 0;
    }
  }

  /** Cutting a list in three parts splits its multiset. */
  lemma MultisetSplit(s: seq<int>, i: nat, j: nat)
    requires i <= j <= |s|
    ensures multiset(s) == multiset(s[..i]) + multiset(s[i..j]) + multiset(s[j..])
  {
    assert s == s[..i] + s[i..j] + s[j..];
  }

  /** Taking one copy of an element out of the multiset of a list leaves the
      multiset of a list one shorter. */
  lemma MultisetLessOne(before: seq<int>, after: seq<int>, x: int)
    ensures x in before && multiset(after) == multiset(before) - multiset{x} ==> |after| == |before| - 1
  {
    if x in before && multiset(after) == multiset(before) - multiset{x} {
      assert multiset(before) == multiset(after) + multiset{x};
    }
  }

  /** Dropping the last element removes one copy of it from the multiset. */
  lemma DropLast(r: seq<int>)
    requires r != []
    ensures multiset(r[..|r| - 1]) == multiset(r) - multiset{Last(r)}
  {
    assert r == r[..|r| - 1] + [Last(r)];
  }

  /** A prefix of an ascending list is ascending. */
  lemma AscendingPrefix(r: seq<int>, m: nat)
    requires Ascending(r) && m <= |r|
    ensures Ascending(r[..m])
  {
    forall i, j | 0 <= i < j < m ensures r[..m][i] <= r[..m][j] {
      assert r[..m][i] == r[i] && r[..m][j] == r[j];
    }
  }

  /** A prefix of a descending list is descending. */
  lemma DescendingPrefix(r: seq<int>, m: nat)
    requires Descending(r) && m <= |r|
    ensures Descending(r[..m])
  {
    forall i, j | 0 <= i < j < m ensures r[..m][i] >= r[..m][j] {
      assert r[..m][i] == r[i] && r[..m][j] == r[j];
    }
  }

  /** The sorted list less its last element, the maximum, is an
      ascending permutation of the rest. */
  lemma SortLessLast(s: seq<int>)
    requires s != []
    ensures Ascending(Sort(s)[..|s| - 1])
    ensures multiset(Sort(s)[..|s| - 1]) == multiset(s) - multiset{Max(s)}
  {
    LastOfSortIsMax(s);
    AscendingPrefix(Sort(s), |s| - 1);
    DropLast(Sort(s));
  }

  /** The list sorted high to low less its last element, the minimum, is a
      descending permutation of the rest. */
  lemma SortDescendingLessLast(s: seq<int>)
    requires s != []
    ensures Descending(SortDescending(s)[..|s| - 1])
    ensures multiset(SortDescending(s)[..|s| - 1]) == multiset(s) - multiset{Min(s)}
  {
    SortDescendingIsDescendingPermutation(s);
    LastOfSortDescendingIsMin(s);
    DescendingPrefix(SortDescending(s), |s| - 1);
    DropLast(SortDescending(s));
  }

  /** Reversing a descending list gives an ascending one. */
  lemma ReverseOfDescending(a: seq<int>)
    requires Descending(a)
    ensures Ascending(Reverse(a))
  {
    var n, r := |a|, Reverse(a);
    forall i, j | 0 <= i < j < n ensures r[i] <= r[j] {
      assert r[i] == a[n - 1 - i] && r[j] == a[n - 1 - j];
    }
  }

  /** Reversal is injective. */
  lemma ReverseInjective(a: seq<int>, b: seq<int>)
    requires Reverse(a) == Reverse(b)
    ensures a == b
  {
    var n := |a|;
    forall i | 0 <= i < n ensures a[i] == b[i] {
      assert Reverse(a)[n - 1 - i] == a[i] && Reverse(b)[n - 1 - i] == b[i];
    }
  }

  /** Two descending lists with the same multiset are equal. */
  lemma DescendingUnique(a: seq<int>, b: seq<int>)
    requires Descending(a) && Descending(b)
    requires multiset(a) == multiset(b)
    ensures a == b
  {
    ReverseOfDescending(a);
    ReverseOfDescending(b);
    ReverseMultiset(a);
    ReverseMultiset(b);
    SortedUnique(Reverse(a), Reverse(b));
    ReverseInjective(a, b);
  }

  /** The last element of a non-empty ascending permutation is the maximum. */
  lemma LastOfSortIsMax(s: seq<int>)
    requires s != []
    ensures Sort(s) != [] && Last(Sort(s)) == Max(s)
  {
    var r := Sort(s);
    assert |r| == |s| by {
      assert |multiset(r)| == |multiset(s)|;
    }
    assert Last(r) in multiset(r);
    assert Last(r) in s;
    assert Max(s) in multiset(s);
    var i :| 0 <= i < |r| && r[i] == Max(s);
    assert i < |r| - 1 ==> r[i] <= r[|r| - 1];
  }

  /** The last element of a non-empty descending permutation is the minimum. */
  lemma LastOfSortDescendingIsMin(s: seq<int>)
    requires s != []
    ensures SortDescending(s) != [] && Last(SortDescending(s)) == Min(s)
  {
    var r := Sort(s);
    assert Last(SortDescending(s)) == r[0];
    FirstOfSortIsMin(s);
  }

  /** The first element of a non-empty ascending permutation is the minimum. */
  lemma FirstOfSortIsMin(s: seq<int>)
    requires s != []
    ensures Sort(s) != [] && Sort(s)[0] == Min(s)
  {
    AscendingFirstIsMin(Sort(s), s);
  }

  lemma AscendingFirstIsMin(r: seq<int>, s: seq<int>)
    requires s != [] && Ascending(r) && multiset(r) == multiset(s)
    ensures r != [] && r[0] == Min(s)
  {
    assert s[0] in multiset(r);
    assert r[0] in multiset(s);
    assert r[0] in s;
    var m := Min(s);
    assert m <= r[0];
    assert m in multiset(r);
    var i :| 0 <= i < |r| && r[i] == m;
    assert r[0] <= r[i];
  }
}
