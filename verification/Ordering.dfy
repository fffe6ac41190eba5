/** Orders and sorting: the string order and the list sort that the engines use for
    determinism, with the fact that makes a sorted list independent of its input order. */
module Ordering {

  /** Strings in code-point order, a proper prefix first. */
  predicate StringLe(a: string, b: string) {
    a == [] || (b != [] && (a[0] < b[0] || (a[0] == b[0] && StringLe(a[1..], b[1..]))))
  }

  /** Any two can be compared, though different ones may tie. */
  ghost predicate TotalPreorder<T(!new)>(le: (T, T) -> bool) {
    && (forall a, b :: le(a, b) || le(b, a))
    && (forall a, b, c :: le(a, b) && le(b, c) ==> le(a, c))
  }

  ghost predicate TotalOrder<T(!new)>(le: (T, T) -> bool) {
    TotalPreorder(le) && forall a, b :: le(a, b) && le(b, a) ==> a == b
  }

  lemma {:induction false} StringLeTotal(a: string, b: string)
    ensures StringLe(a, b) || StringLe(b, a)
  {
    if a != [] && b != [] && a[0] == b[0] { StringLeTotal(a[1..], b[1..]); }
  }

  lemma {:induction false} StringLeAntisymmetric(a: string, b: string)
    requires StringLe(a, b) && StringLe(b, a)
    ensures a == b
  {
    if a != [] && b != [] {
      StringLeAntisymmetric(a[1..], b[1..]);
      assert a == [a[0]] + a[1..] && b == [b[0]] + b[1..];
    }
  }

  lemma {:induction false} StringLeTransitive(a: string, b: string, c: string)
    requires StringLe(a, b) && StringLe(b, c)
    ensures StringLe(a, c)
  {
    if a != [] && a[0] == b[0] && b[0] == c[0] { StringLeTransitive(a[1..], b[1..], c[1..]); }
  }

  lemma StringLeIsTotalOrder()
    ensures TotalOrder(StringLe)
  {
    forall a, b ensures StringLe(a, b) || StringLe(b, a) { StringLeTotal(a, b); }
    forall a, b | StringLe(a, b) && StringLe(b, a) ensures a == b { StringLeAntisymmetric(a, b); }
    forall a, b, c | StringLe(a, b) && StringLe(b, c) ensures StringLe(a, c) { StringLeTransitive(a, b, c); }
  }

  /** a stands at b or before it in a dictionary: as a beginning of it, or by the smaller character where the two
      first differ. */
  ghost predicate AtOrBefore(a: string, b: string) {
    || a <= b
    || exists n: nat :: n < |a| && n < |b| && SmallerAt(a, b, n)
  }

  predicate SmallerAt(a: string, b: string, n: nat)
    requires n < |a| && n < |b|
  {
    a[..n] == b[..n] && a[n] < b[n]
  }

  lemma DifferAtFirst(a: string, b: string, n: nat)
    requires n < |a| && n < |b| && a[0] > b[0]
    ensures !SmallerAt(a, b, n)
  {
    if n > 0 { assert a[..n][0] != b[..n][0]; }
  }

  lemma {:induction false} StringLeIs(a: string, b: string)
    ensures StringLe(a, b) <==> AtOrBefore(a, b)
  {
    if a != [] && b != [] {
      if a[0] == b[0] {
        StringLeIs(a[1..], b[1..]);
        assert a == [a[0]] + a[1..] && b == [b[0]] + b[1..];
        if n: nat :| n < |a| && n < |b| && SmallerAt(a, b, n) {
          assert n > 0 && a[1..][..n - 1] == a[..n][1..] && b[1..][..n - 1] == b[..n][1..];
          assert SmallerAt(a[1..], b[1..], n - 1);
        }
        if n: nat :| n < |a[1..]| && n < |b[1..]| && SmallerAt(a[1..], b[1..], n) {
          assert a[..n + 1] == [a[0]] + a[1..][..n] && b[..n + 1] == [b[0]] + b[1..][..n];
          assert SmallerAt(a, b, n + 1);
        }
      } else if a[0] < b[0] {
        assert SmallerAt(a, b, 0);
      } else {
        forall n: nat | n < |a| && n < |b| ensures !SmallerAt(a, b, n) { DifferAtFirst(a, b, n); }
      }
    }
  }

  // ---------------------------------------------------------------- lists

  ghost predicate NoDuplicates<T>(s: seq<T>) {
    forall i, j :: 0 <= i < j < |s| ==> s[i] != s[j]
  }

  lemma NoDuplicatesSnoc<T>(s: seq<T>, x: T)
    ensures NoDuplicates(s + [x]) <==> NoDuplicates(s) && x !in s
  {
    var t := s + [x];
    assert forall i :: 0 <= i < |s| ==> t[i] == s[i];
    assert NoDuplicates(t) ==> forall i :: 0 <= i < |s| ==> t[i] != t[|s|];
  }

  lemma DisjointConcat<T>(s: seq<T>, t: seq<T>)
    requires NoDuplicates(s) && NoDuplicates(t) && forall x :: x in s ==> x !in t
    ensures NoDuplicates(s + t)
  {
    forall i, j | 0 <= i < j < |s + t| ensures (s + t)[i] != (s + t)[j] {
      if i < |s| <= j { assert s[i] in s && t[j - |s|] in t; }
    }
  }

  /** The numbers below n with a property, in order. */
  ghost predicate ArePlaces(places: seq<nat>, n: nat, p: nat -> bool) {
    && (forall k :: 0 <= k < |places| ==> places[k] < n && p(places[k]))
    && (forall j, k :: 0 <= j < k < |places| ==> places[j] < places[k])
    && (forall i :: 0 <= i < n && p(i) ==> i in places)
  }

  ghost function Places(n: nat, p: nat -> bool): (places: seq<nat>)
    ensures forall k :: 0 <= k < |places| ==> places[k] < n
  {
    if n == 0 then [] else if p(n - 1) then Places(n - 1, p) + [n - 1] else Places(n - 1, p)
  }

  /** The elements at some places. */
  function At<T>(s: seq<T>, places: seq<nat>): (chosen: seq<T>)
    requires forall k :: 0 <= k < |places| ==> places[k] < |s|
  {
    seq(|places|, k requires 0 <= k < |places| => s[places[k]])
  }

  lemma {:induction false} PlacesAre(n: nat, p: nat -> bool)
    ensures ArePlaces(Places(n, p), n, p)
  {
    if n > 0 {
      PlacesAre(n - 1, p);
      forall i | 0 <= i < n && p(i) ensures i in Places(n, p) {}
    }
  }

  ghost predicate SortedBy<T>(s: seq<T>, le: (T, T) -> bool) {
    forall i, j :: 0 <= i < j < |s| ==> le(s[i], s[j])
  }

  function Elems<T>(s: seq<T>): (r: set<T>) {
    set x | x in s
  }

  function Insert<T>(x: T, s: seq<T>, le: (T, T) -> bool): (r: seq<T>) {
    if s == [] || le(x, s[0]) then [x] + s else [s[0]] + Insert(x, s[1..], le)
  }

  /** The sorted form of a list (the built-in sort, specified by the lemmas below). */
  function Sorted<T>(s: seq<T>, le: (T, T) -> bool): (r: seq<T>) {
    if s == [] then [] else Insert(s[0], Sorted(s[1..], le), le)
  }

  lemma {:induction false} InsertPermutes<T>(x: T, s: seq<T>, le: (T, T) -> bool)
    ensures multiset(Insert(x, s, le)) == multiset(s) + multiset{x}
  {
    if s != [] && !le(x, s[0]) {
      InsertPermutes(x, s[1..], le);
      assert s == [s[0]] + s[1..];
    }
  }

  lemma {:induction false} SortedPermutes<T>(s: seq<T>, le: (T, T) -> bool)
    ensures multiset(Sorted(s, le)) == multiset(s)
  {
    if s != [] {
      SortedPermutes(s[1..], le);
      InsertPermutes(s[0], Sorted(s[1..], le), le);
      assert s == [s[0]] + s[1..];
    }
  }

  lemma {:induction false} InsertKeepsSorted<T(!new)>(x: T, s: seq<T>, le: (T, T) -> bool)
    requires TotalPreorder(le) && SortedBy(s, le)
    ensures SortedBy(Insert(x, s, le), le)
  {
    if s != [] && !le(x, s[0]) {
      InsertKeepsSorted(x, s[1..], le);
      InsertPermutes(x, s[1..], le);
      var rest := Insert(x, s[1..], le);
      forall j | 0 <= j < |rest| ensures le(s[0], rest[j]) {
        assert rest[j] in multiset(rest);
        assert rest[j] == x || rest[j] in multiset(s[1..]);
      }
    }
  }

  lemma {:induction false} SortedIsSorted<T(!new)>(s: seq<T>, le: (T, T) -> bool)
    requires TotalPreorder(le)
    ensures SortedBy(Sorted(s, le), le)
  {
    if s != [] {
      SortedIsSorted(s[1..], le);
      InsertKeepsSorted(s[0], Sorted(s[1..], le), le);
    }
  }

  lemma HeadIsLeast<T(!new)>(s: seq<T>, le: (T, T) -> bool, x: T)
    requires TotalPreorder(le) && SortedBy(s, le) && x in s
    ensures le(s[0], x)
  {
    var k :| 0 <= k < |s| && s[k] == x;
    assert le(x, x);
  }

  lemma TailContents<T>(s: seq<T>)
    requires s != []
    ensures multiset(s[1..]) == multiset(s) - multiset{s[0]}
  {
    assert s == [s[0]] + s[1..];
  }

  ghost predicate NoTies<T(!new)>(s: seq<T>, le: (T, T) -> bool) {
    forall a, b :: a in s && b in s && le(a, b) && le(b, a) ==> a == b
  }

  /** Two sorted lists with the same contents, in which nothing ties, are equal. */
  lemma {:induction false} SortedFormIsUnique<T(!new)>(s: seq<T>, t: seq<T>, le: (T, T) -> bool)
    requires TotalPreorder(le) && SortedBy(s, le) && SortedBy(t, le) && NoTies(s, le)
    requires multiset(s) == multiset(t)
    ensures s == t
  {
    SameMembers(s, t);
    if s != [] {
      HeadIsLeast(s, le, t[0]);
      HeadIsLeast(t, le, s[0]);
      TailContents(s);
      TailContents(t);
      assert SortedBy(s[1..], le) && SortedBy(t[1..], le);
      SortedFormIsUnique(s[1..], t[1..], le);
    }
  }

  lemma SameMembers<T>(s: seq<T>, t: seq<T>)
    requires multiset(s) == multiset(t)
    ensures |s| == |t|
    ensures forall x :: x in s <==> x in t
  {
    assert |multiset(s)| == |s| && |multiset(t)| == |t|;
    forall x ensures x in s <==> x in t {
      assert x in s <==> x in multiset(s);
      assert x in t <==> x in multiset(t);
    }
  }

  lemma {:induction false} NoDuplicatesByCount<T>(s: seq<T>)
    ensures NoDuplicates(s) <==> forall x :: x in s ==> multiset(s)[x] == 1
  {
    if s != [] {
      NoDuplicatesByCount(s[1..]);
      assert s == [s[0]] + s[1..];
      assert multiset(s) == multiset{s[0]} + multiset(s[1..]);
      if NoDuplicates(s) {
        assert NoDuplicates(s[1..]) by {
          forall i, j | 0 <= i < j < |s[1..]| ensures s[1..][i] != s[1..][j] {
            assert s[1..][i] == s[i + 1] && s[1..][j] == s[j + 1];
          }
        }
        assert s[0] !in s[1..];
        assert s[0] !in multiset(s[1..]);
      } else {
        var i, j :| 0 <= i < j < |s| && s[i] == s[j];
        if i == 0 {
          assert s[j] == s[1..][j - 1];
          assert s[0] in multiset(s[1..]);
          assert s[0] in s && multiset(s)[s[0]] >= 2;
        } else {
          assert s[1..][i - 1] == s[1..][j - 1];
          assert !NoDuplicates(s[1..]);
          var x :| x in s[1..] && multiset(s[1..])[x] != 1;
          assert x in multiset(s[1..]);
          assert x in s;
        }
      }
    }
  }

  lemma PermutationKeepsDistinct<T>(s: seq<T>, t: seq<T>)
    requires multiset(s) == multiset(t) && NoDuplicates(s)
    ensures NoDuplicates(t)
  {
    NoDuplicatesByCount(s);
    NoDuplicatesByCount(t);
    SameMembers(s, t);
  }

  lemma {:induction false} DistinctCount<T>(s: seq<T>)
    requires NoDuplicates(s)
    ensures |Elems(s)| == |s|
  {
    if s != [] {
      var init, last := s[..|s| - 1], s[|s| - 1];
      assert s == init + [last];
      NoDuplicatesSnoc(init, last);
      DistinctCount(init);
      assert Elems(s) == Elems(init) + {last};
    }
  }

  lemma SubsetCount<T>(a: set<T>, b: set<T>)
    requires a <= b
    ensures |a| <= |b|
  {
    assert b == a + (b - a);
  }

  lemma SubsetOfSameSize<T>(a: set<T>, b: set<T>)
    requires a <= b && |a| == |b|
    ensures a == b
  {
    assert b == a + (b - a);
  }

  /** A list drawn from a set and longer than it repeats an element. */
  lemma Pigeonhole<T>(s: seq<T>, a: set<T>)
    requires (forall x :: x in s ==> x in a) && |s| > |a|
    ensures !NoDuplicates(s)
  {
    if NoDuplicates(s) {
      DistinctCount(s);
      SubsetCount(Elems(s), a);
    }
  }
}
