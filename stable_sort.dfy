/** The in-place sort of `releases` (scripts/update-appcast.js): `Array.prototype.sort`
    with a comparator, which ECMA-262 requires to be stable. It is modelled as a stable
    insertion sort: each element is placed after every earlier element that does not
    sort after it. */
module StableSort {

  /** Insert x, which follows every element of t in the input, behind the last element of
      t that does not sort after it. */
  function Insert<T>(t: seq<T>, x: T, cmp: (T, T) -> int): seq<T>
  {
    if t == [] || cmp(t[|t| - 1], x) <= 0 then t + [x]
    else Insert(t[..|t| - 1], x, cmp) + [t[|t| - 1]]
  }

  /** The sorted order: the input's elements inserted one after another. */
  function SortBy<T>(s: seq<T>, cmp: (T, T) -> int): seq<T>
  {
    if s == [] then []
    else Insert(SortBy(s[..|s| - 1], cmp), s[|s| - 1], cmp)
  }

  /** Insertion adds exactly x. */
  lemma {:induction false} InsertPermutes<T>(t: seq<T>, x: T, cmp: (T, T) -> int)
    ensures multiset(Insert(t, x, cmp)) == multiset(t) + multiset{x}
  {
    if !(t == [] || cmp(t[|t| - 1], x) <= 0) {
      InsertPermutes(t[..|t| - 1], x, cmp);
      assert t == t[..|t| - 1] + [t[|t| - 1]];
    }
  }

  /** Sorting permutes its input. */
  lemma {:induction false} SortByPermutes<T>(s: seq<T>, cmp: (T, T) -> int)
    ensures multiset(SortBy(s, cmp)) == multiset(s)
  {
    if s != [] {
      var init, last := s[..|s| - 1], s[|s| - 1];
      SortByPermutes(init, cmp);
      InsertPermutes(SortBy(init, cmp), last, cmp);
      assert s == init + [last];
      assert multiset(s) == multiset(init) + multiset{last};
    }
  }

  /** cmp behaves as a comparator on the elements of S: swapping the arguments flips the
      sign, and "sorts no later than" is transitive. */
  ghost predicate Consistent<T>(cmp: (T, T) -> int, S: set<T>) {
    && (forall x, y | x in S && y in S :: cmp(x, y) < 0 <==> cmp(y, x) > 0)
    && (forall x, y, z | x in S && y in S && z in S :: cmp(x, y) <= 0 && cmp(y, z) <= 0 ==> cmp(x, z) <= 0)
  }

  ghost predicate Within<T>(s: seq<T>, S: set<T>) {
    forall i :: 0 <= i < |s| ==> s[i] in S
  }

  /** No element sorts after a later one. */
  ghost predicate Sorted<T>(s: seq<T>, cmp: (T, T) -> int) {
    forall i, j :: 0 <= i < j < |s| ==> cmp(s[i], s[j]) <= 0
  }

  /** The elements of s that tie with c, in their order in s. */
  function Ties<T>(s: seq<T>, c: T, cmp: (T, T) -> int): seq<T>
  {
    if s == [] then []
    else Ties(s[..|s| - 1], c, cmp) + (if cmp(s[|s| - 1], c) == 0 then [s[|s| - 1]] else [])
  }

  lemma WithinPerm<T>(s: seq<T>, t: seq<T>, S: set<T>)
    requires Within(s, S) && multiset(t) <= multiset(s)
    ensures Within(t, S)
  {
    forall i | 0 <= i < |t| ensures t[i] in S {
      assert t[i] in multiset(t);
      var k :| 0 <= k < |s| && s[k] == t[i];
    }
  }

  /** Appending an element that sorts no earlier than everything before it keeps a
      sequence sorted. */
  lemma AppendSorted<T>(t: seq<T>, x: T, cmp: (T, T) -> int)
    requires Sorted(t, cmp)
    requires forall i :: 0 <= i < |t| ==> cmp(t[i], x) <= 0
    ensures Sorted(t + [x], cmp)
  {
    var r := t + [x];
    forall i, j | 0 <= i < j < |r| ensures cmp(r[i], r[j]) <= 0 {
      assert r[i] == t[i];
    }
  }

  /** An element that sorts no earlier than the last one of a sorted sequence sorts no
      earlier than any of them. */
  lemma AfterLast<T>(t: seq<T>, x: T, cmp: (T, T) -> int, S: set<T>)
    requires Consistent(cmp, S) && Within(t, S) && x in S
    requires Sorted(t, cmp) && t != [] && cmp(t[|t| - 1], x) <= 0
    ensures forall i :: 0 <= i < |t| ==> cmp(t[i], x) <= 0
  {
    forall i | 0 <= i < |t| ensures cmp(t[i], x) <= 0 {
      if i < |t| - 1 {
        assert cmp(t[i], t[|t| - 1]) <= 0;
      }
    }
  }

  /** Everything an insertion passes over sorts no later than the last element it skips. */
  lemma InsertBelow<T>(front: seq<T>, x: T, last: T, cmp: (T, T) -> int, S: set<T>)
    requires Consistent(cmp, S) && x in S && last in S
    requires forall i :: 0 <= i < |front| ==> cmp(front[i], last) <= 0
    requires cmp(last, x) > 0
    ensures forall i :: 0 <= i < |Insert(front, x, cmp)| ==> cmp(Insert(front, x, cmp)[i], last) <= 0
  {
    var u := Insert(front, x, cmp);
    InsertPermutes(front, x, cmp);
    forall i | 0 <= i < |u| ensures cmp(u[i], last) <= 0 {
      assert u[i] in multiset(front) + multiset{x};
      if u[i] != x {
        var k :| 0 <= k < |front| && front[k] == u[i];
      }
    }
  }

  /** Inserting into a sorted sequence keeps it sorted. */
  lemma {:induction false} InsertSorted<T>(t: seq<T>, x: T, cmp: (T, T) -> int, S: set<T>)
    requires Consistent(cmp, S) && Within(t, S) && x in S
    requires Sorted(t, cmp)
    ensures Sorted(Insert(t, x, cmp), cmp)
  {
    if t == [] {
      AppendSorted(t, x, cmp);
    } else if cmp(t[|t| - 1], x) <= 0 {
      AfterLast(t, x, cmp, S);
      AppendSorted(t, x, cmp);
    } else {
      var front, last := t[..|t| - 1], t[|t| - 1];
      assert Within(front, S) && Sorted(front, cmp);
      InsertSorted(front, x, cmp, S);
      InsertBelow(front, x, last, cmp, S);
      AppendSorted(Insert(front, x, cmp), last, cmp);
    }
  }

  /** Sorting sorts. */
  lemma {:induction false} SortBySorted<T>(s: seq<T>, cmp: (T, T) -> int, S: set<T>)
    requires Consistent(cmp, S) && Within(s, S)
    ensures Sorted(SortBy(s, cmp), cmp)
  {
    if s != [] {
      var front := s[..|s| - 1];
      SortBySorted(front, cmp, S);
      SortByPermutes(front, cmp);
      WithinPerm(front, SortBy(front, cmp), S);
      InsertSorted(SortBy(front, cmp), s[|s| - 1], cmp, S);
    }
  }

  /** Inserting x adds it behind the elements that already tie with c: an element that
      x jumps over cannot tie with c when x does. */
  lemma {:induction false} InsertTies<T>(t: seq<T>, x: T, c: T, cmp: (T, T) -> int, S: set<T>)
    requires Consistent(cmp, S) && Within(t, S) && x in S && c in S
    ensures Ties(Insert(t, x, cmp), c, cmp) == Ties(t, c, cmp) + (if cmp(x, c) == 0 then [x] else [])
  {
    if t == [] || cmp(t[|t| - 1], x) <= 0 {
      assert (t + [x])[..|t|] == t;
    } else {
      var front, last := t[..|t| - 1], t[|t| - 1];
      InsertTies(front, x, c, cmp, S);
      var u := Insert(front, x, cmp);
      assert (u + [last])[..|u|] == u;
      TiesTie(last, x, c, cmp, S);
    }
  }

  /** Two elements that both tie with a third tie with each other. */
  lemma TiesTie<T>(a: T, b: T, c: T, cmp: (T, T) -> int, S: set<T>)
    requires Consistent(cmp, S) && a in S && b in S && c in S
    ensures cmp(a, c) == 0 && cmp(b, c) == 0 ==> cmp(a, b) == 0
  {
    if cmp(a, c) == 0 && cmp(b, c) == 0 {
      assert cmp(c, b) == 0;
      assert cmp(b, a) <= 0;
    }
  }

  /** Stability: the elements that tie with any c keep their input order. */
  lemma {:induction false} SortByStable<T>(s: seq<T>, c: T, cmp: (T, T) -> int, S: set<T>)
    requires Consistent(cmp, S) && Within(s, S) && c in S
    ensures Ties(SortBy(s, cmp), c, cmp) == Ties(s, c, cmp)
  {
    if s != [] {
      var front := s[..|s| - 1];
      SortByStable(front, c, cmp, S);
      SortByPermutes(front, cmp);
      WithinPerm(front, SortBy(front, cmp), S);
      InsertTies(SortBy(front, cmp), s[|s| - 1], c, cmp, S);
    }
  }

  /** Where insertion puts x: behind t[..j] when every element from j on sorts after x
      and t[j - 1] does not. */
  lemma {:induction false} InsertAt<T>(t: seq<T>, x: T, j: nat, cmp: (T, T) -> int)
    requires j <= |t| && (j == 0 || cmp(t[j - 1], x) <= 0)
    requires forall k :: j <= k < |t| ==> cmp(t[k], x) > 0
    ensures Insert(t, x, cmp) == t[..j] + [x] + t[j..]
    decreases |t| - j
  {
    if j < |t| {
      var front := t[..|t| - 1];
      assert front[..j] == t[..j];
      InsertAt(front, x, j, cmp);
      assert t[j..] == front[j..] + [t[|t| - 1]];
    } else {
      assert t[..j] == t;
    }
  }

  /** Sorting one more element of the input inserts it into the sorted prefix. */
  lemma SortBySnoc<T>(s: seq<T>, i: nat, cmp: (T, T) -> int)
    requires i < |s|
    ensures SortBy(s[..i + 1], cmp) == Insert(SortBy(s[..i], cmp), s[i], cmp)
  {
    assert s[..i + 1][..i] == s[..i];
  }

  /** Moves a[i] to its place among a[..i], shifting the elements that sort after it one
      place to the right. */
  method InsertInPlace<T>(a: array<T>, i: nat, cmp: (T, T) -> int)
    requires i < a.Length
    modifies a
    ensures a[..i + 1] == Insert(old(a[..i]), old(a[i]), cmp)
    ensures forall k :: i < k < a.Length ==> a[k] == old(a[k])
  {
    var x := a[i];
    ghost var t := a[..i];
    var j := i;
    while j > 0 && cmp(a[j - 1], x) > 0
      invariant 0 <= j <= i
      invariant forall k :: 0 <= k < j ==> a[k] == t[k]
      invariant forall k :: j < k <= i ==> a[k] == t[k - 1]
      invariant forall k :: i < k < a.Length ==> a[k] == old(a[k])
      invariant forall k :: j <= k < i ==> cmp(t[k], x) > 0
    {
      a[j] := a[j - 1];
      j := j - 1;
    }
    a[j] := x;
    InsertAt(t, x, j, cmp);
    ghost var r := t[..j] + [x] + t[j..];
    forall k | 0 <= k <= i ensures a[k] == r[k] {
      if k > j {
        assert r[k] == t[k - 1];
      }
    }
    assert a[..i + 1] == r;
  }

  /** The in-place sort: insertion sort over the whole array. */
  method InsertionSort<T>(a: array<T>, cmp: (T, T) -> int)
    modifies a
    ensures a[..] == SortBy(old(a[..]), cmp)
  {
    ghost var input := a[..];
    for i := 0 to a.Length
      invariant a[..i] == SortBy(input[..i], cmp)
      invariant forall k :: i <= k < a.Length ==> a[k] == input[k]
    {
      ghost var sorted := a[..i];
      assert a[i] == input[i];
      InsertInPlace(a, i, cmp);
      SortBySnoc(input, i, cmp);
    }
    assert input[..a.Length] == input;
  }
}
