/** Stable sorting with a three-way comparator, the behaviour that
    `Array.prototype.sort` guarantees for a consistent comparator. */
module Sorting {
  import opened Seqs

  function Sign(x: int): int {
    if x < 0 then -1 else if x > 0 then 1 else 0
  }

  /** A consistent comparator: only the sign of `cmp(a, b)` matters, swapping
      the arguments flips it, and "not after" is transitive. */
  ghost predicate Consistent<T(!new)>(cmp: (T, T) -> int) {
    && (forall a, b :: Sign(cmp(a, b)) == -Sign(cmp(b, a)))
    && (forall a, b, c :: cmp(a, b) <= 0 && cmp(b, c) <= 0 ==> cmp(a, c) <= 0)
  }

  /** Every element is "not after" every later element. */
  ghost predicate Sorted<T>(s: seq<T>, cmp: (T, T) -> int) {
    forall i, j {:trigger cmp(s[i], s[j])} :: 0 <= i < j < |s| ==> cmp(s[i], s[j]) <= 0
  }

  /** The elements that compare equal to `x`. */
  function Tied<T>(cmp: (T, T) -> int, x: T): T -> bool {
    y => cmp(x, y) == 0
  }

  lemma TiesAreEquivalent<T(!new)>(cmp: (T, T) -> int, a: T, b: T, c: T)
    requires Consistent(cmp)
    ensures cmp(a, a) == 0
    ensures cmp(a, b) == 0 ==> cmp(b, a) == 0
    ensures cmp(a, b) == 0 && cmp(b, c) == 0 ==> cmp(a, c) == 0
    ensures cmp(a, b) == 0 && cmp(a, c) == 0 ==> cmp(b, c) == 0
  {
    assert Sign(cmp(a, a)) == -Sign(cmp(a, a));
    assert Sign(cmp(a, b)) == -Sign(cmp(b, a));
    assert Sign(cmp(b, c)) == -Sign(cmp(c, b));
    assert Sign(cmp(a, c)) == -Sign(cmp(c, a));
  }

  /** Places `x`, which precedes every element of `t` in the input, before the
      first element of `t` that is not strictly smaller than it. */
  function Insert<T>(x: T, t: seq<T>, cmp: (T, T) -> int): seq<T>
  {
    if t == [] then [x]
    else if cmp(x, t[0]) <= 0 then [x] + t
    else [t[0]] + Insert(x, t[1..], cmp)
  }

  lemma {:induction false} InsertMultiset<T>(x: T, t: seq<T>, cmp: (T, T) -> int)
    ensures multiset(Insert(x, t, cmp)) == multiset(t) + multiset{x}
  {
    if t != [] && cmp(x, t[0]) > 0 {
      InsertMultiset(x, t[1..], cmp);
      assert t == [t[0]] + t[1..];
    }
  }

  lemma {:induction false} InsertSorted<T(!new)>(x: T, t: seq<T>, cmp: (T, T) -> int)
    requires Consistent(cmp) && Sorted(t, cmp)
    ensures Sorted(Insert(x, t, cmp), cmp)
  {
    if t == [] {
    } else if cmp(x, t[0]) <= 0 {
      var r := [x] + t;
      forall i, j | 0 <= i < j < |r| ensures cmp(r[i], r[j]) <= 0 {
        if i == 0 && j > 1 {
          assert r[j] == t[j - 1];
          assert cmp(t[0], t[j - 1]) <= 0;
        }
      }
    } else {
      var rest := Insert(x, t[1..], cmp);
      InsertSorted(x, t[1..], cmp);
      InsertMultiset(x, t[1..], cmp);
      assert Sign(cmp(x, t[0])) == -Sign(cmp(t[0], x));
      var r := [t[0]] + rest;
      forall i, j | 0 <= i < j < |r| ensures cmp(r[i], r[j]) <= 0 {
        if i == 0 {
          assert r[j] in multiset(rest);
          if r[j] != x {
            assert r[j] in t[1..];
            var k :| 0 <= k < |t[1..]| && t[1..][k] == r[j];
            assert t[k + 1] == r[j];
          }
        }
      }
    }
  }

  /** Inserting `y` into a sorted `t` adds `y` in front of the elements tied
      with it and changes nothing else about any class of tied elements. */
  lemma {:induction false} InsertStable<T(!new)>(y: T, t: seq<T>, cmp: (T, T) -> int, x: T)
    requires Consistent(cmp)
    ensures Filter(Insert(y, t, cmp), Tied(cmp, x))
         == (if Tied(cmp, x)(y) then [y] else []) + Filter(t, Tied(cmp, x))
  {
    var p := Tied(cmp, x);
    if t == [] {
      FilterCons(y, [], p);
    } else if cmp(y, t[0]) <= 0 {
      FilterCons(y, t, p);
    } else {
      InsertStable(y, t[1..], cmp, x);
      NoDoubleTie(cmp, x, y, t[0]);
      InsertStableStep(y, t, cmp, x);
    }
  }

  lemma InsertStableStep<T(!new)>(y: T, t: seq<T>, cmp: (T, T) -> int, x: T)
    requires t != [] && cmp(y, t[0]) > 0
    requires !(Tied(cmp, x)(y) && Tied(cmp, x)(t[0]))
    requires Filter(Insert(y, t[1..], cmp), Tied(cmp, x))
          == (if Tied(cmp, x)(y) then [y] else []) + Filter(t[1..], Tied(cmp, x))
    ensures Filter(Insert(y, t, cmp), Tied(cmp, x))
         == (if Tied(cmp, x)(y) then [y] else []) + Filter(t, Tied(cmp, x))
  {
    var p := Tied(cmp, x);
    var rest := Insert(y, t[1..], cmp);
    var tail := Filter(t[1..], p);
    assert Insert(y, t, cmp) == [t[0]] + rest;
    assert t == [t[0]] + t[1..];
    FilterCons(t[0], rest, p);
    FilterCons(t[0], t[1..], p);
    if p(y) {
      assert !p(t[0]);
      assert Filter(rest, p) == [y] + tail;
      assert Filter(t, p) == tail;
    } else {
      assert Filter(rest, p) == tail;
      assert [] + Filter(t, p) == Filter(t, p);
    }
  }

  /** An element strictly smaller than `y` is not tied with anything `y` is
      tied with. */
  lemma NoDoubleTie<T(!new)>(cmp: (T, T) -> int, x: T, y: T, z: T)
    requires Consistent(cmp)
    requires cmp(y, z) > 0
    ensures !(Tied(cmp, x)(y) && Tied(cmp, x)(z))
  {
    TiesAreEquivalent(cmp, x, y, z);
    assert Sign(cmp(y, z)) == -Sign(cmp(z, y));
  }

  /** Stable insertion sort (`[...s].sort(cmp)`). */
  function SortBy<T(!new)>(s: seq<T>, cmp: (T, T) -> int): (r: seq<T>)
    requires Consistent(cmp)
    ensures multiset(r) == multiset(s)
    ensures Sorted(r, cmp)
    ensures forall x :: Filter(r, Tied(cmp, x)) == Filter(s, Tied(cmp, x))
    decreases |s|
  {
    if s == [] then []
    else
      var rest := SortBy(s[1..], cmp);
      InsertMultiset(s[0], rest, cmp);
      InsertSorted(s[0], rest, cmp);
      InsertKeepsStability(s, rest, cmp);
      MultisetCons(s);
      Insert(s[0], rest, cmp)
  }

  lemma InsertKeepsStability<T(!new)>(s: seq<T>, rest: seq<T>, cmp: (T, T) -> int)
    requires Consistent(cmp) && s != []
    requires forall x :: Filter(rest, Tied(cmp, x)) == Filter(s[1..], Tied(cmp, x))
    ensures forall x :: Filter(Insert(s[0], rest, cmp), Tied(cmp, x)) == Filter(s, Tied(cmp, x))
  {
    forall x ensures Filter(Insert(s[0], rest, cmp), Tied(cmp, x)) == Filter(s, Tied(cmp, x)) {
      InsertStable(s[0], rest, cmp, x);
      FilterCons(s[0], s[1..], Tied(cmp, x));
      assert s == [s[0]] + s[1..];
    }
  }

  /** No two positions of `s` compare equal. */
  ghost predicate NoTies<T>(s: seq<T>, cmp: (T, T) -> int) {
    forall i, j {:trigger cmp(s[i], s[j])} :: 0 <= i < j < |s| ==> cmp(s[i], s[j]) != 0
  }

  lemma {:induction false} CountTwo<T>(s: seq<T>, v: T)
    requires multiset(s)[v] >= 2
    ensures exists i, j :: 0 <= i < j < |s| && s[i] == v && s[j] == v
  {
    assert s == [s[0]] + s[1..];
    if s[0] == v {
      assert v in s[1..];
      var j :| 0 <= j < |s[1..]| && s[1..][j] == v;
      assert s[j + 1] == v;
    } else {
      CountTwo(s[1..], v);
      var i, j :| 0 <= i < j < |s[1..]| && s[1..][i] == v && s[1..][j] == v;
      assert s[i + 1] == v && s[j + 1] == v;
    }
  }

  lemma {:induction false} TwoPositionsCount<T>(s: seq<T>, i: int, j: int)
    requires 0 <= i < j < |s| && s[i] == s[j]
    ensures multiset(s)[s[i]] >= 2
  {
    assert s == s[..j] + [s[j]] + s[j + 1..];
    assert s[i] in s[..j];
  }

  /** Having no ties is a property of the multiset of elements. */
  lemma NoTiesPermutation<T(!new)>(a: seq<T>, b: seq<T>, cmp: (T, T) -> int)
    requires Consistent(cmp) && multiset(a) == multiset(b) && NoTies(a, cmp)
    ensures NoTies(b, cmp)
  {
    forall i, j | 0 <= i < j < |b| ensures cmp(b[i], b[j]) != 0 {
      if cmp(b[i], b[j]) == 0 {
        assert b[i] in multiset(a) && b[j] in multiset(a);
        var p :| 0 <= p < |a| && a[p] == b[i];
        var q :| 0 <= q < |a| && a[q] == b[j];
        TiesAreEquivalent(cmp, b[i], b[j], b[j]);
        if p == q {
          TwoPositionsCount(b, i, j);
          CountTwo(a, b[i]);
        }
      }
    }
  }

  /** A sorted arrangement of a multiset without ties is unique. */
  lemma {:induction false} SortedUnique<T(!new)>(a: seq<T>, b: seq<T>, cmp: (T, T) -> int)
    requires Consistent(cmp)
    requires multiset(a) == multiset(b) && NoTies(a, cmp)
    requires Sorted(a, cmp) && Sorted(b, cmp)
    ensures a == b
    decreases |a|
  {
    if a != [] {
      assert |b| == |multiset(b)| == |multiset(a)| == |a|;
      SortedSameHead(a, b, cmp);
      SortedTails(a, b, cmp);
      SortedUnique(a[1..], b[1..], cmp);
    }
  }

  lemma SortedTails<T(!new)>(a: seq<T>, b: seq<T>, cmp: (T, T) -> int)
    requires a != [] && b != [] && a[0] == b[0]
    requires multiset(a) == multiset(b) && NoTies(a, cmp)
    requires Sorted(a, cmp) && Sorted(b, cmp)
    ensures multiset(a[1..]) == multiset(b[1..])
    ensures NoTies(a[1..], cmp) && Sorted(a[1..], cmp) && Sorted(b[1..], cmp)
  {
    assert multiset(a[1..]) == multiset(b[1..]) by {
      assert a == [a[0]] + a[1..] && b == [b[0]] + b[1..];
      assert multiset(a[1..]) == multiset(a) - multiset{a[0]};
      assert multiset(b[1..]) == multiset(b) - multiset{b[0]};
    }
    TailKeepsOrder(a, cmp);
    TailKeepsOrder(b, cmp);
  }

  /** Dropping the first element keeps a sequence sorted and free of ties. */
  lemma TailKeepsOrder<T>(a: seq<T>, cmp: (T, T) -> int)
    requires a != []
    ensures Sorted(a, cmp) ==> Sorted(a[1..], cmp)
    ensures NoTies(a, cmp) ==> NoTies(a[1..], cmp)
  {
    var t := a[1..];
    assert forall i :: 0 <= i < |t| ==> t[i] == a[i + 1];
  }

  lemma SortedSameHead<T(!new)>(a: seq<T>, b: seq<T>, cmp: (T, T) -> int)
    requires Consistent(cmp)
    requires multiset(a) == multiset(b) && NoTies(a, cmp)
    requires Sorted(a, cmp) && Sorted(b, cmp)
    requires a != [] && b != []
    ensures a[0] == b[0]
  {
    assert b[0] in multiset(a);
    var m :| 0 <= m < |a| && a[m] == b[0];
    assert a[0] in multiset(b);
    var k :| 0 <= k < |b| && b[k] == a[0];
    assert cmp(b[0], b[k]) <= 0;
    assert Sign(cmp(a[0], a[m])) == -Sign(cmp(a[m], a[0]));
  }

  function Reverse<T>(s: seq<T>): (r: seq<T>)
    ensures |r| == |s|
    ensures forall i :: 0 <= i < |s| ==> r[i] == s[|s| - 1 - i]
  {
    if s == [] then [] else Reverse(s[1..]) + [s[0]]
  }

  lemma {:induction false} ReverseMultiset<T>(s: seq<T>)
    ensures multiset(Reverse(s)) == multiset(s)
  {
    if s != [] {
      ReverseMultiset(s[1..]);
      assert s == [s[0]] + s[1..];
    }
  }

  /** Reversing a sequence sorted by `cmp` gives one sorted by the swapped
      comparator. */
  lemma ReverseSorted<T>(s: seq<T>, cmp: (T, T) -> int, rev: (T, T) -> int)
    requires Sorted(s, cmp)
    requires forall a, b :: rev(a, b) == cmp(b, a)
    ensures Sorted(Reverse(s), rev)
  {
    var r := Reverse(s);
    forall i, j | 0 <= i < j < |r| ensures rev(r[i], r[j]) <= 0 {
      assert cmp(s[|s| - 1 - j], s[|s| - 1 - i]) <= 0;
    }
  }
}
