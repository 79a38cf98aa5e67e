/** The two list primitives every store operation is built from:
    `Array.prototype.filter` and the stable `Array.prototype.sort`. */
module Seqs {

  /** `s.filter(f)`: exactly the elements satisfying `f`, with their
      multiplicities, in their original order (see FilterConcat). */
  function Filter<T(!new)>(s: seq<T>, f: T -> bool): (r: seq<T>)
    ensures |r| <= |s|
    ensures forall i :: 0 <= i < |r| ==> f(r[i])
    ensures forall x :: multiset(r)[x] == if f(x) then multiset(s)[x] else 0
  {
    if s == [] then []
    else
      var rest := Filter(s[1..], f);
      assert s == [s[0]] + s[1..];
      if f(s[0]) then [s[0]] + rest else rest
  }

  lemma {:induction false} FilterConcat<T(!new)>(a: seq<T>, b: seq<T>, f: T -> bool)
    ensures Filter(a + b, f) == Filter(a, f) + Filter(b, f)
  {
    if a == [] {
      assert a + b == b;
    } else {
      assert (a + b)[0] == a[0];
      assert (a + b)[1..] == a[1..] + b;
      FilterConcat(a[1..], b, f);
    }
  }

  /** An element is in the filtered list exactly when it is in the list and
      passes the test. */
  lemma FilterMembers<T(!new)>(s: seq<T>, f: T -> bool)
    ensures forall x :: x in Filter(s, f) <==> x in s && f(x)
  {
    var r := Filter(s, f);
    forall x ensures x in r <==> x in s && f(x) {
      assert x in r <==> multiset(r)[x] > 0;
      assert x in s <==> multiset(s)[x] > 0;
    }
  }

  /** Filtering the prefix one element longer adds that element or nothing. */
  lemma FilterSnoc<T(!new)>(s: seq<T>, i: nat, f: T -> bool)
    requires i < |s|
    ensures Filter(s[..i + 1], f) == Filter(s[..i], f) + (if f(s[i]) then [s[i]] else [])
  {
    assert s[..i + 1] == s[..i] + [s[i]];
    FilterConcat(s[..i], [s[i]], f);
  }

  lemma {:induction false} FilterKeepsAll<T(!new)>(s: seq<T>, f: T -> bool)
    ensures (forall i :: 0 <= i < |s| ==> f(s[i])) ==> Filter(s, f) == s
  {
    if s != [] && forall i :: 0 <= i < |s| ==> f(s[i]) {
      FilterKeepsAll(s[1..], f);
    }
  }

  // ---------------------------------------------------------------------
  // Stable insertion sort under a total preorder

  ghost predicate Total<T(!new)>(le: (T, T) -> bool)
  {
    forall a, b :: le(a, b) || le(b, a)
  }

  /** Each element is ordered before its successor. */
  predicate SortedBy<T(!new)>(s: seq<T>, le: (T, T) -> bool)
  {
    forall i :: 0 < i < |s| ==> le(s[i - 1], s[i])
  }

  ghost predicate Transitive<T(!new)>(le: (T, T) -> bool)
  {
    forall a, b, c :: le(a, b) && le(b, c) ==> le(a, c)
  }

  /** In a sorted list the head is ordered before every later element. */
  lemma {:induction false} SortedHeadFirst<T(!new)>(s: seq<T>, le: (T, T) -> bool, j: nat)
    requires Transitive(le) && SortedBy(s, le)
    requires 0 < j < |s|
    ensures le(s[0], s[j])
  {
    if j > 1 {
      SortedHeadFirst(s, le, j - 1);
    }
  }

  /** Removing elements from a sorted list leaves it sorted. */
  lemma {:induction false} FilterSorted<T(!new)>(s: seq<T>, f: T -> bool, le: (T, T) -> bool)
    requires Transitive(le) && SortedBy(s, le)
    ensures SortedBy(Filter(s, f), le)
  {
    if s != [] {
      var rest := Filter(s[1..], f);
      assert SortedBy(s[1..], le);
      FilterSorted(s[1..], f, le);
      if f(s[0]) && rest != [] {
        assert le(s[0], rest[0]) by {
          assert rest[0] in multiset(rest);
          assert rest[0] in s[1..];
          var j :| 0 <= j < |s[1..]| && s[1..][j] == rest[0];
          SortedHeadFirst(s, le, j + 1);
        }
        SortedCons(s[0], rest, le);
      }
    }
  }

  lemma SortedCons<T(!new)>(h: T, t: seq<T>, le: (T, T) -> bool)
    requires SortedBy(t, le) && (t == [] || le(h, t[0]))
    ensures SortedBy([h] + t, le)
  {
    var r := [h] + t;
    forall i | 0 < i < |r| ensures le(r[i - 1], r[i]) {
      if i > 1 {
        assert r[i - 1] == t[i - 2] && r[i] == t[i - 1];
      }
    }
  }

  /** Places `x` before the first element it is not after. */
  function Insert<T(!new)>(x: T, s: seq<T>, le: (T, T) -> bool): (r: seq<T>)
    ensures |r| == |s| + 1
    ensures multiset(r) == multiset(s) + multiset{x}
    ensures r[0] == x || (s != [] && r[0] == s[0])
  {
    if s == [] || le(x, s[0]) then [x] + s
    else
      var rest := Insert(x, s[1..], le);
      assert s == [s[0]] + s[1..];
      [s[0]] + rest
  }

  lemma {:induction false} InsertSorted<T(!new)>(x: T, s: seq<T>, le: (T, T) -> bool)
    ensures Total(le) && SortedBy(s, le) ==> SortedBy(Insert(x, s, le), le)
  {
    if Total(le) && SortedBy(s, le) && s != [] && !le(x, s[0]) {
      assert le(s[0], x);
      InsertSorted(x, s[1..], le);
    }
  }

  /** The stable sort the source gets from `Array.prototype.sort`. */
  function SortBy<T(!new)>(s: seq<T>, le: (T, T) -> bool): (r: seq<T>)
    ensures |r| == |s|
    ensures multiset(r) == multiset(s)
    ensures Total(le) ==> SortedBy(r, le)
  {
    if s == [] then []
    else
      assert s == [s[0]] + s[1..];
      var rest := SortBy(s[1..], le);
      InsertSorted(s[0], rest, le);
      Insert(s[0], rest, le)
  }

  // ---------------------------------------------------------------------
  // Distinct keys

  /** No two positions hold elements with equal keys. */
  predicate DistinctBy<T(!new), K(==)>(s: seq<T>, key: T -> K)
  {
    forall i, j :: 0 <= i < j < |s| ==> key(s[i]) != key(s[j])
  }

  lemma {:induction false} DistinctCount<T(!new), K>(s: seq<T>, key: T -> K, x: T)
    requires DistinctBy(s, key)
    ensures multiset(s)[x] <= 1
  {
    if s != [] {
      assert s == [s[0]] + s[1..];
      assert DistinctBy(s[1..], key);
      DistinctCount(s[1..], key, x);
      if x == s[0] {
        forall k | 0 <= k < |s[1..]| ensures s[1..][k] != x {
          assert key(s[0]) != key(s[k + 1]);
        }
      }
    }
  }

  lemma TwiceCount<T>(s: seq<T>, i: nat, j: nat)
    requires i < j < |s| && s[i] == s[j]
    ensures multiset(s)[s[i]] >= 2
  {
    assert s == s[..j] + s[j..];
    assert s[i] == s[..j][i];
    assert s[j..][0] == s[i];
  }

  /** Reordering a list whose keys are distinct keeps them distinct. */
  lemma PermutationKeepsDistinct<T(!new), K>(a: seq<T>, b: seq<T>, key: T -> K)
    requires multiset(a) == multiset(b) && DistinctBy(a, key)
    ensures DistinctBy(b, key)
  {
    forall i, j | 0 <= i < j < |b| ensures key(b[i]) != key(b[j]) {
      assert b[i] in multiset(a) && b[j] in multiset(a);
      var p :| 0 <= p < |a| && a[p] == b[i];
      var q :| 0 <= q < |a| && a[q] == b[j];
      if p == q {
        TwiceCount(b, i, j);
        DistinctCount(a, key, b[i]);
        assert false;
      } else if p < q {
        assert key(a[p]) != key(a[q]);
      } else {
        assert key(a[q]) != key(a[p]);
      }
    }
  }

  /** In a list sorted under a transitive order every earlier element is
      ordered before every later one. */
  lemma {:induction false} SortedPair<T(!new)>(s: seq<T>, le: (T, T) -> bool, i: nat, j: nat)
    requires Transitive(le) && SortedBy(s, le)
    requires i < j < |s|
    ensures le(s[i], s[j])
  {
    if i + 1 < j {
      SortedPair(s, le, i, j - 1);
    }
  }

  // ---------------------------------------------------------------------
  // Moving one group to the front

  function Negate<T>(f: T -> bool): T -> bool
  {
    (x: T) => !f(x)
  }

  lemma {:induction false} FilterNone<T(!new)>(s: seq<T>, f: T -> bool)
    requires forall i :: 0 <= i < |s| ==> !f(s[i])
    ensures Filter(s, f) == []
  {
    if s != [] {
      FilterNone(s[1..], f);
    }
  }

  /** The elements satisfying `f`, then the others, each group in its
      original order. */
  function GroupFirst<T(!new)>(s: seq<T>, f: T -> bool): (r: seq<T>)
    ensures multiset(r) == multiset(s)
  {
    var front, back := Filter(s, f), Filter(s, Negate(f));
    assert forall x :: multiset(front + back)[x] == multiset(s)[x];
    front + back
  }

  /** Every member of the group comes before every non-member. */
  lemma GroupFirstOrder<T(!new)>(s: seq<T>, f: T -> bool)
    ensures var r := GroupFirst(s, f);
      forall i, j :: 0 <= i < j < |r| && f(r[j]) ==> f(r[i])
  {
    var front, back := Filter(s, f), Filter(s, Negate(f));
    var r := front + back;
    forall k | |front| <= k < |r| ensures !f(r[k]) {
      assert r[k] == back[k - |front|];
    }
    forall i, j | 0 <= i < j < |r| && f(r[j]) ensures f(r[i]) {
      assert r[i] == front[i];
    }
  }

  /** Stability: within each group the original order is kept. */
  lemma GroupFirstStable<T(!new)>(s: seq<T>, f: T -> bool)
    ensures Filter(GroupFirst(s, f), f) == Filter(s, f)
    ensures Filter(GroupFirst(s, f), Negate(f)) == Filter(s, Negate(f))
  {
    var front, back := Filter(s, f), Filter(s, Negate(f));
    FilterConcat(front, back, f);
    FilterConcat(front, back, Negate(f));
    FilterKeepsAll(front, f);
    FilterKeepsAll(back, Negate(f));
    FilterNone(back, f);
    FilterNone(front, Negate(f));
  }

  /** The comparator `a in group && b not in group ? -1 : a not in group &&
      b in group ? 1 : 0`, read as "`a` may come before `b`". */
  function GroupLe<T>(f: T -> bool): (T, T) -> bool
  {
    (a: T, b: T) => f(a) || !f(b)
  }

  lemma GroupLeOrder<T(!new)>(f: T -> bool)
    ensures Total(GroupLe(f)) && Transitive(GroupLe(f))
  {
  }

  /** Insert passes over every element `x` is not ordered before and stops
      at the first one it is. */
  lemma {:induction false} InsertBefore<T(!new)>(x: T, a: seq<T>, b: seq<T>, le: (T, T) -> bool)
    requires forall i :: 0 <= i < |a| ==> !le(x, a[i])
    requires b == [] || le(x, b[0])
    ensures Insert(x, a + b, le) == a + ([x] + b)
  {
    if a == [] {
      assert a + b == b;
    } else {
      var rest := a[1..];
      calc {
        Insert(x, a + b, le);
        == { ConsSplit(a, b); }
        Insert(x, [a[0]] + (rest + b), le);
        == { InsertStep(x, a[0], rest + b, le); }
        [a[0]] + Insert(x, rest + b, le);
        == { InsertBefore(x, rest, b, le); }
        [a[0]] + (rest + ([x] + b));
        == { ConsSplit(a, [x] + b); }
        a + ([x] + b);
      }
    }
  }

  /** Insert passes an element that `x` is not before. */
  lemma InsertStep<T(!new)>(x: T, h: T, t: seq<T>, le: (T, T) -> bool)
    requires !le(x, h)
    ensures Insert(x, [h] + t, le) == [h] + Insert(x, t, le)
  {
    assert ([h] + t)[0] == h && ([h] + t)[1..] == t;
  }

  lemma ConsSplit<T>(a: seq<T>, c: seq<T>)
    requires a != []
    ensures a + c == [a[0]] + (a[1..] + c)
  {
  }

  lemma GroupFirstParts<T(!new)>(s: seq<T>, f: T -> bool)
    ensures GroupFirst(s, f) == Filter(s, f) + Filter(s, Negate(f))
  {
  }

  lemma FilterCons<T(!new)>(x: T, t: seq<T>, f: T -> bool)
    ensures Filter([x] + t, f) == if f(x) then [x] + Filter(t, f) else Filter(t, f)
  {
    assert ([x] + t)[0] == x && ([x] + t)[1..] == t;
  }

  /** Inserting into a grouped list: a member goes to the very front, a
      non-member between the members and the non-members. */
  lemma InsertGrouped<T(!new)>(x: T, a: seq<T>, b: seq<T>, f: T -> bool)
    requires forall i :: 0 <= i < |a| ==> f(a[i])
    requires forall i :: 0 <= i < |b| ==> !f(b[i])
    ensures Insert(x, a + b, GroupLe(f)) == if f(x) then ([x] + a) + b else a + ([x] + b)
  {
    if f(x) {
      InsertMember(x, a + b, f);
    } else {
      InsertNonMember(x, a, b, f);
    }
  }

  /** A member goes in front of everything. */
  lemma InsertMember<T(!new)>(x: T, s: seq<T>, f: T -> bool)
    requires f(x)
    ensures Insert(x, s, GroupLe(f)) == [x] + s
  {
    assert s == [] || GroupLe(f)(x, s[0]);
    InsertBefore(x, [], s, GroupLe(f));
    assert [] + s == s && [] + ([x] + s) == [x] + s;
  }

  /** A non-member passes the members and stops at the first non-member. */
  lemma {:induction false} InsertNonMember<T(!new)>(x: T, a: seq<T>, b: seq<T>, f: T -> bool)
    requires !f(x)
    requires forall i :: 0 <= i < |a| ==> f(a[i])
    requires forall i :: 0 <= i < |b| ==> !f(b[i])
    ensures Insert(x, a + b, GroupLe(f)) == a + ([x] + b)
  {
    if a == [] {
      assert a + b == b;
      assert b == [] || GroupLe(f)(x, b[0]);
    } else {
      var rest := a[1..];
      assert (a + b)[0] == a[0] && (a + b)[1..] == rest + b;
      assert !GroupLe(f)(x, a[0]);
      InsertNonMember(x, rest, b, f);
      assert a + ([x] + b) == [a[0]] + (rest + ([x] + b));
    }
  }

  /** One insertion step of the stable sort on grouped input. */
  lemma InsertIntoGroups<T(!new)>(x: T, t: seq<T>, f: T -> bool)
    ensures Insert(x, GroupFirst(t, f), GroupLe(f)) == GroupFirst([x] + t, f)
  {
    var front, back := Filter(t, f), Filter(t, Negate(f));
    GroupFirstParts(t, f);
    GroupFirstParts([x] + t, f);
    FilterCons(x, t, f);
    FilterCons(x, t, Negate(f));
    assert forall i :: 0 <= i < |back| ==> !f(back[i]);
    InsertGrouped(x, front, back, f);
  }

  /** A stable sort with the group comparator moves the group to the front
      and keeps every other order: it is GroupFirst. */
  lemma {:induction false} StableSortIsGroupFirst<T(!new)>(s: seq<T>, f: T -> bool)
    ensures SortBy(s, GroupLe(f)) == GroupFirst(s, f)
  {
    if s != [] {
      StableSortIsGroupFirst(s[1..], f);
      InsertIntoGroups(s[0], s[1..], f);
      assert [s[0]] + s[1..] == s;
    }
  }

  // ---------------------------------------------------------------------
  // In-place stable sort

  /** Sorting a suffix inserts its head into the sorted rest. */
  lemma SortStep<T(!new)>(s: seq<T>, i: nat, le: (T, T) -> bool)
    requires i < |s|
    ensures SortBy(s[i..], le) == Insert(s[i], SortBy(s[i + 1..], le), le)
  {
    assert s[i..][0] == s[i] && s[i..][1..] == s[i + 1..];
  }

  /** Moves `a[i]` rightwards past every element it is not ordered
      before: one Insert, done in place on `a[i..]`. */
  method InsertInPlace<T(!new)>(a: array<T>, i: nat, le: (T, T) -> bool)
    requires i < a.Length
    modifies a
    ensures a[..i] == old(a[..i])
    ensures a[i..] == Insert(old(a[i]), old(a[i + 1..]), le)
  {
    var x := a[i];
    ghost var prefix, sorted := a[..i], a[i + 1..];
    var j := i;
    while j + 1 < a.Length && !le(x, a[j + 1])
      invariant i <= j < a.Length
      invariant forall k :: 0 <= k < i ==> a[k] == prefix[k]
      invariant forall k :: i <= k < j ==> a[k] == sorted[k - i]
      invariant forall k :: j < k < a.Length ==> a[k] == sorted[k - i - 1]
      invariant forall m :: 0 <= m < j - i ==> !le(x, sorted[m])
    {
      a[j] := a[j + 1];
      j := j + 1;
    }
    a[j] := x;
    ghost var r := sorted[..j - i] + ([x] + sorted[j - i..]);
    forall k | i <= k < a.Length ensures a[k] == r[k - i] {
      if k < j {
        assert r[k - i] == sorted[k - i];
      } else if k > j {
        assert r[k - i] == sorted[k - i - 1];
      }
    }
    assert a[i..] == r;
    assert a[..i] == prefix;
    assert sorted == sorted[..j - i] + sorted[j - i..];
    InsertBefore(x, sorted[..j - i], sorted[j - i..], le);
  }

  /** `a.sort(cmp)`: an in-place insertion sort, run from the right end so
      that each step is the Insert of SortBy. */
  method InsertionSort<T(!new)>(a: array<T>, le: (T, T) -> bool)
    modifies a
    ensures a[..] == SortBy(old(a[..]), le)
  {
    ghost var s := a[..];
    var i := a.Length;
    while i > 0
      invariant 0 <= i <= a.Length
      invariant a[..i] == s[..i]
      invariant a[i..] == SortBy(s[i..], le)
    {
      i := i - 1;
      assert a[..i] == s[..i] by {
        assert a[..i] == a[..i + 1][..i] && s[..i] == s[..i + 1][..i];
      }
      assert a[i] == s[i] by {
        assert a[i] == a[..i + 1][i] && s[i] == s[..i + 1][i];
      }
      SortStep(s, i, le);
      InsertInPlace(a, i, le);
    }
    assert a[..] == a[0..] && s == s[0..];
  }
}
