/** A stable sort under a caller-supplied "comes no later than" relation:
    the behaviour `Array.prototype.sort` guarantees for a consistent
    comparator. Elements the relation ranks equal keep their input order. */
module StableSort {

  /** `le` ranks every pair and is transitive: what a consistent JavaScript
      comparator `(a, b) => …` induces through "result <= 0". */
  ghost predicate TotalPreorder<T(!new)>(le: (T, T) -> bool)
  {
    && (forall a, b :: le(a, b) || le(b, a))
    && (forall a, b, c :: le(a, b) && le(b, c) ==> le(a, c))
  }

  predicate Sorted<T>(s: seq<T>, le: (T, T) -> bool)
  {
    forall i, j :: 0 <= i < j < |s| ==> le(s[i], s[j])
  }

  predicate Equiv<T>(le: (T, T) -> bool, a: T, b: T)
  {
    le(a, b) && le(b, a)
  }

  /** The elements of `s` ranked equal to `z`, in their order in `s`. */
  function EquivTo<T>(s: seq<T>, z: T, le: (T, T) -> bool): seq<T>
  {
    if s == [] then []
    else (if Equiv(le, s[0], z) then [s[0]] else []) + EquivTo(s[1..], z, le)
  }

  /** Places `x` before the first element it is ranked no later than. */
  function Insert<T>(x: T, s: seq<T>, le: (T, T) -> bool): seq<T>
  {
    if s == [] || le(x, s[0]) then [x] + s
    else [s[0]] + Insert(x, s[1..], le)
  }

  /** Insertion sort: each element, from the back, goes in front of the
      sorted rest, before everything it is ranked no later than. */
  function SortBy<T>(s: seq<T>, le: (T, T) -> bool): seq<T>
  {
    if s == [] then [] else Insert(s[0], SortBy(s[1..], le), le)
  }

  lemma {:induction false} InsertPermutation<T>(x: T, s: seq<T>, le: (T, T) -> bool)
    ensures multiset(Insert(x, s, le)) == multiset([x] + s)
    decreases |s|
  {
    if s != [] && !le(x, s[0]) {
      InsertPermutation(x, s[1..], le);
      assert s == [s[0]] + s[1..];
    }
  }

  /** The sorted list is a rearrangement of the input. */
  lemma {:induction false} SortByPermutation<T>(s: seq<T>, le: (T, T) -> bool)
    ensures multiset(SortBy(s, le)) == multiset(s)
    ensures |SortBy(s, le)| == |s|
    decreases |s|
  {
    if s != [] {
      SortByPermutation(s[1..], le);
      InsertPermutation(s[0], SortBy(s[1..], le), le);
      assert s == [s[0]] + s[1..];
      assert |SortBy(s, le)| == |multiset(SortBy(s, le))| == |multiset(s)| == |s|;
    }
  }

  lemma {:induction false} InsertSorted<T(!new)>(x: T, s: seq<T>, le: (T, T) -> bool)
    requires TotalPreorder(le)
    requires Sorted(s, le)
    ensures Sorted(Insert(x, s, le), le)
    decreases |s|
  {
    if s != [] && !le(x, s[0]) {
      InsertSorted(x, s[1..], le);
      InsertPermutation(x, s[1..], le);
      var r := Insert(x, s[1..], le);
      assert le(s[0], x);
      forall k | 0 <= k < |r|
        ensures le(s[0], r[k])
      {
        assert r[k] in multiset([x] + s[1..]);
        if r[k] != x {
          assert r[k] in s[1..];
        }
      }
    }
  }

  /** The sorted list is ordered by the relation. */
  lemma {:induction false} SortBySorted<T(!new)>(s: seq<T>, le: (T, T) -> bool)
    requires TotalPreorder(le)
    ensures Sorted(SortBy(s, le), le)
    decreases |s|
  {
    if s != [] {
      SortBySorted(s[1..], le);
      InsertSorted(s[0], SortBy(s[1..], le), le);
    }
  }

  lemma {:induction false} InsertStable<T(!new)>(x: T, s: seq<T>, z: T, le: (T, T) -> bool)
    requires TotalPreorder(le)
    ensures EquivTo(Insert(x, s, le), z, le) == EquivTo([x] + s, z, le)
    decreases |s|
  {
    if s == [] || le(x, s[0]) {
    } else {
      InsertStable(x, s[1..], z, le);
      assert ([x] + s)[1..] == s;
      assert ([x] + s[1..])[1..] == s[1..];
      assert s == [s[0]] + s[1..];
      assert (([s[0]] + Insert(x, s[1..], le)))[1..] == Insert(x, s[1..], le);
      assert !Equiv(le, s[0], x);
    }
  }

  /** Stability: for every rank, the elements of that rank come out in the
      order they went in. */
  lemma {:induction false} SortByStable<T(!new)>(s: seq<T>, z: T, le: (T, T) -> bool)
    requires TotalPreorder(le)
    ensures EquivTo(SortBy(s, le), z, le) == EquivTo(s, z, le)
    decreases |s|
  {
    if s != [] {
      SortByStable(s[1..], z, le);
      InsertStable(s[0], SortBy(s[1..], le), z, le);
      assert ([s[0]] + SortBy(s[1..], le))[1..] == SortBy(s[1..], le);
    }
  }

  /** An already ordered list comes out unchanged. */
  lemma {:induction false} SortBySortedUnchanged<T>(s: seq<T>, le: (T, T) -> bool)
    requires Sorted(s, le)
    ensures SortBy(s, le) == s
    decreases |s|
  {
    if s != [] {
      assert Sorted(s[1..], le);
      SortBySortedUnchanged(s[1..], le);
      assert s == [s[0]] + s[1..];
    }
  }

  lemma {:induction false} EquivToHead<T>(s: seq<T>, z: T, le: (T, T) -> bool)
    requires EquivTo(s, z, le) != []
    ensures exists i :: 0 <= i < |s| && s[i] == EquivTo(s, z, le)[0] && Equiv(le, s[i], z)
                        && forall j :: 0 <= j < i ==> !Equiv(le, s[j], z)
    decreases |s|
  {
    if !Equiv(le, s[0], z) {
      EquivToHead(s[1..], z, le);
      var i :| 0 <= i < |s[1..]| && s[1..][i] == EquivTo(s[1..], z, le)[0] && Equiv(le, s[1..][i], z)
               && forall j :: 0 <= j < i ==> !Equiv(le, s[1..][j], z);
      assert s[i + 1] == s[1..][i];
      forall j | 0 <= j < i + 1
        ensures !Equiv(le, s[j], z)
      {
        if j > 0 {
          assert s[j] == s[1..][j - 1];
        }
      }
    }
  }

  /** The first element of the sorted list is the earliest element of the
      input that is ranked no later than every other one: all elements
      before it in the input are ranked strictly later. */
  lemma SortByHead<T(!new)>(s: seq<T>, le: (T, T) -> bool)
    requires TotalPreorder(le)
    requires s != []
    ensures |SortBy(s, le)| == |s|
    ensures exists i :: 0 <= i < |s| && s[i] == SortBy(s, le)[0]
                        && (forall j :: 0 <= j < |s| ==> le(s[i], s[j]))
                        && (forall j :: 0 <= j < i ==> !le(s[j], s[i]))
  {
    var r := SortBy(s, le);
    SortByPermutation(s, le);
    SortByStable(s, r[0], le);
    var h := r[0];
    assert EquivTo(r, h, le) == [h] + EquivTo(r[1..], h, le);
    EquivToHead(s, h, le);
    SortByHeadLeast(s, le);
  }

  /** The head of the sorted list is ranked no later than any element. */
  lemma SortByHeadLeast<T(!new)>(s: seq<T>, le: (T, T) -> bool)
    requires TotalPreorder(le)
    requires s != []
    ensures |SortBy(s, le)| == |s|
    ensures forall j :: 0 <= j < |s| ==> le(SortBy(s, le)[0], s[j])
  {
    var r := SortBy(s, le);
    SortByPermutation(s, le);
    SortBySorted(s, le);
    forall j | 0 <= j < |s|
      ensures le(r[0], s[j])
    {
      assert s[j] in multiset(r);
      var k :| 0 <= k < |r| && r[k] == s[j];
      if k > 0 {
        assert le(r[0], r[k]);
      }
    }
  }

  /** Only how the elements of `s` compare matters: two orders that agree
      on them sort `s` alike. */
  lemma {:induction false} InsertAgree<T>(x: T, s: seq<T>, le1: (T, T) -> bool, le2: (T, T) -> bool)
    requires forall y :: y in s ==> le1(x, y) == le2(x, y)
    ensures Insert(x, s, le1) == Insert(x, s, le2)
    decreases |s|
  {
    if s != [] {
      assert s[0] in s;
      InsertAgree(x, s[1..], le1, le2);
    }
  }

  lemma {:induction false} SortByAgree<T>(s: seq<T>, le1: (T, T) -> bool, le2: (T, T) -> bool)
    requires forall a, b :: a in s && b in s ==> le1(a, b) == le2(a, b)
    ensures SortBy(s, le1) == SortBy(s, le2)
    decreases |s|
  {
    if s != [] {
      var t := SortBy(s[1..], le1);
      SortByAgree(s[1..], le1, le2);
      SortByPermutation(s[1..], le1);
      forall y | y in t
        ensures le1(s[0], y) == le2(s[0], y)
      {
        assert y in multiset(t);
        assert y in multiset(s[1..]);
        assert y in s[1..];
      }
      InsertAgree(s[0], t, le1, le2);
    }
  }

  /** The elements of `s` that satisfy `p`, in order. */
  function Filter<T>(s: seq<T>, p: T -> bool): (r: seq<T>)
    ensures |r| <= |s|
    ensures forall i :: 0 <= i < |r| ==> p(r[i])
  {
    if s == [] then [] else (if p(s[0]) then [s[0]] else []) + Filter(s[1..], p)
  }

  /** `xs` is `ys` with some elements left out, the rest in order. */
  predicate SubsequenceOf<T(==)>(xs: seq<T>, ys: seq<T>)
    decreases |ys|
  {
    if ys == [] then xs == []
    else (xs != [] && xs[0] == ys[0] && SubsequenceOf(xs[1..], ys[1..])) || SubsequenceOf(xs, ys[1..])
  }

  /** `filter` keeps a subsequence holding exactly the elements that pass. */
  lemma {:induction false} FilterSpec<T>(s: seq<T>, p: T -> bool)
    ensures SubsequenceOf(Filter(s, p), s)
    ensures forall x :: x in Filter(s, p) <==> x in s && p(x)
    decreases |s|
  {
    if s != [] {
      var rest := Filter(s[1..], p);
      FilterSpec(s[1..], p);
      assert s == [s[0]] + s[1..];
      if p(s[0]) {
        assert Filter(s, p) == [s[0]] + rest;
        assert ([s[0]] + rest)[1..] == rest;
      } else {
        assert Filter(s, p) == rest;
        assert SubsequenceOf(rest, s[1..]);
      }
    }
  }

  /** Filtering distributes over appending one element, which is how a
      `forEach` that pushes the passing elements builds the same list. */
  lemma {:induction false} FilterSnoc<T>(s: seq<T>, x: T, p: T -> bool)
    ensures Filter(s + [x], p) == Filter(s, p) + (if p(x) then [x] else [])
    decreases |s|
  {
    if s == [] {
      assert s + [x] == [x];
    } else {
      assert (s + [x])[1..] == s[1..] + [x];
      FilterSnoc(s[1..], x, p);
    }
  }

  lemma {:induction false} InsertAfterFirst<T>(x: T, m: seq<T>, o: seq<T>, le: (T, T) -> bool, p: T -> bool)
    requires forall a, b :: le(a, b) == (p(a) || !p(b))
    requires !p(x)
    requires forall i :: 0 <= i < |m| ==> p(m[i])
    requires forall i :: 0 <= i < |o| ==> !p(o[i])
    ensures Insert(x, m + o, le) == m + [x] + o
    decreases |m|
  {
    if m == [] {
      assert m + o == o;
      assert m + [x] + o == [x] + o;
    } else {
      assert (m + o)[0] == m[0];
      assert (m + o)[1..] == m[1..] + o;
      InsertAfterFirst(x, m[1..], o, le, p);
      assert m + [x] + o == [m[0]] + (m[1..] + [x] + o);
    }
  }

  lemma InsertBeforeAll<T>(x: T, m: seq<T>, o: seq<T>, le: (T, T) -> bool)
    requires forall y :: le(x, y)
    ensures Insert(x, m + o, le) == ([x] + m) + o
  {
    if m + o != [] {
      assert le(x, (m + o)[0]);
    }
  }

  /** The elements of `s` that do not satisfy `p`, in order. */
  function FilterNot<T>(s: seq<T>, p: T -> bool): (r: seq<T>)
    ensures |r| <= |s|
    ensures forall i :: 0 <= i < |r| ==> !p(r[i])
  {
    if s == [] then [] else (if p(s[0]) then [] else [s[0]]) + FilterNot(s[1..], p)
  }

  /** Sorting by a yes/no key: the elements with the key come first, then
      the others, each group in its original order. */
  lemma {:induction false} PartitionSort<T>(s: seq<T>, le: (T, T) -> bool, p: T -> bool)
    requires forall a, b :: le(a, b) == (p(a) || !p(b))
    ensures SortBy(s, le) == Filter(s, p) + FilterNot(s, p)
    decreases |s|
  {
    if s != [] {
      var x := s[0];
      var m := Filter(s[1..], p);
      var o := FilterNot(s[1..], p);
      PartitionSort(s[1..], le, p);
      assert SortBy(s, le) == Insert(x, m + o, le);
      if p(x) {
        assert Filter(s, p) == [x] + m && FilterNot(s, p) == o;
        InsertBeforeAll(x, m, o, le);
      } else {
        assert Filter(s, p) == m && FilterNot(s, p) == [x] + o;
        InsertAfterFirst(x, m, o, le, p);
        assert m + [x] + o == m + ([x] + o);
      }
    }
  }
}
