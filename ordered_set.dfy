/** A `std::set<T>` viewed as what it is semantically: a strictly increasing
    sequence of distinct elements under the container's ordering.  Iterating
    the set visits the sequence from left to right; `insert` adds an element at
    its place unless it is already there. */
module OrderedSet {

  /** `lt` is a strict total order: irreflexive, transitive and total. */
  ghost predicate IsStrictTotalOrder<T(!new)>(lt: (T, T) -> bool)
  {
    && (forall a :: !lt(a, a))
    && (forall a, b, c :: lt(a, b) && lt(b, c) ==> lt(a, c))
    && (forall a, b :: a != b ==> lt(a, b) || lt(b, a))
  }

  /** Every element is strictly below each element to its right. */
  ghost predicate Sorted<T>(s: seq<T>, lt: (T, T) -> bool)
  {
    forall i, j :: 0 <= i < j < |s| ==> lt(s[i], s[j])
  }

  function Elements<T>(s: seq<T>): set<T>
  {
    set x | x in s
  }

  /** `std::set::insert`: the element lands at its place in the order and a
      value that is already present is not added twice. */
  function Insert<T(==,!new)>(s: seq<T>, x: T, lt: (T, T) -> bool): (r: seq<T>)
    requires IsStrictTotalOrder(lt)
    requires Sorted(s, lt)
    ensures Sorted(r, lt)
    ensures Elements(r) == Elements(s) + {x}
    ensures |r| == if x in s then |s| else |s| + 1
  {
    if |s| == 0 then [x]
    else if x == s[0] then s
    else if lt(x, s[0]) then
      assert x !in s by {
        forall k | 0 <= k < |s| ensures s[k] != x {
          if k > 0 { assert lt(s[0], s[k]); }
        }
      }
      [x] + s
    else
      assert lt(s[0], x);
      var tail := Insert(s[1..], x, lt);
      assert Elements(s) == {s[0]} + Elements(s[1..]) by {
        assert s == [s[0]] + s[1..];
      }
      assert s[0] !in s[1..] by {
        forall k | 0 <= k < |s| - 1 ensures s[1..][k] != s[0] {
          assert lt(s[0], s[k + 1]);
        }
      }
      assert forall k :: 0 <= k < |tail| ==> lt(s[0], tail[k]) by {
        forall k | 0 <= k < |tail| ensures lt(s[0], tail[k]) {
          assert tail[k] in Elements(tail);
          if tail[k] != x {
            var m :| 0 <= m < |s[1..]| && s[1..][m] == tail[k];
            assert lt(s[0], s[m + 1]);
          }
        }
      }
      var r := [s[0]] + tail;
      assert Elements(r) == {s[0]} + Elements(tail);
      r
  }

  /** Inserting every element of `xs`, first to last, into the empty set:
      the contents of a set filled by a loop of `insert` calls. */
  function InsertAll<T(==,!new)>(xs: seq<T>, lt: (T, T) -> bool): (r: seq<T>)
    requires IsStrictTotalOrder(lt)
    ensures Sorted(r, lt)
    ensures Elements(r) == Elements(xs)
    ensures |r| <= |xs|
  {
    if |xs| == 0 then []
    else
      var front := InsertAll(xs[..|xs| - 1], lt);
      assert Elements(xs) == Elements(xs[..|xs| - 1]) + {xs[|xs| - 1]} by {
        assert xs == xs[..|xs| - 1] + [xs[|xs| - 1]];
      }
      Insert(front, xs[|xs| - 1], lt)
  }

  /** Inserting one more element at the end of the input inserts it into the
      set built so far. */
  lemma InsertAllAppend<T(!new)>(xs: seq<T>, x: T, lt: (T, T) -> bool)
    requires IsStrictTotalOrder(lt)
    ensures InsertAll(xs + [x], lt) == Insert(InsertAll(xs, lt), x, lt)
  {
    assert (xs + [x])[..|xs|] == xs;
  }

  /** A sorted sequence holds no element twice. */
  lemma {:induction false} SortedDistinct<T(!new)>(s: seq<T>, lt: (T, T) -> bool, i: int, j: int)
    requires IsStrictTotalOrder(lt)
    requires Sorted(s, lt)
    requires 0 <= i < |s| && 0 <= j < |s| && i != j
    ensures s[i] != s[j]
  {
    if i < j {
      assert lt(s[i], s[j]);
    } else {
      assert lt(s[j], s[i]);
    }
  }

  /** A set of distinct elements is as large as its sorted enumeration. */
  lemma {:induction false} SortedCardinality<T(!new)>(s: seq<T>, lt: (T, T) -> bool)
    requires IsStrictTotalOrder(lt)
    requires Sorted(s, lt)
    ensures |Elements(s)| == |s|
  {
    if |s| > 0 {
      var init := s[..|s| - 1];
      assert Sorted(init, lt);
      SortedCardinality(init, lt);
      assert s == init + [s[|s| - 1]];
      assert Elements(s) == Elements(init) + {s[|s| - 1]};
      assert s[|s| - 1] !in init by {
        forall k | 0 <= k < |init| ensures init[k] != s[|s| - 1] {
          SortedDistinct(s, lt, k, |s| - 1);
        }
      }
    }
  }

  /** The first element of a sorted sequence is its least element. */
  lemma SortedHeadLeast<T(!new)>(s: seq<T>, x: T, lt: (T, T) -> bool)
    requires Sorted(s, lt)
    requires x in Elements(s)
    ensures x == s[0] || lt(s[0], x)
  {
    var i :| 0 <= i < |s| && s[i] == x;
    if i > 0 {
      assert lt(s[0], s[i]);
    }
  }

  /** Two sorted enumerations of the same set are the same sequence: the
      iteration order of a `std::set` depends on its contents alone. */
  lemma {:induction false} SortedUnique<T(!new)>(s: seq<T>, t: seq<T>, lt: (T, T) -> bool)
    requires IsStrictTotalOrder(lt)
    requires Sorted(s, lt) && Sorted(t, lt)
    requires Elements(s) == Elements(t)
    ensures s == t
    decreases |s|
  {
    SortedCardinality(s, lt);
    SortedCardinality(t, lt);
    assert |s| == |t|;
    if |s| > 0 {
      assert Sorted(s[1..], lt) && Sorted(t[1..], lt);
      // The first element of each is the least of the common set.
      assert s[0] == t[0] by {
        SortedHeadLeast(t, s[0], lt);
        SortedHeadLeast(s, t[0], lt);
      }
      assert Elements(s[1..]) == Elements(s) - {s[0]} by {
        assert s == [s[0]] + s[1..];
        forall k | 0 <= k < |s| - 1 ensures s[1..][k] != s[0] {
          SortedDistinct(s, lt, 0, k + 1);
        }
      }
      assert Elements(t[1..]) == Elements(t) - {t[0]} by {
        assert t == [t[0]] + t[1..];
        forall k | 0 <= k < |t| - 1 ensures t[1..][k] != t[0] {
          SortedDistinct(t, lt, 0, k + 1);
        }
      }
      SortedUnique(s[1..], t[1..], lt);
      assert s == [s[0]] + s[1..] && t == [t[0]] + t[1..];
    }
  }

  /** The natural order on integers, the order of a `std::set<int>`. */
  function IntLess(a: int, b: int): bool
  {
    a < b
  }

  lemma IntLessIsStrictTotalOrder()
    ensures IsStrictTotalOrder(IntLess)
  {
  }

  /** The order of a `std::set<std::string>`: lexicographic by character
      code, a proper prefix coming first. */
  function StringLess(a: string, b: string): (r: bool)
    ensures a < b ==> r
    ensures r ==> !(b <= a)
  {
    if |a| == 0 then |b| > 0
    else if |b| == 0 then false
    else if a[0] != b[0] then a[0] < b[0]
    else StringLess(a[1..], b[1..])
  }

  lemma {:induction false} StringLessIrreflexive(a: string)
    ensures !StringLess(a, a)
  {
    if |a| > 0 { StringLessIrreflexive(a[1..]); }
  }

  lemma {:induction false} StringLessTransitive(a: string, b: string, c: string)
    requires StringLess(a, b) && StringLess(b, c)
    ensures StringLess(a, c)
  {
    if |a| > 0 && |b| > 0 && |c| > 0 && a[0] == b[0] && b[0] == c[0] {
      StringLessTransitive(a[1..], b[1..], c[1..]);
    }
  }

  lemma {:induction false} StringLessTotal(a: string, b: string)
    requires a != b
    ensures StringLess(a, b) || StringLess(b, a)
  {
    if |a| > 0 && |b| > 0 && a[0] == b[0] {
      assert a == [a[0]] + a[1..] && b == [b[0]] + b[1..];
      StringLessTotal(a[1..], b[1..]);
    }
  }

  /** `insert` into a `std::set<std::string>`. */
  function InsertString(s: seq<string>, x: string): (r: seq<string>)
    requires Sorted(s, StringLess)
    ensures Sorted(r, StringLess)
    ensures Elements(r) == Elements(s) + {x}
    ensures |r| == if x in s then |s| else |s| + 1
  {
    StringLessIsStrictTotalOrder();
    Insert(s, x, StringLess)
  }

  lemma StringLessIsStrictTotalOrder()
    ensures IsStrictTotalOrder(StringLess)
  {
    forall a ensures !StringLess(a, a) { StringLessIrreflexive(a); }
    forall a, b, c | StringLess(a, b) && StringLess(b, c) ensures StringLess(a, c) {
      StringLessTransitive(a, b, c);
    }
    forall a, b | a != b ensures StringLess(a, b) || StringLess(b, a) {
      StringLessTotal(a, b);
    }
  }
}
