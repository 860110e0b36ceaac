/**
 * Python's `sorted`: a stable sort under a total preorder `le` ("a may come before b").
 * Modelled as a stable insertion sort; what callers rely on is stated by the lemmas:
 * the result is a permutation of the input, it is sorted, and elements that tie keep
 * their input order.
 */
module Sorting {

  ghost predicate TotalPreorder<T(!new)>(le: (T, T) -> bool)
  {
    && (forall a, b :: le(a, b) || le(b, a))
    && (forall a, b, c :: le(a, b) && le(b, c) ==> le(a, c))
  }

  predicate Sorted<T>(s: seq<T>, le: (T, T) -> bool)
  {
    forall i, j | 0 <= i < j < |s| :: le(s[i], s[j])
  }

  /** Inserts `x` after every element of `s` that is not strictly above it. */
  function Insert<T>(x: T, s: seq<T>, le: (T, T) -> bool): (r: seq<T>)
    ensures |r| == |s| + 1
  {
    if s == [] then [x]
    else if le(s[|s| - 1], x) then s + [x]
    else Insert(x, s[..|s| - 1], le) + [s[|s| - 1]]
  }

  function Sort<T>(s: seq<T>, le: (T, T) -> bool): (r: seq<T>)
    ensures |r| == |s|
  {
    if s == [] then [] else Insert(s[|s| - 1], Sort(s[..|s| - 1], le), le)
  }

  /** The elements of `s` that tie with `z`, in order. */
  function Ties<T>(s: seq<T>, z: T, le: (T, T) -> bool): seq<T>
  {
    if s == [] then []
    else Ties(s[..|s| - 1], z, le) + (if le(s[|s| - 1], z) && le(z, s[|s| - 1]) then [s[|s| - 1]] else [])
  }

  lemma {:induction false} InsertPermutes<T>(x: T, s: seq<T>, le: (T, T) -> bool)
    ensures multiset(Insert(x, s, le)) == multiset(s) + multiset{x}
  {
    if s != [] && !le(s[|s| - 1], x) {
      InsertPermutes(x, s[..|s| - 1], le);
      assert s == s[..|s| - 1] + [s[|s| - 1]];
    }
  }

  lemma {:induction false} SortPermutes<T>(s: seq<T>, le: (T, T) -> bool)
    ensures multiset(Sort(s, le)) == multiset(s)
  {
    if s != [] {
      var init, last := s[..|s| - 1], s[|s| - 1];
      SortPermutes(init, le);
      InsertPermutes(last, Sort(init, le), le);
      assert Sort(s, le) == Insert(last, Sort(init, le), le);
      assert s == init + [last];
      assert multiset(s) == multiset(init) + multiset{last};
    }
  }

  lemma {:induction false} InsertSorted<T(!new)>(x: T, s: seq<T>, le: (T, T) -> bool)
    requires TotalPreorder(le)
    requires Sorted(s, le)
    ensures Sorted(Insert(x, s, le), le)
  {
    if s == [] {
    } else if le(s[|s| - 1], x) {
      var r := s + [x];
      forall i, j | 0 <= i < j < |r| ensures le(r[i], r[j]) {
        if j == |s| && i < |s| - 1 {
          assert le(s[i], s[|s| - 1]);
        }
      }
    } else {
      var init, last := s[..|s| - 1], s[|s| - 1];
      InsertSorted(x, init, le);
      InsertPermutes(x, init, le);
      var ins := Insert(x, init, le);
      var r := ins + [last];
      forall i, j | 0 <= i < j < |r| ensures le(r[i], r[j]) {
        if j == |ins| {
          assert r[i] in multiset(ins);
          if r[i] != x {
            assert r[i] in multiset(init);
            var k :| 0 <= k < |init| && init[k] == r[i];
            assert le(s[k], s[|s| - 1]);
          }
        }
      }
    }
  }

  lemma {:induction false} SortSorted<T(!new)>(s: seq<T>, le: (T, T) -> bool)
    requires TotalPreorder(le)
    ensures Sorted(Sort(s, le), le)
  {
    if s != [] {
      SortSorted(s[..|s| - 1], le);
      InsertSorted(s[|s| - 1], Sort(s[..|s| - 1], le), le);
    }
  }

  lemma {:induction false} TiesAppend<T>(s: seq<T>, t: seq<T>, z: T, le: (T, T) -> bool)
    ensures Ties(s + t, z, le) == Ties(s, z, le) + Ties(t, z, le)
    decreases |t|
  {
    if t != [] {
      TiesAppend(s, t[..|t| - 1], z, le);
      assert (s + t)[..|s + t| - 1] == s + t[..|t| - 1];
    } else {
      assert s + t == s;
    }
  }

  lemma {:induction false} InsertStable<T(!new)>(x: T, s: seq<T>, z: T, le: (T, T) -> bool)
    requires TotalPreorder(le)
    requires Sorted(s, le)
    ensures Ties(Insert(x, s, le), z, le)
         == Ties(s, z, le) + (if le(x, z) && le(z, x) then [x] else [])
  {
    if s == [] {
    } else if le(s[|s| - 1], x) {
      TiesAppend(s, [x], z, le);
    } else {
      var init, last := s[..|s| - 1], s[|s| - 1];
      InsertStable(x, init, z, le);
      TiesAppend(Insert(x, init, le), [last], z, le);
      TiesAppend(init, [last], z, le);
      assert s == init + [last];
      // x and last cannot both tie with z, for then last <= x
      assert !(le(x, z) && le(z, x) && le(last, z) && le(z, last));
    }
  }

  /** Stability: the elements tying with any `z` come out in their input order. */
  lemma {:induction false} SortStable<T(!new)>(s: seq<T>, z: T, le: (T, T) -> bool)
    requires TotalPreorder(le)
    ensures Ties(Sort(s, le), z, le) == Ties(s, z, le)
  {
    if s != [] {
      SortStable(s[..|s| - 1], z, le);
      SortSorted(s[..|s| - 1], le);
      InsertStable(s[|s| - 1], Sort(s[..|s| - 1], le), z, le);
    }
  }
}
