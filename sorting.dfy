/** The sort processResponse runs on the decoded array (`json.response.sort(arrSort)`,
    script.js:97). Array.prototype.sort leaves its algorithm to the host; this model uses an
    insertion sort that shifts an element left past every element the comparator puts after it,
    specified by a function on sequences and run in place on an array. */
module Sorting {

  /** Inserts `x` into `t`, scanning from the right end. */
  function Insert<T>(t: seq<T>, x: T, cmp: (T, T) -> int): seq<T>
  {
    if t == [] || cmp(t[|t| - 1], x) <= 0 then t + [x]
    else Insert(t[..|t| - 1], x, cmp) + [t[|t| - 1]]
  }

  /** Insertion sort: each element in turn is inserted into the sorted prefix before it. */
  function InsertionSort<T>(s: seq<T>, cmp: (T, T) -> int): seq<T>
  {
    if s == [] then [] else Insert(InsertionSort(s[..|s| - 1], cmp), s[|s| - 1], cmp)
  }

  /** `s` is in the order `cmp` asks for. */
  ghost predicate Sorted<T>(s: seq<T>, cmp: (T, T) -> int)
  {
    forall i, j :: 0 <= i < j < |s| ==> cmp(s[i], s[j]) <= 0
  }

  /** `cmp` behaves as a total preorder on the elements of `u`: a positive answer one way is a
      negative answer the other way, and "not after" is transitive. */
  ghost predicate Consistent<T>(cmp: (T, T) -> int, u: seq<T>)
  {
    && (forall x, y :: x in u && y in u && cmp(x, y) > 0 ==> cmp(y, x) < 0)
    && (forall x, y, z :: x in u && y in u && z in u && cmp(x, y) <= 0 && cmp(y, z) <= 0 ==> cmp(x, z) <= 0)
  }

  lemma {:induction false} InsertPermutation<T>(t: seq<T>, x: T, cmp: (T, T) -> int)
    ensures multiset(Insert(t, x, cmp)) == multiset(t) + multiset{x}
  {
    if t != [] && cmp(t[|t| - 1], x) > 0 {
      var init := t[..|t| - 1];
      InsertPermutation(init, x, cmp);
      assert t == init + [t[|t| - 1]];
    }
  }

  /** Whatever the comparator answers, the sort returns a permutation of its input. */
  lemma {:induction false} SortPermutation<T>(s: seq<T>, cmp: (T, T) -> int)
    ensures multiset(InsertionSort(s, cmp)) == multiset(s)
  {
    if s != [] {
      var init := s[..|s| - 1];
      SortPermutation(init, cmp);
      InsertPermutation(InsertionSort(init, cmp), s[|s| - 1], cmp);
      assert s == init + [s[|s| - 1]];
    }
  }

  /** Appending an element that comes after the last one keeps a sequence sorted. */
  lemma AppendSorted<T>(t: seq<T>, x: T, cmp: (T, T) -> int, u: seq<T>)
    requires Consistent(cmp, u)
    requires forall e :: e in t ==> e in u
    requires x in u
    requires Sorted(t, cmp)
    requires t != [] ==> cmp(t[|t| - 1], x) <= 0
    ensures Sorted(t + [x], cmp)
  {
    var r := t + [x];
    forall i, j | 0 <= i < j < |r| ensures cmp(r[i], r[j]) <= 0 {
      if j == |t| && i < |t| - 1 {
        assert t[i] in u && t[|t| - 1] in u;
        assert cmp(t[i], t[|t| - 1]) <= 0;
      }
    }
  }

  /** Every element of `Insert(t, x)` is `x` or an element of `t`. */
  lemma InsertElements<T>(t: seq<T>, x: T, cmp: (T, T) -> int, e: T)
    requires e in Insert(t, x, cmp)
    ensures e == x || e in t
  {
    InsertPermutation(t, x, cmp);
    assert e in multiset(Insert(t, x, cmp));
  }

  lemma {:induction false} InsertSorted<T>(t: seq<T>, x: T, cmp: (T, T) -> int, u: seq<T>)
    requires Consistent(cmp, u)
    requires forall e :: e in t ==> e in u
    requires x in u
    requires Sorted(t, cmp)
    ensures Sorted(Insert(t, x, cmp), cmp)
  {
    if t == [] || cmp(t[|t| - 1], x) <= 0 {
      AppendSorted(t, x, cmp, u);
    } else {
      var init, last := t[..|t| - 1], t[|t| - 1];
      assert forall e :: e in init ==> e in t;
      InsertSorted(init, x, cmp, u);
      var mid := Insert(init, x, cmp);
      assert last in u;
      forall e | e in mid ensures e in u && cmp(e, last) <= 0 {
        InsertElements(init, x, cmp, e);
        if e != x {
          var k :| 0 <= k < |init| && init[k] == e;
          assert t[k] == e;
        }
      }
      var r := mid + [last];
      forall i, j | 0 <= i < j < |r| ensures cmp(r[i], r[j]) <= 0 {
        if j == |mid| {
          assert r[i] in mid;
        } else {
          assert r[i] == mid[i] && r[j] == mid[j];
        }
      }
    }
  }

  /** When the comparator is consistent on the elements, the result is sorted. */
  lemma {:induction false} SortSorted<T>(s: seq<T>, cmp: (T, T) -> int, u: seq<T>)
    requires Consistent(cmp, u)
    requires forall e :: e in s ==> e in u
    ensures Sorted(InsertionSort(s, cmp), cmp)
  {
    if s != [] {
      var init := s[..|s| - 1];
      assert forall e :: e in init ==> e in s;
      SortSorted(init, cmp, u);
      SortPermutation(init, cmp);
      var sorted := InsertionSort(init, cmp);
      forall e | e in sorted ensures e in u {
        assert e in multiset(sorted);
      }
      InsertSorted(sorted, s[|s| - 1], cmp, u);
    }
  }

  /** One step of the scan: `x` goes before `t[j - 1]` when the comparator puts `t[j - 1]`
      after it. */
  lemma InsertStep<T>(t: seq<T>, x: T, cmp: (T, T) -> int, j: nat)
    requires 0 < j <= |t| && cmp(t[j - 1], x) > 0
    ensures Insert(t[..j], x, cmp) + t[j..] == Insert(t[..j - 1], x, cmp) + t[j - 1..]
  {
    assert t[..j][..j - 1] == t[..j - 1];
    assert Insert(t[..j], x, cmp) == Insert(t[..j - 1], x, cmp) + [t[j - 1]];
    assert t[j - 1..] == [t[j - 1]] + t[j..];
  }

  /** Where the scan stops, `x` goes in: a sequence holding `t[..j]`, then `x`, then `t[j..]` is
      the insertion. */
  lemma InsertStop<T>(t: seq<T>, x: T, cmp: (T, T) -> int, j: nat, b: seq<T>)
    requires j <= |t| && |b| == |t| + 1
    requires j == 0 || cmp(t[j - 1], x) <= 0
    requires Insert(t, x, cmp) == Insert(t[..j], x, cmp) + t[j..]
    requires forall k :: 0 <= k < j ==> b[k] == t[k]
    requires b[j] == x
    requires forall k :: j < k < |b| ==> b[k] == t[k - 1]
    ensures b == Insert(t, x, cmp)
  {
    assert Insert(t[..j], x, cmp) == t[..j] + [x] by {
      if j > 0 {
        assert t[..j][j - 1] == t[j - 1];
      }
    }
    assert b == t[..j] + [x] + t[j..];
  }

  /** Moves `a[i]` left past every element of the prefix `a[..i]` that the comparator puts
      after it. */
  method InsertAt<T>(a: array<T>, i: nat, cmp: (T, T) -> int)
    requires i < a.Length
    modifies a
    ensures a[..i + 1] == Insert(old(a[..i]), old(a[i]), cmp)
    ensures a[i + 1..] == old(a[i + 1..])
  {
    var x := a[i];
    ghost var t := a[..i];
    var j := i;
    assert Insert(t, x, cmp) == Insert(t[..j], x, cmp) + t[j..] by {
      assert t[..j] == t && t[j..] == [];
    }
    while j > 0 && cmp(a[j - 1], x) > 0
      invariant 0 <= j <= i
      invariant forall k :: 0 <= k < j ==> a[k] == t[k]
      invariant forall k :: j < k <= i ==> a[k] == t[k - 1]
      invariant forall k :: i < k < a.Length ==> a[k] == old(a[k])
      invariant Insert(t, x, cmp) == Insert(t[..j], x, cmp) + t[j..]
    {
      InsertStep(t, x, cmp, j);
      a[j] := a[j - 1];
      j := j - 1;
    }
    a[j] := x;
    InsertStop(t, x, cmp, j, a[..i + 1]);
  }

  /** Sorts `a` in place, inserting each element in turn into the sorted prefix before it. */
  method SortInPlace<T>(a: array<T>, cmp: (T, T) -> int)
    modifies a
    ensures a[..] == InsertionSort(old(a[..]), cmp)
  {
    ghost var s := a[..];
    var i := 0;
    while i < a.Length
      invariant 0 <= i <= a.Length
      invariant a[..i] == InsertionSort(s[..i], cmp)
      invariant a[i..] == s[i..]
    {
      ghost var before := a[..];
      assert before[..i] == InsertionSort(s[..i], cmp) && before[i] == s[i];
      assert before[i + 1..] == s[i + 1..];
      InsertAt(a, i, cmp);
      assert InsertionSort(s[..i + 1], cmp) == Insert(InsertionSort(s[..i], cmp), s[i], cmp) by {
        assert s[..i + 1][..i] == s[..i] && s[..i + 1][i] == s[i];
      }
      i := i + 1;
    }
    assert s[..a.Length] == s;
  }
}
