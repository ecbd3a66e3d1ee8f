/**
  The records the indexing search emits and the final ordering of them:
  Python's `sorted(results, key=lambda x: x[4])`, a stable sort on the
  error field. The sort here is insertion; `SortUnique` shows that every
  stable sort by error produces the same sequence, so the choice of
  algorithm does not change the output.
 */
module Solutions {
  import opened Fractions

  datatype Mode = Simple | DifferentialPlus | DifferentialMinus

  /**
    One row of the result table: mode, plate hole count, hole offset `b`,
    the achieved fraction `b/plate` in lowest terms, the percentage error
    and the whole-turn count.
   */
  datatype Solution = Solution(mode: Mode, plate: int, b: int, fraction: Fraction, error: Fraction, fullTurns: int)

  /** The sort key: the exact value of the error field. */
  ghost function Key(x: Solution): real {
    Value(x.error)
  }

  ghost predicate SortedByError(s: seq<Solution>) {
    forall i, j :: 0 <= i < j < |s| ==> Key(s[i]) <= Key(s[j])
  }

  /** The subsequence of `s` whose error has value `e`, in the order of `s`. */
  ghost function WithError(s: seq<Solution>, e: real): seq<Solution> {
    if s == [] then []
    else if Key(s[0]) == e then [s[0]] + WithError(s[1..], e)
    else WithError(s[1..], e)
  }

  /** Records with an equal error appear in `r` in the same relative order as in `s`. */
  ghost predicate StableFor(r: seq<Solution>, s: seq<Solution>) {
    forall e :: WithError(r, e) == WithError(s, e)
  }

  lemma {:induction false} WithErrorMembers(s: seq<Solution>, e: real, x: Solution)
    ensures x in WithError(s, e) <==> x in s && Key(x) == e
  {
    if s != [] {
      WithErrorMembers(s[1..], e, x);
      assert s == [s[0]] + s[1..];
    }
  }

  lemma {:induction false} WithErrorAppend(a: seq<Solution>, b: seq<Solution>, e: real)
    ensures WithError(a + b, e) == WithError(a, e) + WithError(b, e)
  {
    if a == [] {
      assert a + b == b;
    } else {
      assert (a + b)[1..] == a[1..] + b;
      WithErrorAppend(a[1..], b, e);
    }
  }

  /** Insert `x` behind every element whose error is not larger than that of `x`. */
  function Insert(x: Solution, s: seq<Solution>): (r: seq<Solution>)
    requires SortedByError(s)
    ensures SortedByError(r)
    ensures multiset(r) == multiset(s) + multiset{x}
    ensures forall e :: WithError(r, e) == WithError(s, e) + (if Key(x) == e then [x] else [])
  {
    if s == [] then [x]
    else if !Le(s[0].error, x.error) then
      InsertInFront(x, s);
      [x] + s
    else
      var t := Insert(x, s[1..]);
      InsertBehind(x, s, t);
      [s[0]] + t
  }

  /** The head of `s` stays in front when `x` is inserted into the rest. */
  lemma InsertBehind(x: Solution, s: seq<Solution>, t: seq<Solution>)
    requires SortedByError(s) && s != [] && Key(s[0]) <= Key(x)
    requires SortedByError(t) && multiset(t) == multiset(s[1..]) + multiset{x}
    requires forall e :: WithError(t, e) == WithError(s[1..], e) + (if Key(x) == e then [x] else [])
    ensures SortedByError([s[0]] + t)
    ensures multiset([s[0]] + t) == multiset(s) + multiset{x}
    ensures forall e :: WithError([s[0]] + t, e) == WithError(s, e) + (if Key(x) == e then [x] else [])
  {
    assert s == [s[0]] + s[1..];
    assert multiset([s[0]] + t) == multiset{s[0]} + multiset(t);
    assert multiset(s) == multiset{s[0]} + multiset(s[1..]);
    HeadStaysSorted(x, s, t);
    HeadStaysStable(x, s, t);
  }

  lemma HeadStaysStable(x: Solution, s: seq<Solution>, t: seq<Solution>)
    requires s != []
    requires forall e :: WithError(t, e) == WithError(s[1..], e) + (if Key(x) == e then [x] else [])
    ensures forall e :: WithError([s[0]] + t, e) == WithError(s, e) + (if Key(x) == e then [x] else [])
  {
    forall e ensures WithError([s[0]] + t, e) == WithError(s, e) + (if Key(x) == e then [x] else []) {
      var xs := if Key(x) == e then [x] else [];
      assert ([s[0]] + t)[1..] == t;
      assert WithError(t, e) == WithError(s[1..], e) + xs;
      if Key(s[0]) == e {
        assert [s[0]] + (WithError(s[1..], e) + xs) == ([s[0]] + WithError(s[1..], e)) + xs;
      }
    }
  }

  lemma HeadStaysSorted(x: Solution, s: seq<Solution>, t: seq<Solution>)
    requires SortedByError(s) && s != [] && Key(s[0]) <= Key(x)
    requires SortedByError(t) && multiset(t) == multiset(s[1..]) + multiset{x}
    ensures SortedByError([s[0]] + t)
  {
    var r := [s[0]] + t;
    forall i, j | 0 <= i < j < |r| ensures Key(r[i]) <= Key(r[j]) {
      if i == 0 {
        assert r[j] == t[j - 1];
        assert r[j] in multiset(s[1..]) + multiset{x};
        if r[j] != x {
          assert r[j] in s[1..];
        }
      } else {
        assert r[i] == t[i - 1] && r[j] == t[j - 1];
      }
    }
  }

  /** An element smaller than the whole of a sorted sequence can go in front of it. */
  lemma InsertInFront(x: Solution, s: seq<Solution>)
    requires SortedByError(s) && s != [] && Key(x) < Key(s[0])
    ensures SortedByError([x] + s)
    ensures forall e :: WithError([x] + s, e) == WithError(s, e) + (if Key(x) == e then [x] else [])
  {
    forall e ensures WithError([x] + s, e) == WithError(s, e) + (if Key(x) == e then [x] else []) {
      assert ([x] + s)[1..] == s;
      if Key(x) == e {
        NoneWithError(s, e);
      }
    }
  }

  /** A sorted sequence that starts above `e` has no element with error `e`. */
  lemma NoneWithError(s: seq<Solution>, e: real)
    requires SortedByError(s) && s != [] && e < Key(s[0])
    ensures WithError(s, e) == []
  {
    if WithError(s, e) != [] {
      var x := WithError(s, e)[0];
      WithErrorMembers(s, e, x);
    }
  }

  /** `sorted(s, key=error)`: sorted by error, a permutation of `s`, and stable. */
  function SortByError(s: seq<Solution>): (r: seq<Solution>)
    ensures SortedByError(r)
    ensures multiset(r) == multiset(s)
    ensures StableFor(r, s)
  {
    if s == [] then []
    else
      var init, last := s[..|s| - 1], s[|s| - 1];
      var r := Insert(last, SortByError(init));
      assert s == init + [last];
      forall e ensures WithError(r, e) == WithError(s, e) {
        WithErrorAppend(init, [last], e);
        assert WithError([last], e) == if Key(last) == e then [last] else [];
      }
      r
  }

  /** A sorted sequence holds no error class below its first element. */
  lemma FirstIsLeast(r: seq<Solution>, e: real)
    requires SortedByError(r) && WithError(r, e) != []
    ensures r != [] && Key(r[0]) <= e
  {
    var x := WithError(r, e)[0];
    WithErrorMembers(r, e, x);
  }

  /** The first elements of two sequences sorted by error have the same error. */
  lemma FirstKeysAgree(r1: seq<Solution>, r2: seq<Solution>)
    requires SortedByError(r1) && SortedByError(r2) && r1 != []
    requires forall e :: WithError(r1, e) == WithError(r2, e)
    ensures r2 != [] && Key(r1[0]) == Key(r2[0])
  {
    var k1 := Key(r1[0]);
    assert WithError(r1, k1) != [];
    assert WithError(r2, k1) != [];
    FirstIsLeast(r2, k1);
    var k2 := Key(r2[0]);
    assert WithError(r2, k2) != [];
    assert WithError(r1, k2) != [];
    FirstIsLeast(r1, k2);
  }

  /** With equal first errors, the first elements agree and the rests agree class by class. */
  lemma HeadsAgree(r1: seq<Solution>, r2: seq<Solution>)
    requires r1 != [] && r2 != [] && Key(r1[0]) == Key(r2[0])
    requires forall e :: WithError(r1, e) == WithError(r2, e)
    ensures r1[0] == r2[0]
    ensures forall e :: WithError(r1[1..], e) == WithError(r2[1..], e)
  {
    var k := Key(r1[0]);
    var a, b := WithError(r1[1..], k), WithError(r2[1..], k);
    assert WithError(r1, k) == [r1[0]] + a;
    assert WithError(r2, k) == [r2[0]] + b;
    assert ([r1[0]] + a)[0] == r1[0] && ([r1[0]] + a)[1..] == a;
    assert ([r2[0]] + b)[0] == r2[0] && ([r2[0]] + b)[1..] == b;
    assert WithError(r1, k) == WithError(r2, k);
    assert a == b;
    forall e ensures WithError(r1[1..], e) == WithError(r2[1..], e) {
      if e != k {
        assert WithError(r1, e) == WithError(r2, e);
      }
    }
  }

  /**
    Two sequences sorted by error in which every error class appears in the
    same order are equal: sortedness and stability fix the output.
   */
  lemma {:induction false} SortUnique(r1: seq<Solution>, r2: seq<Solution>)
    requires SortedByError(r1) && SortedByError(r2)
    requires forall e :: WithError(r1, e) == WithError(r2, e)
    ensures r1 == r2
    decreases |r1| + |r2|
  {
    if r1 != [] {
      FirstKeysAgree(r1, r2);
    } else if r2 != [] {
      FirstKeysAgree(r2, r1);
    }
    if r1 != [] && r2 != [] {
      HeadsAgree(r1, r2);
      SortUnique(r1[1..], r2[1..]);
      assert r1 == [r1[0]] + r1[1..] && r2 == [r2[0]] + r2[1..];
    }
  }

  /** Any stable sort by error of `s` is `SortByError(s)`. */
  lemma StableSortIsSortByError(s: seq<Solution>, r: seq<Solution>)
    requires SortedByError(r) && StableFor(r, s)
    ensures r == SortByError(s)
  {
    var t := SortByError(s);
    forall e ensures WithError(r, e) == WithError(t, e) {
      assert WithError(r, e) == WithError(s, e);
    }
    SortUnique(r, t);
  }
}
