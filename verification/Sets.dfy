/** Cardinalities of finite sets and sums over them. */
module Sets {

  function One(condition: bool): nat
  {
    if condition then 1 else 0
  }

  lemma OneIsCount()
    ensures One(true) == 1 && One(false) == 0
  {
  }

  ghost function SetOf<T>(s: seq<T>): set<T>
  {
    set x | x in s
  }

  ghost predicate Distinct<T>(s: seq<T>)
  {
    forall i, j :: 0 <= i < j < |s| ==> s[i] != s[j]
  }

  lemma {:induction false} DistinctCount<T>(s: seq<T>)
    requires Distinct(s)
    ensures |SetOf(s)| == |s|
    decreases |s|
  {
    if s != [] {
      var n := |s| - 1;
      DistinctCount(s[..n]);
      assert SetOf(s) == SetOf(s[..n]) + {s[n]};
    }
  }

  lemma CountWithout<T>(s: set<T>, x: T)
    ensures |s| == |s - {x}| + One(x in s)
  {
    if x in s {
      assert s == (s - {x}) + {x};
    } else {
      assert s == s - {x};
    }
  }

  lemma SubsetIsSmaller<T>(a: set<T>, b: set<T>)
    requires a <= b
    ensures |a| <= |b|
  {
    assert b == a + (b - a);
  }

  /** Taking a member out of what is left makes less of it. */
  lemma DifferenceShrinks<T>(all: set<T>, done: set<T>, x: T)
    requires x in all && x !in done
    ensures |all - (done + {x})| < |all - done|
  {
    assert all - done == (all - (done + {x})) + {x};
  }

  /** The sum of the weights of a set; what has no weight counts nothing. */
  ghost function Total<T(!new)>(weight: map<T, nat>, s: set<T>): nat
  {
    if s == {} then 0
    else
      var x :| x in s;
      (if x in weight then weight[x] else 0) + Total(weight, s - {x})
  }

  /** The total does not depend on the order of summation. */
  lemma {:induction false} TotalAdd<T(!new)>(weight: map<T, nat>, s: set<T>, x: T)
    requires x !in s
    ensures Total(weight, s + {x}) == (if x in weight then weight[x] else 0) + Total(weight, s)
    decreases |s|
  {
    var t := s + {x};
    var y :| y in t && Total(weight, t) == (if y in weight then weight[y] else 0) + Total(weight, t - {y});
    if y == x {
      assert t - {y} == s;
    } else {
      var r := s - {y};
      TotalAdd(weight, r, x);
      TotalAdd(weight, r, y);
      assert t - {y} == r + {x} && s == r + {y};
    }
  }

  lemma {:induction false} TotalGrows<T(!new)>(weight: map<T, nat>, s: set<T>, t: set<T>)
    requires s <= t
    ensures Total(weight, s) <= Total(weight, t)
    decreases |t - s|
  {
    if t - s == {} {
      assert s == t;
    } else {
      var x :| x in t - s;
      TotalAdd(weight, s, x);
      assert |t - s| == |t - (s + {x})| + 1 by { assert t - s == (t - (s + {x})) + {x}; }
      TotalGrows(weight, s + {x}, t);
    }
  }
}
