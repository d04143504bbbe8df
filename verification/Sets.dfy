/** Counting finite sets. */
module Sets {

  ghost function Pick<T>(s: set<T>): (x: T)
    requires s != {}
    ensures x in s
  {
    var x :| x in s;
    x
  }

  /** Some element of a set: ranging over a Go map takes its keys in no fixed order. */
  method Choose<T(==)>(s: set<T>) returns (x: T)
    requires s != {}
    ensures x in s
  {
    x :| x in s;
  }

  lemma SubsetSize<T>(a: set<T>, b: set<T>)
    requires a <= b
    ensures |a| <= |b|
  {
    assert b == a + (b - a) && |b| == |a| + |b - a|;
  }

  /** A subset as large as the whole is the whole. */
  lemma FullSubset<T>(a: set<T>, b: set<T>)
    requires a <= b && |a| >= |b|
    ensures a == b
  {
    assert b == a + (b - a) && |b| == |a| + |b - a|;
  }

  /** Two subsets of u overlap in at least |a| + |b| - |u| elements. */
  lemma Overlap<T>(a: set<T>, b: set<T>, u: set<T>)
    requires a <= u && b <= u
    ensures |a * b| >= |a| + |b| - |u|
  {
    assert |a + b| == |a| + |b| - |a * b|;
    SubsetSize(a + b, u);
  }

  /** Removing t elements from a set of more than t leaves one. */
  lemma Outside<T>(a: set<T>, bad: set<T>) returns (x: T)
    requires |a| > |bad|
    ensures x in a && x !in bad
  {
    assert a == (a * bad) + (a - bad) && |a| == |a * bad| + |a - bad|;
    SubsetSize(a * bad, bad);
    x := Pick(a - bad);
  }

  /** A set of any size between two sets. */
  lemma {:induction false} Between<T>(a: set<T>, b: set<T>, n: nat) returns (m: set<T>)
    requires a <= b && |a| <= n <= |b|
    ensures a <= m <= b && |m| == n
    decreases n - |a|
  {
    if |a| == n {
      m := a;
    } else {
      var x := Outside(b, a);
      assert |a + {x}| == |a| + 1;
      m := Between(a + {x}, b, n);
    }
  }
}
