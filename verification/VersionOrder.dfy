/** The order on dotted versions, once split into numbers. */
module VersionOrder {

  /** The first place where two different lists differ: unequal numbers, or the end of just one. */
  predicate FirstDifference(a: seq<int>, b: seq<int>, k: int) {
    && 0 <= k <= |a| && k <= |b| && a[..k] == b[..k]
    && (k < |a| || k < |b|) && (k < |a| && k < |b| ==> a[k] != b[k])
  }

  /** Lexicographic order: where the two first differ, `a` goes on and `b` ends or is less. */
  ghost predicate Above(a: seq<int>, b: seq<int>) {
    exists k :: FirstDifference(a, b, k) && k < |a| && (k == |b| || a[k] > b[k])
  }

  lemma AgreeBefore(a: seq<int>, b: seq<int>, k: int)
    requires 0 <= k <= |a| && k <= |b| && a[..k] == b[..k]
    ensures forall i :: 0 <= i < k ==> a[i] == b[i]
  {
    assert forall i :: 0 <= i < k ==> a[i] == a[..k][i] == b[..k][i];
  }

  lemma OneDifference(a: seq<int>, b: seq<int>, j: int, k: int)
    requires FirstDifference(a, b, j) && FirstDifference(a, b, k)
    ensures j == k
  {
    AgreeBefore(a, b, j);
    AgreeBefore(a, b, k);
  }

  /** What the place of the first difference decides. */
  lemma Decided(a: seq<int>, b: seq<int>, k: int)
    requires FirstDifference(a, b, k)
    ensures Above(a, b) <==> k < |a| && (k == |b| || a[k] > b[k])
  {
    if Above(a, b) {
      var j :| FirstDifference(a, b, j) && j < |a| && (j == |b| || a[j] > b[j]);
      OneDifference(a, b, j, k);
    }
  }

  /** `greater`. */
  method Greater(a: seq<int>, b: seq<int>) returns (r: bool)
    ensures r <==> Above(a, b)
  {
    var i := 0;
    while i < |a| && i < |b|
      invariant i <= |a| && i <= |b| && a[..i] == b[..i]
    {
      if a[i] != b[i] {
        Decided(a, b, i);
        return a[i] > b[i];
      }
      i := i + 1;
    }
    if |a| != |b| {
      Decided(a, b, i);
    } else {
      Irreflexive(a);
    }
    return |a| > |b|;
  }

  /** A proper prefix is below what extends it. */
  lemma PrefixIsBelow(a: seq<int>, b: seq<int>)
    requires a < b
    ensures Above(b, a) && !Above(a, b)
  {
    Decided(a, b, |a|);
    Decided(b, a, |a|);
  }

  /** A greater number wins whatever comes after it. */
  lemma GreaterNumberWins(front: seq<int>, x: int, y: int, a: seq<int>, b: seq<int>)
    requires x > y
    ensures Above(front + [x] + a, front + [y] + b) && !Above(front + [y] + b, front + [x] + a)
  {
    var u, v := front + [x] + a, front + [y] + b;
    assert u[..|front|] == front == v[..|front|];
    Decided(u, v, |front|);
    Decided(v, u, |front|);
  }

  lemma Irreflexive(a: seq<int>)
    ensures !Above(a, a)
  {
  }

  lemma {:induction false} DifferenceExists(a: seq<int>, b: seq<int>, i: nat) returns (k: int)
    requires a != b && i <= |a| && i <= |b| && a[..i] == b[..i]
    ensures FirstDifference(a, b, k)
    decreases |a| - i
  {
    if i < |a| && i < |b| && a[i] == b[i] {
      assert a[..i + 1] == a[..i] + [a[i]] == b[..i + 1];
      k := DifferenceExists(a, b, i + 1);
    } else {
      k := i;
    }
  }

  /** Of two versions exactly one is above the other, unless they are the same. */
  lemma Trichotomous(a: seq<int>, b: seq<int>)
    ensures a == b ==> !Above(a, b) && !Above(b, a)
    ensures a != b ==> (Above(a, b) <==> !Above(b, a))
  {
    if a != b {
      var k := DifferenceExists(a, b, 0);
      Decided(a, b, k);
      Decided(b, a, k);
    }
  }

  lemma Transitive(a: seq<int>, b: seq<int>, c: seq<int>)
    requires Above(a, b) && Above(b, c)
    ensures Above(a, c)
  {
    var j :| FirstDifference(a, b, j) && j < |a| && (j == |b| || a[j] > b[j]);
    var k :| FirstDifference(b, c, k) && k < |b| && (k == |c| || b[k] > c[k]);
    var m := if j < k then j else k;
    assert a[..m] == a[..j][..m] == b[..j][..m] == b[..m] == b[..k][..m] == c[..k][..m] == c[..m];
    if j < k {
      assert b[j] == b[..k][j] == c[..k][j] == c[j];
    } else if k < j {
      assert a[k] == a[..j][k] == b[..j][k] == b[k];
    }
    Decided(a, c, m);
  }
}
