/** Sums of weights over finite sets. */
module SetSums {

  ghost function Sum(s: set<nat>, w: map<nat, nat>): nat
    requires s <= w.Keys
  {
    if s == {} then 0
    else
      var x :| x in s;
      w[x] + Sum(s - {x}, w)
  }

  lemma {:induction false} SumRemove(s: set<nat>, w: map<nat, nat>, x: nat)
    requires s <= w.Keys && x in s
    ensures Sum(s, w) == w[x] + Sum(s - {x}, w)
    decreases |s|
  {
    var y :| y in s && Sum(s, w) == w[y] + Sum(s - {y}, w);
    if x != y {
      SumRemove(s - {y}, w, x);
      SumRemove(s - {x}, w, y);
      assert s - {x} - {y} == s - {y} - {x};
    }
  }

  lemma SumInsert(s: set<nat>, w: map<nat, nat>, x: nat)
    requires s <= w.Keys && x in w && x !in s
    ensures Sum(s + {x}, w) == Sum(s, w) + w[x]
  {
    SumRemove(s + {x}, w, x);
    assert s + {x} - {x} == s;
  }

  lemma {:induction false} SumUnion(a: set<nat>, b: set<nat>, w: map<nat, nat>)
    requires a <= w.Keys && b <= w.Keys && a !! b
    ensures Sum(a + b, w) == Sum(a, w) + Sum(b, w)
    decreases |b|
  {
    if b == {} {
      assert a + b == a;
    } else {
      var x :| x in b;
      SumUnion(a, b - {x}, w);
      SumRemove(b, w, x);
      SumInsert(a + (b - {x}), w, x);
      assert a + (b - {x}) + {x} == a + b;
    }
  }

  lemma SumMinus(a: set<nat>, b: set<nat>, w: map<nat, nat>)
    requires a <= w.Keys && b <= a
    ensures Sum(a - b, w) == Sum(a, w) - Sum(b, w)
  {
    SumUnion(a - b, b, w);
    assert (a - b) + b == a;
  }

  lemma {:induction false} SumScaled(s: set<nat>, w: map<nat, nat>, v: map<nat, nat>)
    requires s <= w.Keys && s <= v.Keys && forall x :: x in s ==> w[x] <= 4 * v[x]
    ensures Sum(s, w) <= 4 * Sum(s, v)
    decreases |s|
  {
    if s != {} {
      var x :| x in s;
      SumRemove(s, w, x);
      SumRemove(s, v, x);
      SumScaled(s - {x}, w, v);
    }
  }

  // ----- Sizes -----

  lemma {:induction false} SubsetSize<T>(s: set<T>, t: set<T>)
    requires s <= t
    ensures |s| <= |t|
  {
    if x :| x in s { SubsetSize(s - {x}, t - {x}); }
  }

  lemma SameSize<T>(s: set<T>, t: set<T>)
    requires s <= t && |s| == |t|
    ensures s == t
  {
    if x :| x in t && x !in s {
      assert s <= t - {x};
      SubsetSize(s, t - {x});
    }
  }
}
