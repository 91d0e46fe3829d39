/** The order `ORDER BY device_id` sorts by, taken as code-point lexicographic
    order on strings (the database's "C" collation), and sorted sets of strings. */
module Lex {

  /** Strict lexicographic order: a proper prefix comes first. */
  predicate Less(a: string, b: string)
    decreases |a|
  {
    if |a| == 0 then |b| > 0
    else if |b| == 0 then false
    else if a[0] != b[0] then a[0] < b[0]
    else Less(a[1..], b[1..])
  }

  lemma {:induction false} LessIrreflexive(a: string)
    ensures !Less(a, a)
    decreases |a|
  {
    if |a| > 0 {
      LessIrreflexive(a[1..]);
    }
  }

  lemma {:induction false} LessAsymmetric(a: string, b: string)
    requires Less(a, b)
    ensures !Less(b, a)
    decreases |a|
  {
    if |a| > 0 && |b| > 0 && a[0] == b[0] {
      LessAsymmetric(a[1..], b[1..]);
    }
  }

  lemma {:induction false} LessTransitive(a: string, b: string, c: string)
    requires Less(a, b) && Less(b, c)
    ensures Less(a, c)
    decreases |a|
  {
    if |a| > 0 && |b| > 0 && |c| > 0 && a[0] == b[0] && b[0] == c[0] {
      LessTransitive(a[1..], b[1..], c[1..]);
    }
  }

  lemma {:induction false} LessTotal(a: string, b: string)
    requires a != b
    ensures Less(a, b) || Less(b, a)
    decreases |a|
  {
    if |a| > 0 && |b| > 0 && a[0] == b[0] {
      assert a[1..] != b[1..];
      LessTotal(a[1..], b[1..]);
    }
  }

  /** Every element strictly precedes every later one: sorted and duplicate-free. */
  predicate StrictlySorted(ds: seq<string>)
  {
    forall i, j :: 0 <= i < j < |ds| ==> Less(ds[i], ds[j])
  }

  /** Adds `d` to the sorted set `ds`, keeping it sorted and duplicate-free. */
  function InsertSorted(ds: seq<string>, d: string): (r: seq<string>)
    requires StrictlySorted(ds)
    ensures StrictlySorted(r)
    ensures forall x :: x in r <==> x in ds || x == d
    decreases |ds|
  {
    if |ds| == 0 then [d]
    else if d == ds[0] then ds
    else if Less(d, ds[0]) then
      (forall j | 0 <= j < |ds| ensures Less(d, ds[j]) {
         if j > 0 { LessTransitive(d, ds[0], ds[j]); }
       }
       [d] + ds)
    else
      LessTotal(d, ds[0]);
      var rest := InsertSorted(ds[1..], d);
      assert forall x :: x in ds[1..] ==> Less(ds[0], x);
      [ds[0]] + rest
  }

  /** Two sorted, duplicate-free sequences holding the same strings are equal. */
  lemma {:induction false} SortedUnique(xs: seq<string>, ys: seq<string>)
    requires StrictlySorted(xs) && StrictlySorted(ys)
    requires forall x :: x in xs <==> x in ys
    ensures xs == ys
    decreases |xs|
  {
    assert |ys| > 0 ==> ys[0] in xs;
    if |xs| > 0 {
      assert xs[0] in ys;
      assert |ys| > 0;
      if xs[0] != ys[0] {
        assert ys[0] in xs;
        var m :| 0 <= m < |xs| && xs[m] == ys[0];
        var k :| 0 <= k < |ys| && ys[k] == xs[0];
        assert Less(xs[0], ys[0]);
        assert Less(ys[0], xs[0]);
        LessAsymmetric(xs[0], ys[0]);
        assert false;
      }
      forall x
        ensures x in xs[1..] <==> x in ys[1..]
      {
        if x in xs[1..] {
          var i :| 1 <= i < |xs| && xs[i] == x;
          assert Less(xs[0], x);
          LessIrreflexive(x);
          assert x in ys && x != ys[0];
          var j :| 0 <= j < |ys| && ys[j] == x;
          assert x in ys[1..];
        }
        if x in ys[1..] {
          var i :| 1 <= i < |ys| && ys[i] == x;
          assert Less(ys[0], x);
          LessIrreflexive(x);
          assert x in xs && x != xs[0];
          var j :| 0 <= j < |xs| && xs[j] == x;
          assert x in xs[1..];
        }
      }
      SortedUnique(xs[1..], ys[1..]);
      assert xs == [xs[0]] + xs[1..];
      assert ys == [ys[0]] + ys[1..];
    }
  }
}
