/** Sums of integer sequences, the arithmetic every budget argument rests on. */
module Sums {

  function Min(x: int, y: int): int { if x <= y then x else y }

  function Max(x: int, y: int): int { if x >= y then x else y }

  function Sum(s: seq<int>): int
  {
    if s == [] then 0 else s[0] + Sum(s[1..])
  }

  lemma {:induction false} SumAppend(s: seq<int>, t: seq<int>)
    ensures Sum(s + t) == Sum(s) + Sum(t)
  {
    if s == [] {
      assert s + t == t;
    } else {
      assert (s + t)[1..] == s[1..] + t;
      SumAppend(s[1..], t);
    }
  }

  lemma SumSnoc(s: seq<int>, x: int)
    ensures Sum(s + [x]) == Sum(s) + x
  {
    SumAppend(s, [x]);
  }

  /** A linear relation that holds at every index holds of the sums. */
  lemma {:induction false} SumLinear(a: seq<int>, k: int, b: seq<int>, c: seq<int>)
    requires |a| == |b| == |c|
    requires forall i :: 0 <= i < |a| ==> a[i] == k * b[i] + c[i]
    ensures Sum(a) == k * Sum(b) + Sum(c)
  {
    if a != [] {
      SumLinear(a[1..], k, b[1..], c[1..]);
    }
  }

  lemma {:induction false} SumMonotone(a: seq<int>, b: seq<int>)
    requires |a| == |b|
    requires forall i :: 0 <= i < |a| ==> a[i] <= b[i]
    ensures Sum(a) <= Sum(b)
    ensures Sum(a) == Sum(b) ==> a == b
  {
    if a != [] {
      SumMonotone(a[1..], b[1..]);
      assert a == [a[0]] + a[1..] && b == [b[0]] + b[1..];
    }
  }

  lemma {:induction false} SumUpdate(a: seq<int>, i: nat, v: int)
    requires i < |a|
    ensures Sum(a[i := v]) == Sum(a) - a[i] + v
  {
    if i == 0 {
      assert a[i := v][1..] == a[1..];
    } else {
      assert a[i := v][1..] == a[1..][i - 1 := v];
      SumUpdate(a[1..], i - 1, v);
    }
  }

  lemma {:induction false} SumBounded(a: seq<int>, m: int)
    requires forall i :: 0 <= i < |a| ==> a[i] <= m
    ensures Sum(a) <= |a| * m
  {
    if a != [] {
      SumBounded(a[1..], m);
      assert |a| * m == m + (|a| - 1) * m;
    }
  }

  lemma MulStep(x: int, y: int, t: int)
    requires x < y && 0 <= t
    ensures x * t + t <= y * t
  {
    var d := y - x - 1;
    assert 0 <= d * t;
    assert y * t == (x + 1 + d) * t == x * t + t + d * t;
  }

  lemma {:induction false} SumNonNegative(a: seq<int>)
    requires forall i :: 0 <= i < |a| ==> 0 <= a[i]
    ensures 0 <= Sum(a)
    ensures forall i :: 0 <= i < |a| ==> a[i] <= Sum(a)
  {
    if a != [] {
      SumNonNegative(a[1..]);
      forall i | 0 <= i < |a| ensures a[i] <= Sum(a) {
        if i > 0 {
          assert a[i] == a[1..][i - 1];
        }
      }
    }
  }

  lemma {:induction false} SumConstant(a: seq<int>, m: int)
    requires forall i :: 0 <= i < |a| ==> a[i] == m
    ensures Sum(a) == |a| * m
  {
    if a != [] {
      SumConstant(a[1..], m);
      assert |a| * m == m + (|a| - 1) * m;
    }
  }
}
