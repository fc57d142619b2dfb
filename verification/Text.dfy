/** Strings as sequences of characters: the token estimate, decimal numerals,
    byte order, and counting occurrences of a terminator. */
module Text {

  /** ceil(runes / 4) of internal/context/token_estimator.go. */
  function Estimate(s: string): nat { (|s| + 3) / 4 }

  /** The estimate is the number of groups of four, the last one possibly short. */
  lemma EstimateCeiling(s: string)
    ensures 4 * Estimate(s) - 4 < |s| <= 4 * Estimate(s)
  {
  }

  // --- Decimal numerals -----------------------------------------------------

  function Digit(d: nat): char
    requires d < 10
  {
    '0' + d as char
  }

  function DigitValue(c: char): nat
    requires '0' <= c <= '9'
  {
    (c - '0') as nat
  }

  /** strconv.Itoa on naturals. */
  function Digits(n: nat): (s: string)
    ensures |s| > 0 && forall i :: 0 <= i < |s| ==> '0' <= s[i] <= '9'
  {
    if n < 10 then [Digit(n)] else Digits(n / 10) + [Digit(n % 10)]
  }

  predicate Numeral(s: string) { forall i :: 0 <= i < |s| ==> '0' <= s[i] <= '9' }

  function Value(s: string): nat
    requires Numeral(s)
  {
    if s == [] then 0 else 10 * Value(s[..|s| - 1]) + DigitValue(s[|s| - 1])
  }

  lemma {:induction false} DigitsValue(n: nat)
    ensures Value(Digits(n)) == n
  {
    if n >= 10 {
      DigitsValue(n / 10);
      var s := Digits(n / 10) + [Digit(n % 10)];
      assert s[..|s| - 1] == Digits(n / 10);
    } else {
      assert Value([Digit(n)][..0]) == 0;
    }
  }

  lemma {:induction false} DigitsLonger(m: nat, n: nat)
    requires m <= n
    ensures |Digits(m)| <= |Digits(n)|
  {
    if m >= 10 { DigitsLonger(m / 10, n / 10); }
  }

  function Itoa(n: int): string { if n < 0 then "-" + Digits(-n) else Digits(n) }

  lemma ItoaInjective(m: int, n: int)
    requires Itoa(m) == Itoa(n)
    ensures m == n
  {
    var dm, dn := Digits(if m < 0 then -m else m), Digits(if n < 0 then -n else n);
    assert Itoa(m)[0] == '-' <==> m < 0;
    assert Itoa(n)[0] == '-' <==> n < 0;
    assert m < 0 ==> Itoa(m)[1..] == dm;
    assert n < 0 ==> Itoa(n)[1..] == dn;
    DigitsValue(if m < 0 then -m else m);
    DigitsValue(if n < 0 then -n else n);
  }

  // --- Byte order -------------------------------------------------------------

  /** Go's < on strings. */
  predicate Less(a: string, b: string)
  {
    if b == [] then false
    else if a == [] then true
    else if a[0] != b[0] then a[0] < b[0]
    else Less(a[1..], b[1..])
  }

  /** Byte order by the first difference. */
  ghost predicate LexicalLess(a: string, b: string) {
    exists k :: 0 <= k <= |a| && DiffersAt(a, b, k)
  }

  ghost predicate DiffersAt(a: string, b: string, k: nat)
    requires k <= |a|
  {
    k < |b| && a[..k] == b[..k] && (k < |a| ==> a[k] < b[k])
  }

  lemma {:induction false} LessIsLexical(a: string, b: string)
    ensures Less(a, b) <==> LexicalLess(a, b)
  {
    if a == [] || b == [] || a[0] != b[0] {
      if b != [] && Less(a, b) { assert DiffersAt(a, b, 0); }
      assert forall k :: 0 < k <= |a| && DiffersAt(a, b, k) ==> a[..k][0] == b[..k][0];
    } else {
      LessIsLexical(a[1..], b[1..]);
      if LexicalLess(a[1..], b[1..]) {
        var k :| 0 <= k <= |a[1..]| && DiffersAt(a[1..], b[1..], k);
        assert a[..k + 1] == [a[0]] + a[1..][..k] && b[..k + 1] == [b[0]] + b[1..][..k];
        assert DiffersAt(a, b, k + 1);
      }
      if LexicalLess(a, b) {
        var k :| 0 <= k <= |a| && DiffersAt(a, b, k);
        assert a[1..][..k - 1] == a[..k][1..] && b[1..][..k - 1] == b[..k][1..];
        assert DiffersAt(a[1..], b[1..], k - 1);
      }
    }
  }

  lemma {:induction false} LessIrreflexive(a: string)
    ensures !Less(a, a)
  {
    if a != [] { LessIrreflexive(a[1..]); }
  }

  lemma {:induction false} LessTransitive(a: string, b: string, c: string)
    requires Less(a, b) && Less(b, c)
    ensures Less(a, c)
  {
    if a != [] && a[0] == b[0] && b[0] == c[0] { LessTransitive(a[1..], b[1..], c[1..]); }
  }

  lemma {:induction false} LessTotal(a: string, b: string)
    ensures Less(a, b) || Less(b, a) || a == b
  {
    if a != [] && b != [] && a[0] == b[0] {
      LessTotal(a[1..], b[1..]);
      assert a == [a[0]] + a[1..] && b == [b[0]] + b[1..];
    }
  }

  lemma LessIsOrder()
    ensures forall a :: !Less(a, a)
    ensures forall a, b, c :: Less(a, b) && Less(b, c) ==> Less(a, c)
    ensures forall a, b :: Less(a, b) || Less(b, a) || a == b
  {
    forall a ensures !Less(a, a) { LessIrreflexive(a); }
    forall a, b, c | Less(a, b) && Less(b, c) ensures Less(a, c) { LessTransitive(a, b, c); }
    forall a, b ensures Less(a, b) || Less(b, a) || a == b { LessTotal(a, b); }
  }

  // --- Separators ---------------------------------------------------------------

  /** A text up to its first separator is determined by the whole. */
  lemma {:induction false} CutUnique(a: string, r: string, b: string, t: string, sep: char)
    requires sep !in a && sep !in b
    requires a + [sep] + r == b + [sep] + t
    ensures a == b && r == t
  {
    var w := a + [sep] + r;
    assert w[0] == (if a == [] then sep else a[0]);
    assert w[0] == (if b == [] then sep else b[0]);
    if a == [] || b == [] {
      assert w[1..] == r && (b + [sep] + t)[1..] == t;
    } else {
      assert w[0] == a[0] == b[0];
      assert w[1..] == a[1..] + [sep] + r;
      assert (b + [sep] + t)[1..] == b[1..] + [sep] + t;
      CutUnique(a[1..], r, b[1..], t, sep);
      assert a == [a[0]] + a[1..] && b == [b[0]] + b[1..];
    }
  }
}
