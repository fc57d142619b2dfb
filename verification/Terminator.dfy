/** Neutralising a block terminator inside selected content
    (escapeBlockTerminator and escapeCardRefTerminator). A terminator is the
    two characters "</" followed by a tag name that holds no "<". */
module Terminator {

  type TagName = s: string | '<' !in s && s != [] witness "t"

  function Tag(name: TagName): string { "</" + name }

  function EscapedTag(name: TagName): string { "<\\/" + name }

  /** strings.ReplaceAll: leftmost, non-overlapping. */
  function ReplaceAll(s: string, from: string, to: string): string
    requires from != []
    decreases |s|
  {
    if |s| < |from| then s
    else if from <= s then to + ReplaceAll(s[|from|..], from, to)
    else [s[0]] + ReplaceAll(s[1..], from, to)
  }

  /** The number of positions at which t occurs in s. */
  function Count(s: string, t: string): nat
    requires t != []
  {
    if |s| < |t| then 0 else (if t <= s then 1 else 0) + Count(s[1..], t)
  }

  predicate OccursAt(s: string, t: string, p: nat) { p + |t| <= |s| && s[p..p + |t|] == t }

  /** strings.Contains. */
  predicate Contains(s: string, t: string) { exists p: nat :: p <= |s| && OccursAt(s, t, p) }

  lemma ContainsStep(s: string, t: string)
    requires s != []
    ensures Contains(s, t) <==> t <= s || Contains(s[1..], t)
  {
    assert t <= s <==> OccursAt(s, t, 0);
    forall p: nat | p < |s| ensures OccursAt(s[1..], t, p) <==> OccursAt(s, t, p + 1) {
      if p + |t| < |s| { assert s[1..][p..p + |t|] == s[p + 1..p + 1 + |t|]; }
    }
    if Contains(s, t) {
      var p: nat :| p <= |s| && OccursAt(s, t, p);
      assert p == 0 || OccursAt(s[1..], t, p - 1);
    }
    if Contains(s[1..], t) {
      var p: nat :| p <= |s[1..]| && OccursAt(s[1..], t, p);
      assert OccursAt(s, t, p + 1);
    }
  }

  lemma {:induction false} ContainsIffCounted(s: string, t: string)
    requires t != []
    ensures Contains(s, t) <==> Count(s, t) > 0
  {
    if |s| >= |t| {
      ContainsIffCounted(s[1..], t);
      ContainsStep(s, t);
    }
  }

  /** Escape returns the content untouched unless the terminator occurs. */
  function Escape(content: string, name: TagName): (string, bool) {
    if !Contains(content, Tag(name)) then (content, false)
    else (ReplaceAll(content, Tag(name), EscapedTag(name)), true)
  }

  lemma {:induction false} ReplaceNothing(s: string, from: string, to: string)
    requires from != [] && Count(s, from) == 0
    ensures ReplaceAll(s, from, to) == s
  {
    if |s| >= |from| { ReplaceNothing(s[1..], from, to); }
  }

  /** The check before the replacement is only a fast path. */
  lemma EscapeIsReplaceAll(s: string, name: TagName)
    ensures Escape(s, name).0 == ReplaceAll(s, Tag(name), EscapedTag(name))
  {
    ContainsIffCounted(s, Tag(name));
    if !Contains(s, Tag(name)) { ReplaceNothing(s, Tag(name), EscapedTag(name)); }
  }

  /** A prefix of the escaped text that holds no "<" was in the text already. */
  lemma {:induction false} PlainPrefixKept(s: string, name: TagName, k: nat)
    requires var r := ReplaceAll(s, Tag(name), EscapedTag(name)); k <= |r| && '<' !in r[..k]
    ensures k <= |s| && s[..k] == ReplaceAll(s, Tag(name), EscapedTag(name))[..k]
  {
    var r := ReplaceAll(s, Tag(name), EscapedTag(name));
    if k > 0 && |s| >= |Tag(name)| {
      assert r[..k][0] == r[0];
      assert !(Tag(name) <= s) by { assert EscapedTag(name)[0] == '<'; }
      assert r[1..] == ReplaceAll(s[1..], Tag(name), EscapedTag(name));
      assert r[..k] == [s[0]] + r[1..][..k - 1];
      PlainPrefixKept(s[1..], name, k - 1);
      assert s[..k] == [s[0]] + s[1..][..k - 1];
    }
  }

  lemma {:induction false} NoAngleNoCount(a: string, b: string, name: TagName)
    requires '<' !in a
    ensures Count(a + b, Tag(name)) == Count(b, Tag(name))
  {
    if a == [] {
      assert a + b == b;
    } else {
      assert (a + b)[0] == a[0] != '<' == Tag(name)[0];
      assert (a + b)[1..] == a[1..] + b;
      NoAngleNoCount(a[1..], b, name);
      ShortCount(b, Tag(name));
    }
  }

  lemma ShortCount(b: string, t: string)
    requires t != []
    ensures |b| < |t| ==> Count(b, t) == 0
  {
  }

  /** A terminator at the front of text kept character by character was there before. */
  lemma FrontTagWasThere(s: string, name: TagName)
    requires s != [] && Tag(name) <= [s[0]] + ReplaceAll(s[1..], Tag(name), EscapedTag(name))
    ensures Tag(name) <= s
  {
    var t, rest := Tag(name), ReplaceAll(s[1..], Tag(name), EscapedTag(name));
    assert t[1..] == ([s[0]] + rest)[..|t|][1..] == rest[..|t| - 1];
    PlainPrefixKept(s[1..], name, |t| - 1);
    assert t == [s[0]] + t[1..] == [s[0]] + s[1..][..|t| - 1] == s[..|t|];
  }

  /** Escaped text holds no terminator, whatever the text was. */
  lemma {:induction false} EscapeClean(s: string, name: TagName)
    ensures Count(ReplaceAll(s, Tag(name), EscapedTag(name)), Tag(name)) == 0
    decreases |s|
  {
    var t, e := Tag(name), EscapedTag(name);
    var r := ReplaceAll(s, t, e);
    if |s| < |t| {
    } else if t <= s {
      var rest := ReplaceAll(s[|t|..], t, e);
      EscapeClean(s[|t|..], name);
      assert r[1] == e[1] == '\\' && t[1] == '/';
      assert r[1..] == e[1..] + rest && '<' !in e[1..];
      NoAngleNoCount(e[1..], rest, name);
    } else {
      EscapeClean(s[1..], name);
      assert r[1..] == ReplaceAll(s[1..], t, e);
      if t <= r { FrontTagWasThere(s, name); }
    }
  }

  lemma PrefixStopsAt(a: string, c: char, b: string, t: string)
    requires c !in t && t <= a + [c] + b
    ensures t <= a
  {
    var w := a + [c] + b;
    assert forall i :: 0 <= i < |t| ==> t[i] == w[i];
    assert w[|a|] == c;
    assert t == w[..|t|] == a[..|t|];
  }

  /** A character foreign to the terminator keeps the two sides apart. */
  lemma {:induction false} CountAcross(a: string, c: char, b: string, t: string)
    requires t != [] && c !in t
    ensures Count(a + [c] + b, t) == Count(a, t) + Count(b, t)
  {
    var w := a + [c] + b;
    if a == [] {
      assert w[0] == c != t[0] && w[1..] == b;
    } else {
      assert w[1..] == a[1..] + [c] + b;
      CountAcross(a[1..], c, b, t);
      if t <= w { PrefixStopsAt(a, c, b, t); }
      assert a <= w;
    }
  }

  /** Glue starts with a character foreign to the terminator and holds no "<". */
  predicate Glue(lit: string, name: TagName) {
    lit != [] && lit[0] !in Tag(name) && '<' !in lit
  }

  lemma CountGlued(a: string, lit: string, b: string, name: TagName)
    requires Glue(lit, name)
    ensures Count(a + lit + b, Tag(name)) == Count(a, Tag(name)) + Count(b, Tag(name))
  {
    assert a + lit + b == a + [lit[0]] + (lit[1..] + b);
    CountAcross(a, lit[0], lit[1..] + b, Tag(name));
    NoAngleNoCount(lit[1..], b, name);
  }

  /** Cutting a clean text leaves clean pieces. */
  lemma {:induction false} CleanSlices(s: string, t: string, k: nat)
    requires t != [] && Count(s, t) == 0 && k <= |s|
    ensures Count(s[..k], t) == 0 && Count(s[k..], t) == 0
  {
    if k > 0 {
      if |s| >= |t| { CleanSlices(s[1..], t, k - 1); }
      assert s[..k][1..] == s[1..][..k - 1] && s[k..] == s[1..][k - 1..];
      if |s| >= |t| && k >= |t| { assert t <= s[..k] ==> t <= s; }
    } else {
      assert s[0..] == s;
    }
  }

  // --- What escaping loses -----------------------------------------------------

  function Unescape(s: string, name: TagName): string { ReplaceAll(s, EscapedTag(name), Tag(name)) }

  lemma {:induction false} PlainPrefixUntouched(a: string, b: string, name: TagName)
    requires '<' !in a
    ensures ReplaceAll(a + b, Tag(name), EscapedTag(name)) == a + ReplaceAll(b, Tag(name), EscapedTag(name))
  {
    var w := a + b;
    if a == [] {
      assert w == b;
    } else {
      assert w[0] == a[0] != Tag(name)[0] && w[1..] == a[1..] + b;
      PlainPrefixUntouched(a[1..], b, name);
      assert [a[0]] + a[1..] == a;
      if |w| < |Tag(name)| { assert |b| < |Tag(name)|; }
    }
  }

  lemma NothingToReplace(from: string, to: string)
    requires from != []
    ensures ReplaceAll([], from, to) == []
  {
  }

  lemma FirstKept(s: string, from: string, to: string)
    requires from != [] && s != [] && !(from <= s)
    ensures ReplaceAll(s, from, to) == [s[0]] + ReplaceAll(s[1..], from, to)
  {
  }

  lemma FrontReplaced(rest: string, from: string, to: string)
    requires from != []
    ensures ReplaceAll(from + rest, from, to) == to + ReplaceAll(rest, from, to)
  {
    assert (from + rest)[|from|..] == rest;
  }

  /** The escaped form at the front of the text is still there after escaping. */
  lemma EscapedFrontKept(s: string, name: TagName)
    requires EscapedTag(name) <= s
    ensures ReplaceAll(s, Tag(name), EscapedTag(name))
      == EscapedTag(name) + ReplaceAll(s[|EscapedTag(name)|..], Tag(name), EscapedTag(name))
  {
    hide ReplaceAll;
    var e := EscapedTag(name);
    assert s[1] == e[1] == '\\' != Tag(name)[1];
    FirstKept(s, Tag(name), e);
    assert s[1..] == e[1..] + s[|e|..] && '<' !in e[1..];
    PlainPrefixUntouched(e[1..], s[|e|..], name);
    assert [s[0]] + (e[1..] + ReplaceAll(s[|e|..], Tag(name), e)) == e + ReplaceAll(s[|e|..], Tag(name), e);
  }

  /** An escaped form at the front of text kept character by character was there before. */
  lemma FrontEscapeWasThere(s: string, name: TagName)
    requires s != [] && EscapedTag(name) <= [s[0]] + ReplaceAll(s[1..], Tag(name), EscapedTag(name))
    ensures EscapedTag(name) <= s
  {
    var t, rest := EscapedTag(name), ReplaceAll(s[1..], Tag(name), EscapedTag(name));
    assert t[1..] == ([s[0]] + rest)[..|t|][1..] == rest[..|t| - 1];
    PlainPrefixKept(s[1..], name, |t| - 1);
    assert t == [s[0]] + t[1..] == [s[0]] + s[1..][..|t| - 1] == s[..|t|];
  }

  /** Unescaping loses one character for each escaped form the text held before. */
  lemma {:induction false} UnescapeLength(s: string, name: TagName)
    ensures var u := Unescape(ReplaceAll(s, Tag(name), EscapedTag(name)), name);
      && |u| + Count(s, EscapedTag(name)) == |s|
      && (Count(s, EscapedTag(name)) == 0 ==> u == s)
    decreases |s|
  {
    hide ReplaceAll, Count;
    var t, e := Tag(name), EscapedTag(name);
    if s == [] {
      ShortCount(s, e);
      NothingToReplace(t, e);
      NothingToReplace(e, t);
    } else if t <= s {
      var rest := s[|t|..];
      UnescapeLength(rest, name);
      assert s == t + rest;
      FrontReplaced(rest, t, e);
      FrontReplaced(ReplaceAll(rest, t, e), e, t);
      CountSkips(s, |t|, e);
    } else if e <= s {
      var rest := s[|e|..];
      UnescapeLength(rest, name);
      EscapedFrontKept(s, name);
      FrontReplaced(ReplaceAll(rest, t, e), e, t);
      CountFirst(s, e);
      CountSkips(s[1..], |e| - 1, e);
      assert s[1..][|e| - 1..] == rest;
    } else {
      UnescapeLength(s[1..], name);
      var rest := ReplaceAll(s[1..], t, e);
      FirstKept(s, t, e);
      if e <= [s[0]] + rest { FrontEscapeWasThere(s, name); }
      FirstKept([s[0]] + rest, e, t);
      assert ([s[0]] + rest)[1..] == rest;
      CountFirst(s, e);
      assert [s[0]] + s[1..] == s;
    }
  }

  lemma CountFirst(s: string, t: string)
    requires t != [] && s != []
    ensures Count(s, t) == (if t <= s then 1 else 0) + Count(s[1..], t)
  {
  }

  /** The first two characters already rule t out at p. */
  predicate Misses(s: string, t: string, p: nat)
    requires |t| > 1
  {
    p < |s| && (s[p] != t[0] || (p + 1 < |s| && s[p + 1] != t[1]))
  }

  lemma {:induction false} CountSkips(s: string, k: nat, t: string)
    requires |t| > 1 && k <= |s| && forall p: nat :: p < k ==> Misses(s, t, p)
    ensures Count(s, t) == Count(s[k..], t)
  {
    hide Count;
    if k == 0 {
      assert s[0..] == s;
    } else {
      forall p: nat | p < k - 1 ensures Misses(s[1..], t, p) { assert Misses(s, t, p + 1); }
      CountSkips(s[1..], k - 1, t);
      assert s[1..][k - 1..] == s[k..];
      assert Misses(s, t, 0);
      CountFirst(s, t);
    }
  }

  /** Escaping can be undone exactly when the text did not already hold the escaped form. */
  lemma EscapeInvertibleIff(s: string, name: TagName)
    ensures Unescape(Escape(s, name).0, name) == s <==> !Contains(s, EscapedTag(name))
  {
    EscapeIsReplaceAll(s, name);
    UnescapeLength(s, name);
    ContainsIffCounted(s, EscapedTag(name));
  }
}
