/** Rendering of selected sources (internal/context/multi_reference.go):
    omission markers, head-and-tail truncation and the provenance block. */
module Rendering {
  import opened Sums
  import opened Text
  import opened Terminator

  const CHARS_PER_TOKEN := 4
  const BLOCK_TAG: TagName := "canopy_multi_reference"

  // --- Thousands separators --------------------------------------------------

  /** Commas before every group of three digits, counted from the right. */
  function Grouped(digits: string): string
    decreases |digits|
  {
    if |digits| <= 3 then digits
    else Grouped(digits[..|digits| - 3]) + "," + digits[|digits| - 3..]
  }

  function Join(parts: seq<string>, sep: string): string
  {
    if parts == [] then "" else if |parts| == 1 then parts[0] else parts[0] + sep + Join(parts[1..], sep)
  }

  function Thousands(n: int): string { if n < 0 then "-" + Grouped(Digits(-n)) else Grouped(Digits(n)) }

  lemma JoinPush(head: string, parts: seq<string>, sep: string)
    requires parts != []
    ensures Join([head] + parts, sep) == head + sep + Join(parts, sep)
  {
    assert ([head] + parts)[1..] == parts;
  }

  method GroupThousands(n: int) returns (s: string)
    ensures s == Thousands(n)
  {
    hide Digits;
    var sign, m := "", n;
    if m < 0 { sign, m := "-", -m; }
    var digits := Digits(m);
    if |digits| <= 3 { return sign + digits; }
    var groups: seq<string> := [];
    while |digits| > 3
      invariant groups == [] ==> digits == Digits(m) && |digits| > 3
      invariant groups != [] ==> Grouped(digits) + "," + Join(groups, ",") == Grouped(Digits(m))
      decreases |digits|
    {
      var group := digits[|digits| - 3..];
      if groups != [] {
        JoinPush(group, groups, ",");
        assert Grouped(digits) + "," + Join(groups, ",")
            == Grouped(digits[..|digits| - 3]) + "," + (group + "," + Join(groups, ","));
      }
      groups := [group] + groups;
      digits := digits[..|digits| - 3];
    }
    JoinPush(digits, groups, ",");
    s := sign + Join([digits] + groups, ",");
  }

  function WithoutCommas(s: string): string
  {
    if s == [] then [] else (if s[0] == ',' then [] else [s[0]]) + WithoutCommas(s[1..])
  }

  lemma {:induction false} WithoutCommasConcat(a: string, b: string)
    ensures WithoutCommas(a + b) == WithoutCommas(a) + WithoutCommas(b)
  {
    if a == [] {
      assert a + b == b;
    } else {
      assert (a + b)[1..] == a[1..] + b;
      WithoutCommasConcat(a[1..], b);
    }
  }

  lemma {:induction false} NumeralHasNoCommas(s: string)
    requires Numeral(s)
    ensures WithoutCommas(s) == s
  {
    if s != [] { NumeralHasNoCommas(s[1..]); }
  }

  /** Grouping is undone by dropping the commas. */
  lemma {:induction false} GroupedUngroups(digits: string)
    requires Numeral(digits)
    ensures WithoutCommas(Grouped(digits)) == digits
    decreases |digits|
  {
    if |digits| <= 3 {
      NumeralHasNoCommas(digits);
    } else {
      var front, group := digits[..|digits| - 3], digits[|digits| - 3..];
      GroupedUngroups(front);
      NumeralHasNoCommas(group);
      assert Grouped(digits) == Grouped(front) + "," + group;
      WithoutCommasConcat(Grouped(front) + ",", group);
      WithoutCommasConcat(Grouped(front), ",");
      assert WithoutCommas(",") == "";
    }
  }

  /** Every fourth character from the right is a comma, no other one is, and none leads;
      and there is no "<". */
  lemma {:induction false} GroupedFacts(digits: string)
    requires Numeral(digits) && digits != []
    ensures |Grouped(digits)| == |digits| + (|digits| - 1) / 3
    ensures var g := Grouped(digits);
      '<' !in g && g[0] != ',' && forall i :: 0 <= i < |g| ==> (g[i] == ',' <==> (|g| - i) % 4 == 0)
    decreases |digits|
  {
    if |digits| > 3 { GroupedFacts(digits[..|digits| - 3]); }
  }

  /** The rendered number reads back as the number it came from. */
  lemma ThousandsReadsBack(n: nat)
    ensures Numeral(WithoutCommas(Thousands(n))) && Value(WithoutCommas(Thousands(n))) == n
  {
    GroupedUngroups(Digits(n));
    DigitsValue(n);
  }

  lemma ThousandsLonger(m: nat, n: nat)
    requires m <= n
    ensures |Thousands(m)| <= |Thousands(n)|
  {
    GroupedFacts(Digits(m));
    GroupedFacts(Digits(n));
    DigitsLonger(m, n);
  }

  // --- Truncation ----------------------------------------------------------------

  function Marker(omitted: int, sourceLabel: string): string {
    "[... " + Thousands(omitted) + " tokens omitted from source " + sourceLabel + " ...]"
  }

  lemma MarkerLength(omitted: int, sourceLabel: string)
    ensures |Marker(omitted, sourceLabel)| == |Thousands(omitted)| + |sourceLabel| + 38
  {
    assert |"[... "| == 5 && |" tokens omitted from source "| == 28 && |" ...]"| == 5;
  }

  /** Characters kept of a source that does not fit. */
  function KeepChars(length: nat, allocation: int, total: nat, sourceLabel: string): (k: nat)
    ensures k <= length
  {
    Min(Max(allocation * CHARS_PER_TOKEN - |Marker(total, sourceLabel)| - 2, 2), length)
  }

  function OmittedTokens(keep: nat, total: nat): int {
    Max(total - (keep + CHARS_PER_TOKEN - 1) / CHARS_PER_TOKEN, 1)
  }

  function Truncate(content: string, allocation: int, sourceLabel: string): (string, int) {
    var total := Estimate(content);
    var keep := KeepChars(|content|, allocation, total, sourceLabel);
    var omitted := OmittedTokens(keep, total);
    (content[..keep / 2] + "\n" + Marker(omitted, sourceLabel) + "\n" +
      content[|content| - (keep - keep / 2)..], omitted)
  }

  datatype Rendered = Rendered(text: string, truncated: bool, omitted: int, used: int)

  function RenderSource(content: string, allocation: int, sourceLabel: string): Rendered {
    var a := if allocation <= 0 then 256 else allocation;
    if Estimate(content) <= a then Rendered(content, false, 0, Estimate(content))
    else var (text, omitted) := Truncate(content, a, sourceLabel); Rendered(text, true, omitted, a)
  }

  /** The text is a head of h and a tail of t characters around the marker. */
  predicate CutAt(text: string, omitted: int, content: string, sourceLabel: string, h: nat, t: nat) {
    && h + t < |content|
    && text == content[..h] + "\n" + Marker(omitted, sourceLabel) + "\n" + content[|content| - t..]
    && omitted == Estimate(content) - Estimate(content[..h] + content[|content| - t..])
  }

  /** Truncation drops characters from the middle: what is kept is a head and a
      tail that together are what the allocation leaves beside the marker and two line
      ends, or two characters, and the marker's count is the estimate of the whole
      minus that of what was kept. */
  lemma TruncateShape(content: string, allocation: int, sourceLabel: string)
    requires 0 < allocation < Estimate(content)
    ensures var (text, omitted) := Truncate(content, allocation, sourceLabel);
      exists h: nat, t: nat ::
        1 <= h <= t <= h + 1 && CutAt(text, omitted, content, sourceLabel, h, t)
        && h + t == Max(4 * allocation - |Marker(Estimate(content), sourceLabel)| - 2, 2)
  {
    hide Marker;
    var total := Estimate(content);
    var keep := KeepChars(|content|, allocation, total, sourceLabel);
    var (text, omitted) := Truncate(content, allocation, sourceLabel);
    var h := keep / 2;
    var t := keep - h;
    assert |content[..h] + content[|content| - t..]| == keep;
    assert CutAt(text, omitted, content, sourceLabel, h, t);
  }

  /** The exact condition under which a truncated source fits its allocation:
      the marker for all but one token, two newlines and two characters fit. */
  lemma TruncateFitsIff(content: string, allocation: int, sourceLabel: string)
    requires 0 < allocation < Estimate(content)
    ensures Estimate(Truncate(content, allocation, sourceLabel).0) <= allocation
       <==> |Marker(Estimate(content) - 1, sourceLabel)| + 4 <= allocation * CHARS_PER_TOKEN
  {
    hide Marker, Thousands;
    var total := Estimate(content);
    var keep := KeepChars(|content|, allocation, total, sourceLabel);
    var omitted := OmittedTokens(keep, total);
    MarkerLength(total, sourceLabel);
    MarkerLength(total - 1, sourceLabel);
    MarkerLength(omitted, sourceLabel);
    ThousandsLonger(total - 1, total);
    ThousandsLonger(omitted, total);
    assert |Truncate(content, allocation, sourceLabel).0| == keep + |Marker(omitted, sourceLabel)| + 2;
    if keep > 2 {
      ThousandsLonger(omitted, total - 1);
      assert Estimate(Truncate(content, allocation, sourceLabel).0) <= allocation;
    } else {
      assert omitted == total - 1;
    }
  }

  /** Selected-source allocations are at least 256 whenever they cut, so labels
      and counts of ordinary length always fit. */
  lemma TruncateFits(content: string, allocation: int, sourceLabel: string)
    requires 256 <= allocation < Estimate(content)
    requires |Thousands(Estimate(content))| + |sourceLabel| <= 982
    ensures Estimate(Truncate(content, allocation, sourceLabel).0) <= allocation
  {
    MarkerLength(Estimate(content) - 1, sourceLabel);
    ThousandsLonger(Estimate(content) - 1, Estimate(content));
    TruncateFitsIff(content, allocation, sourceLabel);
  }

  // --- Terminators in rendered text -----------------------------------------------

  /** How often the block terminator occurs. */
  function Closers(s: string): nat { Count(s, Tag(BLOCK_TAG)) }

  lemma MarkerClosers(omitted: int, sourceLabel: string)
    ensures Closers(Marker(omitted, sourceLabel)) == Closers(sourceLabel)
  {
    hide Count, Grouped;
    var n := Thousands(omitted);
    GroupedFacts(Digits(if omitted < 0 then -omitted else omitted));
    var front := "[... " + n + " tokens omitted from source ";
    assert '<' !in n && '<' !in front;
    assert Marker(omitted, sourceLabel) == front + (sourceLabel + " ...]" + "");
    NoAngleNoCount(front, sourceLabel + " ...]" + "", BLOCK_TAG);
    CountGlued(sourceLabel, " ...]", "", BLOCK_TAG);
    NothingCloses();
  }

  lemma CutClosers(head: string, marker: string, tail: string)
    ensures Closers(head + "\n" + marker + "\n" + tail) == Closers(head) + Closers(marker) + Closers(tail)
  {
    hide Count;
    CountGlued(marker, "\n", tail, BLOCK_TAG);
    CountGlued(head, "\n", marker + "\n" + tail, BLOCK_TAG);
    assert head + "\n" + marker + "\n" + tail == head + "\n" + (marker + "\n" + tail);
  }

  /** A cut source can only carry a terminator that its own label brought in. */
  lemma RenderSourceClosers(content: string, allocation: int, sourceLabel: string)
    requires Closers(content) == 0
    ensures var r := RenderSource(content, allocation, sourceLabel);
      Closers(r.text) == if r.truncated then Closers(sourceLabel) else 0
  {
    hide Count, Marker;
    var a := if allocation <= 0 then 256 else allocation;
    if Estimate(content) > a {
      TruncateShape(content, a, sourceLabel);
      var (text, omitted) := Truncate(content, a, sourceLabel);
      var h: nat, t: nat :| 1 <= h <= t <= h + 1 && CutAt(text, omitted, content, sourceLabel, h, t);
      CleanSlices(content, Tag(BLOCK_TAG), h);
      CleanSlices(content, Tag(BLOCK_TAG), |content| - t);
      MarkerClosers(omitted, sourceLabel);
      CutClosers(content[..h], Marker(omitted, sourceLabel), content[|content| - t..]);
    }
  }

  /** Text the renderer itself produces: UUIDs, numbers, timestamps, booleans. */
  type Plain = s: string | '<' !in s witness ""

  /** One compiled source, as the block shows it. */
  datatype SourceView = SourceView(
    sourceLabel: string, colorKey: string, nodeType: string,
    nodeId: Plain, branchRoot: Plain, author: Plain, sequence: Plain, createdAt: Plain,
    tokens: Plain, truncated: bool, content: string)

  /** The header fields between the colour key and the node type. */
  function HeaderIds(v: SourceView): (r: string)
    ensures Glue(r, BLOCK_TAG)
  {
    " | node_id=" + v.nodeId + " | branch_root=" + v.branchRoot + " | author=" + v.author +
    " |\n sequence=" + v.sequence + " | created_at=" + v.createdAt + " | node_type="
  }

  function HeaderEnd(v: SourceView): (r: string)
    ensures Glue(r, BLOCK_TAG)
  {
    " | tokens=" + v.tokens + " | truncated=" + Flag(v.truncated) + "]"
  }

  function SourceHeader(v: SourceView): string {
    "[Source " + v.sourceLabel + " | color=" + v.colorKey + HeaderIds(v) + v.nodeType + HeaderEnd(v)
  }

  function SourceSection(v: SourceView): string { SourceHeader(v) + "\n" + v.content }

  lemma SourceSectionClosers(v: SourceView)
    ensures Closers(SourceSection(v)) ==
      Closers(v.sourceLabel) + Closers(v.colorKey) + Closers(v.nodeType) + Closers(v.content)
  {
    hide Count, HeaderIds, HeaderEnd, Tag;
    var typed := v.nodeType + HeaderEnd(v) + ("\n" + v.content);
    var colored := v.colorKey + HeaderIds(v) + typed;
    var labelled := v.sourceLabel + " | color=" + colored;
    SeparatorsGlue();
    CountGlued("", "\n", v.content, BLOCK_TAG);
    NothingCloses();
    assert "" + "\n" + v.content == "\n" + v.content;
    CountGlued(v.nodeType, HeaderEnd(v), "\n" + v.content, BLOCK_TAG);
    CountGlued(v.colorKey, HeaderIds(v), typed, BLOCK_TAG);
    CountGlued(v.sourceLabel, " | color=", colored, BLOCK_TAG);
    NoAngleNoCount("[Source ", labelled, BLOCK_TAG);
    assert SourceSection(v) == "[Source " + labelled;
  }

  lemma SeparatorsGlue()
    ensures Glue("\n", BLOCK_TAG) && Glue("\n\n", BLOCK_TAG) && Glue(" | color=", BLOCK_TAG)
  {
  }

  lemma NothingCloses()
    ensures Closers("") == 0
  {
  }

  /** The attributes of the opening tag, already quoted. */
  datatype BlockAttrs = BlockAttrs(treeId: Plain, primarySource: Plain, count: Plain, synthetic: bool, ancestor: Plain)

  function Attribute(name: Plain, value: Plain): Plain { "  " + name + "=\"" + value + "\"" }

  /** One attribute a line, the last one closing the tag. */
  function AttributeLines(attrs: seq<Plain>): Plain
  {
    if attrs == [] then ""
    else if |attrs| == 1 then attrs[0] + ">\n"
    else attrs[0] + "\n" + AttributeLines(attrs[1..])
  }

  const TREE_ID: Plain := "target_tree_id"
  const PRIMARY_ID: Plain := "primary_source_id"
  const SOURCE_COUNT: Plain := "source_count"
  const MERGE: Plain := "synthetic_context_merge"
  const ANCESTOR_ID: Plain := "common_ancestor_id"

  function Flag(b: bool): Plain { if b then "true" else "false" }

  function Attributes(h: BlockAttrs): Plain {
    AttributeLines(
      [Attribute(TREE_ID, h.treeId), Attribute(PRIMARY_ID, h.primarySource),
       Attribute(SOURCE_COUNT, h.count), Attribute(MERGE, Flag(h.synthetic))] +
      (if h.ancestor == "" then [] else [Attribute(ANCESTOR_ID, h.ancestor)]))
  }

  /** What follows the "<" of the opening tag. */
  const OPENING: Plain := "canopy_multi_reference version=\"1\"\n"

  /** common_ancestor_id is left out when the selection carries no branch span. */
  function BlockHeader(h: BlockAttrs): string { "<" + (OPENING + Attributes(h)) }

  /** A source's header, field by field. */
  lemma SourceHeaderShown(v: SourceView)
    ensures SourceHeader(v) == "[Source " + v.sourceLabel + " | color=" + v.colorKey
      + (" | node_id=" + v.nodeId + " | branch_root=" + v.branchRoot + " | author=" + v.author
         + " |\n sequence=" + v.sequence + " | created_at=" + v.createdAt + " | node_type=")
      + v.nodeType
      + (" | tokens=" + v.tokens + " | truncated=" + (if v.truncated then "true" else "false") + "]")
  {
  }

  /** The opening tag's attributes in order, the last one closing it. */
  lemma AttributesShown(h: BlockAttrs)
    ensures var tree, primary := Attribute("target_tree_id", h.treeId), Attribute("primary_source_id", h.primarySource);
      var count := Attribute("source_count", h.count);
      var merge := Attribute("synthetic_context_merge", if h.synthetic then "true" else "false");
      var ancestor := Attribute("common_ancestor_id", h.ancestor);
      Attributes(h) == tree + "\n" + (primary + "\n" + (count + "\n" +
        if h.ancestor == "" then merge + ">\n" else merge + "\n" + (ancestor + ">\n")))
  {
    var a, b := Attribute(TREE_ID, h.treeId), Attribute(PRIMARY_ID, h.primarySource);
    var c, d := Attribute(SOURCE_COUNT, h.count), Attribute(MERGE, Flag(h.synthetic));
    var e := Attribute(ANCESTOR_ID, h.ancestor);
    hide Attribute;
    var last := if h.ancestor == "" then [d] else [d, e];
    assert [d, e] == [d] + [e];
    LineFirst(d, [e]);
    LineFirst(c, last);
    LineFirst(b, [c] + last);
    LineFirst(a, [b] + ([c] + last));
    assert [a, b, c, d] + (if h.ancestor == "" then [] else [e]) == [a] + ([b] + ([c] + last));
  }

  lemma LineFirst(attr: Plain, rest: seq<Plain>)
    requires rest != []
    ensures AttributeLines([attr] + rest) == attr + "\n" + AttributeLines(rest)
    ensures AttributeLines([attr]) == attr + ">\n" && AttributeLines([rest[0]]) == rest[0] + ">\n"
  {
    assert ([attr] + rest)[1..] == rest;
  }

  function Sections(views: seq<SourceView>): seq<string> {
    seq(|views|, i requires 0 <= i < |views| => SourceSection(views[i]))
  }

  function Block(h: BlockAttrs, views: seq<SourceView>): string {
    Join([BlockHeader(h)] + Sections(views) + ["</canopy_multi_reference>"], "\n\n")
  }

  // --- The block ---------------------------------------------------------------

  function TotalClosers(parts: seq<string>): nat
  {
    if parts == [] then 0 else Closers(parts[0]) + TotalClosers(parts[1..])
  }

  lemma {:induction false} JoinClosers(parts: seq<string>)
    ensures Closers(Join(parts, "\n\n")) == TotalClosers(parts)
  {
    hide Count;
    if parts == [] {
      NothingCloses();
    } else {
      JoinClosers(parts[1..]);
      if |parts| > 1 {
        SeparatorsGlue();
        CountGlued(parts[0], "\n\n", Join(parts[1..], "\n\n"), BLOCK_TAG);
      }
    }
  }

  lemma {:induction false} TotalClosersAppend(a: seq<string>, b: seq<string>)
    ensures TotalClosers(a + b) == TotalClosers(a) + TotalClosers(b)
  {
    if a == [] {
      assert a + b == b;
    } else {
      assert (a + b)[1..] == a[1..] + b;
      TotalClosersAppend(a[1..], b);
    }
  }

  lemma HeaderClosers(h: BlockAttrs)
    ensures Closers(BlockHeader(h)) == 0
  {
    hide Attributes;
    var s, rest := BlockHeader(h), OPENING + Attributes(h);
    assert s[0] == '<' && s[1] == OPENING[0] == 'c' && s[1..] == rest;
    assert Tag(BLOCK_TAG)[1] == '/';
    assert rest + "" == rest;
    NoAngleNoCount(rest, "", BLOCK_TAG);
    NothingCloses();
  }

  lemma CloserClosesOnce()
    ensures Closers("</canopy_multi_reference>") == 1
  {
    var w := Tag(BLOCK_TAG) + ">";
    assert w == "</canopy_multi_reference>";
    assert '<' !in w[1..] && w[1..] == w[1..] + "";
    NoAngleNoCount(w[1..], "", BLOCK_TAG);
    NothingCloses();
  }

  /** Terminators the untrusted fields of the sources bring into the block. */
  function Smuggled(views: seq<SourceView>): nat
  {
    if views == [] then 0 else
      Closers(views[0].sourceLabel) + Closers(views[0].colorKey) + Closers(views[0].nodeType) +
      Closers(views[0].content) + Smuggled(views[1..])
  }

  lemma {:induction false} SectionsClosers(views: seq<SourceView>)
    ensures TotalClosers(Sections(views)) == Smuggled(views)
  {
    hide Count, SourceSection;
    if views != [] {
      SourceSectionClosers(views[0]);
      assert Sections(views)[1..] == Sections(views[1..]);
      SectionsClosers(views[1..]);
    }
  }

  /** The exact number of terminators in a block. */
  lemma BlockClosers(h: BlockAttrs, views: seq<SourceView>)
    ensures Closers(Block(h, views)) == 1 + Smuggled(views)
  {
    hide Count, BlockHeader, Sections;
    var close := ["</canopy_multi_reference>"];
    JoinClosers([BlockHeader(h)] + Sections(views) + close);
    TotalClosersAppend([BlockHeader(h)] + Sections(views), close);
    TotalClosersAppend([BlockHeader(h)], Sections(views));
    assert TotalClosers([BlockHeader(h)]) == Closers(BlockHeader(h)) + TotalClosers([]);
    assert TotalClosers(close) == Closers(close[0]) + TotalClosers([]);
    HeaderClosers(h);
    CloserClosesOnce();
    SectionsClosers(views);
  }

  lemma {:induction false} JoinEnds(parts: seq<string>, sep: string)
    requires parts != []
    ensures var j, last := Join(parts, sep), parts[|parts| - 1];
      |last| <= |j| && j[|j| - |last|..] == last
  {
    if |parts| > 1 {
      JoinEnds(parts[1..], sep);
      var rest, last := Join(parts[1..], sep), parts[|parts| - 1];
      assert parts[1..][|parts[1..]| - 1] == last;
      assert Join(parts, sep) == parts[0] + sep + rest;
    }
  }

  lemma {:induction false} JoinSnoc(parts: seq<string>, last: string, sep: string)
    requires parts != []
    ensures Join(parts + [last], sep) == Join(parts, sep) + sep + last
  {
    if |parts| > 1 {
      JoinSnoc(parts[1..], last, sep);
      assert (parts + [last])[1..] == parts[1..] + [last];
    }
  }

  /** The sections stand in the order of the sources: one more source puts its section,
      after a blank line, where the closing tag was. */
  lemma BlockGrows(h: BlockAttrs, views: seq<SourceView>, v: SourceView) returns (body: string)
    ensures var gap, close := "\n\n", "</canopy_multi_reference>";
      && Block(h, views) == body + gap + close
      && Block(h, views + [v]) == body + gap + SourceSection(v) + gap + close
    ensures views == [] ==> body == BlockHeader(h)
  {
    hide Join, BlockHeader, SourceSection;
    var gap, close := "\n\n", "</canopy_multi_reference>";
    var parts := [BlockHeader(h)] + Sections(views);
    body := Join(parts, gap);
    assert Sections(views + [v]) == Sections(views) + [SourceSection(v)];
    assert [BlockHeader(h)] + Sections(views + [v]) == parts + [SourceSection(v)];
    JoinSnoc(parts, close, gap);
    JoinSnoc(parts, SourceSection(v), gap);
    JoinSnoc(parts + [SourceSection(v)], close, gap);
    JoinSingle(BlockHeader(h), gap);
    assert views == [] ==> parts == [BlockHeader(h)];
  }

  lemma JoinSingle(part: string, sep: string)
    ensures Join([part], sep) == part
  {
  }

  /** Every block ends with its terminator. */
  lemma BlockEnds(h: BlockAttrs, views: seq<SourceView>)
    ensures var b := Block(h, views);
      |b| >= 25 && b[|b| - 25..] == Tag(BLOCK_TAG) + ">"
  {
    hide BlockHeader, Sections;
    var parts := [BlockHeader(h)] + Sections(views) + ["</canopy_multi_reference>"];
    JoinEnds(parts, "\n\n");
    assert parts[|parts| - 1] == "</canopy_multi_reference>" == Tag(BLOCK_TAG) + ">";
    assert |"</canopy_multi_reference>"| == 25;
  }
}
