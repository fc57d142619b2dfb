/** The labelled block of a resolved card reference
    (internal/context/card_reference.go). Attribute lines arrive quoted and the
    envelope's JSON body as text; nothing is assumed about either. */
module CardReference {
  import opened Terminator
  import opened Rendering

  const CARD_TAG: TagName := "canopy_card"
  const OPEN := "<canopy_card version=\"1\""

  /** One attribute per line, the last one closing the opening tag. */
  function CardHeader(attrs: seq<string>): string
    requires attrs != []
  {
    OPEN + "\n" + Join(attrs, "\n") + ">\n"
  }

  method RenderHeader(attrs: seq<string>) returns (header: string)
    requires attrs != []
    ensures header == CardHeader(attrs)
  {
    header := OPEN + "\n";
    for i := 0 to |attrs|
      invariant i == 0 ==> header == OPEN + "\n"
      invariant 0 < i < |attrs| ==> header == OPEN + "\n" + Join(attrs[..i], "\n") + "\n"
      invariant i == |attrs| ==> header == CardHeader(attrs)
    {
      assert attrs[..i + 1] == attrs[..i] + [attrs[i]];
      if i > 0 { JoinSnoc(attrs[..i], attrs[i], "\n"); }
      header := header + attrs[i];
      assert header == OPEN + "\n" + Join(attrs[..i + 1], "\n");
      if i == |attrs| - 1 {
        assert attrs[..i + 1] == attrs;
        header := header + ">";
      }
      header := header + "\n";
    }
  }

  /** Whatever the header and the body hold, the block closes once, at its end, and
      what it encloses is the escaped text; the warning flag says whether anything
      had to be escaped. */
  method RenderCardBlock(attrs: seq<string>, body: string) returns (block: string, escaped: bool)
    requires attrs != []
    ensures Count(block, Tag(CARD_TAG)) == 1
    ensures |block| >= 15 && block[|block| - 15..] == "\n" + Tag(CARD_TAG) + ">"
    ensures escaped <==> Contains(CardHeader(attrs) + body, Tag(CARD_TAG))
    ensures !Contains(CardHeader(attrs) + body, EscapedTag(CARD_TAG)) ==>
      Unescape(block[..|block| - 15], CARD_TAG) == CardHeader(attrs) + body
  {
    hide Count, ReplaceAll, CardHeader;
    var header := RenderHeader(attrs);
    var (text, didEscape) := Escape(header + body, CARD_TAG);
    escaped := didEscape;
    block := text + "\n" + Tag(CARD_TAG) + ">";
    assert block == text + "\n" + (Tag(CARD_TAG) + ">");
    EscapeIsReplaceAll(header + body, CARD_TAG);
    EscapeClean(header + body, CARD_TAG);
    CountGlued(text, "\n", Tag(CARD_TAG) + ">", CARD_TAG);
    CloserCount();
    assert |Tag(CARD_TAG) + ">"| == 14;
    assert block[..|block| - 15] == text;
    EscapeInvertibleIff(header + body, CARD_TAG);
  }

  lemma CloserCount()
    ensures Count(Tag(CARD_TAG) + ">", Tag(CARD_TAG)) == 1
  {
    var w := Tag(CARD_TAG) + ">";
    assert |w| == |Tag(CARD_TAG)| + 1;
    assert Tag(CARD_TAG) <= w && Count(w[1..], Tag(CARD_TAG)) == 0 by {
      assert w[1..][0] == '/' != Tag(CARD_TAG)[0];
      assert |w[1..][1..]| < |Tag(CARD_TAG)|;
    }
  }
}
