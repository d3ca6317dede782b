/**
 * The post-processing of a language-model reply at the end of `whatif_llm`
 * (app/services/whatif.py): the reply is split into bullet blocks, each block
 * is cleaned, empty blocks are dropped, and when nothing survives every
 * hypothetical receives the whole reply.
 */
module Reply {
  import opened Strings
  import opened WhatIf

  /** The separator the reply is split on. */
  const REPLY_SEPARATOR := "\n- "

  /** The characters `lstrip("- ")` removes. */
  const BULLET_CHARS: set<char> := {'-', ' '}

  /** One reply block cleaned as `block.strip().lstrip("- ").strip()`. */
  function CleanBlock(block: string): (r: string)
    ensures IsStripped(r)
  {
    Strip(LStripChars(Strip(block), BULLET_CHARS))
  }

  /** The cleaned block is a piece of the block. */
  lemma CleanBlockIsInfix(block: string)
    ensures exists i :: OccursAt(block, CleanBlock(block), i)
  {
    StripLStripStripIsInfix(block, BULLET_CHARS);
    var i :| OccursAt(block, Strip(LStripChars(Strip(block), BULLET_CHARS)), i);
    assert OccursAt(block, CleanBlock(block), i);
  }

  /** The cleaning keeps a dash that whitespace separates from the leading dashes. */
  lemma CleanBlockCanStartWithDash()
    ensures CleanBlock("-\t-x") == "-x"
  {
    var s := "-\t-x";
    StrippedIsFixed(s);
    assert SkipChars(s, BULLET_CHARS, 0) == 1;
    assert LStripChars(s, BULLET_CHARS) == "\t-x";
    var t := "\t-x";
    assert SkipSpace(t, 0) == 1;
    assert TrimEnd(t, 1, 3) == 3;
    assert t[1..3] == "-x";
  }

  /** Every block, cleaned. */
  function Cleaned(blocks: seq<string>): (r: seq<string>)
    ensures |r| == |blocks|
    ensures forall k :: 0 <= k < |blocks| ==> r[k] == CleanBlock(blocks[k])
  {
    seq(|blocks|, k requires 0 <= k < |blocks| => CleanBlock(blocks[k]))
  }

  /** The non-empty strings, in order. */
  function NonEmpty(xs: seq<string>): (r: seq<string>)
    ensures |r| <= |xs|
    ensures forall k :: 0 <= k < |r| ==> r[k] != ""
    decreases |xs|
  {
    if |xs| == 0 then []
    else NonEmpty(xs[..|xs| - 1]) + (if xs[|xs| - 1] == "" then [] else [xs[|xs| - 1]])
  }

  /** A string survives the filter exactly when it is non-empty and present. */
  lemma {:induction false} NonEmptyMembers(xs: seq<string>, s: string)
    ensures s in NonEmpty(xs) <==> s != "" && s in xs
    decreases |xs|
  {
    if |xs| > 0 {
      NonEmptyMembers(xs[..|xs| - 1], s);
      assert xs == xs[..|xs| - 1] + [xs[|xs| - 1]];
    }
  }

  /** The blocks `whatif_llm` keeps. */
  function KeptBlocks(blocks: seq<string>): (r: seq<string>)
    ensures |r| <= |blocks|
    ensures forall k :: 0 <= k < |r| ==> r[k] != "" && IsStripped(r[k])
  {
    var c := Cleaned(blocks);
    assert forall k :: 0 <= k < |NonEmpty(c)| ==> IsStripped(NonEmpty(c)[k]) by {
      forall k | 0 <= k < |NonEmpty(c)| ensures IsStripped(NonEmpty(c)[k]) {
        NonEmptyMembers(c, NonEmpty(c)[k]);
      }
    }
    NonEmpty(c)
  }

  /** The items made from kept blocks: each one carries a block and an empty hypothetical. */
  function BlockItems(kept: seq<string>): (items: seq<WhatIfItem>)
    ensures |items| == |kept|
    ensures forall i :: 0 <= i < |kept| ==> items[i] == WhatIfItem("", kept[i])
    decreases |kept|
  {
    if |kept| == 0 then [] else BlockItems(kept[..|kept| - 1]) + [WhatIfItem("", kept[|kept| - 1])]
  }

  /** What the tail of `whatif_llm` returns for the reply `out`. */
  function ParsedItems(out: string, hyps: seq<string>): (r: seq<WhatIfItem>)
    ensures |hyps| > 0 ==> |r| > 0
  {
    var kept := KeptBlocks(Split(out, REPLY_SEPARATOR));
    if |kept| == 0 then seq(|hyps|, i requires 0 <= i < |hyps| => WhatIfItem(hyps[i], out))
    else BlockItems(kept)
  }

  /** A cleaned block of the reply is a piece of the reply that holds no separator. */
  lemma CleanedBlockIsPieceOfReply(out: string, k: nat)
    requires k < |Split(out, REPLY_SEPARATOR)|
    ensures var c := CleanBlock(Split(out, REPLY_SEPARATOR)[k]);
      Contains(out, c) && !Contains(c, REPLY_SEPARATOR)
  {
    var blocks := Split(out, REPLY_SEPARATOR);
    var c := CleanBlock(blocks[k]);
    CleanBlockIsInfix(blocks[k]);
    var j :| OccursAt(blocks[k], c, j);
    InfixKeepsAbsence(blocks[k], c, j, REPLY_SEPARATOR);
    OccursInJoin(blocks, REPLY_SEPARATOR, k, c, j);
    JoinSplit(out, REPLY_SEPARATOR);
  }

  /** A kept block is a non-empty, stripped piece of the reply that holds no separator. */
  lemma KeptBlockIsPieceOfReply(out: string, s: string)
    requires s in KeptBlocks(Split(out, REPLY_SEPARATOR))
    ensures s != "" && IsStripped(s)
    ensures Contains(out, s) && !Contains(s, REPLY_SEPARATOR)
  {
    var blocks := Split(out, REPLY_SEPARATOR);
    NonEmptyMembers(Cleaned(blocks), s);
    var k :| 0 <= k < |blocks| && Cleaned(blocks)[k] == s;
    CleanedBlockIsPieceOfReply(out, k);
  }

  /**
   * When no block survived there is one item per hypothetical carrying the
   * whole reply; otherwise every item is a non-empty, stripped piece of the
   * reply with no separator inside it and an empty `hypothetical`.
   */
  lemma ParsedItemsShape(out: string, hyps: seq<string>)
    ensures var items := ParsedItems(out, hyps);
      && (KeptBlocks(Split(out, REPLY_SEPARATOR)) == [] ==>
          && |items| == |hyps|
          && forall i :: 0 <= i < |items| ==> items[i] == WhatIfItem(hyps[i], out))
      && (KeptBlocks(Split(out, REPLY_SEPARATOR)) != [] ==>
          && |items| > 0
          && forall i :: 0 <= i < |items| ==>
               && items[i].hypothetical == ""
               && items[i].analysis != ""
               && IsStripped(items[i].analysis)
               && Contains(out, items[i].analysis)
               && !Contains(items[i].analysis, REPLY_SEPARATOR))
  {
    var kept := KeptBlocks(Split(out, REPLY_SEPARATOR));
    var items := ParsedItems(out, hyps);
    if |kept| > 0 {
      assert items == BlockItems(kept);
      forall i | 0 <= i < |items|
        ensures items[i].hypothetical == "" && items[i].analysis != "" && IsStripped(items[i].analysis)
        ensures Contains(out, items[i].analysis) && !Contains(items[i].analysis, REPLY_SEPARATOR)
      {
        assert items[i] == WhatIfItem("", kept[i]);
        KeptBlockIsPieceOfReply(out, kept[i]);
      }
    }
  }

  /** Cleaning one more block extends the kept blocks by it unless it is empty. */
  lemma KeptBlocksStep(blocks: seq<string>, n: nat)
    requires n < |blocks|
    ensures KeptBlocks(blocks[..n + 1])
      == KeptBlocks(blocks[..n]) + (if CleanBlock(blocks[n]) == "" then [] else [CleanBlock(blocks[n])])
  {
    var c := Cleaned(blocks[..n + 1]);
    assert c[..n] == Cleaned(blocks[..n]);
  }

  /** Appending a kept block appends its item. */
  lemma BlockItemsSnoc(kept: seq<string>, c: string)
    ensures BlockItems(kept + [c]) == BlockItems(kept) + [WhatIfItem("", c)]
  {
    assert (kept + [c])[..|kept|] == kept;
  }

  /** The loop of `whatif_llm` over the reply's blocks: clean each one and keep the non-empty ones as items. */
  method CollectBlocks(blocks: seq<string>) returns (items: seq<WhatIfItem>)
    ensures items == BlockItems(KeptBlocks(blocks))
  {
    items := [];
    for n := 0 to |blocks|
      invariant items == BlockItems(KeptBlocks(blocks[..n]))
    {
      var block := CleanBlock(blocks[n]);
      KeptBlocksStep(blocks, n);
      if block != "" {
        BlockItemsSnoc(KeptBlocks(blocks[..n]), block);
        items := items + [WhatIfItem("", block)];
      }
    }
    assert blocks[..|blocks|] == blocks;
  }

  /** The tail of `whatif_llm`: split the reply into blocks, keep the cleaned non-empty ones, fall back to the whole reply. */
  method ParseReply(out: string, hyps: seq<string>) returns (items: seq<WhatIfItem>)
    ensures items == ParsedItems(out, hyps)
  {
    var blocks := Split(out, REPLY_SEPARATOR);
    items := CollectBlocks(blocks);
    if |items| == 0 {
      items := seq(|hyps|, i requires 0 <= i < |hyps| => WhatIfItem(hyps[i], out));
    }
  }
}
