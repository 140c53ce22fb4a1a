/** What the whole footnote-block pass leaves: which blocks come up, where one
    is left behind, and how each level looks before hoisting. */
module FootnoteNormal {
  import opened Tree
  import opened FootnoteSpec
  import opened FootnoteHoistSpec

  // ----- hoisting, for the whole pass

  lemma {:induction false} NoNeedSurfaces(es: seq<Element>)
    requires !NeedsHoist(es)
    ensures Surfacing(es) == Suffixes(es) && !HoistFallsShort(es)
  {
    HoistIdentity(es);
    HoistSurfaces(es);
    HoistComplete(es);
  }

  /** On a page with footnotes the blocks at the result's own level are those that
      come up in the normalised input, and something is left to hoist exactly
      where one pass over it falls short. */
  lemma NormalizeHoists(es: seq<Element>)
    ensures
      var normal, r := NormalizeSeq(es, false), NormalizeBlocks(es, false);
      && Suffixes(r) == Surfacing(normal)
      && (NeedsHoist(r) <==> HoistFallsShort(normal))
  {
    hide NormalizeSeq;
    var normal := NormalizeSeq(es, false);
    if NeedsHoist(normal) {
      HoistSurfaces(normal);
      HoistComplete(normal);
    } else {
      NoNeedSurfaces(normal);
    }
  }

  // ----- one block to a quote

  /** Every quote and header holds one block at most, at whatever depth, and no
      list holds any. */
  ghost predicate OneEach(es: seq<Element>)
    decreases es
  {
    forall k | 0 <= k < |es| :: OneEachOf(es[k])
  }

  ghost predicate OneEachOf(e: Element)
    decreases e
  {
    match e
    case Container(kind, children, _) =>
      OneEach(children) && (kind.Blockquote? || kind.Header? ==> BlockCount(children) <= 1)
    case Color(_, _, children) => OneEach(children)
    case Wrapper(_, children) => OneEach(children)
    case List(_, items) => BlockCountItems(items) == 0
    case _ => true
  }

  lemma OneEachAppend(a: seq<Element>, b: seq<Element>)
    ensures OneEach(a + b) <==> OneEach(a) && OneEach(b)
  {
    hide OneEachOf;
    var both := a + b;
    assert forall k | 0 <= k < |a| :: both[k] == a[k];
    assert forall k | 0 <= k < |b| :: both[|a| + k] == b[k];
  }

  lemma OneEachHead(es: seq<Element>)
    requires es != []
    ensures OneEach(es) <==> OneEachOf(es[0]) && OneEach(es[1..])
  {
    hide OneEachOf;
    assert forall k | 0 < k < |es| :: es[k] == es[1..][k - 1];
  }

  lemma OneEachSingle(e: Element)
    ensures OneEach([e]) <==> OneEachOf(e)
  {
    assert [e][0] == e;
  }

  lemma {:induction false} DissolveKeepsOneEach(es: seq<Element>)
    requires OneEach(es)
    ensures OneEach(Dissolve(es))
    decreases es
  {
    hide OneEach, OneEachOf, DissolveOne;
    if es == [] {
      NothingOneEach();
    } else {
      OneEachHead(es);
      DissolveOneKeepsOneEach(es[0]);
      DissolveKeepsOneEach(es[1..]);
      OneEachAppend(DissolveOne(es[0]), Dissolve(es[1..]));
    }
  }

  lemma NothingOneEach()
    ensures OneEach([])
  {
  }

  lemma SurroundedOneEach(open: string, es: seq<Element>, close: string)
    requires OneEach(es)
    ensures OneEach([Text(open)] + es + [Text(close)])
  {
    OneEachAppend([Text(open)], es);
    OneEachAppend([Text(open)] + es, [Text(close)]);
    OneEachSingle(Text(open));
    OneEachSingle(Text(close));
  }

  lemma DissolvedCount(es: seq<Element>)
    ensures BlockCount(Dissolve(es)) == BlockCount(es)
  {
    DissolveKeepsContent(es);
    ContentCountsBlocks(es);
    ContentCountsBlocks(Dissolve(es));
  }

  lemma {:induction false} DissolveOneKeepsOneEach(e: Element)
    requires OneEachOf(e)
    ensures OneEach(DissolveOne(e))
    decreases e
  {
    hide OneEach, Dissolve;
    OneEachSingle(e);
    if ContainsBlock(e) {
      if e.Container? {
        DissolveKeepsOneEach(e.children);
        DissolvedCount(e.children);
        if DelimiterMarkers(e.kind).Some? {
          SurroundedOneEach(DelimiterMarkers(e.kind).value.0, Dissolve(e.children), DelimiterMarkers(e.kind).value.1);
        } else {
          OneEachSingle(Container(e.kind, Dissolve(e.children), e.attributes));
        }
      } else if e.Color? {
        DissolveKeepsOneEach(e.children);
        SurroundedOneEach(ColorOpen(e.color, e.background), Dissolve(e.children), "##");
      }
    }
  }

  lemma FragmentOneEach(fragment: seq<Element>, attributes: Attributes, inline: bool)
    requires OneEach(fragment)
    ensures OneEach(BeforeBlock(fragment, attributes, inline)) && OneEach(AfterBlock(fragment, attributes, inline))
  {
    hide OneEachOf;
    OneEachSingle(LineBreak);
    OneEachAppend(fragment, [LineBreak]);
    OneEachAppend([LineBreak], fragment);
    OneEachSingle(Container(Paragraph, DropLastBreak(fragment), attributes));
    OneEachSingle(Container(Paragraph, DropFirstBreak(fragment), attributes));
    ParagraphOneEach(DropLastBreak(fragment), attributes);
    ParagraphOneEach(DropFirstBreak(fragment), attributes);
  }

  lemma ParagraphOneEach(es: seq<Element>, attributes: Attributes)
    requires OneEach(es)
    ensures OneEachOf(Container(Paragraph, es, attributes)) && OneEachOf(LineBreak)
  {
  }

  lemma {:induction false} SplitKeepsOneEach(children: seq<Element>, fragment: seq<Element>, suffixInline: bool,
                                             attributes: Attributes)
    requires OneEach(children) && OneEach(fragment)
    ensures OneEach(SplitAtBlocks(children, fragment, suffixInline, attributes))
    decreases children
  {
    hide OneEach, OneEachOf, BeforeBlock, AfterBlock;
    if children == [] {
      FragmentOneEach(fragment, attributes, suffixInline);
    } else {
      var e, rest := children[0], children[1..];
      OneEachHead(children);
      OneEachSingle(e);
      NothingOneEach();
      if e.FootnoteBlock? {
        var before := BeforeBlock(fragment, attributes, e.inlinePrefix);
        FragmentOneEach(fragment, attributes, e.inlinePrefix);
        SplitKeepsOneEach(rest, [], e.inlineSuffix, attributes);
        OneEachAppend(before, [e]);
        OneEachAppend(before + [e], SplitAtBlocks(rest, [], e.inlineSuffix, attributes));
      } else {
        OneEachAppend(fragment, [e]);
        SplitKeepsOneEach(rest, fragment + [e], suffixInline, attributes);
      }
    }
  }

  /** Spacing adds line breaks and nothing else. */
  lemma {:induction false} SpaceAddsBreaks(output: seq<Element>, rest: seq<Element>)
    ensures forall x | x in SpaceBlocks(output, rest) :: x in output || x in rest || x == LineBreak
    decreases rest
  {
    if rest != [] {
      var piece := if rest[0].FootnoteBlock? then BlockWithBreaks(output, rest[0], rest[1..]) else [rest[0]];
      SpaceAddsBreaks(output + piece, rest[1..]);
    }
  }

  lemma SpaceKeepsOneEach(es: seq<Element>)
    requires OneEach(es)
    ensures OneEach(SpaceBlocks([], es))
  {
    SpaceAddsBreaks([], es);
    var r := SpaceBlocks([], es);
    forall k | 0 <= k < |r| ensures OneEachOf(r[k]) {
      assert r[k] in r;
    }
  }

  lemma NormalCount(es: seq<Element>)
    ensures BlockCount(NormalizeSeq(es, false)) == BlockCount(es)
  {
    NormalizeSeqKeepsContent(es);
    ContentCountsBlocks(es);
    ContentCountsBlocks(NormalizeSeq(es, false));
  }

  lemma {:induction false} NormalizeKeepsOneEach(es: seq<Element>)
    requires OneEach(es)
    ensures OneEach(NormalizeSeq(es, false))
    decreases es, 1
  {
    hide OneEach, NormalizeItems;
    var items := NormalizeItems(es, false);
    ItemsKeepOneEach(es);
    if AnyBlock(items) {
      DissolveKeepsOneEach(items);
      SpaceKeepsOneEach(Dissolve(items));
    }
  }

  lemma {:induction false} ItemsKeepOneEach(es: seq<Element>)
    requires OneEach(es)
    ensures OneEach(NormalizeItems(es, false))
    decreases es, 0
  {
    hide OneEach, OneEachOf, NormalizeOne;
    if es == [] {
      NothingOneEach();
    } else {
      OneEachHead(es);
      OneKeepsOneEach(es[0]);
      ItemsKeepOneEach(es[1..]);
      OneEachAppend(NormalizeOne(es[0], false), NormalizeItems(es[1..], false));
    }
  }

  lemma {:induction false} OneKeepsOneEach(e: Element)
    requires OneEachOf(e)
    ensures OneEach(NormalizeOne(e, false))
    decreases e, 1
  {
    hide OneEach, NormalizeSeq, SplitAtBlocks;
    OneEachSingle(e);
    if e.Container? {
      if e.kind == Paragraph {
        var dissolved := Dissolve(e.children);
        DissolveKeepsOneEach(e.children);
        ParagraphOneEach(dissolved, e.attributes);
        OneEachSingle(Container(Paragraph, dissolved, e.attributes));
        NothingOneEach();
        SplitKeepsOneEach(dissolved, [], false, e.attributes);
      } else {
        NormalizeKeepsOneEach(e.children);
        NormalCount(e.children);
        OneEachSingle(Container(e.kind, NormalizeSeq(e.children, false), e.attributes));
      }
    }
  }

  // ----- nothing is left where quotes hold one block each

  lemma {:induction false} SurfacingIsCounted(es: seq<Element>)
    requires OneEach(es)
    ensures |Surfacing(es)| <= BlockCount(es)
    decreases es
  {
    hide OneEach, OneEachOf, SurfacingOf;
    if es != [] {
      OneEachHead(es);
      SurfacingOfIsCounted(es[0]);
      SurfacingIsCounted(es[1..]);
    }
  }

  lemma {:induction false} SurfacingOfIsCounted(e: Element)
    requires OneEachOf(e)
    ensures |SurfacingOf(e)| <= BlockCountOf(e)
    decreases e
  {
    if e.Container? {
      SurfacingIsCounted(e.children);
    } else if e.List? {
      NoItemHoldsBlock(e.items);
    }
  }

  lemma {:induction false} NoItemHoldsBlock(items: seq<ListItem>)
    requires BlockCountItems(items) == 0
    ensures FirstBlockItem(items).None?
    ensures forall k | 0 <= k < |items| :: BlockCountItem(items[k]) == 0
    decreases items
  {
    if items != [] {
      NoItemHoldsBlock(items[1..]);
      assert forall k | 0 < k < |items| :: items[k] == items[1..][k - 1];
      if items[0].Elements? {
        NoBlockNoNeed(items[0].elements);
      }
    }
  }

  lemma {:induction false} NoBlockNoNeed(es: seq<Element>)
    requires BlockCount(es) == 0
    ensures !HasDirectBlock(es) && !NeedsHoist(es)
    decreases es
  {
    if es != [] {
      NoBlockNoNeedOne(es[0]);
      NoBlockNoNeed(es[1..]);
      assert forall k | 0 < k < |es| :: es[k] == es[1..][k - 1];
    }
  }

  lemma {:induction false} NoBlockNoNeedOne(e: Element)
    requires BlockCountOf(e) == 0
    ensures !e.FootnoteBlock? && !NeedsHoistOne(e)
    decreases e
  {
    match e
    case Container(_, children, _) => NoBlockNoNeed(children);
    case Color(_, _, children) => NoBlockNoNeed(children);
    case Wrapper(_, children) => NoBlockNoNeed(children);
    case List(shape, items) =>
      NoItemHoldsBlock(items);
      forall k | 0 <= k < |items| ensures !NeedsHoistItem(items[k], shape.explicitBlock) {
        if items[k].Elements? { NoBlockNoNeed(items[k].elements); } else { NoBlockNoNeedOne(items[k].element); }
      }
    case _ =>
  }

  lemma {:induction false} OneEachSuffices(es: seq<Element>)
    requires OneEach(es)
    ensures !HoistFallsShort(es)
    decreases es
  {
    forall k | 0 <= k < |es| ensures !HoistFallsShortOne(es[k]) {
      OneEachSufficesFor(es[k]);
    }
  }

  lemma {:induction false} OneEachSufficesFor(e: Element)
    requires OneEachOf(e)
    ensures !HoistFallsShortOne(e)
    decreases e
  {
    match e
    case Container(kind, children, _) =>
      OneEachSuffices(children);
      SurfacingIsCounted(children);
    case Color(_, _, children) => OneEachSuffices(children);
    case Wrapper(_, children) => OneEachSuffices(children);
    case List(shape, items) =>
      NoItemHoldsBlock(items);
      NoBlockNoNeedOne(e);
    case _ =>
  }

  /** Where every quote and header holds one block at most and no list holds any,
      the result has nothing left to hoist: none of its quotes and headers holds a
      block directly. */
  lemma NormalizeClearsQuotes(es: seq<Element>)
    requires OneEach(es)
    ensures
      var r := NormalizeBlocks(es, false);
      && !NeedsHoist(r)
      && forall k | 0 <= k < |r| && r[k].Container? && (r[k].kind.Blockquote? || r[k].kind.Header?) ::
           !HasDirectBlock(r[k].children)
  {
    hide NormalizeSeq, HoistFallsShort;
    NormalizeKeepsOneEach(es);
    OneEachSuffices(NormalizeSeq(es, false));
    NormalizeHoists(es);
    assert forall k | 0 <= k < |NormalizeBlocks(es, false)| :: !NeedsHoistOne(NormalizeBlocks(es, false)[k]);
  }

  // ----- how each level looks before hoisting

  /** A block is reached through delimiters and colours only. */
  ghost predicate Loose(es: seq<Element>)
    decreases es
  {
    forall k | 0 <= k < |es| :: LooseOne(es[k])
  }

  ghost predicate LooseOne(e: Element)
    decreases e
  {
    if e.FootnoteBlock? || !ContainsBlock(e) then true
    else if e.Container? then DelimiterMarkers(e.kind).Some? && Loose(e.children)
    else e.Color? && Loose(e.children)
  }

  /** Paragraphs and colours hold their blocks loosely. */
  ghost predicate HeldLoosely(es: seq<Element>)
    decreases es
  {
    forall k | 0 <= k < |es| :: HeldLooselyOne(es[k])
  }

  ghost predicate HeldLooselyOne(e: Element)
    decreases e
  {
    match e
    case Container(kind, children, _) => if kind == Paragraph then Loose(children) else HeldLoosely(children)
    case Color(_, _, children) => Loose(children)
    case _ => true
  }

  /** Blocks stand apart, none is left under a delimiter or a colour, and no
      paragraph holds any, on this level and on those of its containers. */
  ghost predicate Normal(es: seq<Element>)
    decreases es
  {
    Spaced(es) && Clean(es) && forall k | 0 <= k < |es| :: NormalOne(es[k])
  }

  ghost predicate NormalOne(e: Element)
    decreases e
  {
    e.Container? ==> if e.kind == Paragraph then !AnyBlock(e.children) else Normal(e.children)
  }

  /** A block, or nothing that holds one. */
  ghost predicate Plainly(e: Element) {
    e.FootnoteBlock? || !ContainsBlock(e)
  }

  ghost predicate AllPlainly(es: seq<Element>) {
    forall k | 0 <= k < |es| :: Plainly(es[k])
  }

  lemma AllPlainlyAppend(a: seq<Element>, b: seq<Element>)
    ensures AllPlainly(a + b) <==> AllPlainly(a) && AllPlainly(b)
  {
    hide Plainly;
    var both := a + b;
    assert forall k | 0 <= k < |a| :: both[k] == a[k];
    assert forall k | 0 <= k < |b| :: both[|a| + k] == b[k];
  }

  lemma AnyBlockAppend(a: seq<Element>, b: seq<Element>)
    ensures AnyBlock(a + b) <==> AnyBlock(a) || AnyBlock(b)
  {
    hide ContainsBlock;
    var both := a + b;
    assert forall k | 0 <= k < |a| :: both[k] == a[k];
    assert forall k | 0 <= k < |b| :: both[|a| + k] == b[k];
  }

  lemma {:induction false} NoBlockIsNormal(es: seq<Element>)
    requires !AnyBlock(es)
    ensures Normal(es)
    decreases es
  {
    hide Spaced;
    NoBlockIsClean(es);
    NoBlockIsSpaced(es);
    forall k | 0 <= k < |es| ensures NormalOne(es[k]) {
      NoBlockIsNormalOne(es[k]);
    }
  }

  lemma NoBlockIsSpaced(es: seq<Element>)
    requires !AnyBlock(es)
    ensures Spaced(es)
  {
    forall k ensures SpacedAt(es, k) {
      if 0 <= k < |es| { assert !ContainsBlock(es[k]); }
    }
  }

  lemma {:induction false} NoBlockIsNormalOne(e: Element)
    requires Plainly(e)
    ensures NormalOne(e) && CleanOne(e)
    decreases e
  {
    if e.Container? {
      NoBlockIsNormal(e.children);
    }
  }

  lemma {:induction false} DissolveLoose(es: seq<Element>)
    requires Loose(es)
    ensures AllPlainly(Dissolve(es))
    decreases es
  {
    hide DissolveOne, Plainly;
    if es != [] {
      assert LooseOne(es[0]);
      assert forall k | 0 <= k < |es[1..]| :: es[1..][k] == es[k + 1];
      DissolveOneLoose(es[0]);
      DissolveLoose(es[1..]);
      AllPlainlyAppend(DissolveOne(es[0]), Dissolve(es[1..]));
    }
  }

  lemma {:induction false} DissolveOneLoose(e: Element)
    requires LooseOne(e)
    ensures AllPlainly(DissolveOne(e))
    decreases e
  {
    hide Loose, Dissolve;
    if ContainsBlock(e) && !e.FootnoteBlock? {
      DissolveLoose(e.children);
      var marks := if e.Container? then DelimiterMarkers(e.kind).value else (ColorOpen(e.color, e.background), "##");
      Surrounded(marks.0, Dissolve(e.children), marks.1);
    }
  }

  lemma Surrounded(open: string, es: seq<Element>, close: string)
    requires AllPlainly(es)
    ensures AllPlainly([Text(open)] + es + [Text(close)])
  {
    AllPlainlyAppend([Text(open)], es);
    AllPlainlyAppend([Text(open)] + es, [Text(close)]);
  }

  lemma PlainParagraph(es: seq<Element>, attributes: Attributes)
    requires AllPlainly(es) && !HasDirectBlock(es)
    ensures Plainly(Container(Paragraph, es, attributes))
  {
  }

  lemma FragmentPlainly(fragment: seq<Element>, attributes: Attributes, inline: bool)
    requires AllPlainly(fragment) && !HasDirectBlock(fragment)
    ensures AllPlainly(BeforeBlock(fragment, attributes, inline))
    ensures AllPlainly(AfterBlock(fragment, attributes, inline))
  {
    AllPlainlyAppend(fragment, [LineBreak]);
    AllPlainlyAppend([LineBreak], fragment);
    PlainParagraph(DropLastBreak(fragment), attributes);
    PlainParagraph(DropFirstBreak(fragment), attributes);
  }

  lemma {:induction false} SplitPlainly(children: seq<Element>, fragment: seq<Element>, suffixInline: bool,
                                        attributes: Attributes)
    requires AllPlainly(children) && AllPlainly(fragment) && !HasDirectBlock(fragment)
    ensures AllPlainly(SplitAtBlocks(children, fragment, suffixInline, attributes))
    decreases children
  {
    hide BeforeBlock, AfterBlock, Plainly;
    if children == [] {
      FragmentPlainly(fragment, attributes, suffixInline);
    } else {
      var e, rest := children[0], children[1..];
      AllPlainlyAppend([e], rest);
      assert [e] + rest == children;
      if e.FootnoteBlock? {
        var before := BeforeBlock(fragment, attributes, e.inlinePrefix);
        FragmentPlainly(fragment, attributes, e.inlinePrefix);
        SplitPlainly(rest, [], e.inlineSuffix, attributes);
        AllPlainlyAppend(before, [e]);
        AllPlainlyAppend(before + [e], SplitAtBlocks(rest, [], e.inlineSuffix, attributes));
      } else {
        AllPlainlyAppend(fragment, [e]);
        SplitPlainly(rest, fragment + [e], suffixInline, attributes);
      }
    }
  }

  /** An element of a level whose children are normalised. */
  ghost predicate Ready(e: Element) {
    || Plainly(e)
    || (e.Container? && e.kind != Paragraph && Normal(e.children))
    || (e.Color? && Loose(e.children))
  }

  ghost predicate AllReady(es: seq<Element>) {
    forall k | 0 <= k < |es| :: Ready(es[k])
  }

  lemma AllReadyAppend(a: seq<Element>, b: seq<Element>)
    ensures AllReady(a + b) <==> AllReady(a) && AllReady(b)
  {
    hide Ready;
    var both := a + b;
    assert forall k | 0 <= k < |a| :: both[k] == a[k];
    assert forall k | 0 <= k < |b| :: both[|a| + k] == b[k];
  }

  ghost predicate AllNormal(es: seq<Element>) {
    forall k | 0 <= k < |es| :: NormalOne(es[k]) && CleanOne(es[k])
  }

  lemma AllNormalAppend(a: seq<Element>, b: seq<Element>)
    ensures AllNormal(a + b) <==> AllNormal(a) && AllNormal(b)
  {
    hide NormalOne, CleanOne;
    var both := a + b;
    assert forall k | 0 <= k < |a| :: both[k] == a[k];
    assert forall k | 0 <= k < |b| :: both[|a| + k] == b[k];
  }

  lemma PlainlyIsNormal(es: seq<Element>)
    requires AllPlainly(es)
    ensures AllNormal(es)
  {
    hide Plainly, NormalOne, CleanOne;
    forall k | 0 <= k < |es| ensures NormalOne(es[k]) && CleanOne(es[k]) {
      NoBlockIsNormalOne(es[k]);
    }
  }

  lemma {:induction false} DissolveReady(es: seq<Element>)
    requires AllReady(es)
    ensures AllNormal(Dissolve(es))
  {
    hide Ready, NormalOne, CleanOne, DissolveOne;
    if es != [] {
      assert Ready(es[0]);
      assert forall k | 0 <= k < |es[1..]| :: es[1..][k] == es[k + 1];
      DissolveOneReady(es[0]);
      DissolveReady(es[1..]);
      AllNormalAppend(DissolveOne(es[0]), Dissolve(es[1..]));
    }
  }

  lemma DissolveOneReady(e: Element)
    requires Ready(e)
    ensures AllNormal(DissolveOne(e))
  {
    hide Loose, Dissolve, Clean, CleanOne, NormalOne, Spaced, Plainly;
    if Plainly(e) {
      NoBlockIsNormalOne(e);
      PlainlyDissolves(e);
    } else if e.Color? {
      DissolveOneLooseColor(e);
    } else {
      CleanIsFixed(e.children);
      ContainerDissolves(e);
    }
  }

  lemma PlainlyDissolves(e: Element)
    requires Plainly(e)
    ensures DissolveOne(e) == [e]
  {
  }

  lemma DissolveOneLooseColor(e: Element)
    requires e.Color? && Loose(e.children)
    ensures AllNormal(DissolveOne(e))
  {
    hide Loose, NormalOne, CleanOne, Dissolve;
    assert LooseOne(e);
    DissolveOneLoose(e);
    PlainlyIsNormal(DissolveOne(e));
  }

  lemma ContainerDissolves(e: Element)
    requires e.Container? && e.kind != Paragraph && Normal(e.children) && Dissolve(e.children) == e.children
    ensures AllNormal(DissolveOne(e))
  {
    hide Dissolve, Spaced;
    if !ContainsBlock(e) {
      NoBlockIsNormalOne(e);
    } else if DelimiterMarkers(e.kind).Some? {
      var marks := DelimiterMarkers(e.kind).value;
      AllNormalAppend([Text(marks.0)], e.children);
      AllNormalAppend([Text(marks.0)] + e.children, [Text(marks.1)]);
    } else {
      assert CleanOne(e) && NormalOne(e);
    }
  }

  lemma NormalTogether(es: seq<Element>)
    requires AllNormal(es) && Spaced(es)
    ensures Normal(es)
  {
    hide NormalOne, CleanOne, Spaced;
  }

  /** A level is finished by dissolving and spacing it. */
  lemma FinishIsNormal(items: seq<Element>)
    requires AllReady(items)
    ensures Normal(BlockSequence(items))
  {
    hide Ready, NormalOne, CleanOne, Spaced, Dissolve, SpaceBlocks, Normal;
    if AnyBlock(items) {
      var loose := Dissolve(items);
      DissolveReady(items);
      NothingSpaced(loose);
      SpaceBlocksSpaces([], loose);
      SpaceAddsBreaks([], loose);
      var r := SpaceBlocks([], loose);
      forall k | 0 <= k < |r| ensures NormalOne(r[k]) && CleanOne(r[k]) {
        assert r[k] in r;
        NoBlockIsNormalOne(LineBreak);
      }
      NormalTogether(r);
    } else {
      NoBlockIsNormal(items);
    }
  }

  lemma NothingSpaced(rest: seq<Element>)
    ensures Spaced([]) && MayAppend([], rest)
  {
  }

  /** On a page with footnotes whose paragraphs and colours hold their blocks
      loosely, every level is normal before hoisting. */
  lemma {:induction false} NormalizeIsNormal(es: seq<Element>)
    requires HeldLoosely(es)
    ensures Normal(NormalizeSeq(es, false))
    decreases es, 1
  {
    hide HeldLoosely, NormalizeItems, BlockSequence;
    ItemsAreReady(es);
    FinishIsNormal(NormalizeItems(es, false));
  }

  lemma {:induction false} ItemsAreReady(es: seq<Element>)
    requires HeldLoosely(es)
    ensures AllReady(NormalizeItems(es, false))
    decreases es, 0
  {
    hide Ready, NormalizeOne, HeldLooselyOne;
    if es != [] {
      assert HeldLooselyOne(es[0]);
      assert forall k | 0 <= k < |es[1..]| :: es[1..][k] == es[k + 1];
      OneIsReady(es[0]);
      ItemsAreReady(es[1..]);
      AllReadyAppend(NormalizeOne(es[0], false), NormalizeItems(es[1..], false));
    }
  }

  lemma {:induction false} OneIsReady(e: Element)
    requires HeldLooselyOne(e)
    ensures AllReady(NormalizeOne(e, false))
    decreases e, 1
  {
    hide NormalizeSeq, SplitAtBlocks, Loose, HeldLoosely, Normal, Plainly;
    if e.Container? {
      if e.kind == Paragraph {
        var dissolved := Dissolve(e.children);
        DissolveLoose(e.children);
        SplitPlainly(dissolved, [], false, e.attributes);
        if !HasDirectBlock(dissolved) {
          PlainParagraph(dissolved, e.attributes);
        }
      } else {
        NormalizeIsNormal(e.children);
      }
    } else if !e.Color? {
      OtherIsPlain(e);
    }
  }

  lemma OtherIsPlain(e: Element)
    requires !e.Container? && !e.Color?
    ensures Plainly(e)
  {
  }

  /** A colour brings up what it holds as it is: a paragraph under it keeps its
      block. */
  lemma HeldLooselyIsNeeded()
    ensures
      var block := FootnoteBlock(false, false, 0);
      var es := [Color("red", false, [Container(Paragraph, [block], Attributes(0))])];
      !HeldLoosely(es) && !Normal(NormalizeSeq(es, false))
  {
    var block := FootnoteBlock(false, false, 0);
    var paragraph := Container(Paragraph, [block], Attributes(0));
    var color := Color("red", false, [paragraph]);
    assert ContainsBlock([block][0]) && ContainsBlock([paragraph][0]) && ContainsBlock([color][0]);
    assert !LooseOne([paragraph][0]) && !HeldLooselyOne([color][0]);
    assert NormalizeItems([color], false) == [color];
    Singles(block, paragraph, color);
    var r := NormalizeSeq([color], false);
    assert r == [Text(ColorOpen("red", false)), paragraph, Text("##")];
    assert !NormalOne(r[1]);
  }

  lemma DissolveSingle(e: Element)
    ensures Dissolve([e]) == DissolveOne(e)
  {
    assert [e][1..] == [];
  }

  lemma Singles(block: Element, paragraph: Element, color: Element)
    requires block == FootnoteBlock(false, false, 0) && paragraph == Container(Paragraph, [block], Attributes(0))
    requires color == Color("red", false, [paragraph])
    ensures Dissolve([color]) == [Text(ColorOpen("red", false)), paragraph, Text("##")]
    ensures var es := [Text(ColorOpen("red", false)), paragraph, Text("##")]; SpaceBlocks([], es) == es
  {
    assert ContainsBlock([block][0]) && ContainsBlock([paragraph][0]);
    assert ContainsBlock(color);
    DissolveSingle(block);
    DissolveSingle(paragraph);
    DissolveSingle(color);
    var es := [Text(ColorOpen("red", false)), paragraph, Text("##")];
    assert SpaceBlocks(es, []) == es && es[1..][1..] == [es[2]] && es[1..][1..][1..] == [];
    assert [] + [es[0]] == [es[0]] && [es[0]] + [es[1]] == es[..2] && es[..2] + [es[2]] == es;
    assert SpaceBlocks([], es) == SpaceBlocks([es[0]], es[1..]) == SpaceBlocks(es[..2], [es[2]]);
  }

  // ----- a page without footnotes

  /** No paragraph holds a block, on this level and on those of its containers. */
  ghost predicate Bare(es: seq<Element>)
    decreases es
  {
    forall k | 0 <= k < |es| :: BareOne(es[k])
  }

  ghost predicate BareOne(e: Element)
    decreases e
  {
    e.Container? ==> if e.kind == Paragraph then !HasDirectBlock(e.children) else Bare(e.children)
  }

  lemma BareAppend(a: seq<Element>, b: seq<Element>)
    ensures Bare(a + b) <==> Bare(a) && Bare(b)
  {
    hide BareOne;
    var both := a + b;
    assert forall k | 0 <= k < |a| :: both[k] == a[k];
    assert forall k | 0 <= k < |b| :: both[|a| + k] == b[k];
  }

  lemma {:induction false} NormalizeEmptyIsBare(es: seq<Element>)
    ensures Bare(NormalizeSeq(es, true))
    decreases es
  {
    if es != [] {
      NormalizeEmptyIsBare(es[1..]);
      if es[0].Container? {
        if es[0].kind == Paragraph {
          RemoveKeepsRest([], es[0].children, false);
        } else {
          NormalizeEmptyIsBare(es[0].children);
        }
      }
      BareAppend(NormalizeOne(es[0], true), NormalizeItems(es[1..], true));
    }
  }
}
