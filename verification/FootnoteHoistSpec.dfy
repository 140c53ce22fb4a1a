/** Hoisting footnote blocks out of quotes, headers and native lists. */
module FootnoteHoistSpec {
  import opened Bytes
  import opened Seqs
  import opened Tree
  import opened FootnoteSpec

  predicate Hoistable(kind: Kind) {
    kind.Blockquote? || kind.Header?
  }

  function FirstBlock(es: seq<Element>): (r: Option<nat>)
    ensures r.Some? ==> r.value < |es| && es[r.value].FootnoteBlock?
    ensures r.Some? ==> forall k | 0 <= k < r.value :: !es[k].FootnoteBlock?
    ensures r.None? <==> !HasDirectBlock(es)
  {
    if es == [] then None
    else if es[0].FootnoteBlock? then Some(0)
    else
      match FirstBlock(es[1..])
      case None => assert forall k | 0 < k < |es| :: es[k] == es[1..][k - 1]; None
      case Some(p) => assert es[p + 1] == es[1..][p]; Some(p + 1)
  }

  predicate IsBlank(text: string) {
    forall k | 0 <= k < |text| :: IsWhitespace(text[k])
  }

  function TrimSpaces(text: string): (r: string)
    ensures |r| <= |text|
  {
    if text != "" && (text[|text| - 1] == ' ' || text[|text| - 1] == '\t') then TrimSpaces(text[..|text| - 1]) else text
  }

  /** Drops the breaks and blanks left at the end of what precedes a hoisted
      block, looking into one trailing paragraph. */
  function TrimBefore(es: seq<Element>): seq<Element>
    decreases es
  {
    if es == [] then
      []
    else
      var init, last := es[..|es| - 1], es[|es| - 1];
      if last.LineBreak? || (last.Text? && IsBlank(last.text)) then
        TrimBefore(init)
      else if last.Text? then
        init + [Text(TrimSpaces(last.text))]
      else if last.Container? && last.kind == Paragraph then
        var inner := TrimBefore(last.children);
        if inner == [] then init else init + [Container(Paragraph, inner, last.attributes)]
      else
        es
  }

  function HoistSeq(es: seq<Element>): seq<Element>
    decreases es
  {
    if es == [] then [] else HoistOne(es[0]) + HoistSeq(es[1..])
  }

  function HoistOne(e: Element): seq<Element>
    decreases e
  {
    match e
    case Container(kind, children, attributes) =>
      if Hoistable(kind) then HoistFromContainer(kind, HoistSeq(children), attributes)
      else [Container(kind, HoistSeq(children), attributes)]
    case Color(color, background, children) => [Color(color, background, HoistSeq(children))]
    case Wrapper(tag, children) => [Wrapper(tag, HoistSeq(children))]
    case List(shape, items) => HoistFromList(shape, items)
    case _ => [e]
  }

  /** The container keeps what precedes its first block; the rest follows the
      block, inline or in a container of the same kind. */
  function HoistFromContainer(kind: Kind, children: seq<Element>, attributes: Attributes): seq<Element> {
    match FirstBlock(children)
    case None => [Container(kind, children, attributes)]
    case Some(p) =>
      var after := children[p + 1..];
      [Container(kind, TrimBefore(children[..p]), attributes), children[p]]
      + (if children[p].inlineSuffix then after else if after != [] then [Container(kind, after, attributes)] else [])
  }

  function ItemBlock(item: ListItem): (r: Option<nat>)
    ensures r.Some? ==> item.Elements? && r.value < |item.elements| && item.elements[r.value].FootnoteBlock?
  {
    if item.Elements? then FirstBlock(item.elements) else None
  }

  /** The first item holding a block directly. */
  function FirstBlockItem(items: seq<ListItem>): (r: Option<nat>)
    ensures r.Some? ==> r.value < |items| && ItemBlock(items[r.value]).Some?
    ensures r.Some? ==> forall k | 0 <= k < r.value :: ItemBlock(items[k]).None?
    ensures r.None? ==> forall k | 0 <= k < |items| :: ItemBlock(items[k]).None?
  {
    if items == [] then None
    else if ItemBlock(items[0]).Some? then Some(0)
    else
      match FirstBlockItem(items[1..])
      case None => assert forall k | 0 < k < |items| :: items[k] == items[1..][k - 1]; None
      case Some(p) => assert forall k | 0 < k < |items| :: items[k] == items[1..][k - 1]; Some(p + 1)
  }

  function OptionalList(shape: ListShape, items: seq<ListItem>): seq<Element> {
    if items == [] then [] else [List(shape, items)]
  }

  /** A native list splits around its first block; an explicit list stays. */
  function HoistFromList(shape: ListShape, items: seq<ListItem>): seq<Element> {
    if shape.explicitBlock || FirstBlockItem(items).None? then
      [List(shape, items)]
    else
      SplitList(shape, items, FirstBlockItem(items).value)
  }

  function SplitList(shape: ListShape, items: seq<ListItem>, i: nat): seq<Element>
    requires i < |items| && ItemBlock(items[i]).Some?
  {
    var item := items[i];
    var p := ItemBlock(item).value;
    OptionalList(shape, KeepBefore(items[..i], item.elements[..p], item.attributes)) + [item.elements[p]]
    + AfterFooter(item.elements[p], item.elements[p + 1..])
    + OptionalList(shape, items[i + 1..])
  }

  function KeepBefore(items: seq<ListItem>, before: seq<Element>, attributes: Attributes): seq<ListItem> {
    if before == [] then items else items + [Elements(before, attributes)]
  }

  function AfterFooter(footer: Element, after: seq<Element>): seq<Element>
    requires footer.FootnoteBlock?
  {
    if footer.inlineSuffix && after != [] then [LineBreak] + after else after
  }

  // ----- when hoisting is needed

  predicate NeedsHoist(es: seq<Element>)
    decreases es
  {
    exists k :: 0 <= k < |es| && NeedsHoistOne(es[k])
  }

  predicate NeedsHoistOne(e: Element)
    decreases e
  {
    match e
    case Container(kind, children, _) => (Hoistable(kind) && HasDirectBlock(children)) || NeedsHoist(children)
    case Color(_, _, children) => NeedsHoist(children)
    case Wrapper(_, children) => NeedsHoist(children)
    case List(shape, items) => exists k :: 0 <= k < |items| && NeedsHoistItem(items[k], shape.explicitBlock)
    case _ => false
  }

  predicate NeedsHoistItem(item: ListItem, explicitBlock: bool)
    decreases item
  {
    match item
    case Elements(elements, _) => (!explicitBlock && HasDirectBlock(elements)) || NeedsHoist(elements)
    case SubList(element) => explicitBlock && NeedsHoistOne(element)
  }

  /** When the check finds nothing to hoist, hoisting changes nothing. */
  lemma {:induction false} HoistIdentity(es: seq<Element>)
    requires !NeedsHoist(es)
    ensures HoistSeq(es) == es
    decreases es
  {
    if es != [] {
      assert !NeedsHoistOne(es[0]);
      assert !NeedsHoist(es[1..]) by {
        forall k | 0 <= k < |es[1..]| ensures !NeedsHoistOne(es[1..][k]) { assert es[1..][k] == es[k + 1]; }
      }
      HoistOneIdentity(es[0]);
      HoistIdentity(es[1..]);
      assert es == [es[0]] + es[1..];
    }
  }

  lemma {:induction false} HoistOneIdentity(e: Element)
    requires !NeedsHoistOne(e)
    ensures HoistOne(e) == [e]
    decreases e
  {
    match e
    case Container(kind, children, _) => HoistIdentity(children);
    case Color(_, _, children) => HoistIdentity(children);
    case Wrapper(_, children) => HoistIdentity(children);
    case List(shape, items) =>
      assert forall k | 0 <= k < |items| :: !NeedsHoistItem(items[k], shape.explicitBlock);
      if !shape.explicitBlock {
        assert forall k | 0 <= k < |items| :: ItemBlock(items[k]).None?;
      }
    case _ =>
  }

  // ----- hoisting keeps the content

  lemma {:induction false} BlankHasNoGlyphs(text: string)
    requires IsBlank(text)
    ensures Glyphs(text) == []
  {
    if text != "" {
      assert forall k | 0 <= k < |text[1..]| :: text[1..][k] == text[k + 1];
      BlankHasNoGlyphs(text[1..]);
    }
  }

  lemma {:induction false} TrimSpacesKeepsGlyphs(text: string)
    ensures Glyphs(TrimSpaces(text)) == Glyphs(text)
  {
    if text != "" && (text[|text| - 1] == ' ' || text[|text| - 1] == '\t') {
      var init, last := text[..|text| - 1], [text[|text| - 1]];
      assert text == init + last;
      GlyphsAppend(init, last);
      BlankHasNoGlyphs(last);
      TrimSpacesKeepsGlyphs(init);
    }
  }

  lemma ContentLast(es: seq<Element>)
    requires es != []
    ensures Content(es) == Content(es[..|es| - 1]) + ContentOf(es[|es| - 1])
  {
    hide Content, ContentOf;
    assert es == es[..|es| - 1] + [es[|es| - 1]];
    ContentAppend(es[..|es| - 1], [es[|es| - 1]]);
    ContentSingle(es[|es| - 1]);
  }

  lemma {:induction false} TrimKeepsContent(es: seq<Element>)
    ensures Content(TrimBefore(es)) == Content(es)
    decreases es
  {
    if es != [] {
      var init, last := es[..|es| - 1], es[|es| - 1];
      ContentLast(es);
      if last.LineBreak? || (last.Text? && IsBlank(last.text)) {
        if last.Text? { BlankHasNoGlyphs(last.text); }
        TrimKeepsContent(init);
      } else if last.Text? {
        TrimSpacesKeepsGlyphs(last.text);
        ContentLast(TrimBefore(es));
      } else if last.Container? && last.kind == Paragraph {
        TrimKeepsContent(last.children);
        if TrimBefore(last.children) != [] { ContentLast(TrimBefore(es)); }
      }
    }
  }

  lemma ContentAround(es: seq<Element>, p: nat)
    requires p < |es|
    ensures Content(es) == Content(es[..p]) + ContentOf(es[p]) + Content(es[p + 1..])
  {
    hide Content, ContentOf;
    var before, after := es[..p], es[p + 1..];
    SplitAt(es, p);
    ContentThree(before, es[p], after);
    Regroup(Content(before), ContentOf(es[p]), Content(after));
  }

  lemma HoistContainerKeepsContent(kind: Kind, children: seq<Element>, attributes: Attributes)
    requires Hoistable(kind)
    ensures Content(HoistFromContainer(kind, children, attributes)) == Content(children)
  {
    hide Content, ContentOf, TrimBefore;
    if FirstBlock(children).None? {
      UnmarkedContent(kind, children, attributes);
    } else {
      var p := FirstBlock(children).value;
      var before, block, after := TrimBefore(children[..p]), children[p], children[p + 1..];
      ContentAround(children, p);
      TrimKeepsContent(children[..p]);
      UnmarkedContent(kind, before, attributes);
      UnmarkedContent(kind, after, attributes);
      NoContent();
      ContentThree([Container(kind, before, attributes)], block,
                   if block.inlineSuffix then after
                   else if after != [] then [Container(kind, after, attributes)]
                   else []);
      assert [Container(kind, before, attributes)] + [block] == [Container(kind, before, attributes), block];
      Regroup(Content(before), ContentOf(block), Content(after));
    }
  }

  lemma UnmarkedContent(kind: Kind, children: seq<Element>, attributes: Attributes)
    requires Hoistable(kind)
    ensures Content([Container(kind, children, attributes)]) == Content(children)
  {
    ContentSingle(Container(kind, children, attributes));
  }

  lemma SingleItemContent(item: ListItem)
    ensures ContentItems([item]) == ContentItem(item)
  {
  }

  lemma ItemsAround(items: seq<ListItem>, i: nat)
    requires i < |items|
    ensures ContentItems(items) == ContentItems(items[..i]) + ContentItem(items[i]) + ContentItems(items[i + 1..])
  {
    hide ContentItems, ContentItem;
    var before, item, after := items[..i], items[i], items[i + 1..];
    SingleItemContent(item);
    SplitAt(items, i);
    ContentItemsAppend(before + [item], after);
    ContentItemsAppend(before, [item]);
  }

  lemma OptionalListContent(shape: ListShape, items: seq<ListItem>)
    ensures Content(OptionalList(shape, items)) == ContentItems(items)
  {
    ContentSingle(List(shape, items));
  }

  lemma KeptContent(items: seq<ListItem>, before: seq<Element>, attributes: Attributes)
    ensures ContentItems(KeepBefore(items, before, attributes)) == ContentItems(items) + Content(before)
  {
    SingleItemContent(Elements(before, attributes));
    ContentItemsAppend(items, [Elements(before, attributes)]);
  }

  lemma AfterFooterContent(footer: Element, after: seq<Element>)
    requires footer.FootnoteBlock?
    ensures Content(AfterFooter(footer, after)) == Content(after)
  {
    ContentAppend([LineBreak], after);
  }

  lemma SplitListKeepsContent(shape: ListShape, items: seq<ListItem>, i: nat)
    requires i < |items| && ItemBlock(items[i]).Some?
    ensures Content(SplitList(shape, items, i)) == ContentItems(items)
  {
    hide Content, ContentItems, OptionalList, AfterFooter, KeepBefore, ItemBlock;
    var item := items[i];
    var p := ItemBlock(item).value;
    var before, footer, after := item.elements[..p], item.elements[p], item.elements[p + 1..];
    ItemsAround(items, i);
    ContentAround(item.elements, p);
    KeptContent(items[..i], before, item.attributes);
    AfterFooterContent(footer, after);
    OptionalListContent(shape, KeepBefore(items[..i], before, item.attributes));
    OptionalListContent(shape, items[i + 1..]);
    FourParts(OptionalList(shape, KeepBefore(items[..i], before, item.attributes)), footer,
              AfterFooter(footer, after), OptionalList(shape, items[i + 1..]));
    RegroupFour(ContentItems(items[..i]), Content(before), ContentOf(footer), Content(after));
  }

  lemma HoistListKeepsContent(shape: ListShape, items: seq<ListItem>)
    ensures Content(HoistFromList(shape, items)) == ContentItems(items)
  {
    ContentSingle(List(shape, items));
    if !shape.explicitBlock && FirstBlockItem(items).Some? {
      SplitListKeepsContent(shape, items, FirstBlockItem(items).value);
    }
  }

  lemma FourParts(a: seq<Element>, e: Element, b: seq<Element>, c: seq<Element>)
    ensures Content(a + [e] + b + c) == Content(a) + ContentOf(e) + Content(b) + Content(c)
  {
    ContentAppend(a, [e]);
    ContentSingle(e);
    ContentAppend(a + [e], b);
    ContentAppend(a + [e] + b, c);
  }

  /** Hoisting moves blocks past nothing but blanks: the content, blocks and
      text in reading order, is unchanged. */
  lemma {:induction false} HoistKeepsContent(es: seq<Element>)
    ensures Content(HoistSeq(es)) == Content(es)
    decreases es
  {
    if es != [] {
      HoistOneKeepsContent(es[0]);
      HoistKeepsContent(es[1..]);
      ContentAppend(HoistOne(es[0]), HoistSeq(es[1..]));
    }
  }

  lemma {:induction false} HoistOneKeepsContent(e: Element)
    ensures Content(HoistOne(e)) == ContentOf(e)
    decreases e
  {
    match e
    case Container(kind, children, attributes) =>
      HoistKeepsContent(children);
      if Hoistable(kind) {
        HoistContainerKeepsContent(kind, HoistSeq(children), attributes);
      } else {
        ContentSingle(Container(kind, HoistSeq(children), attributes));
      }
    case Color(color, background, children) =>
      HoistKeepsContent(children);
      ContentSingle(Color(color, background, HoistSeq(children)));
    case Wrapper(tag, children) =>
      HoistKeepsContent(children);
      ContentSingle(Wrapper(tag, HoistSeq(children)));
    case List(shape, items) => HoistListKeepsContent(shape, items);
    case _ => ContentSingle(e);
  }

  // ----- what is left behind holds no block

  lemma {:induction false} TrimAddsNoBlock(es: seq<Element>)
    requires !HasDirectBlock(es)
    ensures !HasDirectBlock(TrimBefore(es))
    decreases es
  {
    if es != [] {
      var init, last := es[..|es| - 1], es[|es| - 1];
      if last.LineBreak? || (last.Text? && IsBlank(last.text)) {
        TrimAddsNoBlock(init);
      }
    }
  }

  /** A quote or header with a block keeps only block-free content in front of
      it; so does a native list that is split. */
  lemma HoistedOwnersAreClear(kind: Kind, children: seq<Element>, attributes: Attributes, shape: ListShape,
                              items: seq<ListItem>)
    ensures HasDirectBlock(children) ==>
              var pieces := HoistFromContainer(kind, children, attributes);
              && |pieces| >= 2 && pieces[0].Container? && !HasDirectBlock(pieces[0].children)
              && pieces[0].kind == kind && pieces[0].attributes == attributes && pieces[1].FootnoteBlock?
              && (!pieces[1].inlineSuffix ==>
                    |pieces| == 2 || (|pieces| == 3 && pieces[2] == Container(kind, pieces[2].children, attributes)))
    ensures !shape.explicitBlock && FirstBlockItem(items).Some? ==>
              var first := HoistFromList(shape, items)[0];
              || first.FootnoteBlock?
              || (first.List? && first.shape == shape
                  && forall k | 0 <= k < |first.items| :: ItemBlock(first.items[k]).None?)
  {
    if HasDirectBlock(children) {
      var before := children[..FirstBlock(children).value];
      assert !HasDirectBlock(before);
      TrimAddsNoBlock(before);
    }
  }

  // ----- when one pass leaves nothing to hoist

  /** A second block stands behind a first that does not take the rest inline. */
  predicate KeepsSecondBlock(es: seq<Element>) {
    var p := FirstBlock(es);
    p.Some? && !es[p.value].inlineSuffix && HasDirectBlock(es[p.value + 1..])
  }

  /** The blocks held directly: whether each takes what follows inline. */
  function Suffixes(es: seq<Element>): seq<bool> {
    if es == [] then []
    else (if es[0].FootnoteBlock? then [es[0].inlineSuffix] else []) + Suffixes(es[1..])
  }

  /** The blocks that come up to this level, from quotes and headers, which give up
      their first and with it what follows inline, and from lists. */
  function Surfacing(es: seq<Element>): seq<bool>
    decreases es
  {
    if es == [] then [] else SurfacingOf(es[0]) + Surfacing(es[1..])
  }

  function SurfacingOf(e: Element): seq<bool>
    decreases e
  {
    match e
    case FootnoteBlock(_, inlineSuffix, _) => [inlineSuffix]
    case Container(kind, children, _) =>
      var inner := Surfacing(children);
      if !Hoistable(kind) || inner == [] then []
      else if inner[0] then inner
      else [false]
    case List(shape, items) =>
      if shape.explicitBlock || FirstBlockItem(items).None? then []
      else Suffixes(items[FirstBlockItem(items).value].elements)
    case _ => []
  }

  /** A second block comes up behind a first that does not take it along. */
  predicate SecondSurfaces(es: seq<Element>) {
    |Surfacing(es)| >= 2 && !Surfacing(es)[0]
  }

  /** Where one pass leaves something to hoist: a quote or header keeps a second
      block, and a list is split at its first block only and never looked into. */
  predicate HoistFallsShort(es: seq<Element>)
    decreases es
  {
    exists k :: 0 <= k < |es| && HoistFallsShortOne(es[k])
  }

  predicate HoistFallsShortOne(e: Element)
    decreases e
  {
    match e
    case Container(kind, children, _) =>
      HoistFallsShort(children) || (Hoistable(kind) && SecondSurfaces(children))
    case Color(_, _, children) => HoistFallsShort(children)
    case Wrapper(_, children) => HoistFallsShort(children)
    case List(shape, items) =>
      exists k :: 0 <= k < |items| && ItemFallsShort(items[k], shape.explicitBlock, FirstBlockItem(items) == Some(k))
    case _ => false
  }

  predicate ItemFallsShort(item: ListItem, explicitBlock: bool, first: bool) {
    if !explicitBlock && first then item.Elements? && NeedsHoist(item.elements) else NeedsHoistItem(item, explicitBlock)
  }

  lemma NeedsHoistAppend(a: seq<Element>, b: seq<Element>)
    ensures NeedsHoist(a + b) <==> NeedsHoist(a) || NeedsHoist(b)
  {
    hide NeedsHoistOne;
    var both := a + b;
    assert forall k | 0 <= k < |a| :: both[k] == a[k];
    assert forall k | 0 <= k < |b| :: both[|a| + k] == b[k];
  }

  lemma NeedsHoistSingle(e: Element)
    ensures NeedsHoist([e]) <==> NeedsHoistOne(e)
  {
    assert [e][0] == e;
  }

  /** Trimming drops nothing that holds a block. */
  lemma {:induction false} TrimKeepsNeed(es: seq<Element>)
    ensures NeedsHoist(TrimBefore(es)) <==> NeedsHoist(es)
    decreases es
  {
    if es != [] {
      var init, last := es[..|es| - 1], es[|es| - 1];
      assert es == init + [last];
      NeedsHoistAppend(init, [last]);
      NeedsHoistSingle(last);
      if last.LineBreak? || (last.Text? && IsBlank(last.text)) {
        TrimKeepsNeed(init);
      } else if last.Text? {
        NeedsHoistAppend(init, [Text(TrimSpaces(last.text))]);
        NeedsHoistSingle(Text(TrimSpaces(last.text)));
      } else if last.Container? && last.kind == Paragraph {
        var inner := TrimBefore(last.children);
        TrimKeepsNeed(last.children);
        NeedsHoistAppend(init, [Container(Paragraph, inner, last.attributes)]);
        NeedsHoistSingle(Container(Paragraph, inner, last.attributes));
      }
    }
  }

  lemma NeedAround(es: seq<Element>, p: nat)
    requires p < |es| && es[p].FootnoteBlock?
    ensures NeedsHoist(es) <==> NeedsHoist(es[..p]) || NeedsHoist(es[p + 1..])
  {
    SplitAt(es, p);
    NeedsHoistAppend(es[..p] + [es[p]], es[p + 1..]);
    NeedsHoistAppend(es[..p], [es[p]]);
    NeedsHoistSingle(es[p]);
  }

  lemma ContainerFallsShort(kind: Kind, children: seq<Element>, attributes: Attributes)
    requires Hoistable(kind)
    ensures NeedsHoist(HoistFromContainer(kind, children, attributes))
       <==> NeedsHoist(children) || KeepsSecondBlock(children)
  {
    hide NeedsHoist;
    if FirstBlock(children).None? {
      NeedsHoistSingle(Container(kind, children, attributes));
    } else {
      var p := FirstBlock(children).value;
      var before, block, after := TrimBefore(children[..p]), children[p], children[p + 1..];
      NeedAround(children, p);
      TrimKeepsNeed(children[..p]);
      assert !HasDirectBlock(children[..p]);
      TrimAddsNoBlock(children[..p]);
      var rest :=
        if block.inlineSuffix then after
        else if after != [] then [Container(kind, after, attributes)]
        else [];
      NeedsHoistSingle(Container(kind, after, attributes));
      NeedsHoistAppend([Container(kind, before, attributes)], [block]);
      NeedsHoistAppend([Container(kind, before, attributes), block], rest);
      NeedsHoistSingle(Container(kind, before, attributes));
      NeedsHoistSingle(block);
      NothingNeedsHoist();
      assert [Container(kind, before, attributes)] + [block] == [Container(kind, before, attributes), block];
    }
  }

  lemma NothingNeedsHoist()
    ensures !NeedsHoist([])
  {
  }

  ghost predicate ItemsNeedHoist(items: seq<ListItem>) {
    exists k :: 0 <= k < |items| && NeedsHoistItem(items[k], false)
  }

  lemma ListNeed(shape: ListShape, items: seq<ListItem>)
    requires !shape.explicitBlock
    ensures NeedsHoist(OptionalList(shape, items)) <==> ItemsNeedHoist(items)
  {
    NeedsHoistSingle(List(shape, items));
  }

  lemma ItemsNeedAppend(a: seq<ListItem>, b: seq<ListItem>)
    ensures ItemsNeedHoist(a + b) <==> ItemsNeedHoist(a) || ItemsNeedHoist(b)
  {
    hide NeedsHoistItem;
    var both := a + b;
    assert forall k | 0 <= k < |a| :: both[k] == a[k];
    assert forall k | 0 <= k < |b| :: both[|a| + k] == b[k];
  }

  lemma KeptNeed(items: seq<ListItem>, before: seq<Element>, attributes: Attributes)
    requires !HasDirectBlock(before)
    ensures ItemsNeedHoist(KeepBefore(items, before, attributes)) <==> ItemsNeedHoist(items) || NeedsHoist(before)
  {
    ItemsNeedAppend(items, [Elements(before, attributes)]);
    assert [Elements(before, attributes)][0] == Elements(before, attributes);
  }

  lemma AfterFooterNeed(footer: Element, after: seq<Element>)
    requires footer.FootnoteBlock?
    ensures NeedsHoist(AfterFooter(footer, after)) <==> NeedsHoist(after)
  {
    NeedsHoistAppend([LineBreak], after);
    NeedsHoistSingle(LineBreak);
  }

  lemma SplitFallsShort(shape: ListShape, items: seq<ListItem>, i: nat)
    requires !shape.explicitBlock && i < |items| && ItemBlock(items[i]).Some?
    ensures NeedsHoist(SplitList(shape, items, i))
       <==> ItemsNeedHoist(items[..i]) || NeedsHoist(items[i].elements) || ItemsNeedHoist(items[i + 1..])
  {
    hide NeedsHoist, ItemsNeedHoist, OptionalList, KeepBefore, AfterFooter;
    var item := items[i];
    var p := ItemBlock(item).value;
    var before, footer, after := item.elements[..p], item.elements[p], item.elements[p + 1..];
    var first := OptionalList(shape, KeepBefore(items[..i], before, item.attributes));
    var last := OptionalList(shape, items[i + 1..]);
    assert !HasDirectBlock(before);
    NeedAround(item.elements, p);
    KeptNeed(items[..i], before, item.attributes);
    ListNeed(shape, KeepBefore(items[..i], before, item.attributes));
    ListNeed(shape, items[i + 1..]);
    AfterFooterNeed(footer, after);
    NeedsHoistSingle(footer);
    NeedsHoistAppend(first, [footer]);
    NeedsHoistAppend(first + [footer], AfterFooter(footer, after));
    NeedsHoistAppend(first + [footer] + AfterFooter(footer, after), last);
  }

  lemma ListFallsShort(shape: ListShape, items: seq<ListItem>)
    ensures NeedsHoist(HoistFromList(shape, items)) <==> HoistFallsShortOne(List(shape, items))
  {
    hide SplitList, NeedsHoist, NeedsHoistItem;
    if shape.explicitBlock || FirstBlockItem(items).None? {
      NeedsHoistSingle(List(shape, items));
    } else {
      var i := FirstBlockItem(items).value;
      SplitFallsShort(shape, items, i);
      assert forall k | 0 <= k < i :: items[..i][k] == items[k];
      assert forall k | i < k < |items| :: items[i + 1..][k - i - 1] == items[k];
      assert ItemFallsShort(items[i], false, true) == NeedsHoist(items[i].elements);
    }
  }

  lemma {:induction false} SuffixesAppend(a: seq<Element>, b: seq<Element>)
    ensures Suffixes(a + b) == Suffixes(a) + Suffixes(b)
  {
    if a == [] {
      assert a + b == b;
    } else {
      assert (a + b)[1..] == a[1..] + b && (a + b)[0] == a[0];
      SuffixesAppend(a[1..], b);
    }
  }

  lemma SuffixesOne(e: Element)
    ensures Suffixes([e]) == if e.FootnoteBlock? then [e.inlineSuffix] else []
  {
    assert [e][1..] == [];
  }

  lemma {:induction false} NoDirectNoSuffixes(es: seq<Element>)
    ensures Suffixes(es) == [] <==> !HasDirectBlock(es)
  {
    if es != [] {
      NoDirectNoSuffixes(es[1..]);
      assert forall k | 0 < k < |es| :: es[k] == es[1..][k - 1];
    }
  }

  /** The suffixes around the first block. */
  lemma SuffixesAround(es: seq<Element>, p: nat)
    requires FirstBlock(es) == Some(p)
    ensures Suffixes(es) == [es[p].inlineSuffix] + Suffixes(es[p + 1..])
    ensures KeepsSecondBlock(es) <==> |Suffixes(es)| >= 2 && !Suffixes(es)[0]
  {
    hide Suffixes;
    SplitAt(es, p);
    SuffixesAppend(es[..p] + [es[p]], es[p + 1..]);
    SuffixesAppend(es[..p], [es[p]]);
    SuffixesOne(es[p]);
    assert !HasDirectBlock(es[..p]);
    NoDirectNoSuffixes(es[..p]);
    NoDirectNoSuffixes(es[p + 1..]);
  }

  lemma ContainerSurfaces(kind: Kind, children: seq<Element>, attributes: Attributes)
    requires Hoistable(kind)
    ensures
      var inner := Suffixes(children);
      Suffixes(HoistFromContainer(kind, children, attributes))
      == if inner == [] then [] else if inner[0] then inner else [false]
  {
    hide Suffixes, TrimBefore;
    NoDirectNoSuffixes(children);
    SuffixesOne(Container(kind, children, attributes));
    if FirstBlock(children).Some? {
      var p := FirstBlock(children).value;
      var head, block, after := Container(kind, TrimBefore(children[..p]), attributes), children[p], children[p + 1..];
      var rest :=
        if block.inlineSuffix then after
        else if after != [] then [Container(kind, after, attributes)]
        else [];
      SuffixesAround(children, p);
      SuffixesOne(head);
      SuffixesOne(block);
      SuffixesOne(Container(kind, after, attributes));
      NoDirectNoSuffixes([]);
      assert [head] + [block] == [head, block];
      SuffixesAppend([head], [block]);
      SuffixesAppend([head, block], rest);
    }
  }

  lemma OptionalHasNoSuffix(shape: ListShape, items: seq<ListItem>)
    ensures Suffixes(OptionalList(shape, items)) == []
  {
  }

  lemma AfterFooterSuffixes(footer: Element, after: seq<Element>)
    requires footer.FootnoteBlock?
    ensures Suffixes(AfterFooter(footer, after)) == Suffixes(after)
  {
    hide Suffixes;
    SuffixesOne(LineBreak);
    SuffixesAppend([LineBreak], after);
  }

  lemma FourSuffixes(a: seq<Element>, footer: Element, b: seq<Element>, c: seq<Element>)
    requires footer.FootnoteBlock? && Suffixes(a) == [] && Suffixes(c) == []
    ensures Suffixes(a + [footer] + b + c) == [footer.inlineSuffix] + Suffixes(b)
  {
    hide Suffixes;
    SuffixesOne(footer);
    SuffixesAppend(a, [footer]);
    SuffixesAppend(a + [footer], b);
    SuffixesAppend(a + [footer] + b, c);
  }

  lemma SplitSurfaces(shape: ListShape, items: seq<ListItem>, i: nat)
    requires i < |items| && ItemBlock(items[i]).Some?
    ensures Suffixes(SplitList(shape, items, i)) == Suffixes(items[i].elements)
  {
    hide Suffixes, OptionalList, KeepBefore, AfterFooter, FirstBlock;
    var item := items[i];
    var p := ItemBlock(item).value;
    var before, footer, after := item.elements[..p], item.elements[p], item.elements[p + 1..];
    OptionalHasNoSuffix(shape, KeepBefore(items[..i], before, item.attributes));
    OptionalHasNoSuffix(shape, items[i + 1..]);
    SuffixesAround(item.elements, p);
    AfterFooterSuffixes(footer, after);
    FourSuffixes(OptionalList(shape, KeepBefore(items[..i], before, item.attributes)), footer,
                 AfterFooter(footer, after), OptionalList(shape, items[i + 1..]));
  }

  lemma ListSurfaces(shape: ListShape, items: seq<ListItem>)
    ensures Suffixes(HoistFromList(shape, items)) == SurfacingOf(List(shape, items))
  {
    hide Suffixes, FirstBlockItem, SplitList, ItemBlock;
    SuffixesOne(List(shape, items));
    if !shape.explicitBlock && FirstBlockItem(items).Some? {
      SplitSurfaces(shape, items, FirstBlockItem(items).value);
    }
  }

  /** What hoisting brings up is read off the input. */
  lemma {:induction false} HoistSurfaces(es: seq<Element>)
    ensures Suffixes(HoistSeq(es)) == Surfacing(es)
    decreases es
  {
    hide HoistOne, SurfacingOf;
    if es != [] {
      HoistOneSurfaces(es[0]);
      HoistSurfaces(es[1..]);
      SuffixesAppend(HoistOne(es[0]), HoistSeq(es[1..]));
    }
  }

  lemma {:induction false} HoistOneSurfaces(e: Element)
    ensures Suffixes(HoistOne(e)) == SurfacingOf(e)
    decreases e
  {
    hide Suffixes, HoistFromContainer, HoistFromList;
    match e
    case Container(kind, children, attributes) =>
      HoistSurfaces(children);
      SuffixesOne(Container(kind, HoistSeq(children), attributes));
      if Hoistable(kind) {
        ContainerSurfaces(kind, HoistSeq(children), attributes);
      }
    case Color(color, background, children) => SuffixesOne(Color(color, background, HoistSeq(children)));
    case Wrapper(tag, children) => SuffixesOne(Wrapper(tag, HoistSeq(children)));
    case List(shape, items) => ListSurfaces(shape, items);
    case _ => SuffixesOne(e);
  }

  lemma SecondIsKept(children: seq<Element>)
    ensures KeepsSecondBlock(HoistSeq(children)) <==> SecondSurfaces(children)
  {
    hide HoistSeq, Surfacing, Suffixes;
    var hoisted := HoistSeq(children);
    HoistSurfaces(children);
    NoDirectNoSuffixes(hoisted);
    if FirstBlock(hoisted).Some? {
      SuffixesAround(hoisted, FirstBlock(hoisted).value);
    }
  }

  /** One pass leaves something to hoist exactly where it falls short. */
  lemma {:induction false} HoistComplete(es: seq<Element>)
    ensures NeedsHoist(HoistSeq(es)) <==> HoistFallsShort(es)
    decreases es
  {
    hide NeedsHoist, HoistOne, HoistFallsShortOne;
    if es == [] {
      NothingNeedsHoist();
    } else {
      HoistOneComplete(es[0]);
      HoistComplete(es[1..]);
      NeedsHoistAppend(HoistOne(es[0]), HoistSeq(es[1..]));
      assert forall k | 0 < k < |es| :: es[1..][k - 1] == es[k];
    }
  }

  lemma {:induction false} HoistOneComplete(e: Element)
    ensures NeedsHoist(HoistOne(e)) <==> HoistFallsShortOne(e)
    decreases e
  {
    hide NeedsHoist, KeepsSecondBlock, SecondSurfaces, HoistFromContainer, HoistFromList;
    match e
    case Container(kind, children, attributes) =>
      HoistComplete(children);
      if Hoistable(kind) {
        SecondIsKept(children);
        ContainerFallsShort(kind, HoistSeq(children), attributes);
      } else {
        NeedsHoistSingle(Container(kind, HoistSeq(children), attributes));
      }
    case Color(color, background, children) =>
      HoistComplete(children);
      NeedsHoistSingle(Color(color, background, HoistSeq(children)));
    case Wrapper(tag, children) =>
      HoistComplete(children);
      NeedsHoistSingle(Wrapper(tag, HoistSeq(children)));
    case List(shape, items) => ListFallsShort(shape, items);
    case _ => NeedsHoistSingle(e);
  }

  // ----- the whole pass

  function NormalizeBlocks(es: seq<Element>, footnotesEmpty: bool): seq<Element> {
    var normal := NormalizeSeq(es, footnotesEmpty);
    if !footnotesEmpty && NeedsHoist(normal) then HoistSeq(normal) else normal
  }

  /** Normalising a page with footnotes keeps every footnote block and every
      non-blank character, in order. */
  lemma NormalizeKeepsContent(es: seq<Element>)
    ensures Content(NormalizeBlocks(es, false)) == Content(es)
    ensures BlockCount(NormalizeBlocks(es, false)) == BlockCount(es)
  {
    NormalizeSeqKeepsContent(es);
    HoistKeepsContent(NormalizeSeq(es, false));
    ContentCountsBlocks(es);
    ContentCountsBlocks(NormalizeBlocks(es, false));
  }
}
