/** Footnote-block normalisation as recursive definitions, and what they keep. */
module FootnoteSpec {
  import opened Seqs
  import opened Tree

  // ----- dissolving containers around a footnote block

  /** A block is reached through containers and colours only. */
  predicate ContainsBlock(e: Element)
    decreases e
  {
    match e
    case FootnoteBlock(_, _, _) => true
    case Container(_, children, _) => AnyBlock(children)
    case Color(_, _, children) => AnyBlock(children)
    case _ => false
  }

  predicate AnyBlock(es: seq<Element>)
    decreases es
  {
    exists k :: 0 <= k < |es| && ContainsBlock(es[k])
  }

  /** Delimiter containers and colours around a block turn into their literal
      markers; other containers stay. */
  function Dissolve(es: seq<Element>): seq<Element>
    decreases es
  {
    if es == [] then [] else DissolveOne(es[0]) + Dissolve(es[1..])
  }

  function DissolveOne(e: Element): seq<Element>
    decreases e
  {
    if !ContainsBlock(e) then
      [e]
    else
      match e
      case Container(kind, children, attributes) =>
        (match DelimiterMarkers(kind)
         case Some(marks) => [Text(marks.0)] + Dissolve(children) + [Text(marks.1)]
         case None => [Container(kind, Dissolve(children), attributes)])
      case Color(color, background, children) =>
        [Text(ColorOpen(color, background))] + Dissolve(children) + [Text("##")]
      case _ => [e]
  }

  /** No block lies under a delimiter container or a colour. */
  ghost predicate Clean(es: seq<Element>)
    decreases es
  {
    forall k | 0 <= k < |es| :: CleanOne(es[k])
  }

  ghost predicate CleanOne(e: Element)
    decreases e
  {
    match e
    case Container(kind, children, _) =>
      if DelimiterMarkers(kind).Some? then !AnyBlock(children) else Clean(children)
    case Color(_, _, children) => !AnyBlock(children)
    case _ => true
  }

  lemma {:induction false} NoBlockIsClean(es: seq<Element>)
    requires !AnyBlock(es)
    ensures Clean(es)
    decreases es
  {
    forall k | 0 <= k < |es| ensures CleanOne(es[k]) {
      assert !ContainsBlock(es[k]);
      NoBlockIsCleanOne(es[k]);
    }
  }

  lemma {:induction false} NoBlockIsCleanOne(e: Element)
    requires !ContainsBlock(e)
    ensures CleanOne(e)
    decreases e
  {
    if e.Container? { NoBlockIsClean(e.children); }
  }

  lemma {:induction false} DissolveIsClean(es: seq<Element>)
    ensures Clean(Dissolve(es))
    decreases es
  {
    if es != [] {
      DissolveOneIsClean(es[0]);
      DissolveIsClean(es[1..]);
    }
  }

  lemma {:induction false} DissolveOneIsClean(e: Element)
    ensures Clean(DissolveOne(e))
    decreases e
  {
    if !ContainsBlock(e) {
      NoBlockIsCleanOne(e);
    } else if e.Container? || e.Color? {
      DissolveIsClean(e.children);
    }
  }

  /** A clean sequence is left alone, so dissolving twice is dissolving once. */
  lemma {:induction false} CleanIsFixed(es: seq<Element>)
    requires Clean(es)
    ensures Dissolve(es) == es
    decreases es
  {
    if es != [] {
      assert CleanOne(es[0]);
      CleanOneIsFixed(es[0]);
      assert Clean(es[1..]) by {
        forall k | 0 <= k < |es[1..]| ensures CleanOne(es[1..][k]) { assert es[1..][k] == es[k + 1]; }
      }
      CleanIsFixed(es[1..]);
      assert es == [es[0]] + es[1..];
    }
  }

  lemma {:induction false} CleanOneIsFixed(e: Element)
    requires CleanOne(e)
    ensures DissolveOne(e) == [e]
    decreases e
  {
    if ContainsBlock(e) && e.Container? {
      CleanIsFixed(e.children);
    }
  }

  lemma DissolveIdempotent(es: seq<Element>)
    ensures Dissolve(Dissolve(es)) == Dissolve(es)
  {
    DissolveIsClean(es);
    CleanIsFixed(Dissolve(es));
  }

  /** Dissolving keeps the content: the markers it writes are the ones it removes. */
  lemma {:induction false} DissolveKeepsContent(es: seq<Element>)
    ensures Content(Dissolve(es)) == Content(es)
    decreases es
  {
    if es != [] {
      DissolveOneKeepsContent(es[0]);
      DissolveKeepsContent(es[1..]);
      ContentAppend(DissolveOne(es[0]), Dissolve(es[1..]));
    }
  }

  lemma MarkedContent(open: string, es: seq<Element>, close: string)
    ensures Content([Text(open)] + es + [Text(close)]) == Glyphs(open) + Content(es) + Glyphs(close)
  {
    ContentAppend([Text(open)], es);
    ContentAppend([Text(open)] + es, [Text(close)]);
  }

  lemma {:induction false} DissolveOneKeepsContent(e: Element)
    ensures Content(DissolveOne(e)) == ContentOf(e)
    decreases e
  {
    if ContainsBlock(e) {
      match e
      case Container(kind, children, attributes) =>
        DissolveKeepsContent(children);
        if DelimiterMarkers(kind).Some? {
          var marks := DelimiterMarkers(kind).value;
          MarkedContent(marks.0, Dissolve(children), marks.1);
        }
      case Color(color, background, children) =>
        DissolveKeepsContent(children);
        MarkedContent(ColorOpen(color, background), Dissolve(children), "##");
      case _ =>
    }
  }

  // ----- paragraphs

  predicate HasDirectBlock(es: seq<Element>) {
    exists k :: 0 <= k < |es| && es[k].FootnoteBlock?
  }

  function ParagraphOf(es: seq<Element>, attributes: Attributes): seq<Element> {
    if es == [] then [] else [Container(Paragraph, es, attributes)]
  }

  function DropLastBreak(es: seq<Element>): seq<Element> {
    if es != [] && es[|es| - 1].LineBreak? then es[..|es| - 1] else es
  }

  function DropFirstBreak(es: seq<Element>): seq<Element> {
    if es != [] && es[0].LineBreak? then es[1..] else es
  }

  /** What stands before a block: a paragraph of its own, or inline with a break. */
  function BeforeBlock(fragment: seq<Element>, attributes: Attributes, prefixInline: bool): seq<Element> {
    if fragment == [] then []
    else if !prefixInline then ParagraphOf(DropLastBreak(fragment), attributes)
    else fragment + [LineBreak]
  }

  function AfterBlock(fragment: seq<Element>, attributes: Attributes, suffixInline: bool): seq<Element> {
    if fragment == [] then []
    else if !suffixInline then ParagraphOf(DropFirstBreak(fragment), attributes)
    else [LineBreak] + fragment
  }

  /** Splits a paragraph's children at its blocks. */
  function SplitAtBlocks(children: seq<Element>, fragment: seq<Element>, suffixInline: bool,
                         attributes: Attributes): seq<Element> {
    if children == [] then
      AfterBlock(fragment, attributes, suffixInline)
    else if children[0].FootnoteBlock? then
      BeforeBlock(fragment, attributes, children[0].inlinePrefix) + [children[0]]
      + SplitAtBlocks(children[1..], [], children[0].inlineSuffix, attributes)
    else
      SplitAtBlocks(children[1..], fragment + [children[0]], suffixInline, attributes)
  }

  function ParagraphPieces(children: seq<Element>, attributes: Attributes): seq<Element> {
    var dissolved := Dissolve(children);
    if !HasDirectBlock(dissolved) then [Container(Paragraph, dissolved, attributes)]
    else SplitAtBlocks(dissolved, [], false, attributes)
  }

  lemma ContentBesideBreak(es: seq<Element>)
    ensures Content(es + [LineBreak]) == Content([LineBreak] + es) == Content(es)
  {
    ContentAppend(es, [LineBreak]);
    ContentAppend([LineBreak], es);
  }

  lemma DropBreakKeepsContent(es: seq<Element>)
    ensures Content(DropLastBreak(es)) == Content(DropFirstBreak(es)) == Content(es)
  {
    hide Content;
    if es != [] {
      var n := |es| - 1;
      assert es == es[..n] + [es[n]] && es == [es[0]] + es[1..];
      if es[n].LineBreak? {
        ContentBesideBreak(es[..n]);
      }
      if es[0].LineBreak? {
        ContentBesideBreak(es[1..]);
      }
    }
  }

  lemma ParagraphOfContent(es: seq<Element>, attributes: Attributes)
    ensures Content(ParagraphOf(es, attributes)) == Content(es)
  {
    if es != [] {
      ContentSingle(Container(Paragraph, es, attributes));
    }
  }

  lemma BeforeKeepsContent(fragment: seq<Element>, attributes: Attributes, inline: bool)
    ensures Content(BeforeBlock(fragment, attributes, inline)) == Content(fragment)
    ensures Content(AfterBlock(fragment, attributes, inline)) == Content(fragment)
  {
    hide Content, ParagraphOf, DropLastBreak, DropFirstBreak;
    ContentBesideBreak(fragment);
    DropBreakKeepsContent(fragment);
    ParagraphOfContent(DropLastBreak(fragment), attributes);
    ParagraphOfContent(DropFirstBreak(fragment), attributes);
  }

  lemma NoContent()
    ensures Content([]) == []
  {
  }

  lemma ContentThree(a: seq<Element>, e: Element, b: seq<Element>)
    ensures Content(a + [e] + b) == Content(a) + (ContentOf(e) + Content(b))
    ensures Content(a + [e]) == Content(a) + ContentOf(e)
  {
    hide Content, ContentOf;
    ContentAppend(a, [e]);
    ContentSingle(e);
    ContentAppend(a + [e], b);
    Regroup(Content(a), ContentOf(e), Content(b));
  }

  lemma {:induction false} SplitKeepsContent(children: seq<Element>, fragment: seq<Element>, suffixInline: bool,
                                             attributes: Attributes)
    ensures Content(SplitAtBlocks(children, fragment, suffixInline, attributes))
            == Content(fragment) + Content(children)
    decreases children
  {
    hide Content, ContentOf, BeforeBlock, AfterBlock;
    NoContent();
    if children == [] {
      BeforeKeepsContent(fragment, attributes, suffixInline);
    } else {
      var e, rest := children[0], children[1..];
      ContentThree([], e, rest);
      assert [] + [e] + rest == children;
      if e.FootnoteBlock? {
        var before := BeforeBlock(fragment, attributes, e.inlinePrefix);
        BeforeKeepsContent(fragment, attributes, e.inlinePrefix);
        SplitKeepsContent(rest, [], e.inlineSuffix, attributes);
        ContentThree(before, e, SplitAtBlocks(rest, [], e.inlineSuffix, attributes));
      } else {
        SplitKeepsContent(rest, fragment + [e], suffixInline, attributes);
        ContentThree(fragment, e, []);
        Regroup(Content(fragment), ContentOf(e), Content(rest));
      }
    }
  }

  /** No paragraph among `es` holds a block directly or is empty. */
  ghost predicate ParagraphsSplit(es: seq<Element>) {
    forall k | 0 <= k < |es| && es[k].Container? && es[k].kind == Paragraph ::
      es[k].children != [] && !HasDirectBlock(es[k].children)
  }

  lemma ParagraphsSplitAppend(a: seq<Element>, b: seq<Element>)
    ensures ParagraphsSplit(a + b) <==> ParagraphsSplit(a) && ParagraphsSplit(b)
  {
    var both := a + b;
    assert forall k | 0 <= k < |a| :: both[k] == a[k];
    assert forall k | 0 <= k < |b| :: both[|a| + k] == b[k];
  }

  /** The children that come out unwrapped: those before a block that asks for
      its line's start, and those after a block that asks for its line's end. */
  ghost function InlineElements(children: seq<Element>, fragment: seq<Element>, suffixInline: bool): seq<Element> {
    if children == [] then
      if suffixInline then fragment else []
    else if children[0].FootnoteBlock? then
      (if children[0].inlinePrefix then fragment else [])
      + InlineElements(children[1..], [], children[0].inlineSuffix)
    else
      InlineElements(children[1..], fragment + [children[0]], suffixInline)
  }

  lemma FragmentSplits(fragment: seq<Element>, attributes: Attributes, inline: bool)
    requires !HasDirectBlock(fragment)
    ensures ParagraphsSplit(BeforeBlock(fragment, attributes, inline))
       <==> ParagraphsSplit(if inline then fragment else [])
    ensures ParagraphsSplit(AfterBlock(fragment, attributes, inline))
       <==> ParagraphsSplit(if inline then fragment else [])
  {
    ParagraphsSplitAppend(fragment, [LineBreak]);
    ParagraphsSplitAppend([LineBreak], fragment);
  }

  /** Splitting leaves an empty paragraph, or a block inside one, exactly where
      such a paragraph was nested among the children that come out unwrapped. */
  lemma {:induction false} SplitSeparatesBlocks(children: seq<Element>, fragment: seq<Element>, suffixInline: bool,
                                                attributes: Attributes)
    requires !HasDirectBlock(fragment)
    ensures ParagraphsSplit(SplitAtBlocks(children, fragment, suffixInline, attributes))
       <==> ParagraphsSplit(InlineElements(children, fragment, suffixInline))
    decreases children
  {
    hide ParagraphsSplit, BeforeBlock, AfterBlock;
    if children == [] {
      FragmentSplits(fragment, attributes, suffixInline);
    } else if children[0].FootnoteBlock? {
      var block, rest := children[0], children[1..];
      FragmentSplits(fragment, attributes, block.inlinePrefix);
      SplitSeparatesBlocks(rest, [], block.inlineSuffix, attributes);
      var before := BeforeBlock(fragment, attributes, block.inlinePrefix);
      BlockIsSplit(block);
      ParagraphsSplitAppend(before, [block]);
      ParagraphsSplitAppend(before + [block], SplitAtBlocks(rest, [], block.inlineSuffix, attributes));
      ParagraphsSplitAppend(if block.inlinePrefix then fragment else [],
                            InlineElements(rest, [], block.inlineSuffix));
    } else {
      SplitSeparatesBlocks(children[1..], fragment + [children[0]], suffixInline, attributes);
    }
  }

  lemma BlockIsSplit(block: Element)
    requires block.FootnoteBlock?
    ensures ParagraphsSplit([block])
  {
  }

  /** When a paragraph's pieces are all free of empty and block-holding
      paragraphs. */
  lemma PiecesAreSplit(children: seq<Element>, attributes: Attributes)
    ensures
      var dissolved := Dissolve(children);
      ParagraphsSplit(ParagraphPieces(children, attributes))
      <==> if HasDirectBlock(dissolved) then ParagraphsSplit(InlineElements(dissolved, [], false)) else dissolved != []
  {
    var dissolved := Dissolve(children);
    if HasDirectBlock(dissolved) {
      SplitSeparatesBlocks(dissolved, [], false, attributes);
    } else {
      assert [Container(Paragraph, dissolved, attributes)][0].children == dissolved;
    }
  }

  // ----- paragraphs of a page without footnotes

  predicate EndsWithHyphen(es: seq<Element>) {
    es != [] && es[|es| - 1].Text? && var t := es[|es| - 1].text; t != "" && t[|t| - 1] == '-'
  }

  /** Drops a paragraph's blocks; hyphens that meet across one become a dash. */
  function RemoveBlocks(output: seq<Element>, rest: seq<Element>, afterHyphen: bool): seq<Element>
    requires afterHyphen ==> EndsWithHyphen(output)
    decreases rest
  {
    if rest == [] then
      output
    else if rest[0].FootnoteBlock? then
      RemoveBlocks(output, rest[1..], EndsWithHyphen(output))
    else if MeetsHyphen(afterHyphen, rest[0]) then
      RemoveBlocks(JoinByDash(output, rest[0]), rest[1..], false)
    else
      RemoveBlocks(output + [rest[0]], rest[1..], false)
  }

  /** Content with dashes written as the two hyphens they stand for and blocks
      left out. */
  function Hyphenated(atoms: seq<Atom>): seq<Atom> {
    if atoms == [] then []
    else (if atoms[0].Block? then []
          else if atoms[0] == Glyph(EM_DASH) then [Glyph('-'), Glyph('-')]
          else [atoms[0]]) + Hyphenated(atoms[1..])
  }

  lemma {:induction false} HyphenatedAppend(a: seq<Atom>, b: seq<Atom>)
    ensures Hyphenated(a + b) == Hyphenated(a) + Hyphenated(b)
  {
    if a == [] {
      assert a + b == b;
    } else {
      assert (a + b)[1..] == a[1..] + b;
      HyphenatedAppend(a[1..], b);
    }
  }

  lemma HyphenatedContent(a: seq<Element>, b: seq<Element>)
    ensures Hyphenated(Content(a + b)) == Hyphenated(Content(a)) + Hyphenated(Content(b))
  {
    ContentAppend(a, b);
    HyphenatedAppend(Content(a), Content(b));
  }

  lemma HyphenatedGlyphs(a: string, b: string)
    ensures Hyphenated(Glyphs(a + b)) == Hyphenated(Glyphs(a)) + Hyphenated(Glyphs(b))
  {
    GlyphsAppend(a, b);
    HyphenatedAppend(Glyphs(a), Glyphs(b));
  }

  lemma HyphenLiterals()
    ensures Hyphenated(Glyphs(['-'])) == [Glyph('-')]
    ensures Hyphenated(Glyphs([EM_DASH])) == [Glyph('-'), Glyph('-')]
  {
    assert Glyphs(['-']) == [Glyph('-')] && Glyphs([EM_DASH]) == [Glyph(EM_DASH)];
  }

  lemma DashJoins(stem: string, tail: string)
    ensures Hyphenated(Glyphs(stem + [EM_DASH])) + Hyphenated(Glyphs(tail)) ==
            Hyphenated(Glyphs(stem + ['-'])) + Hyphenated(Glyphs(['-'] + tail))
  {
    hide Hyphenated, Glyphs;
    HyphenatedGlyphs(stem, ['-']);
    HyphenatedGlyphs(stem, [EM_DASH]);
    HyphenatedGlyphs(['-'], tail);
    HyphenLiterals();
    JoinHyphens(Hyphenated(Glyphs(stem)), Glyph('-'), Hyphenated(Glyphs(tail)));
  }

  lemma JoinHyphens(x: seq<Atom>, h: Atom, y: seq<Atom>)
    ensures x + [h, h] + y == (x + [h]) + ([h] + y)
  {
  }

  predicate MeetsHyphen(afterHyphen: bool, e: Element) {
    afterHyphen && e.Text? && e.text != "" && e.text[0] == '-'
  }

  /** The texts on both sides of a removed block, joined by a dash. */
  function JoinByDash(output: seq<Element>, e: Element): seq<Element>
    requires EndsWithHyphen(output) && e.Text? && e.text != ""
  {
    var n := |output| - 1;
    var last := output[n].text;
    output[n := Text(last[..|last| - 1] + [EM_DASH])] + [Text(e.text[1..])]
  }

  lemma JoinKeepsRest(output: seq<Element>, e: Element)
    requires EndsWithHyphen(output) && MeetsHyphen(true, e)
    ensures Hyphenated(Content(JoinByDash(output, e))) == Hyphenated(Content(output)) + Hyphenated(ContentOf(e))
  {
    hide Hyphenated, Content;
    var n := |output| - 1;
    var last := output[n].text;
    var dashed, tail := Text(last[..|last| - 1] + [EM_DASH]), Text(e.text[1..]);
    assert JoinByDash(output, e) == output[..n] + [dashed] + [tail] && output == output[..n] + [output[n]];
    HyphenatedSnoc(output[..n], output[n]);
    HyphenatedSnoc(output[..n], dashed);
    HyphenatedSnoc(output[..n] + [dashed], tail);
    var stem, rest := last[..|last| - 1], e.text[1..];
    assert last == stem + ['-'] && e.text == ['-'] + rest;
    DashJoins(stem, rest);
    assert ContentOf(output[n]) == Glyphs(last) && ContentOf(dashed) == Glyphs(stem + [EM_DASH]);
    assert ContentOf(tail) == Glyphs(rest) && ContentOf(e) == Glyphs(e.text);
    var p := Hyphenated(Content(output[..n]));
    var d, r := Hyphenated(ContentOf(dashed)), Hyphenated(ContentOf(tail));
    var l, h := Hyphenated(ContentOf(output[n])), Hyphenated(ContentOf(e));
    assert p + d + r == p + (d + r) && p + l + h == p + (l + h);
  }

  lemma HyphenatedSnoc(a: seq<Element>, e: Element)
    ensures Hyphenated(Content(a + [e])) == Hyphenated(Content(a)) + Hyphenated(ContentOf(e))
  {
    ContentSingle(e);
    HyphenatedContent(a, [e]);
  }

  lemma HyphenatedHead(es: seq<Element>)
    requires es != []
    ensures Hyphenated(Content(es)) == Hyphenated(ContentOf(es[0])) + Hyphenated(Content(es[1..]))
  {
    HyphenatedAppend(ContentOf(es[0]), Content(es[1..]));
  }

  /** Removing blocks loses nothing else. */
  lemma {:induction false} RemoveKeepsRest(output: seq<Element>, rest: seq<Element>, afterHyphen: bool)
    requires afterHyphen ==> EndsWithHyphen(output)
    requires !HasDirectBlock(output)
    ensures !HasDirectBlock(RemoveBlocks(output, rest, afterHyphen))
    ensures Hyphenated(Content(RemoveBlocks(output, rest, afterHyphen))) ==
            Hyphenated(Content(output)) + Hyphenated(Content(rest))
    decreases rest
  {
    hide Hyphenated, Content, ContentOf;
    if rest == [] {
      EmptyContent();
    } else {
      HyphenatedHead(rest);
      var e := rest[0];
      if e.FootnoteBlock? {
        BlockHasNoHyphens(e);
        RemoveKeepsRest(output, rest[1..], EndsWithHyphen(output));
      } else if MeetsHyphen(afterHyphen, e) {
        JoinKeepsRest(output, e);
        RemoveKeepsRest(JoinByDash(output, e), rest[1..], false);
      } else {
        HyphenatedSnoc(output, e);
        RemoveKeepsRest(output + [e], rest[1..], false);
      }
    }
  }

  lemma EmptyContent()
    ensures Hyphenated(Content([])) == []
  {
  }

  lemma BlockHasNoHyphens(e: Element)
    requires e.FootnoteBlock?
    ensures Hyphenated(ContentOf(e)) == []
  {
  }

  // ----- block sequences

  predicate NextIs(rest: seq<Element>, k: nat, table: bool) {
    k < |rest| && if table then rest[k].Grid? && rest[k].grid.Table? else !rest[k].LineBreak?
  }

  /** Line breaks around an inline block, given what is already out and what follows. */
  function BlockWithBreaks(output: seq<Element>, b: Element, rest: seq<Element>): seq<Element>
    requires b.FootnoteBlock?
  {
    (if b.inlinePrefix && output != [] && !output[|output| - 1].LineBreak? then [LineBreak] else [])
    + [b]
    + (if (b.inlineSuffix && NextIs(rest, 0, false)) || NextIs(rest, 0, true) then [LineBreak] else [])
  }

  function SpaceBlocks(output: seq<Element>, rest: seq<Element>): seq<Element>
    decreases rest
  {
    if rest == [] then output
    else
      var piece := if rest[0].FootnoteBlock? then BlockWithBreaks(output, rest[0], rest[1..]) else [rest[0]];
      SpaceBlocks(output + piece, rest[1..])
  }

  function BlockSequence(es: seq<Element>): seq<Element> {
    if !AnyBlock(es) then es else SpaceBlocks([], Dissolve(es))
  }

  lemma BreaksHaveNoContent(output: seq<Element>, b: Element, rest: seq<Element>)
    requires b.FootnoteBlock?
    ensures Content(BlockWithBreaks(output, b, rest)) == ContentOf(b)
  {
    var before: seq<Element> :=
      if b.inlinePrefix && output != [] && !output[|output| - 1].LineBreak? then [LineBreak] else [];
    var after: seq<Element> :=
      if (b.inlineSuffix && NextIs(rest, 0, false)) || NextIs(rest, 0, true) then [LineBreak] else [];
    ContentThree(before, b, after);
    assert Content([LineBreak]) == [] && Content([]) == [];
  }

  lemma {:induction false} SpaceKeepsContent(output: seq<Element>, rest: seq<Element>)
    ensures Content(SpaceBlocks(output, rest)) == Content(output) + Content(rest)
    decreases rest
  {
    if rest != [] {
      var piece := if rest[0].FootnoteBlock? then BlockWithBreaks(output, rest[0], rest[1..]) else [rest[0]];
      SpaceKeepsContent(output + piece, rest[1..]);
      ContentAppend(output, piece);
      ContentSingle(rest[0]);
      if rest[0].FootnoteBlock? {
        BreaksHaveNoContent(output, rest[0], rest[1..]);
      }
      assert Content(rest) == ContentOf(rest[0]) + Content(rest[1..]);
    }
  }

  /** What may stand beside the block `es[k]`. */
  ghost predicate SpacedAt(es: seq<Element>, k: int) {
    0 <= k < |es| && es[k].FootnoteBlock? ==>
      && (es[k].inlinePrefix && k > 0 ==> es[k - 1].LineBreak?)
      && (k + 1 < |es| ==> !(es[k + 1].Grid? && es[k + 1].grid.Table?))
      && (es[k].inlineSuffix && k + 1 < |es| ==> es[k + 1].LineBreak?)
  }

  ghost predicate Spaced(es: seq<Element>) {
    forall k :: SpacedAt(es, k)
  }

  /** The last element written allows `next` right after it. */
  ghost predicate MayAppend(output: seq<Element>, next: seq<Element>) {
    output != [] && next != [] && output[|output| - 1].FootnoteBlock? ==>
      !NextIs(next, 0, true) && (output[|output| - 1].inlineSuffix ==> next[0].LineBreak?)
  }

  lemma AppendKeepsSpacing(output: seq<Element>, e: Element)
    requires Spaced(output) && MayAppend(output, [e])
    requires e.FootnoteBlock? && e.inlinePrefix && output != [] ==> output[|output| - 1].LineBreak?
    ensures Spaced(output + [e])
  {
    forall k ensures SpacedAt(output + [e], k) {
      assert SpacedAt(output, k);
    }
  }

  /** Inline blocks end up set off by line breaks, and no table follows a block
      directly. */
  lemma {:induction false} SpaceBlocksSpaces(output: seq<Element>, rest: seq<Element>)
    requires Spaced(output) && MayAppend(output, rest)
    ensures Spaced(SpaceBlocks(output, rest))
    decreases rest
  {
    if rest != [] {
      var e, next := rest[0], rest[1..];
      if !e.FootnoteBlock? {
        AppendKeepsSpacing(output, e);
        SpaceBlocksSpaces(output + [e], next);
      } else {
        var breakBefore := e.inlinePrefix && output != [] && !output[|output| - 1].LineBreak?;
        var before := if breakBefore then output + [LineBreak] else output;
        if breakBefore { AppendKeepsSpacing(output, LineBreak); }
        AppendKeepsSpacing(before, e);
        var done := before + [e];
        var breakAfter := (e.inlineSuffix && NextIs(next, 0, false)) || NextIs(next, 0, true);
        if breakAfter {
          AppendKeepsSpacing(done, LineBreak);
          done := done + [LineBreak];
        }
        assert output + BlockWithBreaks(output, e, next) == done;
        SpaceBlocksSpaces(done, next);
      }
    }
  }

  lemma BlockSequenceKeepsContent(es: seq<Element>)
    ensures Content(BlockSequence(es)) == Content(es)
  {
    DissolveKeepsContent(es);
    SpaceKeepsContent([], Dissolve(es));
  }

  // ----- the whole tree

  function NormalizeItems(es: seq<Element>, footnotesEmpty: bool): seq<Element>
    decreases es, 0
  {
    if es == [] then [] else NormalizeOne(es[0], footnotesEmpty) + NormalizeItems(es[1..], footnotesEmpty)
  }

  function NormalizeOne(e: Element, footnotesEmpty: bool): seq<Element>
    decreases e, 1
  {
    if !e.Container? then [e]
    else if e.kind == Paragraph then NormalizeParagraph(e, footnotesEmpty)
    else [Container(e.kind, NormalizeSeq(e.children, footnotesEmpty), e.attributes)]
  }

  function NormalizeParagraph(e: Element, footnotesEmpty: bool): seq<Element>
    requires e.Container?
  {
    if footnotesEmpty then [Container(e.kind, RemoveBlocks([], e.children, false), e.attributes)]
    else ParagraphPieces(e.children, e.attributes)
  }

  function FinishSequence(es: seq<Element>, footnotesEmpty: bool): seq<Element> {
    if footnotesEmpty then es else BlockSequence(es)
  }

  function NormalizeSeq(es: seq<Element>, footnotesEmpty: bool): seq<Element>
    decreases es, 1
  {
    FinishSequence(NormalizeItems(es, footnotesEmpty), footnotesEmpty)
  }

  lemma {:induction false} NormalizeSeqKeepsContent(es: seq<Element>)
    ensures Content(NormalizeSeq(es, false)) == Content(es)
    decreases es, 1
  {
    NormalizeItemsKeepContent(es);
    BlockSequenceKeepsContent(NormalizeItems(es, false));
  }

  lemma {:induction false} NormalizeItemsKeepContent(es: seq<Element>)
    ensures Content(NormalizeItems(es, false)) == Content(es)
    decreases es, 0
  {
    hide NormalizeOne, ContentOf;
    if es != [] {
      NormalizeItemsKeepContent(es[1..]);
      ContentAppend(NormalizeOne(es[0], false), NormalizeItems(es[1..], false));
      NormalizeOneKeepsContent(es[0]);
    }
  }

  lemma {:induction false} NormalizeOneKeepsContent(e: Element)
    ensures Content(NormalizeOne(e, false)) == ContentOf(e)
    decreases e, 1
  {
    hide SplitAtBlocks, NormalizeSeq;
    ContentSingle(e);
    if e.Container? {
      if e.kind == Paragraph {
        DissolveKeepsContent(e.children);
        SplitKeepsContent(Dissolve(e.children), [], false, e.attributes);
        ContentSingle(Container(e.kind, Dissolve(e.children), e.attributes));
        assert Content([]) + Content(Dissolve(e.children)) == Content(Dissolve(e.children));
      } else {
        NormalizeSeqKeepsContent(e.children);
        ContentSingle(Container(e.kind, NormalizeSeq(e.children, false), e.attributes));
      }
    }
  }

  /** On a page without footnotes the paragraphs lose their blocks and nothing else. */
  lemma {:induction false} NormalizeEmptyKeepsRest(es: seq<Element>)
    ensures Hyphenated(Content(NormalizeSeq(es, true))) == Hyphenated(Content(es))
    decreases es
  {
    hide NormalizeOne, ContentOf, Hyphenated;
    if es != [] {
      NormalizeEmptyKeepsRest(es[1..]);
      NormalizeOneKeepsRest(es[0]);
      HyphenatedContent(NormalizeOne(es[0], true), NormalizeItems(es[1..], true));
      assert es == [es[0]] + es[1..];
      HyphenatedContent([es[0]], es[1..]);
    }
  }

  lemma {:induction false} NormalizeOneKeepsRest(e: Element)
    ensures Hyphenated(Content(NormalizeOne(e, true))) == Hyphenated(Content([e]))
    decreases e
  {
    hide Content, Hyphenated, RemoveBlocks, NormalizeItems;
    if e.Container? {
      if e.kind == Paragraph {
        RemoveKeepsRest([], e.children, false);
        assert Hyphenated(Content([])) == [] by { NothingHyphenated(); }
        SurroundedHyphenated(NormalizeOne(e, true)[0], e);
      } else {
        NormalizeEmptyKeepsRest(e.children);
        SurroundedHyphenated(NormalizeOne(e, true)[0], e);
      }
    }
  }

  lemma NothingHyphenated()
    ensures Hyphenated(Content([])) == []
  {
  }

  lemma SurroundedHyphenated(x: Element, y: Element)
    requires x.Container? && y.Container? && x.kind == y.kind
    requires Hyphenated(Content(x.children)) == Hyphenated(Content(y.children))
    ensures Hyphenated(Content([x])) == Hyphenated(Content([y]))
  {
    ContentSingle(x);
    ContentSingle(y);
    if DelimiterMarkers(x.kind).Some? {
      var marks := DelimiterMarkers(x.kind).value;
      var open, close := Glyphs(marks.0), Glyphs(marks.1);
      HyphenatedAppend(open, Content(x.children));
      HyphenatedAppend(open + Content(x.children), close);
      HyphenatedAppend(open, Content(y.children));
      HyphenatedAppend(open + Content(y.children), close);
    }
  }
}
