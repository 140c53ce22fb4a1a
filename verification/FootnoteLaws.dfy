/** The line breaks, blanks and hyphens around footnote blocks, which the content
    of a page does not show. */
module FootnoteLaws {
  import opened Tree
  import opened FootnoteSpec
  import opened FootnoteHoistSpec

  // ----- a paragraph cut at its blocks

  lemma {:induction false} FragmentGathers(children: seq<Element>, fragment: seq<Element>, rest: seq<Element>,
                                           suffixInline: bool, attributes: Attributes)
    requires !HasDirectBlock(children)
    ensures SplitAtBlocks(children + rest, fragment, suffixInline, attributes)
         == SplitAtBlocks(rest, fragment + children, suffixInline, attributes)
    decreases |children|
  {
    if children == [] {
      assert children + rest == rest && fragment + children == fragment;
    } else {
      assert (children + rest)[0] == children[0] && (children + rest)[1..] == children[1..] + rest;
      assert forall k | 0 <= k < |children[1..]| :: children[1..][k] == children[k + 1];
      FragmentGathers(children[1..], fragment + [children[0]], rest, suffixInline, attributes);
      assert fragment + [children[0]] + children[1..] == fragment + children;
    }
  }

  /** The children in front of a block become a paragraph, without the break that
      ends them, or stay in its line, set off by a break; those behind the last
      block likewise, the break that begins them going or coming. Nothing comes of
      no children. */
  lemma PieceLaw(children: seq<Element>, block: Element, rest: seq<Element>, suffixInline: bool,
                 attributes: Attributes)
    requires !HasDirectBlock(children) && block.FootnoteBlock?
    ensures
      var n := |children|;
      var stem := if children != [] && children[n - 1].LineBreak? then children[..n - 1] else children;
      SplitAtBlocks(children + [block] + rest, [], suffixInline, attributes)
      == (if block.inlinePrefix && children != [] then children + [LineBreak]
          else if stem == [] then []
          else [Container(Paragraph, stem, attributes)])
         + [block] + SplitAtBlocks(rest, [], block.inlineSuffix, attributes)
    ensures
      var stem := if children != [] && children[0].LineBreak? then children[1..] else children;
      SplitAtBlocks(children, [], suffixInline, attributes)
      == if suffixInline && children != [] then [LineBreak] + children
         else if stem == [] then []
         else [Container(Paragraph, stem, attributes)]
  {
    var behind := [block] + rest;
    assert children + [block] + rest == children + behind && [] + children == children;
    assert behind[0] == block && behind[1..] == rest;
    FragmentGathers(children, [], behind, suffixInline, attributes);
    FragmentGathers(children, [], [], suffixInline, attributes);
    assert children + [] == children;
  }

  // ----- blocks dropped from a paragraph

  lemma {:induction false} BlocksDrop(output: seq<Element>, blocks: seq<Element>, rest: seq<Element>, afterHyphen: bool)
    requires afterHyphen ==> EndsWithHyphen(output)
    requires blocks != [] && forall k | 0 <= k < |blocks| :: blocks[k].FootnoteBlock?
    ensures RemoveBlocks(output, blocks + rest, afterHyphen) == RemoveBlocks(output, rest, EndsWithHyphen(output))
    decreases |blocks|
  {
    var tail := blocks[1..];
    assert (blocks + rest)[0] == blocks[0] && (blocks + rest)[1..] == tail + rest;
    if tail == [] {
      assert tail + rest == rest;
    } else {
      assert forall k | 0 <= k < |tail| :: tail[k] == blocks[k + 1];
      BlocksDrop(output, tail, rest, EndsWithHyphen(output));
    }
  }

  /** Where dropped blocks stood between two hyphens, a dash stands; where no block
      stood, hyphens stay apart. */
  lemma HyphensMeet(output: seq<Element>, x: string, blocks: seq<Element>, y: string, rest: seq<Element>)
    requires forall k | 0 <= k < |blocks| :: blocks[k].FootnoteBlock?
    ensures
      RemoveBlocks(output, [Text(x + "-")] + blocks + [Text("-" + y)] + rest, false)
      == if blocks == [] then RemoveBlocks(output + [Text(x + "-"), Text("-" + y)], rest, false)
         else RemoveBlocks(output + [Text(x + [EM_DASH]), Text(y)], rest, false)
  {
    var left, right := Text(x + "-"), Text("-" + y);
    var behind := [right] + rest;
    var all := [left] + blocks + [right] + rest;
    assert all == [left] + (blocks + behind) && all[0] == left && all[1..] == blocks + behind;
    assert behind[0] == right && behind[1..] == rest;
    var up := output + [left];
    assert RemoveBlocks(output, all, false) == RemoveBlocks(up, blocks + behind, false);
    if blocks == [] {
      assert blocks + behind == behind && up + [right] == output + [left, right];
    } else {
      assert EndsWithHyphen(up) by {
        assert up[|up| - 1] == left && (x + "-")[|x|] == '-';
      }
      BlocksDrop(up, blocks, behind, false);
      assert (x + "-")[..|x|] == x && ("-" + y)[1..] == y && ("-" + y)[0] == '-';
      assert JoinByDash(up, right) == output + [Text(x + [EM_DASH]), Text(y)];
    }
  }

  // ----- spacing adds no more than is needed

  lemma {:induction false} SpacedStays(output: seq<Element>, rest: seq<Element>)
    requires Spaced(output + rest)
    ensures SpaceBlocks(output, rest) == output + rest
    decreases |rest|
  {
    if rest != [] {
      var e, next, k := rest[0], rest[1..], |output|;
      assert output + rest == output + [e] + next;
      if e.FootnoteBlock? {
        SpacedBlock(output, e, next);
      }
      SpacedStays(output + [e], next);
    } else {
      assert output + rest == output;
    }
  }

  lemma SpacedBlock(output: seq<Element>, e: Element, next: seq<Element>)
    requires e.FootnoteBlock? && Spaced(output + [e] + next)
    ensures BlockWithBreaks(output, e, next) == [e]
  {
    var all, k := output + [e] + next, |output|;
    assert SpacedAt(all, k) && all[k] == e;
    assert k > 0 ==> all[k - 1] == output[k - 1];
    assert next != [] ==> all[k + 1] == next[0];
    assert [] + [e] + [] == [e];
  }

  /** What is spaced stays as it is, so spacing twice is spacing once. */
  lemma SpacingIsFixed(es: seq<Element>)
    ensures Spaced(es) ==> SpaceBlocks([], es) == es
    ensures SpaceBlocks([], SpaceBlocks([], es)) == SpaceBlocks([], es)
  {
    hide Spaced, SpaceBlocks;
    assert [] + es == es && [] + SpaceBlocks([], es) == SpaceBlocks([], es);
    if Spaced(es) {
      SpacedStays([], es);
    }
    StartSpaced(es);
    SpaceBlocksSpaces([], es);
    SpacedStays([], SpaceBlocks([], es));
  }

  lemma StartSpaced(es: seq<Element>)
    ensures Spaced([]) && MayAppend([], es)
  {
  }

  // ----- what is trimmed in front of a hoisted block

  /** Breaks and texts of blanks. */
  predicate IsDropped(e: Element) {
    e.LineBreak? || (e.Text? && IsBlank(e.text))
  }

  /** Breaks and blanks behind the last content are gone; a text there has lost the
      spaces that end it, a paragraph is trimmed itself and goes if nothing is left,
      whatever stood before it. */
  ghost predicate Trims(es: seq<Element>, r: seq<Element>)
    decreases es, 1
  {
    || (r == [] && forall k | 0 <= k < |es| :: IsDropped(es[k]))
    || exists n: nat :: TrimsAt(es, r, n)
  }

  /** The last content is `es[n]`. */
  ghost predicate TrimsAt(es: seq<Element>, r: seq<Element>, n: nat)
    decreases es, 0
  {
    && n < |es| && n <= |r| && r[..n] == es[..n] && TrimsLast(es[n], r[n..])
    && forall k | n < k < |es| :: IsDropped(es[k])
  }

  ghost predicate TrimsLast(e: Element, r: seq<Element>)
    decreases e
  {
    && !IsDropped(e)
    && if e.Text? then |r| == 1 && r[0].Text? && IsTextTrimmed(e.text, r[0].text)
       else if e.Container? && e.kind == Paragraph then
         if r == [] then Trims(e.children, [])
         else
           && |r| == 1 && r[0].Container? && r[0] == Container(Paragraph, r[0].children, e.attributes)
           && r[0].children != [] && Trims(e.children, r[0].children)
       else r == [e]
  }

  predicate IsTextTrimmed(text: string, r: string) {
    && r <= text && r != "" && r[|r| - 1] != ' ' && r[|r| - 1] != '\t'
    && forall k | |r| <= k < |text| :: text[k] == ' ' || text[k] == '\t'
  }

  lemma {:induction false} TrimmedText(text: string)
    requires !IsBlank(text)
    ensures IsTextTrimmed(text, TrimSpaces(text))
    decreases |text|
  {
    var init, last := text[..|text| - 1], text[|text| - 1];
    if last == ' ' || last == '\t' {
      if IsBlank(init) {
        forall k | 0 <= k < |text| ensures IsWhitespace(text[k]) {
          assert k < |init| ==> init[k] == text[k];
        }
        assert IsBlank(text);
      }
      TrimmedText(init);
      assert forall k | 0 <= k < |init| :: init[k] == text[k];
    }
  }

  lemma {:induction false} TrimBeforeTrims(es: seq<Element>)
    ensures Trims(es, TrimBefore(es))
    decreases es
  {
    hide IsBlank, IsTextTrimmed;
    if es != [] {
      var n := |es| - 1;
      var init, last, r := es[..n], es[n], TrimBefore(es);
      if IsDropped(last) {
        TrimBeforeTrims(init);
        DroppedBehind(es, r);
      } else {
        if last.Text? {
          TrimmedText(last.text);
        } else if last.Container? && last.kind == Paragraph {
          TrimBeforeTrims(last.children);
        }
        assert r == init + r[n..] && r[..n] == es[..n];
        assert TrimsAt(es, r, n);
      }
    }
  }

  lemma DroppedBehind(es: seq<Element>, r: seq<Element>)
    requires es != [] && IsDropped(es[|es| - 1]) && Trims(es[..|es| - 1], r)
    ensures Trims(es, r)
  {
    hide IsDropped, TrimsLast;
    var init := es[..|es| - 1];
    assert forall k | 0 <= k < |init| :: init[k] == es[k];
    if exists n: nat :: TrimsAt(init, r, n) {
      var n: nat :| TrimsAt(init, r, n);
      assert es[..n] == init[..n] && TrimsAt(es, r, n);
    }
  }
}
