/** Footnote-block normalisation as it runs: explicit stacks instead of
    recursion, element vectors rebuilt in loops. Each method is proved equal to
    its recursive definition. */
module Footnote {
  import opened Bytes
  import opened Seqs
  import opened Tree
  import opened FootnoteSpec
  import opened FootnoteHoistSpec
  import opened FootnoteNormal

  // ----- the containment check

  lemma AnyBlockAppend(a: seq<Element>, b: seq<Element>)
    ensures AnyBlock(a + b) <==> AnyBlock(a) || AnyBlock(b)
  {
    if AnyBlock(a) {
      var k :| 0 <= k < |a| && ContainsBlock(a[k]);
      assert (a + b)[k] == a[k];
    }
    if AnyBlock(b) {
      var k :| 0 <= k < |b| && ContainsBlock(b[k]);
      assert (a + b)[|a| + k] == b[k];
    }
  }

  lemma StackTop(stack: seq<Element>)
    requires stack != []
    ensures var n := |stack| - 1;
            && SizeAll(stack) == SizeAll(stack[..n]) + Size(stack[n])
            && (AnyBlock(stack) <==> AnyBlock(stack[..n]) || ContainsBlock(stack[n]))
  {
    hide SizeAll, AnyBlock;
    var n := |stack| - 1;
    assert stack == stack[..n] + [stack[n]];
    SizeAppend(stack[..n], [stack[n]]);
    AnyBlockAppend(stack[..n], [stack[n]]);
    OneOnStack(stack[n]);
  }

  lemma OneOnStack(e: Element)
    ensures SizeAll([e]) == Size(e) && (AnyBlock([e]) <==> ContainsBlock(e))
  {
    assert [e][1..] == [] && [e][0] == e;
  }

  method SubtreeContainsFootnoteBlock(element: Element) returns (found: bool)
    ensures found == ContainsBlock(element)
  {
    var stack := [element];
    assert AnyBlock(stack) <==> ContainsBlock(stack[0]);
    while stack != []
      invariant ContainsBlock(element) <==> AnyBlock(stack)
      decreases SizeAll(stack)
    {
      StackTop(stack);
      var e := stack[|stack| - 1];
      stack := stack[..|stack| - 1];
      if e.FootnoteBlock? {
        return true;
      }
      if e.Container? || e.Color? {
        SizeAppend(stack, e.children);
        AnyBlockAppend(stack, e.children);
        stack := stack + e.children;
      }
    }
    return false;
  }

  // ----- the dissolving machine

  datatype Step =
    | Process(element: Element)
    | PushText(text: string)
    | FinishContainer(kind: Kind, attributes: Attributes)

  /** Steps that process `es` from the left once the stack is popped from its end. */
  function ProcessAll(es: seq<Element>): (steps: seq<Step>)
    ensures |steps| == |es|
    ensures forall k | 0 <= k < |es| :: steps[k] == Process(es[|es| - 1 - k])
  {
    if es == [] then [] else ProcessAll(es[1..]) + [Process(es[0])]
  }

  function StepWeight(step: Step): nat {
    if step.Process? then 3 * Size(step.element) else 1
  }

  function Weight(steps: seq<Step>): nat {
    if steps == [] then 0 else Weight(steps[..|steps| - 1]) + StepWeight(steps[|steps| - 1])
  }

  function Finishes(steps: seq<Step>): nat {
    if steps == [] then 0
    else Finishes(steps[..|steps| - 1]) + if steps[|steps| - 1].FinishContainer? then 1 else 0
  }

  lemma {:induction false} ProcessAllMeasures(rest: seq<Step>, es: seq<Element>)
    ensures Weight(rest + ProcessAll(es)) == Weight(rest) + 3 * SizeAll(es)
    ensures Finishes(rest + ProcessAll(es)) == Finishes(rest)
  {
    if es == [] {
      assert rest + [] == rest;
    } else {
      var steps := rest + ProcessAll(es);
      assert steps[..|steps| - 1] == rest + ProcessAll(es[1..]);
      ProcessAllMeasures(rest, es[1..]);
    }
  }

  lemma SnocMeasures(rest: seq<Step>, step: Step)
    ensures Weight(rest + [step]) == Weight(rest) + StepWeight(step)
    ensures Finishes(rest + [step]) == Finishes(rest) + if step.FinishContainer? then 1 else 0
  {
    assert (rest + [step])[..|rest|] == rest;
  }

  function AddTop(out: seq<seq<Element>>, es: seq<Element>): seq<seq<Element>>
    requires out != []
  {
    out[|out| - 1 := out[|out| - 1] + es]
  }

  lemma AddTopTwice(out: seq<seq<Element>>, a: seq<Element>, b: seq<Element>)
    requires out != []
    ensures AddTop(AddTop(out, a), b) == AddTop(out, a + b)
    ensures AddTop(out, []) == out
  {
    var n := |out| - 1;
    assert out[n] + a + b == out[n] + (a + b) && out[n] + [] == out[n];
  }

  /** What the remaining steps will turn the output stack into. */
  ghost function Run(steps: seq<Step>, out: seq<seq<Element>>): seq<Element>
    requires |out| == 1 + Finishes(steps)
    decreases |steps|
  {
    if steps == [] then out[0]
    else
      var rest, step := steps[..|steps| - 1], steps[|steps| - 1];
      match step
      case PushText(text) => Run(rest, AddTop(out, [Text(text)]))
      case FinishContainer(kind, attributes) =>
        Run(rest, AddTop(out[..|out| - 1], [Container(kind, out[|out| - 1], attributes)]))
      case Process(e) => Run(rest, AddTop(out, DissolveOne(e)))
  }

  lemma RunStep(rest: seq<Step>, step: Step, out: seq<seq<Element>>)
    requires |out| == 1 + Finishes(rest + [step])
    ensures Finishes(rest + [step]) == Finishes(rest) + if step.FinishContainer? then 1 else 0
    ensures Run(rest + [step], out) ==
            if step.PushText? then Run(rest, AddTop(out, [Text(step.text)]))
            else if step.Process? then Run(rest, AddTop(out, DissolveOne(step.element)))
            else Run(rest, AddTop(out[..|out| - 1], [Container(step.kind, out[|out| - 1], step.attributes)]))
  {
    SnocMeasures(rest, step);
    assert (rest + [step])[..|rest|] == rest;
  }

  /** Processing a whole sequence adds its dissolved form to the top. */
  lemma {:induction false} RunProcessAll(rest: seq<Step>, es: seq<Element>, out: seq<seq<Element>>)
    requires |out| == 1 + Finishes(rest)
    ensures Finishes(rest + ProcessAll(es)) == Finishes(rest)
    ensures Run(rest + ProcessAll(es), out) == Run(rest, AddTop(out, Dissolve(es)))
    decreases es
  {
    ProcessAllMeasures(rest, es);
    if es == [] {
      assert rest + [] == rest;
      AddTopTwice(out, [], []);
    } else {
      var tail := rest + ProcessAll(es[1..]);
      assert rest + ProcessAll(es) == tail + [Process(es[0])];
      RunStep(tail, Process(es[0]), out);
      var out' := AddTop(out, DissolveOne(es[0]));
      RunProcessAll(rest, es[1..], out');
      AddTopTwice(out, DissolveOne(es[0]), Dissolve(es[1..]));
    }
  }

  /** Expanding a marked owner into its marker and child steps changes nothing. */
  lemma ExpandMarked(rest: seq<Step>, open: string, children: seq<Element>, close: string, out: seq<seq<Element>>)
    requires |out| == 1 + Finishes(rest)
    ensures var steps := rest + [PushText(close)] + ProcessAll(children) + [PushText(open)];
            && Finishes(steps) == Finishes(rest)
            && Weight(steps) == Weight(rest) + 3 * SizeAll(children) + 2
            && Run(steps, out) == Run(rest, AddTop(out, [Text(open)] + Dissolve(children) + [Text(close)]))
  {
    hide Run, Weight, Finishes, Dissolve;
    var a := rest + [PushText(close)];
    var b := a + ProcessAll(children);
    SnocMeasures(rest, PushText(close));
    ProcessAllMeasures(a, children);
    SnocMeasures(b, PushText(open));
    RunStep(b, PushText(open), out);
    var out1 := AddTop(out, [Text(open)]);
    RunProcessAll(a, children, out1);
    var out2 := AddTop(out1, Dissolve(children));
    RunStep(rest, PushText(close), out2);
    AddTopTwice(out, [Text(open)], Dissolve(children));
    AddTopTwice(out, [Text(open)] + Dissolve(children), [Text(close)]);
  }

  /** Expanding a kept container: its children are built on a new top. */
  lemma ExpandKept(rest: seq<Step>, kind: Kind, attributes: Attributes, children: seq<Element>, out: seq<seq<Element>>)
    requires |out| == 1 + Finishes(rest)
    ensures var steps := rest + [FinishContainer(kind, attributes)] + ProcessAll(children);
            && Finishes(steps) == Finishes(rest) + 1
            && Weight(steps) == Weight(rest) + 3 * SizeAll(children) + 1
            && Run(steps, out + [[]]) == Run(rest, AddTop(out, [Container(kind, Dissolve(children), attributes)]))
  {
    var a := rest + [FinishContainer(kind, attributes)];
    SnocMeasures(rest, FinishContainer(kind, attributes));
    ProcessAllMeasures(a, children);
    RunProcessAll(a, children, out + [[]]);
    var out1 := AddTop(out + [[]], Dissolve(children));
    assert [] + Dissolve(children) == Dissolve(children);
    assert out1[..|out1| - 1] == out;
    RunStep(rest, FinishContainer(kind, attributes), out1);
  }

  /** The two-stack machine computes the recursive definition and stops: every
      step lowers the weight of what is left to do. */
  method DissolveFootnoteBlockContainers(elements: seq<Element>) returns (r: seq<Element>)
    ensures r == Dissolve(elements)
  {
    hide Weight, Dissolve, Run, Finishes;
    var outStack: seq<seq<Element>> := [[]];
    var steps := ProcessAll(elements);
    RunStart(elements);
    while steps != []
      invariant |outStack| == 1 + Finishes(steps)
      invariant Run(steps, outStack) == Dissolve(elements)
      decreases Weight(steps)
    {
      var step, rest := steps[|steps| - 1], steps[..|steps| - 1];
      assert steps == rest + [step];
      RunStep(rest, step, outStack);
      SnocMeasures(rest, step);
      steps := rest;
      match step {
        case PushText(text) =>
          outStack := AddTop(outStack, [Text(text)]);
        case FinishContainer(kind, attributes) =>
          var children := outStack[|outStack| - 1];
          outStack := AddTop(outStack[..|outStack| - 1], [Container(kind, children, attributes)]);
        case Process(element) =>
          steps, outStack := ProcessElement(rest, outStack, element);
      }
    }
    RunEnd(outStack);
    r := outStack[0];
  }

  lemma RunStart(es: seq<Element>)
    ensures Finishes(ProcessAll(es)) == 0 && Run(ProcessAll(es), [[]]) == Dissolve(es)
  {
    RunProcessAll([], es, [[]]);
    assert [] + ProcessAll(es) == ProcessAll(es) && [] + Dissolve(es) == Dissolve(es);
  }

  lemma RunEnd(out: seq<seq<Element>>)
    requires |out| == 1 + Finishes([])
    ensures |out| == 1 && Run([], out) == out[0]
  {
  }

  method ProcessElement(rest: seq<Step>, out: seq<seq<Element>>, element: Element)
    returns (steps: seq<Step>, out': seq<seq<Element>>)
    requires |out| == 1 + Finishes(rest)
    ensures |out'| == 1 + Finishes(steps) && Weight(steps) < Weight(rest) + 3 * Size(element)
    ensures Run(steps, out') == Run(rest, AddTop(out, DissolveOne(element)))
  {
    var contains := SubtreeContainsFootnoteBlock(element);
    if !contains {
      return rest, AddTop(out, [element]);
    }
    if element.Container? {
      var kind, children, attributes := element.kind, element.children, element.attributes;
      match DelimiterMarkers(kind) {
        case Some(marks) =>
          ExpandMarked(rest, marks.0, children, marks.1, out);
          return rest + [PushText(marks.1)] + ProcessAll(children) + [PushText(marks.0)], out;
        case None =>
          ExpandKept(rest, kind, attributes, children, out);
          return rest + [FinishContainer(kind, attributes)] + ProcessAll(children), out + [[]];
      }
    }
    if element.Color? {
      var open := ColorOpen(element.color, element.background);
      ExpandMarked(rest, open, element.children, "##", out);
      return rest + [PushText("##")] + ProcessAll(element.children) + [PushText(open)], out;
    }
    return rest, AddTop(out, [element]);
  }

  // ----- paragraphs

  method PushBeforeFragment(output: seq<Element>, fragment: seq<Element>, attributes: Attributes, prefixInline: bool)
    returns (output': seq<Element>)
    ensures output' == output + BeforeBlock(fragment, attributes, prefixInline)
  {
    if fragment == [] {
      return output;
    }
    if !prefixInline {
      var f := fragment;
      if f[|f| - 1].LineBreak? {
        f := f[..|f| - 1];
      }
      return output + (if f == [] then [] else [Container(Paragraph, f, attributes)]);
    }
    output' := output + fragment + [LineBreak];
  }

  method PushAfterFragment(output: seq<Element>, fragment: seq<Element>, attributes: Attributes, suffixInline: bool)
    returns (output': seq<Element>)
    ensures output' == output + AfterBlock(fragment, attributes, suffixInline)
  {
    if fragment == [] {
      return output;
    }
    if !suffixInline {
      var f := fragment;
      if f[0].LineBreak? {
        f := f[1..];
      }
      return output + (if f == [] then [] else [Container(Paragraph, f, attributes)]);
    }
    output' := output + [LineBreak] + fragment;
  }

  method RemoveEmptyInlineBlocks(elements: seq<Element>) returns (output: seq<Element>)
    ensures output == RemoveBlocks([], elements, false)
  {
    output := [];
    var afterHyphen := false;
    for i := 0 to |elements|
      invariant afterHyphen ==> EndsWithHyphen(output)
      invariant RemoveBlocks(output, elements[i..], afterHyphen) == RemoveBlocks([], elements, false)
    {
      var element := elements[i];
      assert elements[i..][0] == element && elements[i..][1..] == elements[i + 1..];
      if element.FootnoteBlock? {
        afterHyphen := EndsWithHyphen(output);
        continue;
      }
      if afterHyphen {
        if MeetsHyphen(true, element) {
          var n := |output| - 1;
          var last := output[n].text;
          output := output[n := Text(last[..|last| - 1] + [EM_DASH])];
          element := Text(element.text[1..]);
        }
        afterHyphen := false;
      }
      output := output + [element];
    }
  }

  method NormalizeParagraphInto(output: seq<Element>, container: Element, footnotesEmpty: bool)
    returns (output': seq<Element>)
    requires container.Container? && container.kind == Paragraph
    ensures output' == output + NormalizeParagraph(container, footnotesEmpty)
  {
    if footnotesEmpty {
      var kept := RemoveEmptyInlineBlocks(container.children);
      return output + [Container(container.kind, kept, container.attributes)];
    }
    var attributes := container.attributes;
    var children := DissolveFootnoteBlockContainers(container.children);
    if !HasDirectBlock(children) {
      return output + [Container(Paragraph, children, attributes)];
    }
    var fragment: seq<Element>, afterSuffixInline := [], false;
    output' := output;
    ghost var all := SplitAtBlocks(children, [], false, attributes);
    assert output + all == output' + SplitAtBlocks(children[0..], fragment, afterSuffixInline, attributes);
    for i := 0 to |children|
      invariant output + all == output' + SplitAtBlocks(children[i..], fragment, afterSuffixInline, attributes)
    {
      var child := children[i];
      assert children[i..][0] == child && children[i..][1..] == children[i + 1..];
      if child.FootnoteBlock? {
        ghost var before := BeforeBlock(fragment, attributes, child.inlinePrefix);
        ghost var rest := SplitAtBlocks(children[i + 1..], [], child.inlineSuffix, attributes);
        assert output' + (before + [child] + rest) == output' + before + [child] + rest;
        output' := PushBeforeFragment(output', fragment, attributes, child.inlinePrefix);
        fragment := [];
        output' := output' + [child];
        afterSuffixInline := child.inlineSuffix;
      } else {
        fragment := fragment + [child];
      }
    }
    output' := PushAfterFragment(output', fragment, attributes, afterSuffixInline);
  }

  // ----- block sequences

  method NormalizeBlockSequence(elements: seq<Element>) returns (output: seq<Element>)
    ensures output == BlockSequence(elements)
  {
    var any := false;
    for i := 0 to |elements|
      invariant any <==> exists k :: 0 <= k < i && ContainsBlock(elements[k])
    {
      var contains := SubtreeContainsFootnoteBlock(elements[i]);
      any := any || contains;
    }
    if !any {
      return elements;
    }
    var dissolved := DissolveFootnoteBlockContainers(elements);
    hide SpaceBlocks, BlockWithBreaks;
    output := [];
    NothingToSpace([], dissolved);
    for i := 0 to |dissolved|
      invariant SpaceBlocks(output, dissolved[i..]) == SpaceBlocks([], dissolved)
    {
      var element, rest := dissolved[i], dissolved[i + 1..];
      SpaceStep(output, dissolved, i);
      if !element.FootnoteBlock? {
        output := output + [element];
        continue;
      }
      ghost var before := output;
      if element.inlinePrefix && output != [] && !output[|output| - 1].LineBreak? {
        output := output + [LineBreak];
      }
      output := output + [element];
      if element.inlineSuffix && i + 1 < |dissolved| && !dissolved[i + 1].LineBreak? {
        output := output + [LineBreak];
      } else if i + 1 < |dissolved| && dissolved[i + 1].Grid? && dissolved[i + 1].grid.Table? {
        output := output + [LineBreak];
      }
      BlockWritten(before, element, rest);
    }
    NothingToSpace(output, dissolved);
  }

  lemma NothingToSpace(output: seq<Element>, dissolved: seq<Element>)
    ensures dissolved[0..] == dissolved && SpaceBlocks(output, dissolved[|dissolved|..]) == output
  {
  }

  lemma SpaceStep(output: seq<Element>, dissolved: seq<Element>, i: nat)
    requires i < |dissolved|
    ensures
      var e, rest := dissolved[i], dissolved[i + 1..];
      SpaceBlocks(output, dissolved[i..])
      == SpaceBlocks(output + if e.FootnoteBlock? then BlockWithBreaks(output, e, rest) else [e], rest)
  {
    hide BlockWithBreaks;
    assert dissolved[i..][0] == dissolved[i] && dissolved[i..][1..] == dissolved[i + 1..];
  }

  lemma BlockWritten(output: seq<Element>, b: Element, rest: seq<Element>)
    requires b.FootnoteBlock?
    ensures
      var before := if b.inlinePrefix && output != [] && !output[|output| - 1].LineBreak? then output + [LineBreak]
                    else output;
      output + BlockWithBreaks(output, b, rest)
      == if (b.inlineSuffix && NextIs(rest, 0, false)) || NextIs(rest, 0, true) then before + [b] + [LineBreak]
         else before + [b]
  {
  }

  // ----- the frame machine

  datatype Owner = Owner(kind: Kind, attributes: Attributes)

  datatype Frame = Frame(parent: Option<Owner>, input: seq<Element>, output: seq<Element>)

  ghost predicate WellNested(stack: seq<Frame>) {
    stack != [] && forall k | 0 <= k < |stack| :: stack[k].parent.None? <==> k == 0
  }

  /** The sequence a frame ends up with, before it is finished. */
  ghost function Whole(frame: Frame, footnotesEmpty: bool): seq<Element> {
    frame.output + NormalizeItems(frame.input, footnotesEmpty)
  }

  function Emit(frame: Frame, es: seq<Element>): Frame {
    frame.(output := frame.output + es)
  }

  /** What the open frames will turn into. */
  ghost function Unwind(stack: seq<Frame>, footnotesEmpty: bool): seq<Element>
    requires WellNested(stack)
    decreases |stack|
  {
    var n := |stack| - 1;
    var done := FinishSequence(Whole(stack[n], footnotesEmpty), footnotesEmpty);
    if n == 0 then done
    else Unwind(Close(stack, done), footnotesEmpty)
  }

  /** Pops the top frame, handing its finished container to the frame below. */
  function Close(stack: seq<Frame>, done: seq<Element>): (r: seq<Frame>)
    requires |stack| > 1 && stack[|stack| - 1].parent.Some?
    ensures |r| == |stack| - 1
  {
    var n := |stack| - 1;
    var owner := stack[n].parent.value;
    stack[..n][n - 1 := Emit(stack[n - 1], [Container(owner.kind, done, owner.attributes)])]
  }

  /** Only what the top frame amounts to matters. */
  lemma UnwindTop(stack: seq<Frame>, top: Frame, footnotesEmpty: bool)
    requires WellNested(stack) && top.parent == stack[|stack| - 1].parent
    requires Whole(top, footnotesEmpty) == Whole(stack[|stack| - 1], footnotesEmpty)
    ensures WellNested(stack[|stack| - 1 := top])
    ensures Unwind(stack[|stack| - 1 := top], footnotesEmpty) == Unwind(stack, footnotesEmpty)
  {
    var n := |stack| - 1;
    assert stack[n := top][..n] == stack[..n];
  }

  lemma UnwindPush(stack: seq<Frame>, rest: seq<Element>, e: Element, footnotesEmpty: bool)
    requires WellNested(stack) && stack[|stack| - 1].input == [e] + rest && e.Container? && e.kind != Paragraph
    ensures var up := stack[|stack| - 1 := stack[|stack| - 1].(input := rest)]
                      + [Frame(Some(Owner(e.kind, e.attributes)), e.children, [])];
            WellNested(up) && Unwind(up, footnotesEmpty) == Unwind(stack, footnotesEmpty)
  {
    var n := |stack| - 1;
    var below := stack[n := stack[n].(input := rest)];
    var up := below + [Frame(Some(Owner(e.kind, e.attributes)), e.children, [])];
    var done := NormalizeSeq(e.children, footnotesEmpty);
    assert [] + NormalizeItems(e.children, footnotesEmpty) == NormalizeItems(e.children, footnotesEmpty);
    assert Close(up, done) == below[n := Emit(below[n], [Container(e.kind, done, e.attributes)])];
    var top := Emit(below[n], [Container(e.kind, done, e.attributes)]);
    WholeStep(stack[n], top, e, rest, footnotesEmpty);
    UnwindTop(stack, top, footnotesEmpty);
    assert below[n := top] == stack[n := top];
  }

  lemma WholeStep(before: Frame, after: Frame, e: Element, rest: seq<Element>, footnotesEmpty: bool)
    requires before.input == [e] + rest && after.input == rest
    requires after.output == before.output + NormalizeOne(e, footnotesEmpty)
    ensures Whole(after, footnotesEmpty) == Whole(before, footnotesEmpty)
  {
    assert before.input[1..] == rest;
  }

  function InputSize(stack: seq<Frame>): nat {
    if stack == [] then 0
    else InputSize(stack[..|stack| - 1]) + 2 * SizeAll(stack[|stack| - 1].input) + 1
  }

  lemma InputSizeTop(stack: seq<Frame>, top: Frame)
    requires stack != []
    ensures InputSize(stack[|stack| - 1 := top]) == InputSize(stack[..|stack| - 1]) + 2 * SizeAll(top.input) + 1
  {
    assert stack[|stack| - 1 := top][..|stack| - 1] == stack[..|stack| - 1];
  }

  lemma InputSizePush(stack: seq<Frame>, top: Frame)
    ensures InputSize(stack + [top]) == InputSize(stack) + 2 * SizeAll(top.input) + 1
  {
    assert (stack + [top])[..|stack|] == stack;
  }

  lemma InputSizeClose(stack: seq<Frame>, done: seq<Element>)
    requires |stack| > 1 && stack[|stack| - 1].parent.Some?
    ensures InputSize(Close(stack, done)) < InputSize(stack)
  {
    var n := |stack| - 1;
    InputSizeTop(stack[..n],
                 Emit(stack[n - 1], [Container(stack[n].parent.value.kind, done, stack[n].parent.value.attributes)]));
    assert stack[..n][..n - 1] == stack[..n - 1];
  }

  /** The frame stack computes the recursive normal form. */
  method NormalizeWikidotBlocks(elements: seq<Element>, footnotesEmpty: bool) returns (r: seq<Element>)
    ensures r == NormalizeBlocks(elements, footnotesEmpty)
    ensures !footnotesEmpty ==>
              && Suffixes(r) == Surfacing(NormalizeSeq(elements, false))
              && (NeedsHoist(r) <==> HoistFallsShort(NormalizeSeq(elements, false)))
              && (OneEach(elements) ==> !NeedsHoist(r))
    ensures footnotesEmpty ==> Bare(r)
  {
    hide NormalizeItems, FinishSequence, InputSize, Unwind, Whole, NeedsHoist, HoistFallsShort, OneEach, HoistSeq, Bare;
    var stack := [Frame(None, elements, [])];
    UnwindStart(elements, footnotesEmpty);
    while true
      invariant WellNested(stack)
      invariant Unwind(stack, footnotesEmpty) == NormalizeSeq(elements, footnotesEmpty)
      decreases InputSize(stack)
    {
      ghost var before := stack;
      var n := |stack| - 1;
      var frame := stack[n];
      if frame.input != [] {
        var e, rest := frame.input[0], frame.input[1..];
        assert frame.input == [e] + rest;
        if e.Container? && e.kind != Paragraph {
          PushShrinks(stack, e, rest);
          UnwindPush(stack, rest, e, footnotesEmpty);
          stack := stack[n := frame.(input := rest)] + [Frame(Some(Owner(e.kind, e.attributes)), e.children, [])];
          continue;
        }
        var output := frame.output;
        if e.Container? {
          output := NormalizeParagraphInto(output, e, footnotesEmpty);
        } else {
          output := output + [e];
        }
        var top := Frame(frame.parent, rest, output);
        WholeStep(frame, top, e, rest, footnotesEmpty);
        UnwindTop(stack, top, footnotesEmpty);
        StepShrinks(stack, top, e);
        stack := stack[n := top];
        continue;
      }
      var output := frame.output;
      if !footnotesEmpty {
        output := NormalizeBlockSequence(output);
      }
      UnwindFinished(stack, output, footnotesEmpty);
      if n == 0 {
        r := output;
        break;
      }
      InputSizeClose(stack, output);
      stack := Close(stack, output);
    }
    if !footnotesEmpty {
      var needs := NeedsFootnoteBlockHoist(r);
      if needs {
        r := HoistBlockSequence(r);
      }
      NormalizeHoists(elements);
      if OneEach(elements) {
        NormalizeClearsQuotes(elements);
      }
    } else {
      NormalizeEmptyIsBare(elements);
    }
  }

  lemma UnwindStart(es: seq<Element>, footnotesEmpty: bool)
    ensures WellNested([Frame(None, es, [])])
    ensures Unwind([Frame(None, es, [])], footnotesEmpty) == NormalizeSeq(es, footnotesEmpty)
  {
    assert [] + NormalizeItems(es, footnotesEmpty) == NormalizeItems(es, footnotesEmpty);
  }

  lemma UnwindFinished(stack: seq<Frame>, done: seq<Element>, footnotesEmpty: bool)
    requires WellNested(stack) && stack[|stack| - 1].input == []
    requires done == if footnotesEmpty then stack[|stack| - 1].output else BlockSequence(stack[|stack| - 1].output)
    ensures |stack| == 1 ==> Unwind(stack, footnotesEmpty) == done
    ensures |stack| > 1 ==>
              && WellNested(Close(stack, done))
              && Unwind(stack, footnotesEmpty) == Unwind(Close(stack, done), footnotesEmpty)
  {
    var top := stack[|stack| - 1];
    assert NormalizeItems(top.input, footnotesEmpty) == [];
    assert Whole(top, footnotesEmpty) == top.output;
  }

  lemma StepShrinks(stack: seq<Frame>, top: Frame, e: Element)
    requires stack != [] && stack[|stack| - 1].input == [e] + top.input
    ensures InputSize(stack[|stack| - 1 := top]) < InputSize(stack)
  {
    InputSizeTop(stack, top);
    assert stack[|stack| - 1].input[1..] == top.input;
  }

  lemma {:induction false} PushShrinks(stack: seq<Frame>, e: Element, rest: seq<Element>)
    requires stack != [] && stack[|stack| - 1].input == [e] + rest && e.Container?
    ensures InputSize(stack[|stack| - 1 := stack[|stack| - 1].(input := rest)]
                      + [Frame(Some(Owner(e.kind, e.attributes)), e.children, [])]) < InputSize(stack)
  {
    var n := |stack| - 1;
    var below := stack[n := stack[n].(input := rest)];
    InputSizeTop(stack, stack[n].(input := rest));
    var pushed := Frame(Some(Owner(e.kind, e.attributes)), e.children, []);
    InputSizePush(below, pushed);
    assert stack[n].input[0] == e && stack[n].input[1..] == rest;
    assert SizeAll(stack[n].input) == Size(e) + SizeAll(rest);
    assert Size(e) == 1 + SizeAll(e.children);
    assert InputSize(stack) == InputSize(stack[..n]) + 2 * SizeAll(stack[n].input) + 1;
  }

  // ----- the hoisting check

  ghost predicate AnyNeeds(stack: seq<seq<Element>>) {
    exists k :: 0 <= k < |stack| && NeedsHoist(stack[k])
  }

  function StackSize(stack: seq<seq<Element>>): nat {
    if stack == [] then 0 else StackSize(stack[..|stack| - 1]) + SizeAll(stack[|stack| - 1]) + 1
  }

  lemma PushNeeds(stack: seq<seq<Element>>, es: seq<Element>)
    ensures AnyNeeds(stack + [es]) <==> AnyNeeds(stack) || NeedsHoist(es)
    ensures StackSize(stack + [es]) == StackSize(stack) + SizeAll(es) + 1
  {
    assert (stack + [es])[..|stack|] == stack;
    if AnyNeeds(stack) {
      var k :| 0 <= k < |stack| && NeedsHoist(stack[k]);
      assert (stack + [es])[k] == stack[k];
    }
    if NeedsHoist(es) {
      assert (stack + [es])[|stack|] == es;
    }
  }

  lemma NeedsFrom(es: seq<Element>, i: nat)
    requires i < |es|
    ensures NeedsHoist(es[i..]) <==> NeedsHoistOne(es[i]) || NeedsHoist(es[i + 1..])
    ensures SizeAll(es[i..]) == Size(es[i]) + SizeAll(es[i + 1..])
  {
    var a, b := es[i..], es[i + 1..];
    assert a[1..] == b && a[0] == es[i];
    if NeedsHoist(b) {
      var k :| 0 <= k < |b| && NeedsHoistOne(b[k]);
      assert a[k + 1] == b[k];
    }
    if NeedsHoist(a) {
      var k :| 0 <= k < |a| && NeedsHoistOne(a[k]);
      assert k > 0 ==> b[k - 1] == a[k];
    }
  }

  /** The explicit stack decides exactly whether there is something to hoist. */
  method NeedsFootnoteBlockHoist(es: seq<Element>) returns (needs: bool)
    ensures needs == NeedsHoist(es)
  {
    hide NeedsHoist, NeedsHoistOne, AnyNeeds, StackSize, SizeAll, Size;
    var stack := [es];
    PushNeeds([], es);
    NothingNeeds();
    assert [] + [es] == [es];
    while stack != []
      invariant AnyNeeds(stack) <==> NeedsHoist(es)
      decreases StackSize(stack)
    {
      var n := |stack| - 1;
      var elements := stack[n];
      ghost var size := StackSize(stack);
      PushNeeds(stack[..n], elements);
      assert stack == stack[..n] + [elements];
      stack := stack[..n];
      assert elements[0..] == elements;
      for i := 0 to |elements|
        invariant AnyNeeds(stack) || NeedsHoist(elements[i..]) <==> NeedsHoist(es)
        invariant StackSize(stack) + SizeAll(elements[i..]) < size
      {
        NeedsFrom(elements, i);
        var found: bool;
        found, stack := PushChildren(stack, elements[i]);
        if found {
          return true;
        }
      }
      assert elements[|elements|..] == [];
      NothingNeeds();
    }
    return false;
  }

  lemma NothingNeeds()
    ensures !NeedsHoist([]) && !AnyNeeds([]) && SizeAll([]) == 0
  {
  }

  /** One element: either it decides, or its children go on the stack. */
  method PushChildren(stack: seq<seq<Element>>, e: Element) returns (found: bool, stack': seq<seq<Element>>)
    ensures found ==> NeedsHoistOne(e)
    ensures !found ==> (AnyNeeds(stack') <==> AnyNeeds(stack) || NeedsHoistOne(e))
    ensures !found ==> StackSize(stack') <= StackSize(stack) + Size(e)
  {
    hide NeedsHoist, AnyNeeds, StackSize, SizeAll, SizeItems, NeedsHoistItem;
    stack' := stack;
    if e.Container? || e.Color? || e.Wrapper? {
      if e.Container? && Hoistable(e.kind) && HasDirectBlock(e.children) {
        return true, stack;
      }
      PushNeeds(stack, e.children);
      return false, stack + [e.children];
    }
    if e.List? {
      var items, explicitBlock := e.items, e.shape.explicitBlock;
      assert items[0..] == items;
      for i := 0 to |items|
        invariant AnyNeeds(stack') <==> AnyNeeds(stack) || NeedsAmong(items, i, explicitBlock)
        invariant StackSize(stack') + SizeItems(items[i..]) <= StackSize(stack) + SizeItems(items)
      {
        ItemsFrom(items, i);
        NeedsAmongStep(items, i, explicitBlock);
        match items[i] {
          case Elements(elements, attributes) =>
            ElementsNeed(elements, attributes, explicitBlock);
            if !explicitBlock && HasDirectBlock(elements) {
              return true, stack;
            }
            PushNeeds(stack', elements);
            stack' := stack' + [elements];
          case SubList(element) =>
            SubListNeeds(element, explicitBlock);
            if explicitBlock {
              PushNeeds(stack', [element]);
              SingleNeeds(element);
              stack' := stack' + [[element]];
            }
        }
      }
    }
    return false, stack';
  }

  ghost predicate NeedsAmong(items: seq<ListItem>, upTo: nat, explicitBlock: bool) {
    exists k :: 0 <= k < upTo <= |items| && NeedsHoistItem(items[k], explicitBlock)
  }

  lemma NeedsAmongStep(items: seq<ListItem>, i: nat, explicitBlock: bool)
    requires i < |items|
    ensures NeedsAmong(items, i + 1, explicitBlock)
       <==> NeedsAmong(items, i, explicitBlock) || NeedsHoistItem(items[i], explicitBlock)
    ensures NeedsHoistItem(items[i], explicitBlock) ==> NeedsAmong(items, |items|, explicitBlock)
  {
    hide NeedsHoistItem;
  }

  lemma ItemsFrom(items: seq<ListItem>, i: nat)
    requires i < |items|
    ensures SizeItems(items[i..]) == SizeItem(items[i]) + SizeItems(items[i + 1..])
  {
    assert items[i..][0] == items[i] && items[i..][1..] == items[i + 1..];
  }

  lemma ElementsNeed(elements: seq<Element>, attributes: Attributes, explicitBlock: bool)
    ensures NeedsHoistItem(Elements(elements, attributes), explicitBlock)
       <==> (!explicitBlock && HasDirectBlock(elements)) || NeedsHoist(elements)
    ensures SizeItem(Elements(elements, attributes)) == 1 + SizeAll(elements)
  {
  }

  lemma SubListNeeds(e: Element, explicitBlock: bool)
    ensures NeedsHoistItem(SubList(e), explicitBlock) <==> explicitBlock && NeedsHoistOne(e)
    ensures SizeItem(SubList(e)) == 1 + Size(e)
  {
  }

  lemma SingleNeeds(e: Element)
    ensures NeedsHoist([e]) <==> NeedsHoistOne(e)
    ensures SizeAll([e]) == Size(e)
  {
    NeedsHoistSingle(e);
    OneOnStack(e);
  }

  // ----- hoisting

  method TrimHoistedBefore(elements: seq<Element>) returns (r: seq<Element>)
    ensures r == TrimBefore(elements)
    decreases elements
  {
    r := elements;
    while r != []
      invariant TrimBefore(r) == TrimBefore(elements) && |r| <= |elements| && r == elements[..|r|]
    {
      var last := r[|r| - 1];
      if last.LineBreak? || (last.Text? && IsBlank(last.text)) {
        r := r[..|r| - 1];
      } else if last.Text? {
        return r[..|r| - 1] + [Text(TrimSpaces(last.text))];
      } else if last.Container? && last.kind == Paragraph {
        assert last == elements[|r| - 1];
        var inner := TrimHoistedBefore(last.children);
        r := r[..|r| - 1];
        if inner != [] {
          r := r + [Container(Paragraph, inner, last.attributes)];
        }
        return;
      } else {
        return;
      }
    }
  }

  method HoistListFootnoteBlock(shape: ListShape, items: seq<ListItem>)
    returns (list: Option<Element>, hoisted: Option<(Element, seq<Element>)>)
    ensures HoistFromList(shape, items) ==
            (if list.Some? then [list.value] else [])
              + (if hoisted.Some? then [hoisted.value.0] + hoisted.value.1 else [])
  {
    hide FirstBlockItem, ItemBlock;
    if shape.explicitBlock {
      return Some(List(shape, items)), None;
    }
    var found: Option<nat> := None;
    for i := 0 to |items|
      invariant found.None? ==> forall k | 0 <= k < i :: ItemBlock(items[k]).None?
      invariant found.Some? ==> found.value < i && FirstBlockItem(items) == found
    {
      if found.None? && ItemBlock(items[i]).Some? {
        found := Some(i);
        assert FirstBlockItem(items).Some? && FirstBlockItem(items).value == i;
      }
    }
    if found.None? {
      return Some(List(shape, items)), None;
    }
    var i := found.value;
    SplitListAt(shape, items, i);
    var elements := items[i].elements;
    var p := ItemBlock(items[i]).value;
    var before, footer, after := elements[..p], elements[p], elements[p + 1..];
    var afterElements: seq<Element> := [];
    if footer.inlineSuffix && after != [] {
      afterElements := [LineBreak] + after;
    } else {
      afterElements := after;
    }
    var remainder := items[i + 1..];
    var kept := items[..i];
    if before != [] {
      kept := kept + [Elements(before, items[i].attributes)];
    }
    list := if kept == [] then None else Some(List(shape, kept));
    SplitAssembles(OptionalList(shape, kept), footer, afterElements, OptionalList(shape, remainder));
    if remainder != [] {
      afterElements := afterElements + [List(shape, remainder)];
    }
    hoisted := Some((footer, afterElements));
  }

  lemma SplitListAt(shape: ListShape, items: seq<ListItem>, i: nat)
    requires !shape.explicitBlock && FirstBlockItem(items) == Some(i)
    ensures HoistFromList(shape, items) == SplitList(shape, items, i)
  {
  }

  lemma SplitAssembles(list: seq<Element>, footer: Element, after: seq<Element>, rest: seq<Element>)
    ensures list + [footer] + after + rest == list + ([footer] + (after + rest))
    ensures after + [] == after
  {
  }

  method HoistBlockSequence(elements: seq<Element>) returns (output: seq<Element>)
    ensures output == HoistSeq(elements)
    decreases elements
  {
    hide HoistOne;
    output := [];
    for i := 0 to |elements|
      invariant output + HoistSeq(elements[i..]) == HoistSeq(elements)
    {
      assert elements[i..][0] == elements[i] && elements[i..][1..] == elements[i + 1..];
      var pieces := HoistElement(elements[i]);
      assert output + (pieces + HoistSeq(elements[i + 1..])) == output + pieces + HoistSeq(elements[i + 1..]);
      output := output + pieces;
    }
    assert elements[|elements|..] == [];
  }

  method HoistElement(element: Element) returns (output: seq<Element>)
    ensures output == HoistOne(element)
    decreases element
  {
    hide HoistSeq, HoistFromContainer, HoistFromList;
    if element.Container? {
      var children := HoistBlockSequence(element.children);
      if Hoistable(element.kind) {
        output := HoistContainerInto([], element.kind, children, element.attributes);
      } else {
        output := [Container(element.kind, children, element.attributes)];
      }
    } else if element.Color? {
      var children := HoistBlockSequence(element.children);
      output := [Color(element.color, element.background, children)];
    } else if element.Wrapper? {
      var children := HoistBlockSequence(element.children);
      output := [Wrapper(element.tag, children)];
    } else if element.List? {
      var list, hoisted := HoistListFootnoteBlock(element.shape, element.items);
      output := if list.Some? then [list.value] else [];
      if hoisted.Some? {
        Regroup(output, [hoisted.value.0], hoisted.value.1);
        output := output + [hoisted.value.0] + hoisted.value.1;
      }
    } else {
      output := [element];
    }
  }

  method HoistContainerInto(output: seq<Element>, kind: Kind, children: seq<Element>, attributes: Attributes)
    returns (output': seq<Element>)
    ensures output' == output + HoistFromContainer(kind, children, attributes)
  {
    var position := FirstBlock(children);
    if position.None? {
      return output + [Container(kind, children, attributes)];
    }
    var p := position.value;
    var footer, after := children[p], children[p + 1..];
    var before := TrimHoistedBefore(children[..p]);
    output' := output + [Container(kind, before, attributes), footer];
    if footer.inlineSuffix {
      output' := output' + after;
    } else if after != [] {
      output' := output' + [Container(kind, after, attributes)];
    }
  }
}
