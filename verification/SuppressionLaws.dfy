/** The suppression pass cut at a stretch of texts and seams: what becomes of the
    stretch, and that the rest is passed over as if it stood alone. */
module SuppressionLaws {
  import opened Tree
  import opened DelayedSpec
  import opened Seam
  import opened Suppression

  /** The element is a text or a seam once its children are passed over. */
  ghost predicate JoinsAfter(e: Element, pass: Pass) {
    Joins(pass.c, SuppressElement(e, pass))
  }

  /** A stretch of such elements between others, or at an end. */
  ghost predicate IsStretch(before: seq<Element>, stretch: seq<Element>, after: seq<Element>, pass: Pass) {
    && (forall k | 0 <= k < |stretch| :: JoinsAfter(stretch[k], pass))
    && (before != [] ==> !JoinsAfter(before[|before| - 1], pass))
    && (after != [] ==> !JoinsAfter(after[0], pass))
  }

  // ----- regrouping in parts

  lemma {:induction false} RegroupJoins(output: seq<Element>, group: seq<Element>, stretch: seq<Element>,
                                        rest: seq<Element>, pass: Pass)
    requires forall k | 0 <= k < |stretch| :: Joins(pass.c, stretch[k])
    ensures Regrouped(output, group, stretch + rest, pass) == Regrouped(output, group + stretch, rest, pass)
    decreases |stretch|
  {
    hide Joins, Flushed;
    if stretch == [] {
      assert stretch + rest == rest && group + stretch == group;
    } else {
      var tail := stretch[1..];
      assert (stretch + rest)[0] == stretch[0] && (stretch + rest)[1..] == tail + rest;
      RegroupJoins(output, group + [stretch[0]], tail, rest, pass);
      assert group + [stretch[0]] + tail == group + stretch;
    }
  }

  lemma NothingToFlush(output: seq<Element>, pass: Pass)
    ensures Flushed(output, [], pass) == output && !IsSeamOnly(Members([]))
    ensures Regrouped(output, [], [], pass) == output
  {
    assert TextsIn(Members([])) == [];
  }

  lemma {:induction false} RegroupInParts(output: seq<Element>, group: seq<Element>, before: seq<Element>,
                                          rest: seq<Element>, pass: Pass)
    requires before != [] && !Joins(pass.c, before[|before| - 1])
    ensures Regrouped(output, group, before + rest, pass)
         == Regrouped(Regrouped(output, group, before, pass), [], rest, pass)
    decreases |before|
  {
    hide Joins, Flushed;
    var e, tail := before[0], before[1..];
    assert (before + rest)[0] == e && (before + rest)[1..] == tail + rest;
    var done := Flushed(output, group, pass);
    if tail == [] {
      assert tail + rest == rest && before == [e];
      NothingToFlush(done, pass);
      NothingToFlush(done + [e], pass);
    } else {
      assert tail[|tail| - 1] == before[|before| - 1];
      if Joins(pass.c, e) {
        RegroupInParts(output, group + [e], tail, rest, pass);
      } else if IsSeamOnly(Members(group)) && e.LineBreak? && EndsWithBreak(done) {
        RegroupInParts(done, [], tail, rest, pass);
      } else {
        RegroupInParts(done + [e], [], tail, rest, pass);
      }
    }
  }

  lemma FlushedBehind(front: seq<Element>, output: seq<Element>, group: seq<Element>, pass: Pass)
    requires output != []
    ensures Flushed(front + output, group, pass) == front + Flushed(output, group, pass)
    ensures Flushed(output, group, pass) != []
    ensures EndsWithBreak(front + Flushed(output, group, pass)) <==> EndsWithBreak(Flushed(output, group, pass))
  {
    hide FlushedGroup, DashRunIsUrlOwned;
    assert (front + output)[|front + output| - 1] == output[|output| - 1];
    assert LastElementIsUrlOwner(front + output) == LastElementIsUrlOwner(output);
    var made := FlushedGroup(Members(group), LastElementIsUrlOwner(output), pass.typography, pass.oracle);
    assert front + output + made == front + (output + made);
  }

  /** What stands in front of the last element written is of no account. */
  lemma {:induction false} RegroupBehind(front: seq<Element>, output: seq<Element>, group: seq<Element>,
                                         rest: seq<Element>, pass: Pass)
    requires output != []
    ensures Regrouped(front + output, group, rest, pass) == front + Regrouped(output, group, rest, pass)
    decreases |rest|
  {
    hide Joins, Flushed;
    var done := Flushed(output, group, pass);
    FlushedBehind(front, output, group, pass);
    if rest == [] {
      assert (front + done)[..|front + done| - 1] == front + done[..|done| - 1];
    } else if Joins(pass.c, rest[0]) {
      RegroupBehind(front, output, group + [rest[0]], rest[1..], pass);
    } else if IsSeamOnly(Members(group)) && rest[0].LineBreak? && EndsWithBreak(done) {
      RegroupBehind(front, done, [], rest[1..], pass);
    } else {
      assert front + done + [rest[0]] == front + (done + [rest[0]]);
      RegroupBehind(front, done + [rest[0]], [], rest[1..], pass);
    }
  }

  lemma {:induction false} RegroupEnds(output: seq<Element>, group: seq<Element>, before: seq<Element>, pass: Pass)
    requires before != [] && !Joins(pass.c, before[|before| - 1])
    ensures EndsWithBreak(Regrouped(output, group, before, pass)) <==> before[|before| - 1].LineBreak?
    ensures Regrouped(output, group, before, pass) != []
    decreases |before|
  {
    hide Joins, Flushed;
    var e, tail := before[0], before[1..];
    var done := Flushed(output, group, pass);
    if tail == [] {
      NothingToFlush(done, pass);
      NothingToFlush(done + [e], pass);
    } else {
      assert tail[|tail| - 1] == before[|before| - 1];
      if Joins(pass.c, e) {
        RegroupEnds(output, group + [e], tail, pass);
      } else if IsSeamOnly(Members(group)) && e.LineBreak? && EndsWithBreak(done) {
        RegroupEnds(done, [], tail, pass);
      } else {
        RegroupEnds(done + [e], [], tail, pass);
      }
    }
  }

  // ----- the law of a stretch

  /** A stretch that holds a text is flushed once and as a whole. One of seams
      alone leaves nothing: between two line breaks it takes one along, and with
      typography the break before it at the end. */
  lemma StretchLaw(before: seq<Element>, stretch: seq<Element>, after: seq<Element>, pass: Pass)
    requires IsStretch(before, stretch, after, pass)
    ensures
      var done, rest := SuppressAll(before, pass), SuppressAll(after, pass);
      var group := Members(SuppressEach(stretch, pass));
      var breakBefore := before != [] && before[|before| - 1].LineBreak?;
      SuppressAll(before + stretch + after, pass)
      == if !IsSeamOnly(group) then
           done + FlushedGroup(group, LastElementIsUrlOwner(done), pass.typography, pass.oracle) + rest
         else if breakBefore && (if after == [] then pass.typography else after[0].LineBreak?) then
           Init(done) + rest
         else
           done + rest
  {
    hide SuppressEach, SuppressAll, IsStretch, Joins, Regrouped, FlushedGroup, LastElementIsUrlOwner, IsSeamOnly;
    var a, s, b := SuppressEach(before, pass), SuppressEach(stretch, pass), SuppressEach(after, pass);
    StretchParts(before, stretch, after, pass);
    StretchRegrouped(a, s, b, pass);
    StretchFlushed(Regrouped([], [], a, pass), s, b, pass);
    if before == [] {
      NothingToFlush([], pass);
    } else {
      RegroupEnds([], [], a, pass);
    }
  }

  lemma EachAppend(a: seq<Element>, b: seq<Element>, pass: Pass)
    ensures SuppressEach(a + b, pass) == SuppressEach(a, pass) + SuppressEach(b, pass)
  {
    hide SuppressElement;
  }

  lemma StretchParts(before: seq<Element>, stretch: seq<Element>, after: seq<Element>, pass: Pass)
    requires IsStretch(before, stretch, after, pass)
    ensures
      var a, s, b := SuppressEach(before, pass), SuppressEach(stretch, pass), SuppressEach(after, pass);
      && SuppressAll(before + stretch + after, pass) == Regrouped([], [], a + s + b, pass)
      && SuppressAll(before, pass) == Regrouped([], [], a, pass)
      && SuppressAll(after, pass) == Regrouped([], [], b, pass)
      && (forall k | 0 <= k < |s| :: Joins(pass.c, s[k]))
      && (before == [] <==> a == []) && (after == [] <==> b == [])
      && (a != [] ==> !Joins(pass.c, a[|a| - 1]) && (a[|a| - 1].LineBreak? <==> before[|before| - 1].LineBreak?))
      && (b != [] ==> !Joins(pass.c, b[0]) && (b[0].LineBreak? <==> after[0].LineBreak?))
  {
    hide SuppressElement, Regrouped, Joins;
    var a, s, b := SuppressEach(before, pass), SuppressEach(stretch, pass), SuppressEach(after, pass);
    EachAppend(before + stretch, after, pass);
    EachAppend(before, stretch, pass);
    forall k | 0 <= k < |s| ensures Joins(pass.c, s[k]) {
      assert JoinsAfter(stretch[k], pass);
    }
    if before != [] {
      BreakStays(before[|before| - 1], pass);
    }
    if after != [] {
      BreakStays(after[0], pass);
    }
  }

  function Init(es: seq<Element>): seq<Element> {
    if es == [] then [] else es[..|es| - 1]
  }

  lemma StretchRegrouped(a: seq<Element>, s: seq<Element>, b: seq<Element>, pass: Pass)
    requires a != [] ==> !Joins(pass.c, a[|a| - 1])
    requires forall k | 0 <= k < |s| :: Joins(pass.c, s[k])
    ensures Regrouped([], [], a + s + b, pass) == Regrouped(Regrouped([], [], a, pass), s, b, pass)
  {
    hide Joins, Regrouped;
    NothingToFlush([], pass);
    assert a + s + b == a + (s + b) && [] + s == s;
    if a != [] {
      RegroupInParts([], [], a, s + b, pass);
    } else {
      assert a + (s + b) == s + b;
    }
    RegroupJoins(Regrouped([], [], a, pass), [], s, b, pass);
  }

  /** Flushing the stretch and going on. */
  lemma StretchFlushed(done: seq<Element>, s: seq<Element>, b: seq<Element>, pass: Pass)
    requires b != [] ==> !Joins(pass.c, b[0])
    ensures
      var made := FlushedGroup(Members(s), LastElementIsUrlOwner(done), pass.typography, pass.oracle);
      var rest := Regrouped([], [], b, pass);
      Regrouped(done, s, b, pass)
      == if !IsSeamOnly(Members(s)) then done + made + rest
         else if EndsWithBreak(done) && (if b == [] then pass.typography else b[0].LineBreak?) then Init(done) + rest
         else done + rest
  {
    hide Joins, FlushedGroup, LastElementIsUrlOwner, IsSeamOnly;
    NothingToFlush([], pass);
    FlushedTextual(Members(s), LastElementIsUrlOwner(done), pass.typography, pass.oracle);
    var up := Flushed(done, s, pass);
    if b == [] {
      assert up + [] == up && done + [] == done && Init(done) + [] == Init(done);
    } else {
      var e, tail := b[0], b[1..];
      assert Regrouped([], [], b, pass) == Regrouped([e], [], tail, pass) by {
        assert [] + [e] == [e];
      }
      assert done + [] == done;
      if IsSeamOnly(Members(s)) && e.LineBreak? && EndsWithBreak(done) {
        assert done == Init(done) + [e];
        RegroupBehind(Init(done), [e], [], tail, pass);
      } else {
        RegroupBehind(up, [e], [], tail, pass);
      }
    }
  }

  /** A line break stays one, and nothing else turns into one. */
  lemma BreakStays(e: Element, pass: Pass)
    ensures SuppressElement(e, pass).LineBreak? <==> e.LineBreak?
  {
    hide SuppressAll;
  }

  /** A container whose elements all went is left as it is emptied, unless it is
      a paragraph or a quote: then it becomes a seam of the sequence it is in. */
  lemma EmptiedOwners(kind: Kind, children: seq<Element>, attributes: Attributes, pass: Pass)
    ensures
      var inner := SuppressAll(children, pass);
      SuppressElement(Container(kind, children, attributes), pass)
      == if (kind == Paragraph || kind == Blockquote) && children != [] && inner == [] then Delayed(TypographyBoundary)
         else Container(kind, inner, attributes)
  {
    hide SuppressAll;
  }

  /** An element that is neither text nor seam stands alone. */
  lemma OneAlone(e: Element, pass: Pass)
    requires !JoinsAfter(e, pass)
    ensures SuppressAll([e], pass) == [SuppressElement(e, pass)] && SuppressAll([], pass) == []
  {
    hide SuppressElement, Flushed, Joins;
    var each := SuppressElement(e, pass);
    assert SuppressEach([e], pass) == [each] && SuppressEach([], pass) == [];
    NothingToFlush([], pass);
    NothingToFlush([each], pass);
    assert [] + [each] == [each] && [each][1..] == [];
  }

  /** A boundary is a seam in both passes. A suppressed value is one in the static
      pass if it has no slots, and in the other always; it needs its slots bound
      there. No other node is a seam or needs any. */
  lemma WhatIsASeam(node: DelayedNode, bindings: Bindings)
    ensures IsSeam(Static, node) <==> node == TypographyBoundary || node == Suppressed([])
    ensures IsSeam(Bound(bindings), node) <==> node == TypographyBoundary || node.Suppressed?
    ensures SlotsBound(Static, node)
    ensures SlotsBound(Bound(bindings), node)
       <==> (node.Suppressed? ==>
               forall k | 0 <= k < |node.slots| ::
                 && node.slots[k].id in bindings
                 && (bindings[node.slots[k].id].PageLinkValue? <==> node.slots[k].kind == PageLink))
  {
    if node.Suppressed? {
      forall k | 0 <= k < |node.slots|
        ensures IsBound(node.slots[k], bindings)
           <==> node.slots[k].id in bindings
                && (bindings[node.slots[k].id].PageLinkValue? <==> node.slots[k].kind == PageLink)
      {
      }
    }
  }
}
