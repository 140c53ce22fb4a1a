/** The resolve pass, and binding as a whole: both passes over every part of the
    tree and the final guard. */
module Binding {
  import opened Bytes
  import opened Seqs
  import opened Tree
  import opened DelayedSpec
  import opened NodeMeaning
  import opened Suppression

  // ----- what resolving does to a skeleton

  predicate IsNodeBone(bone: Bone) {
    bone.Node? || bone.Stuck?
  }

  ghost function ResolvedBone(bone: Bone, bindings: Bindings): seq<Bone> {
    if IsNodeBone(bone) then Bones(Meaning(bone.node, bindings)) else [bone]
  }

  /** Every delayed node replaced, where it stands, by what it stands for. */
  ghost function Resolved(bones: seq<Bone>, bindings: Bindings): seq<Bone> {
    if bones == [] then [] else ResolvedBone(bones[0], bindings) + Resolved(bones[1..], bindings)
  }

  ghost predicate Resolves(bone: Bone, bindings: Bindings) {
    IsNodeBone(bone) ==> HasMeaning(bone.node, bindings)
  }

  ghost predicate AllResolve(bones: seq<Bone>, bindings: Bindings) {
    forall k | 0 <= k < |bones| :: Resolves(bones[k], bindings)
  }

  predicate IsParagraph(shell: Shell) {
    shell.ContainerShell? && shell.kind == Paragraph
  }

  /** All but the marks of paragraphs, which are dropped when binding empties
      them. */
  function Solid(bones: seq<Bone>): seq<Bone> {
    if bones == [] then []
    else
      (if (bones[0].Open? || bones[0].Close?) && IsParagraph(bones[0].shell) then [] else [bones[0]])
      + Solid(bones[1..])
  }

  /** `after` is `before` with its nodes resolved. */
  ghost predicate Settled(bindings: Bindings, before: seq<Bone>, after: seq<Bone>) {
    && AllResolve(before, bindings)
    && Solid(after) == Solid(Resolved(before, bindings))
    && !HasNode(after)
  }

  lemma {:induction false} ResolvedAppend(a: seq<Bone>, b: seq<Bone>, bindings: Bindings)
    ensures Resolved(a + b, bindings) == Resolved(a, bindings) + Resolved(b, bindings)
  {
    hide ResolvedBone;
    if a == [] {
      assert a + b == b;
    } else {
      assert (a + b)[1..] == a[1..] + b && (a + b)[0] == a[0];
      ResolvedAppend(a[1..], b, bindings);
      Regroup(ResolvedBone(a[0], bindings), Resolved(a[1..], bindings), Resolved(b, bindings));
    }
  }

  lemma {:induction false} SolidAppend(a: seq<Bone>, b: seq<Bone>)
    ensures Solid(a + b) == Solid(a) + Solid(b)
  {
    hide IsParagraph;
    if a == [] {
      assert a + b == b;
    } else {
      assert (a + b)[1..] == a[1..] + b && (a + b)[0] == a[0];
      SolidAppend(a[1..], b);
      var head := if (a[0].Open? || a[0].Close?) && IsParagraph(a[0].shell) then [] else [a[0]];
      Regroup(head, Solid(a[1..]), Solid(b));
    }
  }

  lemma AllResolveAppend(a: seq<Bone>, b: seq<Bone>, bindings: Bindings)
    ensures AllResolve(a + b, bindings) <==> AllResolve(a, bindings) && AllResolve(b, bindings)
  {
    assert forall k | 0 <= k < |a| :: (a + b)[k] == a[k];
    assert forall k | 0 <= k < |b| :: (a + b)[|a| + k] == b[k];
  }

  lemma SettledAppend(bindings: Bindings, b1: seq<Bone>, a1: seq<Bone>, b2: seq<Bone>, a2: seq<Bone>)
    requires Settled(bindings, b1, a1) && Settled(bindings, b2, a2)
    ensures Settled(bindings, b1 + b2, a1 + a2)
  {
    hide AllResolve, HasNode, Resolved, Solid;
    ResolvedAppend(b1, b2, bindings);
    SolidAppend(a1, a2);
    SolidAppend(Resolved(b1, bindings), Resolved(b2, bindings));
    AllResolveAppend(b1, b2, bindings);
    HasNodeAppend(a1, a2);
  }

  lemma MarkSettles(bindings: Bindings, mark: Bone)
    requires mark.Open? || mark.Close?
    ensures Settled(bindings, [mark], [mark])
    ensures IsParagraph(mark.shell) ==> Settled(bindings, [mark], [])
  {
    assert [mark][1..] == [];
    assert Resolved([mark], bindings) == [mark];
  }

  lemma SettledWrap(bindings: Bindings, shell: Shell, before: seq<Bone>, after: seq<Bone>)
    requires Settled(bindings, before, after)
    ensures Settled(bindings, Wrap(shell, before), Wrap(shell, after))
    ensures IsParagraph(shell) ==> Settled(bindings, Wrap(shell, before), after)
  {
    hide Settled, IsParagraph;
    MarkSettles(bindings, Open(shell));
    MarkSettles(bindings, Close(shell));
    SettledAppend(bindings, [Open(shell)], [Open(shell)], before, after);
    SettledAppend(bindings, [Open(shell)] + before, [Open(shell)] + after, [Close(shell)], [Close(shell)]);
    if IsParagraph(shell) {
      SettledAppend(bindings, [Open(shell)], [], before, after);
      SettledAppend(bindings, [Open(shell)] + before, [] + after, [Close(shell)], []);
      assert [] + after + [] == after;
    }
  }

  lemma OccurrencesWrap(shell: Shell, inner: seq<Bone>)
    ensures BoneOccurrences(Wrap(shell, inner)) == BoneOccurrences(inner)
  {
    BoneOccurrencesAppend([Open(shell)], inner);
    BoneOccurrencesAppend([Open(shell)] + inner, [Close(shell)]);
    assert [Open(shell)][1..] == [] && [Close(shell)][1..] == [];
  }

  lemma NothingSettles(bindings: Bindings)
    ensures Settled(bindings, [], []) && Bones([]) == [] && BonesOfItems([]) == [] && BonesOfCells([]) == []
    ensures BoneOccurrences([]) == 0
  {
  }

  /** One delayed node, replaced. */
  lemma NodeSettles(bindings: Bindings, bone: Bone, es: seq<Element>)
    requires IsNodeBone(bone) && StandsFor(bone.node, bindings, es)
    ensures Settled(bindings, [bone], Bones(es)) && Meaning(bone.node, bindings) == es
  {
    hide StandsFor, ResolveDelayed;
    ResolvedStandsFor(bone.node, bindings, es);
    MeaningIsResolved(bone.node, bindings);
    FlatBones(es);
    assert [bone][1..] == [] && Bones(es) + [] == Bones(es);
    assert Resolved([bone], bindings) == Bones(es);
  }

  /** What holds no node is already settled. */
  lemma {:induction false} SettledAlready(bindings: Bindings, bones: seq<Bone>)
    requires !HasNode(bones)
    ensures Settled(bindings, bones, bones) && BoneOccurrences(bones) == 0
  {
    NoNodeResolves(bindings, bones);
    assert AllResolve(bones, bindings);
  }

  lemma {:induction false} NoNodeResolves(bindings: Bindings, bones: seq<Bone>)
    requires !HasNode(bones)
    ensures Resolved(bones, bindings) == bones && BoneOccurrences(bones) == 0
  {
    if bones != [] {
      assert [bones[0]] + bones[1..] == bones;
      HasNodeAppend([bones[0]], bones[1..]);
      NoNodeResolves(bindings, bones[1..]);
    }
  }

  // ----- trailing blanks

  predicate IsBlank(c: char) {
    c == ' ' || c == '\t'
  }

  function TrimEnd(text: string): (r: string)
    ensures r <= text
    ensures forall k | |r| <= k < |text| :: IsBlank(text[k])
    ensures r == "" || !IsBlank(r[|r| - 1])
  {
    if text == "" || !IsBlank(text[|text| - 1]) then text else TrimEnd(text[..|text| - 1])
  }

  /** A sequence without the blanks at the end of its last text, or without the
      text if only blanks were there. */
  function TrimmedTail(es: seq<Element>): seq<Element> {
    if es == [] || !es[|es| - 1].Text? then es
    else
      var init, text := es[..|es| - 1], es[|es| - 1].text;
      var kept := TrimEnd(text);
      if kept == text then es else init + if kept == "" then [] else [Text(kept)]
  }

  /** Takes the blanks off a last text, and the text itself if only blanks were
      there. */
  method TrimTrailingAsciiSpace(es: seq<Element>) returns (r: seq<Element>)
    ensures r == TrimmedTail(es) && Bones(r) == Bones(es)
  {
    TrimmedBones(es);
    if es == [] || !es[|es| - 1].Text? {
      return es;
    }
    var text := es[|es| - 1].text;
    var trimmed := TrimEnd(text);
    if |trimmed| == |text| {
      return es;
    }
    r := es[|es| - 1 := Text(trimmed)];
    assert r == es[..|es| - 1] + [Text(trimmed)];
    if trimmed == "" {
      r := r[..|r| - 1];
      assert r == es[..|es| - 1] + [];
    }
  }

  lemma TrimmedBones(es: seq<Element>)
    ensures Bones(TrimmedTail(es)) == Bones(es)
  {
    if es != [] && es[|es| - 1].Text? {
      var init, text := es[..|es| - 1], es[|es| - 1].text;
      var kept := TrimEnd(text);
      assert es == init + [Text(text)] && text[..|kept|] == kept;
      BlankTailIsNoInk(text, |kept|);
      BonesSnoc(init, Text(text));
      BonesSnoc(init, Text(kept));
      assert BonesOf(Text(kept)) == BonesOf(Text(text));
      assert kept == "" ==> Bones(init) + [] == Bones(init) && init + [] == init;
    }
  }

  lemma {:induction false} BlankHasNoInk(text: string)
    requires forall k | 0 <= k < |text| :: IsBlank(text[k])
    ensures InkOf(text) == []
  {
    if text != "" {
      assert forall k | 0 <= k < |text[1..]| :: text[1..][k] == text[k + 1];
      BlankHasNoInk(text[1..]);
    }
  }

  lemma BlankTailIsNoInk(text: string, n: nat)
    requires n <= |text| && forall k | n <= k < |text| :: IsBlank(text[k])
    ensures InkOf(text[..n]) == InkOf(text)
  {
    assert text == text[..n] + text[n..];
    InkAppend(text[..n], text[n..]);
    BlankHasNoInk(text[n..]);
  }

  // ----- the resolve pass

  predicate ActiveTagLinksAreEmpty(node: DelayedNode, bindings: Bindings) {
    && node.Active? && node.slot.kind.TagLinks?
    && node.slot.id in bindings && bindings[node.slot.id].TagLinksValue? && bindings[node.slot.id].tags == []
  }

  /** A sequence resolved: each element in turn added to what stands. */
  ghost function ResolveAll(es: seq<Element>, bindings: Bindings): seq<Element>
    decreases es, |es| + 1
  {
    ResolvePrefix(es, |es|, bindings)
  }

  ghost function ResolvePrefix(es: seq<Element>, n: nat, bindings: Bindings): seq<Element>
    requires n <= |es|
    decreases es, n
  {
    if n == 0 then []
    else ResolveNext(ResolvePrefix(es, n - 1, bindings), es[n - 1], n == |es|, bindings)
  }

  /** One element added: a delayed node by its replacement, where empty tag links
      at the end take the blanks before them along. */
  ghost function ResolveNext(standing: seq<Element>, e: Element, isLast: bool, bindings: Bindings): seq<Element>
    decreases e, 1
  {
    if e.Delayed? then
      var replacement := Meaning(e.node, bindings);
      var trims := isLast && ActiveTagLinksAreEmpty(e.node, bindings) && replacement == [];
      (if trims then TrimmedTail(standing) else standing) + replacement
    else
      standing + ResolveElement(e, bindings)
  }

  /** Nothing is left of a paragraph that held a delayed node and is empty now. */
  ghost function ResolveElement(e: Element, bindings: Bindings): seq<Element>
    requires !e.Delayed?
    decreases e, 0
  {
    match e
    case Container(kind, children, attributes) =>
      var inner := ResolveAll(children, bindings);
      if kind == Paragraph && ElementsContainDelayed(children) && inner == [] then []
      else [Container(kind, inner, attributes)]
    case Color(color, background, children) => [Color(color, background, ResolveAll(children, bindings))]
    case Wrapper(tag, children) => [Wrapper(tag, ResolveAll(children, bindings))]
    case List(shape, items) =>
      [List(shape, seq(|items|, k requires 0 <= k < |items| => ResolveListItem(items[k], bindings)))]
    case Grid(grid, cells) =>
      [Grid(grid, seq(|cells|, k requires 0 <= k < |cells| => ResolveCell(cells[k], bindings)))]
    case _ => [e]
  }

  ghost function ResolveListItem(item: ListItem, bindings: Bindings): ListItem
    decreases item
  {
    match item
    case Elements(elements, attributes) => Elements(ResolveAll(elements, bindings), attributes)
    case SubList(element) =>
      var nested := ResolveNext([], element, true, bindings);
      SubList(if |nested| == 1 then nested[0] else element)
  }

  ghost function ResolveCell(cell: Cell, bindings: Bindings): Cell
    decreases cell
  {
    Cell(ResolveAll(cell.elements, bindings))
  }

  ghost function ResolvedCells(cells: seq<Cell>, bindings: Bindings): (r: seq<Cell>)
    ensures |r| == |cells|
  {
    seq(|cells|, k requires 0 <= k < |cells| => ResolveCell(cells[k], bindings))
  }

  /** Every sublist that holds a delayed node comes back as one element. */
  ghost predicate SublistsReturn(es: seq<Element>, bindings: Bindings)
    decreases es
  {
    forall k | 0 <= k < |es| :: SublistsReturnIn(es[k], bindings)
  }

  ghost predicate SublistsReturnIn(e: Element, bindings: Bindings)
    decreases e
  {
    match e
    case Container(_, children, _) => SublistsReturn(children, bindings)
    case Color(_, _, children) => SublistsReturn(children, bindings)
    case Wrapper(_, children) => SublistsReturn(children, bindings)
    case List(_, items) => forall k | 0 <= k < |items| :: ItemReturns(items[k], bindings)
    case Grid(_, cells) => forall k | 0 <= k < |cells| :: CellReturns(cells[k], bindings)
    case _ => true
  }

  ghost predicate ItemReturns(item: ListItem, bindings: Bindings)
    decreases item
  {
    match item
    case Elements(elements, _) => SublistsReturn(elements, bindings)
    case SubList(element) =>
      && SublistsReturnIn(element, bindings)
      && (ElementContainsDelayed(element) ==> |ResolveNext([], element, true, bindings)| == 1)
  }

  ghost predicate CellReturns(cell: Cell, bindings: Bindings)
    decreases cell
  {
    SublistsReturn(cell.elements, bindings)
  }

  // ----- the resolve pass, as run

  /** When the pass succeeds: every node resolves and every sublist that holds one
      comes back as one element. */
  ghost predicate Resolvable(es: seq<Element>, bindings: Bindings) {
    AllResolve(Bones(es), bindings) && SublistsReturn(es, bindings)
  }

  method ResolveElements(es: seq<Element>, bindings: Bindings, counter: nat)
    returns (r: Result<seq<Element>, DelayedError>, counter': nat)
    ensures r.Ok? <==> Resolvable(es, bindings)
    ensures r.Ok? ==> r.value == ResolveAll(es, bindings)
    ensures r.Ok? ==> Settled(bindings, Bones(es), Bones(r.value)) && counter' == counter + Occurrences(es)
    ensures r.Ok? && !HasNode(Bones(es)) ==> r.value == es
    decreases es
  {
    hide Settled, AllResolve, HasNode, Bones, BonesOf, BoneOccurrences, ResolveNext, SublistsReturnIn;
    var resolved: seq<Element> := [];
    counter' := counter;
    NothingSettles(bindings);
    for i := 0 to |es|
      invariant resolved == ResolvePrefix(es, i, bindings)
      invariant Settled(bindings, Bones(es[..i]), Bones(resolved)) && AllResolve(Bones(es[..i]), bindings)
      invariant forall k | 0 <= k < i :: SublistsReturnIn(es[k], bindings)
      invariant counter' == counter + BoneOccurrences(Bones(es[..i]))
      invariant !HasNode(Bones(es)) ==> resolved == es[..i]
    {
      var next, n := ResolveInto(es[i], i + 1 == |es|, resolved, bindings, counter', Bones(es[..i]));
      Parts(es, i);
      if next.Err? {
        AllResolveParts(Bones(es[..i]), BonesOf(es[i]), Bones(es[i + 1..]), bindings);
        return Err(next.error), n;
      }
      PrefixBones(es, i);
      AllResolveAppend(Bones(es[..i]), BonesOf(es[i]), bindings);
      BoneOccurrencesAppend(Bones(es[..i]), BonesOf(es[i]));
      assert es[..i + 1] == es[..i] + [es[i]];
      resolved, counter' := next.value, n;
    }
    assert es[..|es|] == es;
    r := Ok(resolved);
  }

  lemma AllResolveParts(a: seq<Bone>, b: seq<Bone>, c: seq<Bone>, bindings: Bindings)
    ensures AllResolve(a + b + c, bindings) ==> AllResolve(b, bindings)
  {
    hide AllResolve;
    AllResolveAppend(a, b, bindings);
    AllResolveAppend(a + b, c, bindings);
  }

  lemma Parts(es: seq<Element>, i: nat)
    requires i < |es|
    ensures Bones(es) == Bones(es[..i]) + BonesOf(es[i]) + Bones(es[i + 1..])
    ensures HasNode(BonesOf(es[i])) ==> HasNode(Bones(es))
  {
    hide *;
    SplitAt(es, i);
    PrefixBones(es, i);
    BonesAppend(es[..i + 1], es[i + 1..]);
    HasNodeAppend(Bones(es[..i]), BonesOf(es[i]));
    HasNodeAppend(Bones(es[..i + 1]), Bones(es[i + 1..]));
  }

  /** One turn of the loop: the element is resolved and added to what stands. */
  method ResolveInto(e: Element, isLast: bool, resolved: seq<Element>, bindings: Bindings, counter: nat,
                     ghost before: seq<Bone>)
    returns (r: Result<seq<Element>, DelayedError>, counter': nat)
    requires Settled(bindings, before, Bones(resolved))
    ensures r.Ok? <==> AllResolve(BonesOf(e), bindings) && SublistsReturnIn(e, bindings)
    ensures r.Ok? ==> r.value == ResolveNext(resolved, e, isLast, bindings)
    ensures r.Ok? ==> Settled(bindings, before + BonesOf(e), Bones(r.value))
    ensures r.Ok? ==> counter' == counter + BoneOccurrences(BonesOf(e))
    ensures r.Ok? && !HasNode(BonesOf(e)) ==> r.value == resolved + [e]
    decreases e, 1
  {
    if e.Delayed? {
      counter' := counter + OccurrenceCount(e.node);
      OneNode(e.node, bindings);
      var trims := ActiveTagLinksAreEmpty(e.node, bindings) && isLast;
      var replacement := ResolveDelayed(e.node, bindings);
      if replacement.Err? {
        return Err(replacement.error), counter';
      }
      ResolvedStandsFor(e.node, bindings, replacement.value);
      var standing := resolved;
      if trims && replacement.value == [] {
        standing := TrimTrailingAsciiSpace(resolved);
      }
      NodeSettles(bindings, Node(e.node), replacement.value);
      SettledAppend(bindings, before, Bones(standing), BonesOf(e), Bones(replacement.value));
      BonesAppend(standing, replacement.value);
      return Ok(standing + replacement.value), counter';
    }
    hide Settled, AllResolve, HasNode, Bones, BonesOf, BoneOccurrences, ResolveElement;
    var one, n := ResolveOne(e, bindings, counter);
    if one.Err? {
      return Err(one.error), n;
    }
    match one.value {
      case None =>
        SettledAppend(bindings, before, Bones(resolved), BonesOf(e), []);
        assert Bones(resolved) + [] == Bones(resolved) && resolved + [] == resolved;
        return Ok(resolved), n;
      case Some(e') =>
        BonesSnoc(resolved, e');
        SettledAppend(bindings, before, Bones(resolved), BonesOf(e), BonesOf(e'));
        return Ok(resolved + [e']), n;
    }
  }

  lemma OneNode(node: DelayedNode, bindings: Bindings)
    ensures
      var b := BonesOf(Delayed(node));
      && b == [Node(node)] && HasNode(b) && BoneOccurrences(b) == OccurrenceCount(node)
      && (AllResolve(b, bindings) <==> ResolveDelayed(node, bindings).Ok?)
  {
    hide HasMeaning, ResolveDelayed;
    var b := BonesOf(Delayed(node));
    MeaningIsResolved(node, bindings);
    assert b[0].Node? && [Node(node)][1..] == [];
    assert Resolves(b[0], bindings) <==> ResolveDelayed(node, bindings).Ok?;
  }

  lemma ReturnsIn(e: Element, bindings: Bindings)
    ensures e.Container? ==> (SublistsReturnIn(e, bindings) <==> SublistsReturn(e.children, bindings))
    ensures e.Color? || e.Wrapper? ==> (SublistsReturnIn(e, bindings) <==> SublistsReturn(e.children, bindings))
    ensures e.List? ==>
              (SublistsReturnIn(e, bindings) <==> forall k | 0 <= k < |e.items| :: ItemReturns(e.items[k], bindings))
    ensures e.Grid? ==>
              (SublistsReturnIn(e, bindings) <==> forall k | 0 <= k < |e.cells| :: CellReturns(e.cells[k], bindings))
    ensures !e.Container? && !e.Color? && !e.Wrapper? && !e.List? && !e.Grid? ==> SublistsReturnIn(e, bindings)
  {
    hide SublistsReturn, ItemReturns, CellReturns;
  }

  /** An element that is no delayed node; none is left of a paragraph binding
      has emptied. */
  method ResolveOne(e: Element, bindings: Bindings, counter: nat)
    returns (r: Result<Option<Element>, DelayedError>, counter': nat)
    requires !e.Delayed?
    ensures r.Ok? <==> AllResolve(BonesOf(e), bindings) && SublistsReturnIn(e, bindings)
    ensures r.Ok? ==> ResolveElement(e, bindings) == if r.value.Some? then [r.value.value] else []
    ensures r.Ok? && r.value.Some? ==> Settled(bindings, BonesOf(e), BonesOf(r.value.value)) && !r.value.value.Delayed?
    ensures r.Ok? && r.value.None? ==> Settled(bindings, BonesOf(e), []) && HasNode(BonesOf(e))
    ensures r.Ok? && !HasNode(BonesOf(e)) ==> r.value == Some(e)
    ensures r.Ok? ==> counter' == counter + BoneOccurrences(BonesOf(e))
    decreases e, 0
  {
    hide Settled, AllResolve, HasNode, Bones, BoneOccurrences, Wrap, BonesOfItems, BonesOfCells, SublistsReturn,
         ElementsContainDelayed, ResolveAll, ItemReturns, CellReturns, ResolveListItem, ResolveCell, ResolveDelayed,
         TrimmedTail, SublistsReturnIn;
    ReturnsIn(e, bindings);
    match e {
      case Container(kind, children, attributes) =>
        var containedDelayed := ElementsContainDelayed(children);
        ContainsIsHasNode(children);
        var inner, n := ResolveElements(children, bindings, counter);
        ShellSettles(bindings, ContainerShell(kind, attributes), Bones(children),
                     Bones(ResolveAll(children, bindings)));
        if inner.Err? {
          return Err(inner.error), n;
        }
        if containedDelayed && kind == Paragraph && inner.value == [] {
          NothingSettles(bindings);
          return Ok(None), n;
        }
        return Ok(Some(Container(kind, inner.value, attributes))), n;
      case Color(color, background, children) =>
        var inner, n := ResolveElements(children, bindings, counter);
        ShellSettles(bindings, ColorShell(color, background), Bones(children), Bones(ResolveAll(children, bindings)));
        if inner.Err? {
          return Err(inner.error), n;
        }
        return Ok(Some(Color(color, background, inner.value))), n;
      case Wrapper(tag, children) =>
        var inner, n := ResolveElements(children, bindings, counter);
        ShellSettles(bindings, WrapperShell(tag), Bones(children), Bones(ResolveAll(children, bindings)));
        if inner.Err? {
          return Err(inner.error), n;
        }
        return Ok(Some(Wrapper(tag, inner.value))), n;
      case List(shape, items) =>
        var inner, n := ResolveItems(items, bindings, counter);
        ShellSettles(bindings, ListMark(shape), BonesOfItems(items),
                     if inner.Ok? then BonesOfItems(inner.value) else []);
        if inner.Err? {
          return Err(inner.error), n;
        }
        assert inner.value == seq(|items|, k requires 0 <= k < |items| => ResolveListItem(items[k], bindings));
        return Ok(Some(List(shape, inner.value))), n;
      case Grid(grid, cells) =>
        var inner, n := ResolveCells(cells, bindings, counter);
        ShellSettles(bindings, GridShell(grid), BonesOfCells(cells),
                     if inner.Ok? then BonesOfCells(inner.value) else []);
        if inner.Err? {
          return Err(inner.error), n;
        }
        assert inner.value == seq(|cells|, k requires 0 <= k < |cells| => ResolveCell(cells[k], bindings));
        return Ok(Some(Grid(grid, inner.value))), n;
      case _ =>
        LeafHasNoNode(e);
        SettledAlready(bindings, BonesOf(e));
        SettledResolves(bindings, BonesOf(e), BonesOf(e));
        return Ok(Some(e)), counter;
    }
  }

  lemma LeafHasNoNode(e: Element)
    requires !e.Delayed? && !e.Container? && !e.Color? && !e.Wrapper? && !e.List? && !e.Grid?
    ensures !HasNode(BonesOf(e))
  {
  }

  lemma SettledResolves(bindings: Bindings, before: seq<Bone>, after: seq<Bone>)
    requires Settled(bindings, before, after)
    ensures AllResolve(before, bindings) && !HasNode(after)
  {
  }

  lemma ShellSettles(bindings: Bindings, shell: Shell, before: seq<Bone>, after: seq<Bone>)
    ensures Settled(bindings, before, after) ==> Settled(bindings, Wrap(shell, before), Wrap(shell, after))
    ensures Settled(bindings, before, after) && IsParagraph(shell) ==> Settled(bindings, Wrap(shell, before), after)
    ensures AllResolve(Wrap(shell, before), bindings) <==> AllResolve(before, bindings)
    ensures BoneOccurrences(Wrap(shell, before)) == BoneOccurrences(before)
    ensures HasNode(Wrap(shell, before)) <==> HasNode(before)
  {
    hide Settled, AllResolve, HasNode, BoneOccurrences, IsParagraph;
    if Settled(bindings, before, after) {
      SettledWrap(bindings, shell, before, after);
    }
    MarksResolve(bindings, shell);
    AllResolveAppend([Open(shell)], before, bindings);
    AllResolveAppend([Open(shell)] + before, [Close(shell)], bindings);
    OccurrencesWrap(shell, before);
    HasNodeWrap(shell, before);
  }

  lemma MarksResolve(bindings: Bindings, shell: Shell)
    ensures AllResolve([Open(shell)], bindings) && AllResolve([Close(shell)], bindings)
  {
  }

  ghost predicate ItemsResolve(items: seq<ListItem>, bindings: Bindings) {
    && AllResolve(BonesOfItems(items), bindings)
    && forall k | 0 <= k < |items| :: ItemReturns(items[k], bindings)
  }

  method ResolveItems(items: seq<ListItem>, bindings: Bindings, counter: nat)
    returns (r: Result<seq<ListItem>, DelayedError>, counter': nat)
    ensures r.Ok? <==> ItemsResolve(items, bindings)
    ensures r.Ok? ==> |r.value| == |items| && forall k | 0 <= k < |items| ::
            r.value[k] == ResolveListItem(items[k], bindings)
    ensures r.Ok? ==> Settled(bindings, BonesOfItems(items), BonesOfItems(r.value))
    ensures r.Ok? ==> counter' == counter + BoneOccurrences(BonesOfItems(items))
    ensures r.Ok? && !HasNode(BonesOfItems(items)) ==> r.value == items
    decreases items
  {
    hide Settled, AllResolve, HasNode, BonesOfItems, BonesOfItem, BoneOccurrences, ItemReturns, ResolveListItem;
    var done: seq<ListItem> := [];
    counter' := counter;
    NothingSettles(bindings);
    for i := 0 to |items|
      invariant |done| == i && forall k | 0 <= k < i :: done[k] == ResolveListItem(items[k], bindings)
      invariant forall k | 0 <= k < i :: ItemReturns(items[k], bindings)
      invariant Settled(bindings, BonesOfItems(items[..i]), BonesOfItems(done))
                && AllResolve(BonesOfItems(items[..i]), bindings)
      invariant counter' == counter + BoneOccurrences(BonesOfItems(items[..i]))
      invariant !HasNode(BonesOfItems(items)) ==> done == items[..i]
    {
      var item, n := ResolveItem(items[i], bindings, counter');
      ItemParts(items, i);
      if item.Err? {
        AllResolveParts(BonesOfItems(items[..i]), BonesOfItem(items[i]), BonesOfItems(items[i + 1..]), bindings);
        return Err(item.error), n;
      }
      BonesOfItemsAppend(done, [item.value]);
      SingleItemBones(item.value);
      AllResolveAppend(BonesOfItems(items[..i]), BonesOfItem(items[i]), bindings);
      SettledAppend(bindings, BonesOfItems(items[..i]), BonesOfItems(done), BonesOfItem(items[i]),
                    BonesOfItem(item.value));
      BoneOccurrencesAppend(BonesOfItems(items[..i]), BonesOfItem(items[i]));
      done, counter' := done + [item.value], n;
    }
    assert items[..|items|] == items;
    r := Ok(done);
  }

  lemma ItemParts(items: seq<ListItem>, i: nat)
    requires i < |items|
    ensures items[..i + 1] == items[..i] + [items[i]]
    ensures BonesOfItems(items[..i + 1]) == BonesOfItems(items[..i]) + BonesOfItem(items[i])
    ensures BonesOfItems(items) == BonesOfItems(items[..i]) + BonesOfItem(items[i]) + BonesOfItems(items[i + 1..])
    ensures HasNode(BonesOfItem(items[i])) ==> HasNode(BonesOfItems(items))
  {
    hide *;
    SplitAt(items, i);
    BonesOfItemsAppend(items[..i], [items[i]]);
    SingleItemBones(items[i]);
    BonesOfItemsAppend(items[..i + 1], items[i + 1..]);
    HasNodeAppend(BonesOfItems(items[..i]), BonesOfItem(items[i]));
    HasNodeAppend(BonesOfItems(items[..i + 1]), BonesOfItems(items[i + 1..]));
  }

  /** A sublist is resolved as a sequence of one, and must come back as one. */
  method ResolveItem(item: ListItem, bindings: Bindings, counter: nat)
    returns (r: Result<ListItem, DelayedError>, counter': nat)
    ensures r.Ok? <==> AllResolve(BonesOfItem(item), bindings) && ItemReturns(item, bindings)
    ensures r.Ok? ==> r.value == ResolveListItem(item, bindings)
    ensures r.Ok? ==> Settled(bindings, BonesOfItem(item), BonesOfItem(r.value))
    ensures r.Ok? ==> counter' == counter + BoneOccurrences(BonesOfItem(item))
    ensures r.Ok? && !HasNode(BonesOfItem(item)) ==> r.value == item
    decreases item
  {
    hide Settled, AllResolve, HasNode, Bones, BoneOccurrences, Wrap, ResolveAll, ResolveNext, SublistsReturn,
         SublistsReturnIn, ElementContainsDelayed;
    match item {
      case Elements(elements, attributes) =>
        var inner, n := ResolveElements(elements, bindings, counter);
        ShellSettles(bindings, ItemMark(attributes), Bones(elements), Bones(ResolveAll(elements, bindings)));
        if inner.Err? {
          return Err(inner.error), n;
        }
        return Ok(Elements(inner.value, attributes)), n;
      case SubList(element) =>
        NothingSettles(bindings);
        var nested, n := ResolveInto(element, true, [], bindings, counter, []);
        assert [] + BonesOf(element) == BonesOf(element);
        ghost var after := Bones(ResolveNext([], element, true, bindings));
        StuckIsNode(bindings, element, after);
        ContainsOneIsHasNode(element);
        ShellSettles(bindings, SubListMark, StuckBones(element), after);
        if nested.Err? {
          return Err(nested.error), n;
        }
        if |nested.value| != 1 {
          return Err(UnresolvedGeneratedOwner), n;
        }
        OneLeft(bindings, StuckBones(element), nested.value);
        return Ok(SubList(nested.value[0])), n;
    }
  }

  lemma OneLeft(bindings: Bindings, before: seq<Bone>, nested: seq<Element>)
    requires |nested| == 1 && Settled(bindings, before, Bones(nested))
    ensures Bones(nested) == StuckBones(nested[0])
  {
    assert nested[1..] == [] && Bones(nested) == BonesOf(nested[0]);
    ContainsOneIsHasNode(nested[0]);
  }

  /** A delayed node counts and resolves the same as a sublist. */
  lemma StuckIsNode(bindings: Bindings, e: Element, after: seq<Bone>)
    ensures Settled(bindings, BonesOf(e), after) ==> Settled(bindings, StuckBones(e), after)
    ensures AllResolve(StuckBones(e), bindings) <==> AllResolve(BonesOf(e), bindings)
    ensures BoneOccurrences(StuckBones(e)) == BoneOccurrences(BonesOf(e))
    ensures HasNode(StuckBones(e)) <==> HasNode(BonesOf(e))
  {
    if e.Delayed? {
      var n, s := [Node(e.node)], [Stuck(e.node)];
      assert BonesOf(e) == n && StuckBones(e) == s && n[1..] == [] && s[1..] == [];
      assert n[0].Node? && s[0].Stuck?;
      assert Resolves(n[0], bindings) <==> Resolves(s[0], bindings);
      assert Resolved(n, bindings) == Resolved(s, bindings);
    }
  }

  ghost predicate CellsResolve(cells: seq<Cell>, bindings: Bindings) {
    && AllResolve(BonesOfCells(cells), bindings)
    && forall k | 0 <= k < |cells| :: CellReturns(cells[k], bindings)
  }

  method ResolveCells(cells: seq<Cell>, bindings: Bindings, counter: nat)
    returns (r: Result<seq<Cell>, DelayedError>, counter': nat)
    ensures r.Ok? <==> CellsResolve(cells, bindings)
    ensures r.Ok? ==> |r.value| == |cells| && forall k | 0 <= k < |cells| ::
            r.value[k] == ResolveCell(cells[k], bindings)
    ensures r.Ok? ==> Settled(bindings, BonesOfCells(cells), BonesOfCells(r.value))
    ensures r.Ok? ==>
              forall k | 0 <= k < |cells| :: Settled(bindings, Bones(cells[k].elements), Bones(r.value[k].elements))
    ensures r.Ok? ==> counter' == counter + BoneOccurrences(BonesOfCells(cells))
    ensures r.Ok? && !HasNode(BonesOfCells(cells)) ==> r.value == cells
    decreases cells
  {
    hide Settled, AllResolve, HasNode, BonesOfCells, Bones, Wrap, BoneOccurrences, ResolveAll, SublistsReturn;
    var done: seq<Cell> := [];
    counter' := counter;
    NothingSettles(bindings);
    for i := 0 to |cells|
      invariant |done| == i && forall k | 0 <= k < i :: done[k] == ResolveCell(cells[k], bindings)
      invariant forall k | 0 <= k < i :: CellReturns(cells[k], bindings)
      invariant Settled(bindings, BonesOfCells(cells[..i]), BonesOfCells(done))
                && AllResolve(BonesOfCells(cells[..i]), bindings)
      invariant forall k | 0 <= k < i :: Settled(bindings, Bones(cells[k].elements), Bones(done[k].elements))
      invariant counter' == counter + BoneOccurrences(BonesOfCells(cells[..i]))
      invariant !HasNode(BonesOfCells(cells)) ==> done == cells[..i]
    {
      var inner, n := ResolveElements(cells[i].elements, bindings, counter');
      ShellSettles(bindings, CellMark, Bones(cells[i].elements), Bones(ResolveAll(cells[i].elements, bindings)));
      CellParts(cells, i);
      if inner.Err? {
        AllResolveParts(BonesOfCells(cells[..i]), BonesOfCell(cells[i]), BonesOfCells(cells[i + 1..]), bindings);
        return Err(inner.error), n;
      }
      var cell := Cell(inner.value);
      BonesOfCellsAppend(done, [cell]);
      SingleCellBones(cell);
      AllResolveAppend(BonesOfCells(cells[..i]), BonesOfCell(cells[i]), bindings);
      SettledAppend(bindings, BonesOfCells(cells[..i]), BonesOfCells(done), BonesOfCell(cells[i]), BonesOfCell(cell));
      BoneOccurrencesAppend(BonesOfCells(cells[..i]), BonesOfCell(cells[i]));
      done, counter' := done + [cell], n;
    }
    assert cells[..|cells|] == cells;
    r := Ok(done);
  }

  lemma CellParts(cells: seq<Cell>, i: nat)
    requires i < |cells|
    ensures cells[..i + 1] == cells[..i] + [cells[i]]
    ensures BonesOfCells(cells[..i + 1]) == BonesOfCells(cells[..i]) + BonesOfCell(cells[i])
    ensures BonesOfCells(cells) == BonesOfCells(cells[..i]) + BonesOfCell(cells[i]) + BonesOfCells(cells[i + 1..])
    ensures HasNode(BonesOfCell(cells[i])) ==> HasNode(BonesOfCells(cells))
  {
    hide *;
    SplitAt(cells, i);
    BonesOfCellsAppend(cells[..i], [cells[i]]);
    SingleCellBones(cells[i]);
    BonesOfCellsAppend(cells[..i + 1], cells[i + 1..]);
    HasNodeAppend(BonesOfCells(cells[..i]), BonesOfCell(cells[i]));
    HasNodeAppend(BonesOfCells(cells[..i + 1]), BonesOfCells(cells[i + 1..]));
  }
}
