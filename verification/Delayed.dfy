/** The suppression pass as it runs: children first, then the texts and seams of
    each sequence, with a counter of the slots dropped. */
module Delayed {
  import opened Bytes
  import opened Seqs
  import opened Tree
  import opened DelayedSpec
  import opened Seam
  import opened Suppression

  method Classify(c: Classifier, node: DelayedNode) returns (r: Result<bool, DelayedError>, count: nat)
    ensures r.Ok? <==> SlotsBound(c, node)
    ensures r.Ok? ==> r.value == IsSeam(c, node) && count == if IsSeam(c, node) then OccurrenceCount(node) else 0
    ensures r.Err? ==> r.error == BindingSchemaMismatch
  {
    count := 0;
    if node.TypographyBoundary? {
      return Ok(true), 0;
    }
    if c.Static? {
      return Ok(node.Suppressed? && node.slots == []), 0;
    }
    if !node.Suppressed? {
      return Ok(false), 0;
    }
    for i := 0 to |node.slots|
      invariant forall k | 0 <= k < i :: IsBound(node.slots[k], c.bindings)
    {
      if !IsBound(node.slots[i], c.bindings) {
        return Err(BindingSchemaMismatch), 0;
      }
    }
    return Ok(true), |node.slots|;
  }

  // ----- what each of the two loops counts and checks

  /** Slots of the seams below an element. */
  function InnerSlots(c: Classifier, e: Element): nat {
    if e.Delayed? then 0 else SeamSlots(c, BonesOf(e))
  }

  predicate InnerBound(c: Classifier, e: Element) {
    e.Delayed? || SeamsBound(c, BonesOf(e))
  }

  /** Slots of an element that is a seam itself. */
  function OwnSlots(c: Classifier, e: Element): nat {
    if e.Delayed? && IsSeam(c, e.node) then OccurrenceCount(e.node) else 0
  }

  predicate OwnBound(c: Classifier, e: Element) {
    e.Delayed? ==> SlotsBound(c, e.node)
  }

  function InnerSlotsAll(c: Classifier, es: seq<Element>): nat {
    if es == [] then 0 else InnerSlotsAll(c, es[..|es| - 1]) + InnerSlots(c, es[|es| - 1])
  }

  function OwnSlotsAll(c: Classifier, es: seq<Element>): nat {
    if es == [] then 0 else OwnSlotsAll(c, es[..|es| - 1]) + OwnSlots(c, es[|es| - 1])
  }

  predicate InnerBoundAll(c: Classifier, es: seq<Element>) {
    forall k | 0 <= k < |es| :: InnerBound(c, es[k])
  }

  predicate OwnBoundAll(c: Classifier, es: seq<Element>) {
    forall k | 0 <= k < |es| :: OwnBound(c, es[k])
  }

  lemma CountNext(c: Classifier, es: seq<Element>, i: nat)
    requires i < |es|
    ensures InnerSlotsAll(c, es[..i + 1]) == InnerSlotsAll(c, es[..i]) + InnerSlots(c, es[i])
    ensures OwnSlotsAll(c, es[..i + 1]) == OwnSlotsAll(c, es[..i]) + OwnSlots(c, es[i])
  {
    hide InnerSlots, OwnSlots;
    assert es[..i + 1][..i] == es[..i];
  }

  lemma NothingCounted(c: Classifier, es: seq<Element>)
    ensures InnerSlotsAll(c, es[..0]) == 0 && OwnSlotsAll(c, es[..0]) == 0
  {
  }

  /** One element's seams are those below it and, once visited, itself. */
  lemma OneCounted(e: Element, pass: Pass)
    ensures
      var e' := SuppressElement(e, pass);
      && SeamSlots(pass.c, BonesOf(e)) == InnerSlots(pass.c, e) + OwnSlots(pass.c, e')
      && (SeamsBound(pass.c, BonesOf(e)) <==> InnerBound(pass.c, e) && OwnBound(pass.c, e'))
  {
    hide SuppressAll, SuppressItems, SuppressCells, BonesOf;
    if e.Delayed? {
      NodeBones(e);
      KeptOne(pass.c, Node(e.node));
    }
  }

  lemma NodeBones(e: Element)
    requires e.Delayed?
    ensures BonesOf(e) == [Node(e.node)]
  {
  }

  /** A sequence's seams are those the two loops count and check. */
  lemma {:induction false} AllCounted(es: seq<Element>, pass: Pass)
    ensures
      var each := SuppressEach(es, pass);
      && SeamSlots(pass.c, Bones(es)) == InnerSlotsAll(pass.c, es) + OwnSlotsAll(pass.c, each)
      && (SeamsBound(pass.c, Bones(es)) <==> InnerBoundAll(pass.c, es) && OwnBoundAll(pass.c, each))
    decreases |es|
  {
    hide InnerSlots, OwnSlots, InnerBound, OwnBound, InnerBoundAll, OwnBoundAll, SeamSlots, SeamsBound, Bones,
         SuppressElement;
    var each := SuppressEach(es, pass);
    BoundLast(pass.c, es);
    BoundLast(pass.c, each);
    if es == [] {
      NoBones(pass.c);
    } else {
      var n := |es| - 1;
      AllCounted(es[..n], pass);
      OneCounted(es[n], pass);
      assert es == es[..n] + [es[n]] && SuppressEach(es[..n], pass) == each[..n];
      BonesSnoc(es[..n], es[n]);
      KeptAppend(pass.c, Bones(es[..n]), BonesOf(es[n]));
      SeamsAppend(pass.c, Bones(es[..n]), BonesOf(es[n]));
    }
  }

  lemma BoundLast(c: Classifier, es: seq<Element>)
    ensures es == [] ==> InnerBoundAll(c, es) && OwnBoundAll(c, es)
    ensures
      var n := |es| - 1;
      es != [] ==>
        && (InnerBoundAll(c, es) <==> InnerBoundAll(c, es[..n]) && InnerBound(c, es[n]))
        && (OwnBoundAll(c, es) <==> OwnBoundAll(c, es[..n]) && OwnBound(c, es[n]))
  {
    hide InnerBound, OwnBound;
    assert forall k | 0 <= k < |es| - 1 :: es[..|es| - 1][k] == es[k];
  }

  lemma NoBones(c: Classifier)
    ensures Bones([]) == [] && SeamSlots(c, []) == 0 && SeamsBound(c, [])
  {
  }

  // ----- the pass

  /** One sequence: children first, then the texts and seams of each group are
      rewritten together. It fails exactly if some seam's slots are unbound. */
  method RewriteElements(es: seq<Element>, pass: Pass, counter: nat)
    returns (r: Result<seq<Element>, DelayedError>, counter': nat)
    ensures r.Ok? <==> SeamsBound(pass.c, Bones(es))
    ensures r.Ok? ==> r.value == SuppressAll(es, pass) && counter' == counter + SeamSlots(pass.c, Bones(es))
    ensures r.Err? ==> r.error == BindingSchemaMismatch
    decreases es
  {
    hide SeamsBound, SeamSlots, Bones, InnerSlots, InnerBound, InnerSlotsAll, OwnSlotsAll, OwnBoundAll, SuppressElement,
         Regrouped;
    var visited: seq<Element> := [];
    counter' := counter;
    AllCounted(es, pass);
    NothingCounted(pass.c, es);
    for i := 0 to |es|
      invariant |visited| == i && forall k | 0 <= k < i :: visited[k] == SuppressElement(es[k], pass)
      invariant forall k | 0 <= k < i :: InnerBound(pass.c, es[k])
      invariant counter' == counter + InnerSlotsAll(pass.c, es[..i])
    {
      CountNext(pass.c, es, i);
      var child, n := VisitChildren(es[i], pass, counter');
      if child.Err? {
        return Err(child.error), n;
      }
      visited, counter' := visited + [child.value], n;
    }
    assert es[..|es|] == es && visited == SuppressEach(es, pass);
    r, counter' := RegroupElements(visited, pass, counter');
  }

  /** The second loop: texts and seams collect in a group that is flushed before
      anything else is written. */
  method RegroupElements(visited: seq<Element>, pass: Pass, counter: nat)
    returns (r: Result<seq<Element>, DelayedError>, counter': nat)
    ensures r.Ok? <==> OwnBoundAll(pass.c, visited)
    ensures r.Ok? ==>
              r.value == Regrouped([], [], visited, pass) && counter' == counter + OwnSlotsAll(pass.c, visited)
    ensures r.Err? ==> r.error == BindingSchemaMismatch
  {
    hide IsSeam, SlotsBound, OwnSlotsAll, FlushedGroup, IsSeamOnly, LastElementIsUrlOwner, OccurrenceCount;
    var output: seq<Element>, group: seq<Element> := [], [];
    counter' := counter;
    NothingCounted(pass.c, visited);
    assert visited[0..] == visited;
    for i := 0 to |visited|
      invariant forall k | 0 <= k < i :: OwnBound(pass.c, visited[k])
      invariant counter' == counter + OwnSlotsAll(pass.c, visited[..i])
      invariant Regrouped(output, group, visited[i..], pass) == Regrouped([], [], visited, pass)
    {
      var element := visited[i];
      assert visited[i..][0] == element && visited[i..][1..] == visited[i + 1..];
      CountNext(pass.c, visited, i);
      var seam := false;
      if element.Delayed? {
        var verdict, slots := Classify(pass.c, element.node);
        if verdict.Err? {
          assert !OwnBound(pass.c, visited[i]);
          return Err(verdict.error), counter';
        }
        seam, counter' := verdict.value, counter' + slots;
      }
      if element.Text? || seam {
        group := group + [element];
      } else {
        var flushed, suppressionOnly := FlushGroup(Members(group), output, pass.typography, pass.oracle);
        output, group := flushed, [];
        if !(suppressionOnly && element.LineBreak? && EndsWithBreak(output)) {
          output := output + [element];
        }
      }
    }
    assert visited[|visited|..] == [] && visited[..|visited|] == visited;
    var flushed, suppressionOnly := FlushGroup(Members(group), output, pass.typography, pass.oracle);
    output := flushed;
    if pass.typography && suppressionOnly && EndsWithBreak(output) {
      output := output[..|output| - 1];
    }
    r := Ok(output);
  }

  /** Rewrites the children of one element in place. */
  method VisitChildren(e: Element, pass: Pass, counter: nat)
    returns (r: Result<Element, DelayedError>, counter': nat)
    ensures r.Ok? <==> InnerBound(pass.c, e)
    ensures r.Ok? ==> r.value == SuppressElement(e, pass) && counter' == counter + InnerSlots(pass.c, e)
    ensures r.Err? ==> r.error == BindingSchemaMismatch
    decreases e
  {
    hide SeamsBound, SeamSlots, Bones, Wrap, BonesOfItems, BonesOfCells, SuppressAll, SuppressItems, SuppressCells;
    if e.Container? {
      ShellCounts(pass.c, ContainerShell(e.kind, e.attributes), Bones(e.children));
      var syntheticOwner := IsOwner(e.kind) && e.children != [];
      var children, n := RewriteElements(e.children, pass, counter);
      if children.Err? {
        return Err(children.error), n;
      }
      if syntheticOwner && children.value == [] {
        return Ok(Delayed(TypographyBoundary)), n;
      }
      return Ok(Container(e.kind, children.value, e.attributes)), n;
    }
    if e.Color? || e.Wrapper? {
      ghost var shell := if e.Color? then ColorShell(e.color, e.background) else WrapperShell(e.tag);
      ShellCounts(pass.c, shell, Bones(e.children));
      var children, n := RewriteElements(e.children, pass, counter);
      if children.Err? {
        return Err(children.error), n;
      }
      return Ok(if e.Color? then Color(e.color, e.background, children.value) else Wrapper(e.tag, children.value)), n;
    }
    if e.List? {
      ShellCounts(pass.c, ListMark(e.shape), BonesOfItems(e.items));
      var items, n := VisitItems(e.items, pass, counter);
      if items.Err? {
        return Err(items.error), n;
      }
      return Ok(List(e.shape, items.value)), n;
    }
    if e.Grid? {
      ShellCounts(pass.c, GridShell(e.grid), BonesOfCells(e.cells));
      var cells, n := VisitCells(e.cells, pass, counter);
      if cells.Err? {
        return Err(cells.error), n;
      }
      return Ok(Grid(e.grid, cells.value)), n;
    }
    LeafCounts(pass.c, e);
    return Ok(e), counter;
  }

  lemma ShellCounts(c: Classifier, shell: Shell, inner: seq<Bone>)
    ensures SeamSlots(c, Wrap(shell, inner)) == SeamSlots(c, inner)
    ensures SeamsBound(c, Wrap(shell, inner)) <==> SeamsBound(c, inner)
  {
    hide Wrap, SeamSlots, SeamsBound;
    KeptWrap(c, shell, inner);
    WrapSeams(c, shell, inner);
  }

  lemma LeafCounts(c: Classifier, e: Element)
    requires !e.Container? && !e.Color? && !e.Wrapper? && !e.List? && !e.Grid?
    ensures InnerSlots(c, e) == 0 && InnerBound(c, e)
  {
    if e.Text? {
      InkIsDropped(c, BonesOf(e));
    } else if !e.Delayed? {
      assert BonesOf(e) == [BonesOf(e)[0]];
      KeptOne(c, BonesOf(e)[0]);
    }
  }

  method VisitItems(items: seq<ListItem>, pass: Pass, counter: nat)
    returns (r: Result<seq<ListItem>, DelayedError>, counter': nat)
    ensures r.Ok? <==> SeamsBound(pass.c, BonesOfItems(items))
    ensures r.Ok? ==>
              r.value == SuppressItems(items, pass) && counter' == counter + SeamSlots(pass.c, BonesOfItems(items))
    ensures r.Err? ==> r.error == BindingSchemaMismatch
    decreases items
  {
    hide SeamsBound, SeamSlots, BonesOfItems, BonesOfItem, SuppressItem;
    var done: seq<ListItem> := [];
    counter' := counter;
    NothingToVisit(pass.c);
    for i := 0 to |items|
      invariant |done| == i && forall k | 0 <= k < i :: done[k] == SuppressItem(items[k], pass)
      invariant SeamsBound(pass.c, BonesOfItems(items[..i]))
      invariant counter' == counter + SeamSlots(pass.c, BonesOfItems(items[..i]))
    {
      ItemCounts(pass.c, items, i);
      var item, n := VisitItem(items[i], pass, counter');
      if item.Err? {
        SeamsOfItem(pass.c, items, i);
        return Err(item.error), n;
      }
      done, counter' := done + [item.value], n;
    }
    assert items[..|items|] == items;
    r := Ok(done);
  }

  lemma NothingToVisit(c: Classifier)
    ensures BonesOfItems([]) == [] && BonesOfCells([]) == [] && SeamSlots(c, []) == 0 && SeamsBound(c, [])
  {
  }

  lemma ItemCounts(c: Classifier, items: seq<ListItem>, i: nat)
    requires i < |items|
    ensures
      var before, next := BonesOfItems(items[..i]), BonesOfItem(items[i]);
      && SeamSlots(c, BonesOfItems(items[..i + 1])) == SeamSlots(c, before) + SeamSlots(c, next)
      && (SeamsBound(c, BonesOfItems(items[..i + 1])) <==> SeamsBound(c, before) && SeamsBound(c, next))
  {
    hide *;
    SplitAt(items, i);
    BonesOfItemsAppend(items[..i], [items[i]]);
    SingleItemBones(items[i]);
    KeptAppend(c, BonesOfItems(items[..i]), BonesOfItem(items[i]));
    SeamsAppend(c, BonesOfItems(items[..i]), BonesOfItem(items[i]));
  }

  method VisitItem(item: ListItem, pass: Pass, counter: nat)
    returns (r: Result<ListItem, DelayedError>, counter': nat)
    ensures r.Ok? <==> SeamsBound(pass.c, BonesOfItem(item))
    ensures r.Ok? ==>
              r.value == SuppressItem(item, pass) && counter' == counter + SeamSlots(pass.c, BonesOfItem(item))
    ensures r.Err? ==> r.error == BindingSchemaMismatch
    decreases item
  {
    hide SeamsBound, SeamSlots, Bones, BonesOf, Wrap, SuppressAll, SuppressElement;
    match item {
      case Elements(elements, attributes) =>
        ShellCounts(pass.c, ItemMark(attributes), Bones(elements));
        var inner, n := RewriteElements(elements, pass, counter);
        if inner.Err? {
          return Err(inner.error), n;
        }
        return Ok(Elements(inner.value, attributes)), n;
      case SubList(element) =>
        ShellCounts(pass.c, SubListMark, StuckBones(element));
        StuckCounts(pass.c, element);
        var inner, n := VisitChildren(element, pass, counter);
        if inner.Err? {
          return Err(inner.error), n;
        }
        return Ok(SubList(inner.value)), n;
    }
  }

  /** A sublist that is a delayed node is neither counted nor checked here. */
  lemma StuckCounts(c: Classifier, e: Element)
    ensures SeamSlots(c, StuckBones(e)) == InnerSlots(c, e)
    ensures SeamsBound(c, StuckBones(e)) <==> InnerBound(c, e)
  {
    if e.Delayed? {
      KeptOne(c, Stuck(e.node));
    }
  }

  method VisitCells(cells: seq<Cell>, pass: Pass, counter: nat)
    returns (r: Result<seq<Cell>, DelayedError>, counter': nat)
    ensures r.Ok? <==> SeamsBound(pass.c, BonesOfCells(cells))
    ensures r.Ok? ==>
              r.value == SuppressCells(cells, pass) && counter' == counter + SeamSlots(pass.c, BonesOfCells(cells))
    ensures r.Err? ==> r.error == BindingSchemaMismatch
    decreases cells
  {
    hide SeamsBound, SeamSlots, BonesOfCells, Bones, Wrap, SuppressAll;
    var done: seq<Cell> := [];
    counter' := counter;
    NothingToVisit(pass.c);
    for i := 0 to |cells|
      invariant |done| == i && forall k | 0 <= k < i :: done[k] == SuppressCell(cells[k], pass)
      invariant SeamsBound(pass.c, BonesOfCells(cells[..i]))
      invariant counter' == counter + SeamSlots(pass.c, BonesOfCells(cells[..i]))
    {
      CellCounts(pass.c, cells, i);
      ShellCounts(pass.c, CellMark, Bones(cells[i].elements));
      var inner, n := RewriteElements(cells[i].elements, pass, counter');
      if inner.Err? {
        SeamsOfCell(pass.c, cells, i);
        return Err(inner.error), n;
      }
      done, counter' := done + [Cell(inner.value)], n;
    }
    assert cells[..|cells|] == cells;
    r := Ok(done);
  }

  lemma CellCounts(c: Classifier, cells: seq<Cell>, i: nat)
    requires i < |cells|
    ensures
      var before, next := BonesOfCells(cells[..i]), BonesOfCell(cells[i]);
      && SeamSlots(c, BonesOfCells(cells[..i + 1])) == SeamSlots(c, before) + SeamSlots(c, next)
      && (SeamsBound(c, BonesOfCells(cells[..i + 1])) <==> SeamsBound(c, before) && SeamsBound(c, next))
  {
    hide *;
    SplitAt(cells, i);
    BonesOfCellsAppend(cells[..i], [cells[i]]);
    SingleCellBones(cells[i]);
    KeptAppend(c, BonesOfCells(cells[..i]), BonesOfCell(cells[i]));
    SeamsAppend(c, BonesOfCells(cells[..i]), BonesOfCell(cells[i]));
  }
}
