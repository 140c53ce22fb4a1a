/** Table-of-contents entries of a delayed tree: their numbering, and why binding
    keeps it. */
module Toc {
  import opened Bytes
  import opened Seqs
  import opened Tree
  import opened DelayedSpec
  import opened NodeMeaning
  import opened Suppression
  import opened Binding
  import opened TreeBinding
  import opened Headings
  import opened Segments

  // ----- references that end

  ghost predicate Lower(bones: seq<Bone>, rank: seq<nat>, r: nat) {
    forall k | 0 <= k < |bones| && bones[k].NoteRef? && IsNote(bones[k].index, |rank|) :: rank[bones[k].index - 1] < r
  }

  /** No footnote refers to itself, directly or through others: each has a rank
      above those it refers to. */
  ghost predicate Acyclic(footnotes: seq<Cell>, rank: seq<nat>) {
    && |rank| == |footnotes|
    && forall i | 0 <= i < |footnotes| :: Lower(Bones(footnotes[i].elements), rank, rank[i])
  }

  lemma LowerAppend(a: seq<Bone>, b: seq<Bone>, rank: seq<nat>, r: nat)
    ensures Lower(a + b, rank, r) <==> Lower(a, rank, r) && Lower(b, rank, r)
  {
    assert forall k | 0 <= k < |a| :: (a + b)[k] == a[k];
    assert forall k | 0 <= k < |b| :: (a + b)[|a| + k] == b[k];
  }

  lemma LowerWrap(shell: Shell, inner: seq<Bone>, rank: seq<nat>, r: nat)
    ensures Lower(Wrap(shell, inner), rank, r) <==> Lower(inner, rank, r)
  {
    LowerAppend([Open(shell)], inner, rank, r);
    LowerAppend([Open(shell)] + inner, [Close(shell)], rank, r);
  }

  // ----- the visit, as run

  /** Visits the headings of a sequence; `seen` is what the visitor collected. */
  method VisitHeadings(es: seq<Element>, footnotes: seq<Cell>, seen: seq<Title>, ghost rank: seq<nat>, ghost r: nat)
    returns (seen': seq<Title>)
    requires |rank| == |footnotes| && Acyclic(footnotes, rank) && Lower(Bones(es), rank, r)
    ensures seen' == seen + Titles(es, footnotes, rank, r)
    decreases r, es, 1
  {
    hide Acyclic, Lower, Bones, TitlesOf;
    seen' := seen;
    ghost var all := Titles(es, footnotes, rank, r);
    assert es[0..] == es;
    for i := 0 to |es|
      invariant Lower(Bones(es[i..]), rank, r)
      invariant seen' + Titles(es[i..], footnotes, rank, r) == seen + all
    {
      ghost var rest := es[i..];
      assert rest[0] == es[i] && rest[1..] == es[i + 1..];
      BonesHead(rest);
      LowerAppend(BonesOf(rest[0]), Bones(rest[1..]), rank, r);
      ghost var was := seen';
      seen' := VisitHeading(es[i], footnotes, seen', rank, r);
      Regroup(was, TitlesOf(rest[0], footnotes, rank, r), Titles(rest[1..], footnotes, rank, r));
    }
  }

  lemma BonesHead(es: seq<Element>)
    requires es != []
    ensures Bones(es) == BonesOf(es[0]) + Bones(es[1..])
  {
  }

  method VisitHeading(e: Element, footnotes: seq<Cell>, seen: seq<Title>, ghost rank: seq<nat>, ghost r: nat)
    returns (seen': seq<Title>)
    requires |rank| == |footnotes| && Acyclic(footnotes, rank) && Lower(BonesOf(e), rank, r)
    ensures seen' == seen + TitlesOf(e, footnotes, rank, r)
    decreases r, e, 0
  {
    hide Acyclic, Lower, Wrap, Bones, BonesOfItems, BonesOfCells, Titles, TitlesOfItems, TitlesOfCells;
    seen' := seen;
    match e {
      case Container(kind, children, attributes) =>
        var shell := ContainerShell(kind, attributes);
        LowerWrap(shell, Bones(children), rank, r);
        if kind.Header? && kind.hasToc {
          seen' := seen' + [Title(shell, children)];
        }
        Regroup(seen, if IsHeading(shell) then [Title(shell, children)] else [], Titles(children, footnotes, rank, r));
        seen' := VisitHeadings(children, footnotes, seen', rank, r);
      case Color(color, background, children) =>
        LowerWrap(ColorShell(color, background), Bones(children), rank, r);
        seen' := VisitHeadings(children, footnotes, seen', rank, r);
      case Wrapper(tag, children) =>
        LowerWrap(WrapperShell(tag), Bones(children), rank, r);
        seen' := VisitHeadings(children, footnotes, seen', rank, r);
      case List(shape, items) =>
        LowerWrap(ListMark(shape), BonesOfItems(items), rank, r);
        seen' := VisitItemHeadings(items, footnotes, seen', rank, r);
      case Grid(grid, cells) =>
        LowerWrap(GridShell(grid), BonesOfCells(cells), rank, r);
        seen' := VisitCellHeadings(cells, footnotes, seen', rank, r);
      case Footnote(index) =>
        if index >= 1 && index - 1 < |footnotes| {
          NoteIsLower(index, footnotes, rank, r);
          seen' := VisitHeadings(footnotes[index - 1].elements, footnotes, seen', rank, rank[index - 1]);
        }
      case _ =>
    }
  }

  lemma NoteIsLower(index: nat, footnotes: seq<Cell>, rank: seq<nat>, r: nat)
    requires Acyclic(footnotes, rank) && Lower([NoteRef(index)], rank, r) && IsNote(index, |rank|)
    ensures rank[index - 1] < r && Lower(Bones(footnotes[index - 1].elements), rank, rank[index - 1])
  {
    hide Bones;
    assert [NoteRef(index)][0] == NoteRef(index);
  }

  method VisitItemHeadings(items: seq<ListItem>, footnotes: seq<Cell>, seen: seq<Title>, ghost rank: seq<nat>,
                           ghost r: nat)
    returns (seen': seq<Title>)
    requires |rank| == |footnotes| && Acyclic(footnotes, rank) && Lower(BonesOfItems(items), rank, r)
    ensures seen' == seen + TitlesOfItems(items, footnotes, rank, r)
    decreases r, items
  {
    hide Acyclic, Lower, Wrap, TitlesOfItem, BonesOfItem;
    if items == [] {
      return seen;
    }
    LowerAppend(BonesOfItem(items[0]), BonesOfItems(items[1..]), rank, r);
    seen' := VisitItemHeading(items[0], footnotes, seen, rank, r);
    Regroup(seen, TitlesOfItem(items[0], footnotes, rank, r), TitlesOfItems(items[1..], footnotes, rank, r));
    seen' := VisitItemHeadings(items[1..], footnotes, seen', rank, r);
  }

  method VisitItemHeading(item: ListItem, footnotes: seq<Cell>, seen: seq<Title>, ghost rank: seq<nat>, ghost r: nat)
    returns (seen': seq<Title>)
    requires |rank| == |footnotes| && Acyclic(footnotes, rank) && Lower(BonesOfItem(item), rank, r)
    ensures seen' == seen + TitlesOfItem(item, footnotes, rank, r)
    decreases r, item
  {
    hide Acyclic, Lower, Wrap, TitlesOf, Titles;
    ItemLower(item, rank, r);
    match item {
      case Elements(elements, _) =>
        seen' := VisitHeadings(elements, footnotes, seen, rank, r);
      case SubList(element) =>
        seen' := VisitHeading(element, footnotes, seen, rank, r);
    }
  }

  lemma ItemLower(item: ListItem, rank: seq<nat>, r: nat)
    requires Lower(BonesOfItem(item), rank, r)
    ensures item.Elements? ==> Lower(Bones(item.elements), rank, r)
    ensures item.SubList? ==> Lower(BonesOf(item.element), rank, r)
  {
    if item.Elements? {
      LowerWrap(ItemMark(item.attributes), Bones(item.elements), rank, r);
    } else if !item.element.Delayed? {
      LowerWrap(SubListMark, BonesOf(item.element), rank, r);
    }
  }

  method VisitCellHeadings(cells: seq<Cell>, footnotes: seq<Cell>, seen: seq<Title>, ghost rank: seq<nat>, ghost r: nat)
    returns (seen': seq<Title>)
    requires |rank| == |footnotes| && Acyclic(footnotes, rank) && Lower(BonesOfCells(cells), rank, r)
    ensures seen' == seen + TitlesOfCells(cells, footnotes, rank, r)
    decreases r, cells
  {
    hide Acyclic, Lower, Wrap, Titles, Bones;
    if cells == [] {
      return seen;
    }
    LowerAppend(BonesOfCell(cells[0]), BonesOfCells(cells[1..]), rank, r);
    LowerWrap(CellMark, Bones(cells[0].elements), rank, r);
    seen' := VisitHeadings(cells[0].elements, footnotes, seen, rank, r);
    Regroup(seen, TitlesOfCell(cells[0], footnotes, rank, r), TitlesOfCells(cells[1..], footnotes, rank, r));
    seen' := VisitCellHeadings(cells[1..], footnotes, seen', rank, r);
  }

  // ----- what a visit depends on

  predicate IsMark(bone: Bone) {
    bone.NoteRef? || (bone.Open? && IsHeading(bone.shell))
  }

  /** Headings and footnote references, in order. */
  function Marks(bones: seq<Bone>): seq<Bone> {
    if bones == [] then []
    else (if IsMark(bones[0]) then [bones[0]] else []) + Marks(bones[1..])
  }

  /** The headings a skeleton leads to, references followed. */
  ghost function Expand(bones: seq<Bone>, footnotes: seq<Cell>, rank: seq<nat>, r: nat): seq<Shell>
    requires |rank| == |footnotes|
    decreases r, |bones|
  {
    if bones == [] then [] else ExpandOne(bones[0], footnotes, rank, r) + Expand(bones[1..], footnotes, rank, r)
  }

  ghost function ExpandOne(bone: Bone, footnotes: seq<Cell>, rank: seq<nat>, r: nat): seq<Shell>
    requires |rank| == |footnotes|
    decreases r, 0
  {
    if bone.Open? && IsHeading(bone.shell) then [bone.shell]
    else if bone.NoteRef? && IsNote(bone.index, |footnotes|) && rank[bone.index - 1] < r
    then Expand(Bones(footnotes[bone.index - 1].elements), footnotes, rank, rank[bone.index - 1])
    else []
  }

  function Shells(titles: seq<Title>): (s: seq<Shell>)
    ensures |s| == |titles| && forall k | 0 <= k < |s| :: s[k] == titles[k].shell
  {
    seq(|titles|, k requires 0 <= k < |titles| => titles[k].shell)
  }

  lemma {:induction false} ExpandAppend(a: seq<Bone>, b: seq<Bone>, footnotes: seq<Cell>, rank: seq<nat>, r: nat)
    requires |rank| == |footnotes|
    ensures Expand(a + b, footnotes, rank, r) == Expand(a, footnotes, rank, r) + Expand(b, footnotes, rank, r)
    decreases |a|
  {
    hide ExpandOne;
    if a == [] {
      assert a + b == b;
    } else {
      assert (a + b)[1..] == a[1..] + b && (a + b)[0] == a[0];
      ExpandAppend(a[1..], b, footnotes, rank, r);
      Regroup(ExpandOne(a[0], footnotes, rank, r), Expand(a[1..], footnotes, rank, r), Expand(b, footnotes, rank, r));
    }
  }

  lemma ExpandWrap(shell: Shell, inner: seq<Bone>, footnotes: seq<Cell>, rank: seq<nat>, r: nat)
    requires |rank| == |footnotes|
    ensures Expand(Wrap(shell, inner), footnotes, rank, r)
         == (if IsHeading(shell) then [shell] else []) + Expand(inner, footnotes, rank, r)
  {
    ExpandAppend([Open(shell)], inner, footnotes, rank, r);
    ExpandAppend([Open(shell)] + inner, [Close(shell)], footnotes, rank, r);
    assert [Open(shell)][1..] == [] && [Close(shell)][1..] == [];
    assert Expand([Close(shell)], footnotes, rank, r) == [];
  }

  lemma {:induction false} NoMarksNothing(bones: seq<Bone>, footnotes: seq<Cell>, rank: seq<nat>, r: nat)
    requires |rank| == |footnotes|
    requires forall k | 0 <= k < |bones| :: !IsMark(bones[k])
    ensures Expand(bones, footnotes, rank, r) == []
    decreases |bones|
  {
    if bones != [] {
      assert forall k | 0 <= k < |bones[1..]| :: bones[1..][k] == bones[k + 1];
      NoMarksNothing(bones[1..], footnotes, rank, r);
    }
  }

  lemma NoShells()
    ensures Shells([]) == []
  {
  }

  lemma ShellsAppend(a: seq<Title>, b: seq<Title>)
    ensures Shells(a + b) == Shells(a) + Shells(b)
  {
  }

  lemma HeadingShells(shell: Shell, children: seq<Element>, more: seq<Title>)
    ensures Shells((if IsHeading(shell) then [Title(shell, children)] else []) + more)
         == (if IsHeading(shell) then [shell] else []) + Shells(more)
  {
  }

  lemma ExpandNote(index: nat, footnotes: seq<Cell>, rank: seq<nat>, r: nat)
    requires |rank| == |footnotes|
    ensures Expand([NoteRef(index)], footnotes, rank, r)
         == if IsNote(index, |footnotes|) && rank[index - 1] < r
            then Expand(Bones(footnotes[index - 1].elements), footnotes, rank, rank[index - 1])
            else []
  {
    hide Bones;
    var reference := [NoteRef(index)];
    assert reference[1..] == [] && Expand([], footnotes, rank, r) == [];
  }

  /** The visit finds the headings its skeleton leads to. */
  lemma {:induction false} TitlesAreExpanded(es: seq<Element>, footnotes: seq<Cell>, rank: seq<nat>, r: nat)
    requires |rank| == |footnotes|
    ensures Shells(Titles(es, footnotes, rank, r)) == Expand(Bones(es), footnotes, rank, r)
    decreases r, es
  {
    hide Shells, TitlesOf, BonesOf, ExpandOne;
    NoShells();
    if es != [] {
      ShellsAppend(TitlesOf(es[0], footnotes, rank, r), Titles(es[1..], footnotes, rank, r));
      TitlesOfAreExpanded(es[0], footnotes, rank, r);
      TitlesAreExpanded(es[1..], footnotes, rank, r);
      ExpandAppend(BonesOf(es[0]), Bones(es[1..]), footnotes, rank, r);
    }
  }

  lemma {:induction false} TitlesOfAreExpanded(e: Element, footnotes: seq<Cell>, rank: seq<nat>, r: nat)
    requires |rank| == |footnotes|
    ensures Shells(TitlesOf(e, footnotes, rank, r)) == Expand(BonesOf(e), footnotes, rank, r)
    decreases r, e
  {
    hide Wrap, Bones, Shells, Titles, Expand, ExpandOne;
    NoShells();
    match e
    case Container(kind, children, attributes) =>
      HeadingShells(ContainerShell(kind, attributes), children, Titles(children, footnotes, rank, r));
      TitlesAreExpanded(children, footnotes, rank, r);
      ExpandWrap(ContainerShell(kind, attributes), Bones(children), footnotes, rank, r);
    case Color(color, background, children) =>
      TitlesAreExpanded(children, footnotes, rank, r);
      ExpandWrap(ColorShell(color, background), Bones(children), footnotes, rank, r);
    case Wrapper(tag, children) =>
      TitlesAreExpanded(children, footnotes, rank, r);
      ExpandWrap(WrapperShell(tag), Bones(children), footnotes, rank, r);
    case List(shape, items) =>
      TitlesOfItemsAreExpanded(items, footnotes, rank, r);
      ExpandWrap(ListMark(shape), BonesOfItems(items), footnotes, rank, r);
    case Grid(grid, cells) =>
      TitlesOfCellsAreExpanded(cells, footnotes, rank, r);
      ExpandWrap(GridShell(grid), BonesOfCells(cells), footnotes, rank, r);
    case Footnote(index) =>
      ExpandNote(index, footnotes, rank, r);
      if IsNote(index, |footnotes|) && rank[index - 1] < r {
        TitlesAreExpanded(footnotes[index - 1].elements, footnotes, rank, rank[index - 1]);
      }
    case _ =>
      NoMarksNothing(BonesOf(e), footnotes, rank, r);
  }

  lemma {:induction false} TitlesOfItemsAreExpanded(items: seq<ListItem>, footnotes: seq<Cell>, rank: seq<nat>, r: nat)
    requires |rank| == |footnotes|
    ensures Shells(TitlesOfItems(items, footnotes, rank, r)) == Expand(BonesOfItems(items), footnotes, rank, r)
    decreases r, items
  {
    hide Wrap, Shells, TitlesOfItem, BonesOfItem, ExpandOne;
    NoShells();
    if items != [] {
      ShellsAppend(TitlesOfItem(items[0], footnotes, rank, r), TitlesOfItems(items[1..], footnotes, rank, r));
      TitlesOfItemIsExpanded(items[0], footnotes, rank, r);
      TitlesOfItemsAreExpanded(items[1..], footnotes, rank, r);
      ExpandAppend(BonesOfItem(items[0]), BonesOfItems(items[1..]), footnotes, rank, r);
    }
  }

  lemma {:induction false} TitlesOfItemIsExpanded(item: ListItem, footnotes: seq<Cell>, rank: seq<nat>, r: nat)
    requires |rank| == |footnotes|
    ensures Shells(TitlesOfItem(item, footnotes, rank, r)) == Expand(BonesOfItem(item), footnotes, rank, r)
    decreases r, item
  {
    hide Wrap;
    match item
    case Elements(elements, attributes) =>
      TitlesAreExpanded(elements, footnotes, rank, r);
      ExpandWrap(ItemMark(attributes), Bones(elements), footnotes, rank, r);
    case SubList(element) =>
      TitlesOfAreExpanded(element, footnotes, rank, r);
      ExpandWrap(SubListMark, StuckBones(element), footnotes, rank, r);
      if element.Delayed? {
        NoMarksNothing(StuckBones(element), footnotes, rank, r);
      }
  }

  lemma {:induction false} TitlesOfCellsAreExpanded(cells: seq<Cell>, footnotes: seq<Cell>, rank: seq<nat>, r: nat)
    requires |rank| == |footnotes|
    ensures Shells(TitlesOfCells(cells, footnotes, rank, r)) == Expand(BonesOfCells(cells), footnotes, rank, r)
    decreases r, cells
  {
    hide Wrap;
    if cells != [] {
      TitlesOfCellIsExpanded(cells[0], footnotes, rank, r);
      TitlesOfCellsAreExpanded(cells[1..], footnotes, rank, r);
      ExpandAppend(BonesOfCell(cells[0]), BonesOfCells(cells[1..]), footnotes, rank, r);
    }
  }

  lemma {:induction false} TitlesOfCellIsExpanded(cell: Cell, footnotes: seq<Cell>, rank: seq<nat>, r: nat)
    requires |rank| == |footnotes|
    ensures Shells(TitlesOfCell(cell, footnotes, rank, r)) == Expand(BonesOfCell(cell), footnotes, rank, r)
    decreases r, cell
  {
    TitlesAreExpanded(cell.elements, footnotes, rank, r);
    ExpandWrap(CellMark, Bones(cell.elements), footnotes, rank, r);
  }

  // ----- binding keeps the marks

  lemma {:induction false} MarksAppend(a: seq<Bone>, b: seq<Bone>)
    ensures Marks(a + b) == Marks(a) + Marks(b)
  {
    hide IsMark;
    if a == [] {
      assert a + b == b;
    } else {
      assert (a + b)[1..] == a[1..] + b && (a + b)[0] == a[0];
      MarksAppend(a[1..], b);
      Regroup(if IsMark(a[0]) then [a[0]] else [], Marks(a[1..]), Marks(b));
    }
  }

  lemma {:induction false} NoMarks(bones: seq<Bone>)
    requires forall k | 0 <= k < |bones| :: !IsMark(bones[k])
    ensures Marks(bones) == []
  {
    if bones != [] {
      assert forall k | 0 <= k < |bones[1..]| :: bones[1..][k] == bones[k + 1];
      NoMarks(bones[1..]);
    }
  }

  lemma {:induction false} MarksOfFirm(bones: seq<Bone>)
    ensures Marks(Firm(bones)) == Marks(bones)
  {
    if bones != [] {
      MarksOfFirm(bones[1..]);
      MarksAppend(if IsFirm(bones[0]) then [bones[0]] else [], Firm(bones[1..]));
      assert [bones[0]][1..] == [];
    }
  }

  lemma {:induction false} MarksOfKept(c: Classifier, bones: seq<Bone>)
    ensures Marks(Kept(c, bones)) == Marks(bones)
  {
    if bones != [] {
      MarksOfKept(c, bones[1..]);
      MarksAppend(if IsKept(c, bones[0]) then [bones[0]] else [], Kept(c, bones[1..]));
      assert [bones[0]][1..] == [];
    }
  }

  /** Nodes resolve to texts and leaves: no headings, no references. */
  lemma {:induction false} MarksOfResolved(bones: seq<Bone>, bindings: Bindings)
    ensures Marks(Resolved(bones, bindings)) == Marks(bones)
  {
    if bones != [] {
      MarksOfResolved(bones[1..], bindings);
      MarksAppend(ResolvedBone(bones[0], bindings), Resolved(bones[1..], bindings));
      if IsNodeBone(bones[0]) {
        NoMarksResolved(bones[0], bindings);
      } else {
        assert [bones[0]][1..] == [];
      }
    }
  }

  lemma NoMarksResolved(bone: Bone, bindings: Bindings)
    requires IsNodeBone(bone)
    ensures Marks(ResolvedBone(bone, bindings)) == []
  {
    hide ResolveDelayed, Meaning;
    MeaningIsResolved(bone.node, bindings);
    FlatBones(Meaning(bone.node, bindings));
    NoMarks(Bones(Meaning(bone.node, bindings)));
  }

  lemma BindingKeepsMarks(bindings: Bindings, before: seq<Bone>, after: seq<Bone>)
    requires BoundTo(bindings, before, after)
    ensures Marks(after) == Marks(before)
  {
    var kept := Kept(Bound(bindings), before);
    MarksOfFirm(after);
    MarksOfFirm(Resolved(kept, bindings));
    MarksOfResolved(kept, bindings);
    MarksOfKept(Bound(bindings), before);
  }

  lemma {:induction false} LowerByMarks(bones: seq<Bone>, rank: seq<nat>, r: nat)
    ensures Lower(bones, rank, r) <==> Lower(Marks(bones), rank, r)
  {
    if bones != [] {
      LowerByMarks(bones[1..], rank, r);
      LowerAppend([bones[0]], bones[1..], rank, r);
      assert [bones[0]] + bones[1..] == bones;
      LowerAppend(if IsMark(bones[0]) then [bones[0]] else [], Marks(bones[1..]), rank, r);
      assert !IsMark(bones[0]) ==> Lower([bones[0]], rank, r) && Lower([], rank, r);
    }
  }

  ghost predicate SameMarks(a: seq<Cell>, b: seq<Cell>) {
    |a| == |b| && forall k | 0 <= k < |a| :: Marks(Bones(a[k].elements)) == Marks(Bones(b[k].elements))
  }

  lemma MarksHead(bones: seq<Bone>)
    requires bones != []
    ensures
      var rest := Marks(bones[1..]);
      if IsMark(bones[0]) then Marks(bones) != [] && Marks(bones)[0] == bones[0] && Marks(bones)[1..] == rest
      else Marks(bones) == rest
  {
    hide IsMark;
  }

  lemma UnmarkedOne(bone: Bone, footnotes: seq<Cell>, rank: seq<nat>, r: nat)
    requires |rank| == |footnotes| && !IsMark(bone)
    ensures ExpandOne(bone, footnotes, rank, r) == []
  {
  }

  /** Skeletons with the same marks lead to the same headings. */
  lemma {:induction false} ExpandByMarks(a: seq<Bone>, b: seq<Bone>, notesA: seq<Cell>, notesB: seq<Cell>,
                                         rank: seq<nat>, r: nat)
    requires Marks(a) == Marks(b) && SameMarks(notesA, notesB) && |rank| == |notesA| == |notesB|
    ensures Expand(a, notesA, rank, r) == Expand(b, notesB, rank, r)
    decreases r, |a| + |b|, 1
  {
    hide IsMark, ExpandOne, Marks, SameMarks;
    if a != [] { MarksHead(a); }
    if b != [] { MarksHead(b); }
    if a != [] && !IsMark(a[0]) {
      ExpandByMarks(a[1..], b, notesA, notesB, rank, r);
      UnmarkedOne(a[0], notesA, rank, r);
    } else if b != [] && !IsMark(b[0]) {
      ExpandByMarks(a, b[1..], notesA, notesB, rank, r);
      UnmarkedOne(b[0], notesB, rank, r);
    } else if a != [] && b != [] {
      ExpandByMarks(a[1..], b[1..], notesA, notesB, rank, r);
      ExpandOneByMarks(a[0], notesA, notesB, rank, r);
    } else if a != [] || b != [] {
      NoMarks([]);
    }
  }

  lemma {:induction false} ExpandOneByMarks(bone: Bone, notesA: seq<Cell>, notesB: seq<Cell>, rank: seq<nat>, r: nat)
    requires SameMarks(notesA, notesB) && |rank| == |notesA| == |notesB|
    ensures ExpandOne(bone, notesA, rank, r) == ExpandOne(bone, notesB, rank, r)
    decreases r, 0
  {
    hide Marks, Bones;
    if bone.NoteRef? && IsNote(bone.index, |notesA|) && rank[bone.index - 1] < r {
      var i := bone.index - 1;
      ExpandByMarks(Bones(notesA[i].elements), Bones(notesB[i].elements), notesA, notesB, rank, rank[i]);
    }
  }

  /** Ranks for a whole tree. */
  ghost predicate Ranked(tree: SyntaxTree, rank: seq<nat>, r: nat) {
    Acyclic(tree.footnotes, rank) && Lower(Bones(tree.elements), rank, r)
  }

  ghost function TreeTitles(tree: SyntaxTree, rank: seq<nat>, r: nat): seq<Title>
    requires |rank| == |tree.footnotes|
  {
    Titles(tree.elements, tree.footnotes, rank, r)
  }

  /** What binding makes of a heading. */
  ghost function BoundTitle(title: Title, pass: Pass, bindings: Bindings): Title {
    Title(title.shell, ResolveAll(SuppressAll(title.contents, pass), bindings))
  }

  /** A tree as a successful binding leaves it. */
  ghost predicate IsBoundTree(bindings: Bindings, pass: Pass, before: SyntaxTree, after: SyntaxTree) {
    && pass.c == Bound(bindings) && after == Bind(before, pass, bindings)
    && TreeResolvable(bindings, SuppressedTree(before, pass)) && BoundTree(bindings, before, after)
  }

  lemma BindingKeepsRanks(bindings: Bindings, before: SyntaxTree, after: SyntaxTree, rank: seq<nat>, r: nat)
    requires BoundTree(bindings, before, after) && Ranked(before, rank, r)
    ensures Ranked(after, rank, r) && |after.footnotes| == |before.footnotes|
    ensures Shells(TreeTitles(after, rank, r)) == Shells(TreeTitles(before, rank, r))
  {
    hide BoundTo, Lower, Expand, Bones, Marks;
    BindingKeepsMarks(bindings, Bones(before.elements), Bones(after.elements));
    forall k | 0 <= k < |before.footnotes|
      ensures Marks(Bones(before.footnotes[k].elements)) == Marks(Bones(after.footnotes[k].elements))
      ensures Lower(Bones(after.footnotes[k].elements), rank, rank[k])
    {
      BindingKeepsMarks(bindings, Bones(before.footnotes[k].elements), Bones(after.footnotes[k].elements));
      LowerByMarks(Bones(before.footnotes[k].elements), rank, rank[k]);
      LowerByMarks(Bones(after.footnotes[k].elements), rank, rank[k]);
    }
    LowerByMarks(Bones(before.elements), rank, r);
    LowerByMarks(Bones(after.elements), rank, r);
    ExpandByMarks(Bones(before.elements), Bones(after.elements), before.footnotes, after.footnotes, rank, r);
    TitlesAreExpanded(before.elements, before.footnotes, rank, r);
    TitlesAreExpanded(after.elements, after.footnotes, rank, r);
  }

  lemma ResolvableReturns(bindings: Bindings, tree: SyntaxTree)
    requires TreeResolvable(bindings, tree)
    ensures SublistsReturn(tree.elements, bindings) && NotesReturn(tree.footnotes, bindings)
  {
    hide SublistsReturn, CellReturns, AllResolve;
  }

  /** Binding changes neither the number of headings nor their order: the heading
      with a given number is the same before and after, its contents bound. */
  lemma BindingKeepsNumbering(bindings: Bindings, pass: Pass, before: SyntaxTree, after: SyntaxTree, rank: seq<nat>,
                              r: nat)
    requires IsBoundTree(bindings, pass, before, after) && Ranked(before, rank, r)
    ensures Ranked(after, rank, r) && |after.footnotes| == |before.footnotes|
    ensures |TreeTitles(after, rank, r)| == |TreeTitles(before, rank, r)|
    ensures forall k | 0 <= k < |TreeTitles(before, rank, r)| ::
              TreeTitles(after, rank, r)[k] == BoundTitle(TreeTitles(before, rank, r)[k], pass, bindings)
  {
    hide BoundTree, TreeResolvable, Ranked, Titles, ResolveAll, SuppressAll, SuppressCells, ResolvedCells,
         SublistsReturn;
    var middle := SuppressedTree(before, pass);
    RankedSize(before, rank, r);
    BindingKeepsRanks(bindings, before, after, rank, r);
    ResolvableReturns(bindings, middle);
    SuppressTitles(before.elements, pass, before.footnotes, rank, r);
    ResolveTitles(middle.elements, bindings, middle.footnotes, rank, r);
  }

  lemma RankedSize(tree: SyntaxTree, rank: seq<nat>, r: nat)
    requires Ranked(tree, rank, r)
    ensures |rank| == |tree.footnotes|
  {
  }

  // ----- recording entries, binding labels

  /** Where the headings of a tree stand. */
  ghost function TreeSites(tree: SyntaxTree, rank: seq<nat>, r: nat): seq<Site>
    requires |rank| == |tree.footnotes|
  {
    Sites(Bones(tree.elements), 0, 0, tree.footnotes, rank, r)
  }

  /** The segment at the site holds a delayed node. */
  ghost predicate HoldsNode(tree: SyntaxTree, site: Site) {
    var bones := Part(Bones(tree.elements), tree.footnotes, site.note);
    exists end: nat :: IsSegment(bones, site.at, end) && HasNode(bones[site.at..end])
  }

  /** Each heading, with what it holds, is the segment at its mark. */
  ghost predicate TitlesInPlace(tree: SyntaxTree, rank: seq<nat>, r: nat)
    requires |rank| == |tree.footnotes|
  {
    AllStand(TreeTitles(tree, rank, r), TreeSites(tree, rank, r), Bones(tree.elements), tree.footnotes)
  }

  lemma TreeTitlesStand(tree: SyntaxTree, rank: seq<nat>, r: nat)
    requires |rank| == |tree.footnotes|
    ensures TitlesInPlace(tree, rank, r)
    ensures forall k | 0 <= k < |TreeTitles(tree, rank, r)| ::
              ElementsContainDelayed(TreeTitles(tree, rank, r)[k].contents)
              <==> HoldsNode(tree, TreeSites(tree, rank, r)[k])
  {
    hide Bones, Titles, Sites, StandsAt, ElementsContainDelayed, HoldsNode;
    var root := Bones(tree.elements);
    WholeIsInside(root);
    TitlesStand(tree.elements, root, tree.footnotes, rank, r, 0, 0);
    var titles, sites := TreeTitles(tree, rank, r), TreeSites(tree, rank, r);
    forall k | 0 <= k < |titles| ensures ElementsContainDelayed(titles[k].contents) <==> HoldsNode(tree, sites[k]) {
      TitleHolds(titles[k], sites[k], tree);
    }
  }

  lemma TitleHolds(title: Title, site: Site, tree: SyntaxTree)
    requires StandsAt(title, site, Bones(tree.elements), tree.footnotes)
    ensures ElementsContainDelayed(title.contents) <==> HoldsNode(tree, site)
  {
    hide Bones, HasNode, Part, Wrap, IsSegment, ElementsContainDelayed;
    var bones := Part(Bones(tree.elements), tree.footnotes, site.note);
    var inner := Bones(title.contents);
    ContainsIsHasNode(title.contents);
    HasNodeWrap(title.shell, inner);
    forall end: nat | IsSegment(bones, site.at, end) ensures end == site.at + |Wrap(title.shell, inner)| {
      SegmentIsUnique(bones, site.at, end, site.at + |Wrap(title.shell, inner)|);
    }
    SegmentInside(bones, site.at);
  }

  lemma SegmentInside(bones: seq<Bone>, p: nat)
    ensures forall end: nat | IsSegment(bones, p, end) :: p <= end <= |bones|
  {
  }

  ghost predicate IsEntryList(titles: seq<Title>, entries: seq<nat>) {
    && (forall k: nat :: k in entries <==> k < |titles| && ElementsContainDelayed(titles[k].contents))
    && (forall i, j | 0 <= i < j < |entries| :: entries[i] < entries[j])
  }

  /** The numbers of the headings that hold delayed nodes. */
  method EntryIndices(tree: SyntaxTree, ghost rank: seq<nat>, ghost r: nat) returns (delayed: seq<nat>)
    requires Ranked(tree, rank, r)
    ensures IsEntryList(TreeTitles(tree, rank, r), delayed)
    ensures |rank| == |tree.footnotes|
    ensures forall k: nat ::
              k in delayed <==> k < |TreeSites(tree, rank, r)| && HoldsNode(tree, TreeSites(tree, rank, r)[k])
  {
    hide Acyclic, Lower, HoldsNode, Titles, Sites, ElementsContainDelayed, StandsAt;
    RankedSize(tree, rank, r);
    TreeTitlesStand(tree, rank, r);
    var titles := VisitHeadings(tree.elements, tree.footnotes, [], rank, r);
    delayed := [];
    for entry := 0 to |titles|
      invariant forall k: nat :: k in delayed <==> k < entry && ElementsContainDelayed(titles[k].contents)
      invariant forall i | 0 <= i < |delayed| :: delayed[i] < entry
      invariant forall i, j | 0 <= i < j < |delayed| :: delayed[i] < delayed[j]
    {
      if ElementsContainDelayed(titles[entry].contents) {
        delayed := delayed + [entry];
      }
    }
  }

  /** The labels collected for the recorded entries, by entry number. */
  method CollectLabels(tree: SyntaxTree, delayedEntries: seq<nat>, render: seq<Element> -> string,
                       ghost rank: seq<nat>, ghost r: nat)
    returns (labels: map<nat, string>)
    requires Ranked(tree, rank, r)
    ensures forall k: nat :: k in labels <==> k in delayedEntries && k < |TreeTitles(tree, rank, r)|
    ensures forall k | k in labels :: labels[k] == render(TreeTitles(tree, rank, r)[k].contents)
  {
    var titles := VisitHeadings(tree.elements, tree.footnotes, [], rank, r);
    labels := map[];
    for entry := 0 to |titles|
      invariant forall k: nat :: k in labels <==> k in delayedEntries && k < entry
      invariant forall k | k in labels :: labels[k] == render(titles[k].contents)
    {
      if entry in delayedEntries {
        labels := labels[entry := render(titles[entry].contents)];
      }
    }
  }

  /** Entries recorded before binding all get a label after it, one each, taken
      from the same heading. */
  lemma EntriesAllLabelled(bindings: Bindings, pass: Pass, before: SyntaxTree, after: SyntaxTree, entries: seq<nat>,
                           labels: map<nat, string>, rank: seq<nat>, r: nat)
    requires IsBoundTree(bindings, pass, before, after) && Ranked(before, rank, r)
    requires IsEntryList(TreeTitles(before, rank, r), entries)
    requires |after.footnotes| == |rank|
    requires forall k: nat :: k in labels <==> k in entries && k < |TreeTitles(after, rank, r)|
    ensures |labels| == |entries|
    ensures forall k | k in entries :: k in labels
    ensures forall k | k in entries ::
              TreeTitles(after, rank, r)[k] == BoundTitle(TreeTitles(before, rank, r)[k], pass, bindings)
  {
    hide IsBoundTree, Ranked, TreeTitles, BoundTitle, ElementsContainDelayed;
    BindingKeepsNumbering(bindings, pass, before, after, rank, r);
    forall k | k in entries
      ensures k in labels && k < |TreeTitles(after, rank, r)|
    {
      assert k < |TreeTitles(before, rank, r)|;
    }
    assert labels.Keys == SetOf(entries);
    DistinctSize(entries);
    assert |labels.Keys| == |labels|;
  }

  ghost function SetOf(entries: seq<nat>): set<nat> {
    set k | k in entries
  }

  lemma {:induction false} DistinctSize(entries: seq<nat>)
    requires forall i, j | 0 <= i < j < |entries| :: entries[i] < entries[j]
    ensures |SetOf(entries)| == |entries|
  {
    if entries == [] {
      assert SetOf(entries) == {};
    } else {
      var n := |entries| - 1;
      var init, last := entries[..n], entries[n];
      DistinctSize(init);
      assert entries == init + [last] && last !in SetOf(init);
      assert SetOf(entries) == SetOf(init) + {last};
    }
  }

  // ----- replacing labels in the printed contents

  /** The entries of a printed table of contents, in numbering order. */
  function Entries(es: seq<Element>): seq<seq<Element>>
    decreases es
  {
    if es == [] then [] else EntriesOf(es[0]) + Entries(es[1..])
  }

  function EntriesOf(e: Element): seq<seq<Element>>
    decreases e
  {
    if e.List? then EntriesOfItems(e.items) else []
  }

  function EntriesOfItems(items: seq<ListItem>): seq<seq<Element>>
    decreases items
  {
    if items == [] then [] else EntriesOfItem(items[0]) + EntriesOfItems(items[1..])
  }

  function EntriesOfItem(item: ListItem): seq<seq<Element>>
    decreases item
  {
    match item
    case Elements(elements, _) => [elements]
    case SubList(element) => EntriesOf(element)
  }

  /** The printed contents with their entries emptied: nesting, shapes, attributes
      and whatever is no list. */
  function Outline(es: seq<Element>): seq<Element>
    decreases es
  {
    if es == [] then [] else [OutlineOf(es[0])] + Outline(es[1..])
  }

  function OutlineOf(e: Element): Element
    decreases e
  {
    if e.List? then List(e.shape, OutlineOfItems(e.items)) else e
  }

  function OutlineOfItems(items: seq<ListItem>): seq<ListItem>
    decreases items
  {
    if items == [] then [] else [OutlineOfItem(items[0])] + OutlineOfItems(items[1..])
  }

  function OutlineOfItem(item: ListItem): ListItem
    decreases item
  {
    match item
    case Elements(_, attributes) => Elements([], attributes)
    case SubList(element) => SubList(OutlineOf(element))
  }

  /** Printed contents are determined by their outline and their entries. */
  lemma {:induction false} OutlineDetermines(a: seq<Element>, b: seq<Element>, x: seq<seq<Element>>,
                                             y: seq<seq<Element>>)
    requires Outline(a) == Outline(b) && Entries(a) + x == Entries(b) + y && |x| == |y|
    ensures a == b && x == y
    decreases a
  {
    hide OutlineOf, EntriesOf;
    OutlineParts(a);
    OutlineParts(b);
    if a != [] && b != [] {
      Regroup(EntriesOf(a[0]), Entries(a[1..]), x);
      Regroup(EntriesOf(b[0]), Entries(b[1..]), y);
      SameEntryCount(a[1..], b[1..]);
      OutlineDeterminesOne(a[0], b[0], Entries(a[1..]) + x, Entries(b[1..]) + y);
      OutlineDetermines(a[1..], b[1..], x, y);
      assert a == [a[0]] + a[1..] && b == [b[0]] + b[1..];
    } else {
      assert [] + x == x && [] + y == y;
    }
  }

  lemma OutlineParts(es: seq<Element>)
    ensures |Outline(es)| == 0 <==> es == []
    ensures es == [] ==> Entries(es) == []
    ensures es != [] ==>
              && Outline(es)[0] == OutlineOf(es[0]) && Outline(es)[1..] == Outline(es[1..])
              && Entries(es) == EntriesOf(es[0]) + Entries(es[1..])
  {
    hide OutlineOf, EntriesOf;
  }

  lemma {:induction false} OutlineDeterminesOne(a: Element, b: Element, x: seq<seq<Element>>, y: seq<seq<Element>>)
    requires OutlineOf(a) == OutlineOf(b) && EntriesOf(a) + x == EntriesOf(b) + y && |x| == |y|
    ensures a == b && x == y
    decreases a
  {
    if a.List? {
      OutlineDeterminesItems(a.items, b.items, x, y);
    } else {
      assert [] + x == x && [] + y == y;
    }
  }

  lemma {:induction false} OutlineDeterminesItems(a: seq<ListItem>, b: seq<ListItem>, x: seq<seq<Element>>,
                                                  y: seq<seq<Element>>)
    requires OutlineOfItems(a) == OutlineOfItems(b) && EntriesOfItems(a) + x == EntriesOfItems(b) + y && |x| == |y|
    ensures a == b && x == y
    decreases a
  {
    hide OutlineOfItem, EntriesOfItem;
    OutlineItemParts(a);
    OutlineItemParts(b);
    if a != [] && b != [] {
      Regroup(EntriesOfItem(a[0]), EntriesOfItems(a[1..]), x);
      Regroup(EntriesOfItem(b[0]), EntriesOfItems(b[1..]), y);
      SameItemEntryCount(a[1..], b[1..]);
      OutlineDeterminesItem(a[0], b[0], EntriesOfItems(a[1..]) + x, EntriesOfItems(b[1..]) + y);
      OutlineDeterminesItems(a[1..], b[1..], x, y);
      assert a == [a[0]] + a[1..] && b == [b[0]] + b[1..];
    } else {
      assert [] + x == x && [] + y == y;
    }
  }

  lemma OutlineItemParts(items: seq<ListItem>)
    ensures |OutlineOfItems(items)| == 0 <==> items == []
    ensures items == [] ==> EntriesOfItems(items) == []
    ensures items != [] ==>
              && OutlineOfItems(items)[0] == OutlineOfItem(items[0])
              && OutlineOfItems(items)[1..] == OutlineOfItems(items[1..])
              && EntriesOfItems(items) == EntriesOfItem(items[0]) + EntriesOfItems(items[1..])
  {
    hide OutlineOfItem, EntriesOfItem;
  }

  lemma {:induction false} OutlineDeterminesItem(a: ListItem, b: ListItem, x: seq<seq<Element>>, y: seq<seq<Element>>)
    requires OutlineOfItem(a) == OutlineOfItem(b) && EntriesOfItem(a) + x == EntriesOfItem(b) + y && |x| == |y|
    ensures a == b && x == y
    decreases a
  {
    if a.SubList? {
      OutlineDeterminesOne(a.element, b.element, x, y);
    } else {
      var s, t := EntriesOfItem(a) + x, EntriesOfItem(b) + y;
      assert s[0] == a.elements && t[0] == b.elements;
      assert s[1..] == x && t[1..] == y;
    }
  }

  lemma {:induction false} SameEntryCount(a: seq<Element>, b: seq<Element>)
    requires Outline(a) == Outline(b)
    ensures |Entries(a)| == |Entries(b)|
    decreases a
  {
    hide OutlineOf, EntriesOf;
    OutlineParts(a);
    OutlineParts(b);
    if a != [] && b != [] {
      SameEntryCountOne(a[0], b[0]);
      SameEntryCount(a[1..], b[1..]);
    }
  }

  lemma {:induction false} SameEntryCountOne(a: Element, b: Element)
    requires OutlineOf(a) == OutlineOf(b)
    ensures |EntriesOf(a)| == |EntriesOf(b)|
    decreases a
  {
    if a.List? {
      SameItemEntryCount(a.items, b.items);
    }
  }

  lemma {:induction false} SameItemEntryCount(a: seq<ListItem>, b: seq<ListItem>)
    requires OutlineOfItems(a) == OutlineOfItems(b)
    ensures |EntriesOfItems(a)| == |EntriesOfItems(b)|
    decreases a
  {
    hide OutlineOfItem, EntriesOfItem;
    OutlineItemParts(a);
    OutlineItemParts(b);
    if a != [] && b != [] {
      SameItemCountOne(a[0], b[0]);
      SameItemEntryCount(a[1..], b[1..]);
    }
  }

  lemma {:induction false} SameItemCountOne(a: ListItem, b: ListItem)
    requires OutlineOfItem(a) == OutlineOfItem(b)
    ensures |EntriesOfItem(a)| == |EntriesOfItem(b)|
    decreases a
  {
    if a.SubList? {
      SameEntryCountOne(a.element, b.element);
    }
  }

  predicate IsContentsLink(e: Element) {
    e.Leaf? && e.leaf.ContentsLink?
  }

  /** `after` has the first contents link retitled, if its title is text. */
  predicate Retitled(before: seq<Element>, after: seq<Element>, title: string) {
    |after| == |before| && forall k | 0 <= k < |before| ::
      after[k] ==
        if IsContentsLink(before[k]) && before[k].leaf.title.Some?
          && (forall j | 0 <= j < k :: !IsContentsLink(before[j]))
        then Leaf(ContentsLink(before[k].leaf.target, Some(title))) else before[k]
  }

  ghost predicate Relabelled(before: seq<seq<Element>>, after: seq<seq<Element>>, labels: map<nat, string>,
                             current: nat) {
    |after| == |before| && forall k | 0 <= k < |before| ::
      if current + k in labels then Retitled(before[k], after[k], labels[current + k]) else after[k] == before[k]
  }

  lemma RelabelledAppend(b1: seq<seq<Element>>, a1: seq<seq<Element>>, b2: seq<seq<Element>>, a2: seq<seq<Element>>,
                         labels: map<nat, string>, current: nat)
    requires Relabelled(b1, a1, labels, current) && Relabelled(b2, a2, labels, current + |b1|)
    ensures Relabelled(b1 + b2, a1 + a2, labels, current)
  {
    hide Retitled;
    forall k | 0 <= k < |b1 + b2|
      ensures if current + k in labels then Retitled((b1 + b2)[k], (a1 + a2)[k], labels[current + k])
              else (a1 + a2)[k] == (b1 + b2)[k]
    {
      if k >= |b1| {
        var j := k - |b1|;
        assert (b1 + b2)[k] == b2[j] && (a1 + a2)[k] == a2[j] && current + k == current + |b1| + j;
      }
    }
  }

  method Retitle(es: seq<Element>, title: string) returns (r: seq<Element>)
    ensures Retitled(es, r, title)
  {
    for i := 0 to |es|
      invariant forall j | 0 <= j < i :: !IsContentsLink(es[j])
    {
      if IsContentsLink(es[i]) {
        if es[i].leaf.title.Some? {
          return es[i := Leaf(ContentsLink(es[i].leaf.target, Some(title)))];
        }
        return es;
      }
    }
    return es;
  }

  /** Rewrites the labels of a printed table of contents; entries are numbered
      as they are met. */
  method ReplaceLabels(es: seq<Element>, labels: map<nat, string>, current: nat) returns (r: seq<Element>,
        current': nat)
    ensures Relabelled(Entries(es), Entries(r), labels, current)
    ensures current' == current + |Entries(es)|
    ensures Outline(r) == Outline(es)
    decreases es
  {
    hide Relabelled, OutlineOf;
    if es == [] {
      NoEntries(labels, current);
      return es, current;
    }
    var head, n := ReplaceLabelsOf(es[0], labels, current);
    var tail, m := ReplaceLabels(es[1..], labels, n);
    r, current' := [head] + tail, m;
    assert r[1..] == tail;
    RelabelledAppend(EntriesOf(es[0]), EntriesOf(head), Entries(es[1..]), Entries(tail), labels, current);
  }

  lemma NoEntries(labels: map<nat, string>, current: nat)
    ensures Relabelled([], [], labels, current)
  {
  }

  method ReplaceLabelsOf(e: Element, labels: map<nat, string>, current: nat) returns (r: Element, current': nat)
    ensures Relabelled(EntriesOf(e), EntriesOf(r), labels, current)
    ensures current' == current + |EntriesOf(e)|
    ensures OutlineOf(r) == OutlineOf(e)
    decreases e
  {
    if !e.List? {
      return e, current;
    }
    var items, n := ReplaceItemLabels(e.items, labels, current);
    return List(e.shape, items), n;
  }

  method ReplaceItemLabels(items: seq<ListItem>, labels: map<nat, string>, current: nat) returns (r: seq<ListItem>,
        current': nat)
    ensures Relabelled(EntriesOfItems(items), EntriesOfItems(r), labels, current)
    ensures current' == current + |EntriesOfItems(items)|
    ensures OutlineOfItems(r) == OutlineOfItems(items)
    decreases items
  {
    hide Relabelled, Retitled, OutlineOfItem;
    if items == [] {
      NoEntries(labels, current);
      return items, current;
    }
    var head, n := ReplaceItemLabel(items[0], labels, current);
    var tail, m := ReplaceItemLabels(items[1..], labels, n);
    r, current' := [head] + tail, m;
    assert r[1..] == tail;
    RelabelledAppend(EntriesOfItem(items[0]), EntriesOfItem(head), EntriesOfItems(items[1..]), EntriesOfItems(tail),
                     labels, current);
  }

  method ReplaceItemLabel(item: ListItem, labels: map<nat, string>, current: nat) returns (r: ListItem, current': nat)
    ensures Relabelled(EntriesOfItem(item), EntriesOfItem(r), labels, current)
    ensures current' == current + |EntriesOfItem(item)|
    ensures OutlineOfItem(r) == OutlineOfItem(item)
    decreases item
  {
    hide Relabelled, Retitled;
    match item {
      case Elements(elements, attributes) =>
        var retitled := elements;
        if current in labels {
          retitled := Retitle(elements, labels[current]);
        }
        OneEntry(elements, retitled, labels, current);
        return Elements(retitled, attributes), current + 1;
      case SubList(element) =>
        var inner, n := ReplaceLabelsOf(element, labels, current);
        return SubList(inner), n;
    }
  }

  lemma OneEntry(before: seq<Element>, after: seq<Element>, labels: map<nat, string>, current: nat)
    requires if current in labels then Retitled(before, after, labels[current]) else after == before
    ensures Relabelled([before], [after], labels, current)
  {
  }

  /** Labels for the recorded entries, written into the printed contents. */
  method BindLabels(tree: SyntaxTree, delayedEntries: seq<nat>, render: seq<Element> -> string, ghost rank: seq<nat>,
                    ghost r: nat)
    returns (tree': SyntaxTree, ghost labels: map<nat, string>)
    requires Ranked(tree, rank, r)
    ensures tree' == tree.(tableOfContents := tree'.tableOfContents)
    ensures forall k: nat :: k in labels <==> k in delayedEntries && k < |TreeTitles(tree, rank, r)|
    ensures forall k | k in labels :: labels[k] == render(TreeTitles(tree, rank, r)[k].contents)
    ensures Relabelled(Entries(tree.tableOfContents), Entries(tree'.tableOfContents), labels, 0)
    ensures Outline(tree'.tableOfContents) == Outline(tree.tableOfContents)
    ensures |rank| == |tree.footnotes| && TitlesInPlace(tree, rank, r)
  {
    hide Ranked, Titles, TitlesInPlace, HoldsNode;
    RankedSize(tree, rank, r);
    TreeTitlesStand(tree, rank, r);
    if delayedEntries == [] {
      return tree, map[];
    }
    var collected := CollectLabels(tree, delayedEntries, render, rank, r);
    var contents, _ := ReplaceLabels(tree.tableOfContents, collected, 0);
    return tree.(tableOfContents := contents), collected;
  }
}
