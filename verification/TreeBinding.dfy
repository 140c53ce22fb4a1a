/** Binding as a whole: both passes over every part of a tree, and the final
    guard. */
module TreeBinding {
  import opened Bytes
  import opened Seqs
  import opened Tree
  import opened DelayedSpec
  import opened Seam
  import opened SeamReading
  import opened Suppression
  import opened Delayed
  import opened Binding
  import opened TreeReading

  predicate IsFirm(bone: Bone) {
    !bone.Ink? && !bone.Break? && (bone.Open? || bone.Close? ==> !IsSoft(bone.shell))
  }

  /** What is neither text nor a shell the passes may take. */
  function Firm(bones: seq<Bone>): seq<Bone> {
    if bones == [] then []
    else (if IsFirm(bones[0]) then [bones[0]] else []) + Firm(bones[1..])
  }

  /** `after` is `before` without its seams and with every other delayed node
      replaced by what it resolves to, text and the shells passes may take aside. */
  ghost predicate BoundTo(bindings: Bindings, before: seq<Bone>, after: seq<Bone>) {
    Firm(after) == Firm(Resolved(Kept(Bound(bindings), before), bindings)) && !HasNode(after)
  }

  lemma {:induction false} FirmAppend(a: seq<Bone>, b: seq<Bone>)
    ensures Firm(a + b) == Firm(a) + Firm(b)
  {
    hide IsFirm;
    if a == [] {
      assert a + b == b;
    } else {
      assert (a + b)[1..] == a[1..] + b && (a + b)[0] == a[0];
      FirmAppend(a[1..], b);
      var head := if IsFirm(a[0]) then [a[0]] else [];
      Regroup(head, Firm(a[1..]), Firm(b));
    }
  }

  lemma {:induction false} FirmOfSolid(bones: seq<Bone>)
    ensures Firm(Solid(bones)) == Firm(bones)
  {
    if bones != [] {
      FirmOfSolid(bones[1..]);
      FirmAppend(if (bones[0].Open? || bones[0].Close?) && IsParagraph(bones[0].shell) then [] else [bones[0]],
                 Solid(bones[1..]));
      assert [bones[0]][1..] == [];
    }
  }

  lemma FirmOfOne(c: Classifier, bone: Bone, bindings: Bindings)
    requires !IsKept(c, bone) && !IsSeamBone(c, bone) && Resolves(bone, bindings)
    ensures Firm(ResolvedBone(bone, bindings)) == []
  {
    assert bone != Stuck(TypographyBoundary);
    assert ResolvedBone(bone, bindings) == [bone] && [bone][1..] == [];
  }

  /** What the suppression pass may lose leaves no firm trace once resolved. */
  lemma {:induction false} KeptIsEnough(c: Classifier, bones: seq<Bone>, bindings: Bindings)
    requires NoSeam(c, bones) && AllResolve(bones, bindings)
    ensures Firm(Resolved(Kept(c, bones), bindings)) == Firm(Resolved(bones, bindings))
  {
    hide IsFirm, IsKept, IsSeamBone, Resolves, ResolvedBone;
    if bones != [] {
      assert forall k | 0 <= k < |bones[1..]| :: bones[1..][k] == bones[k + 1];
      KeptIsEnough(c, bones[1..], bindings);
      FirmAppend(ResolvedBone(bones[0], bindings), Resolved(bones[1..], bindings));
      var head, tail := if IsKept(c, bones[0]) then [bones[0]] else [], Kept(c, bones[1..]);
      if IsKept(c, bones[0]) {
        assert (head + tail)[1..] == tail;
        FirmAppend(ResolvedBone(bones[0], bindings), Resolved(tail, bindings));
      } else {
        FirmOfOne(c, bones[0], bindings);
        assert head + tail == tail;
      }
    }
  }

  /** The two passes compose: every occurrence is counted by exactly one of
      them. */
  lemma PassesCompose(bindings: Bindings, before: seq<Bone>, middle: seq<Bone>, after: seq<Bone>)
    requires KeptAlike(Bound(bindings), before, middle) && Settled(bindings, middle, after)
    ensures BoneOccurrences(before) == SeamSlots(Bound(bindings), before) + BoneOccurrences(middle)
    ensures BoundTo(bindings, before, after)
  {
    hide IsKept, IsSeamBone, Firm, Resolved, Solid, HasNode, AllResolve, NoSeam, KeptAlike;
    AlikeConserves(Bound(bindings), before, middle);
    AlikeKept(Bound(bindings), before, middle);
    KeptIsEnough(Bound(bindings), middle, bindings);
    FirmOfSolid(after);
    FirmOfSolid(Resolved(middle, bindings));
  }

  lemma AlikeKept(c: Classifier, before: seq<Bone>, after: seq<Bone>)
    requires KeptAlike(c, before, after)
    ensures Kept(c, after) == Kept(c, before) && NoSeam(c, after)
  {
  }

  // ----- whole trees

  datatype SyntaxTree = SyntaxTree(elements: seq<Element>, tableOfContents: seq<Element>, footnotes: seq<Cell>,
                                   bibliographies: seq<Cell>)

  function TreeOccurrences(tree: SyntaxTree): nat {
    Occurrences(tree.elements) + Occurrences(tree.tableOfContents)
    + BoneOccurrences(BonesOfCells(tree.footnotes)) + BoneOccurrences(BonesOfCells(tree.bibliographies))
  }

  /** The slots of all seams. */
  function TreeSeamSlots(c: Classifier, tree: SyntaxTree): nat {
    SeamSlots(c, Bones(tree.elements)) + SeamSlots(c, Bones(tree.tableOfContents))
    + SeamSlots(c, BonesOfCells(tree.footnotes)) + SeamSlots(c, BonesOfCells(tree.bibliographies))
  }

  ghost function SuppressedTree(tree: SyntaxTree, pass: Pass): SyntaxTree {
    SyntaxTree(SuppressAll(tree.elements, pass), SuppressAll(tree.tableOfContents, pass),
               SuppressCells(tree.footnotes, pass), SuppressCells(tree.bibliographies, pass))
  }

  ghost function ResolvedTree(tree: SyntaxTree, bindings: Bindings): SyntaxTree {
    SyntaxTree(ResolveAll(tree.elements, bindings), ResolveAll(tree.tableOfContents, bindings),
               ResolvedCells(tree.footnotes, bindings), ResolvedCells(tree.bibliographies, bindings))
  }

  /** The tree binding makes of `tree`. */
  ghost function Bind(tree: SyntaxTree, pass: Pass, bindings: Bindings): SyntaxTree {
    ResolvedTree(SuppressedTree(tree, pass), bindings)
  }

  ghost predicate BoundTree(bindings: Bindings, before: SyntaxTree, after: SyntaxTree) {
    && BoundTo(bindings, Bones(before.elements), Bones(after.elements))
    && BoundTo(bindings, Bones(before.tableOfContents), Bones(after.tableOfContents))
    && |after.footnotes| == |before.footnotes|
    && (forall k | 0 <= k < |before.footnotes| ::
          BoundTo(bindings, Bones(before.footnotes[k].elements), Bones(after.footnotes[k].elements)))
    && BoundTo(bindings, BonesOfCells(before.bibliographies), BonesOfCells(after.bibliographies))
  }

  predicate TreeContainsDelayed(tree: SyntaxTree) {
    || ElementsContainDelayed(tree.elements)
    || ElementsContainDelayed(tree.tableOfContents)
    || (exists k :: 0 <= k < |tree.footnotes| && CellContainsDelayed(tree.footnotes[k]))
    || (exists k :: 0 <= k < |tree.bibliographies| && CellContainsDelayed(tree.bibliographies[k]))
  }

  predicate TreeSeamsBound(bindings: Bindings, tree: SyntaxTree) {
    var c := Bound(bindings);
    && SeamsBound(c, Bones(tree.elements)) && SeamsBound(c, Bones(tree.tableOfContents))
    && SeamsBound(c, BonesOfCells(tree.footnotes)) && SeamsBound(c, BonesOfCells(tree.bibliographies))
  }

  ghost predicate TreeResolvable(bindings: Bindings, tree: SyntaxTree) {
    && Resolvable(tree.elements, bindings) && Resolvable(tree.tableOfContents, bindings)
    && CellsResolve(tree.footnotes, bindings) && CellsResolve(tree.bibliographies, bindings)
  }

  /** The suppression pass over every part, in order. */
  method SuppressTree(tree: SyntaxTree, pass: Pass)
    returns (r: Result<SyntaxTree, DelayedError>, counter: nat)
    requires pass.c.Bound?
    ensures r.Ok? <==> TreeSeamsBound(pass.c.bindings, tree)
    ensures r.Ok? ==> r.value == SuppressedTree(tree, pass) && counter == TreeSeamSlots(pass.c, tree)
    ensures r.Err? ==> r.error == BindingSchemaMismatch
  {
    hide Bones, BonesOfCells, SeamsBound, SeamSlots, SuppressAll, SuppressCells;
    var elements, a := RewriteElements(tree.elements, pass, 0);
    if elements.Err? {
      return Err(elements.error), a;
    }
    var contents, b := RewriteElements(tree.tableOfContents, pass, a);
    if contents.Err? {
      return Err(contents.error), b;
    }
    var footnotes, d := VisitCells(tree.footnotes, pass, b);
    if footnotes.Err? {
      return Err(footnotes.error), d;
    }
    var bibliographies, e := VisitCells(tree.bibliographies, pass, d);
    if bibliographies.Err? {
      return Err(bibliographies.error), e;
    }
    return Ok(SyntaxTree(elements.value, contents.value, footnotes.value, bibliographies.value)), e;
  }

  ghost predicate SettledTree(bindings: Bindings, before: SyntaxTree, after: SyntaxTree) {
    && Settled(bindings, Bones(before.elements), Bones(after.elements))
    && Settled(bindings, Bones(before.tableOfContents), Bones(after.tableOfContents))
    && Settled(bindings, BonesOfCells(before.footnotes), BonesOfCells(after.footnotes))
    && Settled(bindings, BonesOfCells(before.bibliographies), BonesOfCells(after.bibliographies))
    && |after.footnotes| == |before.footnotes|
    && (forall k | 0 <= k < |before.footnotes| ::
          Settled(bindings, Bones(before.footnotes[k].elements), Bones(after.footnotes[k].elements)))
  }

  /** The resolve pass over every part, in order, on the same counter. */
  method ResolveTree(tree: SyntaxTree, bindings: Bindings, counter: nat)
    returns (r: Result<SyntaxTree, DelayedError>, counter': nat)
    ensures r.Ok? <==> TreeResolvable(bindings, tree)
    ensures r.Ok? ==> r.value == ResolvedTree(tree, bindings)
    ensures r.Ok? ==> SettledTree(bindings, tree, r.value) && counter' == counter + TreeOccurrences(tree)
  {
    hide Settled, HasNode, Bones, BonesOfCells, BoneOccurrences, Resolvable, CellsResolve, ResolveAll, ResolveCell;
    var elements, a := ResolveElements(tree.elements, bindings, counter);
    if elements.Err? {
      return Err(elements.error), a;
    }
    var contents, b := ResolveElements(tree.tableOfContents, bindings, a);
    if contents.Err? {
      return Err(contents.error), b;
    }
    var footnotes, d := ResolveCells(tree.footnotes, bindings, b);
    if footnotes.Err? {
      return Err(footnotes.error), d;
    }
    var bibliographies, e := ResolveCells(tree.bibliographies, bindings, d);
    if bibliographies.Err? {
      return Err(bibliographies.error), e;
    }
    assert footnotes.value == ResolvedCells(tree.footnotes, bindings);
    assert bibliographies.value == ResolvedCells(tree.bibliographies, bindings);
    return Ok(SyntaxTree(elements.value, contents.value, footnotes.value, bibliographies.value)), e;
  }

  /** What both passes make of a tree, measured on its skeleton. */
  lemma TreePassesCompose(bindings: Bindings, pass: Pass, before: SyntaxTree, after: SyntaxTree)
    requires pass.c == Bound(bindings) && SettledTree(bindings, SuppressedTree(before, pass), after)
    ensures BoundTree(bindings, before, after)
    ensures TreeSeamSlots(pass.c, before) + TreeOccurrences(SuppressedTree(before, pass)) == TreeOccurrences(before)
  {
    hide KeptAlike, Settled, BoundTo, Bones, BonesOfCells, BoneOccurrences, SuppressAll, SuppressCells, SeamSlots;
    var middle := SuppressedTree(before, pass);
    SuppressKeeps(before.elements, pass);
    SuppressKeeps(before.tableOfContents, pass);
    CellsKeep(before.footnotes, pass);
    CellsKeep(before.bibliographies, pass);
    PassesCompose(bindings, Bones(before.elements), Bones(middle.elements), Bones(after.elements));
    PassesCompose(bindings, Bones(before.tableOfContents), Bones(middle.tableOfContents), Bones(after.tableOfContents));
    PassesCompose(bindings, BonesOfCells(before.footnotes), BonesOfCells(middle.footnotes),
                  BonesOfCells(after.footnotes));
    PassesCompose(bindings, BonesOfCells(before.bibliographies), BonesOfCells(middle.bibliographies),
                  BonesOfCells(after.bibliographies));
    forall k | 0 <= k < |before.footnotes|
      ensures BoundTo(bindings, Bones(before.footnotes[k].elements), Bones(after.footnotes[k].elements))
    {
      SuppressKeeps(before.footnotes[k].elements, pass);
      SuppressedNote(before.footnotes, k, pass);
      PassesCompose(bindings, Bones(before.footnotes[k].elements), Bones(middle.footnotes[k].elements),
                    Bones(after.footnotes[k].elements));
    }
  }

  lemma SuppressedNote(cells: seq<Cell>, k: nat, pass: Pass)
    requires k < |cells|
    ensures SuppressCells(cells, pass)[k].elements == SuppressAll(cells[k].elements, pass)
  {
    hide SuppressAll;
    assert SuppressCells(cells, pass)[k] == SuppressCell(cells[k], pass);
  }

  lemma SettledTreeIsClear(bindings: Bindings, before: SyntaxTree, after: SyntaxTree)
    requires SettledTree(bindings, before, after)
    ensures !TreeContainsDelayed(after)
  {
    ContainsIsHasNode(after.elements);
    ContainsIsHasNode(after.tableOfContents);
    CellsContainIsHasNode(after.footnotes);
    CellsContainIsHasNode(after.bibliographies);
  }

  // ----- when binding succeeds

  predicate TreeListsOnly(tree: SyntaxTree) {
    && ListsOnly(tree.elements) && ListsOnly(tree.tableOfContents)
    && CellsListsOnly(tree.footnotes)
    && CellsListsOnly(tree.bibliographies)
  }

  /** Every node but the seams resolves. */
  ghost predicate TreeNodesResolve(bindings: Bindings, tree: SyntaxTree) {
    var c := Bound(bindings);
    && AllResolve(Kept(c, Bones(tree.elements)), bindings)
    && AllResolve(Kept(c, Bones(tree.tableOfContents)), bindings)
    && AllResolve(Kept(c, BonesOfCells(tree.footnotes)), bindings)
    && AllResolve(Kept(c, BonesOfCells(tree.bibliographies)), bindings)
  }

  /** A list never resolves to anything but one list. */
  lemma {:induction false} ListsReturn(es: seq<Element>, bindings: Bindings)
    requires ListsOnly(es)
    ensures SublistsReturn(es, bindings)
    decreases es
  {
    forall k | 0 <= k < |es| ensures SublistsReturnIn(es[k], bindings) {
      ListsReturnIn(es[k], bindings);
    }
  }

  lemma {:induction false} ListsReturnIn(e: Element, bindings: Bindings)
    requires ListsOnlyIn(e)
    ensures SublistsReturnIn(e, bindings)
    decreases e
  {
    hide ResolveNext;
    match e
    case Container(_, children, _) => ListsReturn(children, bindings);
    case Color(_, _, children) => ListsReturn(children, bindings);
    case Wrapper(_, children) => ListsReturn(children, bindings);
    case List(_, items) =>
      forall k | 0 <= k < |items| ensures ItemReturns(items[k], bindings) {
        ItemListsReturn(items[k], bindings);
      }
    case Grid(_, cells) =>
      forall k | 0 <= k < |cells| ensures CellReturns(cells[k], bindings) {
        assert CellListsOnly(cells[k]);
        ListsReturn(cells[k].elements, bindings);
      }
    case _ =>
  }

  lemma {:induction false} ItemListsReturn(item: ListItem, bindings: Bindings)
    requires ItemListsOnly(item)
    ensures ItemReturns(item, bindings)
    decreases item
  {
    match item
    case Elements(elements, _) => ListsReturn(elements, bindings);
    case SubList(element) =>
      ListsReturnIn(element, bindings);
      assert |ResolveElement(element, bindings)| == 1;
  }

  ghost predicate NoneStuck(bones: seq<Bone>) {
    forall k | 0 <= k < |bones| :: !bones[k].Stuck?
  }

  lemma NoneStuckAppend(a: seq<Bone>, b: seq<Bone>)
    requires NoneStuck(a) && NoneStuck(b)
    ensures NoneStuck(a + b)
  {
  }

  lemma NoneStuckWrap(shell: Shell, inner: seq<Bone>)
    requires NoneStuck(inner)
    ensures NoneStuck(Wrap(shell, inner))
  {
  }

  lemma {:induction false} ListsNotStuck(es: seq<Element>)
    requires ListsOnly(es)
    ensures NoneStuck(Bones(es))
    decreases es
  {
    if es != [] {
      ListNotStuck(es[0]);
      assert forall k | 0 <= k < |es[1..]| :: es[1..][k] == es[k + 1];
      ListsNotStuck(es[1..]);
      NoneStuckAppend(BonesOf(es[0]), Bones(es[1..]));
    }
  }

  lemma {:induction false} ListNotStuck(e: Element)
    requires ListsOnlyIn(e)
    ensures NoneStuck(BonesOf(e))
    decreases e
  {
    match e
    case Container(kind, children, attributes) =>
      ListsNotStuck(children);
      NoneStuckWrap(ContainerShell(kind, attributes), Bones(children));
    case Color(color, background, children) =>
      ListsNotStuck(children);
      NoneStuckWrap(ColorShell(color, background), Bones(children));
    case Wrapper(tag, children) =>
      ListsNotStuck(children);
      NoneStuckWrap(WrapperShell(tag), Bones(children));
    case List(shape, items) =>
      ItemsNotStuck(items);
      NoneStuckWrap(ListMark(shape), BonesOfItems(items));
    case Grid(grid, cells) =>
      CellsNotStuck(cells);
      NoneStuckWrap(GridShell(grid), BonesOfCells(cells));
    case _ =>
  }

  lemma {:induction false} ItemsNotStuck(items: seq<ListItem>)
    requires ItemsListsOnly(items)
    ensures NoneStuck(BonesOfItems(items))
    decreases items
  {
    if items != [] {
      ItemNotStuck(items[0]);
      assert forall k | 0 <= k < |items[1..]| :: items[1..][k] == items[k + 1];
      ItemsNotStuck(items[1..]);
      NoneStuckAppend(BonesOfItem(items[0]), BonesOfItems(items[1..]));
    }
  }

  lemma {:induction false} ItemNotStuck(item: ListItem)
    requires ItemListsOnly(item)
    ensures NoneStuck(BonesOfItem(item))
    decreases item
  {
    match item
    case Elements(elements, attributes) =>
      ListsNotStuck(elements);
      NoneStuckWrap(ItemMark(attributes), Bones(elements));
    case SubList(element) =>
      ListNotStuck(element);
      NoneStuckWrap(SubListMark, BonesOf(element));
  }

  lemma {:induction false} CellsNotStuck(cells: seq<Cell>)
    requires CellsListsOnly(cells)
    ensures NoneStuck(BonesOfCells(cells))
    decreases cells
  {
    if cells != [] {
      ListsNotStuck(cells[0].elements);
      NoneStuckWrap(CellMark, Bones(cells[0].elements));
      assert forall k | 0 <= k < |cells[1..]| :: cells[1..][k] == cells[k + 1];
      CellsNotStuck(cells[1..]);
      NoneStuckAppend(BonesOfCell(cells[0]), BonesOfCells(cells[1..]));
    }
  }

  /** What the suppression pass keeps decides whether the rest resolves. */
  lemma {:induction false} KeptDecides(c: Classifier, bones: seq<Bone>, bindings: Bindings)
    requires NoSeam(c, bones) && NoneStuck(bones)
    ensures AllResolve(bones, bindings) <==> AllResolve(Kept(c, bones), bindings)
  {
    if bones != [] {
      assert forall k | 0 <= k < |bones[1..]| :: bones[1..][k] == bones[k + 1];
      KeptDecides(c, bones[1..], bindings);
      AllResolveAppend([bones[0]], bones[1..], bindings);
      assert [bones[0]] + bones[1..] == bones;
      var head := if IsKept(c, bones[0]) then [bones[0]] else [];
      AllResolveAppend(head, Kept(c, bones[1..]), bindings);
      assert AllResolve([bones[0]], bindings) <==> Resolves(bones[0], bindings) by {
        assert [bones[0]][0] == bones[0];
      }
      assert head == [] ==> Resolves(bones[0], bindings) && AllResolve(head, bindings);
    }
  }

  lemma PartDecides(bindings: Bindings, before: seq<Bone>, middle: seq<Bone>)
    requires KeptAlike(Bound(bindings), before, middle) && NoneStuck(middle)
    ensures AllResolve(middle, bindings) <==> AllResolve(Kept(Bound(bindings), before), bindings)
  {
    hide AllResolve, NoneStuck, NoSeam;
    KeptDecides(Bound(bindings), middle, bindings);
  }

  lemma TreeStaysLists(tree: SyntaxTree, pass: Pass)
    requires TreeListsOnly(tree)
    ensures TreeListsOnly(SuppressedTree(tree, pass))
  {
    hide ListsOnly, CellsListsOnly, SuppressAll, SuppressCells;
    SuppressKeepsLists(tree.elements, pass);
    SuppressKeepsLists(tree.tableOfContents, pass);
    CellsKeepLists(tree.footnotes, pass);
    CellsKeepLists(tree.bibliographies, pass);
  }

  /** With lists as the only sublists, the resolve pass succeeds exactly when every
      node of the original but the seams resolves. */
  lemma ListsDecide(bindings: Bindings, pass: Pass, tree: SyntaxTree)
    requires pass.c == Bound(bindings) && TreeListsOnly(tree)
    ensures TreeResolvable(bindings, SuppressedTree(tree, pass)) <==> TreeNodesResolve(bindings, tree)
  {
    hide KeptAlike, AllResolve, NoneStuck, ListsOnly, CellsListsOnly, SublistsReturn, Bones, BonesOfCells, Kept,
         SuppressAll, SuppressCells;
    var middle := SuppressedTree(tree, pass);
    TreeStaysLists(tree, pass);
    SuppressKeeps(tree.elements, pass);
    SuppressKeeps(tree.tableOfContents, pass);
    CellsKeep(tree.footnotes, pass);
    CellsKeep(tree.bibliographies, pass);
    ListsNotStuck(middle.elements);
    ListsNotStuck(middle.tableOfContents);
    CellsNotStuck(middle.footnotes);
    CellsNotStuck(middle.bibliographies);
    PartDecides(bindings, Bones(tree.elements), Bones(middle.elements));
    PartDecides(bindings, Bones(tree.tableOfContents), Bones(middle.tableOfContents));
    PartDecides(bindings, BonesOfCells(tree.footnotes), BonesOfCells(middle.footnotes));
    PartDecides(bindings, BonesOfCells(tree.bibliographies), BonesOfCells(middle.bibliographies));
    ListsReturn(middle.elements, bindings);
    ListsReturn(middle.tableOfContents, bindings);
    CellListsReturn(middle.footnotes, bindings);
    CellListsReturn(middle.bibliographies, bindings);
  }

  lemma CellListsReturn(cells: seq<Cell>, bindings: Bindings)
    requires CellsListsOnly(cells)
    ensures forall k | 0 <= k < |cells| :: CellReturns(cells[k], bindings)
  {
    hide ListsOnly, SublistsReturn;
    forall k | 0 <= k < |cells| ensures CellReturns(cells[k], bindings) {
      ListsReturn(cells[k].elements, bindings);
    }
  }

  // ----- what a bound tree says

  ghost predicate QuietCells(cells: seq<Cell>, pass: Pass, spell: Spelling) {
    forall k | 0 <= k < |cells| :: QuietRun(cells[k].elements, pass, spell)
  }

  /** Every flush of the tree makes quiet edits. */
  ghost predicate QuietTree(tree: SyntaxTree, pass: Pass, spell: Spelling) {
    && QuietRun(tree.elements, pass, spell) && QuietRun(tree.tableOfContents, pass, spell)
    && QuietCells(tree.footnotes, pass, spell) && QuietCells(tree.bibliographies, pass, spell)
  }

  ghost predicate CellsSayTheSame(before: seq<Cell>, after: seq<Cell>, rd: Reader) {
    && |after| == |before|
    && forall k | 0 <= k < |before| :: Reading(after[k].elements, rd) == Reading(before[k].elements, rd)
  }

  ghost predicate SaysTheSame(before: SyntaxTree, after: SyntaxTree, rd: Reader) {
    && Reading(after.elements, rd) == Reading(before.elements, rd)
    && Reading(after.tableOfContents, rd) == Reading(before.tableOfContents, rd)
    && CellsSayTheSame(before.footnotes, after.footnotes, rd)
    && CellsSayTheSame(before.bibliographies, after.bibliographies, rd)
  }

  lemma BoundCellsSayTheSame(cells: seq<Cell>, pass: Pass, bindings: Bindings, spell: Spelling)
    requires pass.c == Bound(bindings) && QuietCells(cells, pass, spell)
    ensures CellsSayTheSame(cells, ResolvedCells(SuppressCells(cells, pass), bindings), BoundReader(bindings, spell))
  {
    hide Reading, QuietRun, ResolveAll, SuppressAll, BoundReader;
    var after := ResolvedCells(SuppressCells(cells, pass), bindings);
    forall k | 0 <= k < |cells|
      ensures Reading(after[k].elements, BoundReader(bindings, spell))
           == Reading(cells[k].elements, BoundReader(bindings, spell))
    {
      SuppressedNote(cells, k, pass);
      BindingReads(cells[k].elements, pass, bindings, spell);
    }
  }

  /** A bound tree says what the original says, its nodes read as what they resolve
      to: text, line breaks, paragraphs and all else. */
  lemma BoundTreeReads(tree: SyntaxTree, pass: Pass, bindings: Bindings, spell: Spelling)
    requires pass.c == Bound(bindings) && QuietTree(tree, pass, spell)
    ensures SaysTheSame(tree, Bind(tree, pass, bindings), BoundReader(bindings, spell))
  {
    hide Reading, QuietRun, QuietCells, CellsSayTheSame, ResolveAll, SuppressAll, SuppressCells, ResolvedCells,
         BoundReader;
    BindingReads(tree.elements, pass, bindings, spell);
    BindingReads(tree.tableOfContents, pass, bindings, spell);
    BoundCellsSayTheSame(tree.footnotes, pass, bindings, spell);
    BoundCellsSayTheSame(tree.bibliographies, pass, bindings, spell);
  }

  /** With a quiet oracle that holds of every tree. */
  lemma QuietOracleTree(tree: SyntaxTree, pass: Pass, spell: Spelling)
    requires Quiet(pass.oracle, spell)
    ensures QuietTree(tree, pass, spell)
  {
    hide Quiet, QuietRun;
    QuietOracleRuns(tree.elements, pass, spell);
    QuietOracleRuns(tree.tableOfContents, pass, spell);
    forall k | 0 <= k < |tree.footnotes| ensures QuietRun(tree.footnotes[k].elements, pass, spell) {
      QuietOracleRuns(tree.footnotes[k].elements, pass, spell);
    }
    forall k | 0 <= k < |tree.bibliographies| ensures QuietRun(tree.bibliographies[k].elements, pass, spell) {
      QuietOracleRuns(tree.bibliographies[k].elements, pass, spell);
    }
  }

  // ----- binding, as run

  /** Binding succeeds exactly when every seam's slots are bound, what the first
      pass leaves resolves, and the expected count is the tree's; so the final guard
      can fire on the count alone. Where every sublist is a list, the second
      condition is a matter of the original tree's nodes. */
  method BindDelayedTree(tree: SyntaxTree, bindings: Bindings, expected: nat, typography: bool, oracle: SeamOracle)
    returns (r: Result<SyntaxTree, DelayedError>)
    ensures
      var pass := Pass(Bound(bindings), typography, oracle);
      var passed := TreeSeamsBound(bindings, tree) && TreeResolvable(bindings, SuppressedTree(tree, pass));
      && (r.Ok? <==> passed && expected == TreeOccurrences(tree))
      && (r.Ok? ==> r.value == Bind(tree, pass, bindings))
      && (passed && r.Err? ==> r.error == UnresolvedGeneratedOwner)
      && (!TreeSeamsBound(bindings, tree) ==> r == Err(BindingSchemaMismatch))
      && (TreeListsOnly(tree) ==>
            (TreeResolvable(bindings, SuppressedTree(tree, pass)) <==> TreeNodesResolve(bindings, tree)))
    ensures r.Ok? ==> BoundTree(bindings, tree, r.value) && !TreeContainsDelayed(r.value)
  {
    hide SuppressedTree, SettledTree, BoundTree, TreeOccurrences, TreeSeamSlots, TreeContainsDelayed, TreeSeamsBound,
         TreeResolvable, TreeListsOnly, TreeNodesResolve, ResolvedTree;
    var pass := Pass(Bound(bindings), typography, oracle);
    if TreeListsOnly(tree) {
      ListsDecide(bindings, pass, tree);
    }
    var suppressed, counter := SuppressTree(tree, pass);
    if suppressed.Err? {
      return Err(suppressed.error);
    }
    var resolved, total := ResolveTree(suppressed.value, bindings, counter);
    if resolved.Err? {
      return Err(resolved.error);
    }
    TreePassesCompose(bindings, pass, tree, resolved.value);
    SettledTreeIsClear(bindings, suppressed.value, resolved.value);
    if total != expected || TreeContainsDelayed(resolved.value) {
      return Err(UnresolvedGeneratedOwner);
    }
    return resolved;
  }
}
