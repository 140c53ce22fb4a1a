/** Where the headings of a tree stand in its skeleton: each is the bracketed
    segment at a mark, in the tree or in a footnote. */
module Segments {
  import opened Seqs
  import opened Tree
  import opened DelayedSpec
  import opened Suppression
  import opened Headings

  // ----- brackets

  function Weight(bone: Bone): int {
    if bone.Open? then 1 else if bone.Close? then -1 else 0
  }

  /** How many more brackets open than close. */
  function Balance(bones: seq<Bone>): int {
    if bones == [] then 0 else Weight(bones[0]) + Balance(bones[1..])
  }

  lemma {:induction false} BalanceAppend(a: seq<Bone>, b: seq<Bone>)
    ensures Balance(a + b) == Balance(a) + Balance(b)
  {
    hide Weight;
    if a == [] {
      assert a + b == b;
    } else {
      assert (a + b)[1..] == a[1..] + b && (a + b)[0] == a[0];
      BalanceAppend(a[1..], b);
    }
  }

  lemma BalanceOne(bone: Bone)
    ensures Balance([bone]) == Weight(bone) && Balance([]) == 0
  {
    assert [bone][1..] == [];
  }

  ghost predicate Balanced(bones: seq<Bone>) {
    Balance(bones) == 0 && forall m | 0 <= m <= |bones| :: Balance(bones[..m]) >= 0
  }

  lemma BalancedAppend(a: seq<Bone>, b: seq<Bone>)
    requires Balanced(a) && Balanced(b)
    ensures Balanced(a + b)
  {
    hide Balance;
    BalanceAppend(a, b);
    forall m | 0 <= m <= |a + b| ensures Balance((a + b)[..m]) >= 0 {
      if m <= |a| {
        assert (a + b)[..m] == a[..m];
      } else {
        assert (a + b)[..m] == a + b[..m - |a|];
        BalanceAppend(a, b[..m - |a|]);
      }
    }
  }

  lemma WrapPrefix(shell: Shell, inner: seq<Bone>, m: nat)
    requires Balanced(inner) && 0 < m < |Wrap(shell, inner)|
    ensures Balance(Wrap(shell, inner)[..m]) > 0 && Balance(Wrap(shell, inner)) == 0
  {
    hide Balance;
    BalanceOne(Open(shell));
    BalanceOne(Close(shell));
    BalanceAppend([Open(shell)], inner);
    BalanceAppend([Open(shell)] + inner, [Close(shell)]);
    assert Wrap(shell, inner)[..m] == [Open(shell)] + inner[..m - 1];
    BalanceAppend([Open(shell)], inner[..m - 1]);
  }

  lemma BalancedWrap(shell: Shell, inner: seq<Bone>)
    requires Balanced(inner)
    ensures Balanced(Wrap(shell, inner))
  {
    hide Balance;
    var whole := Wrap(shell, inner);
    forall m | 0 <= m <= |whole| ensures Balance(whole[..m]) >= 0 && Balance(whole) == 0 {
      WrapPrefix(shell, inner, 1);
      if 0 < m < |whole| {
        WrapPrefix(shell, inner, m);
      } else if m == 0 {
        BalanceOne(Open(shell));
        assert whole[..0] == [];
      } else {
        assert whole[..m] == whole;
      }
    }
    assert Balance(whole[..0]) >= 0;
  }

  lemma {:induction false} UnbracketedIsBalanced(bones: seq<Bone>)
    requires forall k | 0 <= k < |bones| :: !bones[k].Open? && !bones[k].Close?
    ensures Balanced(bones)
  {
    if bones == [] {
      assert bones[..0] == [];
    } else {
      UnbracketedIsBalanced(bones[1..]);
      assert [bones[0]] + bones[1..] == bones && [bones[0]][..1] == [bones[0]];
      BalanceOne(bones[0]);
      assert Balanced([bones[0]]);
      BalancedAppend([bones[0]], bones[1..]);
    }
  }

  /** The brackets of a skeleton match. */
  lemma {:induction false} BonesMatch(es: seq<Element>)
    ensures Balanced(Bones(es))
    decreases es
  {
    hide Balanced, BonesOf;
    if es == [] {
      UnbracketedIsBalanced([]);
    } else {
      BonesOfMatch(es[0]);
      BonesMatch(es[1..]);
      BalancedAppend(BonesOf(es[0]), Bones(es[1..]));
    }
  }

  lemma {:induction false} BonesOfMatch(e: Element)
    ensures Balanced(BonesOf(e))
    decreases e
  {
    hide Balanced, Wrap, Bones, BonesOfItems, BonesOfCells;
    match e
    case Container(kind, children, attributes) =>
      BonesMatch(children);
      BalancedWrap(ContainerShell(kind, attributes), Bones(children));
    case Color(color, background, children) =>
      BonesMatch(children);
      BalancedWrap(ColorShell(color, background), Bones(children));
    case Wrapper(tag, children) =>
      BonesMatch(children);
      BalancedWrap(WrapperShell(tag), Bones(children));
    case List(shape, items) =>
      ItemBonesMatch(items);
      BalancedWrap(ListMark(shape), BonesOfItems(items));
    case Grid(grid, cells) =>
      CellBonesMatch(cells);
      BalancedWrap(GridShell(grid), BonesOfCells(cells));
    case _ => UnbracketedIsBalanced(BonesOf(e));
  }

  lemma {:induction false} ItemBonesMatch(items: seq<ListItem>)
    ensures Balanced(BonesOfItems(items))
    decreases items
  {
    hide Balanced, BonesOfItem;
    if items == [] {
      UnbracketedIsBalanced([]);
    } else {
      OneItemMatches(items[0]);
      ItemBonesMatch(items[1..]);
      BalancedAppend(BonesOfItem(items[0]), BonesOfItems(items[1..]));
    }
  }

  lemma {:induction false} OneItemMatches(item: ListItem)
    ensures Balanced(BonesOfItem(item))
    decreases item
  {
    hide Balanced, Wrap, Bones, BonesOf;
    match item
    case Elements(elements, attributes) =>
      BonesMatch(elements);
      BalancedWrap(ItemMark(attributes), Bones(elements));
    case SubList(element) =>
      BonesOfMatch(element);
      if element.Delayed? {
        UnbracketedIsBalanced([Stuck(element.node)]);
        BalancedWrap(SubListMark, [Stuck(element.node)]);
      } else {
        BalancedWrap(SubListMark, BonesOf(element));
      }
  }

  lemma {:induction false} CellBonesMatch(cells: seq<Cell>)
    ensures Balanced(BonesOfCells(cells))
    decreases cells
  {
    hide Balanced, Wrap, Bones;
    if cells == [] {
      UnbracketedIsBalanced([]);
    } else {
      OneCellMatches(cells[0]);
      CellBonesMatch(cells[1..]);
      BalancedAppend(BonesOfCell(cells[0]), BonesOfCells(cells[1..]));
    }
  }

  lemma {:induction false} OneCellMatches(cell: Cell)
    ensures Balanced(BonesOfCell(cell))
    decreases cell
  {
    BonesMatch(cell.elements);
    BalancedWrap(CellMark, Bones(cell.elements));
  }

  // ----- the segment at a mark

  /** From the bracket at `p` up to where all that opened is closed again. */
  ghost predicate IsSegment(bones: seq<Bone>, p: nat, end: nat) {
    && p < end <= |bones| && bones[p].Open? && Balance(bones[p..end]) == 0
    && forall m | p < m < end :: Balance(bones[p..m]) > 0
  }

  lemma SegmentIsUnique(bones: seq<Bone>, p: nat, one: nat, other: nat)
    requires IsSegment(bones, p, one) && IsSegment(bones, p, other)
    ensures one == other
  {
    hide Balance;
  }

  /** `inside` stands in `bones` at `p`. */
  ghost predicate Inside(inside: seq<Bone>, bones: seq<Bone>, p: nat) {
    p + |inside| <= |bones| && bones[p..p + |inside|] == inside
  }

  lemma InsideParts(a: seq<Bone>, b: seq<Bone>, bones: seq<Bone>, p: nat)
    requires Inside(a + b, bones, p)
    ensures Inside(a, bones, p) && Inside(b, bones, p + |a|)
  {
    SliceOfSlice(bones, p, p + |a + b|, 0, |a|);
    SliceOfSlice(bones, p, p + |a + b|, |a|, |a + b|);
    assert (a + b)[0..|a|] == a && (a + b)[|a|..|a + b|] == b;
  }

  lemma InsideWrap(shell: Shell, inner: seq<Bone>, bones: seq<Bone>, p: nat)
    requires Inside(Wrap(shell, inner), bones, p)
    ensures Inside(inner, bones, p + 1)
  {
    hide Inside;
    InsideParts([Open(shell)] + inner, [Close(shell)], bones, p);
    InsideParts([Open(shell)], inner, bones, p);
  }

  lemma WrapIsSegment(shell: Shell, inner: seq<Bone>, bones: seq<Bone>, p: nat)
    requires Balanced(inner) && Inside(Wrap(shell, inner), bones, p)
    ensures IsSegment(bones, p, p + |inner| + 2)
  {
    hide Balance, Balanced;
    var whole := Wrap(shell, inner);
    WrapPrefix(shell, inner, 1);
    assert bones[p] == whole[0];
    forall m | p < m < p + |inner| + 2 ensures Balance(bones[p..m]) > 0 {
      SliceOfSlice(bones, p, p + |whole|, 0, m - p);
      assert bones[p..m] == whole[..m - p];
      WrapPrefix(shell, inner, m - p);
    }
  }

  // ----- where headings stand

  /** A place in the skeleton: of the elements, or of a footnote by its number. */
  datatype Site = Site(note: nat, at: nat)

  ghost function Part(root: seq<Bone>, footnotes: seq<Cell>, note: nat): seq<Bone> {
    if IsNote(note, |footnotes|) then Bones(footnotes[note - 1].elements) else root
  }

  /** The marks of headings a skeleton leads to, references followed. */
  ghost function Sites(bones: seq<Bone>, note: nat, at: nat, footnotes: seq<Cell>, rank: seq<nat>, r: nat): seq<Site>
    requires |rank| == |footnotes|
    decreases r, |bones|
  {
    if bones == [] then []
    else SitesOf(bones[0], note, at, footnotes, rank, r) + Sites(bones[1..], note, at + 1, footnotes, rank, r)
  }

  ghost function SitesOf(bone: Bone, note: nat, at: nat, footnotes: seq<Cell>, rank: seq<nat>, r: nat): seq<Site>
    requires |rank| == |footnotes|
    decreases r, 0
  {
    if bone.Open? && bone.shell.ContainerShell? && bone.shell.kind.Header? && bone.shell.kind.hasToc
    then [Site(note, at)]
    else if bone.NoteRef? && IsNote(bone.index, |footnotes|) && rank[bone.index - 1] < r
    then Sites(Bones(footnotes[bone.index - 1].elements), bone.index, 0, footnotes, rank, rank[bone.index - 1])
    else []
  }

  lemma {:induction false} SitesAppend(a: seq<Bone>, b: seq<Bone>, note: nat, at: nat, footnotes: seq<Cell>,
                                       rank: seq<nat>, r: nat)
    requires |rank| == |footnotes|
    ensures Sites(a + b, note, at, footnotes, rank, r)
         == Sites(a, note, at, footnotes, rank, r) + Sites(b, note, at + |a|, footnotes, rank, r)
    decreases |a|
  {
    hide SitesOf;
    if a == [] {
      assert a + b == b;
    } else {
      assert (a + b)[1..] == a[1..] + b && (a + b)[0] == a[0];
      SitesAppend(a[1..], b, note, at + 1, footnotes, rank, r);
      Regroup(SitesOf(a[0], note, at, footnotes, rank, r), Sites(a[1..], note, at + 1, footnotes, rank, r),
              Sites(b, note, at + |a|, footnotes, rank, r));
    }
  }

  lemma SitesWrap(shell: Shell, inner: seq<Bone>, note: nat, at: nat, footnotes: seq<Cell>, rank: seq<nat>, r: nat)
    requires |rank| == |footnotes|
    ensures Sites(Wrap(shell, inner), note, at, footnotes, rank, r)
         == (if IsHeading(shell) then [Site(note, at)] else []) + Sites(inner, note, at + 1, footnotes, rank, r)
  {
    SitesAppend([Open(shell)], inner, note, at, footnotes, rank, r);
    SitesAppend([Open(shell)] + inner, [Close(shell)], note, at, footnotes, rank, r);
    assert [Open(shell)][1..] == [] && [Close(shell)][1..] == [];
    assert Sites([Close(shell)], note, at + 1 + |inner|, footnotes, rank, r) == [];
  }

  lemma {:induction false} NoSites(bones: seq<Bone>, note: nat, at: nat, footnotes: seq<Cell>, rank: seq<nat>, r: nat)
    requires |rank| == |footnotes|
    requires forall k | 0 <= k < |bones| :: !bones[k].Open? && !bones[k].NoteRef?
    ensures Sites(bones, note, at, footnotes, rank, r) == []
    decreases |bones|
  {
    if bones != [] {
      assert forall k | 0 <= k < |bones[1..]| :: bones[1..][k] == bones[k + 1];
      NoSites(bones[1..], note, at + 1, footnotes, rank, r);
    }
  }

  lemma NoteSites(index: nat, note: nat, at: nat, footnotes: seq<Cell>, rank: seq<nat>, r: nat)
    requires |rank| == |footnotes|
    ensures Sites([NoteRef(index)], note, at, footnotes, rank, r)
         == if IsNote(index, |footnotes|) && rank[index - 1] < r
            then Sites(Bones(footnotes[index - 1].elements), index, 0, footnotes, rank, rank[index - 1])
            else []
  {
    hide Bones;
    var reference := [NoteRef(index)];
    assert reference[1..] == [] && Sites([], note, at + 1, footnotes, rank, r) == [];
  }

  // ----- every heading is the segment at its mark

  /** The heading is the segment at the site, in the part the site is in. */
  ghost predicate StandsAt(title: Title, site: Site, root: seq<Bone>, footnotes: seq<Cell>) {
    var bones, segment := Part(root, footnotes, site.note), Wrap(title.shell, Bones(title.contents));
    Inside(segment, bones, site.at) && IsSegment(bones, site.at, site.at + |segment|)
  }

  ghost predicate AllStand(titles: seq<Title>, sites: seq<Site>, root: seq<Bone>, footnotes: seq<Cell>) {
    |titles| == |sites| && forall k | 0 <= k < |titles| :: StandsAt(titles[k], sites[k], root, footnotes)
  }

  lemma AllStandAppend(t1: seq<Title>, s1: seq<Site>, t2: seq<Title>, s2: seq<Site>, root: seq<Bone>,
                       footnotes: seq<Cell>)
    requires AllStand(t1, s1, root, footnotes) && AllStand(t2, s2, root, footnotes)
    ensures AllStand(t1 + t2, s1 + s2, root, footnotes)
  {
    hide StandsAt;
  }

  lemma HeadingStands(shell: Shell, children: seq<Element>, note: nat, at: nat, root: seq<Bone>, footnotes: seq<Cell>)
    requires Inside(Wrap(shell, Bones(children)), Part(root, footnotes, note), at)
    ensures StandsAt(Title(shell, children), Site(note, at), root, footnotes)
  {
    hide Inside, Balanced, IsSegment;
    BonesMatch(children);
    WrapIsSegment(shell, Bones(children), Part(root, footnotes, note), at);
  }

  lemma {:induction false} TitlesStand(es: seq<Element>, root: seq<Bone>, footnotes: seq<Cell>, rank: seq<nat>, r: nat,
                                       note: nat, at: nat)
    requires |rank| == |footnotes| && Inside(Bones(es), Part(root, footnotes, note), at)
    ensures AllStand(Titles(es, footnotes, rank, r), Sites(Bones(es), note, at, footnotes, rank, r), root, footnotes)
    decreases r, es
  {
    hide TitlesOf, BonesOf, SitesOf, StandsAt, Inside, Part;
    if es != [] {
      var head, tail := BonesOf(es[0]), Bones(es[1..]);
      InsideParts(head, tail, Part(root, footnotes, note), at);
      SitesAppend(head, tail, note, at, footnotes, rank, r);
      TitlesOfStand(es[0], root, footnotes, rank, r, note, at);
      TitlesStand(es[1..], root, footnotes, rank, r, note, at + |head|);
      AllStandAppend(TitlesOf(es[0], footnotes, rank, r), Sites(head, note, at, footnotes, rank, r),
                     Titles(es[1..], footnotes, rank, r), Sites(tail, note, at + |head|, footnotes, rank, r), root,
                     footnotes);
    }
  }

  lemma WrappedStand(shell: Shell, inner: seq<Bone>, titles: seq<Title>, root: seq<Bone>, footnotes: seq<Cell>,
                     rank: seq<nat>, r: nat, note: nat, at: nat)
    requires |rank| == |footnotes| && !IsHeading(shell)
    requires AllStand(titles, Sites(inner, note, at + 1, footnotes, rank, r), root, footnotes)
    ensures AllStand(titles, Sites(Wrap(shell, inner), note, at, footnotes, rank, r), root, footnotes)
  {
    hide StandsAt, Sites, Wrap;
    SitesWrap(shell, inner, note, at, footnotes, rank, r);
    var sites := Sites(inner, note, at + 1, footnotes, rank, r);
    assert [] + sites == sites;
  }

  lemma {:induction false} TitlesOfStand(e: Element, root: seq<Bone>, footnotes: seq<Cell>, rank: seq<nat>, r: nat,
                                         note: nat, at: nat)
    requires |rank| == |footnotes| && Inside(BonesOf(e), Part(root, footnotes, note), at)
    ensures AllStand(TitlesOf(e, footnotes, rank, r), Sites(BonesOf(e), note, at, footnotes, rank, r), root, footnotes)
    decreases r, e
  {
    hide Wrap, Bones, Titles, Sites, StandsAt, Inside;
    var part := Part(root, footnotes, note);
    match e
    case Container(kind, children, attributes) =>
      var shell := ContainerShell(kind, attributes);
      InsideWrap(shell, Bones(children), part, at);
      TitlesStand(children, root, footnotes, rank, r, note, at + 1);
      HeadingStands(shell, children, note, at, root, footnotes);
      SitesWrap(shell, Bones(children), note, at, footnotes, rank, r);
      AllStandAppend(if IsHeading(shell) then [Title(shell, children)] else [],
                     if IsHeading(shell) then [Site(note, at)] else [], Titles(children, footnotes, rank, r),
                     Sites(Bones(children), note, at + 1, footnotes, rank, r), root, footnotes);
    case Color(color, background, children) =>
      InsideWrap(ColorShell(color, background), Bones(children), part, at);
      TitlesStand(children, root, footnotes, rank, r, note, at + 1);
      WrappedStand(ColorShell(color, background), Bones(children), Titles(children, footnotes, rank, r), root,
                   footnotes, rank, r, note, at);
    case Wrapper(tag, children) =>
      InsideWrap(WrapperShell(tag), Bones(children), part, at);
      TitlesStand(children, root, footnotes, rank, r, note, at + 1);
      WrappedStand(WrapperShell(tag), Bones(children), Titles(children, footnotes, rank, r), root, footnotes, rank, r,
                   note, at);
    case List(shape, items) =>
      InsideWrap(ListMark(shape), BonesOfItems(items), part, at);
      ItemTitlesStand(items, root, footnotes, rank, r, note, at + 1);
      WrappedStand(ListMark(shape), BonesOfItems(items), TitlesOfItems(items, footnotes, rank, r), root, footnotes,
                   rank, r, note, at);
    case Grid(grid, cells) =>
      InsideWrap(GridShell(grid), BonesOfCells(cells), part, at);
      CellTitlesStand(cells, root, footnotes, rank, r, note, at + 1);
      WrappedStand(GridShell(grid), BonesOfCells(cells), TitlesOfCells(cells, footnotes, rank, r), root, footnotes,
                   rank, r, note, at);
    case Footnote(index) =>
      NoteSites(index, note, at, footnotes, rank, r);
      if IsNote(index, |footnotes|) && rank[index - 1] < r {
        WholeIsInside(Part(root, footnotes, index));
        TitlesStand(footnotes[index - 1].elements, root, footnotes, rank, rank[index - 1], index, 0);
      }
    case _ =>
      NoSites(BonesOf(e), note, at, footnotes, rank, r);
  }

  lemma WholeIsInside(bones: seq<Bone>)
    ensures Inside(bones, bones, 0)
  {
  }

  lemma {:induction false} ItemTitlesStand(items: seq<ListItem>, root: seq<Bone>, footnotes: seq<Cell>, rank: seq<nat>,
                                           r: nat, note: nat, at: nat)
    requires |rank| == |footnotes| && Inside(BonesOfItems(items), Part(root, footnotes, note), at)
    ensures AllStand(TitlesOfItems(items, footnotes, rank, r),
                     Sites(BonesOfItems(items), note, at, footnotes, rank, r), root, footnotes)
    decreases r, items
  {
    hide TitlesOfItem, BonesOfItem, SitesOf, StandsAt, Inside, Part;
    if items != [] {
      var head, tail := BonesOfItem(items[0]), BonesOfItems(items[1..]);
      InsideParts(head, tail, Part(root, footnotes, note), at);
      SitesAppend(head, tail, note, at, footnotes, rank, r);
      ItemTitleStands(items[0], root, footnotes, rank, r, note, at);
      ItemTitlesStand(items[1..], root, footnotes, rank, r, note, at + |head|);
      AllStandAppend(TitlesOfItem(items[0], footnotes, rank, r), Sites(head, note, at, footnotes, rank, r),
                     TitlesOfItems(items[1..], footnotes, rank, r), Sites(tail, note, at + |head|, footnotes, rank, r),
                     root, footnotes);
    }
  }

  lemma {:induction false} ItemTitleStands(item: ListItem, root: seq<Bone>, footnotes: seq<Cell>, rank: seq<nat>,
                                           r: nat, note: nat, at: nat)
    requires |rank| == |footnotes| && Inside(BonesOfItem(item), Part(root, footnotes, note), at)
    ensures AllStand(TitlesOfItem(item, footnotes, rank, r), Sites(BonesOfItem(item), note, at, footnotes, rank, r),
                     root, footnotes)
    decreases r, item
  {
    hide Wrap, Bones, BonesOf, Titles, Sites, StandsAt, Inside, Part;
    var part := Part(root, footnotes, note);
    match item
    case Elements(elements, attributes) =>
      InsideWrap(ItemMark(attributes), Bones(elements), part, at);
      TitlesStand(elements, root, footnotes, rank, r, note, at + 1);
      WrappedStand(ItemMark(attributes), Bones(elements), Titles(elements, footnotes, rank, r), root, footnotes, rank,
                   r, note, at);
    case SubList(element) =>
      var inner := StuckBones(element);
      InsideWrap(SubListMark, inner, part, at);
      if element.Delayed? {
        NoSites(inner, note, at + 1, footnotes, rank, r);
      } else {
        TitlesOfStand(element, root, footnotes, rank, r, note, at + 1);
      }
      WrappedStand(SubListMark, inner, TitlesOf(element, footnotes, rank, r), root, footnotes, rank, r, note, at);
  }

  lemma {:induction false} CellTitlesStand(cells: seq<Cell>, root: seq<Bone>, footnotes: seq<Cell>, rank: seq<nat>,
                                           r: nat, note: nat, at: nat)
    requires |rank| == |footnotes| && Inside(BonesOfCells(cells), Part(root, footnotes, note), at)
    ensures AllStand(TitlesOfCells(cells, footnotes, rank, r),
                     Sites(BonesOfCells(cells), note, at, footnotes, rank, r), root, footnotes)
    decreases r, cells
  {
    hide Wrap, Bones, Titles, SitesOf, StandsAt, Inside, Part;
    if cells != [] {
      var head, tail := BonesOfCell(cells[0]), BonesOfCells(cells[1..]);
      InsideParts(head, tail, Part(root, footnotes, note), at);
      SitesAppend(head, tail, note, at, footnotes, rank, r);
      CellTitleStands(cells[0], root, footnotes, rank, r, note, at);
      CellTitlesStand(cells[1..], root, footnotes, rank, r, note, at + |head|);
      AllStandAppend(TitlesOfCell(cells[0], footnotes, rank, r), Sites(head, note, at, footnotes, rank, r),
                     TitlesOfCells(cells[1..], footnotes, rank, r), Sites(tail, note, at + |head|, footnotes, rank, r),
                     root, footnotes);
    }
  }

  lemma {:induction false} CellTitleStands(cell: Cell, root: seq<Bone>, footnotes: seq<Cell>, rank: seq<nat>, r: nat,
                                           note: nat, at: nat)
    requires |rank| == |footnotes| && Inside(BonesOfCell(cell), Part(root, footnotes, note), at)
    ensures AllStand(TitlesOfCell(cell, footnotes, rank, r), Sites(BonesOfCell(cell), note, at, footnotes, rank, r),
                     root, footnotes)
    decreases r, cell
  {
    hide Wrap, Bones, Titles, Sites, StandsAt, Inside, Part;
    InsideWrap(CellMark, Bones(cell.elements), Part(root, footnotes, note), at);
    TitlesStand(cell.elements, root, footnotes, rank, r, note, at + 1);
    WrappedStand(CellMark, Bones(cell.elements), Titles(cell.elements, footnotes, rank, r), root, footnotes, rank, r,
                 note, at);
  }
}
