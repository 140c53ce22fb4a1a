/** The suppression pass as a recursive function, and what it does to a skeleton:
    the seams go, and nothing else but text, line breaks beside them and emptied
    paragraphs. */
module Suppression {
  import opened Seqs
  import opened Tree
  import opened DelayedSpec
  import opened Seam

  /** Which nodes a suppression pass drops: those without slots before binding,
      or all of them once their slots are bound. */
  datatype Classifier = Static | Bound(bindings: Bindings)

  /** A pass: what it drops and how it edits the seams. */
  datatype Pass = Pass(c: Classifier, typography: bool, oracle: SeamOracle)

  predicate IsSeam(c: Classifier, node: DelayedNode) {
    node.TypographyBoundary? || (node.Suppressed? && (c.Static? ==> node.slots == []))
  }

  predicate SlotsBound(c: Classifier, node: DelayedNode) {
    c.Bound? && node.Suppressed? ==> forall k | 0 <= k < |node.slots| :: IsBound(node.slots[k], c.bindings)
  }

  predicate IsSeamBone(c: Classifier, bone: Bone) {
    bone.Node? && IsSeam(c, bone.node)
  }

  // ----- the pass

  predicate EndsWithBreak(es: seq<Element>) {
    es != [] && es[|es| - 1].LineBreak?
  }

  function Members(group: seq<Element>): (r: seq<Grouped>)
    ensures |r| == |group|
    ensures forall k | 0 <= k < |group| :: r[k] == if group[k].Text? then Joined(group[k].text) else Dropped
  {
    seq(|group|, k requires 0 <= k < |group| => if group[k].Text? then Joined(group[k].text) else Dropped)
  }

  /** Texts and seams collect in a group. */
  predicate Joins(c: Classifier, e: Element) {
    e.Text? || (e.Delayed? && IsSeam(c, e.node))
  }

  ghost function Flushed(output: seq<Element>, group: seq<Element>, pass: Pass): seq<Element> {
    output + FlushedGroup(Members(group), LastElementIsUrlOwner(output), pass.typography, pass.oracle)
  }

  /** A group is flushed before anything else is written. Of two line breaks around
      a group of seams the second goes; at the end of a sequence, typography takes
      the break before such a group too. */
  ghost function Regrouped(output: seq<Element>, group: seq<Element>, rest: seq<Element>, pass: Pass): seq<Element>
    decreases |rest|
  {
    var done, vanished := Flushed(output, group, pass), IsSeamOnly(Members(group));
    if rest == [] then
      if pass.typography && vanished && EndsWithBreak(done) then done[..|done| - 1] else done
    else if Joins(pass.c, rest[0]) then
      Regrouped(output, group + [rest[0]], rest[1..], pass)
    else if vanished && rest[0].LineBreak? && EndsWithBreak(done) then
      Regrouped(done, [], rest[1..], pass)
    else
      Regrouped(done + [rest[0]], [], rest[1..], pass)
  }

  /** One sequence: children first, then the texts and seams of each group. */
  ghost function SuppressAll(es: seq<Element>, pass: Pass): seq<Element>
    decreases es, 1
  {
    Regrouped([], [], SuppressEach(es, pass), pass)
  }

  ghost function SuppressEach(es: seq<Element>, pass: Pass): (r: seq<Element>)
    ensures |r| == |es|
    decreases es, 0
  {
    seq(|es|, k requires 0 <= k < |es| => SuppressElement(es[k], pass))
  }

  predicate IsOwner(kind: Kind) {
    kind == Paragraph || kind == Blockquote
  }

  /** A paragraph or quote left empty becomes a seam itself. */
  ghost function SuppressElement(e: Element, pass: Pass): Element
    decreases e
  {
    match e
    case Container(kind, children, attributes) =>
      var inner := SuppressAll(children, pass);
      if IsOwner(kind) && children != [] && inner == [] then Delayed(TypographyBoundary)
      else Container(kind, inner, attributes)
    case Color(color, background, children) => Color(color, background, SuppressAll(children, pass))
    case Wrapper(tag, children) => Wrapper(tag, SuppressAll(children, pass))
    case List(shape, items) => List(shape, SuppressItems(items, pass))
    case Grid(grid, cells) => Grid(grid, SuppressCells(cells, pass))
    case _ => e
  }

  ghost function SuppressItems(items: seq<ListItem>, pass: Pass): (r: seq<ListItem>)
    ensures |r| == |items|
    decreases items
  {
    seq(|items|, k requires 0 <= k < |items| => SuppressItem(items[k], pass))
  }

  ghost function SuppressItem(item: ListItem, pass: Pass): ListItem
    decreases item
  {
    match item
    case Elements(elements, attributes) => Elements(SuppressAll(elements, pass), attributes)
    case SubList(element) => SubList(SuppressElement(element, pass))
  }

  ghost function SuppressCells(cells: seq<Cell>, pass: Pass): (r: seq<Cell>)
    ensures |r| == |cells|
    decreases cells
  {
    seq(|cells|, k requires 0 <= k < |cells| => SuppressCell(cells[k], pass))
  }

  ghost function SuppressCell(cell: Cell, pass: Pass): Cell
    decreases cell
  {
    Cell(SuppressAll(cell.elements, pass))
  }

  // ----- seams of a skeleton

  function SeamSlots(c: Classifier, bones: seq<Bone>): nat {
    if bones == [] then 0
    else (if IsSeamBone(c, bones[0]) then OccurrenceCount(bones[0].node) else 0) + SeamSlots(c, bones[1..])
  }

  predicate NoSeam(c: Classifier, bones: seq<Bone>) {
    forall k | 0 <= k < |bones| :: !IsSeamBone(c, bones[k])
  }

  predicate SeamsBound(c: Classifier, bones: seq<Bone>) {
    forall k | 0 <= k < |bones| && bones[k].Node? :: SlotsBound(c, bones[k].node)
  }

  lemma SeamsAppend(c: Classifier, a: seq<Bone>, b: seq<Bone>)
    ensures NoSeam(c, a + b) <==> NoSeam(c, a) && NoSeam(c, b)
    ensures SeamsBound(c, a + b) <==> SeamsBound(c, a) && SeamsBound(c, b)
  {
    hide IsSeamBone, SlotsBound;
    assert forall k | 0 <= k < |a| :: (a + b)[k] == a[k];
    assert forall k | 0 <= k < |b| :: (a + b)[|a| + k] == b[k];
  }

  lemma TailSeams(c: Classifier, a: seq<Bone>)
    requires a != []
    ensures NoSeam(c, a) <==> !IsSeamBone(c, a[0]) && NoSeam(c, a[1..])
    ensures SeamsBound(c, a) <==> (a[0].Node? ==> SlotsBound(c, a[0].node)) && SeamsBound(c, a[1..])
  {
    hide IsSeamBone, SlotsBound;
    assert forall k | 0 < k < |a| :: a[k] == a[1..][k - 1];
  }

  lemma WrapSeams(c: Classifier, shell: Shell, inner: seq<Bone>)
    ensures NoSeam(c, Wrap(shell, inner)) <==> NoSeam(c, inner)
    ensures SeamsBound(c, Wrap(shell, inner)) <==> SeamsBound(c, inner)
  {
    SeamsAppend(c, [Open(shell)], inner);
    SeamsAppend(c, [Open(shell)] + inner, [Close(shell)]);
  }

  // ----- what a skeleton keeps

  /** Shells a pass may take or write: emptied paragraphs and quotes go, long
      dash runs turn into struck text. */
  predicate IsSoft(shell: Shell) {
    shell.ContainerShell? && (IsOwner(shell.kind) || shell.kind == Strikethrough)
  }

  /** A bone no pass touches. Ink, line breaks, seams and soft shells may change;
      so may the boundary that stands for a sublist once its paragraph is empty. */
  predicate IsKept(c: Classifier, bone: Bone) {
    && !bone.Ink? && !bone.Break? && !IsSeamBone(c, bone) && bone != Stuck(TypographyBoundary)
    && (bone.Open? || bone.Close? ==> !IsSoft(bone.shell))
  }

  function Kept(c: Classifier, bones: seq<Bone>): seq<Bone> {
    if bones == [] then []
    else (if IsKept(c, bones[0]) then [bones[0]] else []) + Kept(c, bones[1..])
  }

  lemma {:induction false} KeptAppend(c: Classifier, a: seq<Bone>, b: seq<Bone>)
    ensures Kept(c, a + b) == Kept(c, a) + Kept(c, b)
    ensures SeamSlots(c, a + b) == SeamSlots(c, a) + SeamSlots(c, b)
  {
    hide IsKept, IsSeamBone, OccurrenceCount;
    if a == [] {
      assert a + b == b;
    } else {
      assert (a + b)[1..] == a[1..] + b && (a + b)[0] == a[0];
      KeptAppend(c, a[1..], b);
      var head := if IsKept(c, a[0]) then [a[0]] else [];
      Regroup(head, Kept(c, a[1..]), Kept(c, b));
    }
  }

  lemma KeptOne(c: Classifier, bone: Bone)
    ensures Kept(c, [bone]) == if IsKept(c, bone) then [bone] else []
    ensures SeamSlots(c, [bone]) == if IsSeamBone(c, bone) then OccurrenceCount(bone.node) else 0
    ensures NoSeam(c, [bone]) <==> !IsSeamBone(c, bone)
    ensures SeamsBound(c, [bone]) <==> (bone.Node? ==> SlotsBound(c, bone.node))
  {
    hide IsKept, IsSeamBone, SlotsBound, OccurrenceCount;
    assert [bone][1..] == [] && [bone][0] == bone;
  }

  lemma KeptWrap(c: Classifier, shell: Shell, inner: seq<Bone>)
    ensures Kept(c, Wrap(shell, inner)) == if IsSoft(shell) then Kept(c, inner) else Wrap(shell, Kept(c, inner))
    ensures SeamSlots(c, Wrap(shell, inner)) == SeamSlots(c, inner)
  {
    hide IsSoft;
    KeptAppend(c, [Open(shell)], inner);
    KeptAppend(c, [Open(shell)] + inner, [Close(shell)]);
    KeptOne(c, Open(shell));
    KeptOne(c, Close(shell));
  }

  lemma {:induction false} InkIsDropped(c: Classifier, bones: seq<Bone>)
    requires OnlyInk(bones)
    ensures Kept(c, bones) == [] && SeamSlots(c, bones) == 0 && NoSeam(c, bones) && SeamsBound(c, bones)
  {
    if bones != [] {
      assert forall k | 0 <= k < |bones[1..]| :: bones[1..][k] == bones[k + 1];
      InkIsDropped(c, bones[1..]);
      TailSeams(c, bones);
    }
  }

  /** `after` has what `before` keeps, and no seam. */
  ghost predicate KeptAlike(c: Classifier, before: seq<Bone>, after: seq<Bone>) {
    Kept(c, after) == Kept(c, before) && NoSeam(c, after)
  }

  lemma AlikeAppend(c: Classifier, b1: seq<Bone>, a1: seq<Bone>, b2: seq<Bone>, a2: seq<Bone>)
    requires KeptAlike(c, b1, a1) && KeptAlike(c, b2, a2)
    ensures KeptAlike(c, b1 + b2, a1 + a2)
  {
    hide NoSeam, Kept;
    KeptAppend(c, b1, b2);
    KeptAppend(c, a1, a2);
    SeamsAppend(c, a1, a2);
  }

  lemma AlikeWrap(c: Classifier, shell: Shell, before: seq<Bone>, after: seq<Bone>)
    requires KeptAlike(c, before, after)
    ensures KeptAlike(c, Wrap(shell, before), Wrap(shell, after))
    ensures after == [] && IsSoft(shell) ==> KeptAlike(c, Wrap(shell, before), [])
  {
    hide NoSeam, Kept, Wrap, IsSoft;
    KeptWrap(c, shell, before);
    KeptWrap(c, shell, after);
    WrapSeams(c, shell, after);
  }

  // ----- regrouping keeps what is kept

  /** Nothing but the element itself may still be a seam. */
  ghost predicate InnerClear(c: Classifier, e: Element) {
    e.Delayed? || NoSeam(c, BonesOf(e))
  }

  ghost predicate AllInnerClear(c: Classifier, es: seq<Element>) {
    forall k | 0 <= k < |es| :: InnerClear(c, es[k])
  }

  lemma FlushedKeeps(output: seq<Element>, group: seq<Element>, pass: Pass)
    requires NoSeam(pass.c, Bones(output))
    ensures Kept(pass.c, Bones(Flushed(output, group, pass))) == Kept(pass.c, Bones(output))
    ensures NoSeam(pass.c, Bones(Flushed(output, group, pass)))
    ensures IsSeamOnly(Members(group)) ==> Flushed(output, group, pass) == output
  {
    hide Kept, NoSeam, Bones, LastElementIsUrlOwner, FlushedGroup;
    var byUrl := LastElementIsUrlOwner(output);
    var emitted := FlushedGroup(Members(group), byUrl, pass.typography, pass.oracle);
    FlushedTextual(Members(group), byUrl, pass.typography, pass.oracle);
    TextualOnlyInk(emitted);
    InkIsDropped(pass.c, Bones(emitted));
    BonesAppend(output, emitted);
    KeptAppend(pass.c, Bones(output), Bones(emitted));
    SeamsAppend(pass.c, Bones(output), Bones(emitted));
    assert Kept(pass.c, Bones(output)) + [] == Kept(pass.c, Bones(output)) && output + [] == output;
  }

  lemma BonesTail(es: seq<Element>)
    requires es != []
    ensures Bones(es) == BonesOf(es[0]) + Bones(es[1..])
  {
  }

  lemma JoinedIsDropped(c: Classifier, e: Element)
    ensures Joins(c, e) ==> Kept(c, BonesOf(e)) == []
    ensures e.LineBreak? ==> Kept(c, BonesOf(e)) == [] && NoSeam(c, BonesOf(e))
    ensures e.Delayed? && !IsSeam(c, e.node) ==> NoSeam(c, BonesOf(e))
  {
    if e.Text? {
      InkIsDropped(c, BonesOf(e));
    } else if e.Delayed? {
      KeptOne(c, Node(e.node));
    } else if e.LineBreak? {
      KeptOne(c, Break);
    }
  }

  lemma DroppedBreakKeeps(c: Classifier, es: seq<Element>)
    requires EndsWithBreak(es) && NoSeam(c, Bones(es))
    ensures Kept(c, Bones(es[..|es| - 1])) == Kept(c, Bones(es)) && NoSeam(c, Bones(es[..|es| - 1]))
  {
    hide Kept, NoSeam, Bones;
    var init := es[..|es| - 1];
    assert es == init + [LineBreak];
    BonesSnoc(init, LineBreak);
    KeptAppend(c, Bones(init), [Break]);
    SeamsAppend(c, Bones(init), [Break]);
    JoinedIsDropped(c, LineBreak);
    assert Kept(c, Bones(init)) + [] == Kept(c, Bones(init));
  }

  lemma {:induction false} RegroupKeeps(output: seq<Element>, group: seq<Element>, rest: seq<Element>, pass: Pass)
    requires NoSeam(pass.c, Bones(output)) && AllInnerClear(pass.c, rest)
    ensures
      var r := Bones(Regrouped(output, group, rest, pass));
      Kept(pass.c, r) == Kept(pass.c, Bones(output)) + Kept(pass.c, Bones(rest)) && NoSeam(pass.c, r)
    decreases |rest|
  {
    hide Kept, NoSeam, Bones, BonesOf, Flushed, IsSeam, Joins, InnerClear;
    var c, done := pass.c, Flushed(output, group, pass);
    FlushedKeeps(output, group, pass);
    NothingKept(c);
    if rest == [] {
      assert Kept(c, Bones(output)) + [] == Kept(c, Bones(output));
      if EndsWithBreak(done) {
        DroppedBreakKeeps(c, done);
      }
    } else {
      var e, tail := rest[0], rest[1..];
      BonesTail(rest);
      KeptAppend(c, BonesOf(e), Bones(tail));
      JoinedIsDropped(c, e);
      assert InnerClear(c, e);
      assert forall k | 0 <= k < |tail| :: tail[k] == rest[k + 1];
      assert [] + Kept(c, Bones(tail)) == Kept(c, Bones(tail));
      if Joins(c, e) {
        RegroupKeeps(output, group + [e], tail, pass);
      } else if IsSeamOnly(Members(group)) && e.LineBreak? && EndsWithBreak(done) {
        RegroupKeeps(done, [], tail, pass);
      } else {
        UnjoinedIsClear(c, e);
        BonesSnoc(done, e);
        KeptAppend(c, Bones(done), BonesOf(e));
        SeamsAppend(c, Bones(done), BonesOf(e));
        RegroupKeeps(done + [e], [], tail, pass);
        Regroup(Kept(c, Bones(done)), Kept(c, BonesOf(e)), Kept(c, Bones(tail)));
      }
    }
  }

  lemma UnjoinedIsClear(c: Classifier, e: Element)
    requires InnerClear(c, e) && !Joins(c, e)
    ensures NoSeam(c, BonesOf(e))
  {
    JoinedIsDropped(c, e);
  }

  lemma NothingKept(c: Classifier)
    ensures Bones([]) == [] && Kept(c, []) == [] && NoSeam(c, [])
  {
  }

  // ----- the pass keeps what is kept

  /** An element after the pass: it may be a delayed node as it was, or the seam
      an emptied owner leaves. */
  ghost predicate ElementAlike(c: Classifier, e: Element, e': Element) {
    if e.Delayed? then e' == e
    else if e'.Delayed? then e'.node.TypographyBoundary? && KeptAlike(c, BonesOf(e), [])
    else KeptAlike(c, BonesOf(e), BonesOf(e'))
  }

  lemma {:induction false} SuppressKeeps(es: seq<Element>, pass: Pass)
    ensures KeptAlike(pass.c, Bones(es), Bones(SuppressAll(es, pass)))
    decreases es, 2
  {
    hide Kept, NoSeam, Bones, Regrouped;
    EachKeeps(es, pass);
    NothingKept(pass.c);
    RegroupKeeps([], [], SuppressEach(es, pass), pass);
    assert [] + Kept(pass.c, Bones(es)) == Kept(pass.c, Bones(es));
  }

  lemma {:induction false} EachKeeps(es: seq<Element>, pass: Pass)
    ensures Kept(pass.c, Bones(SuppressEach(es, pass))) == Kept(pass.c, Bones(es))
    ensures AllInnerClear(pass.c, SuppressEach(es, pass))
    decreases es, 1
  {
    hide Kept, NoSeam, Bones, BonesOf, SuppressElement, ElementAlike;
    var each := SuppressEach(es, pass);
    if es != [] {
      ElementKeeps(es[0], pass);
      EachKeeps(es[1..], pass);
      assert each[1..] == SuppressEach(es[1..], pass);
      AlikeInner(pass.c, es[0], each[0]);
      BonesTail(es);
      BonesTail(each);
      KeptAppend(pass.c, BonesOf(es[0]), Bones(es[1..]));
      KeptAppend(pass.c, BonesOf(each[0]), Bones(each[1..]));
      assert forall k | 0 < k < |each| :: each[k] == each[1..][k - 1];
    } else {
      assert each == [];
    }
  }

  lemma AlikeInner(c: Classifier, e: Element, e': Element)
    requires ElementAlike(c, e, e')
    ensures Kept(c, BonesOf(e')) == Kept(c, BonesOf(e)) && InnerClear(c, e')
  {
    if e'.Delayed? && !e.Delayed? {
      JoinedIsDropped(c, e');
      NothingKept(c);
    }
  }

  lemma {:induction false} ElementKeeps(e: Element, pass: Pass)
    ensures ElementAlike(pass.c, e, SuppressElement(e, pass))
    decreases e, 0
  {
    hide Kept, NoSeam, Wrap, SuppressAll, SuppressItems, SuppressCells, KeptAlike, Bones, BonesOfItems, BonesOfCells;
    NothingKept(pass.c);
    match e
    case Container(kind, children, attributes) =>
      SuppressKeeps(children, pass);
      AlikeWrap(pass.c, ContainerShell(kind, attributes), Bones(children), Bones(SuppressAll(children, pass)));
    case Color(color, background, children) =>
      SuppressKeeps(children, pass);
      AlikeWrap(pass.c, ColorShell(color, background), Bones(children), Bones(SuppressAll(children, pass)));
    case Wrapper(tag, children) =>
      SuppressKeeps(children, pass);
      AlikeWrap(pass.c, WrapperShell(tag), Bones(children), Bones(SuppressAll(children, pass)));
    case List(shape, items) =>
      ItemsKeep(items, pass);
      AlikeWrap(pass.c, ListMark(shape), BonesOfItems(items), BonesOfItems(SuppressItems(items, pass)));
    case Grid(grid, cells) =>
      CellsKeep(cells, pass);
      AlikeWrap(pass.c, GridShell(grid), BonesOfCells(cells), BonesOfCells(SuppressCells(cells, pass)));
    case _ =>
      if !e.Delayed? {
        LeafAlike(pass.c, e);
      }
  }

  lemma LeafAlike(c: Classifier, e: Element)
    requires !e.Container? && !e.Color? && !e.Wrapper? && !e.List? && !e.Grid? && !e.Delayed?
    ensures KeptAlike(c, BonesOf(e), BonesOf(e))
  {
    if e.Text? {
      InkIsDropped(c, BonesOf(e));
    }
  }

  lemma {:induction false} ItemsKeep(items: seq<ListItem>, pass: Pass)
    ensures KeptAlike(pass.c, BonesOfItems(items), BonesOfItems(SuppressItems(items, pass)))
    decreases items
  {
    hide Kept, NoSeam, KeptAlike, BonesOfItem, SuppressItem;
    var each := SuppressItems(items, pass);
    if items != [] {
      ItemKeeps(items[0], pass);
      ItemsKeep(items[1..], pass);
      assert each[1..] == SuppressItems(items[1..], pass);
      AlikeAppend(pass.c, BonesOfItem(items[0]), BonesOfItem(each[0]), BonesOfItems(items[1..]),
                  BonesOfItems(each[1..]));
    } else {
      assert each == [];
      NothingAlike(pass.c);
    }
  }

  lemma NothingAlike(c: Classifier)
    ensures KeptAlike(c, [], [])
  {
  }

  function StuckBones(e: Element): seq<Bone> {
    if e.Delayed? then [Stuck(e.node)] else BonesOf(e)
  }

  /** A sublist that is itself a delayed node is left as it is. */
  lemma StuckAlike(c: Classifier, e: Element, e': Element)
    requires ElementAlike(c, e, e')
    ensures KeptAlike(c, StuckBones(e), StuckBones(e'))
  {
    hide Kept, NoSeam;
    NothingKept(c);
    if e'.Delayed? {
      KeptOne(c, Stuck(e'.node));
    }
  }

  lemma {:induction false} ItemKeeps(item: ListItem, pass: Pass)
    ensures KeptAlike(pass.c, BonesOfItem(item), BonesOfItem(SuppressItem(item, pass)))
    decreases item
  {
    hide KeptAlike, Wrap, Bones, SuppressAll, SuppressElement, ElementAlike;
    match item
    case Elements(elements, attributes) =>
      SuppressKeeps(elements, pass);
      AlikeWrap(pass.c, ItemMark(attributes), Bones(elements), Bones(SuppressAll(elements, pass)));
    case SubList(element) =>
      ElementKeeps(element, pass);
      StuckAlike(pass.c, element, SuppressElement(element, pass));
      AlikeWrap(pass.c, SubListMark, StuckBones(element), StuckBones(SuppressElement(element, pass)));
  }

  lemma {:induction false} CellsKeep(cells: seq<Cell>, pass: Pass)
    ensures KeptAlike(pass.c, BonesOfCells(cells), BonesOfCells(SuppressCells(cells, pass)))
    decreases cells
  {
    hide Kept, NoSeam, KeptAlike, SuppressAll, Wrap, Bones;
    var each := SuppressCells(cells, pass);
    if cells != [] {
      SuppressKeeps(cells[0].elements, pass);
      assert each[0] == SuppressCell(cells[0], pass);
      AlikeWrap(pass.c, CellMark, Bones(cells[0].elements), Bones(each[0].elements));
      CellsKeep(cells[1..], pass);
      assert each[1..] == SuppressCells(cells[1..], pass);
      AlikeAppend(pass.c, BonesOfCell(cells[0]), BonesOfCell(each[0]), BonesOfCells(cells[1..]),
                  BonesOfCells(each[1..]));
    } else {
      assert each == [];
      NothingAlike(pass.c);
    }
  }

  // ----- occurrences

  /** Slots dropped plus occurrences left are the occurrences there were. */
  lemma {:induction false} SuppressionAccounts(c: Classifier, bones: seq<Bone>)
    ensures BoneOccurrences(bones) == SeamSlots(c, bones) + BoneOccurrences(Kept(c, bones))
  {
    if bones != [] {
      SuppressionAccounts(c, bones[1..]);
      BoneOccurrencesAppend(if IsKept(c, bones[0]) then [bones[0]] else [], Kept(c, bones[1..]));
    }
  }

  lemma {:induction false} NoSeamNoSlots(c: Classifier, bones: seq<Bone>)
    requires NoSeam(c, bones)
    ensures SeamSlots(c, bones) == 0
  {
    if bones != [] {
      TailSeams(c, bones);
      NoSeamNoSlots(c, bones[1..]);
    }
  }

  lemma AlikeConserves(c: Classifier, before: seq<Bone>, after: seq<Bone>)
    requires KeptAlike(c, before, after)
    ensures BoneOccurrences(before) == SeamSlots(c, before) + BoneOccurrences(after)
  {
    SuppressionAccounts(c, before);
    SuppressionAccounts(c, after);
    NoSeamNoSlots(c, after);
  }

  /** The slots of the seams dropped and the occurrences left are the occurrences
      there were. */
  lemma SuppressionConserves(es: seq<Element>, pass: Pass)
    ensures Occurrences(es) == SeamSlots(pass.c, Bones(es)) + Occurrences(SuppressAll(es, pass))
  {
    SuppressKeeps(es, pass);
    AlikeConserves(pass.c, Bones(es), Bones(SuppressAll(es, pass)));
  }

  // ----- where there is no seam

  predicate OnlyTexts(es: seq<Element>) {
    forall k | 0 <= k < |es| :: es[k].Text?
  }

  lemma TextsStay(output: seq<Element>, group: seq<Element>, pass: Pass)
    requires OnlyTexts(group)
    ensures Flushed(output, group, pass) == output + group && !IsSeamOnly(Members(group))
  {
    hide LastElementIsUrlOwner;
    assert group != [] ==> Members(group)[0].Joined?;
    assert TextsIn(Members(group)) == group;
  }

  ghost predicate Unseamed(c: Classifier, es: seq<Element>) {
    forall k | 0 <= k < |es| && es[k].Delayed? :: !IsSeam(c, es[k].node)
  }

  lemma {:induction false} RegroupIdentity(output: seq<Element>, group: seq<Element>, rest: seq<Element>, pass: Pass)
    requires OnlyTexts(group) && Unseamed(pass.c, rest)
    ensures Regrouped(output, group, rest, pass) == output + group + rest
    decreases |rest|
  {
    hide Flushed, IsSeam;
    TextsStay(output, group, pass);
    if rest != [] {
      var e, tail := rest[0], rest[1..];
      assert forall k | 0 <= k < |tail| :: tail[k] == rest[k + 1];
      assert rest == [e] + tail;
      if Joins(pass.c, e) {
        assert e.Text?;
        RegroupIdentity(output, group + [e], tail, pass);
        RegroupAll(output, group, e, tail);
      } else {
        RegroupIdentity(output + group + [e], [], tail, pass);
        RegroupAll(output, group, e, tail);
      }
    }
  }

  lemma RegroupAll(output: seq<Element>, group: seq<Element>, e: Element, tail: seq<Element>)
    ensures output + (group + [e]) + tail == output + group + ([e] + tail)
    ensures output + group + [e] + [] + tail == output + group + ([e] + tail)
  {
  }

  lemma SeamsInside(c: Classifier, es: seq<Element>, i: nat)
    requires i < |es|
    ensures NoSeam(c, Bones(es)) ==> NoSeam(c, BonesOf(es[i]))
    ensures SeamsBound(c, Bones(es)) ==> SeamsBound(c, BonesOf(es[i]))
  {
    hide *;
    assert es == es[..i] + ([es[i]] + es[i + 1..]);
    BonesAppend(es[..i], [es[i]] + es[i + 1..]);
    BonesAppend([es[i]], es[i + 1..]);
    SingleBones(es[i]);
    SeamsAppend(c, BonesOf(es[i]), Bones(es[i + 1..]));
    SeamsAppend(c, Bones(es[..i]), BonesOf(es[i]) + Bones(es[i + 1..]));
  }

  lemma SingleBones(e: Element)
    ensures Bones([e]) == BonesOf(e)
  {
  }

  lemma NodeIsNoSeam(c: Classifier, e: Element)
    requires NoSeam(c, BonesOf(e)) && e.Delayed?
    ensures !IsSeam(c, e.node)
  {
    assert BonesOf(e)[0] == Node(e.node);
  }

  /** Where there is no seam the pass changes nothing. */
  lemma {:induction false} SuppressIdentity(es: seq<Element>, pass: Pass)
    requires NoSeam(pass.c, Bones(es))
    ensures SuppressAll(es, pass) == es
    decreases es
  {
    hide NoSeam, Bones, Regrouped, SuppressElement;
    forall k | 0 <= k < |es| ensures SuppressElement(es[k], pass) == es[k] {
      SeamsInside(pass.c, es, k);
      ElementIdentity(es[k], pass);
    }
    assert SuppressEach(es, pass) == es;
    forall k | 0 <= k < |es| && es[k].Delayed? ensures !IsSeam(pass.c, es[k].node) {
      SeamsInside(pass.c, es, k);
      NodeIsNoSeam(pass.c, es[k]);
    }
    RegroupIdentity([], [], es, pass);
  }

  lemma {:induction false} ElementIdentity(e: Element, pass: Pass)
    requires NoSeam(pass.c, BonesOf(e))
    ensures SuppressElement(e, pass) == e
    decreases e
  {
    hide NoSeam, Bones, Wrap, SuppressAll, BonesOfItems, BonesOfCells;
    match e
    case Container(kind, children, attributes) =>
      WrapSeams(pass.c, ContainerShell(kind, attributes), Bones(children));
      SuppressIdentity(children, pass);
    case Color(color, background, children) =>
      WrapSeams(pass.c, ColorShell(color, background), Bones(children));
      SuppressIdentity(children, pass);
    case Wrapper(tag, children) =>
      WrapSeams(pass.c, WrapperShell(tag), Bones(children));
      SuppressIdentity(children, pass);
    case List(shape, items) =>
      WrapSeams(pass.c, ListMark(shape), BonesOfItems(items));
      forall k | 0 <= k < |items| ensures SuppressItem(items[k], pass) == items[k] {
        SeamsOfItem(pass.c, items, k);
        ItemIdentity(items[k], pass);
      }
      assert SuppressItems(items, pass) == items;
    case Grid(grid, cells) =>
      WrapSeams(pass.c, GridShell(grid), BonesOfCells(cells));
      CellsIdentity(cells, pass);
    case _ =>
  }

  lemma {:induction false} CellsIdentity(cells: seq<Cell>, pass: Pass)
    requires NoSeam(pass.c, BonesOfCells(cells))
    ensures SuppressCells(cells, pass) == cells
    decreases cells
  {
    hide NoSeam, Bones, Wrap, SuppressAll, BonesOfCells;
    forall k | 0 <= k < |cells| ensures SuppressCell(cells[k], pass) == cells[k] {
      SeamsOfCell(pass.c, cells, k);
      WrapSeams(pass.c, CellMark, Bones(cells[k].elements));
      SuppressIdentity(cells[k].elements, pass);
    }
    assert SuppressCells(cells, pass) == cells;
  }

  lemma {:induction false} ItemIdentity(item: ListItem, pass: Pass)
    requires NoSeam(pass.c, BonesOfItem(item))
    ensures SuppressItem(item, pass) == item
    decreases item
  {
    hide NoSeam, Bones, BonesOf, Wrap, SuppressAll, SuppressElement;
    match item
    case Elements(elements, attributes) =>
      WrapSeams(pass.c, ItemMark(attributes), Bones(elements));
      SuppressIdentity(elements, pass);
    case SubList(element) =>
      if element.Delayed? {
        DelayedStays(element, pass);
      } else {
        WrapSeams(pass.c, SubListMark, BonesOf(element));
        ElementIdentity(element, pass);
      }
  }

  lemma DelayedStays(e: Element, pass: Pass)
    requires e.Delayed?
    ensures SuppressElement(e, pass) == e
  {
  }

  lemma SeamsOfItem(c: Classifier, items: seq<ListItem>, i: nat)
    requires i < |items|
    ensures SeamsBound(c, BonesOfItems(items)) ==> SeamsBound(c, BonesOfItem(items[i]))
    ensures NoSeam(c, BonesOfItems(items)) ==> NoSeam(c, BonesOfItem(items[i]))
  {
    hide *;
    assert items == items[..i] + ([items[i]] + items[i + 1..]);
    BonesOfItemsAppend(items[..i], [items[i]] + items[i + 1..]);
    BonesOfItemsAppend([items[i]], items[i + 1..]);
    SingleItemBones(items[i]);
    SeamsAppend(c, BonesOfItem(items[i]), BonesOfItems(items[i + 1..]));
    SeamsAppend(c, BonesOfItems(items[..i]), BonesOfItem(items[i]) + BonesOfItems(items[i + 1..]));
  }

  lemma SeamsOfCell(c: Classifier, cells: seq<Cell>, i: nat)
    requires i < |cells|
    ensures SeamsBound(c, BonesOfCells(cells)) ==> SeamsBound(c, BonesOfCell(cells[i]))
    ensures NoSeam(c, BonesOfCells(cells)) ==> NoSeam(c, BonesOfCell(cells[i]))
  {
    hide *;
    assert cells == cells[..i] + ([cells[i]] + cells[i + 1..]);
    BonesOfCellsAppend(cells[..i], [cells[i]] + cells[i + 1..]);
    BonesOfCellsAppend([cells[i]], cells[i + 1..]);
    SingleCellBones(cells[i]);
    SeamsAppend(c, BonesOfCell(cells[i]), BonesOfCells(cells[i + 1..]));
    SeamsAppend(c, BonesOfCells(cells[..i]), BonesOfCell(cells[i]) + BonesOfCells(cells[i + 1..]));
  }

  lemma SingleItemBones(item: ListItem)
    ensures BonesOfItems([item]) == BonesOfItem(item)
  {
  }

  lemma SingleCellBones(cell: Cell)
    ensures BonesOfCells([cell]) == BonesOfCell(cell)
  {
  }

  // ----- sublists stay lists

  lemma {:induction false} RegroupKeepsLists(output: seq<Element>, group: seq<Element>, rest: seq<Element>, pass: Pass)
    requires ListsOnly(output) && ListsOnly(rest)
    ensures ListsOnly(Regrouped(output, group, rest, pass))
    decreases |rest|
  {
    hide ListsOnlyIn, Flushed, Joins;
    var done := Flushed(output, group, pass);
    FlushedKeepsLists(output, group, pass);
    if rest != [] {
      var e, tail := rest[0], rest[1..];
      assert ListsOnly(tail) && ListsOnly(done + [e]);
      if Joins(pass.c, e) {
        RegroupKeepsLists(output, group + [e], tail, pass);
      } else if IsSeamOnly(Members(group)) && e.LineBreak? && EndsWithBreak(done) {
        RegroupKeepsLists(done, [], tail, pass);
      } else {
        RegroupKeepsLists(done + [e], [], tail, pass);
      }
    }
  }

  lemma FlushedKeepsLists(output: seq<Element>, group: seq<Element>, pass: Pass)
    requires ListsOnly(output)
    ensures ListsOnly(Flushed(output, group, pass))
  {
    hide LastElementIsUrlOwner, FlushedGroup, ListsOnlyIn;
    var byUrl := LastElementIsUrlOwner(output);
    FlushedTextual(Members(group), byUrl, pass.typography, pass.oracle);
    TextualListsOnly(FlushedGroup(Members(group), byUrl, pass.typography, pass.oracle));
  }

  lemma TextualListsOnly(es: seq<Element>)
    requires IsTextual(es)
    ensures ListsOnly(es)
  {
    forall k | 0 <= k < |es| ensures ListsOnlyIn(es[k]) {
      if es[k].Container? {
        assert forall j | 0 <= j < |es[k].children| :: ListsOnlyIn(es[k].children[j]);
      }
    }
  }

  lemma {:induction false} SuppressKeepsLists(es: seq<Element>, pass: Pass)
    requires ListsOnly(es)
    ensures ListsOnly(SuppressAll(es, pass))
    decreases es
  {
    hide Regrouped, ListsOnlyIn, SuppressElement;
    forall k | 0 <= k < |es| ensures ListsOnlyIn(SuppressElement(es[k], pass)) {
      ElementKeepsLists(es[k], pass);
    }
    RegroupKeepsLists([], [], SuppressEach(es, pass), pass);
  }

  lemma {:induction false} ElementKeepsLists(e: Element, pass: Pass)
    requires ListsOnlyIn(e)
    ensures ListsOnlyIn(SuppressElement(e, pass)) && (e.List? ==> SuppressElement(e, pass).List?)
    decreases e
  {
    hide SuppressAll, ListsOnly;
    match e
    case Container(_, children, _) => SuppressKeepsLists(children, pass);
    case Color(_, _, children) => SuppressKeepsLists(children, pass);
    case Wrapper(_, children) => SuppressKeepsLists(children, pass);
    case List(_, items) =>
      forall k | 0 <= k < |items| ensures ItemListsOnly(SuppressItem(items[k], pass)) {
        assert ItemListsOnly(items[k]);
        ItemKeepsLists(items[k], pass);
      }
    case Grid(_, cells) => CellsKeepLists(cells, pass);
    case _ =>
  }

  lemma {:induction false} CellsKeepLists(cells: seq<Cell>, pass: Pass)
    requires CellsListsOnly(cells)
    ensures CellsListsOnly(SuppressCells(cells, pass))
    decreases cells
  {
    hide SuppressAll, ListsOnly;
    forall k | 0 <= k < |cells| ensures CellListsOnly(SuppressCell(cells[k], pass)) {
      assert CellListsOnly(cells[k]);
      SuppressKeepsLists(cells[k].elements, pass);
    }
  }

  lemma {:induction false} ItemKeepsLists(item: ListItem, pass: Pass)
    requires ItemListsOnly(item)
    ensures ItemListsOnly(SuppressItem(item, pass))
    decreases item
  {
    hide SuppressAll, SuppressElement, ListsOnly, ListsOnlyIn;
    match item
    case Elements(elements, _) => SuppressKeepsLists(elements, pass);
    case SubList(element) => ElementKeepsLists(element, pass);
  }
}
