/** Delayed nodes, what binds them, and the skeleton both binding passes are
    measured against. */
module DelayedSpec {
  import opened Bytes
  import opened Tree

  datatype DelayedError = BindingSchemaMismatch | UnresolvedGeneratedOwner

  datatype GeneratedValue =
    | PageLinkValue(page: string, caption: string)
    | TagLinksValue(tags: seq<string>, separator: string)
  {
    function Kind(): GeneratedKind {
      if PageLinkValue? then GeneratedKind.PageLink else TagLinks
    }
  }

  type Bindings = map<nat, GeneratedValue>

  predicate IsBound(slot: Slot, bindings: Bindings) {
    slot.id in bindings && bindings[slot.id].Kind() == slot.kind
  }

  // ----- occurrences

  function SlotAtoms(atoms: seq<RecoveryAtom>): nat {
    if atoms == [] then 0
    else (if atoms[0].LegacySource? || atoms[0].ActiveSource? then 1 else 0) + SlotAtoms(atoms[1..])
  }

  /** How many generated occurrences a node stands for. */
  function OccurrenceCount(node: DelayedNode): nat {
    match node
    case Active(_) => 1
    case PageConditionalRecovery(_, _) => 1
    case TagExternalLabel(_, _) => 1
    case TagImage(_, _, _, _) => 1
    case Suppressed(slots) => |slots|
    case TypographyBoundary => 0
    case RuntimeText(_) => 0
    case Raw(atoms) => SlotAtoms(atoms)
    case Shell(atoms) => SlotAtoms(atoms)
  }

  // ----- the skeleton of a tree

  /** What encloses other elements, without them. */
  datatype Shell =
    | ContainerShell(kind: Kind, attributes: Attributes)
    | ColorShell(color: string, background: bool)
    | ListMark(shape: ListShape)
    | ItemMark(attributes: Attributes)
    | SubListMark
    | WrapperShell(tag: nat)
    | GridShell(grid: GridKind)
    | CellMark

  /** What binding must account for, in reading order, with the nesting written
      as matching brackets. `Stuck` is a delayed node that is itself a sublist,
      where no sequence holds it. */
  datatype Bone =
    | Ink(c: char)
    | Break
    | Open(shell: Shell)
    | Close(shell: Shell)
    | NoteRef(index: nat)
    | Foot(details: nat)
    | Thing(leaf: LeafKind)
    | Node(node: DelayedNode)
    | Stuck(node: DelayedNode)

  function InkOf(text: string): (r: seq<Bone>)
    ensures forall k | 0 <= k < |r| :: r[k].Ink?
  {
    if text == "" then []
    else (if IsWhitespace(text[0]) then [] else [Ink(text[0])]) + InkOf(text[1..])
  }

  function Bones(es: seq<Element>): seq<Bone>
    decreases es
  {
    if es == [] then [] else BonesOf(es[0]) + Bones(es[1..])
  }

  function Wrap(shell: Shell, inner: seq<Bone>): seq<Bone> {
    [Open(shell)] + inner + [Close(shell)]
  }

  function BonesOf(e: Element): seq<Bone>
    decreases e
  {
    match e
    case Text(text) => InkOf(text)
    case LineBreak => [Break]
    case FootnoteBlock(_, _, details) => [Foot(details)]
    case Footnote(index) => [NoteRef(index)]
    case Delayed(node) => [Node(node)]
    case Container(kind, children, attributes) => Wrap(ContainerShell(kind, attributes), Bones(children))
    case Color(color, background, children) => Wrap(ColorShell(color, background), Bones(children))
    case List(shape, items) => Wrap(ListMark(shape), BonesOfItems(items))
    case Wrapper(tag, children) => Wrap(WrapperShell(tag), Bones(children))
    case Grid(grid, cells) => Wrap(GridShell(grid), BonesOfCells(cells))
    case Leaf(leaf) => [Bone.Thing(leaf)]
  }

  function BonesOfItems(items: seq<ListItem>): seq<Bone>
    decreases items
  {
    if items == [] then [] else BonesOfItem(items[0]) + BonesOfItems(items[1..])
  }

  function BonesOfItem(item: ListItem): seq<Bone>
    decreases item
  {
    match item
    case Elements(elements, attributes) => Wrap(ItemMark(attributes), Bones(elements))
    case SubList(element) => Wrap(SubListMark, if element.Delayed? then [Stuck(element.node)] else BonesOf(element))
  }

  function BonesOfCells(cells: seq<Cell>): seq<Bone>
    decreases cells
  {
    if cells == [] then [] else BonesOfCell(cells[0]) + BonesOfCells(cells[1..])
  }

  function BonesOfCell(cell: Cell): seq<Bone>
    decreases cell
  {
    Wrap(CellMark, Bones(cell.elements))
  }

  lemma {:induction false} BonesAppend(a: seq<Element>, b: seq<Element>)
    ensures Bones(a + b) == Bones(a) + Bones(b)
  {
    if a == [] {
      assert a + b == b;
    } else {
      assert (a + b)[1..] == a[1..] + b;
      BonesAppend(a[1..], b);
    }
  }

  lemma {:induction false} BonesOfItemsAppend(a: seq<ListItem>, b: seq<ListItem>)
    ensures BonesOfItems(a + b) == BonesOfItems(a) + BonesOfItems(b)
  {
    if a == [] {
      assert a + b == b;
    } else {
      assert (a + b)[1..] == a[1..] + b;
      BonesOfItemsAppend(a[1..], b);
    }
  }

  lemma {:induction false} BonesOfCellsAppend(a: seq<Cell>, b: seq<Cell>)
    ensures BonesOfCells(a + b) == BonesOfCells(a) + BonesOfCells(b)
  {
    if a == [] {
      assert a + b == b;
    } else {
      assert (a + b)[1..] == a[1..] + b;
      BonesOfCellsAppend(a[1..], b);
    }
  }

  lemma BonesSnoc(a: seq<Element>, e: Element)
    ensures Bones(a + [e]) == Bones(a) + BonesOf(e)
  {
    BonesAppend(a, [e]);
    assert Bones([e]) == BonesOf(e);
  }

  lemma PrefixBones(es: seq<Element>, i: nat)
    requires i < |es|
    ensures Bones(es[..i + 1]) == Bones(es[..i]) + BonesOf(es[i])
  {
    assert es[..i + 1] == es[..i] + [es[i]];
    BonesSnoc(es[..i], es[i]);
  }

  lemma {:induction false} InkAppend(a: string, b: string)
    ensures InkOf(a + b) == InkOf(a) + InkOf(b)
  {
    if a == "" {
      assert a + b == b;
    } else {
      assert (a + b)[1..] == a[1..] + b;
      InkAppend(a[1..], b);
    }
  }

  // ----- occurrences of a tree

  /** Occurrences carried by delayed nodes anywhere in a skeleton. */
  function BoneOccurrences(bones: seq<Bone>): nat {
    if bones == [] then 0
    else (if bones[0].Node? || bones[0].Stuck? then OccurrenceCount(bones[0].node) else 0) + BoneOccurrences(bones[1..])
  }

  /** The generated occurrences of a tree. */
  function Occurrences(es: seq<Element>): nat {
    BoneOccurrences(Bones(es))
  }

  lemma {:induction false} BoneOccurrencesAppend(a: seq<Bone>, b: seq<Bone>)
    ensures BoneOccurrences(a + b) == BoneOccurrences(a) + BoneOccurrences(b)
  {
    if a == [] {
      assert a + b == b;
    } else {
      assert (a + b)[1..] == a[1..] + b;
      BoneOccurrencesAppend(a[1..], b);
    }
  }

  predicate HasNode(bones: seq<Bone>) {
    exists k :: 0 <= k < |bones| && (bones[k].Node? || bones[k].Stuck?)
  }

  lemma HasNodeAppend(a: seq<Bone>, b: seq<Bone>)
    ensures HasNode(a + b) <==> HasNode(a) || HasNode(b)
  {
    if HasNode(a) {
      var k :| 0 <= k < |a| && (a[k].Node? || a[k].Stuck?);
      assert (a + b)[k] == a[k];
    }
    if HasNode(b) {
      var k :| 0 <= k < |b| && (b[k].Node? || b[k].Stuck?);
      assert (a + b)[|a| + k] == b[k];
    }
  }

  lemma HasNodeWrap(shell: Shell, inner: seq<Bone>)
    ensures HasNode(Wrap(shell, inner)) <==> HasNode(inner)
  {
    HasNodeAppend([Open(shell)], inner);
    HasNodeAppend([Open(shell)] + inner, [Close(shell)]);
    assert !HasNode([Open(shell)]) && !HasNode([Close(shell)]);
  }

  /** The recursive search the final guard runs. */
  predicate ElementsContainDelayed(es: seq<Element>)
    decreases es
  {
    exists k :: 0 <= k < |es| && ElementContainsDelayed(es[k])
  }

  predicate ElementContainsDelayed(e: Element)
    decreases e
  {
    match e
    case Delayed(_) => true
    case Container(_, children, _) => ElementsContainDelayed(children)
    case Color(_, _, children) => ElementsContainDelayed(children)
    case Wrapper(_, children) => ElementsContainDelayed(children)
    case List(_, items) => exists k :: 0 <= k < |items| && ItemContainsDelayed(items[k])
    case Grid(_, cells) => exists k :: 0 <= k < |cells| && CellContainsDelayed(cells[k])
    case _ => false
  }

  predicate ItemContainsDelayed(item: ListItem)
    decreases item
  {
    match item
    case Elements(elements, _) => ElementsContainDelayed(elements)
    case SubList(element) => ElementContainsDelayed(element)
  }

  predicate CellContainsDelayed(cell: Cell)
    decreases cell
  {
    ElementsContainDelayed(cell.elements)
  }

  /** The search finds a delayed node exactly when the skeleton has one. */
  lemma {:induction false} ContainsIsHasNode(es: seq<Element>)
    ensures ElementsContainDelayed(es) <==> HasNode(Bones(es))
    decreases es
  {
    if es != [] {
      ContainsOneIsHasNode(es[0]);
      ContainsIsHasNode(es[1..]);
      HasNodeAppend(BonesOf(es[0]), Bones(es[1..]));
      assert forall k | 0 < k < |es| :: es[k] == es[1..][k - 1];
    }
  }

  lemma NoInkIsNode(text: string)
    ensures !HasNode(InkOf(text))
  {
  }

  lemma {:induction false} ContainsOneIsHasNode(e: Element)
    ensures ElementContainsDelayed(e) <==> HasNode(BonesOf(e))
    decreases e
  {
    match e
    case Text(text) => NoInkIsNode(text);
    case Delayed(node) => assert BonesOf(e)[0].Node?;
    case Container(kind, children, attributes) =>
      ContainsIsHasNode(children);
      HasNodeWrap(ContainerShell(kind, attributes), Bones(children));
    case Color(color, background, children) =>
      ContainsIsHasNode(children);
      HasNodeWrap(ColorShell(color, background), Bones(children));
    case Wrapper(tag, children) =>
      ContainsIsHasNode(children);
      HasNodeWrap(WrapperShell(tag), Bones(children));
    case List(shape, items) =>
      ItemsContainIsHasNode(items);
      HasNodeWrap(ListMark(shape), BonesOfItems(items));
    case Grid(grid, cells) =>
      CellsContainIsHasNode(cells);
      HasNodeWrap(GridShell(grid), BonesOfCells(cells));
    case _ =>
  }

  lemma {:induction false} ItemsContainIsHasNode(items: seq<ListItem>)
    ensures (exists k :: 0 <= k < |items| && ItemContainsDelayed(items[k])) <==> HasNode(BonesOfItems(items))
    decreases items
  {
    if items != [] {
      ItemContainIsHasNode(items[0]);
      ItemsContainIsHasNode(items[1..]);
      HasNodeAppend(BonesOfItem(items[0]), BonesOfItems(items[1..]));
      assert forall k | 0 < k < |items| :: items[k] == items[1..][k - 1];
    }
  }

  lemma {:induction false} ItemContainIsHasNode(item: ListItem)
    ensures ItemContainsDelayed(item) <==> HasNode(BonesOfItem(item))
    decreases item
  {
    match item
    case Elements(elements, attributes) =>
      ContainsIsHasNode(elements);
      HasNodeWrap(ItemMark(attributes), Bones(elements));
    case SubList(element) =>
      ContainsOneIsHasNode(element);
      var inner := if element.Delayed? then [Stuck(element.node)] else BonesOf(element);
      assert element.Delayed? ==> inner[0].Stuck?;
      HasNodeWrap(SubListMark, inner);
  }

  lemma {:induction false} CellsContainIsHasNode(cells: seq<Cell>)
    ensures (exists k :: 0 <= k < |cells| && CellContainsDelayed(cells[k])) <==> HasNode(BonesOfCells(cells))
    decreases cells
  {
    if cells != [] {
      CellContainIsHasNode(cells[0]);
      CellsContainIsHasNode(cells[1..]);
      HasNodeAppend(BonesOfCell(cells[0]), BonesOfCells(cells[1..]));
      assert forall k | 0 < k < |cells| :: cells[k] == cells[1..][k - 1];
    }
  }

  lemma {:induction false} CellContainIsHasNode(cell: Cell)
    ensures CellContainsDelayed(cell) <==> HasNode(BonesOfCell(cell))
    decreases cell
  {
    ContainsIsHasNode(cell.elements);
    HasNodeWrap(CellMark, Bones(cell.elements));
  }

  // ----- sublists

  /** Every sublist is a list, at any depth: what the list rules build. */
  predicate ListsOnly(es: seq<Element>)
    decreases es
  {
    forall k | 0 <= k < |es| :: ListsOnlyIn(es[k])
  }

  predicate ListsOnlyIn(e: Element)
    decreases e
  {
    match e
    case Container(_, children, _) => ListsOnly(children)
    case Color(_, _, children) => ListsOnly(children)
    case Wrapper(_, children) => ListsOnly(children)
    case List(_, items) => ItemsListsOnly(items)
    case Grid(_, cells) => CellsListsOnly(cells)
    case _ => true
  }

  predicate ItemsListsOnly(items: seq<ListItem>)
    decreases items
  {
    forall k | 0 <= k < |items| :: ItemListsOnly(items[k])
  }

  predicate CellsListsOnly(cells: seq<Cell>)
    decreases cells
  {
    forall k | 0 <= k < |cells| :: CellListsOnly(cells[k])
  }

  predicate ItemListsOnly(item: ListItem)
    decreases item
  {
    match item
    case Elements(elements, _) => ListsOnly(elements)
    case SubList(element) => element.List? && ListsOnlyIn(element)
  }

  predicate CellListsOnly(cell: Cell)
    decreases cell
  {
    ListsOnly(cell.elements)
  }

  // ----- resolving one node

  function StripBrackets(text: string): string {
    if text == "" then ""
    else (if text[0] == '[' || text[0] == ']' then "" else [text[0]]) + StripBrackets(text[1..])
  }

  function LegacyTagSource(tag: string): string {
    var bare := StripBrackets(tag);
    "[/system:page-tags/tag/" + bare + " " + bare + "]"
  }

  function JoinTags(tags: seq<string>, separator: string): string {
    if tags == [] then ""
    else if |tags| == 1 then LegacyTagSource(tags[0])
    else LegacyTagSource(tags[0]) + separator + JoinTags(tags[1..], separator)
  }

  function LegacySourceText(slot: Slot, bindings: Bindings): Result<string, DelayedError> {
    if !IsBound(slot, bindings) then Err(BindingSchemaMismatch)
    else
      match bindings[slot.id]
      case PageLinkValue(page, caption) => Ok("[[[" + page + " | " + StripBrackets(caption) + "]]]")
      case TagLinksValue(tags, separator) => Ok(JoinTags(tags, separator))
  }

  function TagElements(tags: seq<string>, separator: string): seq<Element> {
    if tags == [] then []
    else [Leaf(PageAnchor("system:page-tags/tag/" + tags[0], tags[0]))]
         + (if |tags| == 1 then [] else [Text(separator)]) + TagElements(tags[1..], separator)
  }

  function ResolveActive(slot: Slot, bindings: Bindings): Result<seq<Element>, DelayedError> {
    if !IsBound(slot, bindings) then Err(BindingSchemaMismatch)
    else
      match bindings[slot.id]
      case PageLinkValue(page, caption) => Ok([Leaf(PageAnchor(page, caption))])
      case TagLinksValue(tags, separator) => Ok(TagElements(tags, separator))
  }

  function LegacyText(atoms: seq<RecoveryAtom>, bindings: Bindings): Result<string, DelayedError> {
    if atoms == [] then Ok("")
    else
      match atoms[0]
      case Source(text) =>
        (match LegacyText(atoms[1..], bindings) case Ok(rest) => Ok(text + rest) case Err(e) => Err(e))
      case LegacySource(slot) =>
        (match LegacySourceText(slot, bindings)
         case Err(e) => Err(e)
         case Ok(text) => match LegacyText(atoms[1..], bindings) case Ok(rest) => Ok(text + rest) case Err(e) => Err(e))
      case _ => Err(BindingSchemaMismatch)
  }

  function ShellElements(atoms: seq<RecoveryAtom>, bindings: Bindings): Result<seq<Element>, DelayedError> {
    if atoms == [] then Ok([])
    else
      var head: Result<seq<Element>, DelayedError> :=
        match atoms[0]
        case Source(text) => Ok([Text(text)])
        case ActiveSource(slot) => ResolveActive(slot, bindings)
        case AtomLineBreak => Ok([LineBreak])
        case LegacySource(_) => Err(BindingSchemaMismatch);
      match head
      case Err(e) => Err(e)
      case Ok(es) => match ShellElements(atoms[1..], bindings) case Ok(rest) => Ok(es + rest) case Err(e) => Err(e)
  }

  function StripSuffixBracket(text: string): string {
    if text != "" && text[|text| - 1] == ']' then text[..|text| - 1] else text
  }

  function EscapeSpaces(text: string): string {
    if text == "" then ""
    else (if text[0] == ' ' then "%20" else [text[0]]) + EscapeSpaces(text[1..])
  }

  /** The elements a delayed node turns into. Seams are no node to resolve. */
  function ResolveDelayed(node: DelayedNode, bindings: Bindings): Result<seq<Element>, DelayedError> {
    match node
    case Active(slot) => ResolveActive(slot, bindings)
    case Suppressed(_) => Err(UnresolvedGeneratedOwner)
    case TypographyBoundary => Err(UnresolvedGeneratedOwner)
    case RuntimeText(text) => Ok([Text(text)])
    case Raw(atoms) =>
      (match LegacyText(atoms, bindings) case Ok(text) => Ok([Leaf(RawText(text))]) case Err(e) => Err(e))
    case Shell(atoms) => ShellElements(atoms, bindings)
    case PageConditionalRecovery(id, falseBranch) =>
      if id in bindings && bindings[id].PageLinkValue?
      then Ok([Text("[[[" + bindings[id].page + "] | " + falseBranch + "]]")])
      else Err(BindingSchemaMismatch)
    case TagExternalLabel(id, url) =>
      if id in bindings && bindings[id].TagLinksValue? then
        var tags, separator := bindings[id].tags, bindings[id].separator;
        if tags == [] then Ok([Leaf(UrlLink(url, ""))])
        else
          var caption := StripSuffixBracket(LegacyTagSource(tags[0]));
          var trailing := if |tags| == 1 then "]" else separator + JoinTags(tags[1..], separator) + "]";
          Ok([Leaf(UrlLink(url, caption)), Text(trailing)])
      else Err(BindingSchemaMismatch)
    case TagImage(id, image, suffix, asLink) =>
      (match LegacySourceText(Slot(id, TagLinks), bindings)
       case Ok(text) =>
         var target := if asLink then "/" + EscapeSpaces(text + suffix) else text + suffix;
         Ok([Leaf(Picture(image, asLink, target))])
       case Err(e) => Err(e))
  }

  /** Texts, links and images only: nothing with children, nothing delayed. */
  predicate IsFlat(es: seq<Element>) {
    forall k | 0 <= k < |es| :: es[k].Text? || es[k].LineBreak? || es[k].Leaf?
  }

  lemma TagElementsFlat(tags: seq<string>, separator: string)
    ensures IsFlat(TagElements(tags, separator))
  {
  }

  lemma {:induction false} ShellFlat(atoms: seq<RecoveryAtom>, bindings: Bindings)
    ensures ShellElements(atoms, bindings).Ok? ==> IsFlat(ShellElements(atoms, bindings).value)
  {
    if atoms != [] {
      ShellFlat(atoms[1..], bindings);
      if atoms[0].ActiveSource? { ActiveFlat(atoms[0].slot, bindings); }
    }
  }

  lemma ActiveFlat(slot: Slot, bindings: Bindings)
    ensures ResolveActive(slot, bindings).Ok? ==> IsFlat(ResolveActive(slot, bindings).value)
  {
    if IsBound(slot, bindings) && bindings[slot.id].TagLinksValue? {
      TagElementsFlat(bindings[slot.id].tags, bindings[slot.id].separator);
    }
  }

  lemma {:induction false} FlatBones(es: seq<Element>)
    requires IsFlat(es)
    ensures forall k | 0 <= k < |Bones(es)| :: Bones(es)[k].Ink? || Bones(es)[k].Break? || Bones(es)[k].Thing?
  {
    if es != [] {
      assert forall k | 0 <= k < |es[1..]| :: es[1..][k] == es[k + 1];
      FlatBones(es[1..]);
    }
  }

  /** Whatever a node resolves to holds no delayed node, heading or footnote. */
  lemma ResolvedIsFlat(node: DelayedNode, bindings: Bindings)
    ensures ResolveDelayed(node, bindings).Ok? ==> IsFlat(ResolveDelayed(node, bindings).value)
  {
    match node
    case Active(slot) => ActiveFlat(slot, bindings);
    case Shell(atoms) => ShellFlat(atoms, bindings);
    case _ =>
  }
}
