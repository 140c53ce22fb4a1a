/** The syntax tree, reduced to the shapes the tree passes tell apart.

    `Wrapper` stands for the elements with one sequence of children that the
    footnote passes look into (collapsibles, anchors, includes, block frames),
    `Grid` for those they treat as a whole: tables, tab views, definition lists
    and every partial, one that holds a single sequence being a grid of one
    cell. `Leaf` stands for the elements without children.

    Characters of a tree are Unicode scalar values. */
module Tree {
  import opened Bytes

  datatype Kind =
    | Paragraph | Blockquote | Header(level: nat, hasToc: bool)
    | Bold | Italics | Underline | Superscript | Subscript | Strikethrough | Monospace
    | OtherKind(tag: nat)

  datatype Attributes = Attributes(id: nat)

  datatype ListShape = ListShape(ltype: nat, attributes: Attributes, explicitBlock: bool, unclosed: bool)

  datatype ListItem =
    | Elements(elements: seq<Element>, attributes: Attributes)
    | SubList(element: Element)

  datatype Cell = Cell(elements: seq<Element>)

  datatype GridKind = Table | OtherGrid(tag: nat)

  datatype LeafKind =
    | UrlLink(url: string, caption: string)
    | PageAnchor(page: string, caption: string)
    | ContentsLink(target: nat, title: Option<string>)
    | RawText(text: string)
    | Picture(image: nat, asLink: bool, generated: string)
    | OtherLeaf(id: nat)

  datatype GeneratedKind = PageLink | TagLinks

  datatype Slot = Slot(id: nat, kind: GeneratedKind)

  datatype RecoveryAtom =
    | Source(text: string)
    | LegacySource(slot: Slot)
    | ActiveSource(slot: Slot)
    | AtomLineBreak

  datatype DelayedNode =
    | Active(slot: Slot)
    | Suppressed(slots: seq<Slot>)
    | TypographyBoundary
    | RuntimeText(text: string)
    | Raw(atoms: seq<RecoveryAtom>)
    | Shell(atoms: seq<RecoveryAtom>)
    | PageConditionalRecovery(id: nat, falseBranch: string)
    | TagExternalLabel(id: nat, url: string)
    | TagImage(id: nat, image: nat, suffix: string, asLink: bool)

  datatype Element =
    | Text(text: string)
    | LineBreak
    | FootnoteBlock(inlinePrefix: bool, inlineSuffix: bool, details: nat)
    | Footnote(index: nat)
    | Delayed(node: DelayedNode)
    | Container(kind: Kind, children: seq<Element>, attributes: Attributes)
    | Color(color: string, background: bool, children: seq<Element>)
    | List(shape: ListShape, items: seq<ListItem>)
    | Wrapper(tag: nat, children: seq<Element>)
    | Grid(grid: GridKind, cells: seq<Cell>)
    | Leaf(leaf: LeafKind)

  // ----- size, for termination

  function Size(e: Element): (n: nat)
    ensures n >= 1
    decreases e
  {
    match e
    case Container(_, children, _) => 1 + SizeAll(children)
    case Color(_, _, children) => 1 + SizeAll(children)
    case Wrapper(_, children) => 1 + SizeAll(children)
    case List(_, items) => 1 + SizeItems(items)
    case _ => 1
  }

  function SizeAll(es: seq<Element>): nat
    decreases es
  {
    if es == [] then 0 else Size(es[0]) + SizeAll(es[1..])
  }

  function SizeItems(items: seq<ListItem>): nat
    decreases items
  {
    if items == [] then 0
    else SizeItem(items[0]) + SizeItems(items[1..])
  }

  function SizeItem(item: ListItem): nat
    decreases item
  {
    match item
    case Elements(elements, _) => 1 + SizeAll(elements)
    case SubList(element) => 1 + Size(element)
  }

  lemma {:induction false} SizeAppend(a: seq<Element>, b: seq<Element>)
    ensures SizeAll(a + b) == SizeAll(a) + SizeAll(b)
  {
    if a == [] {
      assert a + b == b;
    } else {
      assert (a + b)[1..] == a[1..] + b;
      SizeAppend(a[1..], b);
    }
  }

  // ----- what a tree says

  const EM_DASH: char := 0x2014 as char

  /** One visible thing: a non-blank character, or an opaque element. */
  datatype Atom =
    | Glyph(c: char)
    | Block(inlinePrefix: bool, inlineSuffix: bool, details: nat)
    | Note(index: nat)
    | Pending(node: DelayedNode)
    | Thing(leaf: LeafKind)

  /** The Unicode property White_Space. */
  predicate IsWhitespace(c: char) {
    var n := c as int;
    9 <= n <= 13 || n == 32 || n == 0x85 || n == 0xA0 || n == 0x1680 || 0x2000 <= n <= 0x200A
    || n == 0x2028 || n == 0x2029 || n == 0x202F || n == 0x205F || n == 0x3000
  }

  function Glyphs(text: string): seq<Atom> {
    if text == "" then []
    else (if IsWhitespace(text[0]) then [] else [Glyph(text[0])]) + Glyphs(text[1..])
  }

  function DelimiterMarkers(kind: Kind): Option<(string, string)> {
    match kind
    case Bold => Some(("**", "**"))
    case Italics => Some(("//", "//"))
    case Underline => Some(("__", "__"))
    case Superscript => Some(("^^", "^^"))
    case Subscript => Some((",,", ",,"))
    case Strikethrough => Some(("--", "--"))
    case Monospace => Some(("{{", "}}"))
    case _ => None
  }

  function ColorOpen(color: string, background: bool): string {
    if background then "##|" + color + "|" else "##" + color + "|"
  }

  /** The non-blank content in reading order, formatting written as its markers. */
  function Content(es: seq<Element>): seq<Atom>
    decreases es
  {
    if es == [] then [] else ContentOf(es[0]) + Content(es[1..])
  }

  function ContentOf(e: Element): seq<Atom>
    decreases e
  {
    match e
    case Text(text) => Glyphs(text)
    case LineBreak => []
    case FootnoteBlock(p, s, d) => [Block(p, s, d)]
    case Footnote(index) => [Note(index)]
    case Delayed(node) => [Pending(node)]
    case Container(kind, children, _) =>
      (match DelimiterMarkers(kind)
       case Some(marks) => Glyphs(marks.0) + Content(children) + Glyphs(marks.1)
       case None => Content(children))
    case Color(color, background, children) =>
      Glyphs(ColorOpen(color, background)) + Content(children) + Glyphs("##")
    case List(_, items) => ContentItems(items)
    case Wrapper(_, children) => Content(children)
    case Grid(_, cells) => ContentCells(cells)
    case Leaf(leaf) => [Thing(leaf)]
  }

  function ContentItems(items: seq<ListItem>): seq<Atom>
    decreases items
  {
    if items == [] then [] else ContentItem(items[0]) + ContentItems(items[1..])
  }

  function ContentItem(item: ListItem): seq<Atom>
    decreases item
  {
    match item
    case Elements(elements, _) => Content(elements)
    case SubList(element) => ContentOf(element)
  }

  function ContentCells(cells: seq<Cell>): seq<Atom>
    decreases cells
  {
    if cells == [] then [] else ContentCell(cells[0]) + ContentCells(cells[1..])
  }

  function ContentCell(cell: Cell): seq<Atom>
    decreases cell
  {
    Content(cell.elements)
  }

  lemma {:induction false} ContentAppend(a: seq<Element>, b: seq<Element>)
    ensures Content(a + b) == Content(a) + Content(b)
  {
    if a == [] {
      assert a + b == b;
    } else {
      assert (a + b)[1..] == a[1..] + b;
      ContentAppend(a[1..], b);
    }
  }

  lemma {:induction false} ContentItemsAppend(a: seq<ListItem>, b: seq<ListItem>)
    ensures ContentItems(a + b) == ContentItems(a) + ContentItems(b)
  {
    if a == [] {
      assert a + b == b;
    } else {
      assert (a + b)[1..] == a[1..] + b;
      ContentItemsAppend(a[1..], b);
    }
  }

  lemma {:induction false} GlyphsAppend(a: string, b: string)
    ensures Glyphs(a + b) == Glyphs(a) + Glyphs(b)
  {
    if a == "" {
      assert a + b == b;
    } else {
      assert (a + b)[1..] == a[1..] + b;
      GlyphsAppend(a[1..], b);
    }
  }

  lemma ContentSingle(e: Element)
    ensures Content([e]) == ContentOf(e)
  {
  }

  // ----- counting footnote blocks

  function BlockCount(es: seq<Element>): nat
    decreases es
  {
    if es == [] then 0 else BlockCountOf(es[0]) + BlockCount(es[1..])
  }

  function BlockCountOf(e: Element): nat
    decreases e
  {
    match e
    case FootnoteBlock(_, _, _) => 1
    case Container(_, children, _) => BlockCount(children)
    case Color(_, _, children) => BlockCount(children)
    case List(_, items) => BlockCountItems(items)
    case Wrapper(_, children) => BlockCount(children)
    case Grid(_, cells) => BlockCountCells(cells)
    case _ => 0
  }

  function BlockCountItems(items: seq<ListItem>): nat
    decreases items
  {
    if items == [] then 0
    else BlockCountItem(items[0]) + BlockCountItems(items[1..])
  }

  function BlockCountItem(item: ListItem): nat
    decreases item
  {
    match item
    case Elements(elements, _) => BlockCount(elements)
    case SubList(element) => BlockCountOf(element)
  }

  function BlockCountCells(cells: seq<Cell>): nat
    decreases cells
  {
    if cells == [] then 0 else BlockCountCell(cells[0]) + BlockCountCells(cells[1..])
  }

  function BlockCountCell(cell: Cell): nat
    decreases cell
  {
    BlockCount(cell.elements)
  }

  function BlocksIn(atoms: seq<Atom>): nat {
    if atoms == [] then 0 else (if atoms[0].Block? then 1 else 0) + BlocksIn(atoms[1..])
  }

  lemma {:induction false} BlocksInAppend(a: seq<Atom>, b: seq<Atom>)
    ensures BlocksIn(a + b) == BlocksIn(a) + BlocksIn(b)
  {
    if a == [] {
      assert a + b == b;
    } else {
      assert (a + b)[1..] == a[1..] + b;
      BlocksInAppend(a[1..], b);
    }
  }

  lemma {:induction false} NoBlockInGlyphs(text: string)
    ensures BlocksIn(Glyphs(text)) == 0
  {
    if text != "" {
      NoBlockInGlyphs(text[1..]);
      BlocksInAppend(if IsWhitespace(text[0]) then [] else [Glyph(text[0])], Glyphs(text[1..]));
    }
  }

  /** The content records every footnote block at any depth, so passes that keep
      the content keep their number. */
  lemma {:induction false} ContentCountsBlocks(es: seq<Element>)
    ensures BlocksIn(Content(es)) == BlockCount(es)
    decreases es
  {
    if es != [] {
      ContentOfCountsBlocks(es[0]);
      ContentCountsBlocks(es[1..]);
      BlocksInAppend(ContentOf(es[0]), Content(es[1..]));
    }
  }

  lemma {:induction false} ContentOfCountsBlocks(e: Element)
    ensures BlocksIn(ContentOf(e)) == BlockCountOf(e)
    decreases e
  {
    match e
    case Text(text) => NoBlockInGlyphs(text);
    case Container(kind, children, _) =>
      ContentCountsBlocks(children);
      if DelimiterMarkers(kind).Some? {
        var marks := DelimiterMarkers(kind).value;
        SurroundedBlocks(marks.0, Content(children), marks.1);
      }
    case Color(color, background, children) =>
      ContentCountsBlocks(children);
      SurroundedBlocks(ColorOpen(color, background), Content(children), "##");
    case List(_, items) => ContentItemsCountBlocks(items);
    case Wrapper(_, children) => ContentCountsBlocks(children);
    case Grid(_, cells) => ContentCellsCountBlocks(cells);
    case _ =>
  }

  lemma SurroundedBlocks(open: string, atoms: seq<Atom>, close: string)
    ensures BlocksIn(Glyphs(open) + atoms + Glyphs(close)) == BlocksIn(atoms)
  {
    NoBlockInGlyphs(open);
    NoBlockInGlyphs(close);
    BlocksInAppend(Glyphs(open), atoms);
    BlocksInAppend(Glyphs(open) + atoms, Glyphs(close));
  }

  lemma {:induction false} ContentItemsCountBlocks(items: seq<ListItem>)
    ensures BlocksIn(ContentItems(items)) == BlockCountItems(items)
    decreases items
  {
    if items != [] {
      ContentItemCountsBlocks(items[0]);
      ContentItemsCountBlocks(items[1..]);
      BlocksInAppend(ContentItem(items[0]), ContentItems(items[1..]));
    }
  }

  lemma {:induction false} ContentCellsCountBlocks(cells: seq<Cell>)
    ensures BlocksIn(ContentCells(cells)) == BlockCountCells(cells)
    decreases cells
  {
    if cells != [] {
      ContentCellCountsBlocks(cells[0]);
      ContentCellsCountBlocks(cells[1..]);
      BlocksInAppend(ContentCell(cells[0]), ContentCells(cells[1..]));
    }
  }

  lemma {:induction false} ContentItemCountsBlocks(item: ListItem)
    ensures BlocksIn(ContentItem(item)) == BlockCountItem(item)
    decreases item
  {
    match item
    case Elements(elements, _) => ContentCountsBlocks(elements);
    case SubList(element) => ContentOfCountsBlocks(element);
  }

  lemma {:induction false} ContentCellCountsBlocks(cell: Cell)
    ensures BlocksIn(ContentCell(cell)) == BlockCountCell(cell)
    decreases cell
  {
    ContentCountsBlocks(cell.elements);
  }
}
