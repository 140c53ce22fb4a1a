/** What a tree says: its text spelled out, with the line breaks, paragraphs,
    shells and nodes around it. Both binding passes leave that as it is. */
module TreeReading {
  import opened Seqs
  import opened Tree
  import opened DelayedSpec
  import opened NodeMeaning
  import opened Seam
  import opened SeamReading
  import opened Suppression
  import opened Binding

  /** What counts as a seam, how a character was written, and what a delayed node
      stands for. */
  datatype Reader = Reader(c: Classifier, spell: Spelling, meaning: DelayedNode -> seq<Bone>)

  // ----- line breaks

  /** One more bone; of two breaks in a row one is kept. */
  function Add(read: seq<Bone>, bone: Bone): seq<Bone> {
    if bone.Break? && read != [] && read[|read| - 1].Break? then read else read + [bone]
  }

  function CollapseOnto(read: seq<Bone>, bones: seq<Bone>): seq<Bone>
    decreases |bones|
  {
    if bones == [] then read else CollapseOnto(Add(read, bones[0]), bones[1..])
  }

  function DropBreak(read: seq<Bone>): seq<Bone> {
    if read != [] && read[|read| - 1].Break? then read[..|read| - 1] else read
  }

  /** Breaks in a row are one, and a sequence ends without. */
  function Squeeze(bones: seq<Bone>): seq<Bone> {
    DropBreak(CollapseOnto([], bones))
  }

  lemma {:induction false} CollapseAppend(read: seq<Bone>, a: seq<Bone>, b: seq<Bone>)
    ensures CollapseOnto(read, a + b) == CollapseOnto(CollapseOnto(read, a), b)
    decreases |a|
  {
    hide Add;
    if a == [] {
      assert a + b == b;
    } else {
      assert (a + b)[1..] == a[1..] + b && (a + b)[0] == a[0];
      CollapseAppend(Add(read, a[0]), a[1..], b);
    }
  }

  lemma CollapseOne(read: seq<Bone>, bone: Bone)
    ensures CollapseOnto(read, [bone]) == Add(read, bone)
  {
    hide Add;
    assert [bone][1..] == [] && [bone][0] == bone;
  }

  lemma EndsInBreak(bones: seq<Bone>)
    ensures
      var r := CollapseOnto([], bones + [Break]);
      r != [] && r[|r| - 1].Break? && DropBreak(r) == Squeeze(bones) && CollapseOnto(r, [Break]) == r
  {
    hide CollapseOnto;
    CollapseAppend([], bones, [Break]);
    CollapseOne(CollapseOnto([], bones), Break);
    CollapseOne(CollapseOnto([], bones + [Break]), Break);
  }

  /** A break after a break is not read. */
  lemma BreakAgain(bones: seq<Bone>, more: seq<Bone>)
    ensures Squeeze(bones + [Break] + ([Break] + more)) == Squeeze(bones + [Break] + more)
  {
    hide CollapseOnto, DropBreak;
    EndsInBreak(bones);
    CollapseAppend([], bones + [Break], [Break] + more);
    CollapseAppend(CollapseOnto([], bones + [Break]), [Break], more);
    CollapseAppend([], bones + [Break], more);
  }

  /** Nor is one at the end. */
  lemma BreakLast(bones: seq<Bone>)
    ensures Squeeze(bones + [Break]) == Squeeze(bones)
  {
    EndsInBreak(bones);
  }

  lemma {:induction false} NoBreaks(read: seq<Bone>, bones: seq<Bone>)
    requires forall k | 0 <= k < |bones| :: !bones[k].Break?
    ensures CollapseOnto(read, bones) == read + bones
    decreases |bones|
  {
    if bones == [] {
      assert read + bones == read;
    } else {
      assert forall k | 0 <= k < |bones[1..]| :: bones[1..][k] == bones[k + 1];
      NoBreaks(read + [bones[0]], bones[1..]);
      assert read + [bones[0]] + bones[1..] == read + bones;
    }
  }

  lemma {:induction false} TextHasNoBreaks(spell: Spelling, text: string)
    ensures forall k | 0 <= k < |ReadText(spell, text)| :: ReadText(spell, text)[k].Ink?
  {
    if text != "" {
      TextHasNoBreaks(spell, text[1..]);
    }
  }

  lemma TextSqueezes(spell: Spelling, text: string)
    ensures Squeeze(ReadText(spell, text)) == ReadText(spell, text)
  {
    hide ReadText;
    TextHasNoBreaks(spell, text);
    NoBreaks([], ReadText(spell, text));
  }

  // ----- reading

  /** What a sequence says. */
  function Reading(es: seq<Element>, rd: Reader): seq<Bone> {
    Squeeze(Raw(es, rd))
  }

  function Raw(es: seq<Element>, rd: Reader): seq<Bone>
    decreases es
  {
    if es == [] then [] else RawOf(es[0], rd) + Raw(es[1..], rd)
  }

  /** Struck text is read with its markers; a paragraph or quote that says nothing
      is not read, nor is a seam. */
  function RawOf(e: Element, rd: Reader): seq<Bone>
    decreases e
  {
    match e
    case Text(text) => ReadText(rd.spell, text)
    case LineBreak => [Break]
    case FootnoteBlock(_, _, details) => [Foot(details)]
    case Footnote(index) => [NoteRef(index)]
    case Delayed(node) => if IsSeam(rd.c, node) then [] else rd.meaning(node)
    case Container(kind, children, attributes) =>
      var inner := Squeeze(Raw(children, rd));
      if kind == Strikethrough then ReadText(rd.spell, "--") + inner + ReadText(rd.spell, "--")
      else if IsOwner(kind) && inner == [] then []
      else Wrap(ContainerShell(kind, attributes), inner)
    case Color(color, background, children) => Wrap(ColorShell(color, background), Squeeze(Raw(children, rd)))
    case Wrapper(tag, children) => Wrap(WrapperShell(tag), Squeeze(Raw(children, rd)))
    case List(shape, items) => Wrap(ListMark(shape), RawItems(items, rd))
    case Grid(grid, cells) => Wrap(GridShell(grid), RawCells(cells, rd))
    case Leaf(leaf) => [Bone.Thing(leaf)]
  }

  function RawItems(items: seq<ListItem>, rd: Reader): seq<Bone>
    decreases items
  {
    if items == [] then [] else RawItem(items[0], rd) + RawItems(items[1..], rd)
  }

  function RawItem(item: ListItem, rd: Reader): seq<Bone>
    decreases item
  {
    match item
    case Elements(elements, attributes) => Wrap(ItemMark(attributes), Squeeze(Raw(elements, rd)))
    case SubList(element) => Wrap(SubListMark, Squeeze(RawOf(element, rd)))
  }

  function RawCells(cells: seq<Cell>, rd: Reader): seq<Bone>
    decreases cells
  {
    if cells == [] then [] else RawCell(cells[0], rd) + RawCells(cells[1..], rd)
  }

  function RawCell(cell: Cell, rd: Reader): seq<Bone>
    decreases cell
  {
    Wrap(CellMark, Squeeze(Raw(cell.elements, rd)))
  }

  lemma {:induction false} RawAppend(a: seq<Element>, b: seq<Element>, rd: Reader)
    ensures Raw(a + b, rd) == Raw(a, rd) + Raw(b, rd)
  {
    hide RawOf;
    if a == [] {
      assert a + b == b;
    } else {
      assert (a + b)[1..] == a[1..] + b && (a + b)[0] == a[0];
      RawAppend(a[1..], b, rd);
      Regroup(RawOf(a[0], rd), Raw(a[1..], rd), Raw(b, rd));
    }
  }

  lemma RawSingle(e: Element, rd: Reader)
    ensures Raw([e], rd) == RawOf(e, rd)
  {
    hide RawOf;
    assert [e][1..] == [];
  }

  lemma RawSnoc(es: seq<Element>, e: Element, rd: Reader)
    ensures Raw(es + [e], rd) == Raw(es, rd) + RawOf(e, rd)
  {
    RawAppend(es, [e], rd);
    RawSingle(e, rd);
  }

  lemma RawFirst(es: seq<Element>, rd: Reader)
    ensures es == [] ==> Raw(es, rd) == []
    ensures es != [] ==> Raw(es, rd) == RawOf(es[0], rd) + Raw(es[1..], rd)
  {
    hide RawOf;
  }

  /** Flushed text is read as its characters. */
  lemma {:induction false} TextualReads(es: seq<Element>, rd: Reader)
    requires IsTextual(es)
    ensures Raw(es, rd) == ReadText(rd.spell, Plain(es))
    decreases es
  {
    hide ReadText, IsTexts, RawOf;
    RawFirst(es, rd);
    EmptyReads(rd.spell);
    if es != [] {
      assert forall k | 0 <= k < |es[1..]| :: es[1..][k] == es[k + 1];
      TextualReads(es[1..], rd);
      ReadTextAppend(rd.spell, PlainOf(es[0]), Plain(es[1..]));
      TextualReadsOne(es[0], rd);
    }
  }

  lemma {:induction false} TextualReadsOne(e: Element, rd: Reader)
    requires e.Text? || (e.Container? && e.kind == Strikethrough && IsTexts(e.children))
    ensures RawOf(e, rd) == ReadText(rd.spell, PlainOf(e))
    decreases e
  {
    hide ReadText, Squeeze, Raw, Plain;
    if e.Container? {
      TextualReads(e.children, rd);
      TextSqueezes(rd.spell, Plain(e.children));
      ReadTextAppend(rd.spell, "--", Plain(e.children));
      ReadTextAppend(rd.spell, "--" + Plain(e.children), "--");
    }
  }

  // ----- the flushes of a run

  datatype Flush = Flush(group: seq<Grouped>, byUrl: bool)

  /** The groups a sequence is flushed in. */
  ghost function Flushes(output: seq<Element>, group: seq<Element>, rest: seq<Element>, pass: Pass): set<Flush>
    decreases |rest|
  {
    var done, vanished := Flushed(output, group, pass), IsSeamOnly(Members(group));
    var here := {Flush(Members(group), LastElementIsUrlOwner(output))};
    if rest == [] then here
    else if Joins(pass.c, rest[0]) then Flushes(output, group + [rest[0]], rest[1..], pass)
    else if vanished && rest[0].LineBreak? && EndsWithBreak(done) then here + Flushes(done, [], rest[1..], pass)
    else here + Flushes(done + [rest[0]], [], rest[1..], pass)
  }

  /** All groups flushed when a sequence is suppressed, at any depth. */
  ghost function AllFlushes(es: seq<Element>, pass: Pass): set<Flush>
    decreases es, |es| + 1
  {
    FlushesBelow(es, |es|, pass) + Flushes([], [], SuppressEach(es, pass), pass)
  }

  ghost function FlushesBelow(es: seq<Element>, n: nat, pass: Pass): set<Flush>
    requires n <= |es|
    decreases es, n
  {
    if n == 0 then {} else FlushesBelow(es, n - 1, pass) + FlushesIn(es[n - 1], pass)
  }

  ghost function FlushesIn(e: Element, pass: Pass): set<Flush>
    decreases e
  {
    match e
    case Container(_, children, _) => AllFlushes(children, pass)
    case Color(_, _, children) => AllFlushes(children, pass)
    case Wrapper(_, children) => AllFlushes(children, pass)
    case List(_, items) => FlushesInItems(items, |items|, pass)
    case Grid(_, cells) => FlushesInCells(cells, |cells|, pass)
    case _ => {}
  }

  ghost function FlushesInItems(items: seq<ListItem>, n: nat, pass: Pass): set<Flush>
    requires n <= |items|
    decreases items, n
  {
    if n == 0 then {} else FlushesInItems(items, n - 1, pass) + FlushesInItem(items[n - 1], pass)
  }

  ghost function FlushesInItem(item: ListItem, pass: Pass): set<Flush>
    decreases item
  {
    match item
    case Elements(elements, _) => AllFlushes(elements, pass)
    case SubList(element) => FlushesIn(element, pass)
  }

  ghost function FlushesInCells(cells: seq<Cell>, n: nat, pass: Pass): set<Flush>
    requires n <= |cells|
    decreases cells, n
  {
    if n == 0 then {} else FlushesInCells(cells, n - 1, pass) + AllFlushes(cells[n - 1].elements, pass)
  }

  ghost predicate AllQuiet(flushes: set<Flush>, pass: Pass, spell: Spelling) {
    forall f | f in flushes :: QuietGroup(f.group, f.byUrl, pass.typography, pass.oracle, spell)
  }

  /** Every flush of the run makes quiet edits. */
  ghost predicate QuietRun(es: seq<Element>, pass: Pass, spell: Spelling) {
    AllQuiet(AllFlushes(es, pass), pass, spell)
  }

  /** With a quiet oracle every run is quiet. */
  lemma QuietOracleRuns(es: seq<Element>, pass: Pass, spell: Spelling)
    requires Quiet(pass.oracle, spell)
    ensures QuietRun(es, pass, spell)
  {
    hide Quiet, QuietGroup;
    forall f | f in AllFlushes(es, pass)
      ensures QuietGroup(f.group, f.byUrl, pass.typography, pass.oracle, spell)
    {
      QuietOracle(pass.oracle, spell, f.group, f.byUrl, pass.typography);
    }
  }

  lemma QuietParts(a: set<Flush>, b: set<Flush>, pass: Pass, spell: Spelling)
    ensures AllQuiet(a + b, pass, spell) <==> AllQuiet(a, pass, spell) && AllQuiet(b, pass, spell)
  {
    hide QuietGroup;
  }

  // ----- the suppression pass keeps the reading

  function GroupText(group: seq<Element>, rd: Reader): seq<Bone> {
    ReadText(rd.spell, JoinTexts(Members(group)))
  }

  lemma FlushedRaw(output: seq<Element>, group: seq<Element>, pass: Pass, rd: Reader)
    requires QuietGroup(Members(group), LastElementIsUrlOwner(output), pass.typography, pass.oracle, rd.spell)
    ensures Raw(Flushed(output, group, pass), rd) == Raw(output, rd) + GroupText(group, rd)
    ensures IsSeamOnly(Members(group)) ==> Flushed(output, group, pass) == output && GroupText(group, rd) == []
  {
    hide Raw, ReadText, LastElementIsUrlOwner, FlushedGroup, QuietGroup, JoinTexts;
    var byUrl := LastElementIsUrlOwner(output);
    var emitted := FlushedGroup(Members(group), byUrl, pass.typography, pass.oracle);
    FlushedTextual(Members(group), byUrl, pass.typography, pass.oracle);
    FlushedReads(Members(group), byUrl, pass.typography, pass.oracle, rd.spell);
    TextualReads(emitted, rd);
    RawAppend(output, emitted, rd);
    if IsSeamOnly(Members(group)) {
      DroppedJoin(Members(group));
      EmptyReads(rd.spell);
      assert output + [] == output;
    }
  }

  lemma GroupTextSnoc(group: seq<Element>, e: Element, rd: Reader)
    requires Joins(rd.c, e)
    ensures GroupText(group + [e], rd) == GroupText(group, rd) + RawOf(e, rd)
  {
    hide ReadText;
    var all := Members(group + [e]);
    assert all[..|group|] == Members(group);
    if e.Text? {
      ReadTextAppend(rd.spell, JoinTexts(Members(group)), e.text);
    } else {
      assert JoinTexts(Members(group)) + "" == JoinTexts(Members(group));
      assert GroupText(group, rd) + [] == GroupText(group, rd);
    }
  }

  lemma NoGroupText(rd: Reader)
    ensures GroupText([], rd) == [] && Raw([], rd) == []
  {
  }

  lemma BreakReads(es: seq<Element>, rd: Reader)
    requires EndsWithBreak(es)
    ensures Raw(es, rd) == Raw(es[..|es| - 1], rd) + [Break]
  {
    hide Raw;
    var init := es[..|es| - 1];
    assert es == init + [LineBreak];
    RawSnoc(init, LineBreak, rd);
  }

  /** Regrouping a visited sequence keeps what it says. */
  lemma {:induction false} RegroupReads(output: seq<Element>, group: seq<Element>, rest: seq<Element>, pass: Pass,
                                        rd: Reader)
    requires rd.c == pass.c && AllQuiet(Flushes(output, group, rest, pass), pass, rd.spell)
    ensures Reading(Regrouped(output, group, rest, pass), rd)
         == Squeeze(Raw(output, rd) + GroupText(group, rd) + Raw(rest, rd))
    decreases |rest|
  {
    hide Raw, RawOf, GroupText, Squeeze, Flushed, Joins, QuietGroup, LastElementIsUrlOwner;
    var done := Flushed(output, group, pass);
    var before := Raw(output, rd) + GroupText(group, rd);
    RawFirst(rest, rd);
    NoGroupText(rd);
    assert before + [] == before;
    if rest == [] {
      FlushedRaw(output, group, pass, rd);
      if EndsWithBreak(done) {
        BreakReads(done, rd);
        BreakLast(Raw(done[..|done| - 1], rd));
      }
    } else {
      var e, tail := rest[0], rest[1..];
      if Joins(pass.c, e) {
        RegroupReads(output, group + [e], tail, pass, rd);
        GroupTextSnoc(group, e, rd);
        RegroupText(Raw(output, rd), GroupText(group, rd), RawOf(e, rd), Raw(tail, rd));
      } else {
        FlushedRaw(output, group, pass, rd);
        if IsSeamOnly(Members(group)) && e.LineBreak? && EndsWithBreak(done) {
          RegroupReads(done, [], tail, pass, rd);
          BreakReads(done, rd);
          BreakAgain(Raw(done[..|done| - 1], rd), Raw(tail, rd));
          BreakIsRead(e, rd);
        } else {
          RegroupReads(done + [e], [], tail, pass, rd);
          RawSnoc(done, e, rd);
          Regroup(before, RawOf(e, rd), Raw(tail, rd));
        }
        assert Raw(done, rd) + [] == Raw(done, rd);
        assert Raw(done, rd) + RawOf(e, rd) + [] == Raw(done, rd) + RawOf(e, rd);
      }
    }
  }

  lemma RegroupText(a: seq<Bone>, b: seq<Bone>, c: seq<Bone>, d: seq<Bone>)
    ensures a + (b + c) + d == a + b + (c + d)
  {
  }

  lemma BreakIsRead(e: Element, rd: Reader)
    requires e.LineBreak?
    ensures RawOf(e, rd) == [Break]
  {
  }

  /** The suppression pass changes nothing a tree says, whatever its nodes mean. */
  lemma {:induction false} SuppressReads(es: seq<Element>, pass: Pass, rd: Reader)
    requires rd.c == pass.c && QuietRun(es, pass, rd.spell)
    ensures Reading(SuppressAll(es, pass), rd) == Reading(es, rd)
    decreases es, 1
  {
    hide Raw, Squeeze, Regrouped, AllQuiet, Flushes, FlushesBelow, GroupText, SuppressEach;
    var each := SuppressEach(es, pass);
    QuietParts(FlushesBelow(es, |es|, pass), Flushes([], [], each, pass), pass, rd.spell);
    EachReads(es, |es|, pass, rd);
    RegroupReads([], [], each, pass, rd);
    NoGroupText(rd);
    assert es[..|es|] == es && each[..|es|] == each;
    assert [] + [] + Raw(each, rd) == Raw(each, rd);
  }

  lemma {:induction false} EachReads(es: seq<Element>, n: nat, pass: Pass, rd: Reader)
    requires n <= |es| && rd.c == pass.c && AllQuiet(FlushesBelow(es, n, pass), pass, rd.spell)
    ensures Raw(SuppressEach(es, pass)[..n], rd) == Raw(es[..n], rd)
    decreases es, 0, n
  {
    hide Raw, RawOf, AllQuiet, FlushesIn, SuppressElement;
    var each := SuppressEach(es, pass);
    if n == 0 {
      assert es[..0] == each[..0];
    } else {
      QuietParts(FlushesBelow(es, n - 1, pass), FlushesIn(es[n - 1], pass), pass, rd.spell);
      EachReads(es, n - 1, pass, rd);
      ElementReads(es[n - 1], pass, rd);
      assert es[..n] == es[..n - 1] + [es[n - 1]] && each[..n] == each[..n - 1] + [each[n - 1]];
      RawSnoc(es[..n - 1], es[n - 1], rd);
      RawSnoc(each[..n - 1], each[n - 1], rd);
    }
  }

  lemma NothingReads(rd: Reader)
    ensures Reading([], rd) == []
  {
  }

  lemma {:induction false} ElementReads(e: Element, pass: Pass, rd: Reader)
    requires rd.c == pass.c && AllQuiet(FlushesIn(e, pass), pass, rd.spell)
    ensures RawOf(SuppressElement(e, pass), rd) == RawOf(e, rd)
    decreases e
  {
    hide Raw, Squeeze, ReadText, Wrap, AllQuiet, AllFlushes, SuppressAll, SuppressItems, SuppressCells, FlushesInItems,
         FlushesInCells, RawItems, RawCells;
    NothingReads(rd);
    match e
    case Container(_, children, _) => SuppressReads(children, pass, rd);
    case Color(_, _, children) => SuppressReads(children, pass, rd);
    case Wrapper(_, children) => SuppressReads(children, pass, rd);
    case List(_, items) => ItemsRead(items, |items|, pass, rd);
    case Grid(_, cells) => CellsRead(cells, |cells|, pass, rd);
    case _ =>
  }

  lemma RawItemsSnoc(items: seq<ListItem>, n: nat, rd: Reader)
    requires n < |items|
    ensures RawItems(items[..n + 1], rd) == RawItems(items[..n], rd) + RawItem(items[n], rd)
  {
    assert items[..n + 1] == items[..n] + [items[n]];
    RawItemsAppend(items[..n], [items[n]], rd);
    assert [items[n]][1..] == [];
  }

  lemma {:induction false} RawItemsAppend(a: seq<ListItem>, b: seq<ListItem>, rd: Reader)
    ensures RawItems(a + b, rd) == RawItems(a, rd) + RawItems(b, rd)
  {
    hide RawItem;
    if a == [] {
      assert a + b == b;
    } else {
      assert (a + b)[1..] == a[1..] + b && (a + b)[0] == a[0];
      RawItemsAppend(a[1..], b, rd);
      Regroup(RawItem(a[0], rd), RawItems(a[1..], rd), RawItems(b, rd));
    }
  }

  lemma {:induction false} ItemsRead(items: seq<ListItem>, n: nat, pass: Pass, rd: Reader)
    requires n <= |items| && rd.c == pass.c && AllQuiet(FlushesInItems(items, n, pass), pass, rd.spell)
    ensures RawItems(SuppressItems(items, pass)[..n], rd) == RawItems(items[..n], rd)
    ensures n == |items| ==> RawItems(SuppressItems(items, pass), rd) == RawItems(items, rd)
    decreases items, n
  {
    hide RawItems, RawItem, AllQuiet, FlushesInItem, SuppressItem;
    var each := SuppressItems(items, pass);
    if n == 0 {
      assert items[..0] == each[..0];
    } else {
      QuietParts(FlushesInItems(items, n - 1, pass), FlushesInItem(items[n - 1], pass), pass, rd.spell);
      ItemsRead(items, n - 1, pass, rd);
      ItemReads(items[n - 1], pass, rd);
      RawItemsSnoc(items, n - 1, rd);
      RawItemsSnoc(each, n - 1, rd);
    }
    assert items[..|items|] == items && each[..|items|] == each;
  }

  lemma {:induction false} ItemReads(item: ListItem, pass: Pass, rd: Reader)
    requires rd.c == pass.c && AllQuiet(FlushesInItem(item, pass), pass, rd.spell)
    ensures RawItem(SuppressItem(item, pass), rd) == RawItem(item, rd)
    decreases item
  {
    hide Raw, RawOf, Squeeze, AllQuiet, AllFlushes, FlushesIn, SuppressAll, SuppressElement, Wrap;
    match item
    case Elements(elements, _) => SuppressReads(elements, pass, rd);
    case SubList(element) => ElementReads(element, pass, rd);
  }

  lemma RawCellsSnoc(cells: seq<Cell>, n: nat, rd: Reader)
    requires n < |cells|
    ensures RawCells(cells[..n + 1], rd) == RawCells(cells[..n], rd) + RawCell(cells[n], rd)
  {
    assert cells[..n + 1] == cells[..n] + [cells[n]];
    RawCellsAppend(cells[..n], [cells[n]], rd);
    assert [cells[n]][1..] == [];
  }

  lemma {:induction false} RawCellsAppend(a: seq<Cell>, b: seq<Cell>, rd: Reader)
    ensures RawCells(a + b, rd) == RawCells(a, rd) + RawCells(b, rd)
  {
    hide RawCell;
    if a == [] {
      assert a + b == b;
    } else {
      assert (a + b)[1..] == a[1..] + b && (a + b)[0] == a[0];
      RawCellsAppend(a[1..], b, rd);
      Regroup(RawCell(a[0], rd), RawCells(a[1..], rd), RawCells(b, rd));
    }
  }

  lemma {:induction false} CellsRead(cells: seq<Cell>, n: nat, pass: Pass, rd: Reader)
    requires n <= |cells| && rd.c == pass.c && AllQuiet(FlushesInCells(cells, n, pass), pass, rd.spell)
    ensures RawCells(SuppressCells(cells, pass)[..n], rd) == RawCells(cells[..n], rd)
    ensures n == |cells| ==> RawCells(SuppressCells(cells, pass), rd) == RawCells(cells, rd)
    decreases cells, n
  {
    hide RawCells, Raw, Squeeze, Wrap, AllQuiet, AllFlushes, SuppressAll;
    var each := SuppressCells(cells, pass);
    if n == 0 {
      assert cells[..0] == each[..0];
    } else {
      QuietParts(FlushesInCells(cells, n - 1, pass), AllFlushes(cells[n - 1].elements, pass), pass, rd.spell);
      CellsRead(cells, n - 1, pass, rd);
      SuppressReads(cells[n - 1].elements, pass, rd);
      assert each[n - 1] == SuppressCell(cells[n - 1], pass);
      RawCellsSnoc(cells, n - 1, rd);
      RawCellsSnoc(each, n - 1, rd);
    }
    assert cells[..|cells|] == cells && each[..|cells|] == each;
  }

  // ----- the resolve pass keeps the reading

  /** What a replacement says: texts, line breaks and leaves. */
  function FlatReading(es: seq<Element>, spell: Spelling): seq<Bone> {
    if es == [] then []
    else
      (match es[0]
       case Text(text) => ReadText(spell, text)
       case LineBreak => [Break]
       case Leaf(leaf) => [Bone.Thing(leaf)]
       case _ => []) + FlatReading(es[1..], spell)
  }

  /** Reads a delayed node as what it stands for. */
  ghost function BoundReader(bindings: Bindings, spell: Spelling): Reader {
    Reader(Bound(bindings), spell, node => FlatReading(Meaning(node, bindings), spell))
  }

  lemma {:induction false} FlatReads(es: seq<Element>, rd: Reader)
    requires IsFlat(es)
    ensures Raw(es, rd) == FlatReading(es, rd.spell)
  {
    hide ReadText;
    if es != [] {
      assert forall k | 0 <= k < |es[1..]| :: es[1..][k] == es[k + 1];
      FlatReads(es[1..], rd);
    }
  }

  lemma ReplacementReads(e: Element, bindings: Bindings, spell: Spelling)
    requires e.Delayed?
    ensures Raw(Meaning(e.node, bindings), BoundReader(bindings, spell))
            == RawOf(e, BoundReader(bindings, spell))
  {
    hide Raw, FlatReading, Meaning, ResolveDelayed;
    var rd := BoundReader(bindings, spell);
    MeaningIsResolved(e.node, bindings);
    FlatReads(Meaning(e.node, bindings), rd);
    NothingFlat(spell);
  }

  lemma NothingFlat(spell: Spelling)
    ensures FlatReading([], spell) == []
  {
  }

  lemma {:induction false} BlanksAreNotRead(spell: Spelling, text: string)
    requires forall k | 0 <= k < |text| :: IsBlank(text[k])
    ensures ReadText(spell, text) == []
  {
    if text != "" {
      assert forall k | 0 <= k < |text[1..]| :: text[1..][k] == text[k + 1];
      BlanksAreNotRead(spell, text[1..]);
    }
  }

  lemma TrimmedReads(es: seq<Element>, rd: Reader)
    ensures Raw(TrimmedTail(es), rd) == Raw(es, rd)
  {
    hide Raw, ReadText, TrimEnd;
    if es != [] && es[|es| - 1].Text? {
      var init, text := es[..|es| - 1], es[|es| - 1].text;
      var kept := TrimEnd(text);
      assert es == init + [Text(text)] && text == kept + text[|kept|..];
      BlanksAreNotRead(rd.spell, text[|kept|..]);
      ReadTextAppend(rd.spell, kept, text[|kept|..]);
      RawSnoc(init, Text(text), rd);
      RawSnoc(init, Text(kept), rd);
      EmptyReads(rd.spell);
      assert RawOf(Text(kept), rd) == RawOf(Text(text), rd);
      assert init + [] == init && Raw(init, rd) + [] == Raw(init, rd);
    }
  }

  lemma {:induction false} ResolveReads(es: seq<Element>, bindings: Bindings, spell: Spelling)
    ensures Raw(ResolveAll(es, bindings), BoundReader(bindings, spell)) == Raw(es, BoundReader(bindings, spell))
    decreases es, |es| + 1
  {
    assert es[..|es|] == es;
    PrefixReads(es, |es|, bindings, spell);
  }

  lemma {:induction false} PrefixReads(es: seq<Element>, n: nat, bindings: Bindings, spell: Spelling)
    requires n <= |es|
    ensures Raw(ResolvePrefix(es, n, bindings), BoundReader(bindings, spell))
         == Raw(es[..n], BoundReader(bindings, spell))
    decreases es, n
  {
    hide Raw, RawOf, ResolveNext;
    var rd := BoundReader(bindings, spell);
    if n == 0 {
      assert es[..0] == [];
    } else {
      PrefixReads(es, n - 1, bindings, spell);
      NextReads(ResolvePrefix(es, n - 1, bindings), es[n - 1], n == |es|, bindings, spell);
      assert es[..n] == es[..n - 1] + [es[n - 1]];
      RawSnoc(es[..n - 1], es[n - 1], rd);
    }
  }

  lemma {:induction false} NextReads(standing: seq<Element>, e: Element, isLast: bool, bindings: Bindings,
                                     spell: Spelling)
    ensures
      var rd := BoundReader(bindings, spell);
      Raw(ResolveNext(standing, e, isLast, bindings), rd) == Raw(standing, rd) + RawOf(e, rd)
    decreases e, 1
  {
    hide Raw, RawOf, TrimmedTail, Meaning, ResolveElement, BoundReader;
    var rd := BoundReader(bindings, spell);
    if e.Delayed? {
      var replacement := Meaning(e.node, bindings);
      TrimmedReads(standing, rd);
      ReplacementReads(e, bindings, spell);
      RawAppend(standing, replacement, rd);
      RawAppend(TrimmedTail(standing), replacement, rd);
    } else {
      ResolvedElementReads(e, bindings, spell);
      RawAppend(standing, ResolveElement(e, bindings), rd);
    }
  }

  lemma {:induction false} ResolvedElementReads(e: Element, bindings: Bindings, spell: Spelling)
    requires !e.Delayed?
    ensures Raw(ResolveElement(e, bindings), BoundReader(bindings, spell)) == RawOf(e, BoundReader(bindings, spell))
    decreases e, 0
  {
    hide Raw, Squeeze, ReadText, Wrap, ResolveAll, ElementsContainDelayed, RawItems, RawCells, BoundReader,
         ResolveListItem, ResolveCell;
    var rd := BoundReader(bindings, spell);
    NothingReads(rd);
    RawFirst([], rd);
    match e
    case Container(kind, children, attributes) =>
      ResolveReads(children, bindings, spell);
      RawSingle(Container(kind, ResolveAll(children, bindings), attributes), rd);
    case Color(color, background, children) =>
      ResolveReads(children, bindings, spell);
      RawSingle(Color(color, background, ResolveAll(children, bindings)), rd);
    case Wrapper(tag, children) =>
      ResolveReads(children, bindings, spell);
      RawSingle(Wrapper(tag, ResolveAll(children, bindings)), rd);
    case List(shape, items) =>
      var resolved := seq(|items|, k requires 0 <= k < |items| => ResolveListItem(items[k], bindings));
      ResolvedItemsRead(items, resolved, |items|, bindings, spell);
      RawSingle(List(shape, resolved), rd);
    case Grid(grid, cells) =>
      var resolved := seq(|cells|, k requires 0 <= k < |cells| => ResolveCell(cells[k], bindings));
      ResolvedCellsRead(cells, resolved, |cells|, bindings, spell);
      RawSingle(Grid(grid, resolved), rd);
    case _ => RawSingle(e, rd);
  }

  lemma {:induction false} ResolvedItemsRead(items: seq<ListItem>, resolved: seq<ListItem>, n: nat, bindings: Bindings,
                                             spell: Spelling)
    requires n <= |items| == |resolved|
    requires forall k | 0 <= k < |items| :: resolved[k] == ResolveListItem(items[k], bindings)
    ensures RawItems(resolved[..n], BoundReader(bindings, spell)) == RawItems(items[..n], BoundReader(bindings, spell))
    ensures n == |items| ==>
              RawItems(resolved, BoundReader(bindings, spell)) == RawItems(items, BoundReader(bindings, spell))
    decreases items, n
  {
    hide RawItems, RawItem, ResolveListItem, BoundReader;
    var rd := BoundReader(bindings, spell);
    if n == 0 {
      assert items[..0] == resolved[..0];
    } else {
      ResolvedItemsRead(items, resolved, n - 1, bindings, spell);
      ResolvedItemReads(items[n - 1], bindings, spell);
      RawItemsSnoc(items, n - 1, rd);
      RawItemsSnoc(resolved, n - 1, rd);
    }
    assert items[..|items|] == items && resolved[..|items|] == resolved;
  }

  lemma {:induction false} ResolvedItemReads(item: ListItem, bindings: Bindings, spell: Spelling)
    ensures RawItem(ResolveListItem(item, bindings), BoundReader(bindings, spell))
         == RawItem(item, BoundReader(bindings, spell))
    decreases item
  {
    hide Raw, RawOf, Squeeze, Wrap, ResolveAll, ResolveNext, BoundReader;
    var rd := BoundReader(bindings, spell);
    match item
    case Elements(elements, _) => ResolveReads(elements, bindings, spell);
    case SubList(element) =>
      var nested := ResolveNext([], element, true, bindings);
      NextReads([], element, true, bindings, spell);
      RawFirst([], rd);
      assert [] + RawOf(element, rd) == RawOf(element, rd);
      if |nested| == 1 {
        assert nested == [nested[0]];
        RawSingle(nested[0], rd);
      }
  }

  lemma {:induction false} ResolvedCellsRead(cells: seq<Cell>, resolved: seq<Cell>, n: nat, bindings: Bindings,
                                             spell: Spelling)
    requires n <= |cells| == |resolved|
    requires forall k | 0 <= k < |cells| :: resolved[k] == ResolveCell(cells[k], bindings)
    ensures RawCells(resolved[..n], BoundReader(bindings, spell)) == RawCells(cells[..n], BoundReader(bindings, spell))
    ensures n == |cells| ==>
              RawCells(resolved, BoundReader(bindings, spell)) == RawCells(cells, BoundReader(bindings, spell))
    decreases cells, n
  {
    hide RawCells, Raw, Squeeze, Wrap, ResolveAll, BoundReader;
    var rd := BoundReader(bindings, spell);
    if n == 0 {
      assert cells[..0] == resolved[..0];
    } else {
      ResolvedCellsRead(cells, resolved, n - 1, bindings, spell);
      ResolveReads(cells[n - 1].elements, bindings, spell);
      RawCellsSnoc(cells, n - 1, rd);
      RawCellsSnoc(resolved, n - 1, rd);
    }
    assert cells[..|cells|] == cells && resolved[..|cells|] == resolved;
  }

  /** Binding changes nothing a sequence says, its nodes read as what they stand
      for. */
  lemma BindingReads(es: seq<Element>, pass: Pass, bindings: Bindings, spell: Spelling)
    requires pass.c == Bound(bindings) && QuietRun(es, pass, spell)
    ensures Reading(ResolveAll(SuppressAll(es, pass), bindings), BoundReader(bindings, spell))
         == Reading(es, BoundReader(bindings, spell))
  {
    hide Raw, Squeeze, ResolveAll, SuppressAll, QuietRun;
    SuppressReads(es, pass, BoundReader(bindings, spell));
    ResolveReads(SuppressAll(es, pass), bindings, spell);
  }
}
