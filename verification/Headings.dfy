/** The headings of a tree in visiting order, and what the binding passes make of
    them: each stays where it is, and its contents are bound like any others. */
module Headings {
  import opened Seqs
  import opened Tree
  import opened DelayedSpec
  import opened NodeMeaning
  import opened Seam
  import opened Suppression
  import opened Binding

  /** A visited heading: its shell and the elements it holds. */
  datatype Title = Title(shell: Shell, contents: seq<Element>)

  predicate IsHeading(shell: Shell) {
    shell.ContainerShell? && shell.kind.Header? && shell.kind.hasToc
  }

  predicate IsNote(index: nat, count: nat) {
    1 <= index <= count
  }

  // ----- the visit, as a value

  /** Headings in visiting order, footnotes visited where they are referred to.
      References only go to footnotes of lower rank. */
  ghost function Titles(es: seq<Element>, footnotes: seq<Cell>, rank: seq<nat>, r: nat): seq<Title>
    requires |rank| == |footnotes|
    decreases r, es
  {
    if es == [] then [] else TitlesOf(es[0], footnotes, rank, r) + Titles(es[1..], footnotes, rank, r)
  }

  ghost function TitlesOf(e: Element, footnotes: seq<Cell>, rank: seq<nat>, r: nat): seq<Title>
    requires |rank| == |footnotes|
    decreases r, e
  {
    match e
    case Container(kind, children, attributes) =>
      var shell := ContainerShell(kind, attributes);
      (if IsHeading(shell) then [Title(shell, children)] else []) + Titles(children, footnotes, rank, r)
    case Color(_, _, children) => Titles(children, footnotes, rank, r)
    case Wrapper(_, children) => Titles(children, footnotes, rank, r)
    case List(_, items) => TitlesOfItems(items, footnotes, rank, r)
    case Grid(_, cells) => TitlesOfCells(cells, footnotes, rank, r)
    case Footnote(index) =>
      if IsNote(index, |footnotes|) && rank[index - 1] < r
      then Titles(footnotes[index - 1].elements, footnotes, rank, rank[index - 1])
      else []
    case _ => []
  }

  ghost function TitlesOfItems(items: seq<ListItem>, footnotes: seq<Cell>, rank: seq<nat>, r: nat): seq<Title>
    requires |rank| == |footnotes|
    decreases r, items
  {
    if items == [] then []
    else TitlesOfItem(items[0], footnotes, rank, r) + TitlesOfItems(items[1..], footnotes, rank, r)
  }

  ghost function TitlesOfItem(item: ListItem, footnotes: seq<Cell>, rank: seq<nat>, r: nat): seq<Title>
    requires |rank| == |footnotes|
    decreases r, item
  {
    match item
    case Elements(elements, _) => Titles(elements, footnotes, rank, r)
    case SubList(element) => TitlesOf(element, footnotes, rank, r)
  }

  ghost function TitlesOfCells(cells: seq<Cell>, footnotes: seq<Cell>, rank: seq<nat>, r: nat): seq<Title>
    requires |rank| == |footnotes|
    decreases r, cells
  {
    if cells == [] then []
    else TitlesOfCell(cells[0], footnotes, rank, r) + TitlesOfCells(cells[1..], footnotes, rank, r)
  }

  ghost function TitlesOfCell(cell: Cell, footnotes: seq<Cell>, rank: seq<nat>, r: nat): seq<Title>
    requires |rank| == |footnotes|
    decreases r, cell
  {
    Titles(cell.elements, footnotes, rank, r)
  }

  lemma {:induction false} TitlesAppend(a: seq<Element>, b: seq<Element>, footnotes: seq<Cell>, rank: seq<nat>, r: nat)
    requires |rank| == |footnotes|
    ensures Titles(a + b, footnotes, rank, r) == Titles(a, footnotes, rank, r) + Titles(b, footnotes, rank, r)
    decreases |a|
  {
    hide TitlesOf;
    if a == [] {
      assert a + b == b;
    } else {
      assert (a + b)[1..] == a[1..] + b && (a + b)[0] == a[0];
      TitlesAppend(a[1..], b, footnotes, rank, r);
      Regroup(TitlesOf(a[0], footnotes, rank, r), Titles(a[1..], footnotes, rank, r), Titles(b, footnotes, rank, r));
    }
  }

  lemma TitlesSnoc(es: seq<Element>, e: Element, footnotes: seq<Cell>, rank: seq<nat>, r: nat)
    requires |rank| == |footnotes|
    ensures Titles(es + [e], footnotes, rank, r) == Titles(es, footnotes, rank, r) + TitlesOf(e, footnotes, rank, r)
  {
    hide TitlesOf;
    TitlesAppend(es, [e], footnotes, rank, r);
    assert [e][1..] == [] && Titles([], footnotes, rank, r) == [];
  }

  lemma TitlesSingle(e: Element, footnotes: seq<Cell>, rank: seq<nat>, r: nat)
    requires |rank| == |footnotes|
    ensures Titles([e], footnotes, rank, r) == TitlesOf(e, footnotes, rank, r)
    ensures Titles([], footnotes, rank, r) == []
  {
    hide TitlesOf;
    assert [e][1..] == [];
  }

  lemma {:induction false} ItemTitlesAppend(a: seq<ListItem>, b: seq<ListItem>, footnotes: seq<Cell>, rank: seq<nat>,
                                            r: nat)
    requires |rank| == |footnotes|
    ensures TitlesOfItems(a + b, footnotes, rank, r)
         == TitlesOfItems(a, footnotes, rank, r) + TitlesOfItems(b, footnotes, rank, r)
    decreases |a|
  {
    hide TitlesOfItem;
    if a == [] {
      assert a + b == b;
    } else {
      assert (a + b)[1..] == a[1..] + b && (a + b)[0] == a[0];
      ItemTitlesAppend(a[1..], b, footnotes, rank, r);
      Regroup(TitlesOfItem(a[0], footnotes, rank, r), TitlesOfItems(a[1..], footnotes, rank, r),
              TitlesOfItems(b, footnotes, rank, r));
    }
  }

  lemma {:induction false} CellTitlesAppend(a: seq<Cell>, b: seq<Cell>, footnotes: seq<Cell>, rank: seq<nat>, r: nat)
    requires |rank| == |footnotes|
    ensures TitlesOfCells(a + b, footnotes, rank, r)
         == TitlesOfCells(a, footnotes, rank, r) + TitlesOfCells(b, footnotes, rank, r)
    decreases |a|
  {
    hide TitlesOfCell;
    if a == [] {
      assert a + b == b;
    } else {
      assert (a + b)[1..] == a[1..] + b && (a + b)[0] == a[0];
      CellTitlesAppend(a[1..], b, footnotes, rank, r);
      Regroup(TitlesOfCell(a[0], footnotes, rank, r), TitlesOfCells(a[1..], footnotes, rank, r),
              TitlesOfCells(b, footnotes, rank, r));
    }
  }

  lemma ItemTitlesNext(items: seq<ListItem>, n: nat, footnotes: seq<Cell>, rank: seq<nat>, r: nat)
    requires n < |items| && |rank| == |footnotes|
    ensures TitlesOfItems(items[..n + 1], footnotes, rank, r)
         == TitlesOfItems(items[..n], footnotes, rank, r) + TitlesOfItem(items[n], footnotes, rank, r)
  {
    hide TitlesOfItem;
    assert items[..n + 1] == items[..n] + [items[n]];
    ItemTitlesAppend(items[..n], [items[n]], footnotes, rank, r);
    assert [items[n]][1..] == [] && TitlesOfItems([], footnotes, rank, r) == [];
  }

  lemma CellTitlesNext(cells: seq<Cell>, n: nat, footnotes: seq<Cell>, rank: seq<nat>, r: nat)
    requires n < |cells| && |rank| == |footnotes|
    ensures TitlesOfCells(cells[..n + 1], footnotes, rank, r)
         == TitlesOfCells(cells[..n], footnotes, rank, r) + TitlesOfCell(cells[n], footnotes, rank, r)
  {
    hide TitlesOfCell;
    assert cells[..n + 1] == cells[..n] + [cells[n]];
    CellTitlesAppend(cells[..n], [cells[n]], footnotes, rank, r);
    assert [cells[n]][1..] == [] && TitlesOfCells([], footnotes, rank, r) == [];
  }

  // ----- headings through the suppression pass

  ghost function SuppressedTitle(title: Title, pass: Pass): Title {
    Title(title.shell, SuppressAll(title.contents, pass))
  }

  ghost function SuppressedTitles(titles: seq<Title>, pass: Pass): (r: seq<Title>)
    ensures |r| == |titles|
  {
    seq(|titles|, k requires 0 <= k < |titles| => SuppressedTitle(titles[k], pass))
  }

  lemma SuppressedAppend(a: seq<Title>, b: seq<Title>, pass: Pass)
    ensures SuppressedTitles(a + b, pass) == SuppressedTitles(a, pass) + SuppressedTitles(b, pass)
    ensures SuppressedTitles([], pass) == []
  {
    hide SuppressedTitle;
  }

  lemma {:induction false} TextualHasNoTitles(es: seq<Element>, footnotes: seq<Cell>, rank: seq<nat>, r: nat)
    requires IsTextual(es) && |rank| == |footnotes|
    ensures Titles(es, footnotes, rank, r) == []
    decreases |es|
  {
    if es != [] {
      assert forall k | 0 <= k < |es[1..]| :: es[1..][k] == es[k + 1];
      TextualHasNoTitles(es[1..], footnotes, rank, r);
      if es[0].Container? {
        TextsHaveNoTitles(es[0].children, footnotes, rank, r);
      }
    }
  }

  lemma {:induction false} TextsHaveNoTitles(es: seq<Element>, footnotes: seq<Cell>, rank: seq<nat>, r: nat)
    requires IsTexts(es) && |rank| == |footnotes|
    ensures Titles(es, footnotes, rank, r) == []
    decreases |es|
  {
    if es != [] {
      assert forall k | 0 <= k < |es[1..]| :: es[1..][k] == es[k + 1];
      TextsHaveNoTitles(es[1..], footnotes, rank, r);
    }
  }

  lemma FlushedTitles(output: seq<Element>, group: seq<Element>, pass: Pass, footnotes: seq<Cell>, rank: seq<nat>,
                      r: nat)
    requires |rank| == |footnotes|
    ensures Titles(Flushed(output, group, pass), footnotes, rank, r) == Titles(output, footnotes, rank, r)
  {
    hide Titles, FlushedGroup, LastElementIsUrlOwner;
    var byUrl := LastElementIsUrlOwner(output);
    var emitted := FlushedGroup(Members(group), byUrl, pass.typography, pass.oracle);
    FlushedTextual(Members(group), byUrl, pass.typography, pass.oracle);
    TextualHasNoTitles(emitted, footnotes, rank, r);
    TitlesAppend(output, emitted, footnotes, rank, r);
    assert Titles(output, footnotes, rank, r) + [] == Titles(output, footnotes, rank, r);
  }

  lemma UntitledElements(c: Classifier, e: Element, footnotes: seq<Cell>, rank: seq<nat>, r: nat)
    requires |rank| == |footnotes|
    ensures Joins(c, e) || e.LineBreak? ==> TitlesOf(e, footnotes, rank, r) == []
  {
  }

  lemma BreakHasNoTitle(es: seq<Element>, footnotes: seq<Cell>, rank: seq<nat>, r: nat)
    requires EndsWithBreak(es) && |rank| == |footnotes|
    ensures Titles(es[..|es| - 1], footnotes, rank, r) == Titles(es, footnotes, rank, r)
  {
    hide Titles;
    var init := es[..|es| - 1];
    assert es == init + [LineBreak];
    TitlesSnoc(init, LineBreak, footnotes, rank, r);
    assert Titles(init, footnotes, rank, r) + [] == Titles(init, footnotes, rank, r);
  }

  lemma TitlesFirst(es: seq<Element>, footnotes: seq<Cell>, rank: seq<nat>, r: nat)
    requires |rank| == |footnotes|
    ensures Titles(es, footnotes, rank, r)
         == if es == [] then [] else TitlesOf(es[0], footnotes, rank, r) + Titles(es[1..], footnotes, rank, r)
  {
    hide TitlesOf;
  }

  lemma {:induction false} RegroupTitles(output: seq<Element>, group: seq<Element>, rest: seq<Element>, pass: Pass,
                                         footnotes: seq<Cell>, rank: seq<nat>, r: nat)
    requires |rank| == |footnotes|
    ensures Titles(Regrouped(output, group, rest, pass), footnotes, rank, r)
         == Titles(output, footnotes, rank, r) + Titles(rest, footnotes, rank, r)
    decreases |rest|
  {
    hide Titles, TitlesOf, Flushed, Joins, Members;
    var done := Flushed(output, group, pass);
    var before := Titles(output, footnotes, rank, r);
    FlushedTitles(output, group, pass, footnotes, rank, r);
    TitlesFirst(rest, footnotes, rank, r);
    assert before + [] == before;
    if rest == [] {
      if EndsWithBreak(done) {
        BreakHasNoTitle(done, footnotes, rank, r);
      }
    } else {
      var e, tail := rest[0], rest[1..];
      UntitledElements(pass.c, e, footnotes, rank, r);
      assert [] + Titles(tail, footnotes, rank, r) == Titles(tail, footnotes, rank, r);
      if Joins(pass.c, e) {
        RegroupTitles(output, group + [e], tail, pass, footnotes, rank, r);
      } else if IsSeamOnly(Members(group)) && e.LineBreak? && EndsWithBreak(done) {
        RegroupTitles(done, [], tail, pass, footnotes, rank, r);
      } else {
        RegroupTitles(done + [e], [], tail, pass, footnotes, rank, r);
        TitlesSnoc(done, e, footnotes, rank, r);
        Regroup(before, TitlesOf(e, footnotes, rank, r), Titles(tail, footnotes, rank, r));
      }
    }
  }

  /** The pass leaves every heading where it is and suppresses its contents. */
  lemma {:induction false} SuppressTitles(es: seq<Element>, pass: Pass, footnotes: seq<Cell>, rank: seq<nat>, r: nat)
    requires |rank| == |footnotes|
    ensures Titles(SuppressAll(es, pass), SuppressCells(footnotes, pass), rank, r)
         == SuppressedTitles(Titles(es, footnotes, rank, r), pass)
    decreases r, es, 2
  {
    hide Titles, Regrouped, SuppressEach, SuppressedTitles;
    var each, notes := SuppressEach(es, pass), SuppressCells(footnotes, pass);
    EachTitles(es, |es|, pass, footnotes, rank, r);
    assert es[..|es|] == es && each[..|es|] == each;
    RegroupTitles([], [], each, pass, notes, rank, r);
    TitlesSingle(LineBreak, notes, rank, r);
    assert [] + Titles(each, notes, rank, r) == Titles(each, notes, rank, r);
  }

  lemma {:induction false} EachTitles(es: seq<Element>, n: nat, pass: Pass, footnotes: seq<Cell>, rank: seq<nat>,
                                      r: nat)
    requires n <= |es| && |rank| == |footnotes|
    ensures Titles(SuppressEach(es, pass)[..n], SuppressCells(footnotes, pass), rank, r)
         == SuppressedTitles(Titles(es[..n], footnotes, rank, r), pass)
    decreases r, es, 1, n
  {
    hide Titles, TitlesOf, SuppressElement, SuppressedTitles, SuppressCells;
    var each, notes := SuppressEach(es, pass), SuppressCells(footnotes, pass);
    if n == 0 {
      assert es[..0] == [] && each[..0] == [];
      TitlesSingle(LineBreak, notes, rank, r);
      TitlesSingle(LineBreak, footnotes, rank, r);
      SuppressedAppend([], [], pass);
    } else {
      EachTitles(es, n - 1, pass, footnotes, rank, r);
      ElementTitles(es[n - 1], pass, footnotes, rank, r);
      assert es[..n] == es[..n - 1] + [es[n - 1]] && each[..n] == each[..n - 1] + [each[n - 1]];
      TitlesSnoc(es[..n - 1], es[n - 1], footnotes, rank, r);
      TitlesSnoc(each[..n - 1], each[n - 1], notes, rank, r);
      SuppressedAppend(Titles(es[..n - 1], footnotes, rank, r), TitlesOf(es[n - 1], footnotes, rank, r), pass);
    }
  }

  /** An owner left empty held no heading. */
  lemma {:induction false} ElementTitles(e: Element, pass: Pass, footnotes: seq<Cell>, rank: seq<nat>, r: nat)
    requires |rank| == |footnotes|
    ensures TitlesOf(SuppressElement(e, pass), SuppressCells(footnotes, pass), rank, r)
         == SuppressedTitles(TitlesOf(e, footnotes, rank, r), pass)
    decreases r, e, 0
  {
    hide Titles, TitlesOfItems, TitlesOfCells, SuppressAll, SuppressItems, SuppressCells, SuppressedTitles;
    var notes := SuppressCells(footnotes, pass);
    SuppressedAppend([], [], pass);
    match e
    case Container(kind, children, attributes) =>
      SuppressTitles(children, pass, footnotes, rank, r);
      ContainerTitles(kind, children, attributes, pass, footnotes, rank, r);
    case Color(_, _, children) => SuppressTitles(children, pass, footnotes, rank, r);
    case Wrapper(_, children) => SuppressTitles(children, pass, footnotes, rank, r);
    case List(_, items) => ItemsTitles(items, |items|, pass, footnotes, rank, r);
    case Grid(_, cells) => CellsTitles(cells, |cells|, pass, footnotes, rank, r);
    case Footnote(index) =>
      if IsNote(index, |footnotes|) && rank[index - 1] < r {
        SuppressedCell(footnotes, index - 1, pass);
        SuppressTitles(footnotes[index - 1].elements, pass, footnotes, rank, rank[index - 1]);
      }
    case _ =>
  }

  lemma SuppressedCell(cells: seq<Cell>, k: nat, pass: Pass)
    requires k < |cells|
    ensures SuppressCells(cells, pass)[k] == Cell(SuppressAll(cells[k].elements, pass))
  {
    hide SuppressAll;
    assert SuppressCells(cells, pass)[k] == SuppressCell(cells[k], pass);
  }

  lemma ContainerTitles(kind: Kind, children: seq<Element>, attributes: Attributes, pass: Pass, footnotes: seq<Cell>,
                        rank: seq<nat>, r: nat)
    requires |rank| == |footnotes|
    requires Titles(SuppressAll(children, pass), SuppressCells(footnotes, pass), rank, r)
          == SuppressedTitles(Titles(children, footnotes, rank, r), pass)
    ensures
      var e := Container(kind, children, attributes);
      TitlesOf(SuppressElement(e, pass), SuppressCells(footnotes, pass), rank, r)
      == SuppressedTitles(TitlesOf(e, footnotes, rank, r), pass)
  {
    hide Titles, SuppressAll, SuppressCells, SuppressedTitles;
    var shell, inner := ContainerShell(kind, attributes), SuppressAll(children, pass);
    var own := if IsHeading(shell) then [Title(shell, children)] else [];
    SuppressedAppend(own, Titles(children, footnotes, rank, r), pass);
    OneSuppressed(shell, children, pass);
    if IsOwner(kind) && inner == [] {
      TitlesSingle(LineBreak, SuppressCells(footnotes, pass), rank, r);
      SuppressedAppend([], [], pass);
      assert [] + Titles(children, footnotes, rank, r) == Titles(children, footnotes, rank, r);
      NoneSuppressed(Titles(children, footnotes, rank, r), pass);
    }
  }

  lemma OneSuppressed(shell: Shell, children: seq<Element>, pass: Pass)
    ensures SuppressedTitles([Title(shell, children)], pass) == [Title(shell, SuppressAll(children, pass))]
  {
    hide SuppressAll;
  }

  lemma NoneSuppressed(titles: seq<Title>, pass: Pass)
    ensures SuppressedTitles(titles, pass) == [] ==> titles == []
  {
  }

  lemma {:induction false} ItemsTitles(items: seq<ListItem>, n: nat, pass: Pass, footnotes: seq<Cell>, rank: seq<nat>,
                                       r: nat)
    requires n <= |items| && |rank| == |footnotes|
    ensures TitlesOfItems(SuppressItems(items, pass)[..n], SuppressCells(footnotes, pass), rank, r)
         == SuppressedTitles(TitlesOfItems(items[..n], footnotes, rank, r), pass)
    ensures n == |items| ==>
              TitlesOfItems(SuppressItems(items, pass), SuppressCells(footnotes, pass), rank, r)
              == SuppressedTitles(TitlesOfItems(items, footnotes, rank, r), pass)
    decreases r, items, 1, n
  {
    hide TitlesOfItem, SuppressItem, SuppressedTitles, SuppressCells;
    var each, notes := SuppressItems(items, pass), SuppressCells(footnotes, pass);
    if n == 0 {
      SuppressedAppend([], [], pass);
    } else {
      ItemsTitles(items, n - 1, pass, footnotes, rank, r);
      ItemTitles(items[n - 1], pass, footnotes, rank, r);
      ItemTitlesNext(items, n - 1, footnotes, rank, r);
      ItemTitlesNext(each, n - 1, notes, rank, r);
      SuppressedAppend(TitlesOfItems(items[..n - 1], footnotes, rank, r),
                       TitlesOfItem(items[n - 1], footnotes, rank, r), pass);
    }
    assert items[..|items|] == items && each[..|items|] == each;
  }

  lemma {:induction false} ItemTitles(item: ListItem, pass: Pass, footnotes: seq<Cell>, rank: seq<nat>, r: nat)
    requires |rank| == |footnotes|
    ensures TitlesOfItem(SuppressItem(item, pass), SuppressCells(footnotes, pass), rank, r)
         == SuppressedTitles(TitlesOfItem(item, footnotes, rank, r), pass)
    decreases r, item
  {
    hide Titles, TitlesOf, SuppressAll, SuppressElement, SuppressCells, SuppressedTitles;
    match item
    case Elements(elements, _) => SuppressTitles(elements, pass, footnotes, rank, r);
    case SubList(element) => ElementTitles(element, pass, footnotes, rank, r);
  }

  lemma {:induction false} CellsTitles(cells: seq<Cell>, n: nat, pass: Pass, footnotes: seq<Cell>, rank: seq<nat>,
                                       r: nat)
    requires n <= |cells| && |rank| == |footnotes|
    ensures TitlesOfCells(SuppressCells(cells, pass)[..n], SuppressCells(footnotes, pass), rank, r)
         == SuppressedTitles(TitlesOfCells(cells[..n], footnotes, rank, r), pass)
    ensures n == |cells| ==>
              TitlesOfCells(SuppressCells(cells, pass), SuppressCells(footnotes, pass), rank, r)
              == SuppressedTitles(TitlesOfCells(cells, footnotes, rank, r), pass)
    decreases r, cells, n
  {
    hide Titles, SuppressAll, SuppressedTitles, SuppressCells;
    var each, notes := SuppressCells(cells, pass), SuppressCells(footnotes, pass);
    if n == 0 {
      assert cells[..0] == [] && each[..0] == [];
      SuppressedAppend([], [], pass);
    } else {
      CellsTitles(cells, n - 1, pass, footnotes, rank, r);
      SuppressTitles(cells[n - 1].elements, pass, footnotes, rank, r);
      SuppressedCell(cells, n - 1, pass);
      CellTitlesNext(cells, n - 1, footnotes, rank, r);
      CellTitlesNext(each, n - 1, notes, rank, r);
      SuppressedAppend(TitlesOfCells(cells[..n - 1], footnotes, rank, r),
                       TitlesOfCell(cells[n - 1], footnotes, rank, r), pass);
    }
    assert cells[..|cells|] == cells && each[..|cells|] == each;
  }

  // ----- headings through the resolve pass

  ghost function ResolvedTitle(title: Title, bindings: Bindings): Title {
    Title(title.shell, ResolveAll(title.contents, bindings))
  }

  ghost function ResolvedTitles(titles: seq<Title>, bindings: Bindings): (r: seq<Title>)
    ensures |r| == |titles|
  {
    seq(|titles|, k requires 0 <= k < |titles| => ResolvedTitle(titles[k], bindings))
  }

  lemma ResolvedAppend(a: seq<Title>, b: seq<Title>, bindings: Bindings)
    ensures ResolvedTitles(a + b, bindings) == ResolvedTitles(a, bindings) + ResolvedTitles(b, bindings)
    ensures ResolvedTitles([], bindings) == []
  {
    hide ResolvedTitle;
  }

  lemma {:induction false} FlatHasNoTitles(es: seq<Element>, footnotes: seq<Cell>, rank: seq<nat>, r: nat)
    requires IsFlat(es) && |rank| == |footnotes|
    ensures Titles(es, footnotes, rank, r) == []
    decreases |es|
  {
    if es != [] {
      assert forall k | 0 <= k < |es[1..]| :: es[1..][k] == es[k + 1];
      FlatHasNoTitles(es[1..], footnotes, rank, r);
    }
  }

  lemma TrimmedTitles(es: seq<Element>, footnotes: seq<Cell>, rank: seq<nat>, r: nat)
    requires |rank| == |footnotes|
    ensures Titles(TrimmedTail(es), footnotes, rank, r) == Titles(es, footnotes, rank, r)
  {
    hide Titles, TrimEnd;
    if es != [] && es[|es| - 1].Text? {
      var init, text := es[..|es| - 1], es[|es| - 1].text;
      assert es == init + [Text(text)];
      TitlesSnoc(init, Text(text), footnotes, rank, r);
      TitlesSnoc(init, Text(TrimEnd(text)), footnotes, rank, r);
      assert init + [] == init;
    }
  }

  lemma ReplacementHasNoTitles(node: DelayedNode, bindings: Bindings, footnotes: seq<Cell>, rank: seq<nat>, r: nat)
    requires |rank| == |footnotes|
    ensures Titles(Meaning(node, bindings), footnotes, rank, r) == []
  {
    hide Titles, ResolveDelayed, Meaning;
    MeaningIsResolved(node, bindings);
    FlatHasNoTitles(Meaning(node, bindings), footnotes, rank, r);
  }

  ghost predicate NotesReturn(footnotes: seq<Cell>, bindings: Bindings) {
    forall k | 0 <= k < |footnotes| :: CellReturns(footnotes[k], bindings)
  }

  /** The pass leaves every heading where it is and resolves its contents. */
  lemma {:induction false} ResolveTitles(es: seq<Element>, bindings: Bindings, footnotes: seq<Cell>, rank: seq<nat>,
                                         r: nat)
    requires |rank| == |footnotes| && NotesReturn(footnotes, bindings) && SublistsReturn(es, bindings)
    ensures Titles(ResolveAll(es, bindings), ResolvedCells(footnotes, bindings), rank, r)
         == ResolvedTitles(Titles(es, footnotes, rank, r), bindings)
    decreases r, es, |es| + 1
  {
    hide Titles, ResolvePrefix, ResolvedTitles, NotesReturn, SublistsReturn, ResolvedCells;
    assert es[..|es|] == es;
    PrefixTitles(es, |es|, bindings, footnotes, rank, r);
  }

  lemma {:induction false} PrefixTitles(es: seq<Element>, n: nat, bindings: Bindings, footnotes: seq<Cell>,
                                        rank: seq<nat>, r: nat)
    requires n <= |es| && |rank| == |footnotes| && NotesReturn(footnotes, bindings) && SublistsReturn(es, bindings)
    ensures Titles(ResolvePrefix(es, n, bindings), ResolvedCells(footnotes, bindings), rank, r)
         == ResolvedTitles(Titles(es[..n], footnotes, rank, r), bindings)
    decreases r, es, n
  {
    hide Titles, TitlesOf, ResolveNext, ResolvedTitles, NotesReturn, ResolvedCells, SublistsReturnIn;
    var notes := ResolvedCells(footnotes, bindings);
    if n == 0 {
      assert es[..0] == [];
      TitlesSingle(LineBreak, notes, rank, r);
      TitlesSingle(LineBreak, footnotes, rank, r);
      ResolvedAppend([], [], bindings);
    } else {
      var e, standing := es[n - 1], ResolvePrefix(es, n - 1, bindings);
      PrefixTitles(es, n - 1, bindings, footnotes, rank, r);
      assert SublistsReturnIn(e, bindings);
      NextTitles(standing, e, n == |es|, bindings, footnotes, rank, r);
      assert es[..n] == es[..n - 1] + [e];
      TitlesSnoc(es[..n - 1], e, footnotes, rank, r);
      ResolvedAppend(Titles(es[..n - 1], footnotes, rank, r), TitlesOf(e, footnotes, rank, r), bindings);
    }
  }

  lemma {:induction false} NextTitles(standing: seq<Element>, e: Element, isLast: bool, bindings: Bindings,
                                      footnotes: seq<Cell>, rank: seq<nat>, r: nat)
    requires |rank| == |footnotes| && NotesReturn(footnotes, bindings) && SublistsReturnIn(e, bindings)
    ensures Titles(ResolveNext(standing, e, isLast, bindings), ResolvedCells(footnotes, bindings), rank, r)
         == Titles(standing, ResolvedCells(footnotes, bindings), rank, r)
            + ResolvedTitles(TitlesOf(e, footnotes, rank, r), bindings)
    decreases r, e, 1
  {
    hide Titles, ResolvedTitles, TrimmedTail, Meaning, ResolveElement, NotesReturn, SublistsReturnIn,
         ResolvedCells;
    var notes := ResolvedCells(footnotes, bindings);
    if e.Delayed? {
      var replacement := Meaning(e.node, bindings);
      ReplacementHasNoTitles(e.node, bindings, notes, rank, r);
      TrimmedTitles(standing, notes, rank, r);
      TitlesAppend(standing, replacement, notes, rank, r);
      TitlesAppend(TrimmedTail(standing), replacement, notes, rank, r);
      ResolvedAppend([], [], bindings);
    } else {
      ResolvedElementTitles(e, bindings, footnotes, rank, r);
      TitlesAppend(standing, ResolveElement(e, bindings), notes, rank, r);
    }
  }

  lemma {:induction false} ResolvedElementTitles(e: Element, bindings: Bindings, footnotes: seq<Cell>, rank: seq<nat>,
                                                 r: nat)
    requires !e.Delayed? && |rank| == |footnotes| && NotesReturn(footnotes, bindings) && SublistsReturnIn(e, bindings)
    ensures Titles(ResolveElement(e, bindings), ResolvedCells(footnotes, bindings), rank, r)
         == ResolvedTitles(TitlesOf(e, footnotes, rank, r), bindings)
    decreases r, e, 0
  {
    hide Titles, TitlesOfItems, TitlesOfCells, ResolveAll, ResolvedTitles, NotesReturn, SublistsReturnIn, ResolvedCells,
         ElementsContainDelayed, SublistsReturn, ResolveListItem, ResolveCell, ItemReturns, CellReturns;
    var notes := ResolvedCells(footnotes, bindings);
    ReturnsIn(e, bindings);
    ResolvedAppend([], [], bindings);
    match e
    case Container(kind, children, attributes) =>
      ResolveTitles(children, bindings, footnotes, rank, r);
      ResolvedContainerTitles(kind, children, attributes, bindings, footnotes, rank, r);
    case Color(color, background, children) =>
      ResolveTitles(children, bindings, footnotes, rank, r);
      TitlesSingle(Color(color, background, ResolveAll(children, bindings)), notes, rank, r);
    case Wrapper(tag, children) =>
      ResolveTitles(children, bindings, footnotes, rank, r);
      TitlesSingle(Wrapper(tag, ResolveAll(children, bindings)), notes, rank, r);
    case List(shape, items) =>
      var resolved := seq(|items|, k requires 0 <= k < |items| => ResolveListItem(items[k], bindings));
      ResolvedItemsTitles(items, resolved, |items|, bindings, footnotes, rank, r);
      TitlesSingle(List(shape, resolved), notes, rank, r);
    case Grid(grid, cells) =>
      var resolved := seq(|cells|, k requires 0 <= k < |cells| => ResolveCell(cells[k], bindings));
      ResolvedCellsTitles(cells, resolved, |cells|, bindings, footnotes, rank, r);
      TitlesSingle(Grid(grid, resolved), notes, rank, r);
    case Footnote(index) =>
      TitlesSingle(e, notes, rank, r);
      if IsNote(index, |footnotes|) && rank[index - 1] < r {
        NoteReturns(footnotes, index - 1, bindings);
        ResolveTitles(footnotes[index - 1].elements, bindings, footnotes, rank, rank[index - 1]);
      }
    case _ => TitlesSingle(e, notes, rank, r);
  }

  lemma NoteReturns(footnotes: seq<Cell>, k: nat, bindings: Bindings)
    requires NotesReturn(footnotes, bindings) && k < |footnotes|
    ensures SublistsReturn(footnotes[k].elements, bindings)
    ensures ResolvedCells(footnotes, bindings)[k] == Cell(ResolveAll(footnotes[k].elements, bindings))
  {
    hide SublistsReturn, ResolveAll;
    assert CellReturns(footnotes[k], bindings);
    assert ResolvedCells(footnotes, bindings)[k] == ResolveCell(footnotes[k], bindings);
  }

  lemma ResolvedContainerTitles(kind: Kind, children: seq<Element>, attributes: Attributes, bindings: Bindings,
                                footnotes: seq<Cell>, rank: seq<nat>, r: nat)
    requires |rank| == |footnotes|
    requires Titles(ResolveAll(children, bindings), ResolvedCells(footnotes, bindings), rank, r)
          == ResolvedTitles(Titles(children, footnotes, rank, r), bindings)
    ensures
      var e := Container(kind, children, attributes);
      Titles(ResolveElement(e, bindings), ResolvedCells(footnotes, bindings), rank, r)
      == ResolvedTitles(TitlesOf(e, footnotes, rank, r), bindings)
  {
    hide Titles, ResolveAll, ResolvedCells, ResolvedTitles, ElementsContainDelayed;
    var shell, inner, notes := ContainerShell(kind, attributes), ResolveAll(children, bindings),
        ResolvedCells(footnotes, bindings);
    var own := if IsHeading(shell) then [Title(shell, children)] else [];
    ResolvedAppend(own, Titles(children, footnotes, rank, r), bindings);
    ResolvedAppend([], [], bindings);
    OneResolved(shell, children, bindings);
    TitlesSingle(Container(kind, inner, attributes), notes, rank, r);
    if kind == Paragraph && inner == [] {
      assert [] + Titles(children, footnotes, rank, r) == Titles(children, footnotes, rank, r);
    }
  }

  lemma OneResolved(shell: Shell, children: seq<Element>, bindings: Bindings)
    ensures ResolvedTitles([Title(shell, children)], bindings) == [Title(shell, ResolveAll(children, bindings))]
  {
    hide ResolveAll;
  }

  lemma {:induction false} ResolvedItemsTitles(items: seq<ListItem>, resolved: seq<ListItem>, n: nat,
                                               bindings: Bindings, footnotes: seq<Cell>, rank: seq<nat>, r: nat)
    requires n <= |items| == |resolved| && |rank| == |footnotes| && NotesReturn(footnotes, bindings)
    requires forall k | 0 <= k < |items| :: resolved[k] == ResolveListItem(items[k], bindings)
    requires forall k | 0 <= k < |items| :: ItemReturns(items[k], bindings)
    ensures TitlesOfItems(resolved[..n], ResolvedCells(footnotes, bindings), rank, r)
         == ResolvedTitles(TitlesOfItems(items[..n], footnotes, rank, r), bindings)
    ensures n == |items| ==>
              TitlesOfItems(resolved, ResolvedCells(footnotes, bindings), rank, r)
              == ResolvedTitles(TitlesOfItems(items, footnotes, rank, r), bindings)
    decreases r, items, 1, n
  {
    hide TitlesOfItem, ResolveListItem, ItemReturns, ResolvedTitles, NotesReturn, ResolvedCells;
    var notes := ResolvedCells(footnotes, bindings);
    if n == 0 {
      assert items[..0] == [] && resolved[..0] == [];
      ResolvedAppend([], [], bindings);
    } else {
      ResolvedItemsTitles(items, resolved, n - 1, bindings, footnotes, rank, r);
      ResolvedItemTitles(items[n - 1], bindings, footnotes, rank, r);
      ItemTitlesNext(items, n - 1, footnotes, rank, r);
      ItemTitlesNext(resolved, n - 1, notes, rank, r);
      ResolvedAppend(TitlesOfItems(items[..n - 1], footnotes, rank, r), TitlesOfItem(items[n - 1], footnotes, rank, r),
                     bindings);
    }
    assert items[..|items|] == items && resolved[..|items|] == resolved;
  }

  lemma {:induction false} ResolvedItemTitles(item: ListItem, bindings: Bindings, footnotes: seq<Cell>,
                                              rank: seq<nat>, r: nat)
    requires |rank| == |footnotes| && NotesReturn(footnotes, bindings) && ItemReturns(item, bindings)
    ensures TitlesOfItem(ResolveListItem(item, bindings), ResolvedCells(footnotes, bindings), rank, r)
         == ResolvedTitles(TitlesOfItem(item, footnotes, rank, r), bindings)
    decreases r, item
  {
    hide Titles, TitlesOf, ResolveAll, ResolveNext, ResolvedTitles, NotesReturn, ResolvedCells, SublistsReturn,
         SublistsReturnIn, ElementContainsDelayed;
    var notes := ResolvedCells(footnotes, bindings);
    match item
    case Elements(elements, _) => ResolveTitles(elements, bindings, footnotes, rank, r);
    case SubList(element) =>
      var nested := ResolveNext([], element, true, bindings);
      NextTitles([], element, true, bindings, footnotes, rank, r);
      SublistIsOne(element, bindings);
      assert nested == [nested[0]];
      TitlesSingle(nested[0], notes, rank, r);
      TitlesSingle(element, notes, rank, r);
      assert [] + ResolvedTitles(TitlesOf(element, footnotes, rank, r), bindings)
          == ResolvedTitles(TitlesOf(element, footnotes, rank, r), bindings);
  }

  lemma SublistIsOne(e: Element, bindings: Bindings)
    requires ItemReturns(SubList(e), bindings)
    ensures |ResolveNext([], e, true, bindings)| == 1
  {
    hide ResolveAll;
    if !ElementContainsDelayed(e) {
      assert |ResolveElement(e, bindings)| == 1;
    }
  }

  lemma {:induction false} ResolvedCellsTitles(cells: seq<Cell>, resolved: seq<Cell>, n: nat, bindings: Bindings,
                                               footnotes: seq<Cell>, rank: seq<nat>, r: nat)
    requires n <= |cells| == |resolved| && |rank| == |footnotes| && NotesReturn(footnotes, bindings)
    requires forall k | 0 <= k < |cells| :: resolved[k] == ResolveCell(cells[k], bindings)
    requires forall k | 0 <= k < |cells| :: CellReturns(cells[k], bindings)
    ensures TitlesOfCells(resolved[..n], ResolvedCells(footnotes, bindings), rank, r)
         == ResolvedTitles(TitlesOfCells(cells[..n], footnotes, rank, r), bindings)
    ensures n == |cells| ==>
              TitlesOfCells(resolved, ResolvedCells(footnotes, bindings), rank, r)
              == ResolvedTitles(TitlesOfCells(cells, footnotes, rank, r), bindings)
    decreases r, cells, n
  {
    hide Titles, ResolveAll, SublistsReturn, ResolvedTitles, NotesReturn, ResolvedCells;
    var notes := ResolvedCells(footnotes, bindings);
    if n == 0 {
      assert cells[..0] == [] && resolved[..0] == [];
      ResolvedAppend([], [], bindings);
    } else {
      ResolvedCellsTitles(cells, resolved, n - 1, bindings, footnotes, rank, r);
      assert CellReturns(cells[n - 1], bindings);
      ResolveTitles(cells[n - 1].elements, bindings, footnotes, rank, r);
      CellTitlesNext(cells, n - 1, footnotes, rank, r);
      CellTitlesNext(resolved, n - 1, notes, rank, r);
      ResolvedAppend(TitlesOfCells(cells[..n - 1], footnotes, rank, r), TitlesOfCell(cells[n - 1], footnotes, rank, r),
                     bindings);
    }
    assert cells[..|cells|] == cells && resolved[..|cells|] == resolved;
  }
}
