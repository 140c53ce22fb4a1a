/** The resolve pass element by element: what each leaves in its place, and the
    one place where a neighbour is touched. */
module ResolveLaws {
  import opened Seqs
  import opened Tree
  import opened DelayedSpec
  import opened NodeMeaning
  import opened Binding

  /** What an element leaves in its place. */
  ghost function InPlace(e: Element, bindings: Bindings): seq<Element> {
    if e.Delayed? then Meaning(e.node, bindings) else ResolveElement(e, bindings)
  }

  ghost function AllInPlace(es: seq<Element>, bindings: Bindings): (r: seq<seq<Element>>)
    ensures |r| == |es|
  {
    seq(|es|, k requires 0 <= k < |es| => InPlace(es[k], bindings))
  }

  /** A slot for tag links that is bound to no tag. */
  predicate IsBoundToNoTag(e: Element, bindings: Bindings) {
    && e.Delayed? && e.node.Active? && e.node.slot.kind == TagLinks
    && HoldsTagLinks(e.node.slot.id, bindings) && bindings[e.node.slot.id].tags == []
  }

  lemma {:induction false} PrefixInPlace(es: seq<Element>, n: nat, bindings: Bindings)
    requires n < |es|
    ensures ResolvePrefix(es, n, bindings) == Flatten(AllInPlace(es, bindings)[..n])
  {
    hide ResolveElement, Meaning, TrimmedTail, ActiveTagLinksAreEmpty;
    var all := AllInPlace(es, bindings);
    if n == 0 {
      assert all[..0] == [];
    } else {
      PrefixInPlace(es, n - 1, bindings);
      FlattenSnoc(all[..n - 1], all[n - 1]);
      assert all[..n] == all[..n - 1] + [all[n - 1]];
    }
  }

  /** Every element leaves what it stands for, in order. Tag links bound to no tag
      take the blanks before them along where they end a sequence, and there
      only. */
  lemma ResolveInOrder(es: seq<Element>, bindings: Bindings)
    ensures
      var parts := AllInPlace(es, bindings);
      ResolveAll(es, bindings)
      == if es != [] && IsBoundToNoTag(es[|es| - 1], bindings) then TrimmedTail(Flatten(parts[..|es| - 1]))
         else Flatten(parts)
  {
    hide ResolveElement, Meaning, TrimmedTail;
    var parts := AllInPlace(es, bindings);
    if es != [] {
      var n := |es| - 1;
      PrefixInPlace(es, n, bindings);
      FlattenSnoc(parts[..n], parts[n]);
      assert parts == parts[..n] + [parts[n]];
      LastInPlace(es, bindings);
    }
  }

  lemma LastInPlace(es: seq<Element>, bindings: Bindings)
    requires es != []
    ensures
      var e, standing := es[|es| - 1], ResolvePrefix(es, |es| - 1, bindings);
      ResolveAll(es, bindings)
      == if IsBoundToNoTag(e, bindings) then TrimmedTail(standing) else standing + InPlace(e, bindings)
  {
    hide ResolveElement, Meaning, TrimmedTail;
    var e, standing := es[|es| - 1], ResolvePrefix(es, |es| - 1, bindings);
    assert ResolveAll(es, bindings) == ResolveNext(standing, e, true, bindings);
    if IsBoundToNoTag(e, bindings) {
      NoTagNoMeaning(e, bindings);
      assert TrimmedTail(standing) + [] == TrimmedTail(standing);
    }
  }

  lemma NoTagNoMeaning(e: Element, bindings: Bindings)
    requires IsBoundToNoTag(e, bindings)
    ensures Meaning(e.node, bindings) == [] && ActiveTagLinksAreEmpty(e.node, bindings)
  {
  }

  /** The blanks at the end of a last text go, and with them a text of blanks; no
      other element changes. */
  lemma TrimmingIsLast(es: seq<Element>, text: string)
    ensures es == [] || !es[|es| - 1].Text? ==> TrimmedTail(es) == es
    ensures
      var trimmed := TrimmedTail(es + [Text(text)]);
      || (trimmed == es + [Text(text)] && text == "")
      || (trimmed == es && forall k | 0 <= k < |text| :: text[k] == ' ' || text[k] == '\t')
      || exists n :: 0 < n <= |text| && trimmed == es + [Text(text[..n])] && text[n - 1] != ' ' && text[n - 1] != '\t'
                  && forall k | n <= k < |text| :: text[k] == ' ' || text[k] == '\t'
  {
    var whole, kept := es + [Text(text)], TrimEnd(text);
    assert whole[..|whole| - 1] == es && text[..|kept|] == kept && es + [] == es;
    if text != "" && kept != "" {
      var n := |kept|;
      TrimmedWhole(es, text);
      assert 0 < n <= |text| && text[n - 1] == kept[n - 1] && TrimmedTail(whole) == es + [Text(text[..n])];
    }
  }

  lemma TrimmedWhole(es: seq<Element>, text: string)
    ensures TrimEnd(text) != "" ==> TrimmedTail(es + [Text(text)]) == es + [Text(TrimEnd(text))]
  {
    assert (es + [Text(text)])[..|es|] == es;
  }

  /** A container keeps its shell; a paragraph goes once the nodes in it have left
      nothing. */
  lemma EmptiedParagraphs(kind: Kind, children: seq<Element>, attributes: Attributes, bindings: Bindings)
    ensures
      var inner := ResolveAll(children, bindings);
      ResolveElement(Container(kind, children, attributes), bindings)
      == if kind == Paragraph && inner == [] && HasNode(Bones(children)) then []
        else [Container(kind, inner, attributes)]
  {
    hide ResolveAll, Bones, HasNode, ElementsContainDelayed;
    ContainsIsHasNode(children);
  }
}
