/** What a bound node stands for, place by place, and that resolving gives just
    that. */
module NodeMeaning {
  import opened Bytes
  import opened Seqs
  import opened Tree
  import opened DelayedSpec

  // ----- texts without brackets, and with their spaces escaped

  predicate IsBracket(c: char) {
    c == '[' || c == ']'
  }

  lemma {:induction false} StripAppend(a: string, b: string)
    ensures StripBrackets(a + b) == StripBrackets(a) + StripBrackets(b)
  {
    if a == "" {
      assert a + b == b;
    } else {
      assert (a + b)[1..] == a[1..] + b && (a + b)[0] == a[0];
      StripAppend(a[1..], b);
      Regroup(if a[0] == '[' || a[0] == ']' then "" else [a[0]], StripBrackets(a[1..]), StripBrackets(b));
    }
  }

  lemma {:induction false} EscapeAppend(a: string, b: string)
    ensures EscapeSpaces(a + b) == EscapeSpaces(a) + EscapeSpaces(b)
  {
    if a == "" {
      assert a + b == b;
    } else {
      assert (a + b)[1..] == a[1..] + b && (a + b)[0] == a[0];
      EscapeAppend(a[1..], b);
      Regroup(if a[0] == ' ' then "%20" else [a[0]], EscapeSpaces(a[1..]), EscapeSpaces(b));
    }
  }

  /** Brackets go and spaces are escaped, whatever stands around them; anything
      else stays. */
  lemma EditsArePointwise(a: string, c: char, b: string)
    ensures StripBrackets(a + [c] + b) == StripBrackets(a) + (if IsBracket(c) then "" else [c]) + StripBrackets(b)
    ensures EscapeSpaces(a + [c] + b) == EscapeSpaces(a) + (if c == ' ' then "%20" else [c]) + EscapeSpaces(b)
    ensures StripBrackets("") == EscapeSpaces("") == ""
  {
    OneEdit(c);
    hide StripBrackets, EscapeSpaces;
    StripAppend(a + [c], b);
    StripAppend(a, [c]);
    EscapeAppend(a + [c], b);
    EscapeAppend(a, [c]);
  }

  lemma OneEdit(c: char)
    ensures StripBrackets([c]) == (if IsBracket(c) then "" else [c])
    ensures EscapeSpaces([c]) == (if c == ' ' then "%20" else [c])
    ensures StripBrackets("") == EscapeSpaces("") == ""
  {
    assert [c][1..] == "";
  }

  // ----- what a slot stands for

  predicate HoldsPageLink(id: nat, bindings: Bindings) {
    id in bindings && bindings[id].PageLinkValue?
  }

  predicate HoldsTagLinks(id: nat, bindings: Bindings) {
    id in bindings && bindings[id].TagLinksValue?
  }

  /** One link for a page; for tags, a link each with the separator between. */
  ghost predicate SlotStandsFor(slot: Slot, bindings: Bindings, es: seq<Element>) {
    if slot.kind == PageLink then
      && HoldsPageLink(slot.id, bindings)
      && es == [Leaf(PageAnchor(bindings[slot.id].page, bindings[slot.id].caption))]
    else
      && HoldsTagLinks(slot.id, bindings)
      && var tags := bindings[slot.id].tags;
      && |es| == (if tags == [] then 0 else 2 * |tags| - 1)
      && forall k | 0 <= k < |es| ::
        es[k] == if k % 2 == 0 then Leaf(PageAnchor("system:page-tags/tag/" + tags[k / 2], tags[k / 2]))
                 else Text(bindings[slot.id].separator)
  }

  function TagText(tag: string): string {
    "[/system:page-tags/tag/" + StripBrackets(tag) + " " + StripBrackets(tag) + "]"
  }

  /** The sources of the tags with the separator between. */
  ghost predicate AreTagParts(tags: seq<string>, separator: string, parts: seq<string>) {
    && |parts| == (if tags == [] then 0 else 2 * |tags| - 1)
    && forall k | 0 <= k < |parts| :: parts[k] == if k % 2 == 0 then TagText(tags[k / 2]) else separator
  }

  ghost predicate TagsRead(tags: seq<string>, separator: string, text: string) {
    exists parts :: AreTagParts(tags, separator, parts) && text == Flatten(parts)
  }

  /** The source text a slot stands for where nothing is parsed. */
  ghost predicate SlotReads(slot: Slot, bindings: Bindings, text: string) {
    if slot.kind == PageLink then
      && HoldsPageLink(slot.id, bindings)
      && text == "[[[" + bindings[slot.id].page + " | " + StripBrackets(bindings[slot.id].caption) + "]]]"
    else
      HoldsTagLinks(slot.id, bindings) && TagsRead(bindings[slot.id].tags, bindings[slot.id].separator, text)
  }

  // ----- what a node stands for

  ghost predicate AtomReads(atom: RecoveryAtom, bindings: Bindings, text: string) {
    match atom
    case Source(source) => text == source
    case LegacySource(slot) => SlotReads(slot, bindings, text)
    case _ => false
  }

  ghost predicate AtomStandsFor(atom: RecoveryAtom, bindings: Bindings, es: seq<Element>) {
    match atom
    case Source(source) => es == [Text(source)]
    case ActiveSource(slot) => SlotStandsFor(slot, bindings, es)
    case AtomLineBreak => es == [LineBreak]
    case LegacySource(_) => false
  }

  ghost predicate AtomsRead(atoms: seq<RecoveryAtom>, bindings: Bindings, parts: seq<string>) {
    |parts| == |atoms| && forall k | 0 <= k < |atoms| :: AtomReads(atoms[k], bindings, parts[k])
  }

  ghost predicate AtomsStandFor(atoms: seq<RecoveryAtom>, bindings: Bindings, parts: seq<seq<Element>>) {
    |parts| == |atoms| && forall k | 0 <= k < |atoms| :: AtomStandsFor(atoms[k], bindings, parts[k])
  }

  /** What follows the first tag, closed by its bracket. */
  ghost predicate TrailingReads(tags: seq<string>, separator: string, text: string)
    requires tags != []
  {
    exists parts :: AreTagParts(tags, separator, parts) && text == Flatten(parts[1..]) + "]"
  }

  /** A label taken over by an external link: the first tag's source without its
      bracket, which closes behind the others instead. */
  ghost predicate LabelStandsFor(tags: seq<string>, separator: string, url: string, es: seq<Element>) {
    if tags == [] then es == [Leaf(UrlLink(url, ""))]
    else
      && |es| == 2
      && es[0] == Leaf(UrlLink(url, "[/system:page-tags/tag/" + StripBrackets(tags[0]) + " " + StripBrackets(tags[0])))
      && es[1].Text? && TrailingReads(tags, separator, es[1].text)
  }

  ghost predicate StandsFor(node: DelayedNode, bindings: Bindings, es: seq<Element>) {
    match node
    case Active(slot) => SlotStandsFor(slot, bindings, es)
    case Suppressed(_) => false
    case TypographyBoundary => false
    case RuntimeText(text) => es == [Text(text)]
    case Raw(atoms) => exists parts :: AtomsRead(atoms, bindings, parts) && es == [Leaf(RawText(Flatten(parts)))]
    case Shell(atoms) => exists parts :: AtomsStandFor(atoms, bindings, parts) && es == Flatten(parts)
    case PageConditionalRecovery(id, falseBranch) =>
      && HoldsPageLink(id, bindings)
      && es == [Text("[[[" + bindings[id].page + "] | " + falseBranch + "]]")]
    case TagExternalLabel(id, url) =>
      HoldsTagLinks(id, bindings) && LabelStandsFor(bindings[id].tags, bindings[id].separator, url, es)
    case TagImage(id, image, suffix, asLink) =>
      && HoldsTagLinks(id, bindings)
      && exists text ::
           && TagsRead(bindings[id].tags, bindings[id].separator, text)
           && es == [Leaf(Picture(image, asLink,
                                  if asLink then "/" + EscapeSpaces(text + suffix) else text + suffix))]
  }

  // ----- resolving gives what is stood for

  lemma {:induction false} TagElementsStand(tags: seq<string>, separator: string)
    ensures
      var es := TagElements(tags, separator);
      && |es| == (if tags == [] then 0 else 2 * |tags| - 1)
      && forall k | 0 <= k < |es| ::
           es[k] == if k % 2 == 0 then Leaf(PageAnchor("system:page-tags/tag/" + tags[k / 2], tags[k / 2]))
                    else Text(separator)
  {
    if |tags| > 1 {
      TagElementsStand(tags[1..], separator);
      var es, rest := TagElements(tags, separator), TagElements(tags[1..], separator);
      forall k | 2 <= k < |es| ensures es[k] == rest[k - 2] && (k - 2) / 2 == k / 2 - 1 && (k - 2) % 2 == k % 2 {
      }
    }
  }

  lemma ActiveStands(slot: Slot, bindings: Bindings, es: seq<Element>)
    ensures SlotStandsFor(slot, bindings, es) <==> ResolveActive(slot, bindings) == Ok(es)
  {
    if IsBound(slot, bindings) && bindings[slot.id].TagLinksValue? {
      TagElementsStand(bindings[slot.id].tags, bindings[slot.id].separator);
      var own := TagElements(bindings[slot.id].tags, bindings[slot.id].separator);
      if SlotStandsFor(slot, bindings, es) {
        assert forall k | 0 <= k < |es| :: es[k] == own[k];
        assert es == own;
      }
    }
  }

  function TagParts(tags: seq<string>, separator: string): seq<string> {
    if tags == [] then []
    else if |tags| == 1 then [TagText(tags[0])]
    else [TagText(tags[0])] + ([separator] + TagParts(tags[1..], separator))
  }

  lemma {:induction false} TagPartsStand(tags: seq<string>, separator: string)
    ensures AreTagParts(tags, separator, TagParts(tags, separator))
  {
    hide TagText;
    if |tags| > 1 {
      TagPartsStand(tags[1..], separator);
      var parts, rest := TagParts(tags, separator), TagParts(tags[1..], separator);
      forall k | 2 <= k < |parts| ensures parts[k] == rest[k - 2] && (k - 2) / 2 == k / 2 - 1 && (k - 2) % 2 == k % 2 {
      }
    }
  }

  lemma TagPartsOnly(tags: seq<string>, separator: string, parts: seq<string>)
    requires AreTagParts(tags, separator, parts)
    ensures parts == TagParts(tags, separator)
  {
    hide TagText, TagParts;
    TagPartsStand(tags, separator);
    var own := TagParts(tags, separator);
    assert forall k | 0 <= k < |parts| :: parts[k] == own[k];
  }

  lemma {:induction false} TagsJoin(tags: seq<string>, separator: string)
    ensures JoinTags(tags, separator) == Flatten(TagParts(tags, separator))
    ensures |tags| > 0 ==>
              var parts := TagParts(tags, separator);
              Flatten(parts[1..]) == if |tags| == 1 then "" else separator + JoinTags(tags[1..], separator)
  {
    hide StripBrackets;
    if tags != [] {
      var parts := TagParts(tags, separator);
      if |tags| == 1 {
        assert parts == [TagText(tags[0])] && parts[1..] == [];
      } else {
        TagsJoin(tags[1..], separator);
        TagPartsTail(tags, separator);
        FlattenCons(separator, TagParts(tags[1..], separator));
      }
    }
  }

  lemma TagPartsTail(tags: seq<string>, separator: string)
    requires |tags| > 1
    ensures TagParts(tags, separator)[1..] == [separator] + TagParts(tags[1..], separator)
  {
    hide TagText, Flatten;
    FlattenCons(TagText(tags[0]), [separator] + TagParts(tags[1..], separator));
  }

  lemma TagsReadOnly(tags: seq<string>, separator: string, text: string)
    ensures TagsRead(tags, separator, text) <==> text == JoinTags(tags, separator)
  {
    hide TagText, Flatten, JoinTags, TagParts;
    TagsJoin(tags, separator);
    TagPartsStand(tags, separator);
    if TagsRead(tags, separator, text) {
      var parts :| AreTagParts(tags, separator, parts) && text == Flatten(parts);
      TagPartsOnly(tags, separator, parts);
    }
  }

  lemma LegacyStands(slot: Slot, bindings: Bindings, text: string)
    ensures SlotReads(slot, bindings, text) <==> LegacySourceText(slot, bindings) == Ok(text)
  {
    hide StripBrackets, TagsRead, JoinTags;
    if HoldsTagLinks(slot.id, bindings) {
      TagsReadOnly(bindings[slot.id].tags, bindings[slot.id].separator, text);
    }
  }

  lemma {:induction false} LegacyTextStands(atoms: seq<RecoveryAtom>, bindings: Bindings, text: string)
    ensures (exists parts :: AtomsRead(atoms, bindings, parts) && text == Flatten(parts))
       <==> LegacyText(atoms, bindings) == Ok(text)
  {
    hide SlotReads, LegacySourceText;
    if atoms == [] {
      assert AtomsRead(atoms, bindings, []) && Flatten<char>([]) == "";
    } else {
      forall parts | AtomsRead(atoms, bindings, parts)
        ensures LegacyText(atoms, bindings) == Ok(Flatten(parts))
      {
        AtomsReadTail(atoms, bindings, parts);
        LegacyTextStands(atoms[1..], bindings, Flatten(parts[1..]));
        AtomReadsOnly(atoms[0], bindings, parts[0]);
      }
      if LegacyText(atoms, bindings) == Ok(text) {
        var rest := LegacyText(atoms[1..], bindings).value;
        LegacyTextStands(atoms[1..], bindings, rest);
        var parts :| AtomsRead(atoms[1..], bindings, parts) && rest == Flatten(parts);
        var head := if atoms[0].Source? then atoms[0].text else LegacySourceText(atoms[0].slot, bindings).value;
        AtomReadsOnly(atoms[0], bindings, head);
        AtomsReadCons(atoms, bindings, head, parts);
        FlattenCons(head, parts);
      }
    }
  }

  lemma AtomReadsOnly(atom: RecoveryAtom, bindings: Bindings, text: string)
    ensures AtomReads(atom, bindings, text)
       <==> ((atom.Source? && text == atom.text)
             || (atom.LegacySource? && LegacySourceText(atom.slot, bindings) == Ok(text)))
  {
    hide SlotReads, LegacySourceText;
    if atom.LegacySource? {
      LegacyStands(atom.slot, bindings, text);
    }
  }

  lemma AtomsReadTail(atoms: seq<RecoveryAtom>, bindings: Bindings, parts: seq<string>)
    requires atoms != [] && AtomsRead(atoms, bindings, parts)
    ensures parts != [] && AtomReads(atoms[0], bindings, parts[0]) && AtomsRead(atoms[1..], bindings, parts[1..])
  {
    hide AtomReads;
  }

  lemma AtomsReadCons(atoms: seq<RecoveryAtom>, bindings: Bindings, head: string, parts: seq<string>)
    requires atoms != [] && AtomReads(atoms[0], bindings, head) && AtomsRead(atoms[1..], bindings, parts)
    ensures AtomsRead(atoms, bindings, [head] + parts)
  {
    hide AtomReads;
    assert forall k | 0 < k < |atoms| :: atoms[k] == atoms[1..][k - 1];
  }

  lemma {:induction false} ShellStands(atoms: seq<RecoveryAtom>, bindings: Bindings, es: seq<Element>)
    ensures (exists parts :: AtomsStandFor(atoms, bindings, parts) && es == Flatten(parts))
       <==> ShellElements(atoms, bindings) == Ok(es)
  {
    hide SlotStandsFor, ResolveActive;
    if atoms == [] {
      assert AtomsStandFor(atoms, bindings, []) && Flatten<Element>([]) == [];
    } else {
      forall parts | AtomsStandFor(atoms, bindings, parts)
        ensures ShellElements(atoms, bindings) == Ok(Flatten(parts))
      {
        AtomsStandTail(atoms, bindings, parts);
        ShellStands(atoms[1..], bindings, Flatten(parts[1..]));
        AtomStandsOnly(atoms[0], bindings, parts[0]);
      }
      if ShellElements(atoms, bindings) == Ok(es) {
        var rest := ShellElements(atoms[1..], bindings).value;
        ShellStands(atoms[1..], bindings, rest);
        var parts :| AtomsStandFor(atoms[1..], bindings, parts) && rest == Flatten(parts);
        var head :=
          if atoms[0].Source? then [Text(atoms[0].text)]
          else if atoms[0].AtomLineBreak? then [LineBreak]
          else ResolveActive(atoms[0].slot, bindings).value;
        AtomStandsOnly(atoms[0], bindings, head);
        AtomsStandCons(atoms, bindings, head, parts);
        FlattenCons(head, parts);
      }
    }
  }

  lemma AtomStandsOnly(atom: RecoveryAtom, bindings: Bindings, es: seq<Element>)
    ensures AtomStandsFor(atom, bindings, es)
       <==> ((atom.Source? && es == [Text(atom.text)]) || (atom.AtomLineBreak? && es == [LineBreak])
             || (atom.ActiveSource? && ResolveActive(atom.slot, bindings) == Ok(es)))
  {
    hide SlotStandsFor, ResolveActive;
    if atom.ActiveSource? {
      ActiveStands(atom.slot, bindings, es);
    }
  }

  lemma AtomsStandTail(atoms: seq<RecoveryAtom>, bindings: Bindings, parts: seq<seq<Element>>)
    requires atoms != [] && AtomsStandFor(atoms, bindings, parts)
    ensures parts != [] && AtomStandsFor(atoms[0], bindings, parts[0])
    ensures AtomsStandFor(atoms[1..], bindings, parts[1..])
  {
    hide AtomStandsFor;
  }

  lemma AtomsStandCons(atoms: seq<RecoveryAtom>, bindings: Bindings, head: seq<Element>, parts: seq<seq<Element>>)
    requires atoms != [] && AtomStandsFor(atoms[0], bindings, head) && AtomsStandFor(atoms[1..], bindings, parts)
    ensures AtomsStandFor(atoms, bindings, [head] + parts)
  {
    hide AtomStandsFor;
    assert forall k | 0 < k < |atoms| :: atoms[k] == atoms[1..][k - 1];
  }

  lemma LabelStands(tags: seq<string>, separator: string, url: string, es: seq<Element>)
    ensures LabelStandsFor(tags, separator, url, es)
       <==> es == if tags == [] then [Leaf(UrlLink(url, ""))]
                  else [Leaf(UrlLink(url, StripSuffixBracket(LegacyTagSource(tags[0])))),
                        Text(if |tags| == 1 then "]" else separator + JoinTags(tags[1..], separator) + "]")]
  {
    hide StripBrackets, JoinTags, TrailingReads, StripSuffixBracket, LegacyTagSource;
    if tags != [] {
      LabelWithoutBracket(tags[0]);
      var text := if |tags| == 1 then "]" else separator + JoinTags(tags[1..], separator) + "]";
      TrailingStands(tags, separator, text);
      if |es| == 2 && es[1].Text? {
        TrailingStands(tags, separator, es[1].text);
        assert es == [es[0], es[1]];
      }
    }
  }

  lemma TrailingStands(tags: seq<string>, separator: string, text: string)
    requires tags != []
    ensures TrailingReads(tags, separator, text)
       <==> text == if |tags| == 1 then "]" else separator + JoinTags(tags[1..], separator) + "]"
  {
    hide Flatten, JoinTags, TagText, TagParts;
    TagsJoin(tags, separator);
    TagPartsStand(tags, separator);
    var parts := TagParts(tags, separator);
    forall other | AreTagParts(tags, separator, other) ensures other == parts {
      TagPartsOnly(tags, separator, other);
    }
    assert "" + "]" == "]";
  }

  lemma LabelWithoutBracket(tag: string)
    ensures StripSuffixBracket(LegacyTagSource(tag))
         == "[/system:page-tags/tag/" + StripBrackets(tag) + " " + StripBrackets(tag)
  {
    hide StripBrackets;
  }

  lemma ImageStands(id: nat, bindings: Bindings, text: string)
    ensures HoldsTagLinks(id, bindings) && TagsRead(bindings[id].tags, bindings[id].separator, text)
       <==> LegacySourceText(Slot(id, TagLinks), bindings) == Ok(text)
  {
    LegacyStands(Slot(id, TagLinks), bindings, text);
  }

  lemma RawStands(atoms: seq<RecoveryAtom>, bindings: Bindings, es: seq<Element>)
    ensures StandsFor(Raw(atoms), bindings, es) <==> ResolveDelayed(Raw(atoms), bindings) == Ok(es)
  {
    hide AtomsRead, LegacyText, Flatten;
    var text := LegacyText(atoms, bindings);
    if text.Ok? {
      LegacyTextStands(atoms, bindings, text.value);
    }
    if StandsFor(Raw(atoms), bindings, es) {
      var parts :| AtomsRead(atoms, bindings, parts) && es == [Leaf(RawText(Flatten(parts)))];
      LegacyTextStands(atoms, bindings, Flatten(parts));
    }
  }

  /** A node resolves to what it stands for, and fails exactly if it stands for
      nothing. */
  lemma ResolvedStandsFor(node: DelayedNode, bindings: Bindings, es: seq<Element>)
    ensures StandsFor(node, bindings, es) <==> ResolveDelayed(node, bindings) == Ok(es)
  {
    hide SlotStandsFor, ResolveActive, LegacyText, ShellElements, AtomsRead, AtomsStandFor, LabelStandsFor, TagsRead,
         LegacySourceText, JoinTags, EscapeSpaces, Flatten, StripSuffixBracket, LegacyTagSource;
    match node
    case Active(slot) => ActiveStands(slot, bindings, es);
    case Raw(atoms) => RawStands(atoms, bindings, es);
    case Shell(atoms) => ShellStands(atoms, bindings, es);
    case TagExternalLabel(id, url) =>
      if HoldsTagLinks(id, bindings) {
        LabelStands(bindings[id].tags, bindings[id].separator, url, es);
      }
    case TagImage(id, _, _, _) =>
      forall text
        ensures HoldsTagLinks(id, bindings) && TagsRead(bindings[id].tags, bindings[id].separator, text)
           <==> LegacySourceText(Slot(id, TagLinks), bindings) == Ok(text)
      {
        ImageStands(id, bindings, text);
      }
    case _ =>
  }

  ghost predicate HasMeaning(node: DelayedNode, bindings: Bindings) {
    exists es :: StandsFor(node, bindings, es)
  }

  /** What a node stands for; nothing, if it has no meaning. */
  ghost function Meaning(node: DelayedNode, bindings: Bindings): seq<Element> {
    if HasMeaning(node, bindings) then
      var es :| StandsFor(node, bindings, es);
      es
    else
      []
  }

  lemma MeaningIsResolved(node: DelayedNode, bindings: Bindings)
    ensures
      var resolved := ResolveDelayed(node, bindings);
      && (HasMeaning(node, bindings) <==> resolved.Ok?)
      && Meaning(node, bindings) == (if resolved.Ok? then resolved.value else [])
      && IsFlat(Meaning(node, bindings))
  {
    hide StandsFor, ResolveDelayed;
    var resolved := ResolveDelayed(node, bindings);
    ResolvedIsFlat(node, bindings);
    if resolved.Ok? {
      ResolvedStandsFor(node, bindings, resolved.value);
    }
    if HasMeaning(node, bindings) {
      ResolvedStandsFor(node, bindings, Meaning(node, bindings));
    }
  }

  // ----- what a node counts

  function AtomSlots(atoms: seq<RecoveryAtom>): seq<nat> {
    if atoms == [] then []
    else
      (if atoms[0].LegacySource? || atoms[0].ActiveSource? then [atoms[0].slot.id] else []) + AtomSlots(atoms[1..])
  }

  /** The slots a node names. */
  function SlotsOf(node: DelayedNode): seq<nat> {
    match node
    case Active(slot) => [slot.id]
    case Suppressed(slots) => seq(|slots|, k requires 0 <= k < |slots| => slots[k].id)
    case TypographyBoundary => []
    case RuntimeText(_) => []
    case Raw(atoms) => AtomSlots(atoms)
    case Shell(atoms) => AtomSlots(atoms)
    case PageConditionalRecovery(id, _) => [id]
    case TagExternalLabel(id, _) => [id]
    case TagImage(id, _, _, _) => [id]
  }

  predicate Agree(ids: seq<nat>, one: Bindings, other: Bindings) {
    forall id | id in ids :: (id in one <==> id in other) && (id in one ==> one[id] == other[id])
  }

  lemma {:induction false} AtomsCount(atoms: seq<RecoveryAtom>)
    ensures SlotAtoms(atoms) == |AtomSlots(atoms)|
    ensures forall k | 0 <= k < |atoms| && (atoms[k].LegacySource? || atoms[k].ActiveSource?) ::
              atoms[k].slot.id in AtomSlots(atoms)
  {
    if atoms != [] {
      AtomsCount(atoms[1..]);
      assert forall k | 0 < k < |atoms| :: atoms[k] == atoms[1..][k - 1];
    }
  }

  /** A node counts the slots it names, and what it stands for depends on how
      those are bound and on nothing else. */
  lemma CountsItsSlots(node: DelayedNode, one: Bindings, other: Bindings, es: seq<Element>)
    ensures OccurrenceCount(node) == |SlotsOf(node)|
    ensures Agree(SlotsOf(node), one, other) && StandsFor(node, one, es) ==> StandsFor(node, other, es)
  {
    hide Flatten, TagsRead, LabelStandsFor, EscapeSpaces, StripBrackets;
    if node.Raw? || node.Shell? {
      AtomsCount(node.atoms);
    }
    if Agree(SlotsOf(node), one, other) && StandsFor(node, one, es) {
      if node.Raw? {
        var parts :| AtomsRead(node.atoms, one, parts) && es == [Leaf(RawText(Flatten(parts)))];
        assert AtomsRead(node.atoms, other, parts);
      } else if node.Shell? {
        var parts :| AtomsStandFor(node.atoms, one, parts) && es == Flatten(parts);
        assert AtomsStandFor(node.atoms, other, parts);
      }
    }
  }
}
