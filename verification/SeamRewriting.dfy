/** What stands in place of the runs that meet over a seam. */
module SeamRewriting {
  import opened Bytes
  import opened Seqs
  import opened Tree
  import opened Seam
  import opened SeamReading

  // ----- a run of hyphens

  /** Struck hyphens, then dashes, then one bare hyphen or none: five, two and
      one hyphens each, those behind the struck ones fewer than five together. */
  ghost predicate IsDashRun(es: seq<Element>, n: nat, struck: nat, joined: nat) {
    && struck <= joined <= |es| <= joined + 1
    && (forall k | 0 <= k < struck :: es[k] == Container(Strikethrough, [Text("-")], Attributes(0)))
    && (forall k | struck <= k < joined :: es[k] == Text([EM_DASH]))
    && (forall k | joined <= k < |es| :: es[k] == Text("-"))
    && 2 * (joined - struck) + (|es| - joined) < 5
    && n == 5 * struck + 2 * (joined - struck) + (|es| - joined)
  }

  lemma {:induction false} RepeatSize(n: nat, e: Element)
    ensures |Repeat(n, e)| == n
  {
    if n > 0 { RepeatSize(n - 1, e); }
  }

  lemma DashRunShape(n: nat)
    requires n >= 2
    ensures IsDashRun(DashRun(n), n, n / 5, n / 5 + n % 5 / 2)
  {
    var struck, joined := Container(Strikethrough, [Text("-")], Attributes(0)), Text([EM_DASH]);
    RepeatSize(n / 5, struck);
    RepeatSize(n % 5 / 2, joined);
  }

  /** A length leaves no choice: two hyphens are one dash, and no two bare
      hyphens come to stand together, nor one at the front. */
  lemma DashRunIsUnique(es: seq<Element>, n: nat, struck: nat, joined: nat)
    requires n >= 2 && IsDashRun(es, n, struck, joined)
    ensures es == DashRun(n)
    ensures n == 2 ==> es == [Text([EM_DASH])]
    ensures es != [] && es[0] != Text("-")
    ensures forall k | 0 <= k < |es| && es[k] == Text("-") :: k == |es| - 1
  {
    hide DashRun;
    Counts(n, struck, joined - struck, |es| - joined);
    DashRunShape(n);
    var run := DashRun(n);
    assert forall k | 0 <= k < joined :: es[k] == run[k] != Text("-");
    assert forall k | joined <= k < |es| :: es[k] == run[k];
  }

  lemma Counts(n: nat, struck: nat, joined: nat, bare: nat)
    requires n == 5 * struck + 2 * joined + bare && 2 * joined + bare < 5 && bare <= 1
    ensures struck == n / 5 && joined == n % 5 / 2 && bare == n % 5 % 2
  {
  }

  // ----- runs inside a URL

  ghost predicate IsScheme(scheme: string) {
    scheme == "http://" || scheme == "https://" || scheme == "ftp://" || scheme == "mailto:"
  }

  /** Some scheme stands before the run with nothing between that ends a URL. */
  ghost predicate InsideUrl(source: string, runStart: nat)
    requires runStart <= |source|
  {
    exists scheme, p: nat ::
      && IsScheme(scheme) && OccursAt(source[..runStart], scheme, p)
      && forall k | p <= k < runStart :: !EndsUrl(source, k)
  }

  lemma {:induction false} LastOccurrence(s: string, pat: string, upTo: nat)
    ensures var r := RFind(s, pat, upTo);
            && (r.Some? ==> OccursAt(s, pat, r.value) && r.value <= upTo)
            && forall p: nat | p <= upTo && OccursAt(s, pat, p) :: r.Some? && p <= r.value
    decreases upTo
  {
    if upTo > 0 { LastOccurrence(s, pat, upTo - 1); }
  }

  lemma {:induction false} LatestOfAll(head: string, schemes: seq<string>)
    ensures var r := LatestScheme(head, schemes);
            && (r.Some? ==> exists scheme | scheme in schemes :: OccursAt(head, scheme, r.value))
            && forall scheme, p: nat | scheme in schemes && OccursAt(head, scheme, p) :: r.Some? && p <= r.value
  {
    if schemes != [] {
      assert schemes == [schemes[0]] + schemes[1..];
      LastOccurrence(head, schemes[0], |head|);
      LatestOfAll(head, schemes[1..]);
    }
  }

  /** Looking behind the latest scheme alone decides it. */
  lemma UrlOwnedIsInside(source: string, runStart: nat)
    requires runStart <= |source|
    ensures DashRunIsUrlOwned(source, runStart) <==> InsideUrl(source, runStart)
  {
    hide EndsUrl, OccursAt, LatestScheme;
    var schemes := ["http://", "https://", "ftp://", "mailto:"];
    LatestOfAll(source[..runStart], schemes);
    forall scheme ensures scheme in schemes <==> IsScheme(scheme) {
      assert IsScheme(schemes[0]) && IsScheme(schemes[1]) && IsScheme(schemes[2]) && IsScheme(schemes[3]);
    }
  }

  /** What stands before a group is a link to a URL, or a text that ends inside
      one. */
  lemma UrlOwnerIsLast(es: seq<Element>)
    ensures LastElementIsUrlOwner(es)
       <==> es != []
            && var last := es[|es| - 1];
               || (last.Leaf? && last.leaf.UrlLink?)
               || (last.Text? && InsideUrl(last.text, |last.text|))
  {
    hide InsideUrl, DashRunIsUrlOwned;
    if es != [] && es[|es| - 1].Text? {
      UrlOwnedIsInside(es[|es| - 1].text, |es[|es| - 1].text|);
    }
  }

  // ----- where the seams are

  /** A dropped value stood at `p` of the joined text. */
  ghost predicate SeamAt(group: seq<Grouped>, p: nat) {
    exists k :: 0 <= k < |group| && group[k].Dropped? && |JoinTexts(group[..k])| == p
  }

  lemma {:induction false} SeamPlaces(group: seq<Grouped>, p: nat)
    ensures p in SeamsOf(group) <==> SeamAt(group, p)
  {
    hide JoinTexts;
    if group != [] {
      var n := |group| - 1;
      SeamPlaces(group[..n], p);
      forall k | 0 <= k < n ensures group[..n][k] == group[k] && group[..n][..k] == group[..k] {
      }
      if SeamAt(group, p) {
        var k :| 0 <= k < |group| && group[k].Dropped? && |JoinTexts(group[..k])| == p;
        assert k < n ==> group[..n][k].Dropped? && |JoinTexts(group[..n][..k])| == p;
      }
    }
  }

  // ----- what the flush leaves in place of an edited range

  /** `made` stands in the output where `[a, b)` stood in the text. */
  ghost predicate InPlaceOf(output: seq<Element>, made: seq<Element>, source: string, a: nat, b: nat, spell: Spelling)
    requires a <= b <= |source|
  {
    exists before, after ::
      && output == before + made + after
      && ReadText(spell, Plain(before)) == ReadText(spell, source[..a])
      && ReadText(spell, Plain(after)) == ReadText(spell, source[b..])
  }

  lemma {:induction false} EmitAllAppends(pieces: seq<TextPiece>, edits: seq<Edit>, size: nat, cursor: nat, index: nat,
                                          emitted: seq<Element>)
    requires Fitting(pieces)
    ensures EmitAll(pieces, edits, size, cursor, index, emitted)
         == emitted + EmitAll(pieces, edits, size, cursor, index, [])
    decreases |edits|
  {
    hide Fitting, EmitRange, ReplacementOf;
    if edits == [] {
      assert [] + EmitRange(pieces, cursor, size, index).0 == EmitRange(pieces, cursor, size, index).0;
    } else {
      var (gap, next) := EmitRange(pieces, cursor, edits[0].start, index);
      var made := ReplacementOf(edits[0]);
      EmitAllAppends(pieces, edits[1..], size, edits[0].end, next, emitted + gap + made);
      EmitAllAppends(pieces, edits[1..], size, edits[0].end, next, [] + gap + made);
      var rest := EmitAll(pieces, edits[1..], size, edits[0].end, next, []);
      assert emitted + gap + made + rest == emitted + ([] + gap + made + rest);
    }
  }

  lemma TailReads(pieces: seq<TextPiece>, source: string, edits: seq<Edit>, cursor: nat, index: nat, spell: Spelling)
    requires Tiles(pieces, source) && Fitting(pieces)
    requires Disjoint(edits, cursor, |source|) && PiecesBefore(pieces, index, cursor)
    requires forall x | x in edits :: ReadsAlike(spell, source, x)
    ensures cursor <= |source|
    ensures ReadText(spell, Plain(EmitAll(pieces, edits, |source|, cursor, index, [])))
         == ReadText(spell, source[cursor..])
  {
    hide Tiles, Fitting, Disjoint, Splice, ReadText, Plain, EmitAll, PiecesBefore;
    EmitAllReads(pieces, source, edits, cursor, index, []);
    SpliceReads(spell, source, cursor, edits);
    EmptyReads(spell);
    assert "" + Splice(source, cursor, edits) == Splice(source, cursor, edits);
  }

  lemma GapReads(pieces: seq<TextPiece>, source: string, start: nat, end: nat, index: nat, emitted: seq<Element>,
                 spell: Spelling)
    requires Tiles(pieces, source) && Fitting(pieces)
    requires start <= end <= |source| && PiecesBefore(pieces, index, start)
    requires ReadText(spell, Plain(emitted)) == ReadText(spell, source[..start])
    ensures ReadText(spell, Plain(emitted + EmitRange(pieces, start, end, index).0)) == ReadText(spell, source[..end])
    ensures PiecesBefore(pieces, EmitRange(pieces, start, end, index).1, end)
  {
    hide Tiles, Fitting, ReadText, Plain, EmitRange, PiecesBefore;
    EmitRangeReads(pieces, source, start, end, index);
    PlainAppend(emitted, EmitRange(pieces, start, end, index).0);
    ReadTextAppend(spell, Plain(emitted), source[start..end]);
    ReadTextAppend(spell, source[..start], source[start..end]);
    assert source[..start] + source[start..end] == source[..end];
  }

  lemma EditReads(source: string, edit: Edit, emitted: seq<Element>, spell: Spelling)
    requires ReadsAlike(spell, source, edit)
    requires ReadText(spell, Plain(emitted)) == ReadText(spell, source[..edit.start])
    ensures ReadText(spell, Plain(emitted + ReplacementOf(edit))) == ReadText(spell, source[..edit.end])
  {
    hide ReadText, Plain, ReplacementOf;
    PlainAppend(emitted, ReplacementOf(edit));
    ReadTextAppend(spell, Plain(emitted), Plain(ReplacementOf(edit)));
    ReadTextAppend(spell, source[..edit.start], source[edit.start..edit.end]);
    assert source[..edit.start] + source[edit.start..edit.end] == source[..edit.end];
  }

  lemma {:induction false} EditStands(pieces: seq<TextPiece>, source: string, edits: seq<Edit>, cursor: nat, index: nat,
                                      emitted: seq<Element>, spell: Spelling, i: nat)
    requires Tiles(pieces, source) && Fitting(pieces) && i < |edits|
    requires Disjoint(edits, cursor, |source|) && PiecesBefore(pieces, index, cursor) && cursor <= |source|
    requires forall x | x in edits :: ReadsAlike(spell, source, x)
    requires ReadText(spell, Plain(emitted)) == ReadText(spell, source[..cursor])
    ensures edits[i].start <= edits[i].end <= |source|
    ensures InPlaceOf(EmitAll(pieces, edits, |source|, cursor, index, emitted), ReplacementOf(edits[i]), source,
                      edits[i].start, edits[i].end, spell)
    decreases |edits|
  {
    hide Tiles, Fitting, Disjoint, ReadText, Plain, ReplacementOf, ReadsAlike, EmitRange, PiecesBefore, InPlaceOf;
    var edit, rest := edits[0], edits[1..];
    assert forall x | x in rest :: x in edits;
    DisjointFirst(edits, cursor, |source|);
    var (gap, next) := EmitRange(pieces, cursor, edit.start, index);
    InsideText(source, edit, spell);
    GapReads(pieces, source, cursor, edit.start, index, emitted, spell);
    EditReads(source, edit, emitted + gap, spell);
    PiecesBeforeLater(pieces, next, edit.start, edit.end);
    if i == 0 {
      EmitAllAppends(pieces, rest, |source|, edit.end, next, emitted + gap + ReplacementOf(edit));
      TailReads(pieces, source, rest, edit.end, next, spell);
      Stands(emitted + gap, ReplacementOf(edit), EmitAll(pieces, rest, |source|, edit.end, next, []), source,
             edit.start, edit.end, spell);
    } else {
      EditStands(pieces, source, rest, edit.end, next, emitted + gap + ReplacementOf(edit), spell, i - 1);
    }
  }

  lemma InsideText(source: string, edit: Edit, spell: Spelling)
    requires ReadsAlike(spell, source, edit)
    ensures edit.start <= edit.end <= |source|
  {
  }

  lemma Stands(before: seq<Element>, made: seq<Element>, after: seq<Element>, source: string, a: nat, b: nat,
               spell: Spelling)
    requires a <= b <= |source| && ReadText(spell, Plain(before)) == ReadText(spell, source[..a])
    requires ReadText(spell, Plain(after)) == ReadText(spell, source[b..])
    ensures InPlaceOf(before + made + after, made, source, a, b, spell)
  {
  }

  /** The edits called for, as the flush of a group with text sees them. */
  lemma FlushedEdit(group: seq<Grouped>, byUrl: bool, typography: bool, oracle: SeamOracle, spell: Spelling, x: Edit)
    requires HasSeam(group) && !IsSeamOnly(group) && QuietGroup(group, byUrl, typography, oracle, spell)
    requires x in GroupEdits(group, byUrl, typography, oracle)
    ensures x.start <= x.end <= |JoinTexts(group)|
    ensures InPlaceOf(FlushedGroup(group, byUrl, typography, oracle), ReplacementOf(x), JoinTexts(group), x.start,
                      x.end, spell)
  {
    hide ReadText, Plain, Disjoint, ReadsAlike, DashEdited, SpaceEdited, JoinTexts, SeamsOf, Dedup, EmitAll,
         PairwiseApart, SortEdits, Tiles, AllEdits, TextsOf, SpellsDashes, Fitting, InPlaceOf, ReplacementOf;
    var source, seams := JoinTexts(group), Dedup(SeamsOf(group));
    var typographic := oracle(source, seams, typography);
    var all := AllEdits(source, seams, typographic, byUrl);
    var edits := SortEdits(all);
    PiecesTile(group);
    TilesFit(PiecesOf(group), source);
    EditsExact(source, seams, typographic, byUrl);
    SortElements(all);
    forall y | y in edits ensures ReadsAlike(spell, source, y) {
      if y !in typographic {
        RunEditReads(spell, source, seams, byUrl, y);
      }
    }
    SortDisjoint(all, |source|);
    EmptyReads(spell);
    assert source[..0] == "" && x in edits;
    var i :| 0 <= i < |edits| && edits[i] == x;
    EditStands(PiecesOf(group), source, edits, 0, 0, [], spell, i);
  }

  /** A maximal run of hyphens over a seam, outside a URL, stands as struck
      hyphens and dashes. */
  lemma HyphensOverSeam(group: seq<Grouped>, byUrl: bool, typography: bool, oracle: SeamOracle, spell: Spelling, a: nat,
                        p: nat, b: nat)
    requires QuietGroup(group, byUrl, typography, oracle, spell)
    requires IsRun(JoinTexts(group), '-', a, b) && SeamAt(group, p) && a < p < b
    requires !InsideUrl(JoinTexts(group), a) && !(a == 0 && byUrl)
    ensures exists made :: IsDashRun(made, b - a, (b - a) / 5, (b - a) / 5 + (b - a) % 5 / 2)
              && InPlaceOf(FlushedGroup(group, byUrl, typography, oracle), made, JoinTexts(group), a, b, spell)
  {
    hide JoinTexts, SeamsOf, Dedup, InPlaceOf, IsDashRun, FlushedGroup, QuietGroup, DashRunIsUrlOwned, InsideUrl,
         DashRun, Crosses;
    var source, seams := JoinTexts(group), Dedup(SeamsOf(group));
    SeamCrossed(group, a, p, b);
    UrlOwnedIsInside(source, a);
    assert DashEdited(source, seams, byUrl, a, b);
    EditCalled(group, byUrl, typography, oracle, DashEdit(a, b));
    FlushedEdit(group, byUrl, typography, oracle, spell, DashEdit(a, b));
    DashRunShape(b - a);
  }

  /** A maximal run of spaces over a seam stands as one space. */
  lemma SpacesOverSeam(group: seq<Grouped>, byUrl: bool, typography: bool, oracle: SeamOracle, spell: Spelling, a: nat,
                       p: nat, b: nat)
    requires QuietGroup(group, byUrl, typography, oracle, spell)
    requires IsRun(JoinTexts(group), ' ', a, b) && SeamAt(group, p) && a < p < b
    ensures InPlaceOf(FlushedGroup(group, byUrl, typography, oracle), [Text(" ")], JoinTexts(group), a, b, spell)
  {
    hide JoinTexts, SeamsOf, Dedup, InPlaceOf, FlushedGroup, QuietGroup, Crosses;
    SeamCrossed(group, a, p, b);
    assert SpaceEdited(JoinTexts(group), Dedup(SeamsOf(group)), a, b);
    EditCalled(group, byUrl, typography, oracle, TextEdit(a, b, " "));
    FlushedEdit(group, byUrl, typography, oracle, spell, TextEdit(a, b, " "));
  }

  /** A typographic edit leaves its own text. */
  lemma TypographyOverSeam(group: seq<Grouped>, byUrl: bool, typography: bool, oracle: SeamOracle, spell: Spelling,
                           x: Edit)
    requires HasSeam(group) && !IsSeamOnly(group) && QuietGroup(group, byUrl, typography, oracle, spell)
    requires x.TextEdit? && x in oracle(JoinTexts(group), Dedup(SeamsOf(group)), typography)
    ensures x.start <= x.end <= |JoinTexts(group)|
    ensures InPlaceOf(FlushedGroup(group, byUrl, typography, oracle), [Text(x.replacement)], JoinTexts(group), x.start,
                      x.end, spell)
  {
    hide JoinTexts, SeamsOf, Dedup, InPlaceOf, FlushedGroup, QuietGroup;
    EditCalled(group, byUrl, typography, oracle, x);
    FlushedEdit(group, byUrl, typography, oracle, spell, x);
  }

  lemma SeamCrossed(group: seq<Grouped>, a: nat, p: nat, b: nat)
    requires SeamAt(group, p) && a < p < b <= |JoinTexts(group)|
    ensures Crosses(Dedup(SeamsOf(group)), a, b)
    ensures HasSeam(group) && !IsSeamOnly(group)
  {
    hide JoinTexts, SeamsOf, Dedup, NonDecreasing;
    SeamPlaces(group, p);
    SeamsInOrder(group);
    DedupKeeps(SeamsOf(group));
    if IsSeamOnly(group) {
      DroppedJoin(group);
    }
  }

  lemma EditCalled(group: seq<Grouped>, byUrl: bool, typography: bool, oracle: SeamOracle, x: Edit)
    requires
      var source, seams := JoinTexts(group), Dedup(SeamsOf(group));
      IsSeamEdit(x, source, seams, oracle(source, seams, typography), byUrl)
    ensures x in GroupEdits(group, byUrl, typography, oracle)
  {
    hide JoinTexts, SeamsOf, Dedup, IsSeamEdit, AllEdits;
    var source, seams := JoinTexts(group), Dedup(SeamsOf(group));
    EditsExact(source, seams, oracle(source, seams, typography), byUrl);
    SortElements(AllEdits(source, seams, oracle(source, seams, typography), byUrl));
  }
}
