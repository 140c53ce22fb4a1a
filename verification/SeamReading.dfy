/** Reading edited text back: dashes as the hyphens they were joined from, marks
    as they were written, blanks not at all. */
module SeamReading {
  import opened Seqs
  import opened Tree
  import opened DelayedSpec
  import opened Seam

  /** How a character is written in the source: a joined dash as two hyphens, a
      typographic quote as the marks it stands for. */
  type Spelling = char -> string

  /** A text as it was written, blanks aside. */
  function ReadText(spell: Spelling, text: string): seq<Bone> {
    if text == "" then []
    else (if IsWhitespace(text[0]) then [] else InkOf(spell(text[0]))) + ReadText(spell, text[1..])
  }

  lemma {:induction false} ReadTextAppend(spell: Spelling, a: string, b: string)
    ensures ReadText(spell, a + b) == ReadText(spell, a) + ReadText(spell, b)
  {
    if a == "" {
      assert a + b == b;
    } else {
      assert (a + b)[1..] == a[1..] + b && (a + b)[0] == a[0];
      ReadTextAppend(spell, a[1..], b);
      Regroup(if IsWhitespace(a[0]) then [] else InkOf(spell(a[0])), ReadText(spell, a[1..]), ReadText(spell, b));
    }
  }

  predicate SpellsDashes(spell: Spelling) {
    spell('-') == "-" && spell(EM_DASH) == "--"
  }

  function Hyphens(n: nat): (r: seq<Bone>)
    ensures |r| == n && forall k | 0 <= k < n :: r[k] == Ink('-')
  {
    seq(n, k => Ink('-'))
  }

  lemma {:induction false} RunReads(spell: Spelling, text: string)
    requires SpellsDashes(spell) && forall k | 0 <= k < |text| :: text[k] == '-'
    ensures ReadText(spell, text) == Hyphens(|text|)
  {
    if text != "" {
      assert forall k | 0 <= k < |text[1..]| :: text[1..][k] == text[k + 1];
      RunReads(spell, text[1..]);
      assert InkOf("-") == [Ink('-')];
    }
  }

  lemma {:induction false} BlanksRead(spell: Spelling, text: string)
    requires forall k | 0 <= k < |text| :: text[k] == ' '
    ensures ReadText(spell, text) == []
  {
    if text != "" {
      assert forall k | 0 <= k < |text[1..]| :: text[1..][k] == text[k + 1];
      BlanksRead(spell, text[1..]);
    }
  }

  lemma {:induction false} RepeatReads(spell: Spelling, n: nat, e: Element, width: nat)
    requires ReadText(spell, PlainOf(e)) == Hyphens(width)
    ensures ReadText(spell, Plain(Repeat(n, e))) == Hyphens(n * width)
  {
    hide PlainOf, ReadText;
    if n == 0 {
      EmptyReads(spell);
    } else {
      RepeatReads(spell, n - 1, e, width);
      RepeatPlain(n, e);
      ReadTextAppend(spell, PlainOf(e), Plain(Repeat(n - 1, e)));
      assert n * width == width + (n - 1) * width;
    }
  }

  lemma RepeatPlain(n: nat, e: Element)
    requires n > 0
    ensures Plain(Repeat(n, e)) == PlainOf(e) + Plain(Repeat(n - 1, e))
  {
    assert ([e] + Repeat(n - 1, e))[1..] == Repeat(n - 1, e);
  }

  lemma EmptyReads(spell: Spelling)
    ensures ReadText(spell, "") == [] && Plain([]) == ""
  {
  }

  /** A rewritten run of hyphens reads back as the run. */
  lemma DashRunReads(spell: Spelling, n: nat)
    requires SpellsDashes(spell) && n >= 2
    ensures ReadText(spell, Plain(DashRun(n))) == Hyphens(n)
  {
    hide ReadText, Plain, PlainOf, Repeat, SpellsDashes;
    var struck, joined, one := Container(Strikethrough, [Text("-")], Attributes(0)), Text([EM_DASH]), [Text("-")];
    PiecesRead(spell);
    if n != 2 {
      var a, b := Repeat(n / 5, struck), Repeat(n % 5 / 2, joined);
      var c: seq<Element> := if n % 5 % 2 == 1 then one else [];
      RepeatReads(spell, n / 5, struck, 5);
      RepeatReads(spell, n % 5 / 2, joined, 2);
      PlainAppend(a, b);
      PlainAppend(a + b, c);
      ReadTextAppend(spell, Plain(a), Plain(b));
      ReadTextAppend(spell, Plain(a + b), Plain(c));
      HyphensAdd(n / 5 * 5, n % 5 / 2 * 2, n % 5 % 2, n);
    }
  }

  lemma HyphensAdd(a: nat, b: nat, c: nat, n: nat)
    requires a + b + c == n
    ensures Hyphens(a) + Hyphens(b) + Hyphens(c) == Hyphens(n)
  {
  }

  lemma PiecesRead(spell: Spelling)
    requires SpellsDashes(spell)
    ensures ReadText(spell, PlainOf(Container(Strikethrough, [Text("-")], Attributes(0)))) == Hyphens(5)
    ensures ReadText(spell, PlainOf(Text([EM_DASH]))) == Hyphens(2)
    ensures ReadText(spell, Plain([Text([EM_DASH])])) == Hyphens(2)
    ensures ReadText(spell, Plain([Text("-")])) == Hyphens(1)
    ensures ReadText(spell, Plain([])) == Hyphens(0)
  {
    assert Plain([Text("-")]) == "-" + "" == "-";
    assert Plain([Text([EM_DASH])]) == [EM_DASH] + "" == [EM_DASH];
    assert PlainOf(Container(Strikethrough, [Text("-")], Attributes(0))) == "-----";
    RunReads(spell, "-----");
    RunReads(spell, "-");
    assert InkOf("--") == [Ink('-'), Ink('-')];
    assert [EM_DASH][1..] == "" && [EM_DASH][0] == EM_DASH && !IsWhitespace(EM_DASH);
  }

  /** The edit replaces a text by one that reads the same. */
  predicate ReadsAlike(spell: Spelling, source: string, edit: Edit) {
    edit.start <= edit.end <= |source| &&
    ReadText(spell, Plain(ReplacementOf(edit))) == ReadText(spell, source[edit.start..edit.end])
  }

  /** Typographic edits that keep apart, from each other and from the dash and space
      edits, and read back as what they replace. */
  ghost predicate QuietEdits(source: string, seams: seq<nat>, typographic: seq<Edit>, byUrl: bool, spell: Spelling) {
    && SpellsDashes(spell)
    && PairwiseApart(AllEdits(source, seams, typographic, byUrl), |source|)
    && forall x | x in typographic :: ReadsAlike(spell, source, x)
  }

  /** The edits a flush of `group` makes are quiet. */
  ghost predicate QuietGroup(group: seq<Grouped>, byUrl: bool, typography: bool, oracle: SeamOracle, spell: Spelling) {
    var source, seams := JoinTexts(group), Dedup(SeamsOf(group));
    HasSeam(group) && !IsSeamOnly(group) ==>
      QuietEdits(source, seams, oracle(source, seams, typography), byUrl, spell)
  }

  /** An oracle that makes quiet edits only. */
  ghost predicate Quiet(oracle: SeamOracle, spell: Spelling) {
    forall source, seams, typography: bool, byUrl: bool | NonDecreasing(seams) ::
      QuietEdits(source, seams, oracle(source, seams, typography), byUrl, spell)
  }

  lemma QuietOracle(oracle: SeamOracle, spell: Spelling, group: seq<Grouped>, byUrl: bool, typography: bool)
    requires Quiet(oracle, spell)
    ensures QuietGroup(group, byUrl, typography, oracle, spell)
  {
    hide QuietEdits, JoinTexts, SeamsOf, Dedup, NonDecreasing;
    SeamsInOrder(group);
    DedupKeeps(SeamsOf(group));
  }

  /** Without typographic edits nothing but dashes and blanks is edited. */
  lemma NoTypographyIsQuiet(oracle: SeamOracle, spell: Spelling)
    requires SpellsDashes(spell) && forall source, seams, typography :: oracle(source, seams, typography) == []
    ensures Quiet(oracle, spell)
  {
    hide PairwiseApart, SpellsDashes, AllEdits, ReadsAlike;
    forall source, seams, typography: bool, byUrl: bool | NonDecreasing(seams)
      ensures QuietEdits(source, seams, oracle(source, seams, typography), byUrl, spell)
    {
      PlainEditsApart(source, seams, byUrl);
    }
  }

  lemma RunEditReads(spell: Spelling, source: string, seams: seq<nat>, byUrl: bool, x: Edit)
    requires SpellsDashes(spell)
    requires (x.DashEdit? && DashEdited(source, seams, byUrl, x.start, x.end))
          || (x == TextEdit(x.start, x.end, " ") && SpaceEdited(source, seams, x.start, x.end))
    ensures ReadsAlike(spell, source, x)
  {
    hide ReadText, Crosses, DashRunIsUrlOwned, DashRun, SpellsDashes;
    var run := source[x.start..x.end];
    if x.DashEdit? {
      DashRunReads(spell, x.end - x.start);
      RunReads(spell, run);
    } else {
      BlanksRead(spell, run);
      BlanksRead(spell, " ");
      assert Plain([Text(" ")]) == " " + "" == " ";
    }
  }

  /** Replacing disjoint ranges by texts that read the same changes no reading. */
  lemma {:induction false} SpliceReads(spell: Spelling, source: string, from: nat, edits: seq<Edit>)
    requires Disjoint(edits, from, |source|) && forall x | x in edits :: ReadsAlike(spell, source, x)
    ensures from <= |source| && ReadText(spell, Splice(source, from, edits)) == ReadText(spell, source[from..])
    decreases |edits|
  {
    hide ReadText, Plain, Disjoint, Splice;
    if edits == [] {
      NoEdits(source, from);
    } else {
      var e, rest := edits[0], edits[1..];
      SpliceFirst(source, from, edits);
      SpliceReads(spell, source, e.end, rest);
      assert ReadsAlike(spell, source, e);
      var gap, tail := source[from..e.start], Splice(source, e.end, rest);
      ReadTextAppend(spell, gap, Plain(ReplacementOf(e)));
      ReadTextAppend(spell, gap + Plain(ReplacementOf(e)), tail);
      ReadTextAppend(spell, gap, source[e.start..e.end]);
      ReadTextAppend(spell, gap + source[e.start..e.end], source[e.end..]);
      ThreeSlices(source, from, e.start, e.end);
    }
  }

  lemma ThreeSlices(source: string, a: nat, b: nat, c: nat)
    requires a <= b <= c <= |source|
    ensures source[a..b] + source[b..c] + source[c..] == source[a..]
  {
  }

  lemma {:induction false} TextsPlain(group: seq<Grouped>)
    requires !HasSeam(group)
    ensures Plain(TextsIn(group)) == JoinTexts(group)
  {
    hide Plain;
    if group == [] {
      EmptyReads(c => "");
    } else {
      var n := |group| - 1;
      assert forall k | 0 <= k <= n :: group[k].Joined?;
      assert forall k | 0 <= k < n :: group[..n][k] == group[k];
      TextsPlain(group[..n]);
      assert TextsIn(group) == TextsIn(group[..n]) + [Text(group[n].text)];
      PlainSnoc(TextsIn(group[..n]), group[n].text);
    }
  }

  lemma {:induction false} DroppedJoin(group: seq<Grouped>)
    requires forall k | 0 <= k < |group| :: group[k].Dropped?
    ensures JoinTexts(group) == ""
  {
    if group != [] {
      DroppedJoin(group[..|group| - 1]);
    }
  }

  /** What a flush with quiet edits writes reads as the group's text. */
  lemma FlushedReads(group: seq<Grouped>, byUrl: bool, typography: bool, oracle: SeamOracle, spell: Spelling)
    requires QuietGroup(group, byUrl, typography, oracle, spell)
    ensures ReadText(spell, Plain(FlushedGroup(group, byUrl, typography, oracle))) == ReadText(spell, JoinTexts(group))
  {
    hide ReadText, Plain, QuietEdits, JoinTexts, SeamsOf, Dedup, FlushedGroup;
    FlushedTextual(group, byUrl, typography, oracle);
    if !HasSeam(group) {
      TextsPlain(group);
      UnseamedFlush(group, byUrl, typography, oracle);
    } else if IsSeamOnly(group) {
      DroppedJoin(group);
      EmptyReads(spell);
    } else {
      SplicedReads(group, byUrl, typography, oracle, spell);
    }
  }

  lemma UnseamedFlush(group: seq<Grouped>, byUrl: bool, typography: bool, oracle: SeamOracle)
    requires !HasSeam(group)
    ensures FlushedGroup(group, byUrl, typography, oracle) == TextsIn(group)
  {
  }

  lemma SplicedReads(group: seq<Grouped>, byUrl: bool, typography: bool, oracle: SeamOracle, spell: Spelling)
    requires HasSeam(group) && !IsSeamOnly(group) && QuietGroup(group, byUrl, typography, oracle, spell)
    ensures ReadText(spell, Plain(FlushedGroup(group, byUrl, typography, oracle))) == ReadText(spell, JoinTexts(group))
  {
    hide ReadText, Plain, Splice, Disjoint, ReadsAlike, DashEdited, SpaceEdited, JoinTexts, SeamsOf, Dedup,
         FlushedGroup, PairwiseApart, SortEdits, Tiles, AllEdits, TextsOf, SpellsDashes;
    var source, seams := JoinTexts(group), Dedup(SeamsOf(group));
    var typographic := oracle(source, seams, typography);
    var edits := SortEdits(AllEdits(source, seams, typographic, byUrl));
    PiecesTile(group);
    EditsExact(source, seams, typographic, byUrl);
    forall x | x in edits ensures ReadsAlike(spell, source, x) {
      if x !in typographic {
        RunEditReads(spell, source, seams, byUrl, x);
      }
    }
    FlushedSplices(group, byUrl, typography, oracle);
    SpliceReads(spell, source, 0, edits);
    assert source[0..] == source;
  }
}
