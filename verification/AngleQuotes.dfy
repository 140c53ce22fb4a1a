/** One of the typographic edits at a seam: pairs of closing angle brackets become
    quotes. It is quiet on every text. */
module AngleQuotes {
  import opened Seqs
  import opened DelayedSpec
  import opened Seam
  import opened SeamReading

  const ANGLE_QUOTE: char := 0xBB as char

  /** `n` pairs of brackets from `start` on. */
  function Pairs(start: nat, n: nat): (r: seq<Edit>)
    ensures |r| == n
    ensures forall k | 0 <= k < n :: r[k] == TextEdit(start + 2 * k, start + 2 * k + 2, [ANGLE_QUOTE])
  {
    seq(n, (k: nat) => TextEdit(start + 2 * k, start + 2 * k + 2, [ANGLE_QUOTE]))
  }

  /** A run is edited where a seam touches it; one that begins its line stays a
      quote marker, except at the start of the text. */
  predicate Touches(source: string, seams: seq<nat>, start: nat, end: nat)
    requires start <= |source|
  {
    if start == 0 then exists k :: 0 <= k < |seams| && seams[k] < end
    else source[start - 1] != '\n' && exists k :: 0 <= k < |seams| && start <= seams[k] <= end
  }

  /** The edits of the runs from `i` on, after those done. */
  function AngleScan(source: string, seams: seq<nat>, i: nat, done: seq<Edit>): seq<Edit>
    requires i <= |source|
    decreases |source| - i
  {
    if i == |source| then done
    else if source[i] != '>' then AngleScan(source, seams, i + 1, done)
    else
      var end := RunEndFrom(source, '>', i);
      var found := if end - i >= 2 && Touches(source, seams, i, end) then Pairs(i, (end - i) / 2) else [];
      AngleScan(source, seams, end, done + found)
  }

  function AngleEdits(source: string, seams: seq<nat>): seq<Edit> {
    if seams == [] then [] else AngleScan(source, seams, 0, [])
  }

  method CollectAngleEdits(source: string, seams: seq<nat>) returns (edits: seq<Edit>)
    ensures edits == AngleEdits(source, seams)
    ensures ArePairs(edits, source, seams, |source|)
  {
    hide ArePairs;
    AngleEditsExact(source, seams);
    edits := [];
    if seams == [] {
      return;
    }
    var index := 0;
    while index < |source|
      invariant index <= |source| && AngleScan(source, seams, index, edits) == AngleEdits(source, seams)
      decreases |source| - index
    {
      if source[index] != '>' {
        index := index + 1;
        continue;
      }
      var start := index;
      index := RunEnd(source, '>', start);
      assert edits + [] == edits;
      if index - start < 2 {
        continue;
      }
      if Touches(source, seams, start, index) {
        ghost var before := edits;
        for pair := 0 to (index - start) / 2
          invariant edits == before + Pairs(start, pair)
        {
          assert Pairs(start, pair + 1) == Pairs(start, pair)
                                         + [TextEdit(start + 2 * pair, start + 2 * pair + 2, [ANGLE_QUOTE])];
          edits := edits + [TextEdit(start + pair * 2, start + pair * 2 + 2, [ANGLE_QUOTE])];
        }
      }
    }
  }

  // ----- the edits are exact

  /** The k-th pair of a run of two or more that a seam touches. */
  ghost predicate IsTouchedPair(source: string, seams: seq<nat>, a: nat, b: nat, k: nat) {
    IsRun(source, '>', a, b) && Touches(source, seams, a, b) && 2 * k + 2 <= b - a
  }

  /** Edits for the pairs of the runs that begin before `upTo`, and no others. */
  ghost predicate ArePairs(edits: seq<Edit>, source: string, seams: seq<nat>, upTo: nat) {
    && (forall x | x in edits ::
          exists a: nat, b: nat, k: nat :: IsTouchedPair(source, seams, a, b, k)
                         && x == TextEdit(a + 2 * k, a + 2 * k + 2, [ANGLE_QUOTE]))
    && forall a: nat, b: nat, k: nat | IsTouchedPair(source, seams, a, b, k) && a < upTo ::
      TextEdit(a + 2 * k, a + 2 * k + 2, [ANGLE_QUOTE]) in edits
  }

  lemma RunLookedAt(edits: seq<Edit>, source: string, seams: seq<nat>, start: nat, end: nat)
    requires ArePairs(edits, source, seams, start) && start <= |source| && IsRun(source, '>', start, end)
    ensures ArePairs(edits + if end - start >= 2 && Touches(source, seams, start, end) then
                               Pairs(start, (end - start) / 2) else [], source, seams, end)
  {
    hide Touches, IsRun;
    OrderedRun(source, '>', start, end);
    LaterRun(source, '>', start, end);
    var touched := end - start >= 2 && Touches(source, seams, start, end);
    var found := if touched then Pairs(start, (end - start) / 2) else [];
    forall x | x in found
      ensures exists a: nat, b: nat, k: nat :: IsTouchedPair(source, seams, a, b, k)
                             && x == TextEdit(a + 2 * k, a + 2 * k + 2, [ANGLE_QUOTE])
    {
      var k :| 0 <= k < |found| && found[k] == x;
      assert IsTouchedPair(source, seams, start, end, k);
    }
    forall a: nat, b: nat, k: nat | IsTouchedPair(source, seams, a, b, k) && a < end
      ensures TextEdit(a + 2 * k, a + 2 * k + 2, [ANGLE_QUOTE]) in edits + found
    {
      if a >= start {
        assert found[k] == TextEdit(a + 2 * k, a + 2 * k + 2, [ANGLE_QUOTE]);
      }
    }
  }

  lemma OtherLookedAt(edits: seq<Edit>, source: string, seams: seq<nat>, i: nat)
    requires i < |source| && source[i] != '>' && ArePairs(edits, source, seams, i)
    ensures ArePairs(edits, source, seams, i + 1)
  {
    hide Touches, IsRun;
    NoRunAt(source, '>', i);
  }

  lemma {:induction false} ScanIsExact(source: string, seams: seq<nat>, i: nat, done: seq<Edit>)
    requires BetweenRuns(source, '>', i) && ArePairs(done, source, seams, i)
    ensures ArePairs(AngleScan(source, seams, i, done), source, seams, |source|)
    decreases |source| - i
  {
    hide ArePairs, Touches, IsRun, Pairs;
    if i < |source| {
      if source[i] != '>' {
        OtherLookedAt(done, source, seams, i);
        ScanIsExact(source, seams, i + 1, done);
      } else {
        var end := RunEndFrom(source, '>', i);
        RunStartsHere(source, '>', i);
        RunLookedAt(done, source, seams, i, end);
        var found := if end - i >= 2 && Touches(source, seams, i, end) then Pairs(i, (end - i) / 2) else [];
        ScanIsExact(source, seams, end, done + found);
      }
    }
  }

  /** The pairs of every run that a seam touches are edited, and nothing else. */
  lemma AngleEditsExact(source: string, seams: seq<nat>)
    ensures ArePairs(AngleEdits(source, seams), source, seams, |source|)
  {
    if seams != [] {
      ScanIsExact(source, seams, 0, []);
    }
  }

  // ----- the edits are quiet

  ghost predicate IsAngleEdit(source: string, x: Edit) {
    && x == TextEdit(x.start, x.start + 2, [ANGLE_QUOTE]) && x.start + 2 <= |source|
    && source[x.start] == '>' && source[x.start + 1] == '>'
  }

  ghost predicate AreAngleEdits(source: string, edits: seq<Edit>, upTo: nat) {
    LeftToRight(edits, upTo) && forall x | x in edits :: IsAngleEdit(source, x)
  }

  lemma {:induction false} ScanFindsPairs(source: string, seams: seq<nat>, i: nat, done: seq<Edit>)
    requires i <= |source| && AreAngleEdits(source, done, i)
    ensures AreAngleEdits(source, AngleScan(source, seams, i, done), |source|)
    decreases |source| - i
  {
    hide Touches, Pairs, AreAngleEdits;
    if i < |source| {
      if source[i] != '>' {
        LaterEdits(source, done, i, i + 1);
        ScanFindsPairs(source, seams, i + 1, done);
      } else {
        var end := RunEndFrom(source, '>', i);
        var found := if end - i >= 2 && Touches(source, seams, i, end) then Pairs(i, (end - i) / 2) else [];
        LaterEdits(source, done, i, end);
        assert done + [] == done;
        if found != [] {
          PairsFollow(source, done, i, end);
        }
        ScanFindsPairs(source, seams, end, done + found);
      }
    }
  }

  lemma LaterEdits(source: string, edits: seq<Edit>, from: nat, upTo: nat)
    requires AreAngleEdits(source, edits, from) && from <= upTo
    ensures AreAngleEdits(source, edits, upTo)
  {
  }

  lemma PairsFollow(source: string, done: seq<Edit>, start: nat, end: nat)
    requires AreAngleEdits(source, done, start) && start <= end <= |source|
    requires forall k | start <= k < end :: source[k] == '>'
    ensures AreAngleEdits(source, done + Pairs(start, (end - start) / 2), end)
  {
    hide IsAngleEdit;
    var found := Pairs(start, (end - start) / 2);
    forall x | x in found ensures IsAngleEdit(source, x) {
      var k :| 0 <= k < |found| && found[k] == x;
      PairIsEdit(source, start, end, k);
    }
  }

  lemma PairIsEdit(source: string, start: nat, end: nat, k: nat)
    requires start <= end <= |source| && k < (end - start) / 2
    requires forall j | start <= j < end :: source[j] == '>'
    ensures IsAngleEdit(source, TextEdit(start + 2 * k, start + 2 * k + 2, [ANGLE_QUOTE]))
  {
  }

  /** A closing quote is read as the two brackets it stands for. */
  predicate SpellsAngles(spell: Spelling) {
    SpellsDashes(spell) && spell('>') == ">" && spell(ANGLE_QUOTE) == ">>"
  }

  lemma AngleReadsAlike(source: string, x: Edit, spell: Spelling)
    requires IsAngleEdit(source, x) && SpellsAngles(spell)
    ensures ReadsAlike(spell, source, x)
  {
    var one, two := [ANGLE_QUOTE], source[x.start..x.end];
    assert Plain(ReplacementOf(x)) == one + "" == one;
    assert one[1..] == "" && two == ">>" && two[1..] == ">" && two[1..][1..] == "";
    assert InkOf(">") == [Ink('>')] && InkOf(">>") == [Ink('>')] + InkOf(">");
    assert ReadText(spell, ">") == InkOf(">") + ReadText(spell, "");
  }

  lemma AnglesApart(source: string, seams: seq<nat>, byUrl: bool, angles: seq<Edit>)
    requires AreAngleEdits(source, angles, |source|)
    ensures PairwiseApart(AllEdits(source, seams, angles, byUrl), |source|)
  {
    hide IsRun, DashRunIsUrlOwned, Crosses, IsAngleEdit, PairwiseApart, LeftToRight, Apart;
    var dashes, spaces := DashEdits(source, seams, byUrl), SpaceEdits(source, seams);
    var runs := dashes + spaces;
    PlainEditsApart(source, seams, byUrl);
    DashEditsExact(source, seams, byUrl);
    SpaceEditsExact(source, seams);
    assert [] + dashes + spaces == runs && AllEdits(source, seams, angles, byUrl) == angles + runs;
    forall x, y | x in angles && y in runs ensures Apart(x, y) {
      AngleApart(source, x, y, if y in dashes then '-' else ' ');
    }
    assert forall k | 0 <= k < |angles| :: angles[k] in angles;
    assert forall k | 0 <= k < |runs| :: runs[k] in runs;
    JoinApart(angles, runs, |source|);
  }

  lemma AngleApart(source: string, angle: Edit, run: Edit, c: char)
    requires IsAngleEdit(source, angle) && c != '>' && IsRun(source, c, run.start, run.end)
    ensures Apart(angle, run)
  {
  }

  lemma JoinApart(a: seq<Edit>, b: seq<Edit>, size: nat)
    requires LeftToRight(a, size) && PairwiseApart(b, size)
    requires forall j, k | 0 <= j < |a| && 0 <= k < |b| :: Apart(a[j], b[k])
    ensures PairwiseApart(a + b, size)
  {
    var all := a + b;
    forall j, k | 0 <= j < k < |all| ensures Apart(all[j], all[k]) {
      if j >= |a| {
        assert Apart(b[j - |a|], b[k - |a|]);
      } else if k >= |a| {
        assert Apart(a[j], b[k - |a|]);
      } else {
        assert a[j].end <= a[k].start;
      }
    }
  }

  function AngleOracle(): SeamOracle {
    (source, seams, typography) => if typography then AngleEdits(source, seams) else []
  }

  /** Closing quotes are edited quietly, whatever the text and its seams. */
  lemma AngleEditsAreQuiet(spell: Spelling)
    requires SpellsAngles(spell)
    ensures Quiet(AngleOracle(), spell)
  {
    hide PairwiseApart, AllEdits, ReadsAlike, IsAngleEdit, AngleScan;
    forall source, seams, typography: bool, byUrl: bool | NonDecreasing(seams)
      ensures QuietEdits(source, seams, AngleOracle()(source, seams, typography), byUrl, spell)
    {
      var angles := AngleOracle()(source, seams, typography);
      ScanFindsPairs(source, seams, 0, []);
      AnglesApart(source, seams, byUrl, angles);
      forall x | x in angles ensures ReadsAlike(spell, source, x) {
        AngleReadsAlike(source, x, spell);
      }
    }
  }

  /** Such edits are made: two brackets with a seam between become one quote. */
  lemma AngleEditIsMade(text: string, rest: string)
    requires '>' !in text && '>' !in rest && text != "" && text[|text| - 1] != '\n'
    ensures AngleEdits(text + ">>" + rest, [|text| + 1]) == [TextEdit(|text|, |text| + 2, [ANGLE_QUOTE])]
  {
    hide Pairs, Touches;
    var source, seams, n := text + ">>" + rest, [|text| + 1], |text|;
    assert source[n] == '>' && source[n + 1] == '>';
    assert forall k | 0 <= k < n :: source[k] == text[k] && text[k] in text;
    forall k | n + 2 <= k < |source| ensures source[k] != '>' {
      assert source[k] == rest[k - n - 2] && rest[k - n - 2] in rest;
    }
    SkipsOthers(source, seams, 0, n, []);
    RunOfTwo(source, n);
    OnePair(source, seams, n);
    SkipsOthers(source, seams, n + 2, |source|, [TextEdit(n, n + 2, [ANGLE_QUOTE])]);
  }

  lemma RunOfTwo(source: string, n: nat)
    requires n + 2 <= |source| && source[n] == '>' && source[n + 1] == '>'
    requires n + 2 < |source| ==> source[n + 2] != '>'
    ensures RunEndFrom(source, '>', n) == n + 2
  {
    assert RunEndFrom(source, '>', n + 2) == n + 2;
    assert RunEndFrom(source, '>', n + 1) == n + 2;
  }

  lemma OnePair(source: string, seams: seq<nat>, n: nat)
    requires 0 < n <= |source| && source[n - 1] != '\n' && seams == [n + 1]
    ensures Touches(source, seams, n, n + 2)
    ensures [] + Pairs(n, 1) == [TextEdit(n, n + 2, [ANGLE_QUOTE])]
  {
    assert seams[0] == n + 1;
  }

  lemma {:induction false} SkipsOthers(source: string, seams: seq<nat>, i: nat, upTo: nat, done: seq<Edit>)
    requires i <= upTo <= |source| && forall k | i <= k < upTo :: source[k] != '>'
    ensures AngleScan(source, seams, i, done) == AngleScan(source, seams, upTo, done)
    decreases upTo - i
  {
    if i < upTo {
      SkipsOthers(source, seams, i + 1, upTo, done);
    }
  }
}
