/** Joining the texts around suppressed values and editing the seams. */
module Seam {
  import opened Bytes
  import opened Seqs
  import opened Patches
  import opened Tree
  import opened DelayedSpec

  // ----- edits

  datatype Edit =
    | TextEdit(start: nat, end: nat, replacement: string)
    | DashEdit(start: nat, end: nat)

  datatype TextPiece = TextPiece(start: nat, end: nat, text: string)

  /** What a run of hyphens turns into: five strike one through, pairs join. */
  function DashRun(n: nat): seq<Element> {
    if n == 2 then [Text([EM_DASH])]
    else Repeat(n / 5, Container(Strikethrough, [Text("-")], Attributes(0)))
         + Repeat(n % 5 / 2, Text([EM_DASH]))
         + (if n % 5 % 2 == 1 then [Text("-")] else [])
  }

  function Repeat(n: nat, e: Element): (r: seq<Element>)
    ensures forall k | 0 <= k < |r| :: r[k] == e
  {
    if n == 0 then [] else [e] + Repeat(n - 1, e)
  }

  /** The text of texts and of struck text, which is written with its markers. */
  function Plain(es: seq<Element>): string
    decreases es
  {
    if es == [] then "" else PlainOf(es[0]) + Plain(es[1..])
  }

  function PlainOf(e: Element): string
    decreases e
  {
    match e
    case Text(text) => text
    case Container(_, children, _) => "--" + Plain(children) + "--"
    case _ => ""
  }

  lemma {:induction false} PlainAppend(a: seq<Element>, b: seq<Element>)
    ensures Plain(a + b) == Plain(a) + Plain(b)
  {
    if a == [] {
      assert a + b == b;
    } else {
      assert (a + b)[1..] == a[1..] + b;
      PlainAppend(a[1..], b);
    }
  }

  function ReplacementOf(edit: Edit): seq<Element> {
    match edit
    case TextEdit(_, _, replacement) => [Text(replacement)]
    case DashEdit(start, end) => if start <= end then DashRun(end - start) else []
  }

  ghost function PatchesOf(edits: seq<Edit>): (r: seq<Patch>)
    ensures |r| == |edits|
  {
    if edits == [] then []
    else [Patch(edits[0].start, edits[0].end, Plain(ReplacementOf(edits[0])))] + PatchesOf(edits[1..])
  }

  /** Ordered, disjoint and inside the text. */
  ghost predicate Disjoint(edits: seq<Edit>, from: nat, size: nat) {
    InOrder(PatchesOf(edits), from, size)
  }

  /** The text from `from` on, with each edited range replaced. */
  ghost function Splice(source: string, from: nat, edits: seq<Edit>): string
    requires Disjoint(edits, from, |source|)
  {
    Patched(source, from, PatchesOf(edits))
  }

  lemma DisjointFirst(edits: seq<Edit>, from: nat, size: nat)
    requires edits != []
    ensures Disjoint(edits, from, size)
       <==> from <= edits[0].start <= edits[0].end && Disjoint(edits[1..], edits[0].end, size)
  {
    assert PatchesOf(edits)[1..] == PatchesOf(edits[1..]);
  }

  lemma EmptyDisjoint(from: nat, size: nat)
    ensures Disjoint([], from, size) <==> from <= size
  {
  }

  lemma NoEdits(source: string, from: nat)
    ensures Disjoint([], from, |source|) <==> from <= |source|
    ensures from <= |source| ==> Splice(source, from, []) == source[from..]
  {
  }

  lemma SpliceFirst(source: string, from: nat, edits: seq<Edit>)
    requires Disjoint(edits, from, |source|) && edits != []
    ensures from <= edits[0].start <= edits[0].end <= |source| && Disjoint(edits[1..], edits[0].end, |source|)
    ensures Splice(source, from, edits)
         == source[from..edits[0].start] + Plain(ReplacementOf(edits[0])) + Splice(source, edits[0].end, edits[1..])
  {
    DisjointFirst(edits, from, |source|);
    InOrderInside(PatchesOf(edits), from, |source|);
    assert PatchesOf(edits)[1..] == PatchesOf(edits[1..]);
  }

  /** Elements a flush may write: texts, and shells around text. */
  predicate IsTextual(es: seq<Element>) {
    forall k | 0 <= k < |es| ::
      es[k].Text? || (es[k].Container? && es[k].kind == Strikethrough && IsTexts(es[k].children))
  }

  predicate IsTexts(es: seq<Element>) {
    forall k | 0 <= k < |es| :: es[k].Text?
  }

  /** The marks of struck text, which only a dash run writes. */
  predicate IsStruck(bone: Bone) {
    (bone.Open? || bone.Close?) && bone.shell.ContainerShell? && bone.shell.kind == Strikethrough
  }

  predicate OnlyInk(bones: seq<Bone>) {
    forall k | 0 <= k < |bones| :: bones[k].Ink? || IsStruck(bones[k])
  }

  lemma {:induction false} TextsOnlyInk(es: seq<Element>)
    requires IsTexts(es)
    ensures OnlyInk(Bones(es))
  {
    if es != [] {
      assert forall k | 0 <= k < |es[1..]| :: es[1..][k] == es[k + 1];
      TextsOnlyInk(es[1..]);
    }
  }

  lemma {:induction false} TextualOnlyInk(es: seq<Element>)
    requires IsTextual(es)
    ensures OnlyInk(Bones(es))
  {
    if es != [] {
      assert forall k | 0 <= k < |es[1..]| :: es[1..][k] == es[k + 1];
      TextualOnlyInk(es[1..]);
      if es[0].Container? { TextsOnlyInk(es[0].children); }
    }
  }

  lemma DashRunTextual(n: nat)
    ensures IsTextual(DashRun(n))
  {
  }

  // ----- pieces

  /** The pieces tile the source, left to right. */
  ghost predicate Tiles(pieces: seq<TextPiece>, source: string) {
    && (forall k | 0 <= k < |pieces| ::
          pieces[k].start <= pieces[k].end <= |source| && pieces[k].text == source[pieces[k].start..pieces[k].end])
    && (forall k | 0 <= k < |pieces| - 1 :: pieces[k].end == pieces[k + 1].start)
    && (pieces != [] ==> pieces[0].start == 0 && pieces[|pieces| - 1].end == |source|)
    && (pieces == [] ==> source == "")
  }

  /** Every piece before `index` ends by `p`. */
  ghost predicate PiecesBefore(pieces: seq<TextPiece>, index: nat, p: nat) {
    index <= |pieces| && (index > 0 ==> pieces[index - 1].end <= p)
  }

  /** Everything from `start` up to `done` is written; piece `index` holds the
      next byte. */
  ghost predicate Written(pieces: seq<TextPiece>, source: string, start: nat, end: nat, index: nat, done: nat) {
    && index <= |pieces| && start <= done <= end <= |source|
    && (if index < |pieces| then done == Max(start, pieces[index].start) && done <= pieces[index].end else done == end)
    && PiecesBefore(pieces, index, end)
  }

  lemma StartWriting(pieces: seq<TextPiece>, source: string, start: nat, end: nat, index: nat)
    requires Tiles(pieces, source) && start <= end <= |source| && PiecesBefore(pieces, index, start)
    requires index < |pieces| ==> start < pieces[index].end
    ensures Written(pieces, source, start, end, index, start)
  {
    if 0 < index < |pieces| {
      assert pieces[index - 1].end == pieces[index - 1 + 1].start;
    }
  }

  lemma NextPiece(pieces: seq<TextPiece>, source: string, start: nat, end: nat, index: nat, done: nat)
    requires Tiles(pieces, source) && Written(pieces, source, start, end, index, done)
    requires index < |pieces| && pieces[index].end <= end
    ensures Written(pieces, source, start, end, index + 1, pieces[index].end)
  {
    if index + 1 < |pieces| {
      assert pieces[index].end == pieces[index + 1].start;
    }
  }

  function Max(a: nat, b: nat): nat { if a > b then a else b }

  function Min(a: nat, b: nat): nat { if a < b then a else b }

  /** The part of a piece inside the range. */
  function PieceInRange(piece: TextPiece, start: nat, end: nat): seq<Element>
    requires piece.start <= piece.end && |piece.text| == piece.end - piece.start
  {
    var from, to := Max(start, piece.start), Min(end, piece.end);
    if from < to then [Text(piece.text[from - piece.start..to - piece.start])] else []
  }

  lemma PlainSnoc(es: seq<Element>, text: string)
    ensures Plain(es + [Text(text)]) == Plain(es) + text
  {
    PlainAppend(es, [Text(text)]);
    assert Plain([Text(text)]) == text;
  }

  lemma WritePiece(pieces: seq<TextPiece>, source: string, start: nat, end: nat, index: nat, done: nat,
                   output: seq<Element>)
    requires Tiles(pieces, source) && Written(pieces, source, start, end, index, done)
    requires index < |pieces| && pieces[index].start < end
    requires Plain(output) == source[start..done]
    ensures start <= Min(end, pieces[index].end)
    ensures Plain(output + PieceInRange(pieces[index], start, end)) == source[start..Min(end, pieces[index].end)]
  {
    WriteRange(pieces[index], source, start, end, done, output);
  }

  lemma WriteRange(piece: TextPiece, source: string, start: nat, end: nat, done: nat, output: seq<Element>)
    requires piece.start <= piece.end <= |source| && piece.text == source[piece.start..piece.end]
    requires start <= done <= end && done == Max(start, piece.start) && done <= piece.end
    requires Plain(output) == source[start..done]
    ensures Plain(output + PieceInRange(piece, start, end)) == source[start..Min(end, piece.end)]
  {
    hide Plain;
    var to := Min(end, piece.end);
    if done < to {
      SliceOfSlice(source, piece.start, piece.end, done - piece.start, to - piece.start);
      assert PieceInRange(piece, start, end) == [Text(source[done..to])];
      WriteSlice(source, start, done, to, output);
    } else {
      assert output + [] == output;
    }
  }

  lemma WriteSlice(source: string, start: nat, done: nat, to: nat, output: seq<Element>)
    requires start <= done <= to <= |source| && Plain(output) == source[start..done]
    ensures Plain(output + [Text(source[done..to])]) == source[start..to]
  {
    hide Plain;
    Glue(source, start, done, to);
    PlainSnoc(output, source[done..to]);
  }

  lemma WritingDone(pieces: seq<TextPiece>, source: string, start: nat, end: nat, index: nat, done: nat)
    requires Tiles(pieces, source) && Written(pieces, source, start, end, index, done)
    requires index < |pieces| ==> end <= pieces[index].start
    ensures done == end && PiecesBefore(pieces, index, end)
  {
  }

  /** Texts as long as their ranges say. */
  predicate Fitting(pieces: seq<TextPiece>) {
    forall k | 0 <= k < |pieces| ::
      pieces[k].start <= pieces[k].end && |pieces[k].text| == pieces[k].end - pieces[k].start
  }

  /** The first piece from `index` on that ends past `start`. */
  function SkipPieces(pieces: seq<TextPiece>, start: nat, index: nat): nat
    decreases |pieces| - index
  {
    if index < |pieces| && pieces[index].end <= start then SkipPieces(pieces, start, index + 1) else index
  }

  /** Piece by piece what lies in the range, and the piece it stops in. */
  function EmitFrom(pieces: seq<TextPiece>, start: nat, end: nat, index: nat, output: seq<Element>)
    : (r: (seq<Element>, nat))
    requires Fitting(pieces)
    decreases |pieces| - index
  {
    if index >= |pieces| || pieces[index].start >= end then (output, index)
    else
      var next := output + PieceInRange(pieces[index], start, end);
      if end < pieces[index].end then (next, index) else EmitFrom(pieces, start, end, index + 1, next)
  }

  function EmitRange(pieces: seq<TextPiece>, start: nat, end: nat, index: nat): (seq<Element>, nat)
    requires Fitting(pieces)
  {
    EmitFrom(pieces, start, end, SkipPieces(pieces, start, index), [])
  }

  lemma TilesFit(pieces: seq<TextPiece>, source: string)
    requires Tiles(pieces, source)
    ensures Fitting(pieces)
  {
  }

  lemma PieceFits(pieces: seq<TextPiece>, index: nat)
    requires Fitting(pieces) && index < |pieces|
    ensures pieces[index].start <= pieces[index].end
    ensures |pieces[index].text| == pieces[index].end - pieces[index].start
  {
  }

  lemma {:induction false} SkipStaysBefore(pieces: seq<TextPiece>, start: nat, index: nat)
    requires PiecesBefore(pieces, index, start)
    ensures
      var r := SkipPieces(pieces, start, index);
      PiecesBefore(pieces, r, start) && (r < |pieces| ==> start < pieces[r].end)
    decreases |pieces| - index
  {
    if index < |pieces| && pieces[index].end <= start {
      SkipStaysBefore(pieces, start, index + 1);
    }
  }

  lemma {:induction false} EmitsTexts(pieces: seq<TextPiece>, start: nat, end: nat, index: nat, output: seq<Element>)
    requires Fitting(pieces) && IsTexts(output)
    ensures IsTexts(EmitFrom(pieces, start, end, index, output).0)
    decreases |pieces| - index
  {
    if index < |pieces| && pieces[index].start < end && pieces[index].end <= end {
      EmitsTexts(pieces, start, end, index + 1, output + PieceInRange(pieces[index], start, end));
    }
  }

  /** What is emitted reads as the source, and the next range can go on from
      there. */
  lemma {:induction false} EmitFromReads(pieces: seq<TextPiece>, source: string, start: nat, end: nat, index: nat,
                                         done: nat, output: seq<Element>)
    requires Tiles(pieces, source) && Fitting(pieces)
    requires Written(pieces, source, start, end, index, done) && Plain(output) == source[start..done]
    ensures
      var (text, next) := EmitFrom(pieces, start, end, index, output);
      Plain(text) == source[start..end] && PiecesBefore(pieces, next, end)
    decreases |pieces| - index
  {
    hide Plain, Written, Tiles, Fitting;
    WrittenBefore(pieces, source, start, end, index, done);
    if index >= |pieces| || pieces[index].start >= end {
      WritingDone(pieces, source, start, end, index, done);
    } else {
      var piece := pieces[index];
      PieceFits(pieces, index);
      var next := output + PieceInRange(piece, start, end);
      WritePiece(pieces, source, start, end, index, done, output);
      if piece.end <= end {
        NextPiece(pieces, source, start, end, index, done);
        EmitFromReads(pieces, source, start, end, index + 1, piece.end, next);
      }
    }
  }

  lemma EmitRangeReads(pieces: seq<TextPiece>, source: string, start: nat, end: nat, index: nat)
    requires Tiles(pieces, source) && Fitting(pieces)
    requires start <= end <= |source| && PiecesBefore(pieces, index, start)
    ensures
      var (text, next) := EmitRange(pieces, start, end, index);
      Plain(text) == source[start..end] && PiecesBefore(pieces, next, end)
  {
    hide Tiles, Plain, Written, Fitting, SkipPieces;
    var first := SkipPieces(pieces, start, index);
    SkipStaysBefore(pieces, start, index);
    StartWriting(pieces, source, start, end, first);
    NothingWritten(source, start);
    EmitFromReads(pieces, source, start, end, first, start, []);
  }

  /** Emits the source between `start` and `end` piece by piece, resuming where
      the previous emission stopped. */
  method EmitSourceRange(pieces: seq<TextPiece>, start: nat, end: nat, pieceIndex: nat, ghost source: string)
    returns (output: seq<Element>, pieceIndex': nat)
    requires Tiles(pieces, source) && Fitting(pieces)
    ensures (output, pieceIndex') == EmitRange(pieces, start, end, pieceIndex)
    ensures IsTexts(output)
    ensures start <= end <= |source| && PiecesBefore(pieces, pieceIndex, start) ==>
              Plain(output) == source[start..end] && PiecesBefore(pieces, pieceIndex', end)
  {
    hide Tiles, Plain, IsTexts, PiecesBefore;
    pieceIndex' := pieceIndex;
    while pieceIndex' < |pieces| && pieces[pieceIndex'].end <= start
      invariant SkipPieces(pieces, start, pieceIndex') == SkipPieces(pieces, start, pieceIndex)
      decreases |pieces| - pieceIndex'
    {
      pieceIndex' := pieceIndex' + 1;
    }
    output := [];
    while pieceIndex' < |pieces| && pieces[pieceIndex'].start < end
      invariant EmitFrom(pieces, start, end, pieceIndex', output) == EmitRange(pieces, start, end, pieceIndex)
      decreases |pieces| - pieceIndex'
    {
      var piece := pieces[pieceIndex'];
      output := output + PieceInRange(piece, start, end);
      if Min(end, piece.end) < piece.end {
        break;
      }
      pieceIndex' := pieceIndex' + 1;
    }
    NoTextsYet();
    EmitsTexts(pieces, start, end, SkipPieces(pieces, start, pieceIndex), []);
    if start <= end <= |source| && PiecesBefore(pieces, pieceIndex, start) {
      EmitRangeReads(pieces, source, start, end, pieceIndex);
    }
  }

  lemma NoTextsYet()
    ensures IsTexts([]) && IsTextual([])
  {
  }

  lemma NothingWritten(source: string, start: nat)
    requires start <= |source|
    ensures Plain([]) == source[start..start]
  {
  }

  lemma WrittenBefore(pieces: seq<TextPiece>, source: string, start: nat, end: nat, index: nat, done: nat)
    requires Written(pieces, source, start, end, index, done)
    ensures PiecesBefore(pieces, index, end) && start <= done <= end <= |source|
  {
  }

  // ----- which runs are edited

  /** `[a, b)` is a maximal run of `c`. */
  ghost predicate IsRun(s: string, c: char, a: nat, b: nat) {
    && a < b <= |s|
    && (forall k | a <= k < b :: s[k] == c)
    && (a == 0 || s[a - 1] != c)
    && (b == |s| || s[b] != c)
  }

  ghost predicate Crosses(seams: seq<nat>, a: nat, b: nat) {
    exists k :: 0 <= k < |seams| && a < seams[k] < b
  }

  /** Only the first seam past the start needs a look. */
  method RangeCrossesSeam(a: nat, b: nat, seams: seq<nat>) returns (crosses: bool)
    requires NonDecreasing(seams)
    ensures crosses == Crosses(seams, a, b)
  {
    var candidate := PartitionPoint(seams, a + 1);
    crosses := candidate < |seams| && seams[candidate] < b;
    if Crosses(seams, a, b) {
      ghost var k :| 0 <= k < |seams| && a < seams[k] < b;
      assert candidate <= k;
    }
  }

  function RFind(s: string, pat: string, upTo: nat): Option<nat> {
    if OccursAt(s, pat, upTo) then Some(upTo) else if upTo == 0 then None else RFind(s, pat, upTo - 1)
  }

  predicate EndsUrl(source: string, k: nat)
    requires k < |source|
  {
    var c := source[k];
    IsWhitespace(c) || c as int < 32 || 127 <= c as int <= 159
    || c == '"' || c == '\'' || c == '|' || c == '[' || c == ']'
    || OccursAt(source, ">@", k) || OccursAt(source, "@@", k)
  }

  function LatestScheme(head: string, schemes: seq<string>): Option<nat> {
    if schemes == [] then None
    else
      var here, later := RFind(head, schemes[0], |head|), LatestScheme(head, schemes[1..]);
      if here.None? then later else if later.None? then here else Some(Max(here.value, later.value))
  }

  /** A dash run directly inside a bare URL keeps its dashes. */
  predicate DashRunIsUrlOwned(source: string, runStart: nat)
    requires runStart <= |source|
  {
    var scheme := LatestScheme(source[..runStart], ["http://", "https://", "ftp://", "mailto:"]);
    scheme.Some? && forall k | scheme.value <= k < runStart :: !EndsUrl(source, k)
  }

  predicate LastElementIsUrlOwner(es: seq<Element>) {
    es != [] &&
    match es[|es| - 1]
    case Leaf(leaf) => leaf.UrlLink?
    case Text(text) => DashRunIsUrlOwned(text, |text|)
    case _ => false
  }

  ghost predicate DashEdited(source: string, seams: seq<nat>, byUrl: bool, a: nat, b: nat) {
    && IsRun(source, '-', a, b) && b - a >= 2 && Crosses(seams, a, b)
    && !DashRunIsUrlOwned(source, a) && !(a == 0 && byUrl)
  }

  ghost predicate SpaceEdited(source: string, seams: seq<nat>, a: nat, b: nat) {
    IsRun(source, ' ', a, b) && b - a >= 2 && Crosses(seams, a, b)
  }

  /** Ranges ending at or before `limit`, left to right and apart. */
  ghost predicate LeftToRight(edits: seq<Edit>, limit: nat) {
    && (forall k | 0 <= k < |edits| :: edits[k].start < edits[k].end <= limit)
    && (forall j, k | 0 <= j < k < |edits| :: edits[j].end <= edits[k].start)
  }

  /** The dash edits of the runs that start before `upTo`. */
  ghost predicate AreDashEdits(edits: seq<Edit>, source: string, seams: seq<nat>, byUrl: bool, upTo: nat) {
    && LeftToRight(edits, upTo)
    && (forall x | x in edits :: x.DashEdit? && DashEdited(source, seams, byUrl, x.start, x.end))
    && (forall a: nat, b: nat | DashEdited(source, seams, byUrl, a, b) && a < upTo :: DashEdit(a, b) in edits)
  }

  ghost predicate AreSpaceEdits(edits: seq<Edit>, source: string, seams: seq<nat>, upTo: nat) {
    && LeftToRight(edits, upTo)
    && (forall x | x in edits :: x == TextEdit(x.start, x.end, " ") && SpaceEdited(source, seams, x.start, x.end))
    && (forall a: nat, b: nat | SpaceEdited(source, seams, a, b) && a < upTo :: TextEdit(a, b, " ") in edits)
  }

  /** Where the run of `c` from `i` on ends. */
  function RunEndFrom(source: string, c: char, i: nat): (r: nat)
    requires i <= |source|
    ensures i <= r <= |source| && (i < |source| && source[i] == c ==> i < r)
    ensures forall k | i <= k < r :: source[k] == c
    ensures r < |source| ==> source[r] != c
    decreases |source| - i
  {
    if i < |source| && source[i] == c then RunEndFrom(source, c, i + 1) else i
  }

  method RunEnd(source: string, c: char, start: nat) returns (index: nat)
    requires start <= |source|
    ensures index == RunEndFrom(source, c, start)
  {
    index := start;
    while index < |source| && source[index] == c
      invariant index <= |source| && RunEndFrom(source, c, index) == RunEndFrom(source, c, start)
    {
      index := index + 1;
    }
  }

  lemma RunStartsHere(source: string, c: char, start: nat)
    requires start < |source| && source[start] == c && (start == 0 || source[start - 1] != c)
    ensures IsRun(source, c, start, RunEndFrom(source, c, start))
  {
  }

  /** No run of `c` is cut at `i`. */
  predicate BetweenRuns(source: string, c: char, i: nat) {
    i <= |source| && (i == 0 || i == |source| || source[i - 1] != c || source[i] != c)
  }

  lemma LaterRun(s: string, c: char, start: nat, index: nat)
    requires IsRun(s, c, start, index)
    ensures forall a: nat, b: nat | IsRun(s, c, a, b) && start <= a < index :: a == start && b == index
  {
  }

  lemma NoRunAt(s: string, c: char, index: nat)
    requires index < |s| && s[index] != c
    ensures forall a: nat, b: nat | IsRun(s, c, a, b) :: a != index
  {
  }

  lemma AddRight(edits: seq<Edit>, e: Edit, start: nat)
    requires LeftToRight(edits, start) && start == e.start < e.end
    ensures LeftToRight(edits + [e], e.end) && LeftToRight(edits, e.end)
  {
  }

  /** The run from `start` to `index` looked at. */
  lemma DashLookedAt(edits: seq<Edit>, source: string, seams: seq<nat>, byUrl: bool, start: nat, index: nat)
    requires AreDashEdits(edits, source, seams, byUrl, start) && IsRun(source, '-', start, index)
    ensures
      AreDashEdits(if DashEdited(source, seams, byUrl, start, index) then edits + [DashEdit(start, index)] else edits,
                   source, seams, byUrl, index)
  {
    hide IsRun, LeftToRight, Crosses, DashRunIsUrlOwned;
    LaterRun(source, '-', start, index);
    OrderedRun(source, '-', start, index);
    AddRight(edits, DashEdit(start, index), start);
  }

  lemma SpaceLookedAt(edits: seq<Edit>, source: string, seams: seq<nat>, start: nat, index: nat)
    requires AreSpaceEdits(edits, source, seams, start) && IsRun(source, ' ', start, index)
    ensures
      AreSpaceEdits(if SpaceEdited(source, seams, start, index) then edits + [TextEdit(start, index, " ")] else edits,
                    source, seams, index)
  {
    hide IsRun, LeftToRight, Crosses;
    LaterRun(source, ' ', start, index);
    OrderedRun(source, ' ', start, index);
    AddRight(edits, TextEdit(start, index, " "), start);
  }

  lemma OrderedRun(s: string, c: char, start: nat, index: nat)
    requires IsRun(s, c, start, index)
    ensures start < index <= |s|
  {
  }

  lemma NothingLookedAt(edits: seq<Edit>, source: string, seams: seq<nat>, byUrl: bool, index: nat)
    requires index < |source|
    ensures source[index] != '-' && AreDashEdits(edits, source, seams, byUrl, index) ==>
              AreDashEdits(edits, source, seams, byUrl, index + 1)
    ensures source[index] != ' ' && AreSpaceEdits(edits, source, seams, index) ==>
              AreSpaceEdits(edits, source, seams, index + 1)
  {
    hide IsRun, Crosses, DashRunIsUrlOwned;
    if source[index] != '-' { NoRunAt(source, '-', index); }
    if source[index] != ' ' { NoRunAt(source, ' ', index); }
  }

  ghost predicate DashCounts(source: string, seams: seq<nat>, byUrl: bool, a: nat, b: nat)
    requires a <= |source|
  {
    b - a >= 2 && Crosses(seams, a, b) && !DashRunIsUrlOwned(source, a) && !(a == 0 && byUrl)
  }

  /** The dash edits found from `i` on, after those done. */
  ghost function DashScan(source: string, seams: seq<nat>, byUrl: bool, i: nat, done: seq<Edit>): seq<Edit>
    requires i <= |source|
    decreases |source| - i
  {
    if i == |source| then done
    else if source[i] != '-' then DashScan(source, seams, byUrl, i + 1, done)
    else
      var end := RunEndFrom(source, '-', i);
      var found := if DashCounts(source, seams, byUrl, i, end) then [DashEdit(i, end)] else [];
      DashScan(source, seams, byUrl, end, done + found)
  }

  ghost function DashEdits(source: string, seams: seq<nat>, byUrl: bool): seq<Edit> {
    DashScan(source, seams, byUrl, 0, [])
  }

  lemma {:induction false} DashScanExact(source: string, seams: seq<nat>, byUrl: bool, i: nat, done: seq<Edit>)
    requires BetweenRuns(source, '-', i) && AreDashEdits(done, source, seams, byUrl, i)
    ensures AreDashEdits(DashScan(source, seams, byUrl, i, done), source, seams, byUrl, |source|)
    decreases |source| - i
  {
    hide AreDashEdits, Crosses, DashRunIsUrlOwned, IsRun;
    if i < |source| {
      if source[i] != '-' {
        NothingLookedAt(done, source, seams, byUrl, i);
        DashScanExact(source, seams, byUrl, i + 1, done);
      } else {
        var end := RunEndFrom(source, '-', i);
        RunStartsHere(source, '-', i);
        DashLookedAt(done, source, seams, byUrl, i, end);
        assert done + [] == done;
        DashScanExact(source, seams, byUrl, end,
                      done + if DashCounts(source, seams, byUrl, i, end) then [DashEdit(i, end)] else []);
      }
    }
  }

  /** The dash edits are exactly the maximal dash runs of two or more that cross
      a seam and belong to no URL. */
  lemma DashEditsExact(source: string, seams: seq<nat>, byUrl: bool)
    ensures AreDashEdits(DashEdits(source, seams, byUrl), source, seams, byUrl, |source|)
  {
    NoEditsYet(source, seams, byUrl);
    DashScanExact(source, seams, byUrl, 0, []);
  }

  method CollectDashEdits(source: string, seams: seq<nat>, precededByUrl: bool) returns (edits: seq<Edit>)
    requires NonDecreasing(seams)
    ensures edits == DashEdits(source, seams, precededByUrl)
    ensures AreDashEdits(edits, source, seams, precededByUrl, |source|)
  {
    hide AreDashEdits, Crosses, DashRunIsUrlOwned;
    edits := [];
    var index := 0;
    while index < |source|
      invariant index <= |source|
      invariant DashScan(source, seams, precededByUrl, index, edits) == DashEdits(source, seams, precededByUrl)
      decreases |source| - index
    {
      if source[index] != '-' {
        index := index + 1;
        continue;
      }
      var start := index;
      index := RunEnd(source, '-', start);
      var crosses := RangeCrossesSeam(start, index, seams);
      assert edits + [] == edits;
      if index - start >= 2 && crosses && !DashRunIsUrlOwned(source, start) && !(start == 0 && precededByUrl) {
        edits := edits + [DashEdit(start, index)];
      }
    }
    DashEditsExact(source, seams, precededByUrl);
  }

  lemma NoEditsYet(source: string, seams: seq<nat>, byUrl: bool)
    ensures AreDashEdits([], source, seams, byUrl, 0) && AreSpaceEdits([], source, seams, 0)
  {
  }

  ghost function SpaceScan(source: string, seams: seq<nat>, i: nat, done: seq<Edit>): seq<Edit>
    requires i <= |source|
    decreases |source| - i
  {
    if i == |source| then done
    else if source[i] != ' ' then SpaceScan(source, seams, i + 1, done)
    else
      var end := RunEndFrom(source, ' ', i);
      var found := if end - i >= 2 && Crosses(seams, i, end) then [TextEdit(i, end, " ")] else [];
      SpaceScan(source, seams, end, done + found)
  }

  ghost function SpaceEdits(source: string, seams: seq<nat>): seq<Edit> {
    SpaceScan(source, seams, 0, [])
  }

  lemma {:induction false} SpaceScanExact(source: string, seams: seq<nat>, i: nat, done: seq<Edit>)
    requires BetweenRuns(source, ' ', i) && AreSpaceEdits(done, source, seams, i)
    ensures AreSpaceEdits(SpaceScan(source, seams, i, done), source, seams, |source|)
    decreases |source| - i
  {
    hide AreSpaceEdits, Crosses, IsRun;
    if i < |source| {
      if source[i] != ' ' {
        NothingLookedAt(done, source, seams, false, i);
        SpaceScanExact(source, seams, i + 1, done);
      } else {
        var end := RunEndFrom(source, ' ', i);
        RunStartsHere(source, ' ', i);
        SpaceLookedAt(done, source, seams, i, end);
        assert done + [] == done;
        SpaceScanExact(source, seams, end,
                       done + if end - i >= 2 && Crosses(seams, i, end) then [TextEdit(i, end, " ")] else []);
      }
    }
  }

  /** The space edits are exactly the maximal space runs of two or more that
      cross a seam. */
  lemma SpaceEditsExact(source: string, seams: seq<nat>)
    ensures AreSpaceEdits(SpaceEdits(source, seams), source, seams, |source|)
  {
    NoEditsYet(source, seams, false);
    SpaceScanExact(source, seams, 0, []);
  }

  method CollectSpaceEdits(source: string, seams: seq<nat>) returns (edits: seq<Edit>)
    requires NonDecreasing(seams)
    ensures edits == SpaceEdits(source, seams)
    ensures AreSpaceEdits(edits, source, seams, |source|)
  {
    hide AreSpaceEdits, Crosses;
    edits := [];
    var index := 0;
    while index < |source|
      invariant index <= |source|
      invariant SpaceScan(source, seams, index, edits) == SpaceEdits(source, seams)
      decreases |source| - index
    {
      if source[index] != ' ' {
        index := index + 1;
        continue;
      }
      var start := index;
      index := RunEnd(source, ' ', start);
      var crosses := RangeCrossesSeam(start, index, seams);
      assert edits + [] == edits;
      if index - start >= 2 && crosses {
        edits := edits + [TextEdit(start, index, " ")];
      }
    }
    SpaceEditsExact(source, seams);
  }

  // ----- sorting the edits

  predicate Before(a: Edit, b: Edit) {
    a.start < b.start || (a.start == b.start && a.end <= b.end)
  }

  function Insert(e: Edit, sorted: seq<Edit>): seq<Edit> {
    if sorted == [] || Before(e, sorted[0]) then [e] + sorted else [sorted[0]] + Insert(e, sorted[1..])
  }

  function SortEdits(edits: seq<Edit>): seq<Edit> {
    if edits == [] then [] else Insert(edits[0], SortEdits(edits[1..]))
  }

  ghost predicate Apart(a: Edit, b: Edit) {
    a.end <= b.start || b.end <= a.start
  }

  /** Nonempty ranges inside the text, no two of them overlapping. */
  ghost predicate PairwiseApart(edits: seq<Edit>, size: nat) {
    && (forall k | 0 <= k < |edits| :: edits[k].start < edits[k].end <= size)
    && (forall j, k | 0 <= j < k < |edits| :: Apart(edits[j], edits[k]))
  }

  lemma {:induction false} InsertElements(e: Edit, sorted: seq<Edit>)
    ensures forall x :: x in Insert(e, sorted) <==> x == e || x in sorted
  {
    if sorted != [] && !Before(e, sorted[0]) {
      assert sorted == [sorted[0]] + sorted[1..];
      InsertElements(e, sorted[1..]);
    }
  }

  /** Sorting permutes: nothing is lost and nothing added. */
  lemma {:induction false} SortElements(edits: seq<Edit>)
    ensures forall x :: x in SortEdits(edits) <==> x in edits
  {
    if edits != [] {
      assert edits == [edits[0]] + edits[1..];
      SortElements(edits[1..]);
      InsertElements(edits[0], SortEdits(edits[1..]));
    }
  }

  lemma {:induction false} InsertDisjoint(e: Edit, sorted: seq<Edit>, from: nat, size: nat)
    requires Disjoint(sorted, from, size) && from <= e.start < e.end <= size
    requires forall x | x in sorted :: Apart(e, x) && x.start < x.end
    ensures Disjoint(Insert(e, sorted), from, size)
    decreases |sorted|
  {
    hide Disjoint;
    DisjointFirst(Insert(e, sorted), from, size);
    if sorted == [] {
      assert ([e] + sorted)[1..] == [];
      EmptyDisjoint(e.end, size);
    } else {
      DisjointFirst(sorted, from, size);
      DisjointFirst(sorted, e.end, size);
      var head, tail := sorted[0], sorted[1..];
      assert head in sorted;
      assert Apart(e, head);
      if Before(e, head) {
        assert ([e] + sorted)[1..] == sorted;
      } else {
        assert forall x | x in tail :: x in sorted;
        InsertDisjoint(e, tail, head.end, size);
        assert ([head] + Insert(e, tail))[1..] == Insert(e, tail);
      }
    }
  }

  lemma ApartTail(edits: seq<Edit>, size: nat)
    requires PairwiseApart(edits, size) && edits != []
    ensures PairwiseApart(edits[1..], size)
    ensures forall x | x in edits[1..] :: Apart(edits[0], x) && x.start < x.end
  {
    var rest := edits[1..];
    forall j, k | 0 <= j < k < |rest| ensures Apart(rest[j], rest[k]) {
      assert rest[j] == edits[j + 1] && rest[k] == edits[k + 1];
    }
    forall x | x in rest ensures Apart(edits[0], x) && x.start < x.end {
      var i :| 0 <= i < |rest| && rest[i] == x;
      assert edits[i + 1] == x;
    }
  }

  /** Ranges that do not overlap sort into a disjoint left-to-right list. */
  lemma {:induction false} SortDisjoint(edits: seq<Edit>, size: nat)
    requires PairwiseApart(edits, size)
    ensures Disjoint(SortEdits(edits), 0, size)
  {
    hide Disjoint;
    EmptyDisjoint(0, size);
    if edits != [] {
      ApartTail(edits, size);
      SortDisjoint(edits[1..], size);
      SortElements(edits[1..]);
      InsertDisjoint(edits[0], SortEdits(edits[1..]), 0, size);
    }
  }

  /** Dash and space runs never overlap, so without typographic edits the
      combined list is always fit for splicing. */
  lemma RunsApart(source: string, seams: seq<nat>, byUrl: bool, dashes: seq<Edit>, spaces: seq<Edit>)
    requires AreDashEdits(dashes, source, seams, byUrl, |source|)
    requires AreSpaceEdits(spaces, source, seams, |source|)
    ensures PairwiseApart(dashes + spaces, |source|)
  {
    hide IsRun, Crosses, DashRunIsUrlOwned;
    var all := dashes + spaces;
    forall j, k | 0 <= j < k < |all| ensures Apart(all[j], all[k]) {
      if j < |dashes| <= k {
        var d, s := dashes[j], spaces[k - |dashes|];
        assert d in dashes && s in spaces;
        UnlikeRunsApart(source, d.start, d.end, s.start, s.end);
      }
    }
  }

  lemma UnlikeRunsApart(s: string, a: nat, b: nat, c: nat, d: nat)
    requires IsRun(s, '-', a, b) && IsRun(s, ' ', c, d)
    ensures b <= c || d <= a
  {
    var p := Max(a, c);
    assert a <= p < b ==> s[p] == '-';
    assert c <= p < d ==> s[p] == ' ';
  }

  // ----- flushing a group

  /** A text, or a seam that is dropped. */
  datatype Grouped = Joined(text: string) | Dropped

  /** Typographic edits of the joined text, given its seams. */
  type SeamOracle = (string, seq<nat>, bool) -> seq<Edit>

  function JoinTexts(group: seq<Grouped>): string {
    if group == [] then ""
    else
      var n := |group| - 1;
      JoinTexts(group[..n]) + if group[n].Joined? then group[n].text else ""
  }

  /** Where the dropped seams stood in the joined text. */
  function SeamsOf(group: seq<Grouped>): seq<nat> {
    if group == [] then []
    else
      var n := |group| - 1;
      SeamsOf(group[..n]) + if group[n].Dropped? then [|JoinTexts(group[..n])|] else []
  }

  function TextsOf(pieces: seq<TextPiece>): (r: seq<Element>)
    ensures IsTexts(r)
  {
    seq(|pieces|, k requires 0 <= k < |pieces| => Text(pieces[k].text))
  }

  function Dedup(seams: seq<nat>): seq<nat> {
    if |seams| <= 1 then seams
    else if seams[0] == seams[1] then Dedup(seams[1..])
    else [seams[0]] + Dedup(seams[1..])
  }

  lemma {:induction false} DedupKeeps(seams: seq<nat>)
    requires NonDecreasing(seams)
    ensures forall x :: x in Dedup(seams) <==> x in seams
    ensures NonDecreasing(Dedup(seams))
  {
    if |seams| > 1 {
      var rest := seams[1..];
      HeadAndRest(seams);
      DedupKeeps(rest);
      LeastInFront(seams[0], Dedup(rest));
    }
  }

  lemma HeadAndRest(s: seq<nat>)
    requires NonDecreasing(s) && s != []
    ensures NonDecreasing(s[1..]) && (forall x :: x in s <==> x == s[0] || x in s[1..])
    ensures forall x | x in s :: s[0] <= x
    ensures |s| > 1 ==> s[1] in s[1..]
  {
    assert s == [s[0]] + s[1..];
  }

  lemma LeastInFront(least: nat, s: seq<nat>)
    requires NonDecreasing(s) && forall x | x in s :: least <= x
    ensures NonDecreasing([least] + s)
  {
    assert forall k | 0 <= k < |s| :: s[k] in s;
  }

  /** `x` is one of the edits a group calls for. */
  ghost predicate IsSeamEdit(x: Edit, source: string, seams: seq<nat>, typographic: seq<Edit>, byUrl: bool) {
    || x in typographic
    || (x.DashEdit? && DashEdited(source, seams, byUrl, x.start, x.end))
    || (x == TextEdit(x.start, x.end, " ") && SpaceEdited(source, seams, x.start, x.end))
  }

  /** All edits of the joined text, in the order they are collected. */
  ghost function AllEdits(source: string, seams: seq<nat>, typographic: seq<Edit>, byUrl: bool): seq<Edit> {
    typographic + DashEdits(source, seams, byUrl) + SpaceEdits(source, seams)
  }

  /** The edits called for, each and no other. */
  lemma EditsExact(source: string, seams: seq<nat>, typographic: seq<Edit>, byUrl: bool)
    ensures forall x :: x in SortEdits(AllEdits(source, seams, typographic, byUrl)) <==>
                        IsSeamEdit(x, source, seams, typographic, byUrl)
  {
    hide AreDashEdits, AreSpaceEdits, IsSeamEdit, SortEdits;
    SortElements(AllEdits(source, seams, typographic, byUrl));
    DashEditsExact(source, seams, byUrl);
    SpaceEditsExact(source, seams);
    EditsTogether(source, seams, typographic, byUrl, DashEdits(source, seams, byUrl), SpaceEdits(source, seams));
  }

  /** Without typographic edits the list is always fit for splicing. */
  lemma PlainEditsApart(source: string, seams: seq<nat>, byUrl: bool)
    ensures PairwiseApart(AllEdits(source, seams, [], byUrl), |source|)
  {
    hide PairwiseApart, AreDashEdits, AreSpaceEdits;
    var dashes, spaces := DashEdits(source, seams, byUrl), SpaceEdits(source, seams);
    DashEditsExact(source, seams, byUrl);
    SpaceEditsExact(source, seams);
    RunsApart(source, seams, byUrl, dashes, spaces);
    assert [] + dashes + spaces == dashes + spaces;
  }

  /** All edits of the joined text, sorted. */
  method SeamEdits(source: string, seams: seq<nat>, typographic: seq<Edit>, byUrl: bool) returns (edits: seq<Edit>)
    requires NonDecreasing(seams)
    ensures edits == SortEdits(AllEdits(source, seams, typographic, byUrl))
  {
    hide AreDashEdits, AreSpaceEdits, SortEdits;
    var dashes := CollectDashEdits(source, seams, byUrl);
    var spaces := CollectSpaceEdits(source, seams);
    edits := SortEdits(typographic + dashes + spaces);
  }

  lemma EditsTogether(source: string, seams: seq<nat>, typographic: seq<Edit>, byUrl: bool, dashes: seq<Edit>,
                      spaces: seq<Edit>)
    requires AreDashEdits(dashes, source, seams, byUrl, |source|)
    requires AreSpaceEdits(spaces, source, seams, |source|)
    ensures forall x :: x in typographic + dashes + spaces <==> IsSeamEdit(x, source, seams, typographic, byUrl)
  {
    hide LeftToRight, Crosses, DashRunIsUrlOwned;
    forall x ensures x in typographic + dashes + spaces <==> IsSeamEdit(x, source, seams, typographic, byUrl) {
      assert x in typographic + dashes + spaces <==> x in typographic || x in dashes || x in spaces;
    }
  }

  lemma TilesSnoc(pieces: seq<TextPiece>, source: string, text: string)
    requires Tiles(pieces, source) && Plain(TextsOf(pieces)) == source
    ensures var up := pieces + [TextPiece(|source|, |source + text|, text)];
            Tiles(up, source + text) && Plain(TextsOf(up)) == source + text
  {
    hide Plain;
    var up := pieces + [TextPiece(|source|, |source + text|, text)];
    TilesMore(pieces, source, text, up);
    assert TextsOf(up) == TextsOf(pieces) + [Text(text)];
    PlainSnoc(TextsOf(pieces), text);
  }

  lemma TilesMore(pieces: seq<TextPiece>, source: string, text: string, up: seq<TextPiece>)
    requires Tiles(pieces, source) && up == pieces + [TextPiece(|source|, |source + text|, text)]
    ensures Tiles(up, source + text)
  {
    var n := |pieces|;
    forall k | 0 <= k < |up|
      ensures up[k].start <= up[k].end <= |source + text|
      ensures up[k].text == (source + text)[up[k].start..up[k].end]
    {
      if k < n {
        assert up[k] == pieces[k];
        SliceOfPrefix(source, text, up[k].start, up[k].end);
      } else {
        TailOfSum(source, text);
      }
    }
    forall k | 0 <= k < n ensures up[k].end == up[k + 1].start {
      assert up[k] == pieces[k];
      if k + 1 < n { assert up[k + 1] == pieces[k + 1]; }
    }
    if n > 0 { assert up[0] == pieces[0]; }
  }

  lemma TailOfSum(s: string, t: string)
    ensures (s + t)[|s|..|s + t|] == t
  {
  }

  lemma SliceOfPrefix(s: string, t: string, a: nat, b: nat)
    requires a <= b <= |s|
    ensures (s + t)[a..b] == s[a..b]
  {
  }

  lemma JoinStep(group: seq<Grouped>, i: nat)
    requires i < |group|
    ensures JoinTexts(group[..i + 1]) == JoinTexts(group[..i]) + if group[i].Joined? then group[i].text else ""
    ensures SeamsOf(group[..i + 1]) == SeamsOf(group[..i]) + if group[i].Dropped? then [|JoinTexts(group[..i])|] else []
  {
    assert group[..i + 1][..i] == group[..i];
  }

  lemma NoPieces()
    ensures Tiles([], "") && Plain(TextsOf([])) == ""
  {
  }

  ghost predicate AllDropped(group: seq<Grouped>, upTo: nat)
    requires upTo <= |group|
  {
    forall k | 0 <= k < upTo :: group[k].Dropped?
  }

  /** The texts of a group with their places in the joined text. */
  function PiecesOf(group: seq<Grouped>): seq<TextPiece> {
    if group == [] then []
    else
      var n := |group| - 1;
      var before := JoinTexts(group[..n]);
      PiecesOf(group[..n])
      + if group[n].Joined? then [TextPiece(|before|, |before + group[n].text|, group[n].text)] else []
  }

  lemma PiecesStep(group: seq<Grouped>, i: nat)
    requires i < |group|
    ensures
      var before := JoinTexts(group[..i]);
      PiecesOf(group[..i + 1])
      == PiecesOf(group[..i])
         + if group[i].Joined? then [TextPiece(|before|, |before + group[i].text|, group[i].text)] else []
  {
    assert group[..i + 1][..i] == group[..i];
  }

  lemma {:induction false} PiecesTile(group: seq<Grouped>)
    ensures Tiles(PiecesOf(group), JoinTexts(group)) && Plain(TextsOf(PiecesOf(group))) == JoinTexts(group)
    ensures PiecesOf(group) == [] <==> AllDropped(group, |group|)
  {
    hide Tiles, Plain, TextsOf, PiecesOf, JoinTexts, AllDropped;
    NothingJoined(group);
    NoPieces();
    if group == [] {
      assert group[..0] == group;
      DroppedStep(group, 0);
    } else {
      var n := |group| - 1;
      PiecesTile(group[..n]);
      JoinStep(group, n);
      PiecesStep(group, n);
      DroppedStep(group, |group|);
      assert group[..n + 1] == group;
      if group[n].Joined? {
        TilesSnoc(PiecesOf(group[..n]), JoinTexts(group[..n]), group[n].text);
      } else {
        assert JoinTexts(group[..n]) + "" == JoinTexts(group[..n]);
        assert PiecesOf(group[..n]) + [] == PiecesOf(group[..n]);
      }
    }
  }

  lemma DroppedStep(group: seq<Grouped>, n: nat)
    requires n <= |group|
    ensures n == 0 ==> AllDropped(group, n)
    ensures n > 0 ==> (AllDropped(group, n) <==> AllDropped(group[..n - 1], n - 1) && group[n - 1].Dropped?)
  {
    if n > 0 {
      assert forall k | 0 <= k < n - 1 :: group[..n - 1][k] == group[k];
    }
  }

  lemma {:induction false} SeamsInOrder(group: seq<Grouped>)
    ensures NonDecreasing(SeamsOf(group))
    ensures forall k | 0 <= k < |SeamsOf(group)| :: SeamsOf(group)[k] <= |JoinTexts(group)|
  {
    if group != [] {
      var n := |group| - 1;
      SeamsInOrder(group[..n]);
      NonDecreasingSnoc(SeamsOf(group[..n]), |JoinTexts(group[..n])|);
    }
  }

  /** Joins the texts of a group, remembering the pieces and the seams. */
  method JoinGroup(group: seq<Grouped>) returns (source: string, pieces: seq<TextPiece>, seams: seq<nat>)
    ensures source == JoinTexts(group) && pieces == PiecesOf(group)
    ensures NonDecreasing(seams) && seams == Dedup(SeamsOf(group))
  {
    hide JoinTexts, SeamsOf, PiecesOf, NonDecreasing;
    source, pieces, seams := "", [], [];
    NothingJoined(group);
    for i := 0 to |group|
      invariant source == JoinTexts(group[..i]) && seams == SeamsOf(group[..i]) && pieces == PiecesOf(group[..i])
    {
      JoinStep(group, i);
      PiecesStep(group, i);
      if group[i].Dropped? {
        seams := seams + [|source|];
      } else {
        pieces := pieces + [TextPiece(|source|, |source + group[i].text|, group[i].text)];
        source := source + group[i].text;
      }
    }
    assert group[..|group|] == group;
    SeamsInOrder(group);
    DedupKeeps(seams);
    seams := Dedup(seams);
  }

  lemma NothingJoined(group: seq<Grouped>)
    ensures JoinTexts(group[..0]) == "" && SeamsOf(group[..0]) == [] && PiecesOf(group[..0]) == []
  {
  }

  lemma SpliceStep(source: string, cursor: nat, edits: seq<Edit>, written: string, whole: string)
    requires Disjoint(edits, cursor, |source|) && edits != []
    requires written + Splice(source, cursor, edits) == whole
    ensures edits[0].start <= |source| && Disjoint(edits[1..], edits[0].end, |source|)
    ensures written + source[cursor..edits[0].start] + Plain(ReplacementOf(edits[0]))
            + Splice(source, edits[0].end, edits[1..]) == whole
  {
    hide Disjoint, Splice, Plain;
    SpliceFirst(source, cursor, edits);
    RegroupFour(written, source[cursor..edits[0].start], Plain(ReplacementOf(edits[0])),
                Splice(source, edits[0].end, edits[1..]));
  }

  /** The joined text with every edited range replaced, behind what is emitted. */
  function EmitAll(pieces: seq<TextPiece>, edits: seq<Edit>, size: nat, cursor: nat, index: nat, emitted: seq<Element>)
    : seq<Element>
    requires Fitting(pieces)
    decreases |edits|
  {
    if edits == [] then emitted + EmitRange(pieces, cursor, size, index).0
    else
      var (gap, next) := EmitRange(pieces, cursor, edits[0].start, index);
      EmitAll(pieces, edits[1..], size, edits[0].end, next, emitted + gap + ReplacementOf(edits[0]))
  }

  lemma {:induction false} EmitAllTextual(pieces: seq<TextPiece>, edits: seq<Edit>, size: nat, cursor: nat, index: nat,
                                          emitted: seq<Element>)
    requires Fitting(pieces) && IsTextual(emitted)
    ensures IsTextual(EmitAll(pieces, edits, size, cursor, index, emitted))
    decreases |edits|
  {
    hide ReplacementOf, EmitFrom, SkipPieces;
    NoTextsYet();
    if edits == [] {
      EmitsTexts(pieces, cursor, size, SkipPieces(pieces, cursor, index), []);
    } else {
      var (gap, next) := EmitRange(pieces, cursor, edits[0].start, index);
      EmitsTexts(pieces, cursor, edits[0].start, SkipPieces(pieces, cursor, index), []);
      ReplacementTextual(edits[0]);
      EmitAllTextual(pieces, edits[1..], size, edits[0].end, next, emitted + gap + ReplacementOf(edits[0]));
    }
  }

  /** For disjoint edits the output reads as the spliced text. */
  lemma {:induction false} EmitAllReads(pieces: seq<TextPiece>, source: string, edits: seq<Edit>, cursor: nat,
                                        index: nat, emitted: seq<Element>)
    requires Tiles(pieces, source) && Fitting(pieces)
    requires Disjoint(edits, cursor, |source|) && PiecesBefore(pieces, index, cursor)
    ensures Plain(EmitAll(pieces, edits, |source|, cursor, index, emitted))
         == Plain(emitted) + Splice(source, cursor, edits)
    decreases |edits|
  {
    hide Tiles, Plain, Splice, Disjoint, Fitting, EmitRange, ReplacementOf;
    if edits == [] {
      EmitEnd(source, cursor);
      EmitRangeReads(pieces, source, cursor, |source|, index);
      PlainAppend(emitted, EmitRange(pieces, cursor, |source|, index).0);
    } else {
      var edit := edits[0];
      var (gap, next) := EmitRange(pieces, cursor, edit.start, index);
      SpliceFirst(source, cursor, edits);
      SpliceStep(source, cursor, edits, Plain(emitted), Plain(emitted) + Splice(source, cursor, edits));
      EmitRangeReads(pieces, source, cursor, edit.start, index);
      PiecesBeforeLater(pieces, next, edit.start, edit.end);
      PlainAppend(emitted, gap);
      PlainAppend(emitted + gap, ReplacementOf(edit));
      EmitAllReads(pieces, source, edits[1..], edit.end, next, emitted + gap + ReplacementOf(edit));
    }
  }

  lemma PiecesBeforeLater(pieces: seq<TextPiece>, index: nat, p: nat, q: nat)
    requires PiecesBefore(pieces, index, p) && p <= q
    ensures PiecesBefore(pieces, index, q)
  {
  }

  /** Emits the joined text with every edited range replaced. */
  method EmitEdits(pieces: seq<TextPiece>, edits: seq<Edit>, source: string) returns (emitted: seq<Element>)
    requires Tiles(pieces, source) && Fitting(pieces)
    ensures emitted == EmitAll(pieces, edits, |source|, 0, 0, [])
    ensures IsTextual(emitted)
    ensures Disjoint(edits, 0, |source|) ==> Plain(emitted) == Splice(source, 0, edits)
  {
    hide Tiles, Plain, Splice, Disjoint, Fitting, EmitRange, ReplacementOf, IsTextual, IsTexts;
    emitted := [];
    var cursor, pieceIndex := 0, 0;
    assert edits[0..] == edits;
    for i := 0 to |edits|
      invariant EmitAll(pieces, edits[i..], |source|, cursor, pieceIndex, emitted)
             == EmitAll(pieces, edits, |source|, 0, 0, [])
    {
      var edit := edits[i];
      assert edits[i..][0] == edit && edits[i..][1..] == edits[i + 1..];
      var gap;
      gap, pieceIndex := EmitSourceRange(pieces, cursor, edit.start, pieceIndex, source);
      emitted := emitted + gap + ReplacementOf(edit);
      cursor := edit.end;
    }
    assert edits[|edits|..] == [];
    var tail;
    tail, pieceIndex := EmitSourceRange(pieces, cursor, |source|, pieceIndex, source);
    emitted := emitted + tail;
    NoTextsYet();
    EmitAllTextual(pieces, edits, |source|, 0, 0, []);
    if Disjoint(edits, 0, |source|) {
      EmitAllReads(pieces, source, edits, 0, 0, []);
      NothingWritten(source, 0);
      assert "" + Splice(source, 0, edits) == Splice(source, 0, edits);
    }
  }

  lemma EmitEnd(source: string, cursor: nat)
    requires Disjoint([], cursor, |source|)
    ensures cursor <= |source| && Splice(source, cursor, []) == source[cursor..|source|]
  {
    NoEdits(source, cursor);
  }

  lemma ReplacementTextual(edit: Edit)
    ensures IsTextual(ReplacementOf(edit))
  {
    if edit.DashEdit? && edit.start <= edit.end { DashRunTextual(edit.end - edit.start); }
  }

  predicate HasSeam(group: seq<Grouped>) {
    exists k :: 0 <= k < |group| && group[k].Dropped?
  }

  /** A group that vanishes: seams and no text. */
  predicate IsSeamOnly(group: seq<Grouped>) {
    group != [] && forall k | 0 <= k < |group| :: group[k].Dropped?
  }

  function TextsIn(group: seq<Grouped>): seq<Element> {
    seq(|group|, k requires 0 <= k < |group| => if group[k].Joined? then Text(group[k].text) else LineBreak)
  }

  /** The edits a flush of `group` makes. */
  ghost function GroupEdits(group: seq<Grouped>, byUrl: bool, typography: bool, oracle: SeamOracle): seq<Edit> {
    var source, seams := JoinTexts(group), Dedup(SeamsOf(group));
    AllEdits(source, seams, oracle(source, seams, typography), byUrl)
  }

  /** What a flush of `group` writes. */
  ghost function FlushedGroup(group: seq<Grouped>, byUrl: bool, typography: bool, oracle: SeamOracle): seq<Element> {
    if !HasSeam(group) then TextsIn(group)
    else
      var pieces, edits := PiecesOf(group), SortEdits(GroupEdits(group, byUrl, typography, oracle));
      PiecesTile(group);
      TilesFit(pieces, JoinTexts(group));
      if pieces == [] || edits == [] then TextsOf(pieces)
      else EmitAll(pieces, edits, |JoinTexts(group)|, 0, 0, [])
  }

  lemma FlushedTextual(group: seq<Grouped>, byUrl: bool, typography: bool, oracle: SeamOracle)
    ensures IsTextual(FlushedGroup(group, byUrl, typography, oracle))
    ensures IsSeamOnly(group) ==> FlushedGroup(group, byUrl, typography, oracle) == []
  {
    hide EmitAll, GroupEdits, SortEdits, JoinTexts, Plain, Tiles, Fitting;
    PiecesTile(group);
    TilesFit(PiecesOf(group), JoinTexts(group));
    NoTextsYet();
    EmitAllTextual(PiecesOf(group), SortEdits(GroupEdits(group, byUrl, typography, oracle)), |JoinTexts(group)|, 0, 0,
                   []);
  }

  /** A flush emits the joined text with each edited range replaced, for edits
      that do not overlap. */
  lemma FlushedSplices(group: seq<Grouped>, byUrl: bool, typography: bool, oracle: SeamOracle)
    requires HasSeam(group) && PiecesOf(group) != []
    requires PairwiseApart(GroupEdits(group, byUrl, typography, oracle), |JoinTexts(group)|)
    ensures
      var edits := SortEdits(GroupEdits(group, byUrl, typography, oracle));
      && Disjoint(edits, 0, |JoinTexts(group)|)
      && Plain(FlushedGroup(group, byUrl, typography, oracle)) == Splice(JoinTexts(group), 0, edits)
  {
    hide Plain, Splice, Disjoint, Tiles, Fitting, GroupEdits, SortEdits, JoinTexts, PairwiseApart, EmitAll, TextsOf;
    var source, edits := JoinTexts(group), SortEdits(GroupEdits(group, byUrl, typography, oracle));
    SortDisjoint(GroupEdits(group, byUrl, typography, oracle), |source|);
    PiecesTile(group);
    TilesFit(PiecesOf(group), source);
    if edits == [] {
      NoEdits(source, 0);
      assert source[0..] == source;
    } else {
      NothingWritten(source, 0);
      EmitAllReads(PiecesOf(group), source, edits, 0, 0, []);
    }
  }

  /** Rewrites a run of texts and dropped seams. A group without seams is kept
      as it is; a group of seams alone disappears and is reported. */
  method FlushGroup(group: seq<Grouped>, output: seq<Element>, typography: bool, oracle: SeamOracle)
    returns (output': seq<Element>, suppressionOnly: bool)
    ensures output' == output + FlushedGroup(group, LastElementIsUrlOwner(output), typography, oracle)
    ensures suppressionOnly <==> IsSeamOnly(group)
    ensures
      var edits := GroupEdits(group, LastElementIsUrlOwner(output), typography, oracle);
      HasSeam(group) && !IsSeamOnly(group) && PairwiseApart(edits, |JoinTexts(group)|) ==>
        && Disjoint(SortEdits(edits), 0, |JoinTexts(group)|)
        && Plain(output') == Plain(output) + Splice(JoinTexts(group), 0, SortEdits(edits))
  {
    hide Tiles, Plain, JoinTexts, SeamsOf, Dedup, PiecesOf, TextsOf, LastElementIsUrlOwner, Disjoint, Splice, SortEdits,
         AllEdits, EmitAll, Fitting, PairwiseApart;
    output', suppressionOnly := output, false;
    var byUrl := LastElementIsUrlOwner(output);
    FlushText(group, byUrl, typography, oracle, output);
    if group == [] {
      assert output + [] == output;
      return;
    }
    if !HasSeam(group) {
      assert group[0].Joined?;
      output' := output + TextsIn(group);
      return;
    }
    var source, pieces, seams := JoinGroup(group);
    PiecesTile(group);
    TilesFit(pieces, source);
    if pieces == [] {
      FlushedTextual(group, byUrl, typography, oracle);
      suppressionOnly := true;
      return;
    }
    var edits := SeamEdits(source, seams, oracle(source, seams, typography), byUrl);
    if edits == [] {
      output' := output + TextsOf(pieces);
      return;
    }
    var written := EmitEdits(pieces, edits, source);
    output' := output + written;
  }

  lemma FlushText(group: seq<Grouped>, byUrl: bool, typography: bool, oracle: SeamOracle, output: seq<Element>)
    ensures
      var edits := GroupEdits(group, byUrl, typography, oracle);
      HasSeam(group) && !IsSeamOnly(group) && PairwiseApart(edits, |JoinTexts(group)|) ==>
        && Disjoint(SortEdits(edits), 0, |JoinTexts(group)|)
        && Plain(output + FlushedGroup(group, byUrl, typography, oracle))
           == Plain(output) + Splice(JoinTexts(group), 0, SortEdits(edits))
  {
    hide Tiles, Plain, JoinTexts, FlushedGroup, Disjoint, Splice, SortEdits, GroupEdits, PairwiseApart;
    PiecesTile(group);
    PlainAppend(output, FlushedGroup(group, byUrl, typography, oracle));
    if HasSeam(group) && !IsSeamOnly(group)
       && PairwiseApart(GroupEdits(group, byUrl, typography, oracle), |JoinTexts(group)|) {
      FlushedSplices(group, byUrl, typography, oracle);
    }
  }
}
