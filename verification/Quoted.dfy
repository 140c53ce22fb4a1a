/** Include blocks inside quotes: the quote prefixes are taken off before the
    block is parsed, and offsets are mapped back afterwards. */
module Quoted {
  import opened Bytes
  import opened Seqs

  datatype IncludeRef = IncludeRef(page: string, variables: map<string, string>)

  /** The block parser, run on a text from an offset. */
  type BlockParser = (string, nat) -> Option<(IncludeRef, nat)>

  /** A parsed block ends after its start and inside the text. */
  ghost predicate Progresses(parse: BlockParser) {
    forall text: string, start: nat | start <= |text| && parse(text, start).Some? ::
      start < parse(text, start).value.1 <= |text|
  }

  // ----- quote prefixes

  predicate IsHorizontalSpace(c: char) {
    c == ' ' || c == '\t'
  }

  function SpaceEnd(line: string, offset: nat): (r: nat)
    requires offset <= |line|
    ensures offset <= r <= |line|
    ensures forall k | offset <= k < r :: IsHorizontalSpace(line[k])
    ensures r < |line| ==> !IsHorizontalSpace(line[r])
    decreases |line| - offset
  {
    if offset < |line| && IsHorizontalSpace(line[offset]) then SpaceEnd(line, offset + 1) else offset
  }

  method SkipHorizontalSpace(line: string, offset: nat) returns (r: nat)
    requires offset <= |line|
    ensures r == SpaceEnd(line, offset)
  {
    r := offset;
    while r < |line| && IsHorizontalSpace(line[r])
      invariant offset <= r <= |line| && SpaceEnd(line, r) == SpaceEnd(line, offset)
    {
      r := r + 1;
    }
  }

  function StripFrom(line: string, depth: nat, offset: nat): (r: Option<nat>)
    requires offset <= |line|
    ensures r.Some? ==> offset <= r.value <= |line|
    decreases depth
  {
    if depth == 0 then Some(offset)
    else if offset < |line| && line[offset] == '>' then StripFrom(line, depth - 1, SpaceEnd(line, offset + 1))
    else None
  }

  /** Where the content of a line quoted at least `depth` deep begins. */
  function Stripped(line: string, depth: nat): (r: Option<nat>)
    ensures r.Some? ==> r.value <= |line|
  {
    StripFrom(line, depth, SpaceEnd(line, 0))
  }

  method StripQuotePrefix(line: string, quoteDepth: nat) returns (r: Option<nat>)
    ensures r == Stripped(line, quoteDepth)
  {
    var offset: nat := SkipHorizontalSpace(line, 0);
    for done := 0 to quoteDepth
      invariant offset <= |line| && StripFrom(line, quoteDepth - done, offset) == Stripped(line, quoteDepth)
    {
      if offset >= |line| || line[offset] != '>' {
        return None;
      }
      offset := SkipHorizontalSpace(line, offset + 1);
    }
    return Some(offset);
  }

  predicate IsQuoting(text: string) {
    forall k | 0 <= k < |text| :: IsHorizontalSpace(text[k]) || text[k] == '>'
  }

  function Carets(text: string): nat {
    if text == "" then 0 else Carets(text[..|text| - 1]) + if text[|text| - 1] == '>' then 1 else 0
  }

  lemma {:induction false} CaretsInSpace(text: string, lo: nat, hi: nat)
    requires lo <= hi <= |text| && forall k | lo <= k < hi :: text[k] != '>'
    ensures Carets(text[..hi]) == Carets(text[..lo])
    decreases hi
  {
    if lo < hi {
      assert text[..hi][..hi - 1] == text[..hi - 1];
      CaretsInSpace(text, lo, hi - 1);
    }
  }

  /** `offset` is behind exactly `done` carets and all the blanks around them. */
  ghost predicate StrippedTo(line: string, offset: nat, done: nat) {
    && offset <= |line| && IsQuoting(line[..offset]) && Carets(line[..offset]) == done
    && (offset < |line| ==> !IsHorizontalSpace(line[offset]))
  }

  /** The quoting run ends before it holds `depth` carets. */
  ghost predicate QuotedLess(line: string, depth: nat) {
    exists q: nat, done: nat | done < depth :: StrippedTo(line, q, done) && (q < |line| ==> line[q] != '>')
  }

  lemma {:induction false} StripMeaning(line: string, depth: nat, offset: nat, done: nat)
    requires StrippedTo(line, offset, done)
    ensures
      var r := StripFrom(line, depth, offset);
      if r.Some? then StrippedTo(line, r.value, done + depth) else QuotedLess(line, done + depth)
    decreases depth
  {
    hide IsQuoting, Carets;
    if depth > 0 && offset < |line| && line[offset] == '>' {
      var next := SpaceEnd(line, offset + 1);
      CaretAdded(line, offset, next);
      StripMeaning(line, depth - 1, next, done + 1);
    }
  }

  /** A caret and the blanks after it keep a run quoting. */
  lemma CaretAdded(line: string, offset: nat, next: nat)
    requires offset < next <= |line| && line[offset] == '>' && IsQuoting(line[..offset])
    requires forall k | offset < k < next :: IsHorizontalSpace(line[k])
    ensures IsQuoting(line[..next]) && Carets(line[..next]) == Carets(line[..offset]) + 1
  {
    assert line[..offset + 1][..offset] == line[..offset];
    CaretsInSpace(line, offset + 1, next);
    assert forall k | 0 <= k < next :: k < offset ==> line[k] == line[..offset][k];
  }

  /** A line is stripped exactly when its quoting run holds enough carets: of
      `depth` carets and the blanks around them. */
  lemma StrippedMeaning(line: string, depth: nat)
    ensures
      var r := Stripped(line, depth);
      if r.Some? then StrippedTo(line, r.value, depth) else QuotedLess(line, depth)
  {
    var offset := SpaceEnd(line, 0);
    CaretsInSpace(line, 0, offset);
    StripMeaning(line, depth, offset, 0);
  }

  // ----- offsets

  datatype OffsetSegment = OffsetSegment(normalizedStart: nat, normalizedEnd: nat, originalStart: nat)

  /** Segments tile the normalised text from `at` on; each reads the same in the
      input, further and further on. */
  ghost predicate Tiles(input: string, normalized: string, segments: seq<OffsetSegment>, at: nat, from: nat) {
    if segments == [] then at == |normalized|
    else
      var s := segments[0];
      && s.normalizedStart == at <= s.normalizedEnd <= |normalized|
      && from <= s.originalStart && OriginalEnd(s) <= |input|
      && normalized[at..s.normalizedEnd] == input[s.originalStart..OriginalEnd(s)]
      && Tiles(input, normalized, segments[1..], s.normalizedEnd, OriginalEnd(s))
  }

  function OriginalEnd(s: OffsetSegment): int {
    s.originalStart + s.normalizedEnd - s.normalizedStart
  }

  function OriginalOffset(segments: seq<OffsetSegment>, normalized: nat): Option<nat> {
    if segments == [] then None
    else if segments[0].normalizedStart < normalized <= segments[0].normalizedEnd
    then Some(segments[0].originalStart + normalized - segments[0].normalizedStart)
    else OriginalOffset(segments[1..], normalized)
  }

  /** Every offset past the start has an original, after the same byte. */
  lemma {:induction false} OffsetTotal(input: string, normalized: string, segments: seq<OffsetSegment>, at: nat,
                                       from: nat, n: nat)
    requires Tiles(input, normalized, segments, at, from) && at < n <= |normalized|
    ensures
      var original := OriginalOffset(segments, n);
      original.Some? && from < original.value <= |input| && input[original.value - 1] == normalized[n - 1]
    decreases |segments|
  {
    var s := segments[0];
    if n <= s.normalizedEnd {
      assert normalized[at..s.normalizedEnd][n - 1 - at] == normalized[n - 1];
      assert input[s.originalStart..OriginalEnd(s)][n - 1 - at] == input[s.originalStart + n - 1 - at];
    } else {
      OffsetTotal(input, normalized, segments[1..], s.normalizedEnd, OriginalEnd(s), n);
    }
  }

  lemma {:induction false} OffsetIncreasing(input: string, normalized: string, segments: seq<OffsetSegment>, at: nat,
                                            from: nat, m: nat, n: nat)
    requires Tiles(input, normalized, segments, at, from) && at < m < n <= |normalized|
    ensures OriginalOffset(segments, m).Some? && OriginalOffset(segments, n).Some?
    ensures OriginalOffset(segments, m).value < OriginalOffset(segments, n).value
    decreases |segments|
  {
    var s := segments[0];
    if s.normalizedEnd < m {
      OffsetIncreasing(input, normalized, segments[1..], s.normalizedEnd, OriginalEnd(s), m, n);
    } else if s.normalizedEnd < n {
      OffsetTotal(input, normalized, segments[1..], s.normalizedEnd, OriginalEnd(s), n);
    }
  }

  /** Nothing before the first byte or past the last has an original. */
  lemma {:induction false} OffsetPartial(input: string, normalized: string, segments: seq<OffsetSegment>, at: nat,
                                         from: nat, n: nat)
    requires Tiles(input, normalized, segments, at, from) && (n <= at || n > |normalized|)
    ensures OriginalOffset(segments, n).None?
    decreases |segments|
  {
    if segments != [] {
      OffsetPartial(input, normalized, segments[1..], segments[0].normalizedEnd, OriginalEnd(segments[0]), n);
    }
  }

  function OriginalReach(segments: seq<OffsetSegment>, from: nat): int {
    if segments == [] then from else OriginalEnd(segments[|segments| - 1])
  }

  lemma {:induction false} TilesSnoc(input: string, normalized: string, segments: seq<OffsetSegment>, at: nat,
                                     from: nat,
                                     content: string, original: nat)
    requires Tiles(input, normalized, segments, at, from) && at <= |normalized|
    requires OriginalReach(segments, from) <= original && original + |content| <= |input|
    requires content == input[original..original + |content|]
    ensures
      var longer := normalized + content;
      Tiles(input, longer, segments + [OffsetSegment(|normalized|, |longer|, original)], at, from)
    decreases |segments|
  {
    var longer := normalized + content;
    var last := OffsetSegment(|normalized|, |longer|, original);
    if segments == [] {
      assert ([last])[1..] == [] && longer[at..] == content;
    } else {
      var s, rest := segments[0], segments[1..];
      assert (segments + [last])[1..] == rest + [last];
      assert longer[at..s.normalizedEnd] == normalized[at..s.normalizedEnd];
      TilesSnoc(input, normalized, rest, s.normalizedEnd, OriginalEnd(s), content, original);
    }
  }

  // ----- the normalised block

  /** The end of the line that holds `from`, its line break included. */
  function NextLine(input: string, from: nat): (r: nat)
    requires from < |input|
    ensures from < r <= |input|
    ensures forall k | from <= k < r - 1 :: input[k] != '\n'
    ensures r == |input| || input[r - 1] == '\n'
    decreases |input| - from
  {
    if input[from] == '\n' || from + 1 == |input| then from + 1 else NextLine(input, from + 1)
  }

  /** Contents of the quoted lines from `at` on, as far as they stay quoted and
      until a line reaches the bound. */
  ghost function QuotedLines(input: string, at: nat, quoteDepth: nat, endBound: nat): string
    requires at <= |input|
    decreases |input| - at
  {
    if at >= endBound || at == |input| then ""
    else
      var end := NextLine(input, at);
      var offset := Stripped(input[at..end], quoteDepth);
      if offset.None? then ""
      else input[at..end][offset.value..] + QuotedLines(input, end, quoteDepth, endBound)
  }

  /** The block as it would stand unquoted: from the marker on. */
  ghost function Normalized(input: string, lineStart: nat, markerStart: nat, quoteDepth: nat, endBound: nat): string
    requires lineStart <= markerStart < |input|
    requires forall k | lineStart <= k < markerStart :: input[k] != '\n'
  {
    var end := NextLine(input, lineStart);
    FirstLineHoldsMarker(input, lineStart, markerStart);
    input[markerStart..end] + QuotedLines(input, end, quoteDepth, endBound)
  }

  /** A line with the break that ends it, if any. */
  ghost predicate IsLine(input: string, start: nat, end: nat) {
    && start < end <= |input| && (end == |input| || input[end - 1] == '\n')
    && forall k | start <= k < end - 1 :: input[k] != '\n'
  }

  /** `content` is what stands on the line behind `depth` carets. */
  ghost predicate IsContent(input: string, start: nat, end: nat, depth: nat, content: string)
    requires start <= end <= |input|
  {
    exists offset: nat :: StrippedTo(input[start..end], offset, depth) && content == input[start..end][offset..]
  }

  /** Lines one after another, each quoted deep enough and begun before the bound,
      up to the first that is not. */
  ghost predicate AreQuotedLines(input: string, depth: nat, bound: nat, cuts: seq<nat>, contents: seq<string>) {
    && |cuts| == |contents| + 1
    && (forall k | 0 <= k < |contents| ::
          && cuts[k] < bound && IsLine(input, cuts[k], cuts[k + 1])
          && IsContent(input, cuts[k], cuts[k + 1], depth, contents[k]))
    && var last := cuts[|contents|];
       last <= |input|
       && (|| last >= bound || last == |input|
           || exists end: nat :: IsLine(input, last, end) && QuotedLess(input[last..end], depth))
  }

  /** Every line of the quoted region is there, and nothing else. */
  lemma {:induction false} QuotedLinesAre(input: string, at: nat, quoteDepth: nat, endBound: nat)
    returns (cuts: seq<nat>, contents: seq<string>)
    requires at <= |input|
    ensures AreQuotedLines(input, quoteDepth, endBound, cuts, contents) && cuts[0] == at
    ensures QuotedLines(input, at, quoteDepth, endBound) == Flatten(contents)
    decreases |input| - at
  {
    hide StrippedTo, QuotedLess, Stripped, StripFrom;
    cuts, contents := [at], [];
    if at < endBound && at < |input| {
      var end := NextLine(input, at);
      StrippedMeaning(input[at..end], quoteDepth);
      assert IsLine(input, at, end);
      var offset := Stripped(input[at..end], quoteDepth);
      if offset.Some? {
        var moreCuts, more := QuotedLinesAre(input, end, quoteDepth, endBound);
        var content := input[at..end][offset.value..];
        assert IsContent(input, at, end, quoteDepth, content);
        cuts, contents := [at] + moreCuts, [content] + more;
        FlattenCons(content, more);
        LineInFront(input, quoteDepth, endBound, at, moreCuts, content, more);
      }
    }
  }

  lemma LineInFront(input: string, depth: nat, bound: nat, at: nat, cuts: seq<nat>, content: string,
                    contents: seq<string>)
    requires AreQuotedLines(input, depth, bound, cuts, contents) && at < bound && IsLine(input, at, cuts[0])
    requires IsContent(input, at, cuts[0], depth, content)
    ensures AreQuotedLines(input, depth, bound, [at] + cuts, [content] + contents)
  {
    hide IsLine, IsContent, QuotedLess;
    var c, t := [at] + cuts, [content] + contents;
    forall k | 0 < k < |t| ensures c[k] == cuts[k - 1] && c[k + 1] == cuts[k] && t[k] == contents[k - 1] {
    }
  }

  /** Where the quoted lines from `at` on came from; `start` bytes stand before
      them. */
  ghost function LineSegments(input: string, at: nat, quoteDepth: nat, endBound: nat, start: nat): seq<OffsetSegment>
    requires at <= |input|
    decreases |input| - at
  {
    if at >= endBound || at == |input| then []
    else
      var end := NextLine(input, at);
      var offset := Stripped(input[at..end], quoteDepth);
      if offset.None? then []
      else
        var stop := start + (end - at - offset.value);
        [OffsetSegment(start, stop, at + offset.value)] + LineSegments(input, end, quoteDepth, endBound, stop)
  }

  /** Where the block's lines came from. */
  ghost function BlockSegments(input: string, lineStart: nat, markerStart: nat, quoteDepth: nat, endBound: nat)
    : seq<OffsetSegment>
    requires lineStart <= markerStart < |input|
    requires forall k | lineStart <= k < markerStart :: input[k] != '\n'
  {
    var end := NextLine(input, lineStart);
    FirstLineHoldsMarker(input, lineStart, markerStart);
    [OffsetSegment(0, end - markerStart, markerStart)]
    + LineSegments(input, end, quoteDepth, endBound, end - markerStart)
  }

  /** Where the block parsed from its lines up to the bound ends in the input. */
  ghost function EndWithin(input: string, lineStart: nat, markerStart: nat, quoteDepth: nat, endBound: nat,
                           parse: BlockParser): Option<nat>
    requires lineStart <= markerStart < |input|
    requires forall k | lineStart <= k < markerStart :: input[k] != '\n'
  {
    match parse(Normalized(input, lineStart, markerStart, quoteDepth, endBound), 0)
    case None => None
    case Some((_, end)) => OriginalOffset(BlockSegments(input, lineStart, markerStart, quoteDepth, endBound), end)
  }

  /** The end of a quoted block: read up to its first terminator, and failing that
      over the whole quoted region. */
  ghost function QuotedEnd(input: string, lineStart: nat, markerStart: nat, quoteDepth: nat, candidateEnd: nat,
                           parse: BlockParser): Option<nat>
    requires lineStart <= markerStart < |input|
    requires forall k | lineStart <= k < markerStart :: input[k] != '\n'
  {
    var first := EndWithin(input, lineStart, markerStart, quoteDepth, candidateEnd, parse);
    if first.Some? then first else EndWithin(input, lineStart, markerStart, quoteDepth, |input|, parse)
  }

  lemma FirstLineHoldsMarker(input: string, lineStart: nat, markerStart: nat)
    requires lineStart <= markerStart < |input|
    requires forall k | lineStart <= k < markerStart :: input[k] != '\n'
    ensures markerStart < NextLine(input, lineStart)
  {
  }

  /** The quoted lines of a block without their prefixes, and where each came
      from. */
  method CollectLines(input: string, lineStart: nat, markerStart: nat, quoteDepth: nat, endBound: nat)
    returns (normalized: string, segments: seq<OffsetSegment>)
    requires lineStart <= markerStart < |input|
    requires forall k | lineStart <= k < markerStart :: input[k] != '\n'
    ensures normalized == Normalized(input, lineStart, markerStart, quoteDepth, endBound)
    ensures segments == BlockSegments(input, lineStart, markerStart, quoteDepth, endBound)
    ensures Tiles(input, normalized, segments, 0, markerStart)
  {
    hide *;
    ghost var text := Normalized(input, lineStart, markerStart, quoteDepth, endBound);
    ghost var all := BlockSegments(input, lineStart, markerStart, quoteDepth, endBound);
    FirstLineHoldsMarker(input, lineStart, markerStart);
    FirstLine(input, lineStart, markerStart, quoteDepth, endBound);
    var at: nat := NextLine(input, lineStart);
    normalized := input[markerStart..at];
    segments := [OffsetSegment(0, |normalized|, markerStart)];
    FirstTile(input, markerStart, at);
    while at < endBound && at < |input|
      invariant at <= |input| && Tiles(input, normalized, segments, 0, markerStart)
      invariant OriginalReach(segments, markerStart) <= at
      invariant text == normalized + QuotedLines(input, at, quoteDepth, endBound)
      invariant all == segments + LineSegments(input, at, quoteDepth, endBound, |normalized|)
      decreases |input| - at
    {
      var end := NextLine(input, at);
      var line := input[at..end];
      LineRead(input, at, quoteDepth, endBound, |normalized|);
      var contentOffset := StripQuotePrefix(line, quoteDepth);
      if contentOffset.None? {
        Unextended(normalized, segments);
        return;
      }
      var content := line[contentOffset.value..];
      var next := OffsetSegment(|normalized|, |normalized + content|, at + contentOffset.value);
      LineAdded(input, normalized, segments, markerStart, at, end, contentOffset.value);
      Regroup(normalized, content, QuotedLines(input, end, quoteDepth, endBound));
      Regroup(segments, [next], LineSegments(input, end, quoteDepth, endBound, |normalized + content|));
      segments := segments + [next];
      normalized := normalized + content;
      at := end;
    }
    NothingQuoted(input, at, quoteDepth, endBound, |normalized|);
    Unextended(normalized, segments);
  }

  lemma Unextended(normalized: string, segments: seq<OffsetSegment>)
    ensures normalized + "" == normalized && segments + [] == segments
  {
  }

  lemma FirstLine(input: string, lineStart: nat, markerStart: nat, quoteDepth: nat, endBound: nat)
    requires lineStart <= markerStart < |input|
    requires forall k | lineStart <= k < markerStart :: input[k] != '\n'
    ensures
      var at := NextLine(input, lineStart);
      && markerStart < at
      && Normalized(input, lineStart, markerStart, quoteDepth, endBound)
      == input[markerStart..at] + QuotedLines(input, at, quoteDepth, endBound)
      && BlockSegments(input, lineStart, markerStart, quoteDepth, endBound)
      == [OffsetSegment(0, at - markerStart, markerStart)]
         + LineSegments(input, at, quoteDepth, endBound, at - markerStart)
  {
    hide NextLine, QuotedLines, LineSegments;
    FirstLineHoldsMarker(input, lineStart, markerStart);
  }

  lemma NothingQuoted(input: string, at: nat, quoteDepth: nat, endBound: nat, start: nat)
    requires at <= |input| && (at >= endBound || at == |input|)
    ensures QuotedLines(input, at, quoteDepth, endBound) == ""
    ensures LineSegments(input, at, quoteDepth, endBound, start) == []
  {
  }

  lemma {:induction false} LineText(input: string, at: nat, quoteDepth: nat, endBound: nat)
    requires at < endBound && at < |input|
    ensures
      var end := NextLine(input, at);
      var offset := Stripped(input[at..end], quoteDepth);
      QuotedLines(input, at, quoteDepth, endBound)
      == if offset.None? then "" else input[at..end][offset.value..] + QuotedLines(input, end, quoteDepth, endBound)
  {
    hide Stripped, NextLine;
  }

  lemma {:induction false} LineSegment(input: string, at: nat, quoteDepth: nat, endBound: nat, start: nat)
    requires at < endBound && at < |input|
    ensures
      var end := NextLine(input, at);
      var offset := Stripped(input[at..end], quoteDepth);
      LineSegments(input, at, quoteDepth, endBound, start) == if offset.None? then []
      else
        var stop := start + (end - at - offset.value);
        [OffsetSegment(start, stop, at + offset.value)] + LineSegments(input, end, quoteDepth, endBound, stop)
  {
    hide Stripped, NextLine;
  }

  /** One quoted line, read: its content comes first. */
  lemma LineRead(input: string, at: nat, quoteDepth: nat, endBound: nat, start: nat)
    requires at < endBound && at < |input|
    ensures
      var end := NextLine(input, at);
      var offset := Stripped(input[at..end], quoteDepth);
      if offset.None? then
        QuotedLines(input, at, quoteDepth, endBound) == "" && LineSegments(input, at, quoteDepth, endBound, start) == []
      else
        var content := input[at..end][offset.value..];
        && QuotedLines(input, at, quoteDepth, endBound) == content + QuotedLines(input, end, quoteDepth, endBound)
        && LineSegments(input, at, quoteDepth, endBound, start)
        == [OffsetSegment(start, start + |content|, at + offset.value)]
           + LineSegments(input, end, quoteDepth, endBound, start + |content|)
  {
    hide *;
    LineText(input, at, quoteDepth, endBound);
    LineSegment(input, at, quoteDepth, endBound, start);
  }

  lemma LineAdded(input: string, normalized: string, segments: seq<OffsetSegment>, from: nat, at: nat, end: nat,
                  offset: nat)
    requires at <= end <= |input| && offset <= end - at
    requires Tiles(input, normalized, segments, 0, from) && OriginalReach(segments, from) <= at
    ensures
      var content := input[at..end][offset..];
      var longer := segments + [OffsetSegment(|normalized|, |normalized + content|, at + offset)];
      Tiles(input, normalized + content, longer, 0, from) && OriginalReach(longer, from) <= end
  {
    hide Tiles;
    SliceTail(input, at, end, offset);
    TilesSnoc(input, normalized, segments, 0, from, input[at..end][offset..], at + offset);
  }

  /** Strips the quote from a block's lines, parses what is left, and maps its
      end back. */
  method NormalizeAndParse(input: string, lineStart: nat, markerStart: nat, quoteDepth: nat, endBound: nat,
                           parse: BlockParser)
    returns (r: Option<nat>)
    requires lineStart <= markerStart < |input|
    requires forall k | lineStart <= k < markerStart :: input[k] != '\n'
    requires Progresses(parse)
    ensures r == EndWithin(input, lineStart, markerStart, quoteDepth, endBound, parse)
    ensures
      var text := Normalized(input, lineStart, markerStart, quoteDepth, endBound);
      && (r.Some? <==> parse(text, 0).Some?)
      && (r.Some? ==> markerStart < r.value <= |input| && input[r.value - 1] == text[parse(text, 0).value.1 - 1])
  {
    hide Tiles, OriginalOffset, Normalized, BlockSegments;
    var normalized, segments := CollectLines(input, lineStart, markerStart, quoteDepth, endBound);
    var parsed := parse(normalized, 0);
    if parsed.None? {
      return None;
    }
    OffsetTotal(input, normalized, segments, 0, markerStart, parsed.value.1);
    return OriginalOffset(segments, parsed.value.1);
  }

  lemma SliceTail(s: string, at: nat, end: nat, offset: nat)
    requires at <= end <= |s| && offset <= end - at
    ensures at + offset + |s[at..end][offset..]| == end
    ensures s[at..end][offset..] == s[at + offset..at + offset + |s[at..end][offset..]|]
  {
    var x, y := s[at..end][offset..], s[at + offset..end];
    assert |x| == |y| && forall k | 0 <= k < |x| :: x[k] == s[at + offset + k] == y[k];
  }

  lemma FirstTile(input: string, markerStart: nat, end: nat)
    requires markerStart <= end <= |input|
    ensures Tiles(input, input[markerStart..end], [OffsetSegment(0, end - markerStart, markerStart)], 0, markerStart)
    ensures OriginalReach([OffsetSegment(0, end - markerStart, markerStart)], markerStart) == end
  {
    var segments := [OffsetSegment(0, end - markerStart, markerStart)];
    assert segments[1..] == [];
    assert input[markerStart..end][0..end - markerStart] == input[markerStart..end];
  }

  /** Parses a quoted block up to its first terminator, and failing that over
      the whole quoted region. */
  method ParseQuotedInclude(input: string, lineStart: nat, markerStart: nat, quoteDepth: nat, candidateEnd: nat,
                            parse: BlockParser)
    returns (r: Option<nat>)
    requires lineStart <= markerStart < |input|
    requires forall k | lineStart <= k < markerStart :: input[k] != '\n'
    requires Progresses(parse)
    ensures r == QuotedEnd(input, lineStart, markerStart, quoteDepth, candidateEnd, parse)
    ensures r.Some? ==> markerStart < r.value <= |input|
  {
    hide EndWithin;
    var end := NormalizeAndParse(input, lineStart, markerStart, quoteDepth, candidateEnd, parse);
    if end.Some? {
      return end;
    }
    var whole := NormalizeAndParse(input, lineStart, markerStart, quoteDepth, |input|, parse);
    return whole;
  }
}
