/** Include blocks: the scan that finds them, and their replacement in the
    text. */
module Includes {
  import opened Bytes
  import opened Patches
  import opened Variables
  import opened Quoted

  /** The opener search, run from an offset: start and end of the match. */
  type OpenerFinder = nat -> Option<(nat, nat)>

  /** Where the marker stands in a match, after its quote prefix. */
  function MarkerStart(input: string, start: nat, end: nat): Option<nat>
    requires start <= end <= |input|
  {
    match Find(input[start..end], "[[", 0)
    case None => None
    case Some(offset) => Some(start + offset)
  }

  /** A match lies at or after the search position and holds an opener behind
      nothing but quote marks and blanks. */
  ghost predicate FindsOpeners(input: string, find: OpenerFinder) {
    forall p: nat | p <= |input| && find(p).Some? :: IsOpener(input, p, find(p).value.0, find(p).value.1)
  }

  ghost predicate IsOpener(input: string, from: nat, start: nat, end: nat) {
    && from <= start < end <= |input|
    && MarkerStart(input, start, end).Some?
    && forall k | start <= k < MarkerStart(input, start, end).value ::
         k < |input| && (IsHorizontalSpace(input[k]) || input[k] == '>')
  }

  // ----- terminators

  /** `]]` at the end of the text or of a line. */
  predicate IsTerminator(input: string, p: nat) {
    && p + 2 <= |input| && input[p] == ']' && input[p + 1] == ']'
    && (p + 2 == |input| || OccursAt(input, "\n", p + 2) || OccursAt(input, "\r\n", p + 2))
  }

  /** The end of the first terminator from `start` on, within the bound. */
  ghost predicate IsIncludeEnd(input: string, start: nat, bound: nat, r: Option<nat>) {
    match r
    case Some(end) =>
      && start + 2 <= end <= bound && IsTerminator(input, end - 2)
      && forall p | start <= p < end - 2 :: !IsTerminator(input, p)
    case None => forall p | start <= p && p + 2 <= bound :: !IsTerminator(input, p)
  }

  method FindIncludeEnd(input: string, start: nat, endBound: nat) returns (r: Option<nat>)
    requires endBound <= |input|
    ensures IsIncludeEnd(input, start, endBound, r)
  {
    var index := start;
    while index + 2 <= endBound
      invariant start <= index
      invariant forall p | start <= p < index :: !IsTerminator(input, p)
    {
      var end := index + 2;
      if input[index] == ']' && input[index + 1] == ']'
         && (end == |input| || OccursAt(input, "\n", end) || OccursAt(input, "\r\n", end)) {
        return Some(end);
      }
      index := index + 1;
    }
    return None;
  }

  lemma IncludeEndIsUnique(input: string, start: nat, bound: nat, a: Option<nat>, b: Option<nat>)
    requires IsIncludeEnd(input, start, bound, a) && IsIncludeEnd(input, start, bound, b)
    ensures a == b
  {
    assert a.Some? ==> IsTerminator(input, a.value - 2);
    assert b.Some? ==> IsTerminator(input, b.value - 2);
  }

  // ----- the scan

  /** One turn of the scan, begun at `from`: a block to replace, a quoted block
      to drop, or an opener given up. The next turn begins at `end`. */
  datatype Step =
    | Taken(from: nat, start: nat, end: nat, block: IncludeRef)
    | Consumed(from: nat, start: nat, end: nat)
    | Rejected(from: nat, start: nat, end: nat)

  datatype Range = Range(start: nat, end: nat)

  /** Where a quoted block ends, if it parses. */
  ghost function QuotedBlockEnd(input: string, start: nat, marker: nat, candidateEnd: nat,
                                parse: BlockParser)
    : Option<nat>
    requires start <= marker < |input| && forall k | start <= k < marker :: input[k] != '\n'
  {
    QuotedEnd(input, start, marker, Carets(input[start..marker]), candidateEnd, parse)
  }

  /** Why a step was taken: what the opener search and the block parser said. */
  ghost predicate Justified(input: string, find: OpenerFinder, parse: BlockParser, step: Step)
    requires FindsOpeners(input, find)
  {
    && step.from <= |input| && find(step.from).Some? && find(step.from).value.0 == step.start
    && assert IsOpener(input, step.from, step.start, find(step.from).value.1);
       var matchEnd := find(step.from).value.1;
       var marker := MarkerStart(input, step.start, matchEnd).value;
       exists candidateEnd: nat ::
         && IsIncludeEnd(input, matchEnd, |input|, Some(candidateEnd))
         && if marker == step.start then
              && !step.Consumed?
              && (step.Taken? <==> parse(input, step.start).Some?)
              && (step.Taken? ==> parse(input, step.start) == Some((step.block, step.end)))
              && (step.Rejected? ==> step.end == candidateEnd)
            else
              && !step.Taken?
              && (step.Consumed? <==> QuotedBlockEnd(input, step.start, marker, candidateEnd, parse).Some?)
              && (step.Consumed? ==> QuotedBlockEnd(input, step.start, marker, candidateEnd, parse) == Some(step.end))
              && (step.Rejected? ==> step.end == candidateEnd)
  }

  /** Steps one after another, from the start of the text. */
  ghost predicate IsTrace(input: string, find: OpenerFinder, parse: BlockParser, trace: seq<Step>)
    requires FindsOpeners(input, find)
  {
    trace == [] ||
    var init, last := trace[..|trace| - 1], trace[|trace| - 1];
    && IsTrace(input, find, parse, init)
    && Reached(init) == last.from <= last.start < last.end <= |input|
    && Justified(input, find, parse, last)
  }

  function Reached(trace: seq<Step>): nat {
    if trace == [] then 0 else trace[|trace| - 1].end
  }

  /** No opener is left, or the one left has no terminator. */
  ghost predicate Exhausted(input: string, find: OpenerFinder, at: nat) {
    at <= |input| && (find(at).Some? ==> IsIncludeEnd(input, find(at).value.1, |input|, None))
  }

  function TakenRanges(trace: seq<Step>): seq<Range> {
    if trace == [] then []
    else
      var last := trace[|trace| - 1];
      TakenRanges(trace[..|trace| - 1]) + if last.Taken? then [Range(last.start, last.end)] else []
  }

  function TakenBlocks(trace: seq<Step>): (r: seq<IncludeRef>)
    ensures |r| == |TakenRanges(trace)|
  {
    if trace == [] then []
    else
      var last := trace[|trace| - 1];
      TakenBlocks(trace[..|trace| - 1]) + if last.Taken? then [last.block] else []
  }

  function ConsumedRanges(trace: seq<Step>): seq<Range> {
    if trace == [] then []
    else
      var last := trace[|trace| - 1];
      ConsumedRanges(trace[..|trace| - 1]) + if last.Consumed? then [Range(last.start, last.end)] else []
  }

  /** One turn: what becomes of the opener found, or none if it has no
      terminator. */
  method ScanOpener(input: string, find: OpenerFinder, parse: BlockParser, from: nat) returns (step: Option<Step>)
    requires FindsOpeners(input, find) && Progresses(parse)
    requires from <= |input| && find(from).Some?
    ensures step.Some? ==> step.value.from == from <= step.value.start < step.value.end <= |input|
    ensures step.Some? ==> Justified(input, find, parse, step.value)
    ensures step.None? ==> IsIncludeEnd(input, find(from).value.1, |input|, None)
  {
    hide Justified, IsIncludeEnd, QuotedEnd;
    var (start, matchEnd) := find(from).value;
    assert IsOpener(input, from, start, matchEnd);
    var markerStart := start + Find(input[start..matchEnd], "[[", 0).value;
    var candidateEnd := FindIncludeEnd(input, matchEnd, |input|);
    if candidateEnd.None? {
      return None;
    }
    TerminatorInside(input, matchEnd, candidateEnd.value);
    var found;
    if markerStart == start {
      var parsed := parse(input, start);
      found :=
        if parsed.Some? then Taken(from, start, parsed.value.1, parsed.value.0)
        else Rejected(from, start, candidateEnd.value);
      PlainJustified(input, find, parse, found, candidateEnd.value);
    } else {
      var quoteDepth := CountCarets(input[start..markerStart]);
      var parsed := ParseQuotedInclude(input, start, markerStart, quoteDepth, candidateEnd.value, parse);
      found := if parsed.Some? then Consumed(from, start, parsed.value) else Rejected(from, start, candidateEnd.value);
      QuotedJustified(input, find, parse, found, candidateEnd.value);
    }
    return Some(found);
  }

  /** Scans the text for include blocks. The search position only moves forward,
      so the ranges found are in order and apart. */
  method ScanIncludes(input: string, find: OpenerFinder, parse: BlockParser)
    returns (ranges: seq<Range>, consumed: seq<Range>, blocks: seq<IncludeRef>, ghost trace: seq<Step>)
    requires FindsOpeners(input, find) && Progresses(parse)
    ensures IsTrace(input, find, parse, trace) && Exhausted(input, find, Reached(trace))
    ensures ranges == TakenRanges(trace) && blocks == TakenBlocks(trace) && consumed == ConsumedRanges(trace)
    ensures |ranges| == |blocks| && RangesApart(ranges, |input|) && RangesApart(consumed, |input|)
  {
    hide Justified, IsIncludeEnd, RangesApart;
    ranges, consumed, blocks, trace := [], [], [], [];
    var searchStart := 0;
    ghost var stuck := false;
    while find(searchStart).Some?
      invariant searchStart <= |input| && IsTrace(input, find, parse, trace)
      invariant if stuck then searchStart == |input| && Exhausted(input, find, Reached(trace))
                else searchStart == Reached(trace)
      invariant ranges == TakenRanges(trace) && blocks == TakenBlocks(trace) && consumed == ConsumedRanges(trace)
      decreases |input| - searchStart
    {
      assert IsOpener(input, searchStart, find(searchStart).value.0, find(searchStart).value.1);
      var step := ScanOpener(input, find, parse, searchStart);
      if step.None? {
        stuck := true;
        searchStart := |input|;
        continue;
      }
      match step.value {
        case Taken(_, start, end, block) =>
          ranges, blocks := ranges + [Range(start, end)], blocks + [block];
        case Consumed(_, start, end) =>
          consumed := consumed + [Range(start, end)];
        case Rejected(_, _, _) =>
      }
      assert (trace + [step.value])[..|trace|] == trace;
      trace := trace + [step.value];
      searchStart := step.value.end;
    }
    TraceRangesApart(input, find, parse, trace);
    WiderText(ranges, Reached(trace), |input|);
    WiderText(consumed, Reached(trace), |input|);
  }

  lemma WiderText(ranges: seq<Range>, size: nat, larger: nat)
    requires RangesApart(ranges, size) && size <= larger
    ensures RangesApart(ranges, larger)
  {
  }

  ghost predicate RangesApart(ranges: seq<Range>, size: nat) {
    && (forall k | 0 <= k < |ranges| :: ranges[k].start < ranges[k].end <= size)
    && forall j, k | 0 <= j < k < |ranges| :: ranges[j].end <= ranges[k].start
  }

  lemma {:induction false} TraceRangesApart(input: string, find: OpenerFinder, parse: BlockParser, trace: seq<Step>)
    requires FindsOpeners(input, find) && IsTrace(input, find, parse, trace)
    ensures RangesApart(TakenRanges(trace), Reached(trace)) && RangesApart(ConsumedRanges(trace), Reached(trace))
    ensures Reached(trace) <= |input|
    decreases |trace|
  {
    hide Justified, RangesApart;
    if trace == [] {
      NoRanges();
    } else {
      var init, last := trace[..|trace| - 1], trace[|trace| - 1];
      TraceRangesApart(input, find, parse, init);
      OneMoreRange(TakenRanges(init), Reached(init), Range(last.start, last.end));
      OneMoreRange(ConsumedRanges(init), Reached(init), Range(last.start, last.end));
      assert TakenRanges(init) + [] == TakenRanges(init) && ConsumedRanges(init) + [] == ConsumedRanges(init);
    }
  }

  lemma NoRanges()
    ensures RangesApart([], 0)
  {
  }

  lemma OneMoreRange(ranges: seq<Range>, reached: nat, range: Range)
    requires RangesApart(ranges, reached) && reached <= range.start < range.end
    ensures RangesApart(ranges, range.end) && RangesApart(ranges + [range], range.end)
  {
  }

  lemma TerminatorInside(input: string, start: nat, end: nat)
    requires IsIncludeEnd(input, start, |input|, Some(end))
    ensures start < end <= |input|
  {
  }

  lemma PlainJustified(input: string, find: OpenerFinder, parse: BlockParser, step: Step, candidateEnd: nat)
    requires FindsOpeners(input, find) && !step.Consumed?
    requires step.from <= |input| && find(step.from).Some? && find(step.from).value.0 == step.start
    requires IsOpener(input, step.from, step.start, find(step.from).value.1)
    requires MarkerStart(input, step.start, find(step.from).value.1).value == step.start
    requires IsIncludeEnd(input, find(step.from).value.1, |input|, Some(candidateEnd))
    requires if step.Taken? then parse(input, step.start) == Some((step.block, step.end))
             else parse(input, step.start).None? && step.end == candidateEnd
    ensures Justified(input, find, parse, step)
  {
  }

  lemma QuotedJustified(input: string, find: OpenerFinder, parse: BlockParser, step: Step, candidateEnd: nat)
    requires FindsOpeners(input, find) && !step.Taken?
    requires step.from <= |input| && find(step.from).Some? && find(step.from).value.0 == step.start
    requires IsOpener(input, step.from, step.start, find(step.from).value.1)
    requires MarkerStart(input, step.start, find(step.from).value.1).value != step.start
    requires IsIncludeEnd(input, find(step.from).value.1, |input|, Some(candidateEnd))
    requires
      var marker := MarkerStart(input, step.start, find(step.from).value.1).value;
      QuotedBlockEnd(input, step.start, marker, candidateEnd, parse) == if step.Consumed? then Some(step.end) else None
    requires step.Rejected? ==> step.end == candidateEnd
    ensures Justified(input, find, parse, step)
  {
  }

  /** What becomes of an opener is determined. */
  lemma StepIsUnique(input: string, find: OpenerFinder, parse: BlockParser, a: Step, b: Step)
    requires FindsOpeners(input, find) && Justified(input, find, parse, a) && Justified(input, find, parse, b)
    requires a.from == b.from
    ensures a == b
  {
    hide QuotedBlockEnd, IsIncludeEnd;
    var matchEnd := find(a.from).value.1;
    forall x: nat, y: nat | IsIncludeEnd(input, matchEnd, |input|, Some(x))
      && IsIncludeEnd(input, matchEnd, |input|, Some(y))
      ensures x == y
    {
      IncludeEndIsUnique(input, matchEnd, |input|, Some(x), Some(y));
    }
  }

  lemma {:induction false} TracesAgree(input: string, find: OpenerFinder, parse: BlockParser, a: seq<Step>,
                                       b: seq<Step>)
    requires FindsOpeners(input, find) && IsTrace(input, find, parse, a) && IsTrace(input, find, parse, b)
    requires |a| <= |b|
    ensures a == b[..|a|] && IsTrace(input, find, parse, b[..|a|])
    decreases |a| + |b|
  {
    hide Justified;
    if |a| < |b| {
      var n := |b| - 1;
      TracesAgree(input, find, parse, a, b[..n]);
      assert b[..n][..|a|] == b[..|a|];
    } else if a != [] {
      var n := |a| - 1;
      TracesAgree(input, find, parse, a[..n], b[..n]);
      assert b[..n][..n] == b[..n] && b[..|a|] == b;
      StepIsUnique(input, find, parse, a[n], b[n]);
      assert a == a[..n] + [a[n]] && b == b[..n] + [b[n]];
    } else {
      assert b == [];
    }
  }

  /** A text has one complete trace: the scan's result is determined. */
  lemma TraceIsUnique(input: string, find: OpenerFinder, parse: BlockParser, a: seq<Step>, b: seq<Step>)
    requires FindsOpeners(input, find) && IsTrace(input, find, parse, a) && IsTrace(input, find, parse, b)
    requires Exhausted(input, find, Reached(a)) && Exhausted(input, find, Reached(b))
    ensures a == b
  {
    hide Justified, IsIncludeEnd;
    var short, long := if |a| <= |b| then a else b, if |a| <= |b| then b else a;
    TracesAgree(input, find, parse, short, long);
    if |short| < |long| {
      NextStep(input, find, parse, long, |short|);
      NoStepFromExhausted(input, find, parse, long[|short|]);
    }
    assert |short| == |long| ==> long[..|short|] == long;
  }

  lemma {:induction false} NextStep(input: string, find: OpenerFinder, parse: BlockParser, trace: seq<Step>, n: nat)
    requires FindsOpeners(input, find) && IsTrace(input, find, parse, trace) && n < |trace|
    ensures Justified(input, find, parse, trace[n]) && trace[n].from == Reached(trace[..n])
    decreases |trace|
  {
    hide Justified;
    if n < |trace| - 1 {
      NextStep(input, find, parse, trace[..|trace| - 1], n);
      assert trace[..|trace| - 1][..n] == trace[..n];
    }
  }

  lemma NoStepFromExhausted(input: string, find: OpenerFinder, parse: BlockParser, step: Step)
    requires FindsOpeners(input, find) && Justified(input, find, parse, step)
    ensures !Exhausted(input, find, step.from)
  {
    hide QuotedBlockEnd, IsIncludeEnd;
    var matchEnd := find(step.from).value.1;
    forall x: nat | IsIncludeEnd(input, matchEnd, |input|, Some(x))
      ensures !IsIncludeEnd(input, matchEnd, |input|, None)
    {
      NotBothEnds(input, matchEnd, |input|, x);
    }
  }

  lemma NotBothEnds(input: string, start: nat, bound: nat, end: nat)
    ensures !(IsIncludeEnd(input, start, bound, Some(end)) && IsIncludeEnd(input, start, bound, None))
  {
  }

  method CountCarets(text: string) returns (n: nat)
    ensures n == Carets(text)
  {
    n := 0;
    for i := 0 to |text|
      invariant n == Carets(text[..i])
    {
      assert text[..i + 1][..i] == text[..i];
      if text[i] == '>' {
        n := n + 1;
      }
    }
    assert text[..|text|] == text;
  }

  // ----- replacements

  datatype FetchedPage = FetchedPage(page: string, content: Option<string>)

  datatype Replacement = Replacement(start: nat, end: nat, body: Option<(IncludeRef, FetchedPage)>)

  /** Ranges in order, apart, and inside the text. */
  ghost predicate Apart(replacements: seq<Replacement>, size: nat) {
    && (forall k | 0 <= k < |replacements| :: replacements[k].start < replacements[k].end <= size)
    && forall j, k | 0 <= j < k < |replacements| :: replacements[j].end <= replacements[k].start
  }

  function LineEndingBefore(input: string, start: nat): string
    requires start <= |input|
  {
    if start == 0 then "" else if start >= 2 && OccursAt(input, "\r\n", start - 2) then "\r\n" else "\n"
  }

  function LineEndingAfter(input: string, end: nat): string
    requires end <= |input|
  {
    if end == |input| then "" else if OccursAt(input, "\r\n", end) then "\r\n" else "\n"
  }

  /** What stands in place of a block: nothing if the page is empty, otherwise
      the page on lines of its own. */
  function Separated(input: string, start: nat, end: nat, text: string): string
    requires start <= end <= |input|
  {
    if text == "" then "" else LineEndingBefore(input, start) + text + LineEndingAfter(input, end)
  }

  /** A line ending where one is wanted, spelled as its neighbour. */
  predicate IsLineEnding(s: string, wanted: bool, carriageReturn: bool) {
    s == if !wanted then "" else if carriageReturn then "\r\n" else "\n"
  }

  /** A page is set off by a line ending before it, unless it opens the text, and
      behind it, unless it ends the text; an empty page leaves nothing. */
  lemma PageOnOwnLines(input: string, start: nat, end: nat, text: string)
    requires start <= end <= |input|
    ensures text == "" ==> Separated(input, start, end, text) == ""
    ensures text != "" ==> exists before, after ::
              && Separated(input, start, end, text) == before + text + after
              && IsLineEnding(before, start > 0, start >= 2 && input[start - 2] == '\r' && input[start - 1] == '\n')
              && IsLineEnding(after, end < |input|,
                              end + 2 <= |input| && input[end] == '\r' && input[end + 1] == '\n')
  {
    if text != "" {
      var before, after := LineEndingBefore(input, start), LineEndingAfter(input, end);
      if start >= 2 {
        assert input[start - 2..start] == [input[start - 2], input[start - 1]];
      }
      if end + 2 <= |input| {
        assert input[end..end + 2] == [input[end], input[end + 1]];
      }
      assert Separated(input, start, end, text) == before + text + after;
    }
  }

  /** The patch of one replacement, or why it fails. */
  ghost function PatchOf<E>(input: string, replacement: Replacement, noSuchInclude: string -> Result<string, E>,
                            invalid: E): Result<Patch, E>
    requires replacement.start <= replacement.end <= |input|
  {
    var start, end := replacement.start, replacement.end;
    if replacement.body.None? then Ok(Patch(start, end, ""))
    else
      var (block, fetched) := replacement.body.value;
      if block.page != fetched.page then Err(invalid)
      else if fetched.content.Some? then
        Ok(Patch(start, end,
                 Separated(input, start, end, Substituted(fetched.content.value, 0, FillFrom(block.variables)))))
      else
        match noSuchInclude(block.page)
        case Err(e) => Err(e)
        case Ok(text) => Ok(Patch(start, end, Separated(input, start, end, text)))
  }

  function PagesOf(replacements: seq<Replacement>): seq<string> {
    if replacements == [] then []
    else
      (if replacements[0].body.Some? then [replacements[0].body.value.0.page] else []) + PagesOf(replacements[1..])
  }

  function Reversed(s: seq<string>): seq<string> {
    if s == [] then [] else [s[|s| - 1]] + Reversed(s[..|s| - 1])
  }

  /** What substituting gives: either every replacement has its patch and the
      text is patched in one pass, pages in source order; or the last that
      fails gives the error. */
  ghost predicate IsSubstitution<E>(input: string, replacements: seq<Replacement>,
                                    noSuchInclude: string -> Result<string, E>,
                                    invalid: E, r: Result<(string, seq<string>), E>)
    requires Apart(replacements, |input|)
  {
    match r
    case Ok((output, pages)) =>
      && pages == PagesOf(replacements)
      && exists patches :: PatchesAre(input, replacements, noSuchInclude, invalid, patches)
                        && InOrder(patches, 0, |input|) && output == Patched(input, 0, patches)
    case Err(e) =>
      exists k :: 0 <= k < |replacements| && PatchOf(input, replacements[k], noSuchInclude, invalid) == Err(e)
               && forall j | k < j < |replacements| :: PatchOf(input, replacements[j], noSuchInclude, invalid).Ok?
  }

  ghost predicate PatchesAre<E>(input: string, replacements: seq<Replacement>, noSuchInclude: string -> Result<string,
                                E>,
                                invalid: E, patches: seq<Patch>)
    requires Apart(replacements, |input|)
  {
    |patches| == |replacements|
    && forall k | 0 <= k < |patches| :: PatchOf(input, replacements[k], noSuchInclude, invalid) == Ok(patches[k])
  }

  method SubstituteOne<E>(input: string, replacement: Replacement, noSuchInclude: string -> Result<string, E>,
                          invalid: E)
    returns (r: Result<Patch, E>)
    requires replacement.start <= replacement.end <= |input|
    ensures r == PatchOf(input, replacement, noSuchInclude, invalid)
  {
    hide Substituted, Separated;
    if replacement.body.None? {
      return Ok(Patch(replacement.start, replacement.end, ""));
    }
    var (block, fetched) := replacement.body.value;
    if block.page != fetched.page {
      return Err(invalid);
    }
    var text: string;
    if fetched.content.Some? {
      text := ReplaceVariables(fetched.content.value, block.variables);
    } else {
      var missing := noSuchInclude(block.page);
      if missing.Err? {
        return Err(missing.error);
      }
      text := missing.value;
    }
    return Ok(Patch(replacement.start, replacement.end, Separated(input, replacement.start, replacement.end, text)));
  }

  /** Replaces the ranges in place, from the back, so that the offsets of those
      still to come stay good. */
  method SubstituteReplacements<E>(input: string, replacements: seq<Replacement>,
                                   noSuchInclude: string -> Result<string, E>, invalid: E)
    returns (r: Result<(string, seq<string>), E>)
    requires Apart(replacements, |input|)
    ensures IsSubstitution(input, replacements, noSuchInclude, invalid, r)
  {
    hide *;
    var output := input;
    var pages: seq<string> := [];
    ghost var edge := |input|;
    ghost var tail: seq<Patch> := [];
    NoPatches(input, |input|);
    NoTail(input, replacements, noSuchInclude, invalid);
    NoPages(replacements);
    assert input == input[..|input|] + "";
    for k := |replacements| downto 0
      invariant edge <= |input| && edge == if k == |replacements| then |input| else replacements[k].start
      invariant InOrder(tail, edge, |input|) && TailPatches(input, replacements, noSuchInclude, invalid, k, tail)
      invariant output == input[..edge] + Patched(input, edge, tail)
      invariant Reversed(pages) == PagesOf(replacements[k..])
    {
      var replacement := replacements[k];
      ApartAt(replacements, |input|, k);
      var patch := SubstituteOne(input, replacement, noSuchInclude, invalid);
      if patch.Err? {
        SubstitutionFails(input, replacements, noSuchInclude, invalid, k, tail);
        return Err(patch.error);
      }
      PatchKeepsRange(input, replacement, noSuchInclude, invalid);
      PatchInFront(input, patch.value, edge, tail, output);
      TailGrows(input, replacements, noSuchInclude, invalid, k, patch.value, tail);
      PagesStep(replacements, k, pages);
      if replacement.body.Some? {
        pages := pages + [replacement.body.value.0.page];
      }
      output := ReplaceRange(output, patch.value.start, patch.value.end, patch.value.text);
      tail := [patch.value] + tail;
      edge := replacement.start;
    }
    PatchedEarlier(input, 0, edge, tail);
    assert input[0..edge] == input[..edge] && replacements[0..] == replacements;
    SubstitutionSucceeds(input, replacements, noSuchInclude, invalid, tail, output);
    r := Ok((output, Reversed(pages)));
  }

  lemma ApartAt(replacements: seq<Replacement>, size: nat, k: nat)
    requires Apart(replacements, size) && k < |replacements|
    ensures replacements[k].start <= replacements[k].end <= size
    ensures k + 1 < |replacements| ==> replacements[k].end <= replacements[k + 1].start
  {
  }

  /** The patches of the replacements from `k` on. */
  ghost predicate TailPatches<E>(input: string, replacements: seq<Replacement>, noSuchInclude: string -> Result<string,
                                 E>,
                                 invalid: E, k: nat, tail: seq<Patch>)
    requires Apart(replacements, |input|) && k <= |replacements|
  {
    |tail| == |replacements| - k
    && forall j | k <= j < |replacements| :: PatchOf(input, replacements[j], noSuchInclude, invalid) == Ok(tail[j - k])
  }

  lemma NoTail<E>(input: string, replacements: seq<Replacement>, noSuchInclude: string -> Result<string, E>, invalid: E)
    requires Apart(replacements, |input|)
    ensures TailPatches(input, replacements, noSuchInclude, invalid, |replacements|, [])
  {
  }

  lemma TailGrows<E>(input: string, replacements: seq<Replacement>, noSuchInclude: string -> Result<string, E>,
                     invalid: E, k: nat,
                     patch: Patch, tail: seq<Patch>)
    requires Apart(replacements, |input|) && k < |replacements|
    requires TailPatches(input, replacements, noSuchInclude, invalid, k + 1, tail)
    requires PatchOf(input, replacements[k], noSuchInclude, invalid) == Ok(patch)
    ensures TailPatches(input, replacements, noSuchInclude, invalid, k, [patch] + tail)
  {
    hide PatchOf;
  }

  lemma PagesStep(replacements: seq<Replacement>, k: nat, pages: seq<string>)
    requires k < |replacements| && Reversed(pages) == PagesOf(replacements[k + 1..])
    ensures
      var body := replacements[k].body;
      Reversed(if body.Some? then pages + [body.value.0.page] else pages) == PagesOf(replacements[k..])
  {
    assert replacements[k..][1..] == replacements[k + 1..];
    if replacements[k].body.Some? {
      var page := replacements[k].body.value.0.page;
      assert (pages + [page])[..|pages|] == pages;
    }
  }

  lemma SubstitutionFails<E>(input: string, replacements: seq<Replacement>, noSuchInclude: string -> Result<string, E>,
                             invalid: E, k: nat,
                             tail: seq<Patch>)
    requires Apart(replacements, |input|) && k < |replacements|
    requires TailPatches(input, replacements, noSuchInclude, invalid, k + 1, tail)
    requires PatchOf(input, replacements[k], noSuchInclude, invalid).Err?
    ensures
      var error := PatchOf(input, replacements[k], noSuchInclude, invalid).error;
      IsSubstitution(input, replacements, noSuchInclude, invalid, Err(error))
  {
    hide PatchOf;
  }

  lemma SubstitutionSucceeds<E>(input: string, replacements: seq<Replacement>, noSuchInclude: string -> Result<string,
                                E>, invalid: E,
                                patches: seq<Patch>, output: string)
    requires Apart(replacements, |input|)
    requires TailPatches(input, replacements, noSuchInclude, invalid, 0, patches)
    requires InOrder(patches, 0, |input|) && output == Patched(input, 0, patches)
    ensures IsSubstitution(input, replacements, noSuchInclude, invalid, Ok((output, PagesOf(replacements))))
  {
    hide PatchOf;
    assert PatchesAre(input, replacements, noSuchInclude, invalid, patches);
  }

  lemma NoPages(replacements: seq<Replacement>)
    ensures Reversed([]) == PagesOf(replacements[|replacements|..])
  {
  }

  lemma PatchKeepsRange<E>(input: string, replacement: Replacement, noSuchInclude: string -> Result<string, E>,
                           invalid: E)
    requires replacement.start <= replacement.end <= |input|
    ensures
      var patch := PatchOf(input, replacement, noSuchInclude, invalid);
      patch.Ok? ==> patch.value.start == replacement.start && patch.value.end == replacement.end
  {
  }

  // ----- sorting the two lists of ranges together

  /** Taken blocks with their pages. */
  function Zipped(ranges: seq<Range>, blocks: seq<IncludeRef>, fetched: seq<FetchedPage>): (r: seq<Replacement>)
    requires |ranges| == |blocks| == |fetched|
    ensures |r| == |ranges|
  {
    seq(|ranges|, k requires 0 <= k < |ranges| => Replacement(ranges[k].start, ranges[k].end,
                                                              Some((blocks[k], fetched[k]))))
  }

  function Dropped(ranges: seq<Range>): (r: seq<Replacement>)
    ensures |r| == |ranges|
  {
    seq(|ranges|, k requires 0 <= k < |ranges| => Replacement(ranges[k].start, ranges[k].end, None))
  }

  /** All replacements of a trace in the order of the source. */
  ghost function InSourceOrder(trace: seq<Step>, fetched: seq<FetchedPage>): seq<Replacement>
    requires |fetched| == |TakenRanges(trace)|
    decreases |trace|
  {
    if trace == [] then []
    else
      var init, last := trace[..|trace| - 1], trace[|trace| - 1];
      if last.Taken? then
        var n := |fetched| - 1;
        InSourceOrder(init, fetched[..n]) + [Replacement(last.start, last.end, Some((last.block, fetched[n])))]
      else if last.Consumed? then InSourceOrder(init, fetched) + [Replacement(last.start, last.end, None)]
      else InSourceOrder(init, fetched)
  }

  lemma {:induction false} SourceOrderApart(input: string, find: OpenerFinder, parse: BlockParser, trace: seq<Step>,
                                            fetched: seq<FetchedPage>)
    requires FindsOpeners(input, find) && IsTrace(input, find, parse, trace) && |fetched| == |TakenRanges(trace)|
    ensures Apart(InSourceOrder(trace, fetched), |input|)
    ensures forall k | 0 <= k < |InSourceOrder(trace, fetched)| ::
            InSourceOrder(trace, fetched)[k].end <= Reached(trace)
    decreases |trace|
  {
    hide Justified, Apart;
    if trace == [] {
      NothingApart(|input|);
    } else {
      var init, last := trace[..|trace| - 1], trace[|trace| - 1];
      var pages := if last.Taken? then fetched[..|fetched| - 1] else fetched;
      SourceOrderApart(input, find, parse, init, pages);
      var body := if last.Taken? then Some((last.block, fetched[|fetched| - 1])) else None;
      OneMoreApart(InSourceOrder(init, pages), Reached(init), Replacement(last.start, last.end, body), |input|);
    }
  }

  lemma NothingApart(size: nat)
    ensures Apart([], size)
  {
  }

  lemma OneMoreApart(replacements: seq<Replacement>, reached: nat, next: Replacement, size: nat)
    requires Apart(replacements, size) && reached <= next.start < next.end <= size
    requires forall k | 0 <= k < |replacements| :: replacements[k].end <= reached
    ensures Apart(replacements + [next], size)
  {
  }

  lemma {:induction false} SourceOrderIsAll(trace: seq<Step>, fetched: seq<FetchedPage>)
    requires |fetched| == |TakenRanges(trace)|
    ensures multiset(InSourceOrder(trace, fetched))
         == multiset(Zipped(TakenRanges(trace), TakenBlocks(trace), fetched) + Dropped(ConsumedRanges(trace)))
    decreases |trace|
  {
    hide Zipped, Dropped;
    if trace == [] {
      EmptyLists(fetched);
    } else {
      var init, last := trace[..|trace| - 1], trace[|trace| - 1];
      var ranges, blocks, consumed := TakenRanges(init), TakenBlocks(init), ConsumedRanges(init);
      var n := if last.Taken? then |fetched| - 1 else |fetched|;
      SourceOrderIsAll(init, fetched[..n]);
      assert fetched[..|fetched|] == fetched;
      if last.Taken? {
        ZippedSnoc(ranges, blocks, fetched[..n], Range(last.start, last.end), last.block, fetched[n]);
        assert fetched == fetched[..n] + [fetched[n]];
        assert TakenRanges(trace) == ranges + [Range(last.start, last.end)]
               && TakenBlocks(trace) == blocks + [last.block];
        assert ConsumedRanges(trace) == consumed;
        OneMore(Zipped(ranges, blocks, fetched[..n]), Dropped(consumed),
                Replacement(last.start, last.end, Some((last.block, fetched[n]))));
      } else {
        assert TakenRanges(trace) == ranges && TakenBlocks(trace) == blocks;
        assert ConsumedRanges(trace) == if last.Consumed? then consumed + [Range(last.start, last.end)] else consumed;
        DroppedSnoc(consumed, Range(last.start, last.end));
        OneMore(Zipped(ranges, blocks, fetched), Dropped(consumed), Replacement(last.start, last.end, None));
      }
    }
  }

  lemma EmptyLists(fetched: seq<FetchedPage>)
    requires fetched == []
    ensures Zipped([], [], fetched) == [] && Dropped([]) == []
  {
  }

  lemma ZippedSnoc(ranges: seq<Range>, blocks: seq<IncludeRef>, fetched: seq<FetchedPage>, range: Range,
                   block: IncludeRef, page: FetchedPage)
    requires |ranges| == |blocks| == |fetched|
    ensures Zipped(ranges + [range], blocks + [block], fetched + [page])
         == Zipped(ranges, blocks, fetched) + [Replacement(range.start, range.end, Some((block, page)))]
  {
  }

  lemma DroppedSnoc(ranges: seq<Range>, range: Range)
    ensures Dropped(ranges + [range]) == Dropped(ranges) + [Replacement(range.start, range.end, None)]
  {
  }

  lemma OneMore(a: seq<Replacement>, b: seq<Replacement>, x: Replacement)
    ensures multiset(a + [x] + b) == multiset(a + b) + multiset{x}
    ensures multiset(a + (b + [x])) == multiset(a + b) + multiset{x}
  {
  }

  lemma TailMultiset(s: seq<Replacement>)
    requires s != []
    ensures multiset(s[1..]) == multiset(s) - multiset{s[0]}
  {
    assert s == [s[0]] + s[1..];
  }

  predicate AllFrom(s: seq<Replacement>, least: nat) {
    forall k | 0 <= k < |s| :: least <= s[k].start
  }

  predicate SortedByStart(s: seq<Replacement>) {
    s == [] || (AllFrom(s[1..], s[0].start) && SortedByStart(s[1..]))
  }

  function InsertByStart(r: Replacement, sorted: seq<Replacement>): seq<Replacement> {
    if sorted == [] || r.start <= sorted[0].start then [r] + sorted
    else [sorted[0]] + InsertByStart(r, sorted[1..])
  }

  lemma {:induction false} InsertKeepsLeast(r: Replacement, sorted: seq<Replacement>, least: nat)
    requires AllFrom(sorted, least) && least <= r.start
    ensures AllFrom(InsertByStart(r, sorted), least)
  {
    if sorted != [] && r.start > sorted[0].start {
      InsertKeepsLeast(r, sorted[1..], least);
    }
  }

  lemma {:induction false} InsertSorts(r: Replacement, sorted: seq<Replacement>)
    requires SortedByStart(sorted)
    ensures SortedByStart(InsertByStart(r, sorted))
    ensures multiset(InsertByStart(r, sorted)) == multiset(sorted) + multiset{r}
  {
    hide InsertByStart, AllFrom;
    if sorted == [] || r.start <= sorted[0].start {
      InsertFirst(r, sorted);
    } else {
      var rest := InsertByStart(r, sorted[1..]);
      InsertSorts(r, sorted[1..]);
      InsertKeepsLeast(r, sorted[1..], sorted[0].start);
      InsertLater(r, sorted);
      assert ([sorted[0]] + rest)[1..] == rest;
      TailMultiset(sorted);
      TailMultiset([sorted[0]] + rest);
    }
  }

  lemma InsertFirst(r: Replacement, sorted: seq<Replacement>)
    requires SortedByStart(sorted) && (sorted == [] || r.start <= sorted[0].start)
    ensures InsertByStart(r, sorted) == [r] + sorted && SortedByStart([r] + sorted)
    ensures multiset([r] + sorted) == multiset(sorted) + multiset{r}
  {
    assert ([r] + sorted)[1..] == sorted;
    assert forall k | 0 < k < |sorted| :: sorted[k] == sorted[1..][k - 1];
  }

  lemma InsertLater(r: Replacement, sorted: seq<Replacement>)
    requires sorted != [] && r.start > sorted[0].start
    ensures InsertByStart(r, sorted) == [sorted[0]] + InsertByStart(r, sorted[1..])
  {
  }

  /** The replacements in the order of their starts. */
  function SortByStart(s: seq<Replacement>): (r: seq<Replacement>)
    ensures SortedByStart(r) && multiset(r) == multiset(s)
  {
    if s == [] then []
    else
      assert s == [s[0]] + s[1..];
      InsertSorts(s[0], SortByStart(s[1..]));
      InsertByStart(s[0], SortByStart(s[1..]))
  }

  /** Ranges that are apart have one sorted order, whatever sort is used. */
  lemma {:induction false} SortedOnce(apart: seq<Replacement>, sorted: seq<Replacement>, size: nat)
    requires Apart(apart, size) && SortedByStart(sorted) && multiset(apart) == multiset(sorted)
    ensures apart == sorted
    decreases |apart|
  {
    hide Apart, AllFrom;
    SameSize(apart, sorted);
    if apart != [] {
      FirstIsLeast(apart, sorted, size);
      TailMultiset(apart);
      TailMultiset(sorted);
      TailApart(apart, size);
      SortedOnce(apart[1..], sorted[1..], size);
      FirstAndRest(apart, sorted);
    }
  }

  lemma SameSize(a: seq<Replacement>, b: seq<Replacement>)
    requires multiset(a) == multiset(b)
    ensures |a| == |b|
  {
    assert |a| == |multiset(a)| == |multiset(b)| == |b|;
  }

  lemma FirstAndRest(a: seq<Replacement>, b: seq<Replacement>)
    requires a != [] && b != [] && a[0] == b[0] && a[1..] == b[1..]
    ensures a == b
  {
    assert a == [a[0]] + a[1..] && b == [b[0]] + b[1..];
  }

  lemma TailApart(s: seq<Replacement>, size: nat)
    requires Apart(s, size) && s != []
    ensures Apart(s[1..], size)
  {
  }

  lemma FirstIsLeast(apart: seq<Replacement>, sorted: seq<Replacement>, size: nat)
    requires Apart(apart, size) && SortedByStart(sorted) && multiset(apart) == multiset(sorted) && apart != []
             && sorted != []
    ensures apart[0] == sorted[0]
  {
    assert sorted[0] in multiset(sorted) && apart[0] in multiset(apart);
    var i :| 0 <= i < |apart| && apart[i] == sorted[0];
    var j :| 0 <= j < |sorted| && sorted[j] == apart[0];
    assert j > 0 ==> sorted[j] == sorted[1..][j - 1];
    LaterStart(apart, size, i);
  }

  lemma LaterStart(apart: seq<Replacement>, size: nat, i: nat)
    requires Apart(apart, size) && i < |apart|
    ensures i > 0 ==> apart[0].start < apart[i].start
  {
  }

  // ----- the whole

  /** Replaces the include blocks of a text by the pages they name. */
  method Include<E>(input: string, enablePageSyntax: bool, find: OpenerFinder, parse: BlockParser,
                    includePages: seq<IncludeRef> -> Result<seq<FetchedPage>, E>,
                    noSuchInclude: string -> Result<string, E>, invalid: E)
    returns (r: Result<(string, seq<string>), E>, ghost trace: seq<Step>)
    requires FindsOpeners(input, find) && Progresses(parse)
    ensures !enablePageSyntax ==> r == Ok((input, []))
    ensures enablePageSyntax ==> IsTrace(input, find, parse, trace) && Exhausted(input, find, Reached(trace))
    ensures enablePageSyntax ==>
              var fetched := includePages(TakenBlocks(trace));
              if fetched.Err? then r == Err(fetched.error)
              else if |fetched.value| != |TakenBlocks(trace)| then r == Err(invalid)
              else
                && Apart(InSourceOrder(trace, fetched.value), |input|)
                && IsSubstitution(input, InSourceOrder(trace, fetched.value), noSuchInclude, invalid, r)
  {
    hide IsSubstitution, InSourceOrder, Exhausted, IsTrace;
    trace := [];
    if !enablePageSyntax {
      return Ok((input, [])), [];
    }
    var ranges, consumed, blocks;
    ranges, consumed, blocks, trace := ScanIncludes(input, find, parse);
    var fetched := includePages(blocks);
    if fetched.Err? {
      return Err(fetched.error), trace;
    }
    if |blocks| != |fetched.value| {
      return Err(invalid), trace;
    }
    var replacements := SortByStart(Zipped(ranges, blocks, fetched.value) + Dropped(consumed));
    SourceOrderApart(input, find, parse, trace, fetched.value);
    SourceOrderIsAll(trace, fetched.value);
    SortedOnce(InSourceOrder(trace, fetched.value), replacements, |input|);
    r := SubstituteReplacements(input, replacements, noSuchInclude, invalid);
  }
}
