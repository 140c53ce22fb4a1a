/** Memoised line scans for unmatched block closers: every cache slot answers as
    a fresh scan would, whatever was asked before. */
module CloseScan {
  import opened Bytes
  import opened Seqs

  // ----- forward searches

  datatype Target = Literal(needle: string) | Folded(needle: string) | Break

  predicate Hit(source: string, target: Target, p: int) {
    match target
    case Literal(needle) => OccursAt(source, needle, p)
    case Folded(needle) => 0 <= p && p + |needle| <= |source| && EqIgnoreAsciiCase(source[p..p + |needle|], needle)
    case Break => 0 <= p < |source| && IsLineBreak(source[p])
  }

  /** `found` is the first hit at or after `from`. */
  ghost predicate IsFirst(source: string, target: Target, from: nat, found: Option<nat>) {
    match found
    case Some(p) => from <= p && Hit(source, target, p) && forall q | from <= q < p :: !Hit(source, target, q)
    case None => forall q | from <= q :: !Hit(source, target, q)
  }

  lemma FirstIsUnique(source: string, target: Target, from: nat, a: Option<nat>, b: Option<nat>)
    requires IsFirst(source, target, from, a) && IsFirst(source, target, from, b)
    ensures a == b
  {
    assert a.Some? ==> Hit(source, target, a.value);
    assert b.Some? ==> Hit(source, target, b.value);
  }

  lemma FindIsFirst(source: string, needle: string, from: nat)
    ensures IsFirst(source, Literal(needle), from, Find(source, needle, from))
  {
    var found := Find(source, needle, from);
    assert forall q :: Hit(source, Literal(needle), q) <==> OccursAt(source, needle, q);
  }

  /** A remembered search: where it began and what it found. */
  type Slot = Option<(nat, Option<nat>)>

  ghost predicate SlotTrue(source: string, target: Target, slot: Slot) {
    slot.Some? ==> IsFirst(source, target, slot.value.0, slot.value.1)
  }

  predicate Covers(slot: Slot, start: nat) {
    && slot.Some? && slot.value.0 <= start
    && (slot.value.1.None? || slot.value.1.value >= start)
  }

  /** A search that began no later and found nothing in between has the answer. */
  lemma CoveredAnswer(source: string, target: Target, slot: Slot, start: nat)
    requires SlotTrue(source, target, slot) && Covers(slot, start)
    ensures IsFirst(source, target, start, slot.value.1)
  {
  }

  method FindForward(source: string, slot: Slot, needle: string, start: nat)
    returns (found: Option<nat>, scanned: nat, slot': Slot)
    requires start <= |source| && SlotTrue(source, Literal(needle), slot)
    ensures found == Find(source, needle, start)
    ensures SlotTrue(source, Literal(needle), slot')
    ensures scanned <= |source| - start
  {
    FindIsFirst(source, needle, start);
    if Covers(slot, start) {
      CoveredAnswer(source, Literal(needle), slot, start);
      FirstIsUnique(source, Literal(needle), start, slot.value.1, Find(source, needle, start));
      return slot.value.1, 0, slot;
    }
    found := Find(source, needle, start);
    scanned := (if found.Some? then found.value + |needle| else |source|) - start;
    slot' := Some((start, found));
  }

  method FindForwardIgnoreAsciiCase(source: string, slot: Slot, needle: string, start: nat)
    returns (found: Option<nat>, scanned: nat, slot': Slot)
    requires start <= |source| && needle != "" && SlotTrue(source, Folded(needle), slot)
    ensures IsFirst(source, Folded(needle), start, found)
    ensures SlotTrue(source, Folded(needle), slot')
    ensures scanned <= |source| - start
  {
    if Covers(slot, start) {
      CoveredAnswer(source, Folded(needle), slot, start);
      return slot.value.1, 0, slot;
    }
    found := None;
    var end := if |source| >= |needle| - 1 then |source| - (|needle| - 1) else 0;
    var offset := start;
    while offset < end && found.None?
      invariant start <= offset && (start <= end ==> offset <= end)
      invariant forall q | start <= q < offset && q + |needle| <= |source| :: !Hit(source, Folded(needle), q)
      invariant found.Some? ==> found.value == offset && Hit(source, Folded(needle), offset)
      decreases end - offset, if found.None? then 1 else 0
    {
      if EqIgnoreAsciiCase(source[offset..offset + |needle|], needle) {
        found := Some(offset);
      } else {
        offset := offset + 1;
      }
    }
    scanned := (if found.Some? then found.value + |needle| else |source|) - start;
    slot' := Some((start, found));
  }

  method FindForwardLineBreak(source: string, slot: Slot, start: nat)
    returns (found: Option<nat>, scanned: nat, slot': Slot)
    requires start <= |source| && SlotTrue(source, Break, slot)
    ensures IsFirst(source, Break, start, found)
    ensures SlotTrue(source, Break, slot')
    ensures scanned <= |source| - start
  {
    if Covers(slot, start) {
      CoveredAnswer(source, Break, slot, start);
      return slot.value.1, 0, slot;
    }
    var offset := start;
    while offset < |source| && !IsLineBreak(source[offset])
      invariant start <= offset <= |source|
      invariant forall q | start <= q < offset :: !Hit(source, Break, q)
    {
      offset := offset + 1;
    }
    found := if offset < |source| then Some(offset) else None;
    scanned := (if found.Some? then found.value + 1 else |source|) - start;
    slot' := Some((start, found));
  }

  // ----- physical lines

  /** The start of the physical line that holds `pos`: behind the last carriage
      return or line feed before it. */
  function LineStart(source: string, pos: nat): (r: nat)
    requires pos <= |source|
    ensures r <= pos
    ensures r == 0 || IsLineBreak(source[r - 1])
    ensures forall q | r <= q < pos :: !IsLineBreak(source[q])
  {
    if pos == 0 || IsLineBreak(source[pos - 1]) then pos else LineStart(source, pos - 1)
  }

  /** The end of that line: the next carriage return or line feed, or the end of
      the text. */
  function LineEnd(source: string, pos: nat): (r: nat)
    requires pos <= |source|
    ensures pos <= r <= |source|
    ensures r == |source| || IsLineBreak(source[r])
    ensures forall q | pos <= q < r :: !IsLineBreak(source[q])
    decreases |source| - pos
  {
    if pos == |source| || IsLineBreak(source[pos]) then pos else LineEnd(source, pos + 1)
  }

  /** A stretch between two line breaks. */
  ghost predicate IsLine(source: string, start: nat, end: nat) {
    && start <= end <= |source|
    && (start == 0 || IsLineBreak(source[start - 1]))
    && (end == |source| || IsLineBreak(source[end]))
    && forall q | start <= q < end :: !IsLineBreak(source[q])
  }

  predicate BreakAt(source: string, q: int) {
    0 <= q < |source| && IsLineBreak(source[q])
  }

  /** The bounds of the line around a position are those of any line it is on. */
  lemma BoundsOfLine(source: string, start: nat, end: nat, pos: nat)
    requires IsLine(source, start, end) && start <= pos <= end
    ensures LineStart(source, pos) == start && LineEnd(source, pos) == end
  {
    var s, e := LineStart(source, pos), LineEnd(source, pos);
    assert forall q | s <= q < e || start <= q < end :: !BreakAt(source, q);
    assert (start == 0 || BreakAt(source, start - 1)) && (s == 0 || BreakAt(source, s - 1));
    assert (end == |source| || BreakAt(source, end)) && (e == |source| || BreakAt(source, e));
  }

  // ----- owner openers on a line

  predicate IsOwnerFollow(c: char) {
    c == ']' || c == ' ' || c == '\t' || c == '_'
  }

  /** An owner's marker at `p`: the marker in any case, then a follow byte. */
  predicate MarkAt(text: string, marker: string, p: int) {
    && 0 <= p && p + |marker| < |text|
    && EqIgnoreAsciiCase(text[p..p + |marker|], marker)
    && IsOwnerFollow(text[p + |marker|])
  }

  /** The last window of `text` that is such a marker. */
  function LastMark(text: string, marker: string, below: nat): (r: Option<nat>)
    ensures r.Some? ==> r.value < below && MarkAt(text, marker, r.value)
    ensures forall q | (if r.Some? then r.value + 1 else 0) <= q < below :: !MarkAt(text, marker, q)
  {
    if below == 0 then None
    else if MarkAt(text, marker, below - 1) then Some(below - 1)
    else LastMark(text, marker, below - 1)
  }

  predicate After(open: Option<nat>, close: Option<nat>) {
    open.Some? && (close.None? || open.value > close.value)
  }

  /** The uncached answer: the last opener before `closeStart` on its line comes
      after the last closer there. */
  function LineHasUnmatchedOwnerOpener(source: string, closeStart: nat, name: string): bool
    requires closeStart <= |source|
  {
    var prefix := source[LineStart(source, closeStart)..closeStart];
    After(LastMark(prefix, "[[" + name, |prefix|), LastMark(prefix, "[[/" + name, |prefix|))
  }

  datatype OwnerLineScan = OwnerLineScan(lineStart: nat, lineEnd: nat, openLen: nat, closeLen: nat, opens: seq<nat>,
                                         closes: seq<nat>)

  /** All marks of a line, in order. */
  ghost predicate MarksOfLine(source: string, marker: string, start: nat, end: nat, marks: seq<nat>) {
    && Increasing(marks)
    && forall p: nat :: p in marks <==> start <= p < end && MarkAt(source, marker, p)
  }

  ghost predicate ScanTrue(source: string, name: string, scan: OwnerLineScan) {
    && IsLine(source, scan.lineStart, scan.lineEnd)
    && scan.openLen == |"[[" + name| && scan.closeLen == |"[[/" + name|
    && MarksOfLine(source, "[[" + name, scan.lineStart, scan.lineEnd, scan.opens)
    && MarksOfLine(source, "[[/" + name, scan.lineStart, scan.lineEnd, scan.closes)
  }

  method PrecomputeOwnerLine(source: string, lineStart: nat, lineEnd: nat, name: string) returns (scan: OwnerLineScan)
    requires IsLine(source, lineStart, lineEnd)
    ensures ScanTrue(source, name, scan) && scan.lineStart == lineStart && scan.lineEnd == lineEnd
  {
    hide MarkAt, MarksOfLine;
    var open, close := "[[" + name, "[[/" + name;
    NoMarksYet(source, open, lineStart);
    NoMarksYet(source, close, lineStart);
    var opens: seq<nat>, closes: seq<nat> := [], [];
    var offset := lineStart;
    while offset < lineEnd
      invariant lineStart <= offset <= lineEnd
      invariant MarksOfLine(source, open, lineStart, offset, opens)
      invariant MarksOfLine(source, close, lineStart, offset, closes)
    {
      NextMark(source, open, lineStart, offset, opens);
      NextMark(source, close, lineStart, offset, closes);
      if MarkAt(source, open, offset) {
        opens := opens + [offset];
      }
      if MarkAt(source, close, offset) {
        closes := closes + [offset];
      }
      offset := offset + 1;
    }
    scan := OwnerLineScan(lineStart, lineEnd, |open|, |close|, opens, closes);
  }

  lemma NoMarksYet(source: string, marker: string, start: nat)
    ensures MarksOfLine(source, marker, start, start, [])
  {
  }

  lemma NextMark(source: string, marker: string, start: nat, end: nat, marks: seq<nat>)
    requires MarksOfLine(source, marker, start, end, marks) && start <= end
    ensures MarksOfLine(source, marker, start, end + 1, if MarkAt(source, marker, end) then marks + [end] else marks)
  {
    hide MarkAt;
    var next := if MarkAt(source, marker, end) then marks + [end] else marks;
    assert forall i | 0 <= i < |marks| :: marks[i] in marks;
    assert forall p: nat :: p in next <==> p in marks || (p == end && MarkAt(source, marker, end));
  }

  function LastBelow(s: seq<nat>, bound: nat): (r: Option<nat>)
    requires Increasing(s)
    ensures r.Some? ==> r.value in s && r.value < bound
    ensures forall x | x in s && x < bound :: r.Some? && x <= r.value
  {
    var count := PartitionPoint(s, bound);
    if count == 0 then None else Some(s[count - 1])
  }

  function SaturatingSub(a: nat, b: nat): nat {
    if a < b then 0 else a - b
  }

  function OwnerOpenerBeforeScan(scan: OwnerLineScan, closeStart: nat): bool
    requires Increasing(scan.opens) && Increasing(scan.closes)
  {
    After(LastBelow(scan.opens, SaturatingSub(closeStart, scan.openLen)),
          LastBelow(scan.closes, SaturatingSub(closeStart, scan.closeLen)))
  }

  lemma MarkInPrefix(source: string, marker: string, start: nat, closeStart: nat, q: nat)
    requires start <= closeStart <= |source|
    ensures MarkAt(source[start..closeStart], marker, q) <==>
              MarkAt(source, marker, start + q) && start + q < SaturatingSub(closeStart, |marker|)
  {
    var prefix := source[start..closeStart];
    if start + q + |marker| < closeStart {
      SliceOfSlice(source, start, closeStart, q, q + |marker|);
    }
  }

  /** The binary search over a line's marks finds the last mark of the prefix. */
  lemma LastBelowIsLastMark(source: string, marker: string, start: nat, end: nat, marks: seq<nat>, closeStart: nat)
    requires MarksOfLine(source, marker, start, end, marks)
    requires start <= closeStart <= end <= |source|
    ensures
      var prefix := source[start..closeStart];
      var last := LastMark(prefix, marker, |prefix|);
      LastBelow(marks, SaturatingSub(closeStart, |marker|)) == if last.Some? then Some(start + last.value) else None
  {
    hide MarkAt;
    var prefix := source[start..closeStart];
    var bound := SaturatingSub(closeStart, |marker|);
    var last := LastMark(prefix, marker, |prefix|);
    var below := LastBelow(marks, bound);
    forall q: nat
      ensures MarkAt(prefix, marker, q) <==> MarkAt(source, marker, start + q) && start + q < bound
    {
      MarkInPrefix(source, marker, start, closeStart, q);
    }
    assert last.Some? ==> start + last.value in marks && start + last.value < bound;
    assert below.Some? ==> MarkAt(prefix, marker, below.value - start);
  }

  /** The scanned line answers for every closer on it. */
  lemma ScanAnswers(source: string, name: string, scan: OwnerLineScan, closeStart: nat)
    requires ScanTrue(source, name, scan) && scan.lineStart <= closeStart <= scan.lineEnd
    ensures OwnerOpenerBeforeScan(scan, closeStart) == LineHasUnmatchedOwnerOpener(source, closeStart, name)
  {
    BoundsOfLine(source, scan.lineStart, scan.lineEnd, closeStart);
    LastBelowIsLastMark(source, "[[" + name, scan.lineStart, scan.lineEnd, scan.opens, closeStart);
    LastBelowIsLastMark(source, "[[/" + name, scan.lineStart, scan.lineEnd, scan.closes, closeStart);
  }

  /** On the closer's line an opener stands before it, its follow byte included,
      and no closer between. */
  ghost predicate OpenerIsUnmatched(source: string, closeStart: nat, name: string)
    requires closeStart <= |source|
  {
    exists p: nat :: LineStart(source, closeStart) <= p && MarkBefore(source, "[[" + name, p, closeStart)
                  && forall q: nat | p <= q :: !MarkBefore(source, "[[/" + name, q, closeStart)
  }

  predicate MarkBefore(source: string, marker: string, p: nat, end: nat) {
    MarkAt(source, marker, p) && p + |marker| < end
  }

  /** Comparing the last opener with the last closer decides it. */
  lemma UnmatchedMeans(source: string, closeStart: nat, name: string)
    requires closeStart <= |source|
    ensures LineHasUnmatchedOwnerOpener(source, closeStart, name) <==> OpenerIsUnmatched(source, closeStart, name)
  {
    hide MarkAt;
    var start := LineStart(source, closeStart);
    var open, close := "[[" + name, "[[/" + name;
    PrefixMarks(source, open, start, closeStart);
    PrefixMarks(source, close, start, closeStart);
  }

  lemma PrefixMarks(source: string, marker: string, start: nat, closeStart: nat)
    requires start <= closeStart <= |source|
    ensures
      var last := LastMark(source[start..closeStart], marker, closeStart - start);
      && (last.Some? ==> MarkBefore(source, marker, start + last.value, closeStart))
      && forall p: nat | start <= p && MarkBefore(source, marker, p, closeStart) ::
           last.Some? && p <= start + last.value
  {
    hide MarkAt;
    var prefix := source[start..closeStart];
    var last := LastMark(prefix, marker, |prefix|);
    if last.Some? {
      MarkInPrefix(source, marker, start, closeStart, last.value);
    }
    forall p: nat | start <= p && MarkBefore(source, marker, p, closeStart)
      ensures last.Some? && p <= start + last.value
    {
      MarkInPrefix(source, marker, start, closeStart, p - start);
      assert MarkAt(prefix, marker, p - start);
    }
  }

  function OwnerSlot(name: string): (r: Option<nat>)
    ensures r.Some? ==> r.value < 3 && EqIgnoreAsciiCase(name, OWNERS[r.value])
    ensures r.None? ==> forall k | 0 <= k < 3 :: !EqIgnoreAsciiCase(name, OWNERS[k])
  {
    if EqIgnoreAsciiCase(name, "div") then Some(0)
    else if EqIgnoreAsciiCase(name, "span") then Some(1)
    else if EqIgnoreAsciiCase(name, "footnote") then Some(2)
    else None
  }

  const OWNERS: seq<string> := ["div", "span", "footnote"]

  lemma FoldedMark(text: string, open: string, a: string, b: string, p: int)
    requires EqIgnoreAsciiCase(a, b)
    ensures MarkAt(text, open + a, p) <==> MarkAt(text, open + b, p)
  {
    assert forall k | 0 <= k < |open + a| :: Lower((open + a)[k]) == Lower((open + b)[k]);
  }

  /** A scan taken under one spelling of a name serves every spelling. */
  lemma ScanIgnoresCase(source: string, a: string, b: string, scan: OwnerLineScan)
    requires EqIgnoreAsciiCase(a, b) && ScanTrue(source, a, scan)
    ensures ScanTrue(source, b, scan)
  {
    forall p ensures MarkAt(source, "[[" + a, p) <==> MarkAt(source, "[[" + b, p) {
      FoldedMark(source, "[[", a, b, p);
    }
    forall p ensures MarkAt(source, "[[/" + a, p) <==> MarkAt(source, "[[/" + b, p) {
      FoldedMark(source, "[[/", a, b, p);
    }
  }

  // ----- closing a div on its line

  const DIV_CLOSE := "[[/div]]"

  /** A `[[/div]]` in any case within the rest of the physical line. */
  ghost predicate DivClosesInSlice(source: string, start: nat)
    requires start <= |source|
  {
    exists p: nat :: start <= p && p + |DIV_CLOSE| <= LineEnd(source, start) && Hit(source, Folded(DIV_CLOSE), p)
  }

  lemma NoBreakInDivClose(source: string, p: nat, q: nat)
    requires Hit(source, Folded(DIV_CLOSE), p) && p <= q < p + |DIV_CLOSE|
    ensures !IsLineBreak(source[q])
  {
    assert source[q] == source[p..p + |DIV_CLOSE|][q - p];
    assert Lower(source[q]) == Lower(DIV_CLOSE[q - p]);
  }

  lemma DivInSlice(source: string, start: nat, close: Option<nat>, lineBreak: Option<nat>)
    requires start <= |source|
    requires IsFirst(source, Folded(DIV_CLOSE), start, close) && IsFirst(source, Break, start, lineBreak)
    ensures (close.Some? && (lineBreak.None? || close.value < lineBreak.value)) <==> DivClosesInSlice(source, start)
  {
    var end := LineEnd(source, start);
    assert end < |source| ==> Hit(source, Break, end);
    assert lineBreak == if end < |source| then Some(end) else None by {
      FirstIsUnique(source, Break, start, lineBreak, if end < |source| then Some(end) else None);
    }
    if close.Some? && (lineBreak.None? || close.value < lineBreak.value) {
      var p := close.value;
      if p + |DIV_CLOSE| > end {
        NoBreakInDivClose(source, p, end);
      }
    }
  }

  // ----- the region of a prospective link

  predicate IsBlankByte(c: char) {
    c == ' ' || c == '\t'
  }

  const COMMENT_OPEN := "[!--"
  const COMMENT_CLOSE := "--]"

  /** Where the region read from `i` on ends: comments are skipped, a line break
      ends it, and after the first blank so does a bracket. */
  function RegionEnd(source: string, i: nat, inLabel: bool): (r: nat)
    requires i <= |source|
    ensures i <= r <= |source|
    decreases |source| - i
  {
    if i == |source| then i
    else if OccursAt(source, COMMENT_OPEN, i) then
      var close := Find(source, COMMENT_CLOSE, i);
      if close.None? then |source| else RegionEnd(source, close.value + 3, inLabel)
    else if IsLineBreak(source[i]) then i
    else if !inLabel && IsBlankByte(source[i]) then RegionEnd(source, i + 1, true)
    else if inLabel && source[i] == ']' then i
    else RegionEnd(source, i + 1, inLabel)
  }

  ghost predicate RegionTrue(source: string, from: nat, end: nat) {
    from <= |source| && end == RegionEnd(source, from, false)
  }

  /** `p` is not inside a comment, for a reading that begins at `from`. */
  ghost predicate Outside(source: string, from: nat, p: nat)
    decreases |source| - from
  {
    var opener := Find(source, COMMENT_OPEN, from);
    from <= p &&
    if opener.None? || p < opener.value then true
    else
      var close := Find(source, COMMENT_CLOSE, opener.value);
      close.Some? && Outside(source, close.value + 3, p)
  }

  /** A line break, or a bracket behind a blank. */
  ghost predicate Stops(source: string, from: nat, inLabel: bool, p: nat) {
    && p < |source| && Outside(source, from, p)
    && (IsLineBreak(source[p])
        || (source[p] == ']' && (inLabel || BlankBefore(source, from, p))))
  }

  ghost predicate BlankBefore(source: string, from: nat, p: nat) {
    exists b: nat :: b < p && b < |source| && IsBlankByte(source[b]) && Outside(source, from, b)
  }

  /** The first place that stops the region, or the end of the text. */
  ghost predicate EndsRegion(source: string, from: nat, inLabel: bool, end: nat) {
    && from <= end <= |source| && (end == |source| || Stops(source, from, inLabel, end))
    && forall p | from <= p < end :: !Stops(source, from, inLabel, p)
  }

  lemma OneRegionEnd(source: string, from: nat, one: nat, other: nat)
    requires EndsRegion(source, from, false, one) && EndsRegion(source, from, false, other)
    ensures one == other
  {
    hide Stops;
  }

  lemma OutsideComment(source: string, from: nat, p: nat)
    requires from < |source| && OccursAt(source, COMMENT_OPEN, from)
    ensures
      var close := Find(source, COMMENT_CLOSE, from);
      Outside(source, from, p) <==> close.Some? && Outside(source, close.value + 3, p)
  {
    assert Find(source, COMMENT_OPEN, from) == Some(from);
  }

  lemma OutsidePlain(source: string, from: nat, p: nat)
    requires from < |source| && !OccursAt(source, COMMENT_OPEN, from)
    ensures Outside(source, from, p) <==> p == from || Outside(source, from + 1, p)
  {
    FindSkips(source, COMMENT_OPEN, from, from + 1);
    hide Find, OccursAt;
    OutsideStep(source, from, p);
    OutsideStep(source, from + 1, p);
    hide Outside;
  }

  lemma OutsideStep(source: string, from: nat, p: nat)
    ensures
      var opener := Find(source, COMMENT_OPEN, from);
      Outside(source, from, p)
      <==> from <= p
           && (opener.None? || p < opener.value
               || (Find(source, COMMENT_CLOSE, opener.value).Some?
                   && Outside(source, Find(source, COMMENT_CLOSE, opener.value).value + 3, p)))
  {
    hide Find, OccursAt;
  }

  lemma StopsBehindComment(source: string, from: nat, inLabel: bool, p: nat)
    requires from < |source| && OccursAt(source, COMMENT_OPEN, from)
    ensures
      var close := Find(source, COMMENT_CLOSE, from);
      Stops(source, from, inLabel, p) <==> close.Some? && Stops(source, close.value + 3, inLabel, p)
  {
    hide Outside, Find, OccursAt, IsBlankByte;
    var close := Find(source, COMMENT_CLOSE, from);
    forall q: nat ensures Outside(source, from, q) <==> close.Some? && Outside(source, close.value + 3, q) {
      OutsideComment(source, from, q);
    }
  }

  lemma StopsLater(source: string, from: nat, inLabel: bool, p: nat)
    requires from < |source| && !OccursAt(source, COMMENT_OPEN, from) && from < p
    ensures Stops(source, from, inLabel, p)
       <==> Stops(source, from + 1, inLabel || IsBlankByte(source[from]), p)
  {
    hide Outside, Find, OccursAt, IsBlankByte;
    forall q: nat ensures Outside(source, from, q) <==> q == from || Outside(source, from + 1, q) {
      OutsidePlain(source, from, q);
    }
  }

  /** The region ends at the first line break or, behind a blank, bracket that
      stands outside the comments. */
  lemma {:induction false} RegionEnds(source: string, i: nat, inLabel: bool)
    requires i <= |source|
    ensures EndsRegion(source, i, inLabel, RegionEnd(source, i, inLabel))
    decreases |source| - i
  {
    hide Stops, Outside, IsBlankByte;
    if i < |source| {
      if OccursAt(source, COMMENT_OPEN, i) {
        var close := Find(source, COMMENT_CLOSE, i);
        forall p ensures Stops(source, i, inLabel, p) <==> close.Some? && Stops(source, close.value + 3, inLabel, p) {
          StopsBehindComment(source, i, inLabel, p);
        }
        if close.Some? {
          RegionEnds(source, close.value + 3, inLabel);
          StopsAreLater(source, close.value + 3, inLabel);
        }
      } else {
        StopsHere(source, i, inLabel);
        if !Stops(source, i, inLabel, i) {
          var label' := inLabel || IsBlankByte(source[i]);
          RegionEnds(source, i + 1, label');
          forall p | i < p ensures Stops(source, i, inLabel, p) <==> Stops(source, i + 1, label', p) {
            StopsLater(source, i, inLabel, p);
          }
        }
      }
    }
  }

  lemma StopsAreLater(source: string, from: nat, inLabel: bool)
    ensures forall p: nat | Stops(source, from, inLabel, p) :: from <= p
  {
  }

  lemma StopsHere(source: string, i: nat, inLabel: bool)
    requires i < |source| && !OccursAt(source, COMMENT_OPEN, i)
    ensures Stops(source, i, inLabel, i) <==> IsLineBreak(source[i]) || (inLabel && source[i] == ']')
    ensures Stops(source, i, inLabel, i) ==> RegionEnd(source, i, inLabel) == i
    ensures !Stops(source, i, inLabel, i) ==>
              RegionEnd(source, i, inLabel) == RegionEnd(source, i + 1, inLabel || IsBlankByte(source[i]))
  {
    OutsidePlain(source, i, i);
  }

  method EndBlockLinkRegionEnd(source: string, start: nat) returns (regionEnd: nat)
    requires start + 2 <= |source|
    ensures regionEnd == RegionEnd(source, start + 2, false)
    ensures EndsRegion(source, start + 2, false, regionEnd)
  {
    hide EndsRegion;
    RegionEnds(source, start + 2, false);
    regionEnd := |source|;
    var labelStart: Option<nat> := None;
    var i := start + 2;
    var done := false;
    while i < |source| && !done
      invariant start + 2 <= i <= |source|
      invariant !done ==>
                  && regionEnd == |source|
                  && RegionEnd(source, start + 2, false) == RegionEnd(source, i, labelStart.Some?)
      invariant done ==> regionEnd == RegionEnd(source, start + 2, false)
      decreases |source| - i, if done then 0 else 1
    {
      if OccursAt(source, COMMENT_OPEN, i) {
        var close := Find(source, COMMENT_CLOSE, i);
        i := if close.Some? then close.value + 3 else |source|;
      } else if IsLineBreak(source[i]) {
        regionEnd, done := i, true;
      } else if labelStart.None? && IsBlankByte(source[i]) {
        labelStart := Some(i + 1);
        i := i + 1;
      } else if labelStart.Some? && source[i] == ']' {
        regionEnd, done := i, true;
      } else {
        i := i + 1;
      }
    }
  }

  /** No comment opener lies across `p`. */
  predicate NotStraddled(source: string, p: nat) {
    forall q: nat | q < p < q + |COMMENT_OPEN| :: !OccursAt(source, COMMENT_OPEN, q)
  }

  /** Text without blanks or comments is read one byte at a time, so a region
      that reaches past it ends where the region read after it ends. */
  lemma {:induction false} RegionSkips(source: string, i: nat, from: nat)
    requires i <= |source| && i <= from <= RegionEnd(source, i, false)
    requires forall q | i <= q < from :: !IsBlankByte(source[q])
    requires forall q | i <= q && q + |COMMENT_OPEN| <= from :: !OccursAt(source, COMMENT_OPEN, q)
    requires NotStraddled(source, from)
    ensures RegionEnd(source, from, false) == RegionEnd(source, i, false)
    decreases from - i
  {
    if i < from {
      assert !OccursAt(source, COMMENT_OPEN, i);
      RegionSkips(source, i + 1, from);
    }
  }

  /** Where the source reads `[[/`, nothing straddles the byte after the
      brackets. */
  lemma CloserIsNotStraddled(source: string, start: nat)
    requires OccursAt(source, "[[/", start)
    ensures NotStraddled(source, start + 2)
  {
    var p := start + 2;
    assert source[p] == source[start..start + 3][2] == '/';
    forall q: nat | q < p < q + |COMMENT_OPEN|
      ensures !OccursAt(source, COMMENT_OPEN, q)
    {
      OccurrenceByte(source, COMMENT_OPEN, q, p - q);
    }
  }

  lemma OccurrenceByte(s: string, pat: string, p: nat, k: nat)
    requires k < |pat|
    ensures OccursAt(s, pat, p) ==> s[p + k] == pat[k]
  {
    assert OccursAt(s, pat, p) ==> s[p + k] == s[p..p + |pat|][k];
  }

  lemma PlainByte(source: string, i: nat)
    requires i < |source| && !OccursAt(source, COMMENT_OPEN, i)
    requires !IsLineBreak(source[i]) && !IsBlankByte(source[i])
    ensures RegionEnd(source, i, false) == RegionEnd(source, i + 1, false)
  {
  }

  lemma RegionStops(source: string, i: nat)
    requires i <= |source| && (i < |source| ==> !OccursAt(source, COMMENT_OPEN, i) && IsLineBreak(source[i]))
    ensures RegionEnd(source, i, false) == i
  {
  }

  lemma CommentSkipped(source: string, i: nat, close: nat)
    requires OccursAt(source, COMMENT_OPEN, i) && Find(source, COMMENT_CLOSE, i) == Some(close)
    ensures RegionEnd(source, i, false) == RegionEnd(source, close + 3, false)
  {
  }

  /** Elsewhere a comment opener can lie across the reused position: here the
      first region skips the comment, a fresh scan from inside it does not. */
  lemma ReuseNeedsCloser()
    ensures
      var source := "ab[!--\n--]";
      && RegionEnd(source, 2, false) == 10 && RegionEnd(source, 3, false) == 6
      && !NotStraddled(source, 3) && !OccursAt(source, "[[/", 1)
      && (forall q | 2 <= q < 3 :: !IsBlankByte(source[q])) && Find(source[2..3], COMMENT_OPEN, 0).None?
  {
    hide RegionEnd;
    var source := "ab[!--\n--]";
    assert OccursAt(source, COMMENT_OPEN, 2) && OccursAt(source, COMMENT_CLOSE, 7);
    assert source[2..3] == "[";
    forall q: nat | 2 <= q < 7 ensures !OccursAt(source, COMMENT_CLOSE, q) {
      OccurrenceByte(source, COMMENT_CLOSE, q, if q == 4 then 2 else if q == 5 then 1 else 0);
    }
    FindSkips(source, COMMENT_CLOSE, 2, 7);
    CommentSkipped(source, 2, 7);
    RegionStops(source, 10);
    forall q: nat | 3 <= q < 7 ensures !OccursAt(source, COMMENT_OPEN, q) {
      OccurrenceByte(source, COMMENT_OPEN, q, 0);
    }
    PlainByte(source, 3);
    PlainByte(source, 4);
    PlainByte(source, 5);
    RegionStops(source, 6);
  }

  // ----- the cache

  class UnmatchedCloseScanCache {
    const source: string
    var lineBounds: Option<(nat, nat)>
    var doubleBracket: Slot
    var singleBracket: Slot
    var ownerScans: seq<Option<OwnerLineScan>>
    var linkRegion: Option<(nat, nat)>
    var divLineClose: Slot
    var nextLineBreak: Slot

    ghost predicate Valid()
      reads this
    {
      && (lineBounds.Some? ==> IsLine(source, lineBounds.value.0, lineBounds.value.1))
      && SlotTrue(source, Literal("]]"), doubleBracket)
      && SlotTrue(source, Literal("]"), singleBracket)
      && |ownerScans| == 3
      && (forall k | 0 <= k < 3 && ownerScans[k].Some? :: ScanTrue(source, OWNERS[k], ownerScans[k].value))
      && (linkRegion.Some? ==> RegionTrue(source, linkRegion.value.0, linkRegion.value.1))
      && SlotTrue(source, Folded(DIV_CLOSE), divLineClose)
      && SlotTrue(source, Break, nextLineBreak)
    }

    constructor (source: string)
      ensures Valid() && this.source == source
    {
      this.source := source;
      lineBounds, doubleBracket, singleBracket := None, None, None;
      ownerScans := [None, None, None];
      linkRegion, divLineClose, nextLineBreak := None, None, None;
    }

    method UnmatchedLineBounds(pos: nat) returns (lineStart: nat, lineEnd: nat)
      requires Valid() && pos <= |source|
      modifies this`lineBounds
      ensures Valid()
      ensures lineStart == LineStart(source, pos) && lineEnd == LineEnd(source, pos)
    {
      if lineBounds.Some? && lineBounds.value.0 <= pos <= lineBounds.value.1 {
        BoundsOfLine(source, lineBounds.value.0, lineBounds.value.1, pos);
        return lineBounds.value.0, lineBounds.value.1;
      }
      lineStart := LineStart(source, pos);
      lineEnd := LineEnd(source, pos);
      lineBounds := Some((lineStart, lineEnd));
    }

    method CachedCloseMarker(start: nat) returns (found: Option<nat>)
      requires Valid() && start <= |source|
      modifies this`doubleBracket
      ensures Valid()
      ensures found == Find(source, "]]", start)
    {
      var answer, _, slot := FindForward(source, doubleBracket, "]]", start);
      doubleBracket := slot;
      return answer;
    }

    method CachedCloseBracket(start: nat) returns (found: Option<nat>)
      requires Valid() && start <= |source|
      modifies this`singleBracket
      ensures Valid()
      ensures found == Find(source, "]", start)
    {
      var answer, _, slot := FindForward(source, singleBracket, "]", start);
      singleBracket := slot;
      return answer;
    }

    method CachedOwnerOpenerBefore(closeStart: nat, name: string) returns (r: Option<bool>)
      requires Valid() && closeStart <= |source|
      modifies this`lineBounds, this`ownerScans
      ensures Valid()
      ensures r == if OwnerSlot(name).Some? then Some(LineHasUnmatchedOwnerOpener(source, closeStart, name)) else None
      ensures r.Some? ==> (r.value <==> OpenerIsUnmatched(source, closeStart, name))
    {
      hide OpenerIsUnmatched, LineHasUnmatchedOwnerOpener, OwnerOpenerBeforeScan, MarkAt, LastMark, LastBelow,
           OwnerSlot;
      UnmatchedMeans(source, closeStart, name);
      var slot := OwnerSlot(name);
      if slot.None? {
        return None;
      }
      var lineStart, lineEnd := UnmatchedLineBounds(closeStart);
      var cached := ownerScans[slot.value];
      if cached.Some? && cached.value.lineStart == lineStart && cached.value.lineEnd == lineEnd {
        ScanIgnoresCase(source, OWNERS[slot.value], name, cached.value);
        ScanAnswers(source, name, cached.value, closeStart);
        return Some(OwnerOpenerBeforeScan(cached.value, closeStart));
      }
      var computed := PrecomputeOwnerLine(source, lineStart, lineEnd, name);
      ScanAnswers(source, name, computed, closeStart);
      ScanIgnoresCase(source, name, OWNERS[slot.value], computed);
      ownerScans := ownerScans[slot.value := Some(computed)];
      return Some(OwnerOpenerBeforeScan(computed, closeStart));
    }

    method WikidotDivClosesOnPhysicalLine(start: nat) returns (r: bool)
      requires Valid() && start <= |source|
      modifies this`divLineClose, this`nextLineBreak
      ensures Valid()
      ensures r <==> DivClosesInSlice(source, start)
    {
      var close, _, slot := FindForwardIgnoreAsciiCase(source, divLineClose, DIV_CLOSE, start);
      divLineClose := slot;
      var lineBreak, _, slot' := FindForwardLineBreak(source, nextLineBreak, start);
      nextLineBreak := slot';
      DivInSlice(source, start, close, lineBreak);
      return close.Some? && (lineBreak.None? || close.value < lineBreak.value);
    }

    method CachedEndBlockLinkRegion(start: nat) returns (regionEnd: nat)
      requires Valid() && OccursAt(source, "[[/", start)
      modifies this`linkRegion
      ensures Valid()
      ensures regionEnd == RegionEnd(source, start + 2, false)
      ensures EndsRegion(source, start + 2, false, regionEnd)
    {
      hide EndsRegion;
      RegionEnds(source, start + 2, false);
      var from := start + 2;
      if linkRegion.Some? && linkRegion.value.0 <= from <= linkRegion.value.1 {
        var scanFrom, end := linkRegion.value.0, linkRegion.value.1;
        var skipped := source[scanFrom..from];
        if (forall q | 0 <= q < |skipped| :: !IsBlankByte(skipped[q])) && Find(skipped, COMMENT_OPEN, 0).None? {
          CloserIsNotStraddled(source, start);
          SkippedText(source, scanFrom, from);
          RegionSkips(source, scanFrom, from);
          linkRegion := Some((from, end));
          return end;
        }
      }
      regionEnd := EndBlockLinkRegionEnd(source, start);
      linkRegion := Some((from, regionEnd));
    }
  }

  lemma SkippedText(source: string, i: nat, from: nat)
    requires i <= from <= |source|
    requires forall q | 0 <= q < |source[i..from]| :: !IsBlankByte(source[i..from][q])
    requires Find(source[i..from], COMMENT_OPEN, 0).None?
    ensures forall q | i <= q < from :: !IsBlankByte(source[q])
    ensures forall q | i <= q && q + |COMMENT_OPEN| <= from :: !OccursAt(source, COMMENT_OPEN, q)
  {
    var skipped := source[i..from];
    assert forall q | i <= q < from :: source[q] == skipped[q - i];
    forall q | i <= q && q + |COMMENT_OPEN| <= from
      ensures !OccursAt(source, COMMENT_OPEN, q)
    {
      assert source[q..q + 4] == skipped[q - i..q - i + 4];
      assert !OccursAt(skipped, COMMENT_OPEN, q - i);
    }
  }
}
