/** The `[[code]]` scan as it runs: a moving cursor, a stack of open blocks and
    two forward-only memos. Each loop is proved against `WikidotCodeSpec`. */
module WikidotCode {
  import opened Bytes
  import opened WikidotCodeSpec

  // ----- the `]]` memo

  /** A snapshot of the cursor, with the number of bytes its searches read. */
  datatype Memo = Memo(scannedFrom: nat, found: Option<nat>, scanned: nat)

  /** Bytes read by a search for `]]` from `p` that answered `r`. */
  function SearchCost(src: string, p: nat, r: Option<nat>): (n: nat) {
    if r.Some? && r.value + 2 >= p then r.value + 2 - p else if p <= |src| then |src| - p else 0
  }

  ghost predicate MemoValid(src: string, m: Memo) {
    && (m.found.Some? ==> m.found == Find(src, "]]", m.scannedFrom))
    && (m.found.None? && m.scannedFrom != 0 ==> Find(src, "]]", m.scannedFrom).None?)
    && m.scannedFrom <= |src|
  }

  /** How one ask moves the memo. */
  ghost function Ask(src: string, m: Memo, p: nat): Memo {
    var r := Find(src, "]]", p);
    if p < m.scannedFrom then m.(scanned := m.scanned + SearchCost(src, p, r))
    else if m.found.Some? && m.found.value >= p then m
    else if m.found.None? && m.scannedFrom != 0 then m
    else if p > |src| then m
    else Memo(p, r, m.scanned + SearchCost(src, p, r))
  }

  class CloseBracketCursor {
    const source: string
    var scannedFrom: nat
    var found: Option<nat>
    ghost var scanned: nat

    ghost function Snapshot(): Memo
      reads this
    {
      Memo(scannedFrom, found, scanned)
    }

    ghost predicate Valid()
      reads this
    {
      MemoValid(source, Snapshot())
    }

    constructor (source: string)
      ensures Valid() && this.source == source && Snapshot() == Memo(0, None, 0)
    {
      this.source := source;
      scannedFrom, found, scanned := 0, None, 0;
    }

    /** The memo answers every ask, forward or backward, as a fresh search does. */
    method NextAt(position: nat) returns (r: Option<nat>)
      requires Valid()
      modifies this
      ensures Valid() && r == Find(source, "]]", position)
      ensures Snapshot() == Ask(source, old(Snapshot()), position)
    {
      if position < scannedFrom {
        r := Find(source, "]]", position);
        scanned := scanned + SearchCost(source, position, r);
        return;
      }
      if found.Some? {
        if found.value >= position {
          FindSkips(source, "]]", scannedFrom, position);
          return found;
        }
      } else if scannedFrom != 0 {
        return None;
      }
      if position > |source| {
        return None;
      }
      r := Find(source, "]]", position);
      scannedFrom, found := position, r;
      scanned := scanned + SearchCost(source, position, r);
    }
  }

  /** How far the memo has committed to never reading again. */
  ghost function Frontier(src: string, m: Memo): nat {
    if m.found.Some? then m.found.value + 1 else if m.scannedFrom == 0 then 0 else |src| + 1
  }

  ghost predicate WithinBudget(src: string, m: Memo) {
    MemoValid(src, m) && m.scanned <= 5 * Frontier(src, m)
  }

  lemma EmptyMemo(src: string)
    ensures WithinBudget(src, Memo(0, None, 0))
  {
  }

  lemma BudgetBound(src: string, m: Memo)
    requires WithinBudget(src, m)
    ensures m.scanned <= 5 * (|src| + 1)
  {
  }

  /** A forward ask pays for what it reads with the distance it moves. */
  lemma ForwardAsk(src: string, m: Memo, p: nat)
    requires MemoValid(src, m) && m.scannedFrom <= p <= |src| && p > 0
    ensures MemoValid(src, Ask(src, m, p)) && Ask(src, m, p).scannedFrom <= p
    ensures Frontier(src, Ask(src, m, p)) >= Frontier(src, m)
    ensures Ask(src, m, p) == m || (Ask(src, m, p).scannedFrom == p && Frontier(src, Ask(src, m, p)) > Frontier(src, m))
    ensures Ask(src, m, p).scanned - m.scanned <= 2 * (Frontier(src, Ask(src, m, p)) - Frontier(src, m))
    ensures Ask(src, m, p) != m ==> Ask(src, m, p).scanned == m.scanned + SearchCost(src, p, Find(src, "]]", p))
  {
    if m.found.None? && m.scannedFrom != 0 {
      FindSkips(src, "]]", m.scannedFrom, m.scannedFrom);
    }
  }

  lemma AskKeepsBudget(src: string, m: Memo, p: nat)
    requires WithinBudget(src, m) && m.scannedFrom <= p <= |src| && p > 0
    ensures WithinBudget(src, Ask(src, m, p)) && Ask(src, m, p).scannedFrom <= p
  {
    hide MemoValid, Ask, Frontier;
    ForwardAsk(src, m, p);
  }

  /** Asking once more, one byte back, reads the same answer again. */
  lemma BackAsk(src: string, m: Memo, p: nat)
    requires WithinBudget(src, m) && m.scannedFrom <= p < |src| && p > 0
    requires Find(src, "]]", p) == Find(src, "]]", p + 1)
    ensures
      var second := Ask(src, Ask(src, m, p + 1), p);
      WithinBudget(src, second) && second.scannedFrom <= p + 1
  {
    hide MemoValid, Frontier, Find;
    var first := Ask(src, m, p + 1);
    ForwardAsk(src, m, p + 1);
    AskKeepsBudget(src, m, p + 1);
    if first.scannedFrom <= p {
      AskKeepsBudget(src, first, p);
    } else {
      RepeatedCost(src, p, Find(src, "]]", p));
      BackKeepsFrontier(src, first, p);
    }
  }

  /** Both asks one `[[` may cause (its closer head, then its opener head) stay
      within a budget of five bytes for each byte the memo moves forward. */
  lemma MarkerAsks(src: string, m: Memo, marker: nat)
    requires WithinBudget(src, m) && m.scannedFrom <= marker + 1 && OccursAt(src, "[[", marker)
    ensures OccursAt(src, "[[/", marker) ==>
              WithinBudget(src, Ask(src, m, marker + 3)) && Ask(src, m, marker + 3).scannedFrom <= marker + 3
    ensures OccursAt(src, "[[/", marker) ==>
              var second := Ask(src, Ask(src, m, marker + 3), marker + 2);
              WithinBudget(src, second) && second.scannedFrom <= marker + 3
    ensures WithinBudget(src, Ask(src, m, marker + 2)) && Ask(src, m, marker + 2).scannedFrom <= marker + 3
  {
    hide WithinBudget, Ask;
    AskKeepsBudget(src, m, marker + 2);
    if OccursAt(src, "[[/", marker) {
      AskKeepsBudget(src, m, marker + 3);
      SlashIsNoBracket(src, marker);
      FindSkips(src, "]]", marker + 2, marker + 3);
      BackAsk(src, m, marker + 2);
    }
  }

  lemma RepeatedCost(src: string, p: nat, r: Option<nat>)
    ensures SearchCost(src, p, r) <= SearchCost(src, p + 1, r) + 1
  {
  }

  lemma BackKeepsFrontier(src: string, m: Memo, p: nat)
    requires MemoValid(src, m) && p < m.scannedFrom
    ensures MemoValid(src, Ask(src, m, p)) && Frontier(src, Ask(src, m, p)) == Frontier(src, m)
  {
    hide Find;
  }

  lemma SlashIsNoBracket(src: string, marker: nat)
    requires OccursAt(src, "[[/", marker)
    ensures marker + 3 <= |src| && !OccursAt(src, "]]", marker + 2)
  {
    assert src[marker + 2] == src[marker..marker + 3][2] == '/';
    if OccursAt(src, "]]", marker + 2) {
      OpenBrackets(src, marker + 2);
    }
  }

  // ----- the line memo

  class LineOwnership {
    var scannedUpto: nat
    var clean: bool
    ghost var bytesRead: nat

    ghost predicate Valid(src: string)
      reads this
    {
      scannedUpto <= |src| && clean == HasPhysicalLineOwnership(src, scannedUpto) && bytesRead == scannedUpto
    }

    constructor (src: string)
      ensures Valid(src) && scannedUpto == 0
    {
      scannedUpto, clean, bytesRead := 0, true, 0;
    }

    /** Asked left to right, the memo answers as a fresh look at the line does,
        and it has read each byte before `position` exactly once. */
    method At(src: string, position: nat) returns (owned: bool)
      requires Valid(src) && scannedUpto <= position <= |src|
      modifies this
      ensures Valid(src) && scannedUpto == position
      ensures owned == HasPhysicalLineOwnership(src, position)
    {
      var q := scannedUpto;
      while q < position
        invariant scannedUpto <= q <= position
        invariant clean == HasPhysicalLineOwnership(src, q)
        invariant bytesRead == q && scannedUpto == old(scannedUpto)
      {
        OwnershipStep(src, q);
        if src[q] == '\n' {
          clean := true;
        } else if !IsLinePadding(src[q]) {
          clean := false;
        }
        q := q + 1;
        bytesRead := bytesRead + 1;
      }
      scannedUpto := position;
      return clean;
    }
  }

  // ----- recognisers through the memo

  method CodeOpenerEndChecked(src: string, openerStart: nat, lineOwnership: Option<bool>, cursor: CloseBracketCursor)
    returns (r: Option<nat>)
    requires cursor.Valid() && cursor.source == src
    modifies cursor
    ensures cursor.Valid()
    ensures r == if lineOwnership == Some(false) then None else OpenerEnd(src, openerStart)
    ensures cursor.Snapshot() ==
            if OccursAt(src, "[[", openerStart) && lineOwnership != Some(false)
            then Ask(src, old(cursor.Snapshot()), openerStart + 2) else old(cursor.Snapshot())
  {
    if !OccursAt(src, "[[", openerStart) || lineOwnership == Some(false) {
      return None;
    }
    var headStart := openerStart + 2;
    var close := cursor.NextAt(headStart);
    if close.None? {
      return None;
    }
    var head := src[headStart..close.value];
    var name := head[..NameEnd(head)];
    return if EqIgnoreAsciiCase(name, "code") then Some(close.value + 2) else None;
  }

  method CodeCloserMarkerEnd(src: string, closerStart: nat, cursor: CloseBracketCursor) returns (r: Option<nat>)
    requires cursor.Valid() && cursor.source == src
    modifies cursor
    ensures cursor.Valid()
    ensures r == CloserMarkerEnd(src, closerStart)
    ensures cursor.Snapshot() ==
            if OccursAt(src, "[[/", closerStart)
            then Ask(src, old(cursor.Snapshot()), closerStart + 3) else old(cursor.Snapshot())
  {
    if !OccursAt(src, "[[/", closerStart) {
      return None;
    }
    var headStart := closerStart + 3;
    var close := cursor.NextAt(headStart);
    if close.None? {
      return None;
    }
    var name := src[headStart..close.value];
    return if EqIgnoreAsciiCase(name, "code") then Some(close.value + 2) else None;
  }

  /** The saturating depth count decides exactly whether the body leaves a
      `[[bold]]` open in front of a `[[/bold]]`. */
  method CrossesBold(body: string, suffix: string) returns (crosses: bool)
    ensures crosses == CrossesBoldCloser(body, suffix)
  {
    var first := MarkerAt(suffix, 0);
    if first.None? || !first.value.closing || !EqIgnoreAsciiCase(first.value.name, "bold") {
      return false;
    }
    var depth: nat, cursor: nat := 0, 0;
    while true
      invariant cursor <= |body|
      invariant SaturatingDepth(BoldMarks(body, cursor), depth) == SaturatingDepth(BoldMarks(body, 0), 0)
      decreases |body| - cursor
    {
      var found := Find(body, "[[", cursor);
      if found.None? {
        break;
      }
      var marker := MarkerAt(body, found.value);
      if marker.None? {
        cursor := found.value + 2;
        continue;
      }
      ghost var rest := BoldMarks(body, marker.value.end);
      cursor := marker.value.end;
      if !EqIgnoreAsciiCase(marker.value.name, "bold") {
        assert [] + rest == rest;
        continue;
      }
      assert ([marker.value.closing] + rest)[1..] == rest;
      if marker.value.closing {
        depth := if depth == 0 then 0 else depth - 1;
      } else {
        depth := depth + 1;
      }
    }
    SaturatingDepthMeaning(BoldMarks(body, 0), 0);
    ghost var marks := BoldMarks(body, 0);
    assert marks != [] ==> marks[0..] == marks;
    return depth > 0;
  }

  // ----- the scan

  datatype OpenCode = OpenCode(openerStart: nat, bodyStart: nat, nestedCloses: nat, fallbackCloser: Option<(nat, nat)>)

  /** Where the events counted for the `t`-th open block end: at the next open
      block, or at event `k` for the innermost one. */
  ghost function Upper(idx: seq<nat>, k: nat, t: nat): nat
    requires t < |idx|
  {
    if t + 1 < |idx| then idx[t + 1] else k
  }

  ghost function CloserPair(es: seq<Event>, j: Option<nat>): Option<(nat, nat)>
    requires j.Some? ==> j.value < |es|
  {
    if j.None? then None else Some((es[j.value].at, es[j.value].Next()))
  }

  ghost predicate FrameOk(es: seq<Event>, open: OpenCode, i: nat, hi: nat) {
    && i < hi <= |es| && es[i] == Open(open.openerStart, open.bodyStart)
    && open.nestedCloses == Closes(es, i + 1, hi)
    && open.fallbackCloser == CloserPair(es, LastClose(es, i + 1, hi))
  }

  /** After `k` events the stack holds the openers still open, at events `idx`,
      each with the closers met between it and the opener above it. */
  ghost predicate StackOk(es: seq<Event>, k: nat, stack: seq<OpenCode>, idx: seq<nat>) {
    && |idx| == |stack| && k <= |es|
    && (forall t | 0 <= t < |idx| :: idx[t] < k)
    && (forall s, t | 0 <= s < t < |idx| :: idx[s] < idx[t])
    && (forall t | 0 <= t < |idx| :: FrameOk(es, stack[t], idx[t], Upper(idx, k, t)))
  }

  /** From event `k` on, the opener at `i` waits for `depth` more closers than its own. */
  ghost predicate Waits(es: seq<Event>, i: nat, k: nat, depth: nat) {
    Match(es, i + 1, 0) == Match(es, k, depth)
  }

  ghost predicate Pending(es: seq<Event>, k: nat, idx: seq<nat>) {
    forall t | 0 <= t < |idx| :: Waits(es, idx[t], k, |idx| - 1 - t)
  }

  ghost predicate AllRecorded(src: string, es: seq<Event>, k: nat, idx: seq<nat>, out: map<nat, Candidate>)
    requires Ordered(|src|, 0, es) && k <= |es|
  {
    forall i | 0 <= i < k && es[i].Open? && i !in idx :: Records(src, es, i, out)
  }

  ghost predicate ClosedOpener(es: seq<Event>, k: nat, idx: seq<nat>, p: nat) {
    exists i :: IsOpener(es, i, p) && i < k && i !in idx
  }

  ghost predicate OnlyOpeners(es: seq<Event>, k: nat, idx: seq<nat>, out: map<nat, Candidate>) {
    forall p | p in out :: ClosedOpener(es, k, idx, p)
  }

  /** The map is right for every opener met and no longer open. */
  ghost predicate Settled(src: string, es: seq<Event>, k: nat, idx: seq<nat>, out: map<nat, Candidate>)
    requires Ordered(|src|, 0, es) && k <= |es|
  {
    AllRecorded(src, es, k, idx, out) && OnlyOpeners(es, k, idx, out)
  }

  lemma PushFrame(es: seq<Event>, k: nat, stack: seq<OpenCode>, idx: seq<nat>, open: OpenCode)
    requires StackOk(es, k, stack, idx)
    requires k < |es| && es[k].Open? && open == OpenCode(es[k].at, es[k].Next(), 0, None)
    ensures StackOk(es, k + 1, stack + [open], idx + [k])
  {
    var upIdx, upStack := idx + [k], stack + [open];
    forall t | 0 <= t < |upIdx| ensures FrameOk(es, upStack[t], upIdx[t], Upper(upIdx, k + 1, t)) {
      if t < |idx| {
        assert upIdx[t] == idx[t] && upStack[t] == stack[t];
        assert Upper(upIdx, k + 1, t) == Upper(idx, k, t);
        assert FrameOk(es, stack[t], idx[t], Upper(idx, k, t));
      }
    }
  }

  lemma WaitsStep(es: seq<Event>, i: nat, k: nat, depth: nat)
    requires k < |es| && Waits(es, i, k, depth)
    ensures es[k].Open? ==> Waits(es, i, k + 1, depth + 1)
    ensures es[k].Close? && depth > 0 ==> Waits(es, i, k + 1, depth - 1)
    ensures es[k].Close? && depth == 0 ==> Match(es, i + 1, 0) == Some(k)
  {
  }

  lemma WaitsFirst(es: seq<Event>, k: nat)
    ensures Waits(es, k, k + 1, 0)
  {
  }

  /** The searches for balancing closers, carried over one event. */
  lemma PendingStep(es: seq<Event>, k: nat, idx: seq<nat>)
    requires k < |es| && Pending(es, k, idx)
    ensures es[k].Open? ==> Pending(es, k + 1, idx + [k])
    ensures es[k].Close? && |idx| > 0 ==>
              Pending(es, k + 1, idx[..|idx| - 1]) && Match(es, idx[|idx| - 1] + 1, 0) == Some(k)
  {
    hide Waits, Match;
    var n := |idx|;
    forall t | 0 <= t < n
      ensures es[k].Open? ==> Waits(es, idx[t], k + 1, n - t)
      ensures es[k].Close? && t < n - 1 ==> Waits(es, idx[t], k + 1, n - 2 - t)
      ensures es[k].Close? && t == n - 1 ==> Match(es, idx[t] + 1, 0) == Some(k)
    {
      WaitsStep(es, idx[t], k, n - 1 - t);
    }
    WaitsFirst(es, k);
  }

  /** The frame below takes over the closers of a popped frame. */
  function Inherit(open: OpenCode, extra: nat, closer: (nat, nat)): OpenCode {
    open.(nestedCloses := open.nestedCloses + extra, fallbackCloser := Some(closer))
  }

  /** The stack after a pop, with the closers handed down. */
  function Popped(stack: seq<OpenCode>, extra: nat, closer: Option<(nat, nat)>): seq<OpenCode>
    requires |stack| > 0
  {
    var n := |stack| - 1;
    if n == 0 || closer.None? then stack[..n]
    else stack[..n][n - 1 := Inherit(stack[n - 1], extra, closer.value)]
  }

  /** Joining two neighbouring frames: the closers above the lower opener. */
  lemma JoinFrames(es: seq<Event>, lower: OpenCode, upper: OpenCode, i: nat, j: nat, hi: nat)
    requires FrameOk(es, lower, i, j) && FrameOk(es, upper, j, hi)
    ensures upper.fallbackCloser.None? ==> FrameOk(es, lower, i, hi)
    ensures upper.fallbackCloser.Some? ==>
              FrameOk(es, Inherit(lower, upper.nestedCloses, upper.fallbackCloser.value), i, hi)
  {
    ClosesSplit(es, i + 1, j, hi);
    ClosesSplit(es, j, j + 1, hi);
    assert es[j].Open?;
    assert Closes(es, j, j + 1) == Closes(es, j, j);
    ClosesSplit(es, j + 1, hi, hi);
    ClosesSplit(es, j, j, j + 1);
  }

  /** A frame that sees one more closer. */
  lemma CloseFrame(es: seq<Event>, open: OpenCode, i: nat, k: nat)
    requires FrameOk(es, open, i, k) && k < |es| && es[k].Close?
    ensures FrameOk(es, Inherit(open, 1, (es[k].at, es[k].Next())), i, k + 1)
  {
  }

  lemma PopFrame(es: seq<Event>, k: nat, stack: seq<OpenCode>, idx: seq<nat>, next: nat, top: OpenCode)
    requires StackOk(es, k, stack, idx) && |stack| > 0 && k <= next <= |es|
    requires FrameOk(es, top, idx[|idx| - 1], next)
    ensures StackOk(es, next, Popped(stack, top.nestedCloses, top.fallbackCloser), idx[..|idx| - 1])
  {
    var n := |idx| - 1;
    var rest, out := idx[..n], Popped(stack, top.nestedCloses, top.fallbackCloser);
    forall t | 0 <= t < n ensures FrameOk(es, out[t], rest[t], Upper(rest, next, t)) {
      assert FrameOk(es, stack[t], idx[t], Upper(idx, k, t));
      if t == n - 1 {
        assert Upper(idx, k, t) == idx[n];
        JoinFrames(es, stack[t], top, idx[t], idx[n], next);
      } else {
        assert Upper(rest, next, t) == Upper(idx, k, t);
      }
    }
  }

  // ----- the scan itself

  lemma StaysClosed(es: seq<Event>, k: nat, idx: seq<nat>, k': nat, idx': seq<nat>, p: nat)
    requires ClosedOpener(es, k, idx, p) && k <= k'
    requires forall i | 0 <= i < k && i !in idx :: i !in idx'
    ensures ClosedOpener(es, k', idx', p)
  {
    hide IsOpener;
    var i :| IsOpener(es, i, p) && i < k && i !in idx;
    assert 0 <= i by { OpenerIndex(es, i, p); }
    assert IsOpener(es, i, p) && i < k' && i !in idx';
  }

  lemma OpenerIndex(es: seq<Event>, i: int, p: nat)
    requires IsOpener(es, i, p)
    ensures 0 <= i < |es| && es[i].Open? && es[i].at == p
  {
  }

  lemma SettleOpen(src: string, es: seq<Event>, k: nat, idx: seq<nat>, out: map<nat, Candidate>)
    requires Ordered(|src|, 0, es)
    requires k < |es| && es[k].Open? && Settled(src, es, k, idx, out)
    ensures Settled(src, es, k + 1, idx + [k], out)
  {
    hide Ordered, Records, ClosedOpener;
    assert forall i: nat :: i in idx + [k] <==> i in idx || i == k;
    forall p | p in out ensures ClosedOpener(es, k + 1, idx + [k], p) {
      StaysClosed(es, k, idx, k + 1, idx + [k], p);
    }
  }

  lemma SettleClose(src: string, es: seq<Event>, k: nat, idx: seq<nat>, out: map<nat, Candidate>)
    requires Ordered(|src|, 0, es)
    requires k < |es| && es[k].Close? && Settled(src, es, k, idx, out)
    ensures Settled(src, es, k + 1, idx, out)
  {
    hide Ordered, Records, ClosedOpener;
    forall p | p in out ensures ClosedOpener(es, k + 1, idx, p) {
      StaysClosed(es, k, idx, k + 1, idx, p);
    }
  }

  ghost predicate IsTop(idx: seq<nat>, i: nat) {
    && |idx| > 0 && i == idx[|idx| - 1] && i !in idx[..|idx| - 1]
    && forall j :: j in idx <==> j in idx[..|idx| - 1] || j == i
  }

  lemma TopIndex(idx: seq<nat>)
    requires |idx| > 0
    requires forall s, t | 0 <= s < t < |idx| :: idx[s] < idx[t]
    ensures IsTop(idx, idx[|idx| - 1])
  {
    assert idx == idx[..|idx| - 1] + [idx[|idx| - 1]];
  }

  /** Recording the decision for the innermost open block. */
  lemma SettleTop(src: string, es: seq<Event>, k: nat, idx: seq<nat>, i: nat,
                  out: map<nat, Candidate>, out': map<nat, Candidate>)
    requires Ordered(|src|, 0, es) && k <= |es| && Settled(src, es, k, idx, out)
    requires IsTop(idx, i) && i < k && es[i].Open?
    requires out' == if CandidateOf(src, es, i).Some? then out[es[i].at := CandidateOf(src, es, i).value] else out
    ensures Settled(src, es, k, idx[..|idx| - 1], out')
  {
    hide Ordered, Records, ClosedOpener, CandidateOf, IsOpener;
    var rest := idx[..|idx| - 1];
    forall j | 0 <= j < k && es[j].Open? && j !in rest ensures Records(src, es, j, out') {
      if j == i {
        RecordedHere(src, es, i, out, out', k, idx);
      } else {
        RecordedElsewhere(src, es, i, j, out, out');
      }
    }
    forall p | p in out' ensures ClosedOpener(es, k, rest, p) {
      if p in out {
        StaysClosed(es, k, idx, k, rest, p);
      } else {
        ClosedNow(es, k, rest, i);
      }
    }
  }

  lemma ClosedNow(es: seq<Event>, k: nat, idx: seq<nat>, i: nat)
    requires i < k <= |es| && es[i].Open? && i !in idx
    ensures ClosedOpener(es, k, idx, es[i].at)
  {
    assert IsOpener(es, i, es[i].at);
  }

  lemma RecordedHere(src: string, es: seq<Event>, i: nat, out: map<nat, Candidate>, out': map<nat, Candidate>, k: nat,
                     idx: seq<nat>)
    requires Ordered(|src|, 0, es) && i < k <= |es| && es[i].Open? && i in idx && OnlyOpeners(es, k, idx, out)
    requires out' == if CandidateOf(src, es, i).Some? then out[es[i].at := CandidateOf(src, es, i).value] else out
    ensures Records(src, es, i, out')
  {
    hide CandidateOf;
    if es[i].at in out {
      var j :| IsOpener(es, j, es[i].at) && j < k && j !in idx;
      DistinctEvents(|src|, es, i, j);
      assert false;
    }
  }

  lemma RecordedElsewhere(src: string, es: seq<Event>, i: nat, j: nat, out: map<nat, Candidate>,
                          out': map<nat, Candidate>)
    requires Ordered(|src|, 0, es) && i < |es| && es[i].Open? && j < |es| && es[j].Open? && i != j
    requires Records(src, es, j, out)
    requires out' == if CandidateOf(src, es, i).Some? then out[es[i].at := CandidateOf(src, es, i).value] else out
    ensures Records(src, es, j, out')
  {
    hide CandidateOf;
    DistinctEvents(|src|, es, i, j);
  }

  lemma DistinctEvents(size: nat, es: seq<Event>, i: nat, j: nat)
    requires Ordered(size, 0, es) && i < |es| && j < |es| && i != j
    ensures es[i].at != es[j].at
  {
  }

  lemma {:induction false} LastCloseCounts(es: seq<Event>, lo: nat, hi: nat)
    requires hi <= |es| && LastClose(es, lo, hi).Some?
    ensures Closes(es, lo, hi) == Closes(es, lo, LastClose(es, lo, hi).value) + 1
  {
    if es[hi - 1].Open? {
      LastCloseCounts(es, lo, hi - 1);
    }
  }

  /** Builds the candidate of one opener and keeps it unless its closer would
      cross a bold one. */
  method RecordCandidate(src: string, open: OpenCode, closer: (nat, nat), skips: nat, output: map<nat, Candidate>,
                         ghost es: seq<Event>, ghost i: nat, ghost j: nat)
    returns (out: map<nat, Candidate>)
    requires Ordered(|src|, 0, es)
    requires i < j < |es| && es[i] == Open(open.openerStart, open.bodyStart)
    requires CloserIndex(es, i) == Some(j) && es[j] == Close(closer.0, closer.1)
    requires skips == Closes(es, i + 1, j)
    ensures out == if CandidateOf(src, es, i).Some? then output[es[i].at := CandidateOf(src, es, i).value] else output
  {
    assert es[i].Next() <= es[j].at;
    var candidate := Candidate(open.bodyStart, closer.0, closer.1, skips);
    var crosses := CrossesBold(src[candidate.bodyStart..candidate.bodyEnd], src[closer.1..]);
    out := if crosses then output else output[open.openerStart := candidate];
  }

  /** Removes the innermost open block, handing its closers to the one below. */
  method PopInnermost(stack: seq<OpenCode>, extra: nat, closer: Option<(nat, nat)>) returns (stack': seq<OpenCode>)
    requires |stack| > 0
    ensures stack' == Popped(stack, extra, closer)
  {
    stack' := stack[..|stack| - 1];
    if |stack'| > 0 && closer.Some? {
      var n := |stack'| - 1;
      stack' := stack'[n := Inherit(stack'[n], extra, closer.value)];
    }
  }

  lemma TopFrame(es: seq<Event>, k: nat, stack: seq<OpenCode>, idx: seq<nat>)
    requires StackOk(es, k, stack, idx) && |stack| > 0
    ensures IsTop(idx, idx[|idx| - 1])
    ensures FrameOk(es, stack[|stack| - 1], idx[|idx| - 1], k)
  {
    TopIndex(idx);
    assert Upper(idx, k, |idx| - 1) == k;
    assert FrameOk(es, stack[|stack| - 1], idx[|idx| - 1], Upper(idx, k, |idx| - 1));
  }

  lemma ClosedTop(es: seq<Event>, k: nat, stack: seq<OpenCode>, idx: seq<nat>)
    requires StackOk(es, k, stack, idx) && |stack| > 0 && k < |es| && es[k].Close?
    ensures var top := stack[|stack| - 1];
            StackOk(es, k + 1, Popped(stack, 1 + top.nestedCloses, Some((es[k].at, es[k].Next()))), idx[..|idx| - 1])
  {
    TopFrame(es, k, stack, idx);
    var top := stack[|stack| - 1];
    CloseFrame(es, top, idx[|idx| - 1], k);
    PopFrame(es, k, stack, idx, k + 1, Inherit(top, 1, (es[k].at, es[k].Next())));
  }

  lemma UnclosedTop(es: seq<Event>, stack: seq<OpenCode>, idx: seq<nat>)
    requires StackOk(es, |es|, stack, idx) && |stack| > 0
    ensures var top := stack[|stack| - 1];
            StackOk(es, |es|, Popped(stack, top.nestedCloses, top.fallbackCloser), idx[..|idx| - 1])
  {
    TopFrame(es, |es|, stack, idx);
    PopFrame(es, |es|, stack, idx, |es|, stack[|stack| - 1]);
  }

  /** The closer an unbalanced frame falls back to, and the closers before it. */
  lemma FallbackCloser(es: seq<Event>, open: OpenCode, i: nat) returns (j: nat)
    requires FrameOk(es, open, i, |es|) && Match(es, i + 1, 0).None?
    ensures open.fallbackCloser.None? <==> CloserIndex(es, i).None?
    ensures open.fallbackCloser.Some? ==>
              && i < j < |es| && CloserIndex(es, i) == Some(j)
              && es[j] == Close(open.fallbackCloser.value.0, open.fallbackCloser.value.1)
              && open.nestedCloses == Closes(es, i + 1, j) + 1
  {
    j := 0;
    if LastClose(es, i + 1, |es|).Some? {
      j := LastClose(es, i + 1, |es|).value;
      LastCloseCounts(es, i + 1, |es|);
    }
  }

  /** What holds after `k` events. */
  ghost predicate ScanInv(src: string, es: seq<Event>, k: nat, stack: seq<OpenCode>, idx: seq<nat>, out: map<nat,
                          Candidate>) {
    && Ordered(|src|, 0, es) && k <= |es| && |idx| == |stack|
    && StackOk(es, k, stack, idx) && Pending(es, k, idx) && Settled(src, es, k, idx, out)
  }

  /** The opener behind the innermost frame, and the closer that ends it if the
      next event is one. */
  lemma InnermostFrame(src: string, es: seq<Event>, k: nat, stack: seq<OpenCode>, idx: seq<nat>, out: map<nat,
                       Candidate>)
    requires ScanInv(src, es, k, stack, idx, out) && |stack| > 0
    ensures var i, open := idx[|idx| - 1], stack[|stack| - 1];
            && IsTop(idx, i) && i < k && es[i] == Open(open.openerStart, open.bodyStart)
            && (k < |es| && es[k].Close? ==>
                  CloserIndex(es, i) == Some(k) && open.nestedCloses == Closes(es, i + 1, k))
            && (k == |es| ==> Match(es, i + 1, 0).None? && FrameOk(es, open, i, k))
  {
    TopFrame(es, k, stack, idx);
    assert Waits(es, idx[|idx| - 1], k, 0);
  }

  lemma NothingScanned(src: string, es: seq<Event>)
    requires es == Events(src, 0)
    ensures ScanInv(src, es, 0, [], [], map[])
  {
    EventsPlaced(src, 0);
  }

  lemma OpenStep(src: string, es: seq<Event>, k: nat, stack: seq<OpenCode>, idx: seq<nat>, out: map<nat, Candidate>)
    requires ScanInv(src, es, k, stack, idx, out) && k < |es| && es[k].Open?
    ensures ScanInv(src, es, k + 1, stack + [OpenCode(es[k].at, es[k].Next(), 0, None)], idx + [k], out)
  {
    PendingStep(es, k, idx);
    SettleOpen(src, es, k, idx, out);
    PushFrame(es, k, stack, idx, OpenCode(es[k].at, es[k].Next(), 0, None));
  }

  lemma EmptyCloseStep(src: string, es: seq<Event>, k: nat, stack: seq<OpenCode>, idx: seq<nat>, out: map<nat,
                       Candidate>)
    requires ScanInv(src, es, k, stack, idx, out) && |stack| == 0 && k < |es| && es[k].Close?
    ensures ScanInv(src, es, k + 1, stack, idx, out)
  {
    SettleClose(src, es, k, idx, out);
  }

  lemma ClosedStep(src: string, es: seq<Event>, k: nat, stack: seq<OpenCode>, idx: seq<nat>,
                   out: map<nat, Candidate>, out': map<nat, Candidate>)
    requires ScanInv(src, es, k, stack, idx, out) && |stack| > 0
    requires k < |es| && es[k].Close?
    requires var i := idx[|idx| - 1];
             IsTop(idx, i) && i < k && es[i].Open? &&
             out' == if CandidateOf(src, es, i).Some? then out[es[i].at := CandidateOf(src, es, i).value] else out
    ensures var top := stack[|stack| - 1];
            ScanInv(src, es, k + 1, Popped(stack, 1 + top.nestedCloses, Some((es[k].at, es[k].Next()))),
                    idx[..|idx| - 1], out')
  {
    PendingStep(es, k, idx);
    ClosedTop(es, k, stack, idx);
    SettleTop(src, es, k, idx, idx[|idx| - 1], out, out');
    SettleClose(src, es, k, idx[..|idx| - 1], out');
  }

  /** A terminating closer ends the innermost open block, if there is one. */
  method CloseBlock(src: string, stack: seq<OpenCode>, output: map<nat, Candidate>, marker: nat, end: nat,
                    ghost es: seq<Event>, ghost k: nat, ghost idx: seq<nat>)
    returns (stack': seq<OpenCode>, output': map<nat, Candidate>, ghost idx': seq<nat>)
    requires ScanInv(src, es, k, stack, idx, output)
    requires k < |es| && es[k] == Close(marker, end)
    ensures ScanInv(src, es, k + 1, stack', idx', output')
  {
    hide StackOk, Pending, Settled, Records, CloserIndex, FrameOk, Ordered, CandidateOf, IsTop, Popped;
    if |stack| == 0 {
      EmptyCloseStep(src, es, k, stack, idx, output);
      return stack, output, idx;
    }
    var open := stack[|stack| - 1];
    ghost var i := idx[|idx| - 1];
    InnermostFrame(src, es, k, stack, idx, output);
    stack' := PopInnermost(stack, 1 + open.nestedCloses, Some((marker, end)));
    output' := RecordCandidate(src, open, (marker, end), open.nestedCloses, output, es, i, k);
    idx' := idx[..|idx| - 1];
    ClosedStep(src, es, k, stack, idx, output, output');
  }

  lemma UnclosedStep(src: string, es: seq<Event>, stack: seq<OpenCode>, idx: seq<nat>,
                     out: map<nat, Candidate>, out': map<nat, Candidate>)
    requires ScanInv(src, es, |es|, stack, idx, out) && |stack| > 0
    requires var i := idx[|idx| - 1];
             IsTop(idx, i) && i < |es| && es[i].Open? &&
             out' == if CandidateOf(src, es, i).Some? then out[es[i].at := CandidateOf(src, es, i).value] else out
    ensures var top := stack[|stack| - 1];
            ScanInv(src, es, |es|, Popped(stack, top.nestedCloses, top.fallbackCloser), idx[..|idx| - 1], out')
  {
    UnclosedTop(es, stack, idx);
    SettleTop(src, es, |es|, idx, idx[|idx| - 1], out, out');
    PendingEnd(es, idx);
  }

  /** Openers left open inherit the last closer met inside them; their count of
      nested closers is then positive, so one can be taken off. */
  method RecoverUnclosed(src: string, stack0: seq<OpenCode>, output0: map<nat, Candidate>,
                         ghost es: seq<Event>, ghost idx0: seq<nat>)
    returns (output: map<nat, Candidate>)
    requires ScanInv(src, es, |es|, stack0, idx0, output0)
    ensures IsMapOf(src, es, output)
  {
    hide StackOk, Pending, Settled, Records, CloserIndex, FrameOk;
    ghost var idx := idx0;
    var stack := stack0;
    output := output0;
    while |stack| > 0
      invariant ScanInv(src, es, |es|, stack, idx, output)
    {
      var open := stack[|stack| - 1];
      ghost var i, before, earlier := idx[|idx| - 1], stack, output;
      InnermostFrame(src, es, |es|, stack, idx, output);
      stack := PopInnermost(stack, open.nestedCloses, open.fallbackCloser);
      ghost var j := FallbackCloser(es, open, i);
      if open.fallbackCloser.Some? {
        output := RecordCandidate(src, open, open.fallbackCloser.value, open.nestedCloses - 1, output, es, i, j);
      }
      UnclosedStep(src, es, before, idx, earlier, output);
      idx := idx[..|idx| - 1];
    }
    AllSettled(src, es, idx, output);
  }

  lemma AllSettled(src: string, es: seq<Event>, idx: seq<nat>, out: map<nat, Candidate>)
    requires ScanInv(src, es, |es|, [], idx, out)
    ensures IsMapOf(src, es, out)
  {
    hide Ordered, Records, StackOk, Pending;
    assert idx == [];
    forall p | p in out ensures exists i :: IsOpener(es, i, p) {
      assert ClosedOpener(es, |es|, idx, p);
    }
  }

  lemma {:induction false} PendingEnd(es: seq<Event>, idx: seq<nat>)
    requires Pending(es, |es|, idx) && |idx| > 0
    ensures Pending(es, |es|, idx[..|idx| - 1])
  {
    forall t | 0 <= t < |idx| - 1 ensures Waits(es, idx[t], |es|, |idx| - 2 - t) {
      assert Waits(es, idx[t], |es|, |idx| - 1 - t);
    }
  }

  /** Reads the marker at `m` through both memos: a closer first, then a
      line-owning opener; anything else is two bytes of text. */
  method ReadMarker(src: string, m: nat, ownership: LineOwnership, closeBrackets: CloseBracketCursor) returns (v: Visit)
    requires m + 2 <= |src| && OccursAt(src, "[[", m)
    requires ownership.Valid(src) && ownership.scannedUpto <= m
    requires closeBrackets.source == src && closeBrackets.scannedFrom <= m + 1
    requires WithinBudget(src, closeBrackets.Snapshot())
    modifies ownership, closeBrackets
    ensures v == VisitMarker(src, m)
    ensures ownership.Valid(src) && ownership.scannedUpto <= m
    ensures WithinBudget(src, closeBrackets.Snapshot()) && closeBrackets.scannedFrom <= m + 3
  {
    MarkerAsks(src, closeBrackets.Snapshot(), m);
    var markerEnd := CodeCloserMarkerEnd(src, m, closeBrackets);
    if markerEnd.Some? {
      return Visit(if CloserTerminates(src, markerEnd.value) then [Close(m, markerEnd.value)] else [], markerEnd.value);
    }
    var owned := ownership.At(src, m);
    var bodyStart := CodeOpenerEndChecked(src, m, Some(owned), closeBrackets);
    if bodyStart.Some? {
      return Visit([Open(m, bodyStart.value)], bodyStart.value);
    }
    return Visit([], m + 2);
  }

  /** The scan: its map is the declared one, its bracket searches read at most
      five bytes for each byte of the source, and its ownership checks read
      each byte at most once. */
  method Candidates(src: string) returns (output: map<nat, Candidate>, ghost bracketBytes: nat, ghost lineBytes: nat)
    ensures IsCandidateMap(src, output)
    ensures bracketBytes <= 5 * (|src| + 1)
    ensures lineBytes <= |src|
  {
    hide ScanInv, Events, VisitMarker, WithinBudget;
    ghost var es := Events(src, 0);
    ghost var k: nat, idx: seq<nat> := 0, [];
    NothingScanned(src, es);
    output := map[];
    var stack: seq<OpenCode> := [];
    var ownership := new LineOwnership(src);
    var closeBrackets := new CloseBracketCursor(src);
    EmptyMemo(src);
    var cursor: nat := 0;
    while true
      invariant cursor <= |src| && k <= |es| && Events(src, cursor) == es[k..]
      invariant fresh(ownership) && fresh(closeBrackets)
      invariant ownership.Valid(src) && ownership.scannedUpto <= cursor
      invariant closeBrackets.source == src
      invariant WithinBudget(src, closeBrackets.Snapshot()) && closeBrackets.scannedFrom <= cursor + 1
      invariant ScanInv(src, es, k, stack, idx, output)
      decreases |src| - cursor
    {
      var found := Find(src, "[[", cursor);
      if found.None? {
        EventsDone(src, cursor);
        break;
      }
      var v := ReadMarker(src, found.value, ownership, closeBrackets);
      EventsVisit(src, cursor, es, k, v);
      if |v.events| > 0 {
        match v.events[0] {
          case Close(marker, end) =>
            stack, output, idx := CloseBlock(src, stack, output, marker, end, es, k, idx);
          case Open(marker, bodyStart) =>
            OpenStep(src, es, k, stack, idx, output);
            stack := stack + [OpenCode(marker, bodyStart, 0, None)];
            idx := idx + [k];
        }
        k := k + 1;
      }
      cursor := v.next;
    }
    output := RecoverUnclosed(src, stack, output, es, idx);
    BudgetBound(src, closeBrackets.Snapshot());
    bracketBytes := closeBrackets.scanned;
    lineBytes := ownership.bytesRead;
  }
}
