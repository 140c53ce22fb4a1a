/** The other readers of `[[code]]` owners: the single-opener reader and the
    greedy readers that list the active ranges. */
module WikidotCodeReaders {
  import opened Bytes
  import opened Seqs
  import opened WikidotCodeSpec
  import opened WikidotCode

  // ----- one opener at a time

  /** What reading the opener at `openerStart` alone decides. */
  ghost function InnerAnswer(src: string, openerStart: nat, requireLineOwner: bool): Option<Candidate>
    requires requireLineOwner ==> openerStart <= |src|
  {
    var b := OpenerEnd(src, openerStart);
    if b.None? || (requireLineOwner && !HasPhysicalLineOwnership(src, openerStart)) then None
    else OpenBrackets(src, b.value - 2); InnerCandidate(src, b.value)
  }

  /** A closer that does not terminate is stepped over two bytes at a time; no
      other marker starts inside it. */
  lemma NothingInsideCloser(src: string, m: nat)
    requires CloserMarkerEnd(src, m).Some?
    ensures m + 9 <= |src| && Events(src, m + 2) == Events(src, m + 9)
  {
    CloserSpelling(src, m);
    var text := src[m..m + 9];
    OpenBrackets(src, m + 7);
    forall q | m + 2 <= q < m + 9 ensures !OccursAt(src, "[[", q) {
      OpenBrackets(src, q);
      assert src[q] == text[q - m];
      assert Lower(text[q - m]) == Lower("[[/code]]"[q - m]);
    }
    FindSkips(src, "[[", m + 2, m + 9);
  }

  /** `k` events read, `depth` of them still open, none of them the balancing one. */
  ghost predicate ReadSoFar(es: seq<Event>, k: nat, depth: nat, skipped: nat) {
    k <= |es| && Match(es, 0, 0) == Match(es, k, depth) && skipped == Closes(es, 0, k)
  }

  lemma ReadStep(es: seq<Event>, k: nat, depth: nat, skipped: nat)
    requires ReadSoFar(es, k, depth, skipped) && k < |es|
    ensures es[k].Open? ==> ReadSoFar(es, k + 1, depth + 1, skipped)
    ensures es[k].Close? && depth > 0 ==> ReadSoFar(es, k + 1, depth - 1, skipped + 1)
  {
  }

  /** What the reader sees at one marker. */
  lemma InnerVisit(src: string, cursor: nat, es: seq<Event>, k: nat, m: nat)
    requires cursor <= |src| && k <= |es| && Events(src, cursor) == es[k..]
    requires Find(src, "[[", cursor) == Some(m)
    ensures var closer, opener := CloserMarkerEnd(src, m), OpenerEnd(src, m);
            if closer.Some? && CloserTerminates(src, closer.value) then
              closer.value <= |src| && k < |es| && es[k] == Close(m, closer.value)
                && es[k + 1..] == Events(src, closer.value)
            else if opener.Some? && HasPhysicalLineOwnership(src, m) then
              opener.value <= |src| && k < |es| && es[k] == Open(m, opener.value)
                && es[k + 1..] == Events(src, opener.value)
            else
              es[k..] == Events(src, m + 2)
  {
    hide Events, OpenerEnd, CloserMarkerEnd, CloserTerminates, HasPhysicalLineOwnership;
    EventsVisit(src, cursor, es, k, VisitMarker(src, m));
    if CloserMarkerEnd(src, m).Some? {
      NothingInsideCloser(src, m);
      CloserOpensNothing(src, m);
    }
  }

  lemma CloserOpensNothing(src: string, m: nat)
    requires CloserMarkerEnd(src, m).Some?
    ensures OpenerEnd(src, m).None?
  {
    CloserIsNoOpener(src, m);
  }

  method CodeCloserEnd(src: string, closerStart: nat, cursor: CloseBracketCursor) returns (r: Option<nat>)
    requires cursor.Valid() && cursor.source == src
    modifies cursor
    ensures cursor.Valid()
    ensures
      var marker := CloserMarkerEnd(src, closerStart);
      r == if marker.Some? && CloserTerminates(src, marker.value) then marker else None
  {
    r := CodeCloserMarkerEnd(src, closerStart, cursor);
    if r.Some? && !CloserTerminates(src, r.value) {
      r := None;
    }
  }

  /** The candidate the reader builds at the balancing closer. */
  lemma InnerFound(src: string, bodyStart: nat, es: seq<Event>, k: nat, skipped: nat)
    requires bodyStart <= |src| && es == Events(src, bodyStart)
    requires ReadSoFar(es, k, 0, skipped) && k < |es| && es[k].Close?
    ensures bodyStart <= es[k].at <= es[k].end <= |src|
    ensures InnerCandidate(src, bodyStart) ==
            if CrossesBoldCloser(src[bodyStart..es[k].at], src[es[k].end..]) then None
            else Some(Candidate(bodyStart, es[k].at, es[k].end, skipped))
  {
    EventsPlaced(src, bodyStart);
    assert Ordered(|src|, bodyStart, es);
    assert Match(es, 0, 0) == Some(k);
  }

  /** The reader stands at `cursor`, behind `k` events of the body. */
  ghost predicate ReadingAt(src: string, bodyStart: nat, es: seq<Event>, k: nat, cursor: nat, depth: nat,
                            skipped: nat) {
    && bodyStart <= cursor <= |src| && es == Events(src, bodyStart)
    && k <= |es| && es[k..] == Events(src, cursor) && ReadSoFar(es, k, depth, skipped)
  }

  lemma NothingRead(src: string, bodyStart: nat)
    requires bodyStart <= |src|
    ensures ReadingAt(src, bodyStart, Events(src, bodyStart), 0, bodyStart, 0, 0)
  {
  }

  /** A marker holds a terminating closer or, failing that, an opener that owns
      its line. */
  ghost predicate MarkerRead(src: string, m: nat, markerEnd: Option<nat>, nested: Option<nat>)
    requires m <= |src|
  {
    var closer, opener := CloserMarkerEnd(src, m), OpenerEnd(src, m);
    if closer.Some? && CloserTerminates(src, closer.value) then markerEnd == closer
    else markerEnd == None && nested == if HasPhysicalLineOwnership(src, m) then opener else None
  }

  /** One marker read. */
  lemma ReadOn(src: string, bodyStart: nat, es: seq<Event>, k: nat, cursor: nat, depth: nat, skipped: nat, m: nat,
               markerEnd: Option<nat>, nested: Option<nat>)
    requires ReadingAt(src, bodyStart, es, k, cursor, depth, skipped) && Find(src, "[[", cursor) == Some(m)
    requires m <= |src| && MarkerRead(src, m, markerEnd, nested)
    ensures markerEnd.Some? && depth > 0 ==>
              && m < markerEnd.value <= |src|
              && ReadingAt(src, bodyStart, es, k + 1, markerEnd.value, depth - 1, skipped + 1)
    ensures markerEnd.Some? && depth == 0 ==>
              && bodyStart <= m <= markerEnd.value <= |src|
              && InnerCandidate(src, bodyStart) ==
                 if CrossesBoldCloser(src[bodyStart..m], src[markerEnd.value..]) then None
                 else Some(Candidate(bodyStart, m, markerEnd.value, skipped))
    ensures markerEnd.None? && nested.Some? ==>
              m < nested.value <= |src| && ReadingAt(src, bodyStart, es, k + 1, nested.value, depth + 1, skipped)
    ensures markerEnd.None? && nested.None? ==>
              m + 2 <= |src| && ReadingAt(src, bodyStart, es, k, m + 2, depth, skipped)
  {
    hide Events, InnerCandidate, HasPhysicalLineOwnership, ReadSoFar, OpenerEnd, CloserMarkerEnd, CloserTerminates,
         CrossesBoldCloser;
    InnerVisit(src, cursor, es, k, m);
    if k < |es| {
      ReadStep(es, k, depth, skipped);
    }
    if markerEnd.Some? && depth == 0 {
      InnerFound(src, bodyStart, es, k, skipped);
    }
  }

  /** Looks for a terminating closer at `m` and, failing that, for an opener that
      owns its line. */
  method ReadInnerMarker(src: string, m: nat, ownership: LineOwnership, closeBrackets: CloseBracketCursor)
    returns (markerEnd: Option<nat>, nested: Option<nat>)
    requires ownership.Valid(src) && ownership.scannedUpto <= m <= |src|
    requires closeBrackets.source == src && closeBrackets.Valid()
    modifies ownership, closeBrackets
    ensures ownership.Valid(src) && ownership.scannedUpto <= m
    ensures closeBrackets.Valid()
    ensures MarkerRead(src, m, markerEnd, nested)
  {
    hide HasPhysicalLineOwnership, OpenerEnd, CloserMarkerEnd, CloserTerminates, Ask, MemoValid;
    nested := None;
    markerEnd := CodeCloserEnd(src, m, closeBrackets);
    if markerEnd.None? {
      var owned := ownership.At(src, m);
      nested := CodeOpenerEndChecked(src, m, Some(owned), closeBrackets);
    }
  }

  method CandidateAtInner(src: string, openerStart: nat, requireLineOwner: bool) returns (r: Option<Candidate>)
    requires requireLineOwner ==> openerStart <= |src|
    ensures r == InnerAnswer(src, openerStart, requireLineOwner)
  {
    hide Events, InnerCandidate, HasPhysicalLineOwnership, ReadingAt, MarkerRead, OpenerEnd, Ask, MemoValid,
         CrossesBoldCloser, LineOwnership.Valid, CloseBracketCursor.Valid;
    var ownership := new LineOwnership(src);
    var closeBrackets := new CloseBracketCursor(src);
    var lineOwner: Option<bool> := None;
    if requireLineOwner {
      var owned := ownership.At(src, openerStart);
      lineOwner := Some(owned);
    }
    var opener := CodeOpenerEndChecked(src, openerStart, lineOwner, closeBrackets);
    if opener.None? {
      return None;
    }
    var bodyStart := opener.value;
    OpenBrackets(src, bodyStart - 2);
    ghost var es, k: nat := Events(src, bodyStart), 0;
    NothingRead(src, bodyStart);
    var cursor, nestedDepth: nat, endBlocksToSkip: nat := bodyStart, 0, 0;
    while true
      invariant cursor <= |src|
      invariant ReadingAt(src, bodyStart, es, k, cursor, nestedDepth, endBlocksToSkip)
      invariant fresh(ownership) && fresh(closeBrackets)
      invariant ownership.Valid(src) && ownership.scannedUpto <= cursor
      invariant closeBrackets.source == src && closeBrackets.Valid()
      decreases |src| - cursor
    {
      var found := Find(src, "[[", cursor);
      if found.None? {
        InnerMissing(src, bodyStart, es, k, cursor, nestedDepth, endBlocksToSkip);
        return None;
      }
      var m := found.value;
      var markerEnd, nested := ReadInnerMarker(src, m, ownership, closeBrackets);
      ReadOn(src, bodyStart, es, k, cursor, nestedDepth, endBlocksToSkip, m, markerEnd, nested);
      if markerEnd.Some? {
        if nestedDepth > 0 {
          nestedDepth, endBlocksToSkip := nestedDepth - 1, endBlocksToSkip + 1;
          k := k + 1;
          cursor := markerEnd.value;
          continue;
        }
        var crosses := CrossesBold(src[bodyStart..m], src[markerEnd.value..]);
        if crosses {
          return None;
        }
        return Some(Candidate(bodyStart, m, markerEnd.value, endBlocksToSkip));
      }
      if nested.Some? {
        nestedDepth := nestedDepth + 1;
        k := k + 1;
        cursor := nested.value;
        continue;
      }
      cursor := m + 2;
    }
  }

  lemma InnerMissing(src: string, bodyStart: nat, es: seq<Event>, k: nat, cursor: nat, depth: nat, skipped: nat)
    requires ReadingAt(src, bodyStart, es, k, cursor, depth, skipped) && Find(src, "[[", cursor).None?
    ensures InnerCandidate(src, bodyStart).None?
  {
    EventsDone(src, cursor);
    assert k == |es|;
  }

  ghost function Lookup(owners: map<nat, Candidate>, p: nat): Option<Candidate> {
    if p in owners then Some(owners[p]) else None
  }

  /** At every opener the scan met, reading it alone gives the scan's entry where
      a closer balances it, and nothing where the scan lets it inherit one. */
  lemma InnerAgreesWithMap(src: string, owners: map<nat, Candidate>, es: seq<Event>, i: nat, requireLineOwner: bool)
    requires IsCandidateMap(src, owners) && es == Events(src, 0) && i < |es| && es[i].Open?
    ensures es[i].at <= |src|
    ensures InnerAnswer(src, es[i].at, requireLineOwner)
         == if Match(es, i + 1, 0).Some? then Lookup(owners, es[i].at) else None
  {
    hide Events, OpenerEnd, HasPhysicalLineOwnership, InnerCandidate, CandidateOf, Match;
    EventsPlaced(src, 0);
    assert Genuine(src, es[i]);
    InnerAgreesWithScan(src, es, i);
    assert Records(src, es, i, owners);
  }

  /** The entry point: line-owning openers are answered by the scan, inner ones
      by the single-opener reader when that is allowed. */
  method CandidateAtOwnedOpener(src: string, openerStart: nat, allowInner: bool)
    returns (r: Option<Candidate>, ghost owners: map<nat, Candidate>)
    requires openerStart <= |src|
    ensures IsCandidateMap(src, owners)
    ensures HasPhysicalLineOwnership(src, openerStart) ==>
              r == if openerStart in owners then Some(owners[openerStart]) else None
    ensures !HasPhysicalLineOwnership(src, openerStart) ==>
              r == if allowInner then InnerAnswer(src, openerStart, false) else None
  {
    var output, _, _ := Candidates(src);
    owners := output;
    if HasPhysicalLineOwnership(src, openerStart) {
      return if openerStart in output then Some(output[openerStart]) else None, output;
    }
    r := None;
    if allowInner {
      r := CandidateAtInner(src, openerStart, false);
    }
  }

  // ----- the active ranges

  ghost predicate Encloses(owners: map<nat, Candidate>, q: nat, p: nat) {
    q in owners && q < p < owners[q].ownerEnd
  }

  /** No other owner's interval holds `p`. */
  ghost predicate Maximal(owners: map<nat, Candidate>, p: nat) {
    p in owners && forall q | q in owners :: !Encloses(owners, q, p)
  }

  ghost predicate AllMaximal(owners: map<nat, Candidate>, starts: seq<nat>) {
    forall k | 0 <= k < |starts| :: Maximal(owners, starts[k])
  }

  ghost predicate EndsBy(owners: map<nat, Candidate>, p: nat, cursor: nat) {
    p in owners && p < owners[p].ownerEnd <= cursor
  }

  ghost predicate Disjoint(owners: map<nat, Candidate>, starts: seq<nat>) {
    forall j, k | 0 <= j < k < |starts| :: EndsBy(owners, starts[j], starts[k])
  }

  /** `starts` lists exactly the maximal owners, left to right and disjoint. */
  ghost predicate MaximalOwners(owners: map<nat, Candidate>, starts: seq<nat>) {
    && AllMaximal(owners, starts)
    && Disjoint(owners, starts)
    && (forall p | p in owners && Maximal(owners, p) :: p in starts)
  }

  lemma HeadIsLeast(s: seq<nat>)
    requires Increasing(s) && s != []
    ensures s[0] in s && Increasing(s[1..])
    ensures forall p :: p in s[1..] <==> p in s && p != s[0]
    ensures forall p | p in s :: s[0] <= p
  {
    assert s == [s[0]] + s[1..];
  }

  lemma {:induction false} IncreasingUnique(a: seq<nat>, b: seq<nat>)
    requires Increasing(a) && Increasing(b)
    requires forall p :: p in a <==> p in b
    ensures a == b
  {
    hide Increasing;
    if a == [] || b == [] {
      NoMembers(a);
      NoMembers(b);
    } else {
      HeadIsLeast(a);
      HeadIsLeast(b);
      IncreasingUnique(a[1..], b[1..]);
      assert a == [a[0]] + a[1..] && b == [b[0]] + b[1..];
    }
  }

  lemma NoMembers(s: seq<nat>)
    ensures s == [] <==> forall p :: p !in s
  {
    if s != [] { assert s[0] in s; }
  }

  /** The list of maximal owners is determined, so the two readers below walk
      the same owners. */
  lemma MaximalOwnersUnique(owners: map<nat, Candidate>, a: seq<nat>, b: seq<nat>)
    requires MaximalOwners(owners, a) && MaximalOwners(owners, b)
    ensures a == b
  {
    hide Disjoint;
    forall p ensures p in a <==> p in b {
      if p in a {
        var k :| 0 <= k < |a| && a[k] == p;
        assert Maximal(owners, a[k]);
      }
      if p in b {
        var k :| 0 <= k < |b| && b[k] == p;
        assert Maximal(owners, b[k]);
      }
    }
    DisjointIncreases(owners, a);
    DisjointIncreases(owners, b);
    IncreasingUnique(a, b);
  }

  lemma DisjointIncreases(owners: map<nat, Candidate>, starts: seq<nat>)
    requires Disjoint(owners, starts)
    ensures Increasing(starts)
  {
    forall j, k | 0 <= j < k < |starts| ensures starts[j] < starts[k] {
      assert EndsBy(owners, starts[j], starts[k]);
    }
  }

  /** Owners to the left of the cursor are listed or lie inside a listed one. */
  ghost predicate Covered(owners: map<nat, Candidate>, starts: seq<nat>, p: nat) {
    exists k :: 0 <= k < |starts| && starts[k] in owners && starts[k] <= p && p < owners[starts[k]].ownerEnd
  }

  ghost predicate WalkInv(owners: map<nat, Candidate>, starts: seq<nat>, cursor: nat) {
    && AllMaximal(owners, starts)
    && Disjoint(owners, starts)
    && (forall k | 0 <= k < |starts| :: EndsBy(owners, starts[k], cursor))
    && (forall p | p in owners && p < cursor :: Covered(owners, starts, p))
  }

  ghost predicate IntervalsNest(owners: map<nat, Candidate>) {
    && (forall p | p in owners :: p < owners[p].ownerEnd)
    && (forall p, q | p in owners && q in owners && p < q < owners[p].ownerEnd ::
        owners[q].ownerEnd <= owners[p].ownerEnd)
  }

  lemma OwnersNest(src: string, owners: map<nat, Candidate>)
    requires IsCandidateMap(src, owners)
    ensures IntervalsNest(owners)
  {
    forall p | p in owners ensures p < owners[p].ownerEnd {
      CandidateShape(src, owners, p);
    }
    forall p, q | p in owners && q in owners && p < q < owners[p].ownerEnd
      ensures owners[q].ownerEnd <= owners[p].ownerEnd
    {
      CandidatesLaminar(src, owners, p, q);
    }
  }

  lemma EndsWithin(owners: map<nat, Candidate>, p: nat, q: nat)
    requires IntervalsNest(owners) && p in owners && q in owners && p <= q < owners[p].ownerEnd
    ensures owners[q].ownerEnd <= owners[p].ownerEnd
  {
  }

  /** Everything before the cursor ends before it. */
  lemma EndsBehind(owners: map<nat, Candidate>, starts: seq<nat>, cursor: nat, q: nat)
    requires IntervalsNest(owners) && WalkInv(owners, starts, cursor)
    requires q in owners && q < cursor
    ensures owners[q].ownerEnd <= cursor
  {
    hide AllMaximal, Disjoint, IntervalsNest;
    assert Covered(owners, starts, q);
    var k :| 0 <= k < |starts| && starts[k] in owners && starts[k] <= q && q < owners[starts[k]].ownerEnd;
    assert EndsBy(owners, starts[k], cursor);
    EndsWithin(owners, starts[k], q);
  }

  lemma TakenIsMaximal(owners: map<nat, Candidate>, starts: seq<nat>, cursor: nat, m: nat)
    requires IntervalsNest(owners) && WalkInv(owners, starts, cursor)
    requires m in owners && cursor <= m
    requires forall p | p in owners && cursor <= p :: m <= p
    ensures Maximal(owners, m)
  {
    forall q | q in owners ensures !Encloses(owners, q, m) {
      if q < cursor {
        EndsBehind(owners, starts, cursor, q);
      }
    }
  }

  lemma CoveredMore(owners: map<nat, Candidate>, starts: seq<nat>, m: nat, p: nat)
    requires Covered(owners, starts, p) || (m in owners && m <= p < owners[m].ownerEnd)
    ensures Covered(owners, starts + [m], p)
  {
    var up := starts + [m];
    if Covered(owners, starts, p) {
      var k :| 0 <= k < |starts| && starts[k] in owners && starts[k] <= p && p < owners[starts[k]].ownerEnd;
      assert up[k] == starts[k];
    } else {
      assert up[|starts|] == m;
    }
  }

  lemma WalkTake(owners: map<nat, Candidate>, starts: seq<nat>, cursor: nat, m: nat)
    requires IntervalsNest(owners) && WalkInv(owners, starts, cursor)
    requires m in owners && cursor <= m
    requires forall p | p in owners && cursor <= p :: m <= p
    ensures WalkInv(owners, starts + [m], owners[m].ownerEnd)
  {
    hide Covered, Maximal;
    TakenIsMaximal(owners, starts, cursor, m);
    assert EndsBy(owners, m, owners[m].ownerEnd);
    forall p | p in owners && p < owners[m].ownerEnd ensures Covered(owners, starts + [m], p) {
      CoveredMore(owners, starts, m, p);
    }
  }

  lemma WalkSkip(owners: map<nat, Candidate>, starts: seq<nat>, cursor: nat, next: nat)
    requires IntervalsNest(owners) && WalkInv(owners, starts, cursor) && cursor <= next
    requires forall p | p in owners && cursor <= p :: next <= p
    ensures WalkInv(owners, starts, next)
  {
    hide AllMaximal, Disjoint, Covered, IntervalsNest;
  }

  lemma CoveredMaximal(owners: map<nat, Candidate>, starts: seq<nat>, p: nat)
    requires Covered(owners, starts, p) && Maximal(owners, p)
    ensures p in starts
  {
    var k :| 0 <= k < |starts| && starts[k] in owners && starts[k] <= p && p < owners[starts[k]].ownerEnd;
    assert !Encloses(owners, starts[k], p);
  }

  lemma WalkDone(owners: map<nat, Candidate>, starts: seq<nat>, cursor: nat)
    requires IntervalsNest(owners) && WalkInv(owners, starts, cursor)
    requires forall p | p in owners :: p < cursor
    ensures MaximalOwners(owners, starts)
  {
    hide AllMaximal, Disjoint, Covered, IntervalsNest, Maximal;
    forall p | p in owners && Maximal(owners, p) ensures p in starts {
      CoveredMaximal(owners, starts, p);
    }
  }

  lemma OwnerAligned(src: string, owners: map<nat, Candidate>, p: nat)
    requires IsCandidateMap(src, owners) && p in owners
    ensures p + 2 <= |src| && OccursAt(src, "[[", p) && Aligned(src, p)
    ensures owners[p].ownerEnd <= |src| && Aligned(src, owners[p].ownerEnd)
  {
    hide *;
    var es := Events(src, 0);
    StartAligned(src);
    EventsAligned(src, 0);
    var i, j := EntryEvents(src, es, owners, p);
    EventInPlace(src, es, i);
    EventInPlace(src, es, j);
    AfterCloseAligned(src, owners[p].ownerEnd);
  }

  lemma StartAligned(src: string)
    ensures Aligned(src, 0)
  {
  }

  lemma EventInPlace(src: string, es: seq<Event>, i: nat)
    requires AllGenuine(src, es) && AllAligned(src, es) && i < |es|
    ensures es[i].at + 2 <= |src| && OccursAt(src, "[[", es[i].at) && Aligned(src, es[i].at)
    ensures es[i].Close? ==> 2 <= es[i].Next() <= |src| && OccursAt(src, "]]", es[i].Next() - 2)
  {
    hide Aligned, OpenerEnd, HasPhysicalLineOwnership;
    assert Genuine(src, es[i]);
  }

  /** From an aligned cursor the walk's next `[[` is the next owner or comes
      before it with no owner on the byte in between: both walks keep in step
      on runs of brackets. */
  lemma NextOwner(src: string, owners: map<nat, Candidate>, cursor: nat)
    requires IsCandidateMap(src, owners) && cursor <= |src| && Aligned(src, cursor)
    ensures Find(src, "[[", cursor).None? ==> forall p | p in owners :: p < cursor
    ensures Find(src, "[[", cursor).Some? ==>
              var m := Find(src, "[[", cursor).value;
              && m + 2 <= |src| && Aligned(src, m + 2)
              && (forall p | p in owners && cursor <= p :: p == m || m + 2 <= p)
              && (m in owners ==> owners[m].ownerEnd <= |src| && Aligned(src, owners[m].ownerEnd))
  {
    hide IsCandidateMap, Find, OccursAt, Aligned;
    forall p | p in owners && cursor <= p
      ensures Find(src, "[[", cursor).Some?
      ensures var m := Find(src, "[[", cursor).value; p == m || m + 2 <= p
    {
      OwnerAligned(src, owners, p);
      NoAlignedMarkerSkipped(src, cursor, p);
    }
    if Find(src, "[[", cursor).Some? {
      NextMarkerAligned(src, cursor);
      if Find(src, "[[", cursor).value in owners {
        OwnerAligned(src, owners, Find(src, "[[", cursor).value);
      }
    }
  }

  /** Exactly the maximal candidate intervals, in order and apart. */
  ghost predicate AreActiveRanges(owners: map<nat, Candidate>, ranges: seq<(nat, nat)>) {
    && (forall k | 0 <= k < |ranges| :: IsActiveRange(owners, ranges[k]))
    && (forall j, k | 0 <= j < k < |ranges| :: EndsFirst(ranges[j], ranges[k]))
    && (forall p | p in owners && Maximal(owners, p) :: Listed(owners, ranges, p))
  }

  ghost predicate IsActiveRange(owners: map<nat, Candidate>, range: (nat, nat)) {
    range.0 in owners && Maximal(owners, range.0) && range.1 == owners[range.0].ownerEnd
  }

  predicate EndsFirst(a: (nat, nat), b: (nat, nat)) {
    a.0 < a.1 <= b.0
  }

  ghost predicate Listed(owners: map<nat, Candidate>, ranges: seq<(nat, nat)>, p: nat) {
    p in owners && exists k :: 0 <= k < |ranges| && ranges[k] == (p, owners[p].ownerEnd)
  }

  /** The bodies of the maximal owners, in the order of the owners. */
  ghost predicate AreActiveBodies(owners: map<nat, Candidate>, bodies: seq<(nat, nat)>) {
    exists starts :: MaximalOwners(owners, starts) && AreBodies(owners, starts, bodies)
  }

  ghost predicate AreBodies(owners: map<nat, Candidate>, starts: seq<nat>, bodies: seq<(nat, nat)>) {
    |bodies| == |starts| && forall k | 0 <= k < |bodies| ::
      starts[k] in owners && bodies[k] == (owners[starts[k]].bodyStart, owners[starts[k]].bodyEnd)
  }

  lemma RangesOfMaximal(owners: map<nat, Candidate>, starts: seq<nat>, ranges: seq<(nat, nat)>)
    requires MaximalOwners(owners, starts) && |ranges| == |starts|
    requires forall k | 0 <= k < |ranges| ::
               starts[k] in owners && ranges[k] == (starts[k], owners[starts[k]].ownerEnd)
    ensures AreActiveRanges(owners, ranges)
  {
    hide Maximal;
    forall k | 0 <= k < |ranges| ensures IsActiveRange(owners, ranges[k]) {
      assert Maximal(owners, starts[k]);
    }
    forall j, k | 0 <= j < k < |ranges| ensures EndsFirst(ranges[j], ranges[k]) {
      assert EndsBy(owners, starts[j], starts[k]);
    }
    forall p | p in owners && Maximal(owners, p) ensures Listed(owners, ranges, p) {
      assert p in starts;
      var k :| 0 <= k < |starts| && starts[k] == p;
      assert ranges[k] == (p, owners[p].ownerEnd);
    }
  }

  lemma RangesAreActive(src: string, owners: map<nat, Candidate>, starts: seq<nat>, ranges: seq<(nat, nat)>)
    requires IsCandidateMap(src, owners) && MaximalOwners(owners, starts) && |ranges| == |starts|
    requires forall k | 0 <= k < |ranges| ::
               starts[k] in owners && ranges[k] == (starts[k], owners[starts[k]].ownerEnd)
    ensures forall other | IsCandidateMap(src, other) :: AreActiveRanges(other, ranges)
  {
    hide IsCandidateMap, AreActiveRanges, MaximalOwners;
    RangesOfMaximal(owners, starts, ranges);
    forall other | IsCandidateMap(src, other) ensures AreActiveRanges(other, ranges) {
      CandidateMapUnique(src, other, owners);
    }
  }

  lemma BodiesAreActive(src: string, owners: map<nat, Candidate>, starts: seq<nat>, bodies: seq<(nat, nat)>)
    requires IsCandidateMap(src, owners) && MaximalOwners(owners, starts) && AreBodies(owners, starts, bodies)
    ensures forall other | IsCandidateMap(src, other) :: AreActiveBodies(other, bodies)
  {
    hide IsCandidateMap, MaximalOwners, AreBodies;
    forall other | IsCandidateMap(src, other)
      ensures AreActiveBodies(other, bodies)
    {
      CandidateMapUnique(src, other, owners);
    }
  }

  /** The greedy walk returns exactly the maximal candidate intervals. */
  method ActiveRanges(src: string) returns (ranges: seq<(nat, nat)>, ghost owners: map<nat, Candidate>,
                                            ghost starts: seq<nat>)
    ensures forall other | IsCandidateMap(src, other) :: AreActiveRanges(other, ranges)
    ensures IsCandidateMap(src, owners) && MaximalOwners(owners, starts)
    ensures |ranges| == |starts|
    ensures forall k | 0 <= k < |ranges| ::
              starts[k] in owners && ranges[k] == (starts[k], owners[starts[k]].ownerEnd)
  {
    hide IsCandidateMap, WalkInv, IntervalsNest, MaximalOwners;
    var candidates, _, _ := Candidates(src);
    owners, starts := candidates, [];
    OwnersNest(src, owners);
    ranges := [];
    var cursor: nat := 0;
    EmptyWalk(owners);
    while true
      invariant cursor <= |src| && Aligned(src, cursor)
      invariant WalkInv(owners, starts, cursor) && |ranges| == |starts|
      invariant forall k | 0 <= k < |ranges| ::
                  starts[k] in owners && ranges[k] == (starts[k], owners[starts[k]].ownerEnd)
      decreases |src| - cursor
    {
      NextOwner(src, owners, cursor);
      var found := Find(src, "[[", cursor);
      if found.None? {
        break;
      }
      var openerStart := found.value;
      if openerStart in candidates {
        WalkTake(owners, starts, cursor, openerStart);
        OwnerAdvances(owners, openerStart);
        starts := starts + [openerStart];
        ranges := ranges + [(openerStart, candidates[openerStart].ownerEnd)];
        cursor := candidates[openerStart].ownerEnd;
      } else {
        WalkSkip(owners, starts, cursor, openerStart + 2);
        cursor := openerStart + 2;
      }
    }
    WalkDone(owners, starts, cursor);
    RangesAreActive(src, owners, starts, ranges);
  }

  lemma EmptyWalk(owners: map<nat, Candidate>)
    ensures WalkInv(owners, [], 0)
  {
  }

  lemma OwnerAdvances(owners: map<nat, Candidate>, p: nat)
    requires IntervalsNest(owners) && p in owners
    ensures p < owners[p].ownerEnd
  {
  }

  /** The body reader returns the bodies of the same owners. */
  method ActiveBodyRanges(src: string) returns (ranges: seq<(nat, nat)>, ghost owners: map<nat, Candidate>,
                                                ghost starts: seq<nat>)
    ensures forall other | IsCandidateMap(src, other) :: AreActiveBodies(other, ranges)
    ensures IsCandidateMap(src, owners) && MaximalOwners(owners, starts)
    ensures |ranges| == |starts|
    ensures forall k | 0 <= k < |ranges| ::
              starts[k] in owners && ranges[k] == (owners[starts[k]].bodyStart, owners[starts[k]].bodyEnd)
  {
    hide IsCandidateMap, WalkInv, IntervalsNest, MaximalOwners;
    var candidates, _, _ := Candidates(src);
    owners, starts := candidates, [];
    OwnersNest(src, owners);
    ranges := [];
    var cursor: nat := 0;
    EmptyWalk(owners);
    while true
      invariant cursor <= |src| && Aligned(src, cursor)
      invariant WalkInv(owners, starts, cursor) && |ranges| == |starts|
      invariant forall k | 0 <= k < |ranges| ::
                  starts[k] in owners && ranges[k] == (owners[starts[k]].bodyStart, owners[starts[k]].bodyEnd)
      decreases |src| - cursor
    {
      NextOwner(src, owners, cursor);
      var found := Find(src, "[[", cursor);
      if found.None? {
        break;
      }
      var openerStart := found.value;
      if openerStart in candidates {
        WalkTake(owners, starts, cursor, openerStart);
        OwnerAdvances(owners, openerStart);
        starts := starts + [openerStart];
        ranges := ranges + [(candidates[openerStart].bodyStart, candidates[openerStart].bodyEnd)];
        cursor := candidates[openerStart].ownerEnd;
      } else {
        WalkSkip(owners, starts, cursor, openerStart + 2);
        cursor := openerStart + 2;
      }
    }
    WalkDone(owners, starts, cursor);
    assert AreBodies(owners, starts, ranges);
    BodiesAreActive(src, owners, starts, ranges);
  }
}
