/** What the `[[code]]` scan decides, stated without its caches or its stack.

    `Events` lists the markers a left-to-right scan meets. A candidate is then
    declared from that list alone: an opener owns the body up to the closer
    that balances it, or, when nothing balances it, up to the last closer that
    follows it. */
module WikidotCodeSpec {
  import opened Bytes

  datatype Candidate = Candidate(bodyStart: nat, bodyEnd: nat, ownerEnd: nat, endBlocksToSkip: nat)

  datatype Event =
    | Open(at: nat, bodyStart: nat)
    | Close(at: nat, end: nat)
  {
    function Next(): nat {
      if Open? then bodyStart else end
    }
  }

  // ----- line ownership

  predicate IsLinePadding(c: char) { c == ' ' || c == '\t' || c == '\0' }

  function LineStart(src: string, p: nat): (r: nat)
    requires p <= |src|
    ensures r <= p
  {
    if p == 0 || src[p - 1] == '\n' then p else LineStart(src, p - 1)
  }

  /** Only padding precedes `p` on its line. */
  predicate HasPhysicalLineOwnership(src: string, p: nat)
    requires p <= |src|
  {
    forall q | LineStart(src, p) <= q < p :: IsLinePadding(src[q])
  }

  lemma OwnershipStep(src: string, p: nat)
    requires p < |src|
    ensures HasPhysicalLineOwnership(src, p + 1) <==>
            src[p] == '\n' || (IsLinePadding(src[p]) && HasPhysicalLineOwnership(src, p))
  {
    if src[p] != '\n' {
      assert LineStart(src, p + 1) == LineStart(src, p);
    }
  }

  // ----- marker recognisers

  /** The end of the `[[code ...]]` head that starts at `m`. */
  function OpenerEnd(src: string, m: nat): (r: Option<nat>)
    ensures r.Some? ==> OccursAt(src, "[[", m) && m + 8 <= r.value && OccursAt(src, "]]", r.value - 2)
  {
    if !OccursAt(src, "[[", m) then
      None
    else
      match Find(src, "]]", m + 2)
      case None => None
      case Some(h) =>
        var head := src[m + 2..h];
        if EqIgnoreAsciiCase(head[..NameEnd(head)], "code") then Some(h + 2) else None
  }

  /** The end of the `[[/code]]` marker that starts at `m`. */
  function CloserMarkerEnd(src: string, m: nat): (r: Option<nat>)
    ensures r.Some? ==> OccursAt(src, "[[", m) && r.value == m + 9 && OccursAt(src, "]]", r.value - 2)
  {
    if !OccursAt(src, "[[/", m) then
      None
    else
      match Find(src, "]]", m + 3)
      case None => None
      case Some(h) =>
        assert src[m..m + 2] == src[m..m + 3][..2] == "[[";
        if EqIgnoreAsciiCase(src[m + 3..h], "code") then Some(h + 2) else None
  }

  predicate CloserTerminates(src: string, end: nat) {
    end >= |src| || src[end] == ' ' || src[end] == '\t' || src[end] == '\r' || src[end] == '\n'
  }

  /** A closer's bytes: nine of them, spelling `[[/code]]` in any case. */
  lemma CloserSpelling(src: string, m: nat)
    requires CloserMarkerEnd(src, m).Some?
    ensures EqIgnoreAsciiCase(src[m..m + 9], "[[/code]]")
  {
    var text, name := src[m..m + 9], src[m + 3..m + 7];
    assert src[m..m + 3] == "[[/" && EqIgnoreAsciiCase(name, "code") && src[m + 7..m + 9] == "]]";
    forall k | 0 <= k < 9 ensures Lower(text[k]) == Lower("[[/code]]"[k]) {
      if k < 3 {
        assert text[k] == src[m..m + 3][k];
      } else if k < 7 {
        assert text[k] == name[k - 3] && "[[/code]]"[k] == "code"[k - 3];
      } else {
        assert text[k] == src[m + 7..m + 9][k - 7];
      }
    }
  }

  /** A closer is not an opener: its head is named `/code`. */
  lemma CloserIsNoOpener(src: string, m: nat)
    requires OccursAt(src, "[[/", m)
    ensures OpenerEnd(src, m).None?
  {
    assert src[m + 2] == src[m..m + 3][2] == '/';
    if OccursAt(src, "[[", m) {
      match Find(src, "]]", m + 2)
      case None =>
      case Some(h) =>
        var head := src[m + 2..h];
        var name := head[..NameEnd(head)];
        assert name != "" ==> Lower(name[0]) == '/';
        assert Lower("code"[0]) == 'c';
    }
  }

  // ----- crossing bold closers

  function Trim(s: string): string {
    if s != "" && IsAsciiWhitespace(s[0]) then Trim(s[1..])
    else if s != "" && IsAsciiWhitespace(s[|s| - 1]) then Trim(s[..|s| - 1])
    else s
  }

  datatype Marker = Marker(closing: bool, name: string, end: nat)

  function MarkerAt(src: string, m: nat): (r: Option<Marker>)
    ensures r.Some? ==> OccursAt(src, "[[", m) && m + 4 <= r.value.end <= |src|
  {
    if !OccursAt(src, "[[", m) then
      None
    else
      var closing := OccursAt(src, "[[/", m);
      var headStart := if closing then m + 3 else m + 2;
      match Find(src, "]]", headStart)
      case None => None
      case Some(h) =>
        var head := Trim(src[headStart..h]);
        var name := head[..NameEnd(head)];
        if name == "" then None else Some(Marker(closing, name, h + 2))
  }

  /** The `[[bold]]` (false) and `[[/bold]]` (true) markers of a body, in order. */
  function BoldMarks(body: string, cursor: nat): seq<bool>
    requires cursor <= |body|
    decreases |body| - cursor
  {
    match Find(body, "[[", cursor)
    case None => []
    case Some(m) =>
      match MarkerAt(body, m)
      case None => BoldMarks(body, m + 2)
      case Some(mark) =>
        (if EqIgnoreAsciiCase(mark.name, "bold") then [mark.closing] else []) + BoldMarks(body, mark.end)
  }

  /** Openers minus closers. */
  function BoldBalance(marks: seq<bool>): int {
    if marks == [] then 0 else (if marks[0] then -1 else 1) + BoldBalance(marks[1..])
  }

  /** From some mark on, openers outnumber closers. */
  ghost predicate OpensMore(marks: seq<bool>) {
    exists k :: 0 <= k < |marks| && BoldBalance(marks[k..]) > 0
  }

  /** Some opener of the body is still open at its end. */
  ghost predicate LeavesBoldOpen(body: string) {
    OpensMore(BoldMarks(body, 0))
  }

  ghost predicate CrossesBoldCloser(body: string, suffix: string) {
    MarkerAt(suffix, 0).Some?
    && MarkerAt(suffix, 0).value.closing
    && EqIgnoreAsciiCase(MarkerAt(suffix, 0).value.name, "bold")
    && LeavesBoldOpen(body)
  }

  /** The running depth of a scan that never goes below zero. */
  function SaturatingDepth(marks: seq<bool>, depth: nat): nat {
    if marks == [] then depth
    else SaturatingDepth(marks[1..], if marks[0] then (if depth == 0 then 0 else depth - 1) else depth + 1)
  }

  lemma OpensMoreStep(marks: seq<bool>)
    requires marks != []
    ensures OpensMore(marks) <==> BoldBalance(marks) > 0 || OpensMore(marks[1..])
  {
    hide BoldBalance;
    var rest := marks[1..];
    assert marks[0..] == marks;
    if OpensMore(marks) && !(BoldBalance(marks) > 0) {
      var k :| 0 <= k < |marks| && BoldBalance(marks[k..]) > 0;
      assert rest[k - 1..] == marks[k..];
    }
    if OpensMore(rest) {
      var k :| 0 <= k < |rest| && BoldBalance(rest[k..]) > 0;
      assert marks[k + 1..] == rest[k..];
    }
  }

  lemma {:induction false} SaturatingDepthMeaning(marks: seq<bool>, depth: nat)
    ensures SaturatingDepth(marks, depth) > 0 <==> depth + BoldBalance(marks) > 0 || OpensMore(marks)
  {
    hide OpensMore;
    if marks == [] {
      NoneOpen();
    } else {
      var next := if marks[0] then (if depth == 0 then 0 else depth - 1) else depth + 1;
      SaturatingDepthMeaning(marks[1..], next);
      OpensMoreStep(marks);
      BalanceOpens(marks[1..]);
    }
  }

  lemma NoneOpen()
    ensures !OpensMore([])
  {
  }

  lemma BalanceOpens(marks: seq<bool>)
    ensures BoldBalance(marks) > 0 ==> OpensMore(marks)
  {
    if BoldBalance(marks) > 0 {
      assert marks[0..] == marks;
    }
  }

  // ----- events

  /** What the scan does at one `[[`: the event it meets, if any, and where it
      resumes. */
  datatype Visit = Visit(events: seq<Event>, next: nat)

  function VisitMarker(src: string, m: nat): (v: Visit)
    requires m + 2 <= |src|
    ensures m + 2 <= v.next <= |src|
  {
    if CloserMarkerEnd(src, m).Some? then
      var end := CloserMarkerEnd(src, m).value;
      Visit(if CloserTerminates(src, end) then [Close(m, end)] else [], end)
    else if OpenerEnd(src, m).Some? && HasPhysicalLineOwnership(src, m) then
      Visit([Open(m, OpenerEnd(src, m).value)], OpenerEnd(src, m).value)
    else
      Visit([], m + 2)
  }

  /** The markers a scan starting at `cursor` meets: line-owning openers and
      terminating closers. A closer that does not terminate is body text. */
  function Events(src: string, cursor: nat): seq<Event>
    requires cursor <= |src|
    decreases |src| - cursor
  {
    match Find(src, "[[", cursor)
    case None => []
    case Some(m) => VisitMarker(src, m).events + Events(src, VisitMarker(src, m).next)
  }

  /** Each event lies in the source and starts where or after the previous one
      ended. */
  ghost predicate Ordered(size: nat, from: nat, es: seq<Event>) {
    && (forall i | 0 <= i < |es| :: from <= es[i].at < es[i].Next() <= size)
    && (forall i, j | 0 <= i < j < |es| :: es[i].Next() <= es[j].at)
  }

  /** The event is what it claims to be. */
  ghost predicate Genuine(src: string, e: Event) {
    e.at <= |src| && OccursAt(src, "[[", e.at) &&
    match e
    case Open(at, b) => OpenerEnd(src, at) == Some(b) && HasPhysicalLineOwnership(src, at)
    case Close(at, end) => CloserMarkerEnd(src, at) == Some(end) && CloserTerminates(src, end)
  }

  ghost predicate AllGenuine(src: string, es: seq<Event>) {
    forall i | 0 <= i < |es| :: Genuine(src, es[i])
  }

  lemma VisitPlaced(src: string, m: nat)
    requires OccursAt(src, "[[", m)
    ensures forall e | e in VisitMarker(src, m).events ::
              Genuine(src, e) && e.at == m && e.Next() == VisitMarker(src, m).next
  {
  }

  lemma {:induction false} EventsPlaced(src: string, cursor: nat)
    requires cursor <= |src|
    ensures Ordered(|src|, cursor, Events(src, cursor)) && AllGenuine(src, Events(src, cursor))
    decreases |src| - cursor
  {
    match Find(src, "[[", cursor)
    case None =>
    case Some(m) =>
      var v := VisitMarker(src, m);
      VisitPlaced(src, m);
      EventsPlaced(src, v.next);
      assert forall i | 0 <= i < |v.events| :: v.events[i] in v.events;
  }

  lemma EventsUnfold(src: string, cursor: nat) returns (v: Visit)
    requires cursor <= |src| && Events(src, cursor) != []
    ensures cursor < v.next <= |src| && Events(src, cursor) == v.events + Events(src, v.next)
    ensures |v.events| <= 1 && (v.events != [] ==> v.events[0].Next() == v.next)
  {
    hide Events;
    EventsHead(src, cursor);
    v := VisitMarker(src, Find(src, "[[", cursor).value);
  }

  lemma EventsHead(src: string, cursor: nat)
    requires cursor <= |src| && Events(src, cursor) != []
    ensures Find(src, "[[", cursor).Some?
    ensures
      var v := VisitMarker(src, Find(src, "[[", cursor).value);
      Events(src, cursor) == v.events + Events(src, v.next)
  {
  }

  /** The events after the `i`-th are those of a scan that starts where it ended. */
  lemma {:induction false} EventsSuffix(src: string, cursor: nat, i: nat)
    requires cursor <= |src|
    requires i < |Events(src, cursor)|
    ensures Events(src, cursor)[i].Next() <= |src|
    ensures Events(src, cursor)[i + 1..] == Events(src, Events(src, cursor)[i].Next())
    decreases |src| - cursor
  {
    hide Events;
    var v := EventsUnfold(src, cursor);
    var rest, es := Events(src, v.next), Events(src, cursor);
    if i < |v.events| {
      assert es[1..] == rest;
    } else {
      var k := i - |v.events|;
      EventsSuffix(src, v.next, k);
      assert es[i] == rest[k] && es[i + 1..] == rest[k + 1..];
    }
  }

  lemma EventsDone(src: string, cursor: nat)
    requires cursor <= |src| && Find(src, "[[", cursor).None?
    ensures Events(src, cursor) == []
  {
  }

  /** The event list advances with the scan. */
  lemma EventsVisit(src: string, cursor: nat, es: seq<Event>, k: nat, v: Visit)
    requires cursor <= |src| && k <= |es| && Events(src, cursor) == es[k..]
    requires Find(src, "[[", cursor).Some? && v == VisitMarker(src, Find(src, "[[", cursor).value)
    ensures k + |v.events| <= |es| && es[k + |v.events|..] == Events(src, v.next)
    ensures |v.events| <= 1 && (|v.events| == 1 ==> es[k] == v.events[0])
  {
    assert es[k..] == v.events + Events(src, v.next);
    if |v.events| > 0 {
      assert es[k] == es[k..][0] && es[k + 1..] == es[k..][1..];
    }
  }

  // ----- pairing

  /** The closer that balances `depth + 1` openers, looking from event `k` on. */
  function Match(es: seq<Event>, k: nat, depth: nat): (r: Option<nat>)
    ensures r.Some? ==> k <= r.value < |es| && es[r.value].Close?
    decreases |es| - k
  {
    if k >= |es| then None
    else if es[k].Open? then Match(es, k + 1, depth + 1)
    else if depth == 0 then Some(k)
    else Match(es, k + 1, depth - 1)
  }

  /** Openers minus closers among the events from `lo` up to `hi`. */
  function Level(es: seq<Event>, lo: nat, hi: nat): int
    requires lo <= hi <= |es|
  {
    if hi == lo then 0 else Level(es, lo, hi - 1) + if es[hi - 1].Open? then 1 else -1
  }

  lemma {:induction false} LevelFirst(es: seq<Event>, lo: nat, hi: nat)
    requires lo < hi <= |es|
    ensures Level(es, lo, hi) == (if es[lo].Open? then 1 else -1) + Level(es, lo + 1, hi)
  {
    if lo + 1 < hi {
      LevelFirst(es, lo, hi - 1);
    }
  }

  /** The search stops at the first closer that takes the level below zero, and
      finds none if the level never falls so far. */
  lemma {:induction false} MatchBalances(es: seq<Event>, k: nat, depth: nat)
    requires k <= |es|
    ensures
      var r := Match(es, k, depth);
      && (forall m | k <= m <= (if r.Some? then r.value else |es|) :: depth + Level(es, k, m) >= 0)
      && (r.Some? ==> depth + Level(es, k, r.value + 1) == -1)
    decreases |es| - k
  {
    if k < |es| && (es[k].Open? || depth > 0) {
      var next := if es[k].Open? then depth + 1 else depth - 1;
      MatchBalances(es, k + 1, next);
      var r := Match(es, k, depth);
      forall m | k < m <= (if r.Some? then r.value + 1 else |es|)
        ensures depth + Level(es, k, m) == next + Level(es, k + 1, m)
      {
        LevelFirst(es, k, m);
      }
    }
  }

  function Closes(es: seq<Event>, lo: nat, hi: nat): nat
    requires hi <= |es|
  {
    if hi <= lo then 0 else Closes(es, lo, hi - 1) + if es[hi - 1].Close? then 1 else 0
  }

  function LastClose(es: seq<Event>, lo: nat, hi: nat): (r: Option<nat>)
    requires hi <= |es|
    ensures r.Some? ==> lo <= r.value < hi && es[r.value].Close?
  {
    if hi <= lo then None else if es[hi - 1].Close? then Some(hi - 1) else LastClose(es, lo, hi - 1)
  }

  lemma {:induction false} ClosesSplit(es: seq<Event>, lo: nat, mid: nat, hi: nat)
    requires lo <= mid <= hi <= |es|
    ensures Closes(es, lo, hi) == Closes(es, lo, mid) + Closes(es, mid, hi)
    ensures LastClose(es, lo, hi) ==
            if LastClose(es, mid, hi).Some? then LastClose(es, mid, hi) else LastClose(es, lo, mid)
    ensures Closes(es, lo, hi) == 0 <==> LastClose(es, lo, hi).None?
    decreases hi
  {
    if mid < hi {
      ClosesSplit(es, lo, mid, hi - 1);
    } else if lo < hi {
      ClosesSplit(es, lo, mid - 1, hi - 1);
    }
  }

  lemma {:induction false} LastCloseIsLast(es: seq<Event>, lo: nat, hi: nat, j: nat)
    requires lo <= j < hi <= |es| && es[j].Close?
    ensures LastClose(es, lo, hi).Some? && j <= LastClose(es, lo, hi).value
  {
    if es[hi - 1].Open? {
      LastCloseIsLast(es, lo, hi - 1, j);
    }
  }

  /** The closer an opener is paired with: its own, or the last one after it. */
  function CloserIndex(es: seq<Event>, i: nat): (r: Option<nat>)
    ensures r.Some? ==> i < r.value < |es| && es[r.value].Close?
  {
    if Match(es, i + 1, 0).Some? then Match(es, i + 1, 0) else LastClose(es, i + 1, |es|)
  }

  ghost function PairedCandidate(src: string, es: seq<Event>, i: nat, closer: Option<nat>): Option<Candidate>
    requires i < |es| && es[i].Open?
    requires closer.Some? ==> i < closer.value < |es| && es[closer.value].Close?
    requires closer.Some? ==> es[i].bodyStart <= es[closer.value].at <= es[closer.value].end <= |src|
  {
    if closer.None? then None
    else
      var close := es[closer.value];
      if CrossesBoldCloser(src[es[i].bodyStart..close.at], src[close.end..]) then None
      else Some(Candidate(es[i].bodyStart, close.at, close.end, Closes(es, i + 1, closer.value)))
  }

  ghost function CandidateOf(src: string, es: seq<Event>, i: nat): Option<Candidate>
    requires Ordered(|src|, 0, es) && i < |es| && es[i].Open?
  {
    PairedCandidate(src, es, i, CloserIndex(es, i))
  }

  ghost predicate Records(src: string, es: seq<Event>, i: nat, out: map<nat, Candidate>)
    requires Ordered(|src|, 0, es) && i < |es| && es[i].Open?
  {
    var at := es[i].at;
    if CandidateOf(src, es, i).Some? then at in out && out[at] == CandidateOf(src, es, i).value else at !in out
  }

  ghost predicate IsOpener(es: seq<Event>, i: int, p: nat) {
    0 <= i < |es| && es[i].Open? && es[i].at == p
  }

  ghost predicate IsMapOf(src: string, es: seq<Event>, out: map<nat, Candidate>) {
    && Ordered(|src|, 0, es)
    && (forall i | 0 <= i < |es| && es[i].Open? :: Records(src, es, i, out))
    && (forall p | p in out :: exists i :: IsOpener(es, i, p))
  }

  /** `out` maps each opener to its candidate, and nothing else. */
  ghost predicate IsCandidateMap(src: string, out: map<nat, Candidate>) {
    IsMapOf(src, Events(src, 0), out)
  }

  lemma CandidateMapUnique(src: string, a: map<nat, Candidate>, b: map<nat, Candidate>)
    requires IsCandidateMap(src, a) && IsCandidateMap(src, b)
    ensures a == b
  {
    forall p | p in a || p in b ensures p in a && p in b && a[p] == b[p] {
      var i :| IsOpener(Events(src, 0), i, p);
      assert Records(src, Events(src, 0), i, a) && Records(src, Events(src, 0), i, b);
    }
  }

  /** The closers from `lo` up to `hi`. */
  ghost function ClosersAmong(es: seq<Event>, lo: nat, hi: nat): set<nat>
    requires hi <= |es|
  {
    set m: nat | lo <= m < hi && es[m].Close?
  }

  lemma {:induction false} ClosesCount(es: seq<Event>, lo: nat, hi: nat)
    requires lo <= hi <= |es|
    ensures Closes(es, lo, hi) == |ClosersAmong(es, lo, hi)|
  {
    if lo < hi {
      ClosesCount(es, lo, hi - 1);
      var before := ClosersAmong(es, lo, hi - 1);
      assert ClosersAmong(es, lo, hi) == if es[hi - 1].Close? then before + {hi - 1} else before;
    } else {
      assert ClosersAmong(es, lo, hi) == {};
    }
  }

  /** Where closers first outnumber openers behind the opener, or where nothing
      does, the last closer behind it. */
  ghost predicate IsCloserOf(es: seq<Event>, i: nat, j: nat) {
    && i < j < |es| && es[j].Close?
    && if exists n: nat :: FallsBelow(es, i, n) then
         FallsBelow(es, i, j) && forall n: nat | n < j :: !FallsBelow(es, i, n)
       else
         forall n | j < n < |es| :: !es[n].Close?
  }

  /** From the opener to the event, closers outnumber the openers behind it. */
  ghost predicate FallsBelow(es: seq<Event>, i: nat, n: nat) {
    i < n < |es| && Level(es, i + 1, n + 1) < 0
  }

  /** The body ends at a bold closer and leaves some bold opener open. */
  ghost predicate SplitsBold(body: string, suffix: string) {
    && (exists end, name :: MarkerAt(suffix, 0) == Some(Marker(true, name, end)) && EqIgnoreAsciiCase(name, "bold"))
    && exists k :: 0 <= k < |BoldMarks(body, 0)| && BoldBalance(BoldMarks(body, 0)[k..]) > 0
  }

  lemma CloserIsPaired(es: seq<Event>, i: nat)
    requires i < |es| && es[i].Open?
    ensures forall j: nat :: CloserIndex(es, i) == Some(j) <==> IsCloserOf(es, i, j)
  {
    hide Level, LastClose, Closes;
    MatchBalances(es, i + 1, 0);
    var r := Match(es, i + 1, 0);
    ClosesSplit(es, i + 1, i + 1, |es|);
    if r.Some? {
      assert FallsBelow(es, i, r.value);
    }
    forall j | i < j < |es| && es[j].Close?
      ensures LastClose(es, i + 1, |es|).Some? && j <= LastClose(es, i + 1, |es|).value
    {
      LastCloseIsLast(es, i + 1, |es|, j);
    }
  }

  /** An opener is mapped exactly if it has such a closer and the bold of its body
      is not split there; to the body up to the closer, and the number of closers
      between. */
  lemma CandidateMeans(src: string, out: map<nat, Candidate>, i: nat)
    requires IsCandidateMap(src, out) && i < |Events(src, 0)| && Events(src, 0)[i].Open?
    ensures
      var es := Events(src, 0);
      var open := es[i];
      && (open.at in out ==> exists j: nat :: IsCloserOf(es, i, j))
      && forall j: nat | IsCloserOf(es, i, j) && open.bodyStart <= es[j].at <= es[j].end <= |src| ::
           if SplitsBold(src[open.bodyStart..es[j].at], src[es[j].end..]) then open.at !in out
           else
             && open.at in out
             && j <= |es|
             && out[open.at] == Candidate(open.bodyStart, es[j].at, es[j].end, |ClosersAmong(es, i + 1, j)|)
  {
    hide Events, Level, Match, LastClose, Closes, BoldMarks, BoldBalance, MarkerAt, CloserIndex, IsCloserOf;
    var es := Events(src, 0);
    CloserIsPaired(es, i);
    assert Records(src, es, i, out);
    forall j: nat | IsCloserOf(es, i, j) && es[i].bodyStart <= es[j].at <= es[j].end <= |src|
      ensures CrossesBoldCloser(src[es[i].bodyStart..es[j].at], src[es[j].end..])
         <==> SplitsBold(src[es[i].bodyStart..es[j].at], src[es[j].end..])
      ensures i < j < |es| && Closes(es, i + 1, j) == |ClosersAmong(es, i + 1, j)|
    {
      CloserLater(es, i, j);
      ClosesCount(es, i + 1, j);
    }
  }

  lemma CloserLater(es: seq<Event>, i: nat, j: nat)
    requires IsCloserOf(es, i, j)
    ensures i < j < |es|
  {
  }

  // ----- what the pairing guarantees

  /** A shallower search from the same event ends earlier. */
  lemma {:induction false} ShallowMatchesEarlier(es: seq<Event>, k: nat, deep: nat, shallow: nat)
    requires shallow < deep
    requires Match(es, k, deep).Some?
    ensures Match(es, k, shallow).Some? && Match(es, k, shallow).value < Match(es, k, deep).value
    decreases |es| - k
  {
    if es[k].Open? {
      ShallowMatchesEarlier(es, k + 1, deep + 1, shallow + 1);
    } else if shallow > 0 {
      ShallowMatchesEarlier(es, k + 1, deep - 1, shallow - 1);
    }
  }

  /** An opener met before a search ends is balanced before it ends. */
  lemma {:induction false} InnerMatchesFirst(es: seq<Event>, k: nat, depth: nat, i: nat)
    requires Match(es, k, depth).Some?
    requires k <= i < Match(es, k, depth).value && es[i].Open?
    ensures Match(es, i + 1, 0).Some? && Match(es, i + 1, 0).value < Match(es, k, depth).value
    decreases |es| - k
  {
    if k == i {
      ShallowMatchesEarlier(es, i + 1, depth + 1, 0);
    } else {
      InnerMatchesFirst(es, k + 1, if es[k].Open? then depth + 1 else depth - 1, i);
    }
  }

  ghost predicate Laminar(a: nat, aEnd: nat, b: nat, bEnd: nat) {
    || aEnd <= b || bEnd <= a
    || (a <= b && bEnd <= aEnd)
    || (b <= a && aEnd <= bEnd)
  }

  lemma PairsNest(es: seq<Event>, i: nat, k: nat)
    requires i < k < |es| && es[i].Open? && es[k].Open?
    requires CloserIndex(es, i).Some? && CloserIndex(es, k).Some?
    ensures k < CloserIndex(es, i).value ==> CloserIndex(es, k).value <= CloserIndex(es, i).value
  {
    if k < CloserIndex(es, i).value {
      if Match(es, i + 1, 0).Some? {
        InnerMatchesFirst(es, i + 1, 0, k);
      } else {
        LastCloseIsLast(es, i + 1, |es|, CloserIndex(es, k).value);
      }
    }
  }

  /** The two events behind an entry of the map. */
  lemma EntryEvents(src: string, es: seq<Event>, out: map<nat, Candidate>, p: nat) returns (i: nat, j: nat)
    requires es == Events(src, 0)
    requires IsCandidateMap(src, out) && p in out
    ensures Ordered(|src|, 0, es) && AllGenuine(src, es)
    ensures i < j < |es| && es[i].Open? && es[j].Close? && CloserIndex(es, i) == Some(j)
    ensures es[i].at == p && es[i].Next() == out[p].bodyStart
    ensures es[j].at == out[p].bodyEnd && es[j].Next() == out[p].ownerEnd
    ensures CandidateOf(src, es, i) == Some(out[p])
  {
    EventsPlaced(src, 0);
    i :| IsOpener(es, i, p);
    assert Records(src, es, i, out);
    j := CloserIndex(es, i).value;
  }

  /** The map's shape: each body is bracketed by its opener's head and a
      nine-byte closer. */
  lemma CandidateShape(src: string, out: map<nat, Candidate>, p: nat)
    requires IsCandidateMap(src, out) && p in out
    ensures p < out[p].bodyStart <= out[p].bodyEnd
    ensures out[p].ownerEnd == out[p].bodyEnd + 9 <= |src|
    ensures EqIgnoreAsciiCase(src[out[p].bodyEnd..out[p].ownerEnd], "[[/code]]")
    ensures CloserTerminates(src, out[p].ownerEnd)
    ensures p <= |src| && HasPhysicalLineOwnership(src, p)
  {
    hide IsCandidateMap, Genuine, CloserIndex, CandidateOf;
    var es := Events(src, 0);
    var i, j := EntryEvents(src, es, out, p);
    OpenShape(src, es[i]);
    CloseShape(src, es[j]);
  }

  lemma OpenShape(src: string, e: Event)
    requires Genuine(src, e) && e.Open?
    ensures e.at <= |src| && HasPhysicalLineOwnership(src, e.at)
  {
  }

  lemma CloseShape(src: string, e: Event)
    requires Genuine(src, e) && e.Close?
    ensures e.Next() == e.at + 9 <= |src| && CloserTerminates(src, e.Next())
    ensures EqIgnoreAsciiCase(src[e.at..e.Next()], "[[/code]]")
  {
    hide EqIgnoreAsciiCase;
    CloserSpelling(src, e.at);
  }

  /** Any two owners nest or are disjoint, inherited closers included; an owner
      inside another starts in its body. */
  lemma CandidatesLaminar(src: string, out: map<nat, Candidate>, p: nat, q: nat)
    requires IsCandidateMap(src, out) && p in out && q in out
    ensures Laminar(p, out[p].ownerEnd, q, out[q].ownerEnd)
    ensures p < q < out[p].ownerEnd ==> q >= out[p].bodyStart && out[q].ownerEnd <= out[p].ownerEnd
  {
    var es := Events(src, 0);
    var i, ci := EntryEvents(src, es, out, p);
    var k, ck := EntryEvents(src, es, out, q);
    LaminarPairs(|src|, es, i, ci, k, ck);
  }

  lemma LaminarPairs(size: nat, es: seq<Event>, i: nat, ci: nat, k: nat, ck: nat)
    requires Ordered(size, 0, es)
    requires i < ci < |es| && es[i].Open? && CloserIndex(es, i) == Some(ci)
    requires k < ck < |es| && es[k].Open? && CloserIndex(es, k) == Some(ck)
    ensures Laminar(es[i].at, es[ci].Next(), es[k].at, es[ck].Next())
    ensures es[i].at < es[k].at < es[ci].Next() ==>
              es[k].at >= es[i].Next() && es[ck].Next() <= es[ci].Next()
  {
    OrderedPairs(size, es, i, ci, k, ck);
    OrderedPairs(size, es, k, ck, i, ci);
  }

  lemma OrderedPairs(size: nat, es: seq<Event>, i: nat, ci: nat, k: nat, ck: nat)
    requires Ordered(size, 0, es)
    requires i < ci < |es| && es[i].Open? && CloserIndex(es, i) == Some(ci)
    requires k < ck < |es| && es[k].Open? && CloserIndex(es, k) == Some(ck)
    ensures i < k ==> es[i].at < es[k].at && es[i].Next() <= es[k].at
    ensures i < k < ci ==> es[ck].Next() <= es[ci].Next()
    ensures ci < k ==> es[ci].Next() <= es[k].at
  {
    if i < k {
      PairsNest(es, i, k);
    }
  }

  // ----- the single-opener reader

  /** What reading one opener in isolation decides, given its body start. */
  ghost function InnerCandidate(src: string, bodyStart: nat): Option<Candidate>
    requires bodyStart <= |src|
  {
    var es := Events(src, bodyStart);
    EventsPlaced(src, bodyStart);
    match Match(es, 0, 0)
    case None => None
    case Some(j) =>
      if CrossesBoldCloser(src[bodyStart..es[j].at], src[es[j].end..]) then None
      else Some(Candidate(bodyStart, es[j].at, es[j].end, Closes(es, 0, j)))
  }

  lemma {:induction false} MatchShift(es: seq<Event>, off: nat, k: nat, depth: nat)
    requires off <= |es|
    ensures Match(es[off..], k, depth).Some? <==> Match(es, off + k, depth).Some?
    ensures Match(es[off..], k, depth).Some? ==>
            Match(es[off..], k, depth).value + off == Match(es, off + k, depth).value
    decreases |es| - k
  {
    if k < |es[off..]| {
      assert es[off..][k] == es[off + k];
      if es[off + k].Open? {
        MatchShift(es, off, k + 1, depth + 1);
      } else if depth > 0 {
        MatchShift(es, off, k + 1, depth - 1);
      }
    }
  }

  lemma {:induction false} ClosesShift(es: seq<Event>, off: nat, hi: nat)
    requires off + hi <= |es|
    ensures Closes(es[off..], 0, hi) == Closes(es, off, off + hi)
  {
    if hi > 0 {
      ClosesShift(es, off, hi - 1);
    }
  }

  lemma MatchAfter(es: seq<Event>, i: nat, rest: seq<Event>)
    requires i < |es| && rest == es[i + 1..]
    ensures Match(rest, 0, 0).Some? <==> Match(es, i + 1, 0).Some?
    ensures Match(rest, 0, 0).Some? ==>
              var j := Match(es, i + 1, 0).value;
              var r := Match(rest, 0, 0).value;
              r + i + 1 == j && rest[r] == es[j] && Closes(rest, 0, r) == Closes(es, i + 1, j)
  {
    MatchShift(es, i + 1, 0, 0);
    if Match(rest, 0, 0).Some? {
      ClosesShift(es, i + 1, Match(rest, 0, 0).value);
    }
  }

  /** The single-opener reader and the global scan agree on every opener the
      scan met: same candidate (or same bold rejection) when a closer balances
      it, and no answer exactly when the scan has to inherit a closer. */
  lemma InnerAgreesWithScan(src: string, es: seq<Event>, i: nat)
    requires es == Events(src, 0) && i < |es| && es[i].Open?
    ensures Ordered(|src|, 0, es)
    ensures Match(es, i + 1, 0).Some? ==> InnerCandidate(src, es[i].bodyStart) == CandidateOf(src, es, i)
    ensures Match(es, i + 1, 0).None? ==> InnerCandidate(src, es[i].bodyStart).None?
  {
    EventsPlaced(src, 0);
    EventsSuffix(src, 0, i);
    MatchAfter(es, i, Events(src, es[i].bodyStart));
  }

  // ----- both walks meet the same markers

  /** How many `[` stand immediately before `p`. */
  function BracketsBefore(src: string, p: nat): nat
    requires p <= |src|
  {
    if p == 0 || src[p - 1] != '[' then 0 else 1 + BracketsBefore(src, p - 1)
  }

  ghost predicate Aligned(src: string, p: nat)
    requires p <= |src|
  {
    BracketsBefore(src, p) % 2 == 0
  }

  lemma OpenBrackets(src: string, p: nat)
    ensures OccursAt(src, "[[", p) <==> p + 2 <= |src| && src[p] == '[' && src[p + 1] == '['
    ensures OccursAt(src, "]]", p) <==> p + 2 <= |src| && src[p] == ']' && src[p + 1] == ']'
  {
    if p + 2 <= |src| {
      assert src[p..p + 2] == [src[p], src[p + 1]];
    }
  }

  /** From an aligned cursor the next `[[` is aligned, and so is the cursor two
      bytes after it. */
  lemma NextMarkerAligned(src: string, cursor: nat)
    requires cursor <= |src| && Aligned(src, cursor)
    requires Find(src, "[[", cursor).Some?
    ensures Aligned(src, Find(src, "[[", cursor).value)
    ensures Find(src, "[[", cursor).value + 2 <= |src|
    ensures Aligned(src, Find(src, "[[", cursor).value + 2)
  {
    var m := Find(src, "[[", cursor).value;
    OpenBrackets(src, m);
    if m > cursor {
      OpenBrackets(src, m - 1);
      assert src[m - 1] != '[';
    }
    assert BracketsBefore(src, m + 2) == BracketsBefore(src, m) + 2;
  }

  lemma AfterCloseAligned(src: string, end: nat)
    requires end >= 2 && OccursAt(src, "]]", end - 2)
    ensures Aligned(src, end)
  {
    OpenBrackets(src, end - 2);
  }

  ghost predicate AllAligned(src: string, es: seq<Event>) {
    forall i | 0 <= i < |es| :: es[i].at <= |src| && Aligned(src, es[i].at)
  }

  lemma VisitAligned(src: string, m: nat)
    requires m + 2 <= |src| && Aligned(src, m) && OccursAt(src, "[[", m)
    ensures Aligned(src, VisitMarker(src, m).next)
  {
    OpenBrackets(src, m);
    assert BracketsBefore(src, m + 2) == BracketsBefore(src, m) + 2;
    var next := VisitMarker(src, m).next;
    if next != m + 2 {
      AfterCloseAligned(src, next);
    }
  }

  /** Every event a scan meets from an aligned cursor is aligned. */
  lemma {:induction false} EventsAligned(src: string, cursor: nat)
    requires cursor <= |src| && Aligned(src, cursor)
    ensures AllAligned(src, Events(src, cursor))
    decreases |src| - cursor
  {
    match Find(src, "[[", cursor)
    case None =>
    case Some(m) =>
      NextMarkerAligned(src, cursor);
      VisitAligned(src, m);
      EventsAligned(src, VisitMarker(src, m).next);
  }

  /** No aligned marker hides between an aligned cursor's next `[[` and the
      position two bytes after it, even inside a run of brackets. */
  lemma NoAlignedMarkerSkipped(src: string, cursor: nat, p: nat)
    requires cursor <= p && p + 2 <= |src|
    requires Aligned(src, cursor) && Aligned(src, p) && OccursAt(src, "[[", p)
    ensures Find(src, "[[", cursor).Some?
    ensures p == Find(src, "[[", cursor).value || p >= Find(src, "[[", cursor).value + 2
  {
    assert !(Find(src, "[[", cursor).None?);
    var m := Find(src, "[[", cursor).value;
    assert m <= p;
    NextMarkerAligned(src, cursor);
    OpenBrackets(src, m);
    assert BracketsBefore(src, m + 1) == BracketsBefore(src, m) + 1;
  }
}
