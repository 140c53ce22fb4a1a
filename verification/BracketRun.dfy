/** Re-splitting runs of opening brackets: `[` `[[[` may stand for `[[` `[[` or
    `[` `[` `[[`, and `[[[` `!` `--` for `[[` `[!--`. What a reading parses as
    is asked of probes; here they may answer anything. */
module BracketRun {
  import opened Bytes
  import opened Seqs

  datatype Token =
    | LeftLink | LeftBracket | LeftBlock | LeftComment
    | RightLink | RightBracket | RightBlock
    | Whitespace | LineBreak | ParagraphBreak | DoubleDash | Other
    | OtherKind(id: nat)

  datatype ExtractedToken = ExtractedToken(token: Token, slice: string, start: nat, end: nat)

  type Tokens = seq<ExtractedToken>

  // ----- tokens and their text

  /** Tokens cover the text from `at` to `end`, one after another. */
  ghost predicate Tiles(tokens: Tokens, source: string, at: nat, end: nat) {
    if tokens == [] then at == end
    else
      && tokens[0].start == at <= tokens[0].end <= end <= |source|
      && tokens[0].slice == source[at..tokens[0].end]
      && Tiles(tokens[1..], source, tokens[0].end, end)
  }

  /** The text the tokens read as. */
  function TextOf(tokens: Tokens): string {
    if tokens == [] then "" else tokens[0].slice + TextOf(tokens[1..])
  }

  lemma {:induction false} TilesRead(tokens: Tokens, source: string, at: nat, end: nat)
    requires Tiles(tokens, source, at, end) && end <= |source|
    ensures at <= end && TextOf(tokens) == source[at..end]
  {
    if tokens != [] {
      TilesRead(tokens[1..], source, tokens[0].end, end);
      assert source[at..end] == source[at..tokens[0].end] + source[tokens[0].end..end];
    }
  }

  lemma {:induction false} TilesCut(a: Tokens, b: Tokens, source: string, at: nat, end: nat) returns (mid: nat)
    requires Tiles(a + b, source, at, end)
    ensures Tiles(a, source, at, mid) && Tiles(b, source, mid, end)
  {
    mid := at;
    if a == [] {
      assert a + b == b;
    } else {
      assert (a + b)[1..] == a[1..] + b && (a + b)[0] == a[0];
      mid := TilesCut(a[1..], b, source, a[0].end, end);
      TilesBound(a[1..], source, a[0].end, mid);
      TilesBound(b, source, mid, end);
    }
  }

  lemma {:induction false} TilesJoin(a: Tokens, b: Tokens, source: string, at: nat, mid: nat, end: nat)
    requires Tiles(a, source, at, mid) && Tiles(b, source, mid, end)
    ensures Tiles(a + b, source, at, end)
  {
    if a == [] {
      assert a + b == b;
    } else {
      assert (a + b)[1..] == a[1..] + b && (a + b)[0] == a[0];
      TilesJoin(a[1..], b, source, a[0].end, mid, end);
      TilesBound(b, source, mid, end);
    }
  }

  lemma {:induction false} TilesBound(tokens: Tokens, source: string, at: nat, end: nat)
    requires Tiles(tokens, source, at, end)
    ensures at <= end
  {
    if tokens != [] {
      TilesBound(tokens[1..], source, tokens[0].end, end);
    }
  }

  /** How the tokens a repair reads and writes are spelled. */
  predicate Spelled(t: ExtractedToken) {
    && (t.token.LeftLink? ==> t.slice == "[[[")
    && (t.token.LeftBracket? ==> t.slice == "[")
    && (t.token.LeftBlock? ==> t.slice == "[[")
    && (t.token.LeftComment? ==> t.slice == "[!--")
  }

  predicate AllSpelled(tokens: Tokens) {
    forall k | 0 <= k < |tokens| :: Spelled(tokens[k])
  }

  function TokenAt(token: Token, source: string, start: nat, end: nat): ExtractedToken
    requires start <= end <= |source|
  {
    ExtractedToken(token, source[start..end], start, end)
  }

  // ----- readings

  datatype Reading = CommentHead | Segment | Brackets

  /** How many tokens a reading replaces. */
  function Replaces(reading: Reading): nat {
    if reading.CommentHead? then 3 else 2
  }

  function Width(reading: Reading): nat {
    if reading.CommentHead? then 6 else 4
  }

  function Resplit(reading: Reading, source: string, start: nat): (r: Tokens)
    requires start + Width(reading) <= |source|
    ensures |r| >= 2
  {
    match reading
    case CommentHead => [TokenAt(LeftBlock, source, start, start + 2),
                         TokenAt(LeftComment, source, start + 2, start + 6)]
    case Segment => [TokenAt(LeftBlock, source, start, start + 2), TokenAt(LeftBlock, source, start + 2, start + 4)]
    case Brackets =>
      [TokenAt(LeftBracket, source, start, start + 1), TokenAt(LeftBracket, source, start + 1, start + 2),
       TokenAt(LeftBlock, source, start + 2, start + 4)]
  }

  predicate IsCommentHead(tokens: Tokens, index: nat, source: string) {
    && index + 2 < |tokens|
    && tokens[index].token.LeftLink? && tokens[index].end == tokens[index].start + 3
    && OccursAt(source, "[[[!--", tokens[index].start)
    && tokens[index + 1].token.Other? && tokens[index + 1].slice == "!"
    && tokens[index + 1].start == tokens[index].start + 3 && tokens[index + 1].end == tokens[index].start + 4
    && tokens[index + 2].token.DoubleDash? && tokens[index + 2].slice == "--"
    && tokens[index + 2].start == tokens[index].start + 4 && tokens[index + 2].end == tokens[index].start + 6
  }

  predicate IsPair(tokens: Tokens, index: nat) {
    && index + 1 < |tokens|
    && tokens[index].token.LeftBracket? && tokens[index + 1].token.LeftLink?
    && tokens[index + 1].start == tokens[index].end
    && tokens[index].end == tokens[index].start + 1
  }

  /** Where a reading applies. */
  predicate Fits(reading: Reading, tokens: Tokens, index: nat, source: string) {
    if reading.CommentHead? then IsCommentHead(tokens, index, source) else IsPair(tokens, index)
  }

  /** The tokens with those at `index` re-split. */
  function Candidate(reading: Reading, tokens: Tokens, index: nat, source: string): Tokens
    requires Fits(reading, tokens, index, source) && tokens[index].start + Width(reading) <= |source|
  {
    tokens[..index] + Resplit(reading, source, tokens[index].start) + tokens[index + Replaces(reading)..]
  }

  /** Well-formed token lists of a text. */
  ghost predicate Lexed(tokens: Tokens, source: string) {
    Tiles(tokens, source, 0, |source|) && AllSpelled(tokens)
  }

  /** The text under a fitting run spells what the reading says. */
  lemma {:induction false} RunText(reading: Reading, tokens: Tokens, index: nat, source: string)
    requires Lexed(tokens, source) && Fits(reading, tokens, index, source)
    ensures tokens[index].start + Width(reading) <= |source|
    ensures OccursAt(source, if reading.CommentHead? then "[[[!--" else "[[[[", tokens[index].start)
    ensures Tiles(tokens[..index], source, 0, tokens[index].start)
    ensures Tiles(tokens[index + Replaces(reading)..], source, tokens[index].start + Width(reading), |source|)
  {
    hide Tiles;
    var start := tokens[index].start;
    TilesAt(tokens, index, source);
    TilesAt(tokens, index + 1, source);
    if reading.CommentHead? {
      TilesAt(tokens, index + 2, source);
    } else {
      assert Spelled(tokens[index]) && Spelled(tokens[index + 1]);
      assert |tokens[index + 1].slice| == 3;
      assert source[start..start + 4] == source[start..start + 1] + source[start + 1..start + 4];
    }
  }

  lemma TilesAt(tokens: Tokens, index: nat, source: string)
    requires Tiles(tokens, source, 0, |source|) && index < |tokens|
    ensures Tiles(tokens[..index], source, 0, tokens[index].start)
    ensures tokens[index].start <= tokens[index].end <= |source|
    ensures tokens[index].slice == source[tokens[index].start..tokens[index].end]
    ensures Tiles(tokens[index..], source, tokens[index].start, |source|)
    ensures Tiles(tokens[index + 1..], source, tokens[index].end, |source|)
  {
    hide Tiles;
    assert tokens == tokens[..index] + tokens[index..];
    var mid := TilesCut(tokens[..index], tokens[index..], source, 0, |source|);
    TilesFirst(tokens[index..], source, mid, |source|);
    assert tokens[index..][0] == tokens[index] && tokens[index..][1..] == tokens[index + 1..];
  }

  lemma TilesFirst(tokens: Tokens, source: string, at: nat, end: nat)
    requires Tiles(tokens, source, at, end) && tokens != []
    ensures tokens[0].start == at <= tokens[0].end <= end <= |source|
    ensures tokens[0].slice == source[at..tokens[0].end]
    ensures Tiles(tokens[1..], source, tokens[0].end, end)
  {
  }

  /** A reading's tokens tile the run and are spelled as their kinds say. */
  lemma ResplitTiles(reading: Reading, source: string, start: nat)
    requires start + Width(reading) <= |source|
    requires OccursAt(source, if reading.CommentHead? then "[[[!--" else "[[[[", start)
    ensures Tiles(Resplit(reading, source, start), source, start, start + Width(reading))
    ensures AllSpelled(Resplit(reading, source, start))
  {
    hide Tiles;
    var r := Resplit(reading, source, start);
    var end := start + Width(reading);
    SliceOfSlice(source, start, end, 0, 2);
    SliceOfSlice(source, start, end, 2, 4);
    match reading {
      case CommentHead =>
        SliceOfSlice(source, start, end, 2, 6);
        TwoTile(r, source, start, end);
      case Segment =>
        TwoTile(r, source, start, end);
      case Brackets =>
        SliceOfSlice(source, start, end, 0, 1);
        SliceOfSlice(source, start, end, 1, 2);
        TwoTile(r[1..], source, start + 1, end);
        FirstTiles(r, source, start, end);
    }
  }

  lemma FirstTiles(r: Tokens, source: string, start: nat, end: nat)
    requires r != [] && start <= r[0].end <= end <= |source|
    requires r[0].start == start && r[0].slice == source[start..r[0].end]
    requires Tiles(r[1..], source, r[0].end, end)
    ensures Tiles(r, source, start, end)
  {
  }

  lemma TwoTile(r: Tokens, source: string, start: nat, end: nat)
    requires |r| == 2 && start <= r[0].end <= r[1].end == end <= |source|
    requires r[0].start == start && r[0].slice == source[start..r[0].end]
    requires r[1].start == r[0].end && r[1].slice == source[r[0].end..end]
    ensures Tiles(r, source, start, end)
  {
    assert r[1..][0] == r[1] && r[1..][1..] == [];
  }

  /** Re-splitting keeps the text: the candidate tiles it and is well spelled. */
  lemma CandidateLexed(reading: Reading, tokens: Tokens, index: nat, source: string)
    requires Lexed(tokens, source) && Fits(reading, tokens, index, source)
    ensures tokens[index].start + Width(reading) <= |source|
    ensures Lexed(Candidate(reading, tokens, index, source), source)
  {
    hide Tiles, Spelled, Resplit, Width;
    RunText(reading, tokens, index, source);
    var start := tokens[index].start;
    ResplitTiles(reading, source, start);
    var head, run, tail := tokens[..index], Resplit(reading, source, start), tokens[index + Replaces(reading)..];
    TilesJoin(head, run, source, 0, start, start + Width(reading));
    TilesJoin(head + run, tail, source, 0, start + Width(reading), |source|);
    SpelledJoin(head, run, tail);
    SpelledCut(tokens, index, index + Replaces(reading));
  }

  lemma SpelledJoin(a: Tokens, b: Tokens, c: Tokens)
    requires AllSpelled(b)
    ensures AllSpelled(a) && AllSpelled(c) ==> AllSpelled(a + b + c)
  {
    hide Spelled;
  }

  lemma SpelledCut(tokens: Tokens, lo: nat, hi: nat)
    requires AllSpelled(tokens) && lo <= hi <= |tokens|
    ensures AllSpelled(tokens[..lo]) && AllSpelled(tokens[hi..])
  {
    hide Spelled;
  }

  /** Where a reading fits can be told by the kinds of the tokens alone, and by
      the texts of two of them for a comment. */
  lemma FitsByKind(reading: Reading, tokens: Tokens, index: nat, source: string)
    requires Lexed(tokens, source)
    ensures Fits(reading, tokens, index, source)
       <==> if reading.CommentHead? then
              && index + 2 < |tokens| && tokens[index].token.LeftLink?
              && tokens[index + 1].token.Other? && tokens[index + 1].slice == "!"
              && tokens[index + 2].token.DoubleDash? && tokens[index + 2].slice == "--"
            else
              index + 1 < |tokens| && tokens[index].token.LeftBracket? && tokens[index + 1].token.LeftLink?
  {
    hide Tiles;
    if index + 1 < |tokens| {
      NextTo(tokens, index, source);
      if index + 2 < |tokens| {
        NextTo(tokens, index + 1, source);
        var start := tokens[index].start;
        if tokens[index + 2].end == start + 6 {
          assert source[start..start + 6] == source[start..start + 3] + source[start + 3..start + 4]
                                           + source[start + 4..start + 6];
        }
      }
    }
  }

  lemma NextTo(tokens: Tokens, index: nat, source: string)
    requires Lexed(tokens, source) && index + 1 < |tokens|
    ensures tokens[index].end == tokens[index + 1].start && Spelled(tokens[index]) && Spelled(tokens[index + 1])
    ensures forall k | index <= k <= index + 1 ::
              tokens[k].start <= tokens[k].end <= |source| && tokens[k].slice == source[tokens[k].start..tokens[k].end]
  {
    hide Tiles, Spelled;
    TilesAt(tokens, index, source);
    TilesAt(tokens, index + 1, source);
    TilesFirst(tokens[index + 1..], source, tokens[index].end, |source|);
    assert tokens[index + 1..][0] == tokens[index + 1];
  }

  /** A token of a kind with its text. */
  predicate Reads(t: ExtractedToken, token: Token, slice: string) {
    t.token == token && t.slice == slice
  }

  /** What a reading writes: `[[` `[!--`, or `[[` `[[`, or `[` `[` `[[`. The tokens
      before the run and behind it stay. */
  lemma CandidateReads(reading: Reading, tokens: Tokens, index: nat, source: string)
    requires Lexed(tokens, source) && Fits(reading, tokens, index, source)
    requires tokens[index].start + Width(reading) <= |source|
    ensures
      var r := Candidate(reading, tokens, index, source);
      && index + 2 <= |r| && r[..index] == tokens[..index]
      && (reading.CommentHead? ==>
            && Reads(r[index], LeftBlock, "[[") && Reads(r[index + 1], LeftComment, "[!--")
            && r[index + 2..] == tokens[index + 3..])
      && (reading.Segment? ==>
            && Reads(r[index], LeftBlock, "[[") && Reads(r[index + 1], LeftBlock, "[[")
            && r[index + 2..] == tokens[index + 2..])
      && (reading.Brackets? ==> index + 3 <= |r|)
      && (reading.Brackets? ==>
            && Reads(r[index], LeftBracket, "[") && Reads(r[index + 1], LeftBracket, "[")
            && Reads(r[index + 2], LeftBlock, "[[") && r[index + 3..] == tokens[index + 2..])
  {
    hide Tiles;
    assert index + Replaces(reading) <= |tokens|;
    hide Fits;
    RunText(reading, tokens, index, source);
    var start := tokens[index].start;
    ResplitTiles(reading, source, start);
    var run := Resplit(reading, source, start);
    var r := Candidate(reading, tokens, index, source);
    assert forall k | 0 <= k < |run| :: r[index + k] == run[k] && Spelled(run[k]);
  }

  // ----- the head gate

  predicate IsNameFollow(c: char) {
    c == ' ' || c == '\t' || c == '\r' || c == '\n' || c == ']'
  }

  function SkipBlanks(source: string, offset: nat): (r: nat)
    ensures offset <= r
    decreases |source| - offset
  {
    if offset < |source| && (source[offset] == ' ' || source[offset] == '\t')
    then SkipBlanks(source, offset + 1)
    else offset
  }

  /** The text after a `[[` spells `iftags` in any case, and ends there. */
  predicate IftagsHeadMayStart(t: ExtractedToken, source: string) {
    var offset := SkipBlanks(source, t.end);
    && offset + 6 <= |source|
    && EqIgnoreAsciiCase(source[offset..offset + 6], "iftags")
    && (offset + 6 == |source| || IsNameFollow(source[offset + 6]))
  }

  predicate CanEndHead(t: ExtractedToken, source: string) {
    match t.token
    case Whitespace => true
    case LineBreak => true
    case ParagraphBreak => true
    case RightBlock => true
    case RightLink => true
    case RightBracket => true
    case LeftBlock => IftagsHeadMayStart(t, source)
    case _ => false
  }

  /** Some token at or after `from` can end a block head. */
  predicate HeadTerminatorFrom(tokens: Tokens, source: string, from: nat) {
    exists k :: from <= k < |tokens| && CanEndHead(tokens[k], source)
  }

  class BracketRunHeadGate {
    var next: Option<nat>
    var scanned: nat

    /** The gate serves queries from `low` on. */
    ghost predicate Valid(tokens: Tokens, source: string, low: nat)
      reads this
    {
      && scanned <= |tokens|
      && (next.Some? ==> next.value < |tokens| && CanEndHead(tokens[next.value], source) && scanned == next.value + 1)
      && (next.None? ==> scanned <= low || !HeadTerminatorFrom(tokens, source, low))
    }

    constructor (tokens: Tokens, source: string)
      ensures Valid(tokens, source, 0)
    {
      next, scanned := None, 0;
    }

    /** Queries must not go back; each is answered as if the tokens were scanned
        afresh, and no token is visited twice. */
    method HasHeadTerminatorAtOrAfter(tokens: Tokens, source: string, from: nat, ghost low: nat) returns (r: bool,
          ghost visited: nat)
      requires Valid(tokens, source, low) && low <= from
      modifies this
      ensures Valid(tokens, source, from)
      ensures r <==> HeadTerminatorFrom(tokens, source, from)
      ensures visited <= scanned - old(scanned)
    {
      if next.Some? && next.value >= from {
        return true, 0;
      }
      if next.None? && scanned > from {
        return false, 0;
      }
      visited := 0;
      var index := if scanned > from then scanned else from;
      while index < |tokens|
        invariant from <= index && scanned + visited <= index && (visited > 0 ==> index <= |tokens|)
        invariant forall k | from <= k < index && k < |tokens| :: !CanEndHead(tokens[k], source)
        invariant Valid(tokens, source, low) && scanned == old(scanned)
      {
        if CanEndHead(tokens[index], source) {
          next := Some(index);
          scanned := index + 1;
          return true, visited + 1;
        }
        index := index + 1;
        visited := visited + 1;
      }
      next := None;
      scanned := |tokens|;
      return false, visited;
    }

    /** After a repair: the new tokens from `index` on are not scanned yet. */
    method Reset(tokens: Tokens, source: string, index: nat)
      requires index <= |tokens|
      modifies this
      ensures Valid(tokens, source, index)
    {
      next := None;
      scanned := index;
    }
  }

  // ----- the repair

  type Probe = (Tokens, nat) -> bool

  /** What the parsing attempts and the name gate answer. The gate may remember:
      its first argument numbers the turn. */
  datatype Probes = Probes(
    blockParses: Probe, headResolves: Probe, segmentPrefix: Probe, nameMayForm: (nat, Tokens, nat) -> bool)

  /** Whether a reading is to be committed: its run fits, a terminator is left,
      the gates let it pass, and the probes prefer it in the order they are
      asked. */
  ghost predicate Accepted(reading: Reading, tokens: Tokens, index: nat, turn: nat, source: string, probes: Probes) {
    && Fits(reading, tokens, index, source)
    && tokens[index].start + Width(reading) <= |source|
    && HeadTerminatorFrom(tokens, source, index + Replaces(reading))
    && match reading
       case CommentHead =>
         var candidate := Candidate(CommentHead, tokens, index, source);
         probes.blockParses(candidate, index) || probes.headResolves(candidate, index)
       case Segment =>
         var segment, brackets := Candidate(Segment, tokens, index, source), Candidate(Brackets, tokens, index, source);
         && probes.nameMayForm(turn, tokens, index + 2)
         && (|| probes.blockParses(segment, index)
             || (!probes.blockParses(brackets, index + 2) && probes.segmentPrefix(segment, index + 1)))
       case Brackets =>
         && probes.nameMayForm(turn, tokens, index + 2)
         && !probes.blockParses(Candidate(Segment, tokens, index, source), index)
         && probes.blockParses(Candidate(Brackets, tokens, index, source), index + 2)
  }

  /** The reading to commit, or none if none is accepted. */
  ghost predicate IsChoice(choice: Option<Reading>, tokens: Tokens, index: nat, turn: nat, source: string,
                           probes: Probes) {
    match choice
    case Some(reading) => Accepted(reading, tokens, index, turn, source, probes)
    case None => forall reading :: !Accepted(reading, tokens, index, turn, source, probes)
  }

  /** No two readings are accepted at once: the choice is determined. */
  lemma ChoiceIsUnique(a: Option<Reading>, b: Option<Reading>, tokens: Tokens, index: nat, turn: nat, source: string,
                       probes: Probes)
    requires IsChoice(a, tokens, index, turn, source, probes) && IsChoice(b, tokens, index, turn, source, probes)
    ensures a == b
  {
    hide Candidate, HeadTerminatorFrom;
    assert a.Some? ==> Accepted(a.value, tokens, index, turn, source, probes);
    assert b.Some? ==> Accepted(b.value, tokens, index, turn, source, probes);
  }

  /** One turn of the repair, at `index` of `tokens`. */
  datatype Turn = Turn(tokens: Tokens, index: nat, choice: Option<Reading>)

  function Advance(choice: Option<Reading>): nat {
    match choice
    case None => 1
    case Some(reading) => if reading.Brackets? then 3 else 2
  }

  ghost function After(turn: Turn, source: string): Tokens {
    if turn.choice.Some? && Fits(turn.choice.value, turn.tokens, turn.index, source)
       && turn.tokens[turn.index].start + Width(turn.choice.value) <= |source|
    then Candidate(turn.choice.value, turn.tokens, turn.index, source)
    else turn.tokens
  }

  /** Turns one after another from the first token: each commits the accepted
      reading, if there is one, and goes on behind what it wrote. */
  ghost predicate IsRun(original: Tokens, turns: seq<Turn>, tokens: Tokens, index: nat, source: string,
                        probes: Probes) {
    if turns == [] then tokens == original && index == 0
    else
      var n := |turns| - 1;
      var last := turns[n];
      && IsRun(original, turns[..n], last.tokens, last.index, source, probes)
      && last.index + 1 < |last.tokens|
      && IsChoice(last.choice, last.tokens, last.index, n, source, probes)
      && tokens == After(last, source) && index == last.index + Advance(last.choice)
  }

  predicate AnyCommit(turns: seq<Turn>) {
    exists k :: 0 <= k < |turns| && turns[k].choice.Some?
  }

  /** The reading to commit at `index`, if any. */
  method TryRepair(tokens: Tokens, source: string, probes: Probes, gate: BracketRunHeadGate, index: nat, turn: nat,
                   ghost low: nat)
    returns (choice: Option<Reading>, ghost low': nat)
    requires Lexed(tokens, source) && index + 1 < |tokens|
    requires gate.Valid(tokens, source, low) && low <= index + 2
    modifies gate
    ensures gate.Valid(tokens, source, low') && low' <= index + 3
    ensures IsChoice(choice, tokens, index, turn, source, probes)
  {
    hide Lexed, Resplit, CanEndHead, HeadTerminatorFrom;
    low' := low;
    if IsCommentHead(tokens, index, source) {
      var open, _ := gate.HasHeadTerminatorAtOrAfter(tokens, source, index + 3, low');
      low' := index + 3;
      CandidateLexed(CommentHead, tokens, index, source);
      if open {
        var candidate := Candidate(CommentHead, tokens, index, source);
        if probes.blockParses(candidate, index) || probes.headResolves(candidate, index) {
          return Some(CommentHead), low';
        }
      }
    }
    if !IsPair(tokens, index) {
      return None, low';
    }
    var open, _ := gate.HasHeadTerminatorAtOrAfter(tokens, source, index + 2, low');
    low' := index + 2;
    if !open || !probes.nameMayForm(turn, tokens, index + 2) {
      return None, low';
    }
    CandidateLexed(Segment, tokens, index, source);
    CandidateLexed(Brackets, tokens, index, source);
    var segment := Candidate(Segment, tokens, index, source);
    if probes.blockParses(segment, index) {
      return Some(Segment), low';
    }
    var brackets := Candidate(Brackets, tokens, index, source);
    if probes.blockParses(brackets, index + 2) {
      return Some(Brackets), low';
    }
    if probes.segmentPrefix(segment, index + 1) {
      return Some(Segment), low';
    }
    return None, low';
  }

  /** Repairs a token list in place. Whatever the probes say, it ends, and the
      tokens still tile the same text. */
  method RepairBracketRunTokenization(original: Tokens, source: string, hasGenerated: bool, probes: Probes)
    returns (r: Option<Tokens>, ghost turns: seq<Turn>, ghost result: Tokens, ghost stop: nat)
    requires Lexed(original, source)
    ensures r.Some? ==> Lexed(r.value, source)
    ensures hasGenerated ==> r.None?
    ensures !hasGenerated ==> IsRun(original, turns, result, stop, source, probes) && |result| <= stop + 1
    ensures !hasGenerated ==> r == if AnyCommit(turns) then Some(result) else None
  {
    hide Lexed, IsChoice, Candidate;
    turns, result, stop := [], original, 0;
    if hasGenerated {
      return None, turns, result, stop;
    }
    var tokens := original;
    var repaired := false;
    var index: nat, turn: nat := 0, 0;
    var gate := new BracketRunHeadGate(tokens, source);
    ghost var low: nat := 0;
    while index + 1 < |tokens|
      invariant Lexed(tokens, source) && IsRun(original, turns, tokens, index, source, probes)
      invariant turn == |turns| && (repaired <==> AnyCommit(turns))
      invariant gate.Valid(tokens, source, low) && low <= index + 2
      decreases |tokens| - index
    {
      var choice, low' := TryRepair(tokens, source, probes, gate, index, turn, low);
      ghost var taken := Turn(tokens, index, choice);
      TurnTaken(original, turns, taken, source, probes);
      turns := turns + [taken];
      turn := turn + 1;
      if choice.Some? {
        tokens := Candidate(choice.value, tokens, index, source);
        repaired := true;
      }
      index := index + Advance(choice);
      if choice.Some? {
        gate.Reset(tokens, source, index);
        low := index;
      } else {
        low := low';
      }
    }
    result, stop := tokens, index;
    r := if repaired then Some(tokens) else None;
  }

  lemma TurnTaken(original: Tokens, turns: seq<Turn>, turn: Turn, source: string, probes: Probes)
    requires IsRun(original, turns, turn.tokens, turn.index, source, probes) && Lexed(turn.tokens, source)
    requires turn.index + 1 < |turn.tokens| && IsChoice(turn.choice, turn.tokens, turn.index, |turns|, source, probes)
    ensures
      turn.choice.Some? ==>
        && Fits(turn.choice.value, turn.tokens, turn.index, source)
        && turn.tokens[turn.index].start + Width(turn.choice.value) <= |source|
        && After(turn, source) == Candidate(turn.choice.value, turn.tokens, turn.index, source)
    ensures
      var next := After(turn, source);
      && Lexed(next, source)
      && IsRun(original, turns + [turn], next, turn.index + Advance(turn.choice), source, probes)
      && turn.index + Advance(turn.choice) <= |next|
      && |next| - (turn.index + Advance(turn.choice)) < |turn.tokens| - turn.index
    ensures AnyCommit(turns + [turn]) <==> AnyCommit(turns) || turn.choice.Some?
  {
    hide Lexed, HeadTerminatorFrom, Candidate, IsRun, AnyCommit;
    if turn.choice.Some? {
      CandidateLexed(turn.choice.value, turn.tokens, turn.index, source);
      CandidateSize(turn.choice.value, turn.tokens, turn.index, source);
    }
    RunGoesOn(original, turns, turn, source, probes);
    CommitGoesOn(turns, turn);
  }

  lemma CandidateSize(reading: Reading, tokens: Tokens, index: nat, source: string)
    requires Fits(reading, tokens, index, source) && tokens[index].start + Width(reading) <= |source|
    ensures |Candidate(reading, tokens, index, source)|
         == |tokens| - Replaces(reading) + if reading.Brackets? then 3 else 2
  {
  }

  lemma RunGoesOn(original: Tokens, turns: seq<Turn>, turn: Turn, source: string, probes: Probes)
    requires IsRun(original, turns, turn.tokens, turn.index, source, probes)
    requires turn.index + 1 < |turn.tokens| && IsChoice(turn.choice, turn.tokens, turn.index, |turns|, source, probes)
    ensures IsRun(original, turns + [turn], After(turn, source), turn.index + Advance(turn.choice), source, probes)
  {
    hide IsChoice, After, Advance;
    assert (turns + [turn])[..|turns|] == turns;
  }

  lemma CommitGoesOn(turns: seq<Turn>, turn: Turn)
    ensures AnyCommit(turns + [turn]) <==> AnyCommit(turns) || turn.choice.Some?
  {
    assert (turns + [turn])[|turns|] == turn;
    assert forall k | 0 <= k < |turns| :: (turns + [turn])[k] == turns[k];
  }

  /** From one turn to the next: without a commit one token on, after one behind
      all that it wrote; what is passed over stays as it is. */
  lemma TurnsGoOn(turn: Turn, source: string)
    requires Lexed(turn.tokens, source) && turn.index < |turn.tokens|
    requires turn.choice.Some? ==> Fits(turn.choice.value, turn.tokens, turn.index, source)
    ensures
      var next, index := After(turn, source), turn.index + Advance(turn.choice);
      var read := if turn.choice.None? then 1 else if turn.choice.value.CommentHead? then 3 else 2;
      && turn.index + read <= |turn.tokens| && index <= |next|
      && next[..turn.index] == turn.tokens[..turn.index] && next[index..] == turn.tokens[turn.index + read..]
      && (turn.choice.None? ==> next == turn.tokens)
  {
    hide Lexed, Candidate;
    if turn.choice.Some? {
      CandidateLexed(turn.choice.value, turn.tokens, turn.index, source);
      CandidateReads(turn.choice.value, turn.tokens, turn.index, source);
      CandidateSize(turn.choice.value, turn.tokens, turn.index, source);
    }
  }

  /** The repaired tokens read as the text the original ones read as. */
  lemma RepairKeepsText(original: Tokens, repaired: Tokens, source: string)
    requires Lexed(original, source) && Lexed(repaired, source)
    ensures TextOf(repaired) == TextOf(original) == source
  {
    TilesRead(original, source, 0, |source|);
    TilesRead(repaired, source, 0, |source|);
  }
}
