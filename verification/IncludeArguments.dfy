/** Resolving the arguments of an include: references between arguments are
    expanded in rounds until nothing changes, within a size allowance. */
module IncludeArguments {
  import opened Bytes
  import opened Seqs
  import opened Variables

  const EXPANSION_ALLOWANCE := 64 * 1024

  type Args = map<string, string>

  datatype RawIncludeArgument = RawIncludeArgument(key: string, value: string, authoredEmptyValue: bool)

  predicate IsStaticIdentifier(value: string) {
    value != "" && forall k | 0 <= k < |value| :: IsNameByte(value[k])
  }

  predicate Contains(s: string, pat: string) {
    Find(s, pat, 0).Some?
  }

  /** Without the blanks and line ends that trail it. */
  function TrimValue(value: string): (r: string)
    ensures r <= value
    ensures r == "" || r[|r| - 1] !in " \t\r\n"
    ensures forall k | |r| <= k < |value| :: value[k] in " \t\r\n"
  {
    if value != "" && value[|value| - 1] in " \t\r\n" then TrimValue(value[..|value| - 1]) else value
  }

  // ----- expanding one expression

  /** What a reference to `name` is replaced with. */
  function Replacement(arguments: Args, blocked: Option<string>, name: string): string {
    if blocked == Some(name) then Reference(name)
    else if name in arguments then TrimValue(arguments[name])
    else Reference(name)
  }

  function FillArguments(arguments: Args, blocked: Option<string>): string -> string {
    (name: string) => Replacement(arguments, blocked, name)
  }

  /** One expansion: every reference replaced at once, unless the result would
      be too long. */
  ghost function ExpandedOnce(expression: string, arguments: Args, blocked: Option<string>,
                              limit: nat): Option<string> {
    var text := Substituted(expression, 0, FillArguments(arguments, blocked));
    if |text| <= limit then Some(text) else None
  }

  method ExpandArgumentExpressionOnce(expression: string, arguments: Args, blocked: Option<string>, limit: nat)
    returns (r: Option<string>)
    ensures r == ExpandedOnce(expression, arguments, blocked, limit)
  {
    hide NextMatch, TrimValue, Substituted, IsReference, MatchEnd, FillArguments, Replacement, Reference;
    ghost var fill := FillArguments(arguments, blocked);
    ghost var whole := Substituted(expression, 0, fill);
    var expanded := "";
    var copiedUntil := 0;
    var next := NextMatch(expression, 0);
    while next.Some?
      invariant copiedUntil <= |expression| && next == NextMatch(expression, copiedUntil)
      invariant expanded + Substituted(expression, copiedUntil, fill) == whole
      decreases |expression| - copiedUntil
    {
      var (p, e) := next.value;
      OnceStep(expression, copiedUntil, fill, expanded, whole);
      var matched, name := expression[p..e], expression[p + 2..e - 1];
      var replacement :=
        if blocked == Some(name) then matched
        else if name in arguments then TrimValue(arguments[name])
        else matched;
      ReplacementFills(arguments, blocked, name, matched);
      var literal := expression[copiedUntil..p];
      if |expanded| + |literal| + |replacement| > limit {
        return None;
      }
      expanded := expanded + literal + replacement;
      copiedUntil := e;
      next := NextMatch(expression, copiedUntil);
    }
    OnceEnds(expression, copiedUntil, fill);
    var remainder := expression[copiedUntil..];
    if |expanded| + |remainder| > limit {
      return None;
    }
    r := Some(expanded + remainder);
  }

  lemma ReplacementFills(arguments: Args, blocked: Option<string>, name: string, matched: string)
    requires matched == Reference(name)
    ensures FillArguments(arguments, blocked)(name)
         == (if blocked == Some(name) then matched
             else if name in arguments then TrimValue(arguments[name])
             else matched)
  {
  }

  lemma OnceStep(s: string, from: nat, fill: string -> string, expanded: string, whole: string)
    requires from <= |s| && NextMatch(s, from).Some? && expanded + Substituted(s, from, fill) == whole
    ensures
      var (p, e) := NextMatch(s, from).value;
      && from <= p && p + 3 < e <= |s| && s[p..e] == Reference(s[p + 2..e - 1])
      && expanded + s[from..p] + fill(s[p + 2..e - 1]) + Substituted(s, e, fill) == whole
      && |expanded| + |s[from..p]| + |fill(s[p + 2..e - 1])| <= |whole|
  {
    hide NextMatch, IsReference;
    var (p, e) := NextMatch(s, from).value;
    ReferenceText(s, p, e);
    RegroupFour(expanded, s[from..p], fill(s[p + 2..e - 1]), Substituted(s, e, fill));
  }

  lemma OnceEnds(s: string, from: nat, fill: string -> string)
    requires from <= |s| && NextMatch(s, from).None?
    ensures Substituted(s, from, fill) == s[from..]
  {
  }

  /** Where the limit allows it, a reference to a bound name that is not banned
      becomes its value without the blanks behind it; any other stays. */
  lemma ReferenceExpands(x: string, name: string, y: string, arguments: Args, blocked: Option<string>, limit: nat)
    requires IsName(name) && forall p: nat, e: nat :: !IsReference(x, p, e) && !IsReference(y, p, e)
    ensures
      var value := if name in arguments && blocked != Some(name) then TrimValue(arguments[name]) else Reference(name);
      ExpandedOnce(x + Reference(name) + y, arguments, blocked, limit)
      == if |x + value + y| <= limit then Some(x + value + y) else None
  {
    hide IsReference, IsName, TrimValue, Reference, Substituted;
    var fill := FillArguments(arguments, blocked);
    FillsReference(x, name, y, fill);
    FillsNothing(x, 0, fill);
    FillsNothing(y, 0, fill);
    assert x[0..] == x && y[0..] == y;
  }

  /** The expression after at most `rounds` expansions. */
  ghost function Expanded(expression: string, arguments: Args, rounds: nat, blocked: Option<string>, limit: nat): string
    decreases rounds
  {
    if rounds == 0 then expression
    else
      match ExpandedOnce(expression, arguments, blocked, limit)
      case None => expression
      case Some(text) =>
        if text == expression then expression else Expanded(text, arguments, rounds - 1, blocked, limit)
  }

  method ExpandArgumentExpression(expression: string, arguments: Args, roundLimit: nat, blocked: Option<string>,
                                  limit: nat)
    returns (output: string)
    ensures output == Expanded(expression, arguments, roundLimit, blocked, limit)
  {
    hide ExpandedOnce;
    output := expression;
    for round := 0 to roundLimit
      invariant Expanded(output, arguments, roundLimit - round, blocked, limit)
             == Expanded(expression, arguments, roundLimit, blocked, limit)
    {
      var expanded := ExpandArgumentExpressionOnce(output, arguments, blocked, limit);
      if expanded.None? || expanded.value == output {
        return;
      }
      output := expanded.value;
    }
  }

  /** No expansion outgrows the limit; the expression itself may. */
  lemma {:induction false} ExpandedSize(expression: string, arguments: Args, rounds: nat, blocked: Option<string>,
                                        limit: nat)
    ensures |Expanded(expression, arguments, rounds, blocked, limit)|
         <= if |expression| <= limit then limit else |expression|
    decreases rounds
  {
    hide Substituted, FillArguments;
    if rounds > 0 {
      var once := ExpandedOnce(expression, arguments, blocked, limit);
      if once.Some? {
        ExpandedSize(once.value, arguments, rounds - 1, blocked, limit);
      }
    }
  }

  /** Where expansion stops: at its own expansion, at the limit, or out of
      rounds. */
  lemma {:induction false} ExpandedStops(expression: string, arguments: Args, rounds: nat, blocked: Option<string>,
                                         limit: nat)
    ensures
      var result := Expanded(expression, arguments, rounds, blocked, limit);
      || ExpandedOnce(result, arguments, blocked, limit) == Some(result)
      || ExpandedOnce(result, arguments, blocked, limit) == None
      || RoundsTaken(expression, arguments, rounds, blocked, limit) == Some(result)
    decreases rounds
  {
    hide ExpandedOnce;
    if rounds > 0 {
      var once := ExpandedOnce(expression, arguments, blocked, limit);
      if once.Some? && once.value != expression {
        ExpandedStops(once.value, arguments, rounds - 1, blocked, limit);
      }
    }
  }

  /** Exactly `rounds` expansions, each of which changed something. */
  ghost function RoundsTaken(expression: string, arguments: Args, rounds: nat, blocked: Option<string>,
                             limit: nat): Option<string>
    decreases rounds
  {
    if rounds == 0 then Some(expression)
    else
      match ExpandedOnce(expression, arguments, blocked, limit)
      case None => None
      case Some(text) => if text == expression then None else RoundsTaken(text, arguments, rounds - 1, blocked, limit)
  }

  // ----- sizes

  function EntrySize(key: string, value: string): nat {
    |key| + |value|
  }

  /** Keys and values of a map together. */
  ghost function MapSize(m: Args): nat
    decreases |m|
  {
    if m == map[] then 0
    else
      var key :| key in m;
      EntrySize(key, m[key]) + MapSize(m - {key})
  }

  lemma {:induction false} MapSizeWithout(m: Args, key: string)
    requires key in m
    ensures MapSize(m) == EntrySize(key, m[key]) + MapSize(m - {key})
    decreases |m|
  {
    hide EntrySize;
    var chosen :| chosen in m && MapSize(m) == EntrySize(chosen, m[chosen]) + MapSize(m - {chosen});
    if chosen != key {
      MapSizeWithout(m - {chosen}, key);
      MapSizeWithout(m - {key}, chosen);
      assert m - {chosen} - {key} == m - {key} - {chosen};
    }
  }

  lemma MapSizeInsert(m: Args, key: string, value: string)
    requires key !in m
    ensures MapSize(m[key := value]) == MapSize(m) + EntrySize(key, value)
  {
    MapSizeWithout(m[key := value], key);
    assert m[key := value] - {key} == m;
  }

  function RawSize(raw: seq<RawIncludeArgument>): nat {
    if raw == [] then 0
    else RawSize(raw[..|raw| - 1]) + EntrySize(raw[|raw| - 1].key, raw[|raw| - 1].value)
  }

  // ----- what a round gathers

  type Entry = Option<(string, string)>

  /** Contributions into a map, the first for each key kept. */
  function Gather(entries: seq<Entry>): Args {
    if entries == [] then map[]
    else
      var before, last := Gather(entries[..|entries| - 1]), entries[|entries| - 1];
      if last.Some? && last.value.0 !in before then before[last.value.0 := last.value.1] else before
  }

  lemma GatherNext(entries: seq<Entry>, i: nat)
    requires i < |entries|
    ensures
      var before, last := Gather(entries[..i]), entries[i];
      Gather(entries[..i + 1])
      == if last.Some? && last.value.0 !in before then before[last.value.0 := last.value.1] else before
  {
    assert entries[..i + 1][..i] == entries[..i];
  }

  /** A key is there when some argument contributes it, with the value of the
      first that does. */
  lemma {:induction false} GatherFirstWins(entries: seq<Entry>)
    ensures forall key | key in Gather(entries) ::
              exists i :: 0 <= i < |entries| && entries[i] == Some((key, Gather(entries)[key]))
                       && forall j | 0 <= j < i :: entries[j].None? || entries[j].value.0 != key
    ensures forall i | 0 <= i < |entries| && entries[i].Some? :: entries[i].value.0 in Gather(entries)
  {
    if entries != [] {
      var n := |entries| - 1;
      var init := entries[..n];
      GatherFirstWins(init);
      forall key | key in Gather(entries)
        ensures exists i :: 0 <= i < |entries| && entries[i] == Some((key, Gather(entries)[key]))
                         && forall j | 0 <= j < i :: entries[j].None? || entries[j].value.0 != key
      {
        if key in Gather(init) {
          var i :| 0 <= i < |init| && init[i] == Some((key, Gather(init)[key]))
                && forall j | 0 <= j < i :: init[j].None? || init[j].value.0 != key;
          assert entries[i] == init[i] && forall j | 0 <= j < i :: entries[j] == init[j];
        } else {
          assert entries[n] == Some((key, Gather(entries)[key]));
          assert forall j | 0 <= j < n :: init[j] == entries[j];
        }
      }
      assert forall i | 0 <= i < n :: entries[i] == init[i];
    }
  }

  lemma {:induction false} GatherGrows(entries: seq<Entry>, n: nat)
    requires n <= |entries|
    ensures MapSize(Gather(entries[..n])) <= MapSize(Gather(entries))
    decreases |entries| - n
  {
    hide MapSize, Gather;
    if n == |entries| {
      assert entries[..n] == entries;
    } else {
      GatherGrows(entries, n + 1);
      GatherNext(entries, n);
      var last, before := entries[n], Gather(entries[..n]);
      if last.Some? && last.value.0 !in before {
        MapSizeInsert(before, last.value.0, last.value.1);
      }
    }
  }

  /** What an argument contributes before any round: its own text, if that needs
      no expansion. */
  function Seed(argument: RawIncludeArgument): Entry {
    if argument.authoredEmptyValue || !IsStaticIdentifier(argument.key) || Contains(argument.value, "{$") then None
    else Some((argument.key, argument.value))
  }

  function Seeds(raw: seq<RawIncludeArgument>): (r: seq<Entry>)
    ensures |r| == |raw|
  {
    seq(|raw|, i requires 0 <= i < |raw| => Seed(raw[i]))
  }

  /** The name an argument may not expand in its own value: its key, when both
      the value and the current binding mention it. */
  function BlockedName(value: string, key: string, arguments: Args): Option<string> {
    if Contains(value, Reference(key)) && key in arguments && Contains(arguments[key], Reference(key))
    then Some(key)
    else None
  }

  /** What an argument contributes to a round. */
  ghost function Contribution(argument: RawIncludeArgument, arguments: Args, roundLimit: nat, limit: nat): Entry {
    if argument.authoredEmptyValue then None
    else
      var key := Expanded(argument.key, arguments, roundLimit, None, limit);
      if !IsStaticIdentifier(key) then None
      else
        var value := Expanded(argument.value, arguments, roundLimit, BlockedName(argument.value, key, arguments),
                              limit);
        if TrimValue(value) == Reference(key) then None else Some((key, value))
  }

  ghost function Contributions(raw: seq<RawIncludeArgument>, arguments: Args, roundLimit: nat,
                               limit: nat): (r: seq<Entry>)
    ensures |r| == |raw|
  {
    seq(|raw|, i requires 0 <= i < |raw| => Contribution(raw[i], arguments, roundLimit, limit))
  }

  /** One round over all arguments. */
  ghost function NextRound(raw: seq<RawIncludeArgument>, arguments: Args, roundLimit: nat, limit: nat): Args {
    Gather(Contributions(raw, arguments, roundLimit, limit))
  }

  ghost predicate StaticKeys(m: Args) {
    forall key | key in m :: IsStaticIdentifier(key)
  }

  // ----- the rounds

  datatype Exit = Settled | Overflow | RoundsSpent

  function RoundLimit(raw: seq<RawIncludeArgument>): (r: nat)
    ensures 1 <= r <= 128
  {
    if 2 * |raw| < 1 then 1 else if 2 * |raw| > 128 then 128 else 2 * |raw|
  }

  function ExpansionLimit(raw: seq<RawIncludeArgument>): nat {
    RawSize(raw) + EXPANSION_ALLOWANCE
  }

  method SeedArguments(raw: seq<RawIncludeArgument>) returns (arguments: Args)
    ensures arguments == Gather(Seeds(raw)) && StaticKeys(arguments) && MapSize(arguments) <= RawSize(raw)
    ensures forall i | 0 <= i < |raw| && NeedsNoExpansion(raw[i]) :: raw[i].key in arguments
    ensures forall key | key in arguments :: IsFirstPlain(raw, key, arguments[key])
  {
    hide IsStaticIdentifier, Contains, EntrySize, MapSize, Gather, RawSize;
    arguments := map[];
    ghost var seeds := Seeds(raw);
    NothingGathered(seeds);
    for i := 0 to |raw|
      invariant arguments == Gather(seeds[..i]) && StaticKeys(arguments) && MapSize(arguments) <= RawSize(raw[..i])
    {
      var argument := raw[i];
      GatherNext(seeds, i);
      RawSizeNext(raw, i);
      if argument.authoredEmptyValue || !IsStaticIdentifier(argument.key) || Contains(argument.value, "{$") {
        continue;
      }
      if argument.key !in arguments {
        MapSizeInsert(arguments, argument.key, argument.value);
        arguments := arguments[argument.key := argument.value];
      }
    }
    assert seeds[..|raw|] == seeds && raw[..|raw|] == raw;
    SeedsAreFirst(raw);
  }

  /** Key and value stand as they are and the value was not left empty. */
  ghost predicate NeedsNoExpansion(argument: RawIncludeArgument) {
    && IsStaticIdentifier(argument.key) && !argument.authoredEmptyValue
    && forall p: nat :: !OccursAt(argument.value, "{$", p)
  }

  /** The first argument under the key that needs no expansion has the value. */
  ghost predicate IsFirstPlain(raw: seq<RawIncludeArgument>, key: string, value: string) {
    exists i :: 0 <= i < |raw| && raw[i] == RawIncludeArgument(key, value, false) && NeedsNoExpansion(raw[i])
             && forall j | 0 <= j < i && raw[j].key == key :: !NeedsNoExpansion(raw[j])
  }

  lemma SeedsAreFirst(raw: seq<RawIncludeArgument>)
    ensures
      var seeds := Gather(Seeds(raw));
      && (forall i | 0 <= i < |raw| && NeedsNoExpansion(raw[i]) :: raw[i].key in seeds)
      && forall key | key in seeds :: IsFirstPlain(raw, key, seeds[key])
  {
    hide Gather, IsStaticIdentifier;
    var all, seeds := Seeds(raw), Gather(Seeds(raw));
    GatherFirstWins(all);
    forall i | 0 <= i < |raw|
      ensures all[i] == if NeedsNoExpansion(raw[i]) then Some((raw[i].key, raw[i].value)) else None
    {
      assert Contains(raw[i].value, "{$") <==> exists p: nat :: OccursAt(raw[i].value, "{$", p);
    }
    forall key | key in seeds ensures IsFirstPlain(raw, key, seeds[key]) {
      var i :| 0 <= i < |raw| && all[i] == Some((key, seeds[key]))
            && forall j | 0 <= j < i :: all[j].None? || all[j].value.0 != key;
      assert NeedsNoExpansion(raw[i]) && raw[i] == RawIncludeArgument(key, seeds[key], false);
    }
  }

  lemma RawSizeNext(raw: seq<RawIncludeArgument>, i: nat)
    requires i < |raw|
    ensures RawSize(raw[..i + 1]) == RawSize(raw[..i]) + EntrySize(raw[i].key, raw[i].value)
  {
    assert raw[..i + 1][..i] == raw[..i];
  }

  method Contribute(argument: RawIncludeArgument, arguments: Args, roundLimit: nat, limit: nat) returns (entry: Entry)
    ensures entry == Contribution(argument, arguments, roundLimit, limit)
    ensures entry.Some? ==> IsStaticIdentifier(entry.value.0)
  {
    hide IsStaticIdentifier, Contains, Expanded, TrimValue;
    if argument.authoredEmptyValue {
      return None;
    }
    var key := ExpandArgumentExpression(argument.key, arguments, roundLimit, None, limit);
    if !IsStaticIdentifier(key) {
      return None;
    }
    var blocked := BlockedName(argument.value, key, arguments);
    var value := ExpandArgumentExpression(argument.value, arguments, roundLimit, blocked, limit);
    if TrimValue(value) == Reference(key) {
      return None;
    }
    return Some((key, value));
  }

  lemma NothingGathered(entries: seq<Entry>)
    ensures Gather(entries[..0]) == map[] && MapSize(map[]) == 0
  {
  }

  /** One round; it stops short when what it has gathered is too large. */
  method ExpandRound(raw: seq<RawIncludeArgument>, arguments: Args, roundLimit: nat,
                     limit: nat) returns (next: Option<Args>)
    ensures next.Some? ==> next.value == NextRound(raw, arguments, roundLimit, limit)
    ensures next.Some? ==> StaticKeys(next.value) && MapSize(next.value) <= limit
    ensures next.None? ==> MapSize(NextRound(raw, arguments, roundLimit, limit)) > limit
  {
    hide IsStaticIdentifier, EntrySize, MapSize, Gather, Contribution;
    var gathered: Args := map[];
    var nextSize := 0;
    ghost var all := Contributions(raw, arguments, roundLimit, limit);
    NothingGathered(all);
    for i := 0 to |raw|
      invariant gathered == Gather(all[..i]) && StaticKeys(gathered) && nextSize == MapSize(gathered) <= limit
    {
      var argument := raw[i];
      GatherNext(all, i);
      var entry := Contribute(argument, arguments, roundLimit, limit);
      if entry.None? || entry.value.0 in gathered {
        continue;
      }
      var (key, value) := entry.value;
      MapSizeInsert(gathered, key, value);
      nextSize := nextSize + EntrySize(key, value);
      if nextSize > limit {
        GatherGrows(all, i + 1);
        return None;
      }
      gathered := gathered[key := value];
    }
    assert all[..|raw|] == all;
    next := Some(gathered);
  }

  // ----- references to oneself

  /** Neither a binding nor, if need be, the ban on one name lets any reference
      of the text be filled. */
  ghost predicate NothingSet(text: string, arguments: Args, blocked: Option<string>) {
    forall p: nat, e: nat | IsReference(text, p, e) ::
      text[p + 2..e - 1] !in arguments || blocked == Some(text[p + 2..e - 1])
  }

  /** A text none of whose references is filled is left as it is. */
  lemma NothingExpanded(text: string, arguments: Args, rounds: nat, blocked: Option<string>, limit: nat)
    requires NothingSet(text, arguments, blocked)
    ensures Expanded(text, arguments, rounds, blocked, limit) == text
  {
    hide Substituted, TrimValue, IsReference;
    var fill := FillArguments(arguments, blocked);
    forall p: nat, e: nat | IsReference(text, p, e)
      ensures p + 3 < e <= |text| && fill(text[p + 2..e - 1]) == Reference(text[p + 2..e - 1])
    {
      ReferenceText(text, p, e);
    }
    FillsNothing(text, 0, fill);
    assert text[0..] == text;
  }

  lemma {:induction false} BanIsAbsence(text: string, from: nat, arguments: Args, key: string)
    requires from <= |text|
    ensures Substituted(text, from, FillArguments(arguments, Some(key)))
         == Substituted(text, from, FillArguments(arguments - {key}, None))
    decreases |text| - from
  {
    hide NextMatch, IsReference, TrimValue;
    FillsNext(text, from, FillArguments(arguments, Some(key)));
    FillsNext(text, from, FillArguments(arguments - {key}, None));
    if NextMatch(text, from).Some? {
      var (p, e) := NextMatch(text, from).value;
      ReferenceText(text, p, e);
      BanIsAbsence(text, e, arguments, key);
    }
  }

  /** Expanding with one name banned is expanding without its binding. */
  lemma {:induction false} BannedExpansion(text: string, arguments: Args, rounds: nat, key: string, limit: nat)
    ensures Expanded(text, arguments, rounds, Some(key), limit)
         == Expanded(text, arguments - {key}, rounds, None, limit)
    decreases rounds
  {
    hide Substituted, FillArguments;
    BanIsAbsence(text, 0, arguments, key);
    if rounds > 0 {
      var once := ExpandedOnce(text, arguments, Some(key), limit);
      if once.Some? {
        BannedExpansion(once.value, arguments, rounds - 1, key, limit);
      }
    }
  }

  /** A value and the binding of its key that both mention the key: no own
      reference is filled, as if the key were not bound at all. Any other value
      is expanded with all that is bound. */
  lemma OwnReferenceStays(argument: RawIncludeArgument, arguments: Args, roundLimit: nat, limit: nat)
    requires !argument.authoredEmptyValue
    requires IsStaticIdentifier(Expanded(argument.key, arguments, roundLimit, None, limit))
    ensures
      var key := Expanded(argument.key, arguments, roundLimit, None, limit);
      var own := Reference(key);
      var ownInBoth := Contains(argument.value, own) && key in arguments && Contains(arguments[key], own);
      var value := Expanded(argument.value, if ownInBoth then arguments - {key} else arguments, roundLimit, None,
                            limit);
      Contribution(argument, arguments, roundLimit, limit)
      == if TrimValue(value) == own then None else Some((key, value))
  {
    hide Expanded, TrimValue, Contains, Reference, IsStaticIdentifier;
    var key := Expanded(argument.key, arguments, roundLimit, None, limit);
    BannedExpansion(argument.value, arguments, roundLimit, key, limit);
  }

  /** Keys that are static and apart, and values that mention no key but their
      own. */
  ghost predicate MentionsOwnOnly(raw: seq<RawIncludeArgument>) {
    && (forall i | 0 <= i < |raw| :: IsStaticIdentifier(raw[i].key))
    && (forall i, j | 0 <= i < j < |raw| :: raw[i].key != raw[j].key)
    && forall i, j | 0 <= i < |raw| && 0 <= j < |raw| && i != j :: !Contains(raw[i].value, Reference(raw[j].key))
  }

  /** An argument as it was written, unless it says nothing. */
  function Written(argument: RawIncludeArgument): Entry {
    if argument.authoredEmptyValue || TrimValue(argument.value) == Reference(argument.key) then None
    else Some((argument.key, argument.value))
  }

  function AllWritten(raw: seq<RawIncludeArgument>): (r: seq<Entry>)
    ensures |r| == |raw|
  {
    seq(|raw|, i requires 0 <= i < |raw| => Written(raw[i]))
  }

  /** Bindings that are all arguments as written. */
  ghost predicate BoundAsWritten(raw: seq<RawIncludeArgument>, arguments: Args) {
    forall key | key in arguments ::
      exists i :: 0 <= i < |raw| && raw[i].key == key && raw[i].value == arguments[key]
  }

  lemma MentionIsOccurrence(text: string, p: nat, e: nat)
    requires IsReference(text, p, e)
    ensures Contains(text, Reference(text[p + 2..e - 1]))
  {
    ReferenceText(text, p, e);
    assert OccursAt(text, Reference(text[p + 2..e - 1]), p);
  }

  lemma StaticIsPlain(key: string, arguments: Args)
    requires IsStaticIdentifier(key)
    ensures NothingSet(key, arguments, None)
  {
    forall p: nat, e: nat | IsReference(key, p, e) ensures key[p + 2..e - 1] !in arguments {
      assert !IsNameByte(key[p]);
    }
  }

  /** Over such bindings every argument contributes what is written. */
  lemma ContributesAsWritten(raw: seq<RawIncludeArgument>, i: nat, arguments: Args, roundLimit: nat, limit: nat)
    requires MentionsOwnOnly(raw) && BoundAsWritten(raw, arguments) && i < |raw|
    ensures Contribution(raw[i], arguments, roundLimit, limit) == Written(raw[i])
  {
    hide Expanded, TrimValue, Contains, Reference, IsStaticIdentifier;
    var (key, value) := (raw[i].key, raw[i].value);
    StaticIsPlain(key, arguments);
    NothingExpanded(key, arguments, roundLimit, None, limit);
    var blocked := BlockedName(value, key, arguments);
    forall p: nat, e: nat | IsReference(value, p, e)
      ensures value[p + 2..e - 1] !in arguments || blocked == Some(value[p + 2..e - 1])
    {
      MentionIsOccurrence(value, p, e);
    }
    NothingExpanded(value, arguments, roundLimit, blocked, limit);
  }

  lemma SeedIsWritten(argument: RawIncludeArgument)
    requires Seed(argument).Some?
    ensures Seed(argument) == Some((argument.key, argument.value))
  {
  }

  lemma SeedsAsWritten(raw: seq<RawIncludeArgument>)
    ensures BoundAsWritten(raw, Gather(Seeds(raw)))
  {
    hide Seed;
    GatherFirstWins(Seeds(raw));
    forall key | key in Gather(Seeds(raw))
      ensures exists i :: 0 <= i < |raw| && raw[i].key == key && raw[i].value == Gather(Seeds(raw))[key]
    {
      var i :| 0 <= i < |raw| && Seeds(raw)[i] == Some((key, Gather(Seeds(raw))[key]));
      SeedIsWritten(raw[i]);
    }
  }

  lemma WrittenAsWritten(raw: seq<RawIncludeArgument>)
    ensures BoundAsWritten(raw, Gather(AllWritten(raw)))
  {
    hide TrimValue, Reference;
    GatherFirstWins(AllWritten(raw));
  }

  lemma RoundAsWritten(raw: seq<RawIncludeArgument>, arguments: Args, roundLimit: nat, limit: nat)
    requires MentionsOwnOnly(raw) && BoundAsWritten(raw, arguments)
    ensures NextRound(raw, arguments, roundLimit, limit) == Gather(AllWritten(raw))
  {
    hide Contribution, Written, MentionsOwnOnly, BoundAsWritten;
    var all := Contributions(raw, arguments, roundLimit, limit);
    forall i | 0 <= i < |raw| ensures all[i] == AllWritten(raw)[i] {
      ContributesAsWritten(raw, i, arguments, roundLimit, limit);
    }
    assert all == AllWritten(raw);
  }

  lemma {:induction false} WrittenFits(raw: seq<RawIncludeArgument>, n: nat)
    requires n <= |raw|
    ensures MapSize(Gather(AllWritten(raw)[..n])) <= RawSize(raw[..n])
  {
    hide MapSize, Gather, RawSize, TrimValue, Reference;
    var all := AllWritten(raw);
    if n == 0 {
      NothingGathered(all);
    } else {
      WrittenFits(raw, n - 1);
      GatherNext(all, n - 1);
      RawSizeNext(raw, n - 1);
      var last, before := all[n - 1], Gather(all[..n - 1]);
      if last.Some? && last.value.0 !in before {
        MapSizeInsert(before, last.value.0, last.value.1);
      }
    }
  }

  // ----- runs

  ghost predicate Follows(raw: seq<RawIncludeArgument>, before: Args, after: Args) {
    && after != before && after == NextRound(raw, before, RoundLimit(raw), ExpansionLimit(raw))
    && MapSize(after) <= ExpansionLimit(raw)
  }

  /** A run: the seeds, then one round after another, each of which changed
      something and stayed within the allowance. */
  ghost predicate IsRun(raw: seq<RawIncludeArgument>, history: seq<Args>) {
    && history != [] && history[0] == Gather(Seeds(raw)) && |history| <= RoundLimit(raw) + 1
    && forall i | 0 < i < |history| :: Follows(raw, history[i - 1], history[i])
  }

  /** How a run ends: at a round that changes nothing, before a round that
      gathers too much, or with the rounds spent. */
  ghost predicate Ends(raw: seq<RawIncludeArgument>, history: seq<Args>, exit: Exit)
    requires history != []
  {
    var last := history[|history| - 1];
    var next := NextRound(raw, last, RoundLimit(raw), ExpansionLimit(raw));
    if |history| == RoundLimit(raw) + 1 then exit.RoundsSpent?
    else if MapSize(next) > ExpansionLimit(raw) then exit.Overflow?
    else exit.Settled? && next == last
  }

  lemma {:induction false} RunsAgree(raw: seq<RawIncludeArgument>, one: seq<Args>, other: seq<Args>, n: nat)
    requires IsRun(raw, one) && IsRun(raw, other) && n < |one| && n < |other|
    ensures one[n] == other[n]
  {
    hide NextRound, Gather;
    if n > 0 {
      RunsAgree(raw, one, other, n - 1);
    }
  }

  /** No run is the beginning of another that has ended. */
  lemma RunIsUnique(raw: seq<RawIncludeArgument>, one: seq<Args>, exit: Exit, other: seq<Args>, otherExit: Exit)
    requires IsRun(raw, one) && Ends(raw, one, exit) && IsRun(raw, other) && Ends(raw, other, otherExit)
    ensures one == other && exit == otherExit
  {
    hide NextRound, Gather, MapSize, RawSize;
    var n := if |one| < |other| then |one| else |other|;
    forall k | 0 <= k < n ensures one[k] == other[k] {
      RunsAgree(raw, one, other, k);
    }
    assert n < |one| ==> Follows(raw, one[n - 1], one[n]);
    assert n < |other| ==> Follows(raw, other[n - 1], other[n]);
  }

  /** Arguments that mention no key but their own settle as they are written,
      after one round at most. */
  lemma OwnReferencesSettle(raw: seq<RawIncludeArgument>, history: seq<Args>, exit: Exit)
    requires MentionsOwnOnly(raw) && IsRun(raw, history) && Ends(raw, history, exit)
    ensures exit.Settled? && history[|history| - 1] == Gather(AllWritten(raw))
  {
    hide NextRound, MentionsOwnOnly, BoundAsWritten, RawSize, MapSize;
    var (rounds, limit) := (RoundLimit(raw), ExpansionLimit(raw));
    var written := Gather(AllWritten(raw));
    SeedsAsWritten(raw);
    WrittenAsWritten(raw);
    RoundAsWritten(raw, history[0], rounds, limit);
    RoundAsWritten(raw, written, rounds, limit);
    if |history| > 1 {
      assert Follows(raw, history[0], history[1]);
      assert |history| == 2 || Follows(raw, history[1], history[2]);
    }
    WrittenFits(raw, |raw|);
    assert AllWritten(raw)[..|raw|] == AllWritten(raw) && raw[..|raw|] == raw;
  }

  /** Resolves the arguments of an include. Whatever they are, cyclic references
      included, it ends, with static keys, within the allowance, and says how. */
  method ResolveIncludeArguments(raw: seq<RawIncludeArgument>) returns (arguments: Args, ghost history: seq<Args>,
        ghost exit: Exit)
    ensures StaticKeys(arguments)
    ensures MapSize(arguments) <= RawSize(raw) + EXPANSION_ALLOWANCE
    ensures IsRun(raw, history) && Ends(raw, history, exit) && arguments == history[|history| - 1]
    ensures MentionsOwnOnly(raw) ==> exit.Settled? && arguments == Gather(AllWritten(raw))
  {
    hide NextRound, StaticKeys, RawSize, MentionsOwnOnly, Gather;
    var roundLimit, limit := RoundLimit(raw), ExpansionLimit(raw);
    arguments := SeedArguments(raw);
    history := [arguments];
    exit := RoundsSpent;
    for round := 0 to roundLimit
      invariant StaticKeys(arguments) && MapSize(arguments) <= limit
      invariant |history| == round + 1 && IsRun(raw, history) && arguments == history[round]
      invariant exit.RoundsSpent?
    {
      var next := ExpandRound(raw, arguments, roundLimit, limit);
      if next.None? {
        exit := Overflow;
        break;
      }
      if next.value == arguments {
        exit := Settled;
        break;
      }
      arguments := next.value;
      history := history + [arguments];
    }
    if MentionsOwnOnly(raw) {
      OwnReferencesSettle(raw, history, exit);
    }
  }

  /** A settled result is its own expansion: every argument contributes what the
      result already holds under its key, or an earlier argument does. */
  lemma SettledIsFixed(raw: seq<RawIncludeArgument>, arguments: Args)
    requires NextRound(raw, arguments, RoundLimit(raw), ExpansionLimit(raw)) == arguments
    ensures
      var all := Contributions(raw, arguments, RoundLimit(raw), ExpansionLimit(raw));
      && (forall i | 0 <= i < |raw| && all[i].Some? :: all[i].value.0 in arguments)
      && (forall key | key in arguments ::
            exists i :: 0 <= i < |raw| && all[i] == Some((key, arguments[key]))
                     && forall j | 0 <= j < i :: all[j].None? || all[j].value.0 != key)
  {
    GatherFirstWins(Contributions(raw, arguments, RoundLimit(raw), ExpansionLimit(raw)));
  }
}
