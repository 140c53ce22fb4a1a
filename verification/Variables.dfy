/** References to variables, `{$name}`. */
module Variables {
  import opened Bytes
  import opened Seqs
  import opened Patches

  // ----- references

  predicate IsNameByte(c: char) {
    'a' <= c <= 'z' || 'A' <= c <= 'Z' || '0' <= c <= '9' || c == '_' || c == '-'
  }

  function NameRun(s: string, p: nat): (r: nat)
    requires p <= |s|
    ensures p <= r <= |s|
    ensures forall k | p <= k < r :: IsNameByte(s[k])
    ensures r < |s| ==> !IsNameByte(s[r])
    decreases |s| - p
  {
    if p < |s| && IsNameByte(s[p]) then NameRun(s, p + 1) else p
  }

  /** A reference reads `{$`, a name of at least one byte, `}`. */
  predicate IsReference(s: string, p: nat, e: nat) {
    && p + 3 < e <= |s|
    && s[p] == '{' && s[p + 1] == '$' && s[e - 1] == '}'
    && forall k | p + 2 <= k < e - 1 :: IsNameByte(s[k])
  }

  /** Where the reference at `p` ends. */
  function MatchEnd(s: string, p: nat): (r: Option<nat>)
    ensures r.Some? ==> IsReference(s, p, r.value)
    ensures forall e: nat | IsReference(s, p, e) :: r == Some(e)
  {
    if p + 2 <= |s| && s[p] == '{' && s[p + 1] == '$' then
      var run := NameRun(s, p + 2);
      if run > p + 2 && run < |s| && s[run] == '}' then Some(run + 1) else None
    else None
  }

  /** The next reference: leftmost first. */
  function NextMatch(s: string, from: nat): (r: Option<(nat, nat)>)
    ensures r.Some? ==> from <= r.value.0 && IsReference(s, r.value.0, r.value.1)
    ensures forall p: nat, e: nat | from <= p && IsReference(s, p, e) :: r.Some? && (r.value == (p, e) || r.value.0 < p)
    decreases |s| - from
  {
    if from >= |s| then None
    else if MatchEnd(s, from).Some? then Some((from, MatchEnd(s, from).value))
    else NextMatch(s, from + 1)
  }

  function Reference(name: string): string {
    "{$" + name + "}"
  }

  lemma ReferenceText(s: string, p: nat, e: nat)
    requires IsReference(s, p, e)
    ensures p + 3 < e <= |s| && s[p..e] == Reference(s[p + 2..e - 1])
  {
  }

  /** The text from `from` on with every reference, left to right, replaced. */
  ghost function Substituted(s: string, from: nat, fill: string -> string): string
    requires from <= |s|
    decreases |s| - from
  {
    var next := NextMatch(s, from);
    if next.None? then s[from..]
    else
      var (p, e) := next.value;
      s[from..p] + fill(s[p + 2..e - 1]) + Substituted(s, e, fill)
  }

  /** Every reference of the text is filled with itself. */
  ghost predicate KeepsReferences(s: string, fill: string -> string) {
    forall p: nat, e: nat | IsReference(s, p, e) :: fill(s[p + 2..e - 1]) == Reference(s[p + 2..e - 1])
  }

  lemma KeptReference(s: string, p: nat, e: nat, fill: string -> string)
    requires KeepsReferences(s, fill) && IsReference(s, p, e)
    ensures p + 3 < e <= |s| && fill(s[p + 2..e - 1]) == s[p..e]
  {
    ReferenceText(s, p, e);
  }

  /** A text none of whose references is filled stays. */
  lemma {:induction false} FillsNothing(s: string, from: nat, fill: string -> string)
    requires from <= |s| && KeepsReferences(s, fill)
    ensures Substituted(s, from, fill) == s[from..]
    decreases |s| - from
  {
    hide NextMatch, IsReference, Substituted, KeepsReferences;
    FillsNext(s, from, fill);
    if NextMatch(s, from).Some? {
      var (p, e) := NextMatch(s, from).value;
      KeptReference(s, p, e, fill);
      FillsNothing(s, e, fill);
      assert s[from..p] + s[p..e] + s[e..] == s[from..];
    }
  }

  predicate IsName(name: string) {
    name != "" && forall k | 0 <= k < |name| :: IsNameByte(name[k])
  }

  lemma ReferenceHere(x: string, name: string, y: string)
    requires IsName(name)
    ensures IsReference(x + Reference(name) + y, |x|, |x| + |name| + 3)
    ensures forall p: nat, e: nat | p < |x| && IsReference(x + Reference(name) + y, p, e) :: IsReference(x, p, e)
    ensures forall p: nat, e: nat | IsReference(x, p, e) :: IsReference(x + Reference(name) + y, p, e)
    ensures (x + Reference(name) + y)[|x| + 2..|x| + |name| + 2] == name
    ensures (x + Reference(name) + y)[|x| + |name| + 3..] == y
  {
    var s := x + Reference(name) + y;
    assert s[|x|] == '{' && s[|x| + |name| + 2] == '}';
    assert forall k | 0 <= k < |name| :: s[|x| + 2 + k] == name[k];
    forall p: nat, e: nat | p < |x| && IsReference(s, p, e) ensures IsReference(x, p, e) {
      assert !IsNameByte(s[|x|]);
      assert e - 1 < |x|;
      assert forall k | 0 <= k < e :: s[k] == x[k];
    }
  }

  lemma NextInTail(s: string, cut: nat, from: nat)
    requires cut + from <= |s|
    ensures
      var near := NextMatch(s[cut..], from);
      && NextMatch(s, cut + from) == (if near.None? then None else Some((cut + near.value.0, cut + near.value.1)))
      && (near.Some? ==> from <= near.value.0 && IsReference(s[cut..], near.value.0, near.value.1))
  {
    hide NextMatch, IsReference;
    var far, near := NextMatch(s, cut + from), NextMatch(s[cut..], from);
    if far.Some? {
      ReferenceText(s, far.value.0, far.value.1);
      ReferenceInTail(s, cut, far.value.0 - cut, far.value.1 - cut);
    }
    if near.Some? {
      ReferenceInTail(s, cut, near.value.0, near.value.1);
    }
  }

  lemma {:induction false} SubstitutedTail(s: string, cut: nat, from: nat, fill: string -> string)
    requires cut + from <= |s|
    ensures Substituted(s, cut + from, fill) == Substituted(s[cut..], from, fill)
    decreases |s| - from
  {
    hide NextMatch, IsReference, Substituted;
    var tail := s[cut..];
    NextInTail(s, cut, from);
    FillsNext(s, cut + from, fill);
    FillsNext(tail, from, fill);
    if NextMatch(tail, from).Some? {
      var (p, e) := NextMatch(tail, from).value;
      ReferenceText(tail, p, e);
      SubstitutedTail(s, cut, e, fill);
      TailSlice(s, cut, from, p);
      TailSlice(s, cut, p + 2, e - 1);
    } else {
      TailSlice(s, cut, from, |tail|);
      assert tail[from..] == tail[from..|tail|] && s[cut + from..] == s[cut + from..|s|];
    }
  }

  lemma TailSlice(s: string, cut: nat, a: nat, b: nat)
    requires cut <= |s| && a <= b <= |s| - cut
    ensures s[cut..][a..b] == s[cut + a..cut + b]
  {
  }

  lemma ReferenceInTail(s: string, cut: nat, p: nat, e: nat)
    requires cut <= |s|
    ensures IsReference(s[cut..], p, e) <==> IsReference(s, cut + p, cut + e)
  {
    assert forall k | 0 <= k < |s| - cut :: s[cut..][k] == s[cut + k];
    if IsReference(s, cut + p, cut + e) {
      forall k | p + 2 <= k < e - 1 ensures IsNameByte(s[cut..][k]) {
        assert s[cut..][k] == s[cut + k];
      }
    }
  }

  lemma NextInHead(x: string, name: string, y: string, from: nat)
    requires IsName(name) && from <= |x|
    ensures NextMatch(x + Reference(name) + y, from)
         == if NextMatch(x, from).Some? then NextMatch(x, from) else Some((|x|, |x| + |name| + 3))
  {
    hide NextMatch, IsReference, IsName, Reference;
    var s := x + Reference(name) + y;
    ReferenceHere(x, name, y);
    var whole, part := NextMatch(s, from), NextMatch(x, from);
    if part.Some? {
      ReferenceText(x, part.value.0, part.value.1);
      assert IsReference(s, part.value.0, part.value.1);
    }
    if whole.Some? && whole.value.0 < |x| {
      assert IsReference(x, whole.value.0, whole.value.1);
    }
  }

  lemma LastFilled(s: string, x: string, name: string, y: string, from: nat, fill: string -> string)
    requires IsName(name) && from <= |x| && s == x + Reference(name) + y
    requires NextMatch(s, from) == Some((|x|, |x| + |name| + 3))
    ensures Substituted(s, from, fill) == x[from..] + fill(name) + Substituted(y, 0, fill)
  {
    hide NextMatch, IsReference, IsName, Substituted, Reference;
    ReferenceHere(x, name, y);
    FillsNext(s, from, fill);
    SubstitutedTail(s, |x| + |name| + 3, 0, fill);
    SameHead(x, Reference(name) + y, s, from, |x|);
    assert x[from..|x|] == x[from..];
  }

  lemma EarlierFilled(s: string, x: string, from: nat, p: nat, e: nat, fill: string -> string, filled: string)
    requires NextMatch(x, from) == Some((p, e)) && NextMatch(s, from) == Some((p, e))
    requires from <= p && p + 3 < e <= |x| && e <= |s|
    requires s[from..p] == x[from..p] && s[p + 2..e - 1] == x[p + 2..e - 1]
    requires Substituted(s, e, fill) == Substituted(x, e, fill) + filled
    ensures Substituted(s, from, fill) == Substituted(x, from, fill) + filled
  {
    hide NextMatch, IsReference, Substituted;
    var head := s[from..p] + fill(s[p + 2..e - 1]);
    FirstFilled(s, from, p, e, fill);
    FirstFilled(x, from, p, e, fill);
    Assembled(head, Substituted(x, e, fill), filled, Substituted(s, e, fill));
  }

  lemma FirstFilled(s: string, from: nat, p: nat, e: nat, fill: string -> string)
    requires from <= p && p + 3 < e <= |s| && NextMatch(s, from) == Some((p, e))
    ensures Substituted(s, from, fill) == s[from..p] + fill(s[p + 2..e - 1]) + Substituted(s, e, fill)
  {
    hide NextMatch;
  }

  lemma Assembled(head: string, part: string, filled: string, whole: string)
    requires whole == part + filled
    ensures head + whole == head + part + filled
  {
  }

  lemma SameHead(x: string, rest: string, s: string, from: nat, upTo: nat)
    requires s == x + rest && from <= upTo <= |x|
    ensures s[from..upTo] == x[from..upTo]
  {
  }

  lemma {:induction false} FillsReferenceFrom(s: string, x: string, name: string, y: string, from: nat,
                                              fill: string -> string)
    requires IsName(name) && from <= |x| && s == x + Reference(name) + y
    ensures Substituted(s, from, fill) == Substituted(x, from, fill) + (fill(name) + Substituted(y, 0, fill))
    decreases |x| - from
  {
    hide NextMatch, IsReference, IsName, Substituted, Reference;
    var rest := Reference(name) + y;
    assert s == x + rest;
    NextInHead(x, name, y, from);
    if NextMatch(x, from).Some? {
      var (p, e) := NextMatch(x, from).value;
      ReferenceText(x, p, e);
      FillsReferenceFrom(s, x, name, y, e, fill);
      SameHead(x, rest, s, from, p);
      SameHead(x, rest, s, p + 2, e - 1);
      EarlierFilled(s, x, from, p, e, fill, fill(name) + Substituted(y, 0, fill));
    } else {
      LastFilled(s, x, name, y, from, fill);
      FillsNext(x, from, fill);
      Regroup(x[from..], fill(name), Substituted(y, 0, fill));
    }
  }

  /** Wherever a reference stands, it is filled on its own and the text before
      it and behind it as if the rest were not there. */
  lemma FillsReference(x: string, name: string, y: string, fill: string -> string)
    requires IsName(name)
    ensures Substituted(x + Reference(name) + y, 0, fill)
         == Substituted(x, 0, fill) + fill(name) + Substituted(y, 0, fill)
  {
    hide IsName, Substituted, Reference;
    FillsReferenceFrom(x + Reference(name) + y, x, name, y, 0, fill);
    Regroup(Substituted(x, 0, fill), fill(name), Substituted(y, 0, fill));
  }

  function FillFrom(variables: map<string, string>): string -> string {
    (name: string) => if name in variables then variables[name] else Reference(name)
  }

  /** The patches a page's variables make, in order. */
  function VariablePatches(s: string, from: nat, variables: map<string, string>): seq<Patch>
    requires from <= |s|
    decreases |s| - from
  {
    var next := NextMatch(s, from);
    if next.None? then []
    else
      var (p, e) := next.value;
      var name := s[p + 2..e - 1];
      (if name in variables then [Patch(p, e, variables[name])] else []) + VariablePatches(s, e, variables)
  }

  lemma {:induction false} VariablePatchesFill(s: string, from: nat, variables: map<string, string>)
    requires from <= |s|
    ensures InOrder(VariablePatches(s, from, variables), from, |s|)
    ensures Patched(s, from, VariablePatches(s, from, variables)) == Substituted(s, from, FillFrom(variables))
    decreases |s| - from
  {
    hide IsReference, NextMatch, Patched, InOrder, FillFrom, Reference, Substituted, VariablePatches;
    var next := NextMatch(s, from);
    FillsNext(s, from, FillFrom(variables));
    PatchesNext(s, from, variables);
    if next.None? {
      NoPatches(s, from);
    } else {
      var (p, e) := next.value;
      ReferenceText(s, p, e);
      var name := s[p + 2..e - 1];
      var rest := VariablePatches(s, e, variables);
      FillOf(variables, name);
      VariablePatchesFill(s, e, variables);
      if name in variables {
        PatchedFirst(s, from, Patch(p, e, variables[name]), rest);
      } else {
        PatchedEarlier(s, from, e, rest);
        Glue(s, from, p, e);
      }
    }
  }

  lemma {:induction false} FillsNext(s: string, from: nat, fill: string -> string)
    requires from <= |s|
    ensures
      var next := NextMatch(s, from);
      Substituted(s, from, fill)
      == if next.None? then s[from..]
         else
           var (p, e) := next.value;
           s[from..p] + fill(s[p + 2..e - 1]) + Substituted(s, e, fill)
  {
    hide NextMatch;
  }

  lemma {:induction false} PatchesNext(s: string, from: nat, variables: map<string, string>)
    requires from <= |s|
    ensures
      var next := NextMatch(s, from);
      VariablePatches(s, from, variables)
      == if next.None? then []
         else
           var (p, e) := next.value;
           var name := s[p + 2..e - 1];
           if name in variables then [Patch(p, e, variables[name])] + VariablePatches(s, e, variables)
           else VariablePatches(s, e, variables)
  {
    hide NextMatch;
    if NextMatch(s, from).Some? {
      var (_, e) := NextMatch(s, from).value;
      assert [] + VariablePatches(s, e, variables) == VariablePatches(s, e, variables);
    }
  }

  lemma FillOf(variables: map<string, string>, name: string)
    ensures FillFrom(variables)(name) == if name in variables then variables[name] else Reference(name)
  {
  }

  lemma NoPatches(s: string, from: nat)
    requires from <= |s|
    ensures InOrder([], from, |s|) && Patched(s, from, []) == s[from..]
  {
  }

  lemma AppendNext(done: seq<Patch>, next: seq<Patch>, rest: seq<Patch>)
    ensures done + next + rest == done + (next + rest)
    ensures next == [] ==> done + next == done
  {
  }

  /** Fills a fetched page with an include's variables; names it does not set
      stay as they are. */
  method ReplaceVariables(content: string, variables: map<string, string>) returns (r: string)
    ensures r == Substituted(content, 0, FillFrom(variables))
  {
    hide NextMatch, Patched, InOrder, Substituted, VariablePatches, IsReference, Reference, FillFrom;
    PatchesNext(content, 0, variables);
    var matches: seq<Patch> := [];
    var at := 0;
    var next := NextMatch(content, 0);
    while next.Some?
      invariant at <= |content| && next == NextMatch(content, at)
      invariant matches + VariablePatches(content, at, variables) == VariablePatches(content, 0, variables)
      decreases |content| - at
    {
      var (p, e) := next.value;
      ReferenceText(content, p, e);
      var name := content[p + 2..e - 1];
      ghost var was := matches;
      if name in variables {
        matches := matches + [Patch(p, e, variables[name])];
      }
      PatchesNext(content, at, variables);
      AppendNext(was, if name in variables then [Patch(p, e, variables[name])] else [],
                 VariablePatches(content, e, variables));
      at := e;
      next := NextMatch(content, at);
    }
    PatchesNext(content, at, variables);
    assert matches + [] == matches;
    VariablePatchesFill(content, 0, variables);
    r := ApplyFromBack(content, matches);
  }
}
