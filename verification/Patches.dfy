/** Editing a text: patches applied in one pass, and in place from the back. */
module Patches {
  import opened Seqs

  datatype Patch = Patch(start: nat, end: nat, text: string)

  /** Ordered, disjoint, from `from` on and inside the text. */
  predicate InOrder(patches: seq<Patch>, from: nat, size: nat) {
    if patches == [] then from <= size
    else from <= patches[0].start <= patches[0].end && InOrder(patches[1..], patches[0].end, size)
  }

  lemma {:induction false} InOrderInside(patches: seq<Patch>, from: nat, size: nat)
    requires InOrder(patches, from, size)
    ensures from <= size
    ensures patches != [] ==> patches[0].end <= size
    decreases |patches|
  {
    if patches != [] {
      InOrderInside(patches[1..], patches[0].end, size);
    }
  }

  /** One pass from left to right: the gaps as they are, each patch's text in
      place of its range. */
  ghost function Patched(s: string, from: nat, patches: seq<Patch>): string
    requires InOrder(patches, from, |s|)
    decreases |patches|
  {
    InOrderInside(patches, from, |s|);
    if patches == [] then s[from..]
    else s[from..patches[0].start] + patches[0].text + Patched(s, patches[0].end, patches[1..])
  }

  /** The text with one range replaced. */
  function ReplaceRange(s: string, start: nat, end: nat, text: string): string
    requires start <= end <= |s|
  {
    s[..start] + text + s[end..]
  }

  lemma PatchedEarlier(s: string, from: nat, to: nat, patches: seq<Patch>)
    requires from <= to && InOrder(patches, to, |s|)
    ensures InOrder(patches, from, |s|)
    ensures to <= |s| && Patched(s, from, patches) == s[from..to] + Patched(s, to, patches)
  {
    InOrderInside(patches, to, |s|);
    if patches == [] {
      Glue(s, from, to, |s|);
      assert s[from..] == s[from..|s|] && s[to..] == s[to..|s|];
    } else {
      InOrderInside(patches[1..], patches[0].end, |s|);
      Glue(s, from, to, patches[0].start);
      RegroupFour(s[from..to], s[to..patches[0].start], patches[0].text, Patched(s, patches[0].end, patches[1..]));
    }
  }

  lemma ReplaceInHead(s: string, start: nat, end: nat, text: string, tail: string)
    requires start <= end <= |s|
    ensures ReplaceRange(s[..end] + tail, start, end, text) == s[..start] + (text + tail)
  {
    var output := s[..end] + tail;
    assert output[..start] == s[..start] && output[end..] == tail;
    Regroup(s[..start], text, tail);
  }

  lemma PatchedFirst(s: string, from: nat, patch: Patch, rest: seq<Patch>)
    requires from <= patch.start <= patch.end && InOrder(rest, patch.end, |s|)
    ensures InOrder([patch] + rest, from, |s|) && patch.end <= |s|
    ensures Patched(s, from, [patch] + rest) == s[from..patch.start] + patch.text + Patched(s, patch.end, rest)
  {
    InOrderInside(rest, patch.end, |s|);
    assert ([patch] + rest)[1..] == rest;
  }

  /** Replacing one more range, in front of those replaced so far. */
  lemma PatchInFront(s: string, patch: Patch, edge: nat, tail: seq<Patch>, output: string)
    requires patch.start <= patch.end <= edge && InOrder(tail, edge, |s|)
    requires edge <= |s| && output == s[..edge] + Patched(s, edge, tail)
    ensures InOrder([patch] + tail, patch.start, |s|)
    ensures ReplaceRange(output, patch.start, patch.end, patch.text)
            == s[..patch.start] + Patched(s, patch.start, [patch] + tail)
  {
    PatchedEarlier(s, patch.end, edge, tail);
    PatchedFirst(s, patch.start, patch, tail);
    var rest := Patched(s, patch.end, tail);
    Glue(s, 0, patch.end, edge);
    assert s[..edge] == s[0..edge] && s[..patch.end] == s[0..patch.end];
    Regroup(s[..patch.end], s[patch.end..edge], Patched(s, edge, tail));
    assert output == s[..patch.end] + rest;
    ReplaceInHead(s, patch.start, patch.end, patch.text, rest);
    assert s[patch.start..patch.start] + patch.text == patch.text;
  }

  lemma {:induction false} InOrderAt(patches: seq<Patch>, from: nat, size: nat, k: nat)
    requires InOrder(patches, from, size) && k < |patches|
    ensures from <= patches[k].start <= patches[k].end <= size
    ensures k + 1 < |patches| ==> patches[k].end <= patches[k + 1].start
    decreases |patches|
  {
    InOrderInside(patches, from, size);
    if k > 0 {
      InOrderAt(patches[1..], patches[0].end, size, k - 1);
    }
  }

  /** Patches applied in place, last first, give the one left-to-right pass. */
  method ApplyFromBack(s: string, patches: seq<Patch>) returns (output: string)
    requires InOrder(patches, 0, |s|)
    ensures output == Patched(s, 0, patches)
  {
    output := s;
    assert s == s[..|s|] + "" && patches[|patches|..] == [];
    ghost var edge := |s|;
    for k := |patches| downto 0
      invariant edge <= |s| && edge == if k == |patches| then |s| else patches[k].start
      invariant InOrder(patches[k..], edge, |s|)
      invariant output == s[..edge] + Patched(s, edge, patches[k..])
    {
      InOrderAt(patches, 0, |s|, k);
      PatchInFront(s, patches[k], edge, patches[k + 1..], output);
      assert [patches[k]] + patches[k + 1..] == patches[k..];
      edge := patches[k].start;
      output := ReplaceRange(output, patches[k].start, patches[k].end, patches[k].text);
    }
    assert patches[0..] == patches;
    PatchedEarlier(s, 0, edge, patches);
    assert s[0..edge] == s[..edge];
  }
}
