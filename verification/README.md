# Verified model of ftml's stateful cores

ftml parses Wikidot markup. Seven of its parts are small algorithms with state of
their own: stacks, memo slots, explicit work lists in place of recursion, edits in
place with offset arithmetic. This project models those parts in Dafny and proves
what each of them is for.

In the parts that scan a source text, the text is a `string` whose characters stand
for its bytes: every marker that code compares is ASCII, and an ASCII byte never
occurs inside a multi-byte UTF-8 sequence, so offsets there are the program's byte
offsets. In the tree parts (`Tree.dfy`, the footnote and delayed-binding files)
characters are Unicode scalar values, as whitespace and the dash are tested on them;
offsets there count characters, which cuts a text into the same pieces. Machine
integers are unbounded; the program's own saturating steps are written out where they
decide an answer (the bold depth, the bounds of the owner-line scan).

Loops and objects are methods and classes here. Each is proved against a value-level
specification, and the theorems are about that specification.

| files | part |
|---|---|
| `Bytes.dfy`, `Seqs.dfy`, `Patches.dfy` | byte strings, searches, sequence facts, edits of a text |
| `WikidotCodeSpec.dfy`, `WikidotCode.dfy`, `WikidotCodeReaders.dfy` | owners of `[[code]]` blocks |
| `NonEmptyVec.dfy`, `Depth.dfy` | nested lists from depths |
| `Tree.dfy` | the reduced syntax tree and its visible content |
| `FootnoteSpec.dfy`, `FootnoteHoistSpec.dfy`, `FootnoteNormal.dfy`, `FootnoteLaws.dfy`, `Footnote.dfy` | footnote-block normalisation |
| `DelayedSpec.dfy`, `NodeMeaning.dfy` | delayed nodes and what they stand for |
| `Seam.dfy`, `SeamReading.dfy`, `SeamRewriting.dfy`, `AngleQuotes.dfy` | edits at a seam |
| `Suppression.dfy`, `SuppressionLaws.dfy`, `Delayed.dfy`, `Binding.dfy`, `ResolveLaws.dfy`, `TreeReading.dfy`, `TreeBinding.dfy` | the two binding passes |
| `Headings.dfy`, `Segments.dfy`, `Toc.dfy` | table-of-contents entries |
| `CloseScan.dfy` | memoised line scans |
| `Variables.dfy`, `IncludeArguments.dfy`, `Quoted.dfy`, `Includes.dfy` | includes |
| `BracketRun.dfy` | repair of bracket runs |

**Code-block owners.** `Events` is the sequence of opener and closer events a text
holds. An opener's closer is the one that matches it by depth or, if none does, the
last closer after it; `IsCandidateMap` says this of a map without a stack, and
`CandidateMapUnique` says that only one map satisfies it. The stack scan
`Candidates` computes that map, with bounds on the bytes its two memo objects read.
`CandidatesLaminar` and `CandidateShape` are about every such map.
`InnerAgreesWithMap` compares the single-opener reader with every such map, and
`ActiveRanges` returns exactly the maximal owners although it walks `[[` on a cursor
of its own; `NoAlignedMarkerSkipped` is why both walks meet the same markers.

**Depth lists.** `ProcessDepths` gives a canonical forest that flattens to its input.
`ForestDetermined` says that two canonical forests with the same flattening are
equal, so building and flattening are inverse bijections; `Rebuild` flattens a
canonical forest, builds it again and gets it back. `DecreaseDepth` needs two
layers, and every call of it in the builder has them.

**Footnote blocks.** `Content` is what a tree shows, without blanks, formatting
written as its markers. The two-stack dissolving loop equals the recursive
`Dissolve`, whose result has no block left under a delimiter, is a fixed point, and
has the same content. The frame-stack normaliser equals `NormalizeBlocks`, which
keeps content and the number of blocks; hoisting is the identity where
`NeedsFootnoteBlockHoist` says no. Two things the passes do not always reach have
their exact conditions: splitting leaves a paragraph with a block inside only where
such a paragraph is nested in a fragment that stays inline (`SplitSeparatesBlocks`),
and one hoist leaves something to hoist only where a quote or header keeps a second
block, or a list holds more than its first (`HoistComplete`). For the whole pass
`NormalizeHoists` says which blocks come up and when one is left behind,
`NormalizeClearsQuotes` that none is where every quote holds one, and
`NormalizeIsNormal` how every level looks before hoisting. When there are no footnotes
the blocks are removed, and two hyphens that meet across one become a dash
(`HyphensMeet`); `Hyphenated` reads the dash back as two hyphens, and up to that
everything else is kept.

**Delayed binding.** Each pass equals a recursive function of its input:
`SuppressAll` groups texts and seams, edits the joined text of each group and drops
the seams; `ResolveAll` puts replacements in the place of nodes. `BindDelayedTree`
succeeds exactly when every seam is bound, what the first pass leaves resolves, and
the expected count is the tree's; its result is then the second function of the
first. What the functions keep is proved about them. `Kept` and `BoundTo` hold for
any typographic edits: nodes, leaves, notes and all shells but paragraphs, quotes and
struck text stay in order and nesting, and each occurrence is counted once. `Reading`
is what a tree says: characters spelled out, a dash as two hyphens, nodes as what they
stand for, every paragraph, quote and shell that says anything, and the line breaks,
of which several in a row count as one and a last one as none. Both passes leave it
unchanged (`BindingReads`, `BoundTreeReads`). The first needs the edits of the groups
it flushes to be quiet: they do not overlap, and each typographic one reads as what it
replaces. `NoTypographyIsQuiet` and `AngleEditsAreQuiet` are two oracles for which
that holds on every tree; the second makes the edits of closing angle quotes.

What a reading does not show is stated place by place. `StandsFor` says what each
node stands for under the bindings, link by link and tag by tag, and resolving gives
that and fails where there is no such thing (`ResolvedStandsFor`). `HyphensOverSeam`
and `SpacesOverSeam` say what stands where a run met over a seam, `StretchLaw` that a
stretch of texts and seams is flushed once and as a whole and which line break goes
with seams, and `ResolveInOrder` that elements are replaced one by one, with the one
place where blanks go along.

A heading is the bracketed segment at its mark in the skeleton, of the tree or of a
footnote (`TitlesStand`). It is found under the same number before and after binding,
with its contents bound by the same two functions (`BindingKeepsNumbering`), so every
recorded entry gets one label.

**Line scans.** Every slot of `UnmatchedCloseScanCache` answers as a fresh scan
would, for queries in any order. The link-region slot is used only where the text
reads `[[/`; `CloserIsNotStraddled` shows that no comment opener lies across such a
position, and `ReuseNeedsCloser` gives a text where the answer would be wrong
elsewhere. The region itself ends at the first line break or, behind a blank, bracket
outside the comments (`RegionEnds`).

**Includes.** Argument expansion ends for every argument list, keeps to its size
allowance, and says how it ended; a settled result is a fixed point of one round
with the first contribution for each key. An argument whose value and binding both
mention its key keeps its own references (`OwnReferenceStays`), and arguments that
mention no other key settle as they are written (`OwnReferencesSettle`). A reference is
filled wherever it stands as if the rest of the text were not there
(`FillsReference`). The scan's ranges are in order and apart,
and replacing them in place from the back is one left-to-right concatenation, with
pages in source order. Where a quoted block ends is a function of the text and the
parser (`QuotedEnd`), through an offset map that is total, increasing, and leads to
the same byte; so what becomes of every opener is determined, and with it the whole
scan (`TraceIsUnique`).

**Bracket runs.** Whatever the probes answer, the repair ends, its tokens tile the
same text and are spelled as their kinds say, and every turn commits the one
reading the probes accept, or none if they accept none. The head gate is asked
forward only and answers as a fresh scan would.

The block parser, the opener and typography searches, page fetching, title rendering
and the repair probes are function parameters; what is assumed of them is the
`requires` clause of the method that takes them.

## Model

| member | source | states |
|---|---|---|
| WikidotCodeSpec.OwnershipStep | src/wikidot_code.rs:391-398 | Line ownership, as defined by the text before an opener, moves one byte at a time the way the incremental scan does. |
| WikidotCode.LineOwnership.At | src/wikidot_code.rs:375-389 | Asked at non-decreasing positions, the scan answers as the definition does. |
| WikidotCode.CloseBracketCursor.NextAt | src/wikidot_code.rs:262-290 | Every ask, forward or back, gets the first `]]` at or after the position. |
| WikidotCodeSpec.SaturatingDepthMeaning | src/wikidot_code.rs:408-428 | The saturating depth ends open exactly when some suffix of the marks, or the whole with its start depth, opens more than it closes. |
| WikidotCode.CrossesBold | src/wikidot_code.rs:400-428 | The bold test is: a bold closer follows, and the body leaves bold open. |
| WikidotCode.CodeOpenerEndChecked | src/wikidot_code.rs:292-313 | The opener recogniser, its use of the memo included, for owned and unowned positions. |
| WikidotCode.CodeCloserMarkerEnd | src/wikidot_code.rs:324-342 | The closer recogniser and its use of the memo. |
| WikidotCode.Candidates | src/wikidot_code.rs:108-193 | The scan returns the declarative candidate map; searches for `]]` read at most five times the text, line ownership reads each byte at most once. |
| WikidotCode.CloseBlock | src/wikidot_code.rs:127-145 | A terminating closer settles the innermost opener and hands its parent the closer and the count. |
| WikidotCode.RecoverUnclosed | src/wikidot_code.rs:174-190 | Openers left on the stack inherit a child's last closer; their nested count is never zero there. |
| WikidotCodeSpec.CandidateMapUnique | src/wikidot_code.rs:108-193 | Only one map of openers to candidates meets the declarative description. |
| WikidotCodeSpec.MatchBalances | src/wikidot_code.rs:52-106 | The closer an opener is matched with is the first at which closers outnumber openers; there is none exactly if they never do. |
| WikidotCodeSpec.CandidateMeans | src/wikidot_code.rs:108-193 | An opener is mapped exactly if it has a closer, the first that outnumbers openers or else the last, and that closer does not split bold; to the body up to it and the number of closers between. |
| WikidotCodeSpec.CandidateShape | src/wikidot_code.rs:127-190 | Every candidate lies behind its opener, ends in a nine-byte `[[/code]]` that terminates, and starts on a line it owns. |
| WikidotCodeSpec.CandidatesLaminar | src/wikidot_code.rs:108-193 | Owner intervals are nested or disjoint, recovered ones included; a nested one lies inside the body. |
| WikidotCodeSpec.InnerAgreesWithScan | src/wikidot_code.rs:52-106 | For every opener of the scan the single-opener reading gives the scan's candidate when a closer matches by depth, and none exactly when the scan would need its fallback. |
| WikidotCodeReaders.CandidateAtInner | src/wikidot_code.rs:52-106 | The forward loop with its depth counter computes that reading for any opener position. |
| WikidotCodeReaders.InnerAgreesWithMap | src/wikidot_code.rs:52-106 | For every map of openers to candidates and every opener of the scan, the inner reading is the map's entry where a closer matches by depth, and none where the scan needs its fallback. |
| WikidotCodeReaders.CandidateAtOwnedOpener | src/wikidot_code.rs:31-50 | On an owned line the answer is the scan's; elsewhere the inner reading, if allowed. |
| WikidotCodeSpec.NoAlignedMarkerSkipped | src/wikidot_code.rs:200-208 | Walks in steps of two on runs of `[` meet the same markers when they start aligned. |
| WikidotCodeSpec.EventsAligned | src/wikidot_code.rs:122-172 | Every event of the scan is on an aligned marker. |
| WikidotCodeReaders.ActiveRanges | src/wikidot_code.rs:195-211 | The walk returns exactly the maximal intervals of the candidate map, in increasing order and apart. |
| WikidotCodeReaders.MaximalOwnersUnique | src/wikidot_code.rs:195-211 | The list of maximal owners is determined by the candidate map. |
| WikidotCodeReaders.ActiveBodyRanges | src/wikidot_code.rs:213-229 | The body ranges are the bodies of the same owners in the same order. |
| NonEmptyVec.NonEmptyVec.Push | src/non_empty_vec.rs:93-95 | The new element is last; the others stay. |
| NonEmptyVec.NonEmptyVec.Pop | src/non_empty_vec.rs:98-100 | The last element comes off unless it is the only one, which stays. |
| Depth.DepthStack.DecreaseDepth | src/parsing/depth.rs:54-57 | With at least two layers open, the top one becomes a list at the end of the one below. |
| Depth.DepthStack.NewList | src/parsing/depth.rs:59-66 | At the bottom the open list is finished; above it the top layer is closed and a new one opened. |
| Depth.DepthStack.FinishDepthList | src/parsing/depth.rs:82-99 | All layers collapse into one finished tree, unless it is empty. |
| Depth.AddEntry | src/parsing/depth.rs:116-131 | One input adds exactly itself to the flattening, keeps the forest canonical, and leaves as many layers as its depth says. |
| Depth.ProcessDepths | src/parsing/depth.rs:107-134 | The result is a canonical forest and flattens to the input. |
| Depth.ForestDetermined | src/parsing/depth.rs:107-134 | A canonical forest is determined by its flattening, so building inverts flattening on all of them. |
| Depth.Rebuild | src/parsing/depth.rs:107-134 | Building a canonical forest's flattening gives the forest back. |
| Depth.FlattenInjective | src/parsing/depth.rs:54-66 | Below the top too, the nesting of canonical items can be read off the flattened entries. |
| Footnote.SubtreeContainsFootnoteBlock | src/parsing/footnote.rs:369-380 | The stack search finds a block in a container or color subtree exactly if there is one. |
| Footnote.DissolveFootnoteBlockContainers | src/parsing/footnote.rs:401-489 | The loop over pending steps and open outputs ends and equals the recursive definition. |
| FootnoteSpec.DissolveIsClean | src/parsing/footnote.rs:401-489 | No block is left under a delimiter or a color through containers and colors. |
| FootnoteSpec.DissolveIdempotent | src/parsing/footnote.rs:401-489 | Dissolving twice is dissolving once. |
| FootnoteSpec.DissolveKeepsContent | src/parsing/footnote.rs:401-489 | Visible content is the same before and after, markers of dissolved containers written out. |
| Footnote.NormalizeParagraphInto | src/parsing/footnote.rs:274-323 | A paragraph is split into pieces around its blocks, or loses them when there are no footnotes. |
| FootnoteSpec.SplitKeepsContent | src/parsing/footnote.rs:301-367 | The pieces hold the paragraph's content in order. |
| FootnoteSpec.SplitSeparatesBlocks | src/parsing/footnote.rs:301-367 | A piece that is an empty paragraph or holds a block directly comes out exactly if such a paragraph was among the children that stay inline. |
| FootnoteSpec.PiecesAreSplit | src/parsing/footnote.rs:274-367 | The same for a whole paragraph: without a block it is one piece, bad only if empty. |
| Footnote.RemoveEmptyInlineBlocks | src/parsing/footnote.rs:551-583 | The loop with its pending-hyphen flag is the removal function. |
| FootnoteSpec.RemoveKeepsRest | src/parsing/footnote.rs:551-583 | No block is left, and the other content is kept, two hyphens that met over a block read as the dash. |
| Footnote.NormalizeBlockSequence | src/parsing/footnote.rs:506-549 | The loop over a finished sequence is the spacing function. |
| FootnoteSpec.SpaceBlocksSpaces | src/parsing/footnote.rs:506-549 | After spacing every block stands apart from what its flags and neighbours require. |
| FootnoteSpec.SpaceKeepsContent | src/parsing/footnote.rs:506-549 | Spacing changes line breaks only. |
| FootnoteSpec.NormalizeEmptyKeepsRest | src/parsing/footnote.rs:211-255 | Without footnotes, normalising keeps all content but the blocks, at every depth. |
| Footnote.NeedsFootnoteBlockHoist | src/parsing/footnote.rs:585-641 | The stack search decides the recursive question whether hoisting has something to do. |
| FootnoteHoistSpec.HoistIdentity | src/parsing/footnote.rs:585-641 | Where the answer is no, hoisting changes nothing. |
| Footnote.TrimHoistedBefore | src/parsing/footnote.rs:850-880 | The trimming loop, into paragraphs, is the trimming function. |
| FootnoteHoistSpec.TrimKeepsContent | src/parsing/footnote.rs:836-880 | Trimming takes blanks, line breaks and emptied paragraphs only. |
| Footnote.HoistListFootnoteBlock | src/parsing/footnote.rs:752-827 | A list is split around the first block of its items, inline suffixes and emptied items included. |
| FootnoteHoistSpec.HoistedOwnersAreClear | src/parsing/footnote.rs:652-723 | What stands before the hoisted block holds no block of its own; it has the kind, attributes and shape of its owner, and so has what follows, unless it stays inline. |
| FootnoteHoistSpec.HoistComplete | src/parsing/footnote.rs:585-827 | After one hoist there is something left to hoist exactly where, in the input, a second block comes up inside a quote or header behind a first that does not take the rest inline, or a list has blocks beyond its first, or below its items. |
| FootnoteHoistSpec.HoistSurfaces | src/parsing/footnote.rs:652-827 | The blocks hoisting brings up to a level, with their suffix flags, are those read off the input. |
| Footnote.HoistBlockSequence | src/parsing/footnote.rs:652-750 | The in-place hoisting equals the recursive definition. |
| FootnoteHoistSpec.HoistKeepsContent | src/parsing/footnote.rs:652-827 | Hoisting keeps all visible content in its order. |
| Footnote.NormalizeWikidotBlocks | src/parsing/footnote.rs:211-255 | The frame stack ends and equals the recursive normalisation, hoisting included. With footnotes, the blocks at the result's own level are those that come up in the normalised input, something is left to hoist exactly where one pass over that falls short, and nothing is where every quote and header holds one block at most and no list any. Without, no paragraph holds a block. |
| FootnoteHoistSpec.NormalizeKeepsContent | src/parsing/footnote.rs:211-255 | With footnotes, normalising keeps content and the number of blocks. |
| FootnoteNormal.NormalizeHoists | src/parsing/footnote.rs:235-255 | The same for the recursive definition: which blocks come up in the whole pass, and when one is left behind. |
| FootnoteNormal.NormalizeClearsQuotes | src/parsing/footnote.rs:235-255 | Where every quote and header holds one block at most and no list holds any, no quote or header of the result holds one directly. |
| FootnoteNormal.NormalizeIsNormal | src/parsing/footnote.rs:211-255 | Where paragraphs and colours hold blocks through delimiters and colours only, every level of the input is left with its blocks spaced, none under a delimiter or a colour, and none in a paragraph. |
| FootnoteNormal.HeldLooselyIsNeeded | src/parsing/footnote.rs:401-489 | A colour brings up what it holds as it is: a paragraph under it keeps its block. |
| FootnoteNormal.NormalizeEmptyIsBare | src/parsing/footnote.rs:211-255 | Without footnotes no paragraph of a level holds a block. |
| FootnoteLaws.PieceLaw | src/parsing/footnote.rs:301-367 | What stands before a block becomes a paragraph without the break that ends it, or stays inline with a break behind it; what stands behind the last block likewise; nothing comes of nothing. |
| FootnoteLaws.HyphensMeet | src/parsing/footnote.rs:551-583 | Two hyphens with dropped blocks between them become one dash, and with none between them stay. |
| FootnoteLaws.SpacingIsFixed | src/parsing/footnote.rs:506-549 | A spaced sequence is left alone, and spacing twice is spacing once. |
| FootnoteLaws.TrimBeforeTrims | src/parsing/footnote.rs:836-880 | Trimming takes the breaks and blank texts behind the last content and the spaces that end it, a paragraph being trimmed itself and dropped if nothing is left, whatever stands before it. |
| DelayedSpec.ContainsIsHasNode | src/delayed.rs:943-1043 | The recursive search finds a delayed node exactly if the skeleton has one. |
| DelayedSpec.ResolvedIsFlat | src/delayed.rs:1045-1158 | Whatever a node resolves to has no children and no delayed node. |
| NodeMeaning.ResolvedStandsFor | src/delayed.rs:1045-1158 | A node resolves to what it stands for, part by part: bound links, source texts joined, a label taken over by a link, an image's text; it fails exactly if it stands for nothing. |
| NodeMeaning.ActiveStands | src/delayed.rs:1221-1256 | A bound page link is one link to that page with that label; n bound tags are 2n - 1 elements, links to their tag pages with the separator between, or none for none. |
| NodeMeaning.LegacyStands | src/delayed.rs:1258-1298 | A slot's source text is the bracketed link with its caption freed of brackets, or the tags' links in order with the separator between. |
| NodeMeaning.EditsArePointwise | src/delayed.rs:1266-1298 | Brackets go and spaces are escaped one character at a time, whatever stands around them. |
| NodeMeaning.CountsItsSlots | src/delayed.rs:1045-1158 | A node counts the slots it names, and what it stands for depends on how those are bound and on nothing else. |
| Seam.RangeCrossesSeam | src/delayed/seam.rs:383-386 | Looking at the first seam past the start decides whether any lies inside the range. |
| Seam.CollectDashEdits | src/delayed/seam.rs:330-359 | The loop is the scan function, and the dash edits are exactly the maximal runs of two or more that cross a seam and belong to no URL, left to right. |
| Seam.CollectSpaceEdits | src/delayed/seam.rs:361-381 | The loop is the scan function, and the space edits are exactly the maximal runs of two or more that cross a seam, left to right. |
| Seam.RunsApart | src/delayed/seam.rs:330-381 | Dash and space runs never overlap. |
| Seam.EditsExact | src/delayed/seam.rs:240-254 | The sorted list holds the typographic, dash and space edits of the text, and no other. |
| Seam.EmitSourceRange | src/delayed/seam.rs:388-420 | The two loops are the emission function; from a piece index that is not too far on, the range is written out whole, and the index is good for the next. |
| Seam.EmitEdits | src/delayed/seam.rs:257-276 | The loop is the emission function, and for disjoint edits the output reads as the joined text with each range replaced. |
| Seam.FlushGroup | src/delayed/seam.rs:198-277 | A group without seams is kept, one of seams alone vanishes and is reported, any other is written piece by piece with its sorted edits; where the edits do not overlap, the output reads as the joined text with each range replaced. What stands in each range is stated by the three rows on runs and typography over a seam. |
| SeamReading.DashRunReads | src/parsing/inline_format.rs:4137-4155 | A run of two or more hyphens, rewritten, reads back as that many hyphens; its shape is the next row's. |
| SeamRewriting.DashRunIsUnique | src/parsing/inline_format.rs:4137-4155 | Struck hyphens first, then dashes, then at most one bare hyphen, those behind the struck ones fewer than five hyphens together: a length has one such run, and the rewriting is it. Two hyphens are one dash, and only the last element may be a bare hyphen. |
| SeamRewriting.HyphensOverSeam | src/delayed/seam.rs:198-277 | Where a maximal run of hyphens met over a seam, outside a URL, such a run stands in the output, between what the text before it and behind it reads as. |
| SeamRewriting.SpacesOverSeam | src/delayed/seam.rs:361-381 | Where a maximal run of spaces met over a seam one space stands. |
| SeamRewriting.TypographyOverSeam | src/delayed/seam.rs:240-277 | In the place of a typographic edit its own text stands. |
| SeamRewriting.UrlOwnedIsInside | src/delayed/seam.rs:309-328 | A run is inside a URL exactly if some scheme stands before it with nothing between that ends a URL; looking behind the latest scheme is enough. |
| SeamRewriting.UrlOwnerIsLast | src/delayed/seam.rs:298-307 | A group follows a URL exactly if the element before it is a link to one or a text that ends inside one. |
| SeamRewriting.SeamPlaces | src/delayed/seam.rs:215-232 | The seams are the places in the joined text where a value was dropped. |
| SeamReading.FlushedReads | src/delayed/seam.rs:198-277 | What a flush writes reads as the group's text, if the edits do not overlap and each typographic one reads as what it replaces; dash and space edits always do. |
| SeamReading.NoTypographyIsQuiet | src/delayed/seam.rs:198-277 | Without typographic edits that condition holds. |
| AngleQuotes.CollectAngleEdits | src/preproc/typography.rs:1027-1057 | The loop over runs of closing brackets is the scan function, and its edits are exactly the pairs of the runs of two or more that a seam touches. |
| AngleQuotes.AngleEditsExact | src/preproc/typography.rs:1027-1057 | The scan function edits those pairs and nothing else. |
| AngleQuotes.AngleEditsAreQuiet | src/preproc/typography.rs:1027-1057 | On every text these edits do not overlap with each other or with dash and space edits, and a quote reads as the two brackets it stands for. |
| AngleQuotes.AngleEditIsMade | src/preproc/typography.rs:1027-1057 | Two brackets with a seam between them do become one quote. |
| Delayed.Classify | src/delayed/seam.rs:15-48 | A node is a seam when it is a boundary or a suppression ready to drop; unbound slots are an error. |
| SuppressionLaws.WhatIsASeam | src/delayed/seam.rs:15-48 | Which nodes each pass drops, and which slots must be bound for it. |
| Delayed.RewriteElements | src/delayed/seam.rs:51-91 | The two loops compute `SuppressAll`, the counter grows by the slots of the seams, and it fails exactly on an unbound seam. |
| Delayed.VisitChildren | src/delayed/seam.rs:93-196 | The same for one element: `SuppressElement`, an emptied paragraph or quote becoming a boundary. |
| Suppression.SuppressKeeps | src/delayed/seam.rs:51-196 | Whatever the edits, no seam is left, and everything but text, line breaks and soft shells stays in order and nesting. |
| Suppression.SuppressIdentity | src/delayed/seam.rs:51-196 | Where there is no seam nothing changes. |
| Suppression.SuppressionConserves | src/delayed/seam.rs:25-91 | The slots of the seams and the occurrences left are the occurrences before. |
| SuppressionLaws.StretchLaw | src/delayed/seam.rs:51-91 | A stretch of texts and seams between other elements is flushed once and as a whole, the rest passed over as if alone; one of seams alone takes one of two line breaks around it along, and with typography the break before it at the end. |
| SuppressionLaws.EmptiedOwners | src/delayed/seam.rs:93-150 | A paragraph or quote that loses all its elements becomes a boundary; any other container keeps its shell. |
| SuppressionLaws.OneAlone | src/delayed/seam.rs:51-91 | An element that is neither text nor seam stays by itself. |
| TreeReading.SuppressReads | src/delayed/seam.rs:51-277 | With quiet edits in the groups flushed, the pass changes nothing a sequence says: text, line breaks, paragraphs, quotes and shells, whatever its nodes mean. |
| Binding.TrimTrailingAsciiSpace | src/delayed.rs:929-941 | Exactly the trailing blanks of a last text go, and the text if nothing is left of it. |
| Binding.ResolveElements | src/delayed.rs:767-927 | It succeeds exactly when every node stands for something and every sublist comes back as one element; then the result is `ResolveAll`, which puts that in the node's place, no node is left, and the counter grows by all occurrences; without delayed nodes nothing changes. |
| ResolveLaws.ResolveInOrder | src/delayed.rs:767-927 | Every element leaves what it stands for, in order; only tag links bound to no tag, at the end of a sequence, take the blanks before them along. |
| ResolveLaws.TrimmingIsLast | src/delayed.rs:929-941 | Blanks go off the end of a last text, and the text if it was blanks only; nothing else changes. |
| ResolveLaws.EmptiedParagraphs | src/delayed.rs:767-927 | A container keeps its shell; a paragraph goes if it held a node and nothing is left. |
| Binding.ResolveItem | src/delayed.rs:822-845 | A sublist is resolved as a sequence of one and must come back as one. |
| TreeReading.ResolveReads | src/delayed.rs:767-927 | The resolve pass changes nothing a sequence says, its nodes read as what they stand for. |
| TreeReading.BindingReads | src/delayed.rs:565-613 | So both passes together change nothing. |
| TreeBinding.PassesCompose | src/delayed.rs:565-613 | Each occurrence is counted by exactly one pass, and the result is the original without seams and with nodes resolved, text and soft shells aside. |
| TreeBinding.ListsDecide | src/delayed.rs:582-606 | Where every sublist is a list, the second pass succeeds exactly when every node of the original tree but its seams resolves. |
| TreeBinding.BindDelayedTree | src/delayed.rs:558-634 | It succeeds exactly when every seam is bound, every node the first pass leaves stands for something, sublists come back, and the expected count is the tree's; the tree is then the resolve function of the suppression function of the original, nodes replaced by what they stand for, and holds no delayed node; which error it gives otherwise. |
| TreeBinding.BoundTreeReads | src/delayed.rs:558-634 | With quiet edits the bound tree says what the original says, in every part. |
| TreeBinding.QuietOracleTree | src/delayed/seam.rs:240-244 | With an oracle that makes quiet edits only, that holds of every tree. |
| Toc.VisitHeadings | src/delayed/toc.rs:29-145 | The visit, into footnotes where they are referred to, collects the headings in order, each the segment at its mark (`Segments.TitlesStand`). |
| Toc.TitlesAreExpanded | src/delayed/toc.rs:29-145 | The headings visited are those the skeleton's marks lead to. |
| Segments.TitlesStand | src/delayed/toc.rs:29-145 | The k-th heading visited, its shell around its contents, is the bracketed segment at the k-th heading mark reached, in the tree or in the footnote the mark lies in. |
| Segments.BonesMatch | src/delayed/toc.rs:29-145 | The brackets of a skeleton match, so a mark has one segment. |
| Toc.TreeTitlesStand | src/delayed/toc.rs:17-145 | So for a whole tree, and a heading holds a delayed node exactly if its segment does. |
| Toc.BindingKeepsMarks | src/delayed/toc.rs:29-145 | Binding keeps headings and footnote references in order. |
| Toc.BindingKeepsNumbering | src/delayed/toc.rs:149-175 | The heading with a given number is the same before and after binding, its contents bound by the two passes. |
| Headings.SuppressTitles | src/delayed/toc.rs:29-145 | The headings of a suppressed sequence are the original ones with suppressed contents, footnotes included. |
| Headings.ResolveTitles | src/delayed/toc.rs:29-145 | The same for the resolve pass. |
| Toc.EntryIndices | src/delayed/toc.rs:17-27 | The recorded entries are exactly the numbers of headings that hold delayed nodes, in order: k is recorded if and only if the segment at the k-th mark reached has a node. |
| Toc.EntriesAllLabelled | src/delayed/toc.rs:149-172 | There are as many labels as recorded entries, each for the heading recorded, with its contents bound. |
| Toc.ReplaceLabels | src/delayed/toc.rs:178-217 | Entries are numbered in reading order across nested lists, those with a label have their first contents link retitled, and nesting, shapes, attributes and everything else stay. |
| Toc.OutlineDetermines | src/delayed/toc.rs:178-217 | Printed contents are determined by their entries and the outline kept. |
| Toc.BindLabels | src/delayed/toc.rs:149-175 | The labels are rendered from the headings with those numbers, each the segment at its mark, and written into the entries of the contents; their outline and the rest of the tree stay. |
| CloseScan.FindForward | src/parsing/unmatched_close_scan.rs:180-196 | The slot answers as a fresh search from the start would. |
| CloseScan.FindForwardIgnoreAsciiCase | src/parsing/unmatched_close_scan.rs:201-220 | The same for a search that ignores case. |
| CloseScan.FindForwardLineBreak | src/parsing/unmatched_close_scan.rs:224-242 | The same for the next line break. |
| CloseScan.BoundsOfLine | src/parsing/unmatched_close_scan.rs:285-300 | Cached bounds serve every position from the line's start to its break. |
| CloseScan.UnmatchedCloseScanCache.UnmatchedLineBounds | src/parsing/unmatched_close_scan.rs:285-308 | The bounds are those of the line around the position. |
| CloseScan.UnmatchedCloseScanCache.CachedCloseMarker | src/parsing/unmatched_close_scan.rs:310-322 | The answer is the first `]]` from the position. |
| CloseScan.UnmatchedCloseScanCache.CachedCloseBracket | src/parsing/unmatched_close_scan.rs:324-336 | The answer is the first `]` from the position. |
| CloseScan.PrecomputeOwnerLine | src/parsing/unmatched_close_scan.rs:128-168 | The two lists hold all marks of the line, in order. |
| CloseScan.LastBelowIsLastMark | src/parsing/unmatched_close_scan.rs:170-178 | The binary search over a line's marks finds the last mark of the prefix. |
| CloseScan.ScanAnswers | src/parsing/consume.rs:303-341 | The scanned line answers as the uncached test does, for every closer on it. |
| CloseScan.UnmatchedMeans | src/parsing/consume.rs:303-341 | The uncached test holds exactly if on the closer's line an opener stands before it with no closer behind that opener. |
| CloseScan.ScanIgnoresCase | src/parsing/unmatched_close_scan.rs:112-122 | A scan taken under one spelling of an owner's name serves all of them. |
| CloseScan.UnmatchedCloseScanCache.CachedOwnerOpenerBefore | src/parsing/unmatched_close_scan.rs:338-360 | For the three owner names the answer is the uncached one, which is whether an unmatched opener stands before the closer; for others there is none. |
| CloseScan.DivInSlice | src/parsing/unmatched_close_scan.rs:371-386 | A closer before the next line break is a closer within the line. |
| CloseScan.UnmatchedCloseScanCache.WikidotDivClosesOnPhysicalLine | src/parsing/unmatched_close_scan.rs:371-386 | The answer is whether the rest of the line holds `[[/div]]` in any case. |
| CloseScan.EndBlockLinkRegionEnd | src/parsing/unmatched_close_scan.rs:251-282 | The loop with its comment skips and label flag is the region function; it ends at the first line break or, behind a blank, bracket outside the comments. |
| CloseScan.RegionEnds | src/parsing/unmatched_close_scan.rs:251-282 | The same for the function, in or out of a label. |
| CloseScan.OneRegionEnd | src/parsing/unmatched_close_scan.rs:251-282 | There is one such place. |
| CloseScan.RegionSkips | src/parsing/unmatched_close_scan.rs:395-401 | A region read from further on ends in the same place if no blank or comment lies between and no comment opener lies across. |
| CloseScan.CloserIsNotStraddled | src/parsing/rule/impls/link_single.rs:306-317 | At a closer, where the region is asked for, no comment opener lies across. |
| CloseScan.ReuseNeedsCloser | src/parsing/unmatched_close_scan.rs:395-405 | Elsewhere one can, and the reuse test would accept a wrong answer. |
| CloseScan.UnmatchedCloseScanCache.CachedEndBlockLinkRegion | src/parsing/unmatched_close_scan.rs:388-413 | At closers, in any order, the answer is that of a fresh scan: the first line break or, behind a blank, bracket outside the comments. |
| Variables.MatchEnd | src/includes/mod.rs:49-50 | A reference ends where the pattern says, and nowhere else. |
| Variables.NextMatch | src/includes/mod.rs:265-268 | The next match is the leftmost. |
| Patches.ApplyFromBack | src/includes/mod.rs:274-277 | Patches applied in place, last first, give one left-to-right pass. |
| Variables.ReplaceVariables | src/includes/mod.rs:262-278 | Every reference the include sets is filled, every other stays. |
| Variables.FillsReference | src/includes/mod.rs:262-278 | A reference is filled wherever it stands, and the text before it and behind it as if the rest were not there. |
| Variables.FillsNothing | src/includes/mod.rs:262-278 | A text none of whose references is filled stays. |
| IncludeArguments.ExpandArgumentExpressionOnce | src/includes/parse.rs:342-380 | All references are replaced at once, unless the result would exceed the limit, found out without building it. |
| IncludeArguments.ReferenceExpands | src/includes/parse.rs:342-380 | A reference to a bound name that is not banned becomes its value without the blanks behind it, any other stays; beyond the limit there is no expansion. |
| IncludeArguments.ExpandArgumentExpression | src/includes/parse.rs:317-340 | The loop is that many expansions, stopping when nothing changes or the limit is met. |
| IncludeArguments.ExpandedSize | src/includes/parse.rs:317-340 | Expansion never outgrows the limit. |
| IncludeArguments.ExpandedStops | src/includes/parse.rs:324-338 | It stops at a fixed point, at the limit, or with all rounds spent on changes. |
| IncludeArguments.SeedArguments | src/includes/parse.rs:232-251 | The seeds are, for each key, the first argument that needs no expansion, and every such key has one; they are no larger than the raw arguments. |
| IncludeArguments.ExpandRound | src/includes/parse.rs:254-304 | A round gathers what every argument contributes, own references kept where its value and binding both mention its key (`OwnReferenceStays`), or stops because that is too large. |
| IncludeArguments.OwnReferenceStays | src/includes/parse.rs:269-292 | Where an argument's value and the binding of its key both mention the key, the value is expanded as if the key were not bound; in every other case with all that is bound. An argument that comes to no more than its own reference contributes nothing. |
| IncludeArguments.OwnReferencesSettle | src/includes/parse.rs:228-315 | Arguments under static keys of their own, none mentioning another's key, settle as they are written, without those that are empty or only mention themselves. |
| IncludeArguments.RunIsUnique | src/includes/parse.rs:253-309 | Argument resolution has one course and one way to end. |
| IncludeArguments.GatherFirstWins | src/includes/parse.rs:248-303 | A key has the value of the first argument that contributes it. |
| IncludeArguments.ResolveIncludeArguments | src/includes/parse.rs:228-315 | For every argument list it ends within the round limit, with static keys and within the raw size plus 64 KiB, by a run that changes something every round; how it ended is exact. Arguments that mention no key but their own settle as written. |
| IncludeArguments.SettledIsFixed | src/includes/parse.rs:305-307 | A settled result holds what each argument contributes to it, the first for each key. |
| Quoted.StripQuotePrefix | src/includes/quoted.rs:126-139 | The loop finds where a quoted line's content begins. |
| Quoted.StrippedMeaning | src/includes/quoted.rs:126-146 | It is behind exactly that many carets and the blanks around them; a line is refused exactly when its quoting run has fewer. |
| Quoted.OffsetTotal | src/includes/quoted.rs:148-153 | Every normalised offset past the start has an original, after the same byte. |
| Quoted.OffsetIncreasing | src/includes/quoted.rs:148-153 | Larger offsets have larger originals. |
| Quoted.OffsetPartial | src/includes/quoted.rs:148-153 | No other offset has one. |
| Quoted.CollectLines | src/includes/quoted.rs:94-120 | The normalised text is the quoted lines' content up to the bound, the segments say where each line came from, and they tile it. |
| Quoted.QuotedLinesAre | src/includes/quoted.rs:94-120 | The lines collected are all of the quoted region, each behind exactly that many carets, up to the first that is quoted less or begins at the bound or later. |
| Quoted.NormalizeAndParse | src/includes/quoted.rs:87-125 | The answer is the original of the parsed block's end, after the same byte of the input, past the marker; there is none exactly if the block does not parse. |
| Quoted.ParseQuotedInclude | src/includes/quoted.rs:67-85 | The answer is the mapped end of the block parsed up to its first terminator, or, if that does not parse, of the block parsed over the whole quoted region. |
| Includes.FindIncludeEnd | src/includes/mod.rs:240-260 | The end is that of the first `]]` at a line's or the text's end within the bound. |
| Includes.ScanOpener | src/includes/mod.rs:95-154 | One turn of the scan takes, drops or gives up the opener found, for the reasons the parser gives; a dropped block ends where `QuotedEnd` says. |
| Includes.StepIsUnique | src/includes/mod.rs:95-154 | What becomes of an opener is determined, its end included. |
| Includes.ScanIncludes | src/includes/mod.rs:87-156 | The scan ends with ranges in order and apart; its turns follow on one another from the start of the text, and it stops when no opener with a terminator is left. |
| Includes.TraceIsUnique | src/includes/mod.rs:87-156 | A text has one complete sequence of turns, so what is replaced and what is deleted is determined. |
| Includes.SourceOrderApart | src/includes/mod.rs:87-156 | The ranges found are in order and apart. |
| Includes.SortedOnce | src/includes/mod.rs:164-176 | Sorting the two lists by start gives the order of the source, whatever sort is used. |
| Includes.SubstituteReplacements | src/includes/mod.rs:163-238 | Replacing from the back gives the left-to-right concatenation with pages in source order; the error is that of the last replacement that fails. |
| Includes.PageOnOwnLines | src/includes/mod.rs:201-231 | A page is set off by a line ending before it, unless it opens the text, and behind it, unless it ends the text, spelled as its neighbour; an empty page leaves nothing. |
| Includes.Include | src/includes/mod.rs:55-156 | The whole: disabled, failed fetches, wrong page counts and the substituted text. |
| BracketRun.BracketRunHeadGate.HasHeadTerminatorAtOrAfter | src/parsing/mod.rs:582-605 | For queries that do not go back, the answer is whether some token from there on can end a head, and no token is visited twice. |
| BracketRun.CandidateLexed | src/parsing/mod.rs:438-447 | Each re-split tiles the same text with tokens spelled as their kinds say. |
| BracketRun.CandidateReads | src/parsing/mod.rs:438-525 | What each re-split writes, token by token with its text; all other tokens stay. |
| BracketRun.FitsByKind | src/parsing/mod.rs:420-477 | In a token list of a text a reading fits exactly where the kinds of the tokens say so. |
| BracketRun.TryRepair | src/parsing/mod.rs:420-552 | The reading committed at a position is the one that fits, passes the gates and is preferred by the probes, and none is committed only if no reading is accepted; gate queries never go back. |
| BracketRun.ChoiceIsUnique | src/parsing/mod.rs:420-552 | At most one reading is accepted at a position, so the choice is determined. |
| BracketRun.RepairBracketRunTokenization | src/parsing/mod.rs:402-556 | The repair ends for all probe answers; it is the run of turns, each taking the accepted reading and going on behind it, and its result tiles the text; without a commit there is none. |
| BracketRun.TurnsGoOn | src/parsing/mod.rs:419-552 | Without a commit a turn goes on by one token, after one behind all it wrote; the tokens before and behind stay. |
| BracketRun.RepairKeepsText | src/parsing/mod.rs:402-556 | Original and repaired tokens read as the same text. |

## Left out

- The grammar rules, the rest of `src/parsing/consume.rs` and `src/parsing/mod.rs`, the lexer and the renderers: the lexer enters as the requirement that tokens tile the text and that opening brackets are spelled as their kinds say.
- `BracketRunNameGate` and the residual-opener test (`src/parsing/mod.rs:635-1010`): they depend on block lookup tables, and stand here as one boolean parameter that may remember its earlier turns.
- The include grammar, the include opener pattern, page fetching and missing-page texts: parameters. A missing-page text depends on the page alone here.
- `wikidot_seam_edits` and `native_seam_edits`: their edits are a parameter, but for the closing angle quotes; that all of them are quiet is not proved.
- TreeReading.SuppressReads: struck text is read by its markers alone, so its attributes are no part of a reading; line breaks in a row are one, and a last one is none, as the pass may take such a break; which it takes is `SuppressionLaws.StretchLaw`.
- Seam.FlushGroup: edits with the same range keep the order they are collected in; the program's sort leaves it open.
- FootnoteNormal.NormalizeIsNormal: where a block lies in a paragraph or a colour under a quote or another container, the pass brings up levels it never normalised; what those look like is not stated.
- Schema checks of `bind` and the building of delayed trees (`src/delayed.rs:520-556`, `src/delayed.rs:721-765`): table lookups in front of the modelled passes.
- Delayed elements: page references are their printed targets, images a number with their generated part; link attributes and targets are not kept apart.
- `Toc.VisitHeadings`: footnotes that refer to themselves in a circle are excluded; the program would not end on them.
- The link-head and link-failure memos (`src/parsing/unmatched_close_scan.rs:424-534`): keyed by token addresses and rule contexts.
- Total work of the forward-search slots: only their answers are stated.
- Repairs of footnote lists (`src/parsing/footnote.rs:19-209`): straight-line list surgery next to the modelled passes.
- Elements are reduced to the shapes the passes tell apart; elements whose children come in several sequences are one `Grid`, and so is every partial, one with a single sequence being a grid of one cell, as the footnote passes do not look into partials. A partial list item that holds a sublist is not represented.
- Thread stacks, recursion limits, logging, ownership of strings, and machine-word overflow of sizes.
