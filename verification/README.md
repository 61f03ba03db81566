# Verification of the behavioral pipeline

This project models, in Dafny 4.11, the part of flowmap that turns a flat bag of trace spans into a
byte-stable tree, compares such trees, and confronts observed effects with a static call graph. Each
step that the code performs in place or in a loop is a method proved against a specification; what
the repository promises about the step is then proved about the specification, for every input.

Check the whole project with `dafny verify dfyconfig.toml`.

## What is modelled

| files | component |
|---|---|
| `Capture`, `Ir`, `Scoping` | raw spans, the canonical tree, and scoping a span set to one run |
| `UnionFind`, `Siblings`, `Runs`, `Grouping`, `PostHoc`, `GapComponents`, `Ties`, `Racing` | ordering siblings: concurrency components by union-find with path halving, then sequential, concurrent and unordered groups in both ordering profiles |
| `Loops` | folding data-dependent repetition |
| `ParentForest`, `Assembly`, `Canonicalize`, `RunIndependence`, `Conserve`, `Shapes`, `Arrangement` | tree assembly, orphan surfacing, the completeness guard, and what the whole canonicalization guarantees |
| `Promote`, `Settling` | salience filtering as tree contraction, and when a second pass changes nothing |
| `Stitch`, `Slugs`, `Fragments`, `TraceLinks` | async stitching, slug propagation, and rooting each flow fragment |
| `Text`, `SqlTokens`, `SqlBlanks`, `SqlNormalize`, `SqlFixedPoint`, `SqlLexemes`, `SqlStatements` | the SQL tokenizer and normalizer, and what each kind of lexeme leaves in the statement |
| `Lis`, `Matching`, `Diff`, `Differing`, `Agreeing`, `Reporting` | the structural diff, what an empty one says, and what each entry is about |
| `Reach`, `Impeach`, `Identities`, `Observing`, `Severing`, `Auditing`, `EffectKeys`, `Witnesses` | collecting observed effects, the static/behavioral join, localization, and the repair gate |
| `Fqn`, `Spellings`, `Reading`, `Anchoring` | reconciling the two spellings of a function name, and anchoring a tag at a node |
| `Glob` | identity globs |
| `Sorting` | Go's `sort` package: stable sorting, sorted permutations, sorting by a comparator that may tie |

Main results, each for all inputs:

- **Run independence.** Permuting the captured spans and renaming their ids one to one leaves the
  specified tree, the guard's verdict and the whole outcome unchanged in both ordering profiles; it is
  what the code returns in process, and post hoc wherever siblings tie safely
  (`RunIndependence.RunIndependent`, `OutcomeRunFree`).
- **Races are read off the spans.** Two siblings race exactly when they ran on two workers of their
  parent or share an instant; what either profile makes of any two siblings is stated on their clocks
  and goroutines (`Racing.ConcurrentIff`, `TwoInProcess`, `TwoPostHoc`).
- **Nothing is dropped.** The guard accepts exactly the captures with distinct ids and no parent cycle
  (`Canonicalize.Complete`), and then every span's tree hangs in the result (`Conserve.EverySpanIsThere`).
- **Contraction preserves meaning.** Between kept nodes, `Filter` keeps every ordering claim and adds
  none, keeps every kept node with its loop status, and cannot panic on a canonical tree
  (`Promote.ContractKeepsClaims`, `ContractCounts`, `Canonicalize.Canonicalizer.Snapshot`).
- **Normalization is a fixed point** for the tokens and for the statement, on any input
  (`SqlTokens.TokenizerFixedPoint`, `SqlFixedPoint.NormalizeIdempotentIff`).
- **Nothing of a comment or a value is left**, in any context, and the verb and the table are the ones
  the statement names (`SqlLexemes.BlockCommentNeverLeaks`, `SqlTokens.LiteralNeverLeaks`,
  `SqlStatements.LineCommentsUnseen`, `TableIsBehindKeyword`).
- **The diff is symmetric**, what it reports as moved is minimal, and an empty diff is agreement
  (`Diff.DiffSymmetric`, `Lis.KeptIsLongest`, `Agreeing.EmptyDiffIff`); its entries are exactly those
  found at matched nodes, each about the operation it names (`Reporting.TraceEntries`, `LevelNames`).
- **A flow reaches what hangs below it**: on the captured spans, the tag of the nearest tagged ancestor,
  and a place in a fragment of that flow (`TraceLinks.FlowTravelsDown`, `LandsInFragment`).
- **Stitching creates and breaks no cycle**, propagation ends with the nearest tag, and every fragment
  is one tree (`Stitch.StitchKeepsCycles`, `Slugs.Propagate`, `Fragments.IngestYieldsOneTree`).
- **A blind spot is monotone and the repair gate is exact** (`Impeach.BlindSpotMonotone`,
  `Auditing.Extinguishes`, `Auditing.CandidateIsLocalized`).
- **One effect, one key** on the graph and in the trace, so a call that a root reaches is neither a
  contradiction nor a gap (`EffectKeys.DbKey`, `KeysTellEffects`, `LiveCallIsClean`).
- **Arrival order** reaches the observations exactly when two of them clash, and then there is a graph
  against which it reaches the audit report (`Observing.OrderFreeIff`, `Auditing.ReportFreeIff`).

Where a promise is false as stated, the model keeps the code and proves when it holds:

- the guard is reached only if the build comes back: on a repeated id the build can call itself for
  ever (`Assembly.RepeatedIdDiverges`); it comes back exactly when nothing reachable lies on a cycle
  of children (`AssemblyReturnsIff`), for which distinct ids suffice (`DistinctReturns`);
- post hoc, siblings with equal starts are sorted by span id, although the comments promise that ids
  never decide an order. Pair by pair the condition is exact: two siblings tie safely exactly when no
  sibling set that otherwise ties safely shows their ids (`Ties.TieSafeIff`, `IdsDecideUnsafeTies`).
  For one given sibling set, safe ties are sufficient; real intervals have them (`PostHoc.RealTiesSafe`);
- normalizing twice can change the operation and the table (`SqlFixedPoint.SecondPassRenames`,
  `FormFeedIsNoVerb`); it does not exactly under `LabelsSurvive`;
- filtering twice can change the tree (`Settling.SecondPassSplices`, `SecondPassFlattens`); it does
  not exactly under `Settled` (`Settling.SecondPassIff`);
- an empty diff is documented as identity; it is agreement (`Agreeing.EmptyDiffIff`), and a node that
  only changes its service is an input where the two differ (`ServiceUnseen`);
- two spellings of one function agree exactly outside value receivers named like a closure
  (`Spellings.TwoSpellingsOneKey`), such as a type `func1` (`ClosureTypeDisagrees`);
- a unique node hit can be the wrong node (`Anchoring.DottedPackageMisanchors`); it is exactly when
  the graph lacks the function and holds the one function that is spelled like it
  (`Anchoring.WrongAnchorIff`);
- a fragment is one tree exactly when its synthesized root does not take the id of one of its spans
  (`Fragments.FragmentIsOneTree`, with the input `ClashInput`);
- observations are independent of arrival order exactly when no two that are first with their text in
  their traces share it without being equal (`Observing.OrderFreeIff`); two traces with a separator in
  a name are the input where they are not (`ArrivalDecides`). A clash over an effect that contradicts
  the graph reaches the report (`Auditing.ClashReachesReport`);
- the memo of the localizer is keyed by the joined emitter names: it is sound exactly when that text
  tells effects apart as far as it matters (`Severing.MemoSoundIff`), which it does for named emitters
  without the separator, and not in `SharedKey`.

## How to read it

- Times are caller-clock instants as natural numbers, 0 meaning unset. Strings are sequences of
  characters; case mapping and blanks are the ASCII ones.
- A subtree signature is a parameter that identifies the subtree (`Siblings.Injective`); the code uses
  canonical JSON bytes.
- The header of a canonical span (operation key, peer, attributes, tier) is a parameter computed from
  the part of a span that holds neither ids nor clock (`Capture.Payload`).
- Trees are stated for any node content, so that node identity, where a theorem needs it, is part of
  the content.

## Model

| member | source | states |
|---|---|---|
| `Racing.ConcurrentIff` | capture/capture.go:312-346 | two siblings race exactly when parent and both are on three different known goroutines, whatever the clocks say, or their half-open intervals share an instant; an interval that takes no time races with what it stands strictly inside |
| `Racing.SameWorkerIsSerial` | capture/capture.go:318-338 | two spans on one worker, one done before the other starts, are no race |
| `Racing.TwoInProcess` | internal/canon/canon.go:194-309 | for any clocks and goroutines two siblings are one racing group if they raced, else two steps in the order of their starts if both are known and differ, else one group of unknown order |
| `Racing.WorkersRace` | internal/canon/canon.go:183-309 | two siblings dispatched onto two workers are one racing group, however their intervals fall |
| `Racing.OneWorkerSteps` | capture/capture.go:318-338 | back to back on one worker they are two steps in start order, in whichever order they were captured |
| `Racing.TwoPostHoc` | internal/canon/canon.go:324-437 | post hoc two siblings are one racing group if they overlap, two steps if the gap between them is known and above the guard, else one group of unknown order |
| `Racing.WorkersRaceInTree` | internal/canon/canon.go:161-309 | and so two different children on two workers are one racing group under their parent in the built tree |
| `UnionFind.Find` | internal/canon/canon.go:228-234 | path halving returns the representative of a position and moves no position to another representative |
| `UnionFind.Union` | internal/canon/canon.go:235-243 | one union step gives the two components one root, the second one's, and moves no other position to another root |
| `UnionFind.MergeLabels` | internal/canon/canon.go:237-239 | relabelling one root merges exactly the two components an edge touches, components meaning chains of adjacent positions |
| `Siblings.LabelComponents` | internal/canon/canon.go:222-243 | after the double loop two siblings share a root exactly when a chain of pairwise concurrent siblings joins them |
| `Siblings.CollectComponents` | internal/canon/canon.go:245-256 | the bucketing loop lists each component once, ordered by its first member |
| `Siblings.CompsPattern` | internal/canon/canon.go:247-256 | which representative union-find picked for a component cannot be seen in the component list |
| `Siblings.BySigConnex` | internal/canon/canon.go:693-704 | the canonical sibling order ties only on equal subtrees |
| `Arrangement.MembersInOrder` | internal/canon/canon.go:690-728 | in both profiles the members of every group are listed by operation in byte order, equal operations by signature |
| `Runs.BuildUnits` | internal/canon/canon.go:260-278 | each component becomes a unit with its members in canonical order, its earliest start, latest end and whether all its clocks are set |
| `Runs.CutRuns` | internal/canon/canon.go:288-307 | the run-cutting loop emits one group per maximal run of units without a boundary between neighbours |
| `Runs.BlocksAreEmit` | internal/canon/canon.go:288-307 | cutting a unit list at boundaries is the same as grouping siblings by a key and listing the groups in key order |
| `Grouping.OrderInProcess` | internal/canon/canon.go:194-309 | in process the groups are those of the earliest start of each concurrency component, whatever the sort did with ties |
| `Grouping.InProcessRunFree` | internal/canon/canon.go:205-220 | the in-process groups depend on the children only as an anonymous collection: neither ids nor arrival order |
| `PostHoc.OrderPostHoc` | internal/canon/canon.go:324-437 | on any input the post-hoc groups are the start-sorted units cut at reliable gaps; when ties are safe they equal the order-free keyed groups |
| `PostHoc.HullsDisjoint` | internal/canon/canon.go:370-396 | of two overlap components the one that starts first has ended before the other starts |
| `PostHoc.PostHocRunFree` | internal/canon/canon.go:324-437 | the post-hoc groups depend on the children only as an anonymous collection |
| `GapComponents.GroupsAreNearComponents` | internal/canon/canon.go:398-435 | two timed siblings share a post-hoc group exactly when a chain of siblings, each within the guard of the next, joins them |
| `GapComponents.CrossGroupGap` | internal/canon/canon.go:410-435 | siblings in different post-hoc groups are ordered with a gap above the guard |
| `GapComponents.UntimedJoinFirst` | internal/canon/canon.go:411-413 | a sibling without a clock joins the group of the earliest timed sibling |
| `GapComponents.RacersShareGroup` | internal/canon/canon.go:285-307 | the in-process cut never separates siblings that raced |
| `PostHoc.RealTiesSafe` | internal/canon/canon.go:327-332 | a capture whose spans each end after they start, or carry no clock, has safe ties only |
| `Ties.IdsDecideUnsafeTies` | internal/canon/canon.go:327-332 | for every pair of tied siblings outside the tie condition some sibling set comes out differently when the two ids are swapped |
| `Ties.TieSafeIff` | internal/canon/canon.go:327-332 | the tie condition is exact pair by pair: two siblings tie safely exactly when, in every sibling set whose other ties are safe, swapping their ids changes no group; for one given sibling set safe ties are sufficient |
| `Loops.CollapseCollapses` | internal/canon/canon.go:444-492 | after loop collapse no racing or unordered pair is equal and no step repeats the one before it |
| `Loops.CollapseIdempotent` | internal/canon/canon.go:444-492 | a second collapse changes nothing |
| `Loops.CollapseKeepsSubtrees` | internal/canon/canon.go:444-492 | the set of child subtrees is kept |
| `Loops.CollapseRunCountBlind` | internal/canon/canon.go:468-490 | a step repeated n >= 2 or m >= 2 times in a row gives the same groups |
| `Loops.CollapseGroupCountBlind` | internal/canon/canon.go:445-467 | a member repeated n >= 2 or m >= 2 times in a racing or unordered group gives the same group |
| `Arrangement.GroupMark` | internal/canon/canon.go:445-467 | a racing or unordered group is marked "1..*" exactly when it holds a subtree twice, and keeps what it claims |
| `Arrangement.RunsFold` | internal/canon/canon.go:468-490 | folding leaves one group for each run of equal steps, its first, marked "1..*" exactly when the run is longer than one |
| `Canonicalize.Canonicalizer.DedupMembers` | internal/canon/canon.go:448-466 | keeps the first copy of each subtree and notes exactly the operations that repeat |
| `Canonicalize.Canonicalizer.FoldSteps` | internal/canon/canon.go:468-490 | folds each run of equal steps into one and notes exactly the operations of the folded runs |
| `Canonicalize.Canonicalizer.CollapseLoops` | internal/canon/canon.go:444-492 | computes the collapse and grows the loop manifest by exactly the operations it hides |
| `Assembly.BuildIndex` | internal/canon/canon.go:59-70 | byID and childrenOf hold the last span of each id and the children of each known id in capture order |
| `Assembly.OrphanOrderFree` | internal/canon/canon.go:614-623 | however the sort leaves start ties, the orphan groups come out the same |
| `Canonicalize.WalkDown` | internal/canon/canon.go:638-647 | the recursive walk ends on any input, cycles included; it visits only what hangs below its start and leaves no child of a visited id out |
| `Canonicalize.ReachableIds` | internal/canon/canon.go:636-658 | on any input the visited ids are exactly those that hang from the root or from the last span under some id whose parent is absent |
| `Canonicalize.Complete` | internal/canon/canon.go:84-95 | the guard accepts exactly the captures with distinct ids and an acyclic parent relation, for any root once the build has come back, and for a root with absent parent on any input |
| `ParentForest.AcyclicIffGrounded` | internal/canon/canon.go:84-92 | a parent relation has no cycle exactly when every id has a way out of the set |
| `Assembly.ReturnsIff` | internal/canon/canon.go:161-181 | the build recursion from an id comes back exactly when no cycle of children hangs below the id; nothing bounds it but the capture |
| `Assembly.AssemblyReturnsIff` | internal/canon/canon.go:77-82 | build and orphan surfacing come back exactly when nothing that hangs from the root or an orphan head lies on a cycle of children |
| `Assembly.DistinctReturns` | internal/canon/canon.go:77-82 | distinct ids are enough for that, parent cycles or not, so a caller can check them first |
| `Assembly.RepeatedIdDiverges` | internal/canon/canon.go:79-95 | with spans r, a under r and a second a under a the build never comes back, so the guard that would refuse the repeated id is not reached |
| `Assembly.BuildUnfolds` | internal/canon/canon.go:161-181 | where it comes back, the tree of a span is its own header over its listed children built, grouped and collapsed |
| `Arrangement.OrphansComeLast` | internal/canon/canon.go:596-625 | the assembled root has its own children first, then one plain step for every orphan head, by start, then operation, then signature |
| `Arrangement.PayloadIsTheRest` | internal/canon/canon.go:161-181 | the header of a node is computed from all of its span but ids, clock, links and goroutine |
| `Canonicalize.Canonicalizer.BuildSpan` | internal/canon/canon.go:161-181 | wherever the recursion comes back, repeated ids included, builds the canonical tree of a span; every tree it can return is well-formed |
| `Canonicalize.Canonicalizer.OrderSiblings` | internal/canon/canon.go:194-202 | picks the ordering profile; the groups are well-formed in both |
| `Canonicalize.Canonicalizer.SurfaceOrphans` | internal/canon/canon.go:596-625 | every head without a captured parent becomes one trailing step, before any guard has looked at the ids |
| `Canonicalize.Canonicalizer.Run` | internal/canon/canon.go:42-95 | in the code's order, build and orphans first: where these come back, refuses exactly the captures with repeated ids or a parent cycle and otherwise returns the root tree with every orphan subtree attached |
| `Canonicalize.Canonicalizer.Snapshot` | internal/canon/canon.go:42-137 | the whole pipeline under the same condition: acceptance is exact, the contraction never panics, and the result is the contracted assembly |
| `RunIndependence.RunIndependent` | internal/canon/canon.go:161-437 | permuting the spans and renaming their ids one to one leaves the specified tree unchanged, in both ordering profiles, and whether it comes back at all; it is the tree BuildSpan returns in process always and post hoc under the clock condition ClockOk, which carries over |
| `RunIndependence.OutcomeRunFree` | internal/canon/canon.go:42-95 | so does the whole outcome, refusals included, and so does the clock condition under which Run has this outcome |
| `RunIndependence.GuardRunFree` | internal/canon/canon.go:93-95 | neither does the guard's verdict change |
| `Conserve.EverySpanIsThere` | internal/canon/canon.go:77-95 | on every accepted capture the tree of each span hangs in the assembled tree and carries that span's own header |
| `Shapes.CutIsShaped` | internal/canon/canon.go:414-436 | post-hoc groups are well-formed whatever order ties were left in |
| `Shapes.EmitShaped` | internal/canon/canon.go:288-308 | keyed groups are well-formed: plain groups have one member, no group claims two orders |
| `Shapes.CollapseShaped` | internal/canon/canon.go:444-492 | loop collapse keeps groups well-formed |
| `Promote.CollectSurvivors` | internal/canon/promote/promote.go:101-118 | the collecting loop yields the kept members, the losslessly promoted children, and the wrappers that had to stay |
| `Promote.AppendSpliced` | internal/canon/promote/promote.go:68-70 | a dropped step's child groups take its slot and carry its multiplicity |
| `Promote.FillSlot` | internal/canon/promote/promote.go:40-72 | one turn of the refill loop; it fails exactly on a plain group that is not one step |
| `Promote.FilterMembers` | internal/canon/promote/promote.go:33-37 | descendants are contracted first |
| `Promote.FilterSpan` | internal/canon/promote/promote.go:28-74 | filtering panics exactly on trees with an ill-formed plain group and otherwise is the contraction |
| `Promote.ContractShape` | internal/canon/promote/promote.go:28-74 | well-formed groups in, well-formed groups out |
| `Promote.ContractKeepsClaims` | internal/canon/promote/promote.go:28-160 | for any two kept nodes the contracted tree claims exactly the relations the original claims: ancestry, sequence, race, unknown order |
| `Promote.ContractCounts` | internal/canon/promote/promote.go:28-170 | each kept node occurs exactly as often as before, and as often below a "1..*" group |
| `Arrangement.WhatMattersStays` | internal/canon/canon.go:98-110 | in the snapshot every node at or above the salience threshold, and every node with a function tag, is there as often as before |
| `Arrangement.OtherStepsGo` | internal/canon/canon.go:98-110 | a step that is neither is taken out |
| `Arrangement.RaceFiltered` | internal/canon/promote/promote.go:33-72 | of a race or an unordered group the members that are left keep its claim and its mark, one alone is a plain step, none is no group; a dropped member leaves nothing, or the children of its one group if that is unmarked and claims nothing else, or itself |
| `Arrangement.StepFiltered` | internal/canon/promote/promote.go:60-72 | a dropped step leaves its children's groups in its place, each with its own mark or else the step's |
| `Arrangement.FilteredInOrder` | internal/canon/promote/promote.go:52-72 | after filtering a racing or unordered group has at least two members, by operation in byte order |
| `Settling.SecondPassIff` | internal/canon/promote/promote.go:28-160 | a second pass changes nothing exactly when no group of the first strands a wrapper: alone in what was a race or an unordered group, or handed by a wrapper around it to a group that would flatten it |
| `Settling.FixedIffStable` | internal/canon/promote/promote.go:28-160 | among the trees a pass can leave, the fixed points are those whose plain steps are kept nodes and whose racing or unordered members stay |
| `Settling.KeptRacesSettle` | internal/canon/promote/promote.go:28-160 | where only plain steps are ever dropped, one pass is enough |
| `Settling.LoneWrapperGoes` | internal/canon/promote/promote.go:122-123 | for any tree: a retained wrapper left alone in its race or unordered group is taken out by a second pass |
| `Settling.SecondPassSplices` | internal/canon/promote/promote.go:122-123 | an input where it happens |
| `Settling.SecondPassFlattens` | internal/canon/promote/promote.go:107-112 | an input where a retained wrapper is moved into a group that flattens it on a second pass |
| `Stitch.GlobalKeyInjective` | internal/ingest/ingest.go:313-323 | keying span ids by trace keeps distinct spans distinct when trace ids hold no separator |
| `TraceLinks.StitchedIds` | internal/ingest/ingest.go:313-323 | where spans name their trace, the id of a stitched span is trace, bar, span id |
| `TraceLinks.ParentsSurvive` | internal/ingest/ingest.go:344-356 | a parent captured in the same trace is the parent of the stitched span |
| `TraceLinks.ParentsIff` | internal/ingest/ingest.go:344-356 | and where traces are named without a bar, nothing else is the parent of a span that had one |
| `TraceLinks.TracedKeyed` | internal/ingest/ingest.go:313-323 | span ids that do not repeat within their trace give distinct keys |
| `TraceLinks.StitchKeepsContent` | internal/ingest/ingest.go:340-439 | stitching leaves every span its operation, clock and attributes; only the flow tag may be added, and only where none is named |
| `Stitch.ReachesUp` | internal/ingest/ingest.go:298-311 | within its hop bound the ancestor walk is exact, also when the input has cycles |
| `Stitch.CheckLink` | internal/ingest/ingest.go:378-385 | a link may be followed exactly when its target is known and not below the span itself |
| `Stitch.ChooseLink` | internal/ingest/ingest.go:372-390 | the first valid link to a flow-tagged span wins, else the first valid link |
| `Stitch.GraftKeepsCycles` | internal/ingest/ingest.go:380-392 | giving a parentless id a parent that is not below it moves no id onto or off a cycle |
| `Stitch.StitchKeepsCycles` | internal/ingest/ingest.go:372-398 | after the whole link pass exactly the same ids lie on parent cycles as before |
| `Stitch.StitchKeepsSpans` | internal/ingest/ingest.go:372-398 | spans that had a parent are untouched, and a reparented root differs in parent and mark only and hangs on a known span |
| `Stitch.StitchCountsRoots` | internal/ingest/ingest.go:391-397 | the number of roots falls by exactly the number of async marks |
| `TraceLinks.RootsFollowLinks` | internal/ingest/ingest.go:372-398 | a captured root that gets a parent is marked and gets a span that one of its own links names; another root stays a root |
| `TraceLinks.LinkChosen` | internal/ingest/ingest.go:365-390 | of the links to a known span that is not below the root, the first to a flow-tagged span is chosen, else the first, else none |
| `Slugs.RekeyAll` | internal/ingest/ingest.go:344-356 | ids and parents are rewritten to global keys in place, with the index and the original roots |
| `Slugs.LinkRoots` | internal/ingest/ingest.go:372-398 | the in-place pass computes the link pass, each root against the parents chosen so far |
| `Slugs.NearestTag` | internal/ingest/ingest.go:410-421 | inheriting a slug means: some ancestor or self carries the tag and none nearer does |
| `Slugs.CollectTags` | internal/ingest/ingest.go:404-409 | starts from the tags the spans arrive with |
| `Slugs.PropagateOnce` | internal/ingest/ingest.go:411-420 | a sweep adds only inherited slugs, and one that changes nothing has closed the slugs under inheritance |
| `Slugs.Propagate` | internal/ingest/ingest.go:404-421 | the fixpoint loop ends on every input and gives each span the slug of its nearest tagged ancestor or self |
| `Slugs.UntaggedStaysEmpty` | internal/ingest/ingest.go:410-421 | a chain or cycle without a tag belongs to no flow |
| `Slugs.WriteBack` | internal/ingest/ingest.go:426-437 | a recovered slug is written where the span names no flow itself |
| `Slugs.StitchAll` | internal/ingest/ingest.go:340-439 | the stitched spans are the linked spans with the slug of their nearest tagged ancestor |
| `TraceLinks.FlowTravelsDown` | internal/ingest/ingest.go:400-437 | on the captured spans: a span names the flow of the nearest tagged span up its captured parents |
| `Fragments.FindParentless` | internal/ingest/ingest.go:220-229 | collects exactly the positions whose parent is outside the fragment, in order |
| `Fragments.MixedTrigger` | internal/ingest/ingest.go:244-262 | any server makes the fragment HTTP-triggered, else any consumer event-triggered |
| `Fragments.Reown` | internal/ingest/ingest.go:269-271 | exactly the parentless spans are hung under the synthesized root |
| `Fragments.AssembleRoot` | internal/ingest/ingest.go:219-274 | a single server or consumer entry is the root, anything else gets a synthesized one |
| `Fragments.FragmentIsOneTree` | internal/ingest/ingest.go:219-274 | an acyclic fragment becomes one tree that the completeness guard accepts, with no orphan head, exactly when no synthesized root takes an id the fragment has already |
| `Fragments.ClashInput` | internal/ingest/ingest.go:250-273 | an input where it does not: one parentless span captured under the id of the synthesized root |
| `Fragments.IngestYieldsOneTree` | internal/ingest/ingest.go:51-107 | for acyclic input with distinct ids every fragment of either reduction is such a tree, but for such a clash |
| `Fragments.ExactlyOneFragment` | internal/ingest/ingest.go:51-79 | a span that belongs to a flow is in its own fragment and in no other; only a synthesized root of the same id is mistaken for it |
| `TraceLinks.LandsInFragment` | internal/ingest/ingest.go:51-79 | such a span is in the fragment of that flow and of its own service |
| `TraceLinks.LandsInFlow` | internal/ingest/ingest.go:158-211 | and in the whole flow of that name |
| `TraceLinks.FragmentsInOrder` | internal/ingest/ingest.go:67-73 | fragments are listed in byte order of flow, then service |
| `TraceLinks.TriggerIs` | internal/ingest/ingest.go:231-262 | a fragment is event-triggered exactly when a consumer and no server is among its parentless spans |
| `TraceLinks.EntryIsKept` | internal/ingest/ingest.go:219-243 | a root is kept exactly when the only parentless span is a server or a consumer, and otherwise made up |
| `TraceLinks.RootNamedAfter` | internal/ingest/ingest.go:89-107 | the made-up root is named after the service per service, after the flow for whole flows |
| `TraceLinks.FlowLabel` | internal/ingest/ingest.go:185-211 | a whole flow is labelled by its root's service, else by the one service its spans name, else by its own name |
| `TraceLinks.SynthesizedRootIs` | internal/ingest/ingest.go:245-273 | a synthesized root is an internal span named after the fragment, last in the list, with nothing else to it |
| `Fragments.CommonService` | internal/ingest/ingest.go:276-293 | the one service the spans agree on, or none |
| `Fragments.Partition` | internal/ingest/ingest.go:53-66 | buckets by key in capture order, keys listed once |
| `Fragments.Group` | internal/ingest/ingest.go:51-79 | one fragment per flow and service, in key order, each one tree but for a clash |
| `Fragments.WholeFlows` | internal/ingest/ingest.go:158-211 | one fragment per flow, in slug order, each one tree but for a clash, labelled by entry service, common service or slug |
| `Scoping.Scope` | capture/capture.go:231-257 | the run's spans in sorted order, and the entry exactly when one span's parent lies outside |
| `Scoping.ScopeOrderFree` | capture/capture.go:285-310 | for distinct ids neither the scoped spans nor the entry depend on arrival order |
| `Arrangement.ScopedAre` | capture/capture.go:231-239 | scoping returns each span of the run as often as it was captured and no other, the run being named by the span's baggage |
| `Arrangement.SpanOrderIs` | capture/capture.go:285-310 | the order is by start, name, kind, parent and id, texts and kind names in byte order |
| `Arrangement.EntryFoundIff` | capture/capture.go:240-257 | an entry is found exactly when one place in the list, and only one, has its parent outside |
| `Scoping.ScopedEntryIsWhole` | capture/capture.go:240-256 | a found entry is one the assembly can start from, with no orphan head beside it |
| `Scoping.AgreedStamp` | capture/capture.go:160-173 | agreement fails exactly when two non-empty stamps differ; otherwise the stamp is the one that occurs, if any |
| `SqlTokens.SkipBlock` | internal/canon/sql/sql.go:65-86 | block comments nest, an unterminated one takes the rest |
| `SqlTokens.SkipLiteral` | internal/canon/sql/sql.go:87-110 | a literal ends at the first quote that is neither doubled nor escaped |
| `SqlTokens.ReadIdent` | internal/canon/sql/sql.go:119-134 | a quoted identifier is unwrapped with doubled delimiters undone |
| `SqlTokens.DollarQuoteDelim` | internal/canon/sql/sql.go:329-349 | length of a dollar-quote delimiter, or 0 |
| `SqlTokens.SkipDollar` | internal/canon/sql/sql.go:136-171 | a closed dollar quote, an unterminated one at a token boundary, or a placeholder run |
| `SqlTokens.Lex` | internal/canon/sql/sql.go:52-206 | one turn of the tokenizer's switch yields the next lexeme and where it ends |
| `SqlTokens.Tokenize` | internal/canon/sql/sql.go:47-209 | the one-pass tokenizer computes the token stream of the input |
| `SqlTokens.TokensAreTokens` | internal/canon/sql/sql.go:47-209 | every output token is a placeholder, an upper-case keyword, a plain lower-case name, a re-quoted name or one punctuation byte |
| `SqlTokens.ReadToken` | internal/canon/sql/sql.go:365-408 | each such token, followed by a space or the end, is read back as itself |
| `SqlTokens.JoinReadsBack` | internal/canon/sql/sql.go:47-209 | any list of tokens joined by spaces is read back unchanged |
| `SqlTokens.TokenizerFixedPoint` | internal/canon/sql/sql.go:365-392 | tokenizing the joined tokens of any input gives the same tokens |
| `SqlTokens.LiteralNeverLeaks` | internal/canon/sql/sql.go:87-111 | whatever a literal holds, backslash escapes and doubled quotes included, and whatever stands before and behind it, only one placeholder of it is left and the tokens behind are those of the text behind |
| `SqlLexemes.OpenLiteralTakesTheRest` | internal/canon/sql/sql.go:87-111 | a literal that is not closed takes the rest of the text with it, also behind a last backslash |
| `SqlLexemes.LineCommentNeverLeaks` | internal/canon/sql/sql.go:56-64 | whatever a line comment holds, nothing of it is left: the tokens are those behind the line feed, or none |
| `SqlLexemes.BlockCommentNeverLeaks` | internal/canon/sql/sql.go:65-86 | whatever a closed block comment holds and however deep it nests, nothing of it is left |
| `SqlLexemes.OpenCommentTakesTheRest` | internal/canon/sql/sql.go:65-86 | a block comment that is not closed, at whatever depth, takes the rest of the text with it |
| `SqlLexemes.NumberNeverLeaks` | internal/canon/sql/sql.go:182-186 | a number is one placeholder |
| `SqlLexemes.NamedPlaceholder` | internal/canon/sql/sql.go:172-178 | so is a driver placeholder with its name |
| `SqlLexemes.NumberedPlaceholder` | internal/canon/sql/sql.go:165-171 | and a numbered one |
| `SqlLexemes.OpenDollarQuoteTakesTheRest` | internal/canon/sql/sql.go:153-164 | a dollar quote that is never closed takes the rest with it at a token boundary |
| `SqlLexemes.GluedDollarIsNoQuote` | internal/canon/sql/sql.go:156-171 | glued to an identifier byte, a dollar sign included, it is part of the name, and the text behind is read on |
| `SqlLexemes.WordFolds` | internal/canon/sql/sql.go:187-197 | a word is one token, the same but for case: a reserved word in capitals, any other name without |
| `SqlLexemes.CaseNeverMatters` | internal/canon/sql/sql.go:187-197 | two spellings of a word that differ in case are one token |
| `SqlLexemes.QuotedNameFolds` | internal/canon/sql/sql.go:119-134 | a name in either kind of quotes is one token: the bare lower-case name where it could stand bare, else the lower-case name in double quotes |
| `SqlLexemes.OtherByteStays` | internal/canon/sql/sql.go:198-206 | a byte that starts none of these is a token of its own |
| `SqlLexemes.BlankLeavesNothing` | internal/canon/sql/sql.go:53-55 | the four blanks are gaps |
| `SqlTokens.DollarQuoteNeverLeaks` | internal/canon/sql/sql.go:142-152 | a closed dollar quote is one placeholder whatever precedes it and whatever it holds |
| `SqlLexemes.DelimIs` | internal/canon/sql/sql.go:329-349 | a tag between two dollar signs, the tag empty or a name, opens a dollar quote |
| `SqlLexemes.DelimOnly` | internal/canon/sql/sql.go:329-349 | and nothing else does |
| `SqlNormalize.IdentAfterLoop` | internal/canon/sql/sql.go:312-321 | the first table identifier right behind one of the given keywords |
| `SqlNormalize.UpdateTableLoop` | internal/canon/sql/sql.go:296-308 | the first identifier of an UPDATE behind any qualifier words |
| `SqlNormalize.CollapseIdempotent` | internal/canon/sql/sql.go:218-234 | collapsing placeholder lists twice is collapsing once |
| `SqlNormalize.CollapseKeepsLabels` | internal/canon/sql/sql.go:236-256 | collapsing moves neither the verb nor the table |
| `SqlFixedPoint.StatementReadsBack` | internal/canon/sql/sql.go:228-234 | tokenizing the squeezed and trimmed statement gives exactly the final tokens: lists collapsed, form feeds gone, quoted names squeezed, vertical tabs off the ends |
| `SqlFixedPoint.AssembledIs` | internal/canon/sql/sql.go:228-234 | squeezing and trimming the text is squeezing and stripping its tokens |
| `SqlFixedPoint.FormFeedIsAGap` | internal/canon/sql/sql.go:221-234 | taking form feed tokens out before the join leaves the squeezed and trimmed text as it is |
| `SqlFixedPoint.NormalizeIdempotentIff` | internal/canon/sql/sql.go:34-40 | the statement is a fixed point of normalization for any input; operation and table survive the second pass exactly when the first token is no form feed, vertical tab or name with a blank run, and the table found past form feeds, squeezed, is the one found |
| `SqlFixedPoint.SecondPassRenames` | internal/canon/sql/sql.go:228-234 | an input where the table does not survive: a quoted name with two blanks |
| `SqlFixedPoint.FormFeedIsNoVerb` | internal/canon/sql/sql.go:236-256 | a statement that starts with a form feed has it for its operation, and loses it on the second pass |
| `SqlFixedPoint.Normalize` | internal/canon/sql/sql.go:35-40 | statement, operation and table of the input; normalizing the statement gives the statement again, and the whole result exactly under that condition |
| `SqlNormalize.InListCountBlind` | internal/canon/sql/sql.go:212-218 | an IN list normalizes the same whatever its length |
| `SqlNormalize.ValuesCountBlind` | internal/canon/sql/sql.go:212-219 | a VALUES clause normalizes the same whatever its rows and their sizes |
| `SqlNormalize.ArityKept` | internal/canon/sql/sql.go:212-217 | without the two keywords no argument list is touched |
| `SqlNormalize.InListCollapsed` | internal/canon/sql/sql.go:212-219 | an IN list of any length becomes (?) |
| `SqlNormalize.ValuesCollapsed` | internal/canon/sql/sql.go:212-219 | VALUES rows of any number and size become one (?) |
| `SqlStatements.LineCommentsUnseen` | internal/canon/sql/sql.go:56-64 | a line comment in front of a statement or between two tokens changes neither statement nor operation nor table |
| `SqlStatements.BlockCommentsUnseen` | internal/canon/sql/sql.go:65-86 | nor does a block comment |
| `SqlStatements.LiteralsUnseen` | internal/canon/sql/sql.go:87-111 | nor does what a literal holds |
| `SqlStatements.NumbersUnseen` | internal/canon/sql/sql.go:182-186 | nor does which number is written |
| `SqlStatements.OperationIsVerb` | internal/canon/sql/sql.go:236-243 | the operation is the first word, a reserved one in capitals |
| `SqlStatements.LabelsAreOfTokens` | internal/canon/sql/sql.go:34-40 | operation and table are read off the tokens of the text |
| `SqlStatements.TableIsBehindKeyword` | internal/canon/sql/sql.go:238-262 | the verb decides which keywords introduce the table; the table is the first name right behind one of them, or none |
| `SqlStatements.IdentAfterIs` | internal/canon/sql/sql.go:312-321 | the first position where a keyword is followed by a table name gives the name |
| `SqlStatements.UpdateTableIs` | internal/canon/sql/sql.go:296-308 | an UPDATE names its table behind any of the three qualifiers |
| `SqlStatements.LabelWordsAreReserved` | internal/canon/sql/sql.go:236-262 | the verbs and keywords that labels and lists depend on are reserved words, and none is ever taken for a table |
| `SqlStatements.TableNameIs` | internal/canon/sql/sql.go:271-292 | a bare or quoted name token gives its name in table position |
| `SqlStatements.NoTableName` | internal/canon/sql/sql.go:271-285 | reserved words, placeholders and punctuation give none |
| `SqlStatements.RenderIs` | internal/canon/sql/sql.go:228-234 | tokens are written with single spaces, a collapsed list as one word |
| `SqlStatements.StatementTrimmed` | internal/canon/sql/sql.go:228-234 | a statement has no blank at either end |
| `SqlNormalize.QuotedTableKeysAsBare` | internal/canon/sql/sql.go:258-292 | however a name was quoted, the table position yields its lower-cased bytes |
| `Lis.FillTables` | internal/diff/diff.go:331-344 | the two loops fill dp and prev with the recurrence and find the first best end |
| `Lis.LisKept` | internal/diff/diff.go:325-349 | the kept positions are those of one chain through prev |
| `Lis.KeptIsLongest` | internal/diff/diff.go:322-349 | the kept positions are increasing and no increasing selection is longer |
| `Matching.MatchSlots` | internal/diff/diff.go:297-320 | the queues pair the n-th occurrence of an operation on one side with the n-th on the other; the rest is added or removed |
| `Matching.PartnerIff` | internal/diff/diff.go:298-313 | two positions are matched exactly when operation and rank agree |
| `Matching.PairsSwap` | internal/diff/diff.go:297-320 | seen from the other side the pairs are the same pairs swapped |
| `Differing.ChangedAttrKeys` | internal/diff/diff.go:390-409 | the keys the two maps disagree on, in byte order, whatever order the maps are walked in |
| `Differing.FlattenLoop` | internal/diff/diff.go:280-290 | children with the order and multiplicity of their group and their position |
| `Differing.Differ.CompareAttrs` | internal/diff/diff.go:133-173 | and one per differing attribute |
| `Differing.Differ.ReportMoved` | internal/diff/diff.go:198-212 | reports exactly the sequential pairs outside the kept subsequence |
| `Differing.Differ.DiffChildren` | internal/diff/diff.go:177-226 | appends what two child lists add: removals, additions, moves, tag changes and the recursive differences |
| `Differing.DiffTraces` | internal/diff/diff.go:79-114 | the change set of two traces, stably sorted by priority |
| `Diff.AttrSilentIff` | internal/diff/diff.go:133-173 | two matched nodes raise no attribute change exactly when they differ in nothing but the owning service |
| `Diff.KeptMirrored` | internal/diff/diff.go:198-207 | the longest common order has the same length seen from either trace |
| `Diff.OwnTally` | internal/diff/diff.go:183-212 | one level adds one removal per unmatched old child, one addition per unmatched new one, and as many moves as sequential pairs exceed the longest increasing subsequence |
| `Diff.NodesSymmetric` | internal/diff/diff.go:125-226 | diffing two nodes the other way round finds as many changes of each type, additions and removals swapped |
| `Diff.DiffSymmetric` | internal/diff/diff.go:79-114 | so does diffing two traces |
| `Diff.DiffSelf` | internal/diff/diff.go:76-114 | diffing a trace with itself reports nothing |
| `Reporting.LevelNames` | internal/diff/diff.go:177-212 | for one level of children: the operations of the removed entries are those of the old list less those of the new, each entry with operation and priority of the child it is about, the added ones the other way round; moved entries name exactly the matched steps outside one longest common order |
| `Reporting.FieldsAre` | internal/diff/diff.go:133-173 | two nodes that meet report exactly the fields and attributes they differ in, each once, by the operation of the new node and with the rank of its kind |
| `Reporting.TraceEntries` | internal/diff/diff.go:79-226 | the diff of two traces holds exactly the entries found at their headers, at their roots, or at two nodes that meet on the way down |
| `Reporting.NodeEntries` | internal/diff/diff.go:125-226 | entries come from matched nodes and from nowhere else: own fields, the level of children, and the tags of counterparts |
| `Reporting.PriorityIs` | internal/diff/diff.go:351-386 | a node ranks as a contract surface, as tier 1, or low, by its kind, peer and operation |
| `Reporting.ChildrenAre` | internal/diff/diff.go:280-290 | the children of a node are the members of its groups in order, each with the claims of its group and its position |
| `Reporting.OrderingIs` | internal/diff/diff.go:249-258 | a group claims a race when it is concurrent, and an order only when it is neither concurrent nor unordered |
| `Agreeing.EmptyDiffIff` | internal/diff/diff.go:76-114 | an empty diff is not identity but exactly agreement: the same content node by node but for the owning service, the same operations child by child with the same order and multiplicity claims, and steps in the same order |
| `Agreeing.ServiceUnseen` | internal/diff/diff.go:133-173 | an input where it is not identity: two traces that differ in the service of their only node |
| `Agreeing.OwnSilentIff` | internal/diff/diff.go:177-212 | one level reports nothing about its children as such exactly when both sides have the same operations as often and their steps in the same order |
| `Reach.Walk` | internal/groundwork/graph/index.go:163-186 | the breadth-first walk finds exactly what a seed reaches by at least one edge |
| `Impeach.ConeOf` | internal/impeach/audit.go:331-338 | the cone of a seed list is the seeds and everything they reach |
| `Impeach.StaticEffectSets` | internal/impeach/audit.go:263-329 | named, reachable and blind keys: an emitter exists, one is reachable from a root, one is reachable only across a disclosed seam |
| `Witnesses.RootsAre` | internal/impeach/audit.go:340-356 | the roots are the named entry functions, or, when no entry names one, the functions nothing calls |
| `Witnesses.SeamsAre` | internal/impeach/audit.go:282-304 | the abstain region starts at the roots and at every known function a marker or a blind spot names, and nowhere else |
| `Witnesses.ReachesByCalls` | internal/groundwork/graph/index.go:150-186 | a function reaches another exactly by a chain of calls of the graph, each into a function the graph has |
| `Witnesses.LiveAndBlind` | internal/impeach/audit.go:263-329 | an effect is live exactly when a root reaches an emitter, and otherwise blind exactly when a disclosed seam does |
| `Impeach.SeamConeGrows` | internal/impeach/extinguish.go:55-61 | a blind spot leaves the root cone alone and adds to the seam cone exactly what its site reaches |
| `Impeach.BlindSpotMonotone` | internal/impeach/audit.go:277-338 | a blind spot keeps live effects exactly, and removes a candidate exactly when its site is a function that leads to one of the effect's emitters |
| `Impeach.RootSiteIsInert` | internal/impeach/audit.go:277-312 | disclosing a site the roots already reach changes no candidate |
| `Severing.EmitterParity` | internal/impeach/severance.go:307-331 | the emitters the localizer starts from are the ones the join saw |
| `Severing.StaticEmitters` | internal/impeach/severance.go:337-348 | the emitters of an effect, sorted and without repetition |
| `Severing.MapEntryLoop` | internal/impeach/severance.go:357-373 | the first named entrypoint the observed entry spells, or none |
| `Severing.EntryIsRoot` | internal/impeach/severance.go:357-373 | a discovered entry is one of the roots |
| `Witnesses.EntryIs` | internal/impeach/severance.go:350-373 | a request or a message is discovered as the first named entrypoint it spells |
| `Witnesses.OtherEntryIsNone` | internal/impeach/severance.go:350-373 | and no other operation is |
| `Witnesses.EffectSpanUnread` | internal/impeach/severance.go:282-294 | the span of the effect itself is never an anchor: neither its operation nor its tag is read |
| `Witnesses.WayIsRead` | internal/impeach/severance.go:282-294 | every span in front of it is |
| `Witnesses.KindsAre` | internal/impeach/severance.go:205-218 | in a report the kind is missed root exactly when the graph lacks the entry, else severed emitter when it has an emitter, else unmodeled effect |
| `Witnesses.FrontierIs` | internal/impeach/severance.go:375-397 | the site of a witness counts as known exactly when a blind spot or a marker names it |
| `Witnesses.UpstreamIs` | internal/impeach/severance.go:264-280 | upstream of an effect is what calls, in some number of steps, a function that emits it |
| `Witnesses.SiteIs` | internal/impeach/severance.go:235-262 | the site on the way is the first mapped function that no root calls into and that calls into an emitter, or none |
| `Witnesses.AbsentIs` | internal/impeach/severance.go:254-259 | the absence hint is the first tag on the way whose function the graph lacks, or none |
| `Witnesses.FieldsOfWitness` | internal/impeach/severance.go:182-233 | each witness of a report has that site, else its entry as function or text, the anchors entry, mapped nodes and emitters, and the precise level exactly when a span in front of the effect gave a sign |
| `Severing.Localizer.ReachesEmitterSet` | internal/impeach/severance.go:264-280 | on any graph and after any questions, the answer is what reaches the emitters first asked for under the same joined text |
| `Severing.MemoSoundIff` | internal/impeach/severance.go:264-280 | so every effect is answered with what reaches its own emitters, whatever was asked before, exactly when effects whose emitters join to one text are upstream of the same functions |
| `Severing.NamedEmittersTell` | internal/impeach/severance.go:264-280 | which holds wherever every emitter has a name and no name holds the separator |
| `Severing.SharedKey` | internal/impeach/severance.go:264-280 | a graph where it does not: emitter "a NUL b" of one event, emitters "a" and "b" of another |
| `Severing.Localizer.WalkL1` | internal/impeach/severance.go:243-262 | the first mapped path node that no root reaches and that the memo's answer holds, and every other signal on the path |
| `Severing.Localizer.Localize` | internal/impeach/severance.go:152-203 | the localization of one candidate, given the memo's answer, and whether there was anything to localize |
| `Auditing.LocalizedAlone` | internal/impeach/severance.go:264-280 | where the memo is sound every contradiction of a run is localized as it would be alone |
| `Auditing.CandidateIsLocalized` | internal/impeach/severance.go:166-180 | the proof obligation never trips, whatever the memo answers: the discovered entry of a candidate reaches no emitter of its effect |
| `Auditing.PreciseSiteFacts` | internal/impeach/severance.go:235-262 | the precise site is a function of the graph that no root reaches and that leads to an emitter |
| `Auditing.RepairAtSite` | internal/impeach/extinguish.go:15-27 | a blind spot at a candidate's own site removes it exactly when the site is the precise one, or the text of an undiscovered entry that happens to name a function leading to an emitter; every other coarse site changes nothing |
| `Auditing.Join` | internal/impeach/audit.go:179-203 | the join reports exactly the observations that contradict the graph, with their claims, and counts exactly those static analysis abstains from |
| `Auditing.Gaps` | internal/impeach/audit.go:208-221 | the live effects nothing observed exercised, in byte order |
| `Auditing.Audit` | internal/impeach/audit.go:145-261 | from the traces: every contradiction is localized, in the intrinsic order, which the final sort finds already there; none is self-inconsistent; gaps and the covered count are exact |
| `Auditing.ReportUnique` | internal/impeach/audit.go:126-134 | the observations determine the whole modelled report |
| `Auditing.ReportOrderFree` | internal/impeach/audit.go:126-134 | so where no two observations clash, the report depends on which traces were seen, not on their order or repetition |
| `Auditing.ClashReachesReport` | internal/impeach/audit.go:126-134 | and where two clash over an effect that contradicts the graph, two arrangements of the corpus are reported differently |
| `Auditing.ReportFreeIff` | internal/impeach/audit.go:126-134 | arrival order is never seen in the report, whatever the graph, exactly when no two observations clash |
| `Auditing.Extinguishes` | internal/impeach/extinguish.go:47-68 | a repair without a site is refused; re-auditing the repaired graph tells whether a candidate with the target's fields and path signature is left, and one of the corpus goes away exactly when the site is a function that leads to its effect |
| `Witnesses.SameWitnessIs` | internal/impeach/extinguish.go:124-134 | on plain names the gate recognizes a witness exactly when it is the same observation |
| `EffectKeys.LiveIsUnreported` | internal/impeach/audit.go:179-221 | an effect one of whose emitters a root reaches is no candidate, and no gap once observed |
| `EffectKeys.LiveCallIsClean` | internal/impeach/audit.go:179-221 | so a database call made anywhere in a trace, of any system, whose effect a root reaches is neither |
| `EffectKeys.UnknownCallIsReported` | internal/impeach/audit.go:189-197 | and a database call the graph knows nothing of is a candidate exactly when no statement of the graph was unreadable |
| `EffectKeys.UnnamedIsReported` | internal/impeach/audit.go:189-197 | any observed effect the graph does not name is a candidate exactly when no unnamed event or unreadable statement of its family may cover it |
| `Witnesses.CoveredIsAbstained` | internal/impeach/audit.go:179-206 | the covered count is the number of observations behind a disclosed seam, or unnamed where something unnamed may cover them |
| `Fqn.HasRuntimeClosure` | internal/impeach/canonfqn.go:189-212 | finds exactly a dot, "func", digits and then a dot or the end |
| `Reading.KeyIsSpelled` | internal/impeach/canonfqn.go:54-178 | a text with a key is one of the two spellings of exactly the function of that key |
| `Reading.RefusedShapes` | internal/impeach/canonfqn.go:72-96 | generic instantiations, synthetics, method values and closures are refused, each for its own reason, the first that applies |
| `Reading.BadMethodName` | internal/impeach/canonfqn.go:103-112 | a receiver in parentheses must be followed by one plain name |
| `Spellings.ClosurePieces` | internal/impeach/canonfqn.go:189-212 | that is: some dot-separated piece after the first reads like a closure name |
| `Spellings.SsaKey` | internal/impeach/canonfqn.go:96-127 | the graph spelling of a method has a key exactly when the method can be reconciled, and the key is the method |
| `Spellings.RuntimeKey` | internal/impeach/canonfqn.go:129-178 | so has the runtime spelling, unless a value receiver is named like a closure |
| `Spellings.TwoSpellingsOneKey` | internal/impeach/canonfqn.go:70-178 | both spellings give the same key or none, for exactly the functions that are not reconcilable methods on a value receiver named like a closure |
| `Spellings.ClosureTypeDisagrees` | internal/impeach/canonfqn.go:129-178 | an input where they differ: a value method on a type func1 is keyed on the graph side only |
| `Spellings.KeyRecoversFunction` | internal/impeach/canonfqn.go:70-178 | on a clean final path segment the key of either spelling is the function |
| `Spellings.NoKeyOtherwise` | internal/impeach/canonfqn.go:77-94 | a function that cannot be reconciled has no key on either side |
| `Anchoring.BuildNodeIndex` | internal/impeach/spanmap.go:57-68 | every key lists its nodes in byte order, and a node without a key is never listed |
| `Anchoring.DottedFunctionKey` | internal/impeach/canonfqn.go:157-178 | a package function on a dotted path is keyed as the method it is spelled like, exactly when path and name leave one |
| `Anchoring.CollisionIff` | internal/impeach/canonfqn.go:70-178 | two different functions share a key exactly when one is a package function in package p.r and the other the value method of that name on type r of package p, and the method is readable |
| `Anchoring.MapInternalIs` | internal/impeach/spanmap.go:84-104 | in any graph the tag of any function anchors at its own node, at the one function that shares its key, at both, or at none, as the graph holds them |
| `Anchoring.WrongAnchorIff` | internal/impeach/spanmap.go:84-104 | so a unique hit is the wrong node exactly when the graph lacks the function and holds the one spelled like it; a pointer method is never misread |
| `Anchoring.DottedPackageMisanchors` | internal/impeach/canonfqn.go:240-261 | an input where it is wrong: package function T of x/yaml.v3 against method T on type v3 of x/yaml |
| `Diff.HeadlinesFirst` | internal/diff/diff.go:228-235 | every reported list is sorted with interface and schema headlines first, and each kind of difference carries the one rank, or one of the few, its kind may have |
| `Observing.PathsAreCausal` | internal/impeach/audit.go:389-424 | every observation made below a span carries a path that extends the stack by a real chain of child links, from that span down to the effect span whose key and operation it names |
| `Observing.WalkSpan` | internal/impeach/audit.go:393-421 | the recursive walk with its seen map adds, of the effects of the subtree in tree order, the first under each identity text |
| `Observing.PublishKey` | internal/impeach/audit.go:466-481 | a publish keys like the graph's own label of the same event |
| `EffectKeys.DbKey` | internal/impeach/audit.go:466-469 | a database call is keyed by verb and table whatever the system, with the key the graph has for the same effect |
| `EffectKeys.OpaqueDbIsNone` | internal/impeach/audit.go:466-469 | a database call without a readable verb is no effect |
| `EffectKeys.OtherIsNone` | internal/impeach/audit.go:456-481 | nothing but database calls and publishes is |
| `EffectKeys.KeysTellEffects` | internal/impeach/effectkey.go:26-56 | two effects have one key exactly when they are the same verb, but for case, on the same table, or the same event |
| `EffectKeys.SightingsAre` | internal/impeach/audit.go:383-424 | what is observed in a trace is one sighting for each way down to an effect span, with its key, operation, flow, service, entry and path, and nothing else |
| `Observing.ObservedEffects` | internal/impeach/audit.go:380-426 | on any corpus: one observation for every identity text that occurs and nothing else, sorted |
| `Observing.PlainEffects` | internal/impeach/audit.go:380-426 | when no name holds a separator: every observation itself, once |
| `Identities.PathSigInjective` | internal/impeach/audit.go:436-445 | a path without the separators in its names is told by its signature |
| `Identities.IdentityInjective` | internal/impeach/audit.go:407-412 | so is an observation by its identity text |
| `Identities.SignaturesCollide` | internal/impeach/audit.go:436-445 | with a separator in an operation name two different paths have one signature |
| `Identities.IdentityOrder` | internal/impeach/audit.go:535-554 | the comparator is a strict weak order in which only observations with the same identity text tie |
| `Witnesses.ObservedOrder` | internal/impeach/audit.go:535-554 | the order is by effect, flow, service, entry, operation and path signature, each in byte order |
| `Observing.OrderFreeIff` | internal/impeach/audit.go:376-426 | the list of observations is the same for every order of the traces exactly when no two of them, each the first with its identity text in its own trace, share a text without being equal; and then repetition does not matter either |
| `Observing.PlainNoClash` | internal/impeach/audit.go:376-426 | which holds for every corpus without separators in its names |
| `Observing.ArrivalDecides` | internal/impeach/audit.go:407-412 | a corpus where it does not: two traces, one effect each, span "a US b" against span "a" over span "b"; the one that arrives first is all that is reported |
| `Glob.Match` | internal/glob/glob.go:15-38 | the greedy matcher, backtracking to the latest star only, answers true exactly when some choice of runs for the stars spells the string |
| `Glob.LatestStar` | internal/glob/glob.go:19-29 | once the text behind a star has been found, an earlier star position can be forgotten |
| `Glob.FitsIffMatches` | internal/glob/glob.go:11-14 | reading the pattern character by character agrees with replacing its stars |
| `Glob.LiteralMatches` | internal/glob/glob.go:11-14 | a pattern without a star matches itself alone |
| `Glob.OneStarMatches` | internal/glob/glob.go:11-14 | a star between two literal ends stands for whatever lies between them |

## Left out

- Canonicalize.Canonicalizer.Run: a build that does not come back has no outcome, so the methods ask
  that it does; exhausting the stack is not modelled.
- RunIndependence.RunIndependent: is about the assembled tree before filtering, of which the filtered
  tree is a function; the discard manifest is modelled for loops only, not for redacted keys.
- Promote.FilterSpan: works on tree values, so the in-place update of shared nodes through pointers is
  not captured; the panic is a result value.
- SqlFixedPoint.Normalize: the two list patterns are stated on tokens, with form feeds, which the
  patterns match as blanks, taken out before; case mapping is ASCII.
- Diff.DiffSymmetric: counts changes by type; priorities are not symmetric, because a tier change into
  tier 1 ranks higher than one out of it. The wording of a change is replaced by the aspect it is about.
- Auditing.Audit: the downgrade ladder, digests and caveat texts are not modelled.
- Auditing.ReportFreeIff: is exact over all graphs. Against one given graph, a clash over an effect that
  does not contradict it may leave the report as it is (`Auditing.ClashReachesReport` has the others).
- Ties.TieSafeIff: is exact for a pair of siblings. Whether one given sibling set with an unsafe tie shows
  the ids depends on its other members and is not characterized.
- Observing.ObservedEffects: of the spans on a path only operation and tag are kept, which is what the
  walk and the signature read.
- Auditing.Extinguishes: is the first criterion of the repair gate; the second needs the fitness rules,
  which are not part of this model.
- Fragments.Group: the effective kind of a span is a parameter; code stamp and capture grade of a
  fragment are not modelled.
- Fqn.HasRuntimeClosure: the ⊥ reasons are an enumeration instead of texts.
- Impeach.StaticEffectSets: boundary labels are taken as decoded; the decoders that count unnamed
  effects are not modelled.
- Operation keys, attribute projection and redaction, tier rules, URL templates, JSON and hashing,
  configuration files, OTLP decoding, rendering and every command line or server surface.
- Outbound HTTP and RPC effects, which the code does not join either.
