# Canopy: a verified model of the core

Canopy keeps conversations as trees of messages, compiles a token-bounded context
for each turn, stores app cards with an event log, and federates trees between
servers. This project models the parts of it where correctness rests on
arithmetic, on evolving state or on a canonical form, and proves what those parts
promise for every input, every run or every interleaving.

`dafny verify dfyconfig.toml` checks everything.

| modules | what they model |
|---|---|
| `Allocation`, `AllocationTheorems` | the selected-source budget: 256-token starts, largest-remainder apportionment, one redistribution pass |
| `Terminator`, `Rendering`, `MultiReference`, `CardReference` | escaping, truncating and rendering of the labelled blocks |
| `Greedy`, `Retrieval`, `ContextCompiler` | the budget walk, floor, digest, tiers and assembly of a compiled context |
| `CardStore`, `CardProtocol`, `EventHub`, `CardStream` | optimistic concurrency on cards, the event log, the live fan-out, and log and fan-out together |
| `PluginRegistry`, `EdgeRepo`, `MigrateRepair` | persistent state machines over SQL tables |
| `VectorClock`, `RateLimiter` | federation clock and limiter |
| `Snapshot`, `Accuracy`, `Labels` | canonical pre-hash form, graph walks, label extension |
| `Wrappers`, `Sums`, `Sorting`, `Text` | shared vocabulary |

Code that updates things in place is a method or a class with the same loops and
branches, proved against a specification function or predicate; the theorems are
lemmas about those specifications. A database transaction is one atomic step. In
the concurrent protocols every mutex-guarded section, every statement against the
store and every channel operation is a step of its own, and a run is any sequence
of steps.

Results that go beyond, or against, what the code's comments say:

- The selected sources of an admitted selection use exactly
  min(budget, sum of min(2048, estimate)) tokens (`AllocationTheorems.AllocationTheorem`).
- The comment at `internal/context/multi_reference.go:238-239`, that the allocation
  vector reports what the sources place, fails when the budget exceeds the demand:
  `VectorIsNotAlwaysPlaced` is an input, `VectorIsPlacedIff` the exact condition.
- The block closes exactly once if and only if no label, colour key or node type
  holds the terminator (`MultiReference.BlockTerminatesOnceIff`): source content can
  never close it, an unescaped header field could (`NodeTypeClosesEarly`), and with the
  node types, labels and colour keys that the store holds every block closes exactly
  once (`StoredBlockClosesOnce`).
- The migration walk moves by at least two versions per accepted migration, so the
  64-step cap can stop a repair if and only if the embedded maximum is at least 128
  (`MigrateRepair.CapBindsIff`).
- The limiter reads the clock before it takes the mutex. When calls enter in the order
  of their readings it lets at most 2*limit - 1 of them through in any interval of one
  window, and every limiter whose window spans two instants reaches that
  (`RateLimiter.WindowBound`, `BoundIsReached`). When a call may wait up to D for the
  mutex, the bound is 1 + (limit - 1) * B, where B = (2*window - 2 + D) / window + 1,
  rounded down, is the number of buckets within reach: 3*limit - 2 for D from 2 to
  window + 1. It is reached for every limit, window and D, so without a limit on the
  wait there is no bound (`ConcurrentBound`, `LateBoundIsReached`,
  `NoBoundWhenUnordered`).
- `Compare` is the pointwise order exactly when the other clock holds no negative
  counter for an unknown peer or some known peer's counter exceeds the other's anyway;
  `Merge` is an upper bound of both clocks, and then the least, exactly when no counter
  that the other clock lacks is negative (`CompareIsOrderIff`, `JoinIsLub`, with
  `NegativeCounters` as input).
- Soft deletion and moves keep a multi_reference target valid exactly when the
  display anchor stays and, for a deletion, two sources remain
  (`EdgeRepo.SoftDeleteEffect`, `MoveEffect`; `SmallestSetBreaks` is an input).
- The comment above `Move` promises that the new source is in the same tree. The
  statement does not look: edges stay within their tree exactly when the caller
  checked, and the same holds of `Create` and of reference sets, whose validation
  compares only the tree stamped on the edge (`SameTreeStepIff`; `MoveLeavesTree` and
  `ReplyTakesForeignSources` are inputs).
- Two plugin names can share a slug. An update that finds its row by slug links two
  names exactly when it is submitted under another name than the row it replaces, and
  then cannot be rolled back by name (`PluginRegistry.UpdateWithinIff`,
  `UpdateCrossesNames`). A registration, an activation or a rollback gives a slug two
  active rows exactly when another name is active under the slug of the row it makes
  active; updates and status changes never do (`StepSlugIff`, `RunSlugsIff`;
  `RegisterSharesSlug` and `ActivateSharesSlug` are inputs).
- A patch call that returns an error has changed its card exactly when a store operation
  of it failed after its swap: the read-back of the row or an event append
  (`CardProtocol.FailureAppliedIff`, `FailedCallChangedCard`). What it reads back is its
  own row exactly when no other swap of the card came in between (`ReadBackReturns`).
- Appending an event and publishing it are two steps. What is published for a card rises
  by sequence number exactly when no call was overtaken between the two. It goes on
  rising in whatever order calls publish what they hold exactly when at most one of
  them holds an event of the card and was not overtaken (`CardStream.RunInOrderIff`, `EveryOrderRisesIff`). The comment at
  `internal/card/events_stream.go:13-16`, that a dropped event is always recoverable,
  holds for a client whose stream rose exactly when it received no later event
  (`ReplayedIff`, with `OvertakenIsMissed` as a run where it fails).
- Of everything the store can hold, two states hash the same bytes exactly when they
  agree on all hashed columns (`Snapshot.StoredBufferIff`).
- Retrieved results are independent of the reader's order if and only if ids not yet
  referenced identify their items (`Retrieval.ReaderOrderIrrelevantIff`).

## Model

| member | source | states |
|---|---|---|
| Allocation.AddShares | internal/context/multi_reference.go:291-309 | in place: every source gets its capped floor share; the remainders are what the exact share leaves; `distributed` is the sum of the shares |
| Allocation.WalkOnce | internal/context/multi_reference.go:329-345 | one round of the leftover walk, one token per source below the cap in rank order, in place |
| Allocation.GiveLeftover | internal/context/multi_reference.go:310-346 | in place: the leftover walk in rank order, repeated until nothing is left or nothing moves; terminates. What it amounts to is QuotaRule and SurplusShared |
| Allocation.AllocateRemaining | internal/context/multi_reference.go:291-346 | the array ends as the apportionment of the start array, which QuotaRule and SurplusShared characterise without its algorithm |
| Allocation.CollectUnused | internal/context/multi_reference.go:398-414 | what each donor can give, and the pool as their sum |
| Allocation.TakesBounded | internal/context/multi_reference.go:416-437 | no receiver takes more than it wants, together no more than the pool, and less than the pool only when all wants are met |
| Allocation.HandOut | internal/context/multi_reference.go:416-437 | receivers are served in selection order until the pool runs dry; what is unplaced is the pool minus what was taken |
| Allocation.SettleDonors | internal/context/multi_reference.go:439-454 | donors below the start give all they hold spare, the others only what was placed |
| Allocation.RedistributeUnused | internal/context/multi_reference.go:398-454 | the whole pass in place |
| AllocationTheorems.RoundsBounds | internal/context/multi_reference.go:329-345 | the leftover walk never lowers, never exceeds 2048, touches only needy sources, and stops short only when all of them are at the cap |
| AllocationTheorems.LeadersOnly | internal/context/multi_reference.go:329-345 | a leftover no larger than the ranking goes in one round, one token each, to the front of the ranking |
| AllocationTheorems.QuotaRule | internal/context/multi_reference.go:291-346 | when the tokens above the starts do not exceed total need, all are spent, each source gets its quota or one more and never more than its need, and a source that gets one more has the larger fraction than one that does not, or the same one and the lower index |
| AllocationTheorems.LargestRemainderUnique | internal/context/multi_reference.go:291-346 | the largest-remainder rule determines the vector, so QuotaRule fixes the result completely |
| AllocationTheorems.InitialRule | internal/context/multi_reference.go:262-281 | applied to a selection: the needs are what the estimates exceed 256 by, up to 2048 |
| AllocationTheorems.EqualNeeds | internal/context/multi_reference.go:326 | of two equal needs the lower index never gets less |
| AllocationTheorems.EqualSources | internal/context/multi_reference.go:229-284 | after the redistribution pass too, of two sources of equal length the one selected first never gets less |
| AllocationTheorems.RoundsFair | internal/context/multi_reference.go:329-345 | nobody gets two tokens more than somebody still below the cap, and one more only by standing earlier in the order |
| AllocationTheorems.SurplusShared | internal/context/multi_reference.go:310-346 | with more tokens than need, what sources get beyond their capped quotas differs by at most one among those below the cap, the odd token going to the larger fraction, ties to the lower index |
| AllocationTheorems.SurplusRule | internal/context/multi_reference.go:291-346 | with more tokens than need every source gets at least its need, none more than 2048, and tokens stay over only when all needy sources are at the cap |
| AllocationTheorems.PassFacts | internal/context/multi_reference.go:398-454 | the pass gives no source more than it can use, takes from none what it needs, and never raises the sum |
| AllocationTheorems.TakesInOrder | internal/context/multi_reference.go:416-437 | a source takes something only after every earlier one has all it wants |
| AllocationTheorems.GivesInOrder | internal/context/multi_reference.go:439-454 | of the donors at or above the start one gives something only after every earlier one has given all it can |
| AllocationTheorems.GivesTotal | internal/context/multi_reference.go:439-454 | together these donors give exactly what was placed, or all they can if that is less |
| AllocationTheorems.IdlePassKeeps | internal/context/multi_reference.go:398-454 | when nobody wants more the pass leaves every source of 256 tokens or more as it was |
| AllocationTheorems.RedistributionYield | internal/context/multi_reference.go:398-454 | after one pass the tokens actually placed are min(sum of allocations, sum of capped estimates): one pass is enough |
| AllocationTheorems.AllocationTheorem | internal/context/multi_reference.go:229-284 | for every admitted budget: each allocation between min(estimate, 256) and 2048, sum at most the budget, placed tokens exactly min(budget, sum of min(2048, estimate)) |
| AllocationTheorems.CutOnlyWhenSpent | internal/context/multi_reference.go:229-236 | a source is cut below its cap only if the whole budget is allocated and used |
| AllocationTheorems.NothingCutIff | internal/context/multi_reference.go:229-236 | nothing is cut exactly when every estimate is within 2048 and their sum within the budget |
| AllocationTheorems.VectorIsPlacedIff | internal/context/multi_reference.go:238-239 | the allocation vector equals what the sources place exactly when the budget does not exceed the demand or every needy source is at or above the cap |
| AllocationTheorems.SurplusOverfills | internal/context/multi_reference.go:310-346 | in the remaining case the leftover walk gives some source more than its estimate |
| AllocationTheorems.VectorIsNotAlwaysPlaced | internal/context/multi_reference.go:238-239 | two sources of 300 tokens and a budget of 4000: the comment's claim fails |
| Terminator.ContainsIffCounted | internal/context/multi_reference.go:727-732 | containment is the same as a positive number of occurrences |
| Terminator.EscapeIsReplaceAll | internal/context/multi_reference.go:727-732 | the containment test before the replacement is only a fast path |
| Terminator.EscapeClean | internal/context/multi_reference.go:725-732 | escaped text holds no terminator, whatever the text was |
| Terminator.EscapeInvertibleIff | internal/context/multi_reference.go:725-732 | escaping can be undone exactly when the text did not already hold the escaped form |
| Terminator.UnescapeLength | internal/context/multi_reference.go:725-732 | undoing it loses exactly one character per escaped form that was there before |
| Terminator.CountAcross | internal/context/multi_reference.go:692-698 | no terminator arises across a separator foreign to it |
| Terminator.CleanSlices | internal/context/multi_reference.go:673-698 | cutting clean text leaves clean pieces |
| Rendering.GroupThousands | internal/context/multi_reference.go:705-723 | the loop over groups of three computes the grouped numeral, sign included |
| Rendering.GroupedUngroups | internal/context/multi_reference.go:705-723 | dropping the commas gives the digits back |
| Rendering.GroupedFacts | internal/context/multi_reference.go:705-723 | every fourth character from the right is a comma, no other one is and none leads |
| Rendering.ThousandsReadsBack | internal/context/multi_reference.go:705-723 | the grouped numeral denotes the number |
| Rendering.ThousandsLonger | internal/context/multi_reference.go:673-698 | a smaller count never renders longer, which is why measuring the marker with the full total is safe |
| Rendering.TruncateShape | internal/context/multi_reference.go:673-698 | what is kept is a proper head and a disjoint tail around the marker, balanced to one character, together what the allocation leaves beside the marker and two line ends or two characters; the marker's count is the estimate of the whole minus that of what was kept |
| Rendering.TruncateFitsIff | internal/context/multi_reference.go:673-698 | the truncated text fits its allocation exactly when the widest marker leaves room for four more characters |
| Rendering.TruncateFits | internal/context/multi_reference.go:673-698 | with 256 tokens or more and a label of bounded length it always fits |
| Rendering.RenderSourceClosers | internal/context/multi_reference.go:658-668 | rendering clean content can only bring in terminators through the label its marker repeats |
| Rendering.SourceSectionClosers | internal/context/multi_reference.go:643-656 | the terminators of a section are those of its label, colour key, node type and content |
| Rendering.BlockClosers | internal/context/multi_reference.go:613-640 | the block holds its own closer plus whatever the sections bring in |
| Rendering.BlockGrows | internal/context/multi_reference.go:613-640 | one more source puts its section, after a blank line, where the closing tag was: sections stand in the order of the sources |
| Rendering.SourceHeaderShown | internal/context/multi_reference.go:643-656 | the header of a source field by field |
| Rendering.AttributesShown | internal/context/multi_reference.go:613-632 | the attributes of the opening tag in order, the common ancestor only when there is one |
| Rendering.BlockEnds | internal/context/multi_reference.go:613-640 | the block ends with its closer |
| MultiReference.AllocateBudget | internal/context/multi_reference.go:243-284 | the budget is half the profile, 8000 by default, up to 16384; it refuses exactly when that is below 256 per source, and otherwise gives the vector the theorems are about, over the escaped contents' estimates |
| MultiReference.VerdictIffUnusable | internal/context/multi_reference.go:526-541 | a source is refused exactly when it could not be loaded or its hash is not the signed one |
| MultiReference.RenderSources | internal/context/multi_reference.go:546-586 | views, token use, the all-fit flag (nothing truncated) and the escaped labels (exactly those whose content held the terminator) |
| MultiReference.SelectionUse | internal/context/multi_reference.go:543-586 | tokens used are min(budget, sum of capped estimates); all fit exactly when no estimate exceeds 2048 and they fit together |
| MultiReference.Compile | internal/context/multi_reference.go:509-590 | succeeds exactly on admitted selections (2 to 20 usable sources, 256 tokens each) with the exact token use and block; every source is shown in its place with its own fields, its tokens and, if it is not cut, its whole escaped text; each refusal names a condition that holds |
| MultiReference.CompileBlock | internal/context/multi_reference.go:509-590 | the block the payload starts with, on exactly the admitted selections |
| MultiReference.ContentFits | internal/context/multi_reference.go:559-586 | what a source shows never costs more than what it is charged, if its label leaves room for the marker |
| MultiReference.BlockTerminatesOnceIff | internal/context/multi_reference.go:613-640 | the block ends with the terminator and holds it once exactly when labels, colour keys and node types are free of it |
| MultiReference.NodeTypeClosesEarly | internal/context/multi_reference.go:643-656 | an input of the exported function, kept out of the store by its check constraint, shows why the condition is needed: a node type that holds the terminator closes the block early |
| MultiReference.StoredBlockClosesOnce | internal/context/multi_reference.go:613-656 | for sources with one of the three stored node types, a derived label and a derived colour key the block closes exactly once, at its end, whatever the sources say |
| MultiReference.CutSourceFits | internal/context/multi_reference.go:559-567 | a truncated source is a head, the marker and a disjoint tail of its escaped text and fits the tokens it is charged |
| CardReference.RenderHeader | internal/context/card_reference.go:304-320 | the loop yields the opening tag with one attribute per line |
| CardReference.RenderCardBlock | internal/context/card_reference.go:295-339 | whatever header and body hold, the block closes exactly once, at its end; the flag says whether something was escaped; the enclosed text can be recovered when it held no escaped form |
| Greedy.FillPrefix | internal/context/compiler.go:545-562 | the kept sections are the prefix before the first misfit, within budget |
| Greedy.ChosenFacts | internal/context/compiler.go:663-711 | passing over misfits: within budget, nothing lost or invented, and no section passed over would fit at the end |
| Greedy.ChosenSnoc | internal/context/compiler.go:663-711 | a section is kept exactly when it fits what the kept ones before it leave |
| Retrieval.Deduplicate | internal/context/retrieval.go:78-110 | the candidates are the first occurrences of ids not yet referenced |
| Retrieval.FreshElements | internal/context/retrieval.go:78-110 | candidates come from the results, are not referenced yet and have distinct ids |
| Retrieval.FreshCovers | internal/context/retrieval.go:78-110 | every id not yet referenced keeps a candidate |
| Retrieval.FirstIsFresh | internal/context/retrieval.go:97-110 | the candidate of an id is its first result |
| Retrieval.RankingFalls | internal/context/retrieval.go:112-125 | the candidates are walked by falling relevance, equal relevance by slug and then id in byte order |
| Retrieval.FillItems | internal/context/retrieval.go:120-155 | the greedy fill over the ranking, with the number of omitted candidates |
| Retrieval.CompileRetrieved | internal/context/retrieval.go:78-155 | kept items never rise in relevance, equal relevance goes by slug and then id; a candidate is omitted only if it did not fit what the kept items before it left of min(12% of the budget, remaining); the number omitted |
| Retrieval.SelectedFacts | internal/context/retrieval.go:78-155 | spends at most the tier budget, repeats no referenced id, and no omitted candidate would fit in what is left |
| Retrieval.OmittedIsCrowded | internal/context/retrieval.go:127-155 | less relevant items never displace a candidate: one that is omitted did not fit what the kept items that outrank it left |
| Text.LessIsLexical | internal/context/retrieval.go:121 | byte order is decided by the first difference |
| Retrieval.SelectedIdsDistinct | internal/context/retrieval.go:78-155 | no id is selected twice |
| Retrieval.ReaderOrderIrrelevant | internal/context/retrieval.go:78-155 | every permutation of the reader's results gives the same output when ids identify items |
| Retrieval.ReaderOrderIrrelevantIff | internal/context/retrieval.go:78-155 | and only then: otherwise some permutation and budget change the output |
| ContextCompiler.CutByDepth | internal/context/compiler.go:177-192 | the newest ancestors, as many as the depth or 50, and how many were cut |
| ContextCompiler.BudgetWalk | internal/context/compiler.go:226-270 | kept and dropped nodes and the running budget, negative when pins overrun it |
| ContextCompiler.MisfitIsFirst | internal/context/compiler.go:226-270 | the prefix phase ends at the first unpinned node that does not fit what the nodes before it left |
| ContextCompiler.WalkFacts | internal/context/compiler.go:226-270 | kept and dropped partition the chain and keep its order, every pinned node is kept, dropped is exactly the unpinned rest after the first misfit |
| ContextCompiler.LongestFittingPrefix | internal/context/compiler.go:226-270 | without pins a prefix fits the budget exactly when it is no longer than what is kept |
| ContextCompiler.ApplyBudget | internal/context/compiler.go:226-309 | the walk followed by the one-node floor |
| ContextCompiler.FloorFacts | internal/context/compiler.go:272-309 | some node is kept whenever there is one, kept plus dropped is the chain, a forced node is the newest, did not fit and is not deducted |
| ContextCompiler.FloorDeals | internal/context/compiler.go:226-309 | no pinned node is dropped; the newest node is kept if it is pinned or fits the budget, and otherwise unless pinned ones are kept in its place |
| ContextCompiler.AncestryHolds | internal/context/compiler.go:177-309 | kept and dropped nodes together are, as a multiset and in order, the newest ancestors up to the depth |
| ContextCompiler.FoldDigest | internal/context/compiler.go:327-350 | the digest covers exactly the budget-dropped nodes, oldest first, and is missing only when there are none or it does not fit |
| ContextCompiler.DigestGrows | internal/context/summarizer.go:36-46 | one more node adds one line with its id, author and first sentence at the end |
| ContextCompiler.FillReferences | internal/context/compiler.go:545-562 | the longest fitting prefix of the resolved topics |
| ContextCompiler.FillCardRefs | internal/context/compiler.go:663-711 | a block that does not fit is elided and the walk goes on |
| ContextCompiler.FoldTiers | internal/context/compiler.go:327-423 | digest, references, retrieved, card references and cards, each by its own rule within what the earlier ones left |
| ContextCompiler.TiersBounded | internal/context/compiler.go:327-423 | all tiers together cost at most what the ancestry left |
| ContextCompiler.RetrievedAreNew | internal/context/compiler.go:385-398 | no retrieved item repeats a reference or a selected source |
| ContextCompiler.Assemble | internal/context/compiler.go:425-455 | the payload is the block, the ancestry, the tiers and the digest joined by blank lines |
| ContextCompiler.JoinEstimate | internal/context/token_estimator.go:19-25 | joining k sections costs at most half a token per section beyond their own estimates |
| ContextCompiler.PayloadBound | internal/context/compiler.go:425-460 | the finished payload's estimate against the cost of its parts |
| ContextCompiler.Compile | internal/context/compiler.go:127-481 | succeeds exactly with a budget of one or more, an admitted selection or none, and both required reads, and refuses in the order of the checks; kept and dropped nodes are the newest ancestors up to the depth, the newest of all is dropped only if it is unpinned, does not fit and pinned ones are kept; kept plus omitted are all ancestors; sections stand in the order block, ancestry, references, retrieved, card references, cards, digest, with their headers; tokens used stay within budget, overage, forced node, block and ceil((k-1)/2) for k sections |
| ContextCompiler.SelectionBound | internal/context/compiler.go:136-145 | the block of an admitted selection costs at most min(reference budget, sum of capped estimates) plus its tags, source headers and joiners |
| CardStore.CardRepo.Create | internal/card/repo.go:59-97 | a new card is active at revision 1 with the given data, actions and hash, empty data as {} and actions as []; an existing id changes nothing |
| CardStore.CardRepo.PatchIf | internal/card/repo.go:172-228 | compare-and-swap, then a read-back: missing card and revision conflict change nothing; a swap that goes through changes that row only, the columns of the patch and the timestamps of its status; a failed read-back is an error with the row changed |
| CardStore.ValidateAnswers | internal/card/service.go:183-266 | every answer of the checks, and the events of a success, by the row's revision and status and the patch's fields alone |
| CardStore.CardRepo.AppendEvent | internal/card/repo.go:231-267 | appends one event with the next sequence number |
| CardStore.CardRepo.ListEvents | internal/card/repo.go:270-299 | the first page of the card's events after a cursor, 50 by default |
| CardStore.CardRepo.MaxSequence | internal/card/repo.go:302-313 | the largest sequence of the card's events, zero without any, and nothing lies after it |
| CardStore.CardRepo.ReplayFrom | internal/card/repo.go:270-299 | paging from any cursor terminates and returns every stored event of the card after it, in order, once |
| CardStore.PageSplits | internal/card/repo.go:270-299 | a page followed by what comes after its last sequence is everything after the cursor |
| CardStore.CursorSplits | internal/card/repo.go:270-299 | moving the cursor splits the log without loss or repetition |
| CardStore.ValidPatchKeepsStamps | internal/card/service.go:183-242 | a validated patch keeps dismissed_at and archived_at in agreement with the status and raises the revision by one |
| CardStore.WindowIsSuffix | internal/context/card_reference.go:213-229 | the envelope's event window is a suffix of the card's events of at most 20 |
| CardProtocol.SwapApplies | internal/card/service.go:183-242 | a compare-and-swap that succeeds applies the very transition that was validated on the earlier read |
| CardProtocol.StepKeeps | internal/card/service.go:183-266 | every read, swap, read-back, append or failing step keeps the protocol invariant |
| CardProtocol.RunKeeps | internal/card/service.go:183-266 | so every interleaving does |
| CardProtocol.OneSuccessPerRevision | internal/card/service.go:183-242 | of two patches applied to a card the later one replaced a larger revision: at most one applied patch per revision |
| CardProtocol.RevisionCountsSuccesses | internal/card/repo.go:172-228 | in every interleaving the revision is one plus the number of applied patches and the timestamps agree with the status |
| CardProtocol.StepFollowsEdges | internal/card/service.go:183-242 | a step leaves a card alone or applies one validated patch: status moves along legal edges only, an archived card stays, and the content of a dismissed card or of one being archived is left alone |
| CardProtocol.ArchivedForever | internal/card/service.go:183-242 | however a run goes on, an archived card never changes again |
| CardProtocol.DismissedKeepsContent | internal/card/service.go:196 | however a run goes on, data, actions and context hash of a dismissed card stay until it has been made active again |
| CardProtocol.EventsNameTheirCard | internal/card/service.go:239-266 | in every interleaving an event is of the card that its call has changed |
| CardProtocol.LogMatchesSuccess | internal/card/service.go:239-266 | a call has always logged a prefix of what its swap promised; once it has returned the log is complete exactly when none of its store operations failed after its swap, as after every success |
| CardProtocol.LostIffFailsAfterSwap | internal/card/service.go:234-266 | a returned call owes events for good exactly when its read-back or an append of it failed in the run |
| CardProtocol.FailureAppliedIff | internal/card/service.go:234-266 | a call that returned an error changed its card exactly when its read-back or an append of it failed |
| CardProtocol.FailedCallChangedCard | internal/card/service.go:234-266 | two runs in which a failed call leaves its new data at revision 2 and nothing in the log: one with a failed append, one whose read-back failed before any append |
| CardProtocol.ReadBackReturns | internal/card/repo.go:214-227 | after its swap a call reads a row of its own revision or a later one, and its own row exactly when no other swap of the card came in between |
| CardProtocol.SuccessReturns | internal/card/service.go:234-272 | a successful call returns the row of its swap or one of a later revision |
| CardProtocol.PatchCard | internal/card/service.go:183-272 | on its own: each refusal and success as an exact condition on the revision, the status and the patch's fields; what it logs, in order; only a failure after the swap is an error that leaves the row changed |
| CardProtocol.ArchiveCard | internal/card/service.go:276-290 | archives exactly active or dismissed cards at the expected revision, if one is given; it succeeds if the row is read back and the event logged too |
| EventHub.CardEventHub.SubscribeTo | internal/card/events_stream.go:71-89 | a new open, empty channel under an unused id |
| EventHub.CardEventHub.PublishEvent | internal/card/events_stream.go:120-135 | every listener of the card gets the event unless its buffer is full; no send goes to a closed channel |
| EventHub.CardEventHub.UnsubscribeFrom | internal/card/events_stream.go:91-112 | idempotent; closes the channel once and drops a card without subscribers |
| EventHub.HubSteps | internal/card/events_stream.go:71-135 | live subscribers stay exactly the open channels, buffers stay within 64 |
| EventHub.RunKeeps | internal/card/events_stream.go:71-263 | the invariant of hub, pumps and clients holds in every interleaving |
| EventHub.ClientReceives | internal/card/events_stream.go:223-263 | a client has received an in-order subsequence of what was published for its card while subscribed; until its done channel closes, what is received, in flight and skipped adds up to all of it, and up to 64 events nothing is lost |
| EventHub.SkipsOnlyWhenFull | internal/card/events_stream.go:120-135 | an event is skipped only at a full buffer, at most one per step |
| EventHub.StepMoves | internal/card/events_stream.go:73-92 | a publication goes behind what is on its way unless the channel holds 64; the pump loses only the event in its hand, at a full out channel or after done; what a client received stays |
| EventHub.NoSendToClosed | internal/card/events_stream.go:91-135 | in every interleaving no listener's channel is closed, none is closed twice, no card without subscribers has an entry |
| CardStream.RunKeeps | internal/card/service.go:244-265 | in every interleaving of appends, publications and hub steps, what is published is stored, published once, and never what a call still holds |
| CardStream.StepInOrderIff | internal/card/service.go:244-265 | a publication keeps the card's stream rising exactly when no later event of the card was published before it |
| CardStream.RunInOrderIff | internal/card/service.go:244-265 | over a run what is published for a card rises by sequence exactly when no call was overtaken between its append and its publication |
| CardStream.EveryOrderRisesIff | internal/card/service.go:244-265 | a rising stream goes on rising in whatever order calls publish what they hold exactly when at most one holds an event of the card and it is not overtaken |
| CardStream.SerialRises | internal/card/service.go:244-265 | if appends of a card wait until nothing of it is held, its stream always rises |
| CardStream.ClientRises | internal/card/events_stream.go:223-263 | a client's events are stored events of its card and rise whenever the card's stream does |
| CardStream.ReplayedIff | internal/card/events_stream.go:13-16 | a stored event a client missed is replayed on reconnecting exactly when the last event received is an earlier one; on a rising stream, exactly when no later one was received |
| CardStream.OvertakenIsMissed | internal/card/events_stream.go:13-16 | two patches publish event 2 before event 1; a client that leaves in between never gets event 1 |
| PluginRegistry.PluginRepo.DoRegister | internal/db/plugin_repo.go:192-241 | the Register transaction statement by statement, for any name and slug; keeps the registry invariant |
| PluginRegistry.PluginRepo.DoUpdate | internal/db/plugin_repo.go:66-107 | the Update transaction on whichever active row of the slug the query returns, with the one-active index after the archiving statement; keeps the registry invariant, and the pointers within the name exactly when the submitted name is that row's |
| PluginRegistry.PluginRepo.DoActivate | internal/db/plugin_repo.go:275-307 | the Activate transaction, with a missing target told apart by the foreign key; keeps the registry invariant |
| PluginRegistry.PluginRepo.DoRollbackTo | internal/db/plugin_repo.go:109-145 | re-roots the chain at an older version of the row the slug query returned; keeps the registry invariant |
| PluginRegistry.PluginRepo.DoRollback | internal/db/plugin_repo.go:318-328 | a read and an Activate of the previous version with nothing in between, or an error without one |
| PluginRegistry.PluginRepo.ReadPrevious | internal/db/plugin_repo.go:318-327 | the read of Rollback, which is outside any transaction |
| PluginRegistry.ReadStaysActivatable | internal/db/plugin_repo.go:275-328 | the version a rollback read can still be activated after any operations in between, and is then the active one |
| PluginRegistry.PluginRepo.DoSetStatus | internal/db/plugin_repo.go:309-317 | Disable and Archive of the active version |
| PluginRegistry.RegisterEffect | internal/db/plugin_repo.go:192-241 | succeeds exactly when the name has no such version; the active row is archived in favour of the new one, which is the root exactly when there was none; nothing else changes |
| PluginRegistry.UpdateEffect | internal/db/plugin_repo.go:66-107 | each refusal as an exact condition; the row found by slug is archived in favour of the new one, which remembers it |
| PluginRegistry.ActivateEffect | internal/db/plugin_repo.go:275-307 | succeeds exactly for stored versions of the name; an active one stays as it is, another takes over |
| PluginRegistry.RollbackToEffect | internal/db/plugin_repo.go:109-145 | succeeds exactly when another row of the active row's name has the version, which takes over |
| PluginRegistry.SetStatusEffect | internal/db/plugin_repo.go:309-317 | changes the status of the name's active row and nothing else |
| PluginRegistry.SupersedeKeeps | internal/db/plugin_repo.go:66-145 | putting a target in the place of an active row keeps the invariant and makes the target the one active version of its name |
| PluginRegistry.SupersedeWithinIff | internal/db/plugin_repo.go:66-145 | it keeps both pointers within the name exactly when the replaced row has the target's name |
| PluginRegistry.SupersedeSlugIff | internal/db/plugin_repo.go:66-145 | a slug keeps one active row at most exactly when the slug of the row made active has no other |
| PluginRegistry.UpdateWithinIff | internal/db/plugin_repo.go:66-107 | whatever its name, an update keeps one active version per name and acyclic pointers; it keeps pointers within the name, and can be rolled back by name, exactly when that is the name of the row it replaces; the index stops it only when it is not |
| PluginRegistry.UpdateCrossesNames | internal/db/plugin_repo.go:66-107 | "CSV Viewer" updated as "csv viewer": pointers cross names, the first name has no active version, and Rollback fails |
| PluginRegistry.RegisterSlugIff | internal/db/plugin_repo.go:192-241 | a slug still leads to one active row after a registration exactly when no other name is active under it |
| PluginRegistry.RegisterSharesSlug | internal/db/plugin_repo.go:192-241 | "csv viewer" registered beside "CSV Viewer": two active rows under one slug |
| PluginRegistry.UpdateKeepsSlug | internal/db/plugin_repo.go:66-107 | an update never gives a slug a second active row |
| PluginRegistry.ActivateSlugIff | internal/db/plugin_repo.go:275-307 | activation keeps one active row per slug exactly when no other name is active under the target row's slug |
| PluginRegistry.RollbackToSlugIff | internal/db/plugin_repo.go:109-145 | the same for a rollback to a version |
| PluginRegistry.ActivateSharesSlug | internal/db/plugin_repo.go:275-307 | after "CSV Viewer" is updated as "csv viewer", activating its old version gives their slug two active rows |
| PluginRegistry.StepSlugIff | internal/db/plugin_repo.go:66-328 | for every operation the exact condition under which every slug keeps one active row at most |
| PluginRegistry.RunSlugsIff | internal/db/plugin_repo.go:66-328 | over a run every slug has one active row at most throughout exactly when every operation met its condition |
| PluginRegistry.OneToOneIff | internal/db/plugin_repo.go:66-107 | names and slugs stay one-to-one exactly when the new row's agree with the table's |
| PluginRegistry.OneToOneUpdate | internal/db/plugin_repo.go:66-107 | while they are one-to-one, that is exactly an update under the replaced row's name, and the index never stops it |
| PluginRegistry.SlugIgnoresCase | internal/service/plugin_service_impl.go:117-129 | names that differ in the case of letters only have one slug |
| PluginRegistry.SlugShape | internal/service/plugin_service_impl.go:117-130 | a slug holds the letters and digits of the name in order, and single hyphens between them |
| PluginRegistry.StepKeeps | internal/db/plugin_repo.go:66-328 | every operation keeps one active version per name, active ones not superseded, stored and acyclic pointers; all but an update under another name keep pointers within the name |
| PluginRegistry.RunKeeps | internal/db/plugin_repo.go:66-328 | so every run does, whatever its names and slugs; pointers stay within the name when every update keeps the name of the row it replaces |
| PluginRegistry.NoCycles | internal/db/plugin_repo.go:109-145 | no chain of superseded_by pointers returns to its start, however often rollback re-roots it |
| PluginRegistry.RollbackTwice | internal/db/plugin_repo.go:318-328 | a successful rollback followed by another restores the original active row and touches no third row |
| EdgeRepo.DecideIsMatrix | internal/db/edge_repo.go:230-262 | the decision table admits an edge exactly when the matrix still holds with it and the target is in lineage mode |
| EdgeRepo.PGEdgeRepo.Create | internal/db/edge_repo.go:201-282 | which check or table constraint refuses it first (self-edge, target, matrix, sequence number 0, duplicate, missing tree or source), and that a success appends one active row and breaks no node's matrix |
| EdgeRepo.CreateAnswers | internal/db/edge_repo.go:201-282 | every refusal and the success as an exact condition on the edge and the tables |
| EdgeRepo.PGEdgeRepo.ActiveIncoming | internal/db/edge_repo.go:555-578 | the undeleted edges of a target, and no others, in insertion order |
| EdgeRepo.PGEdgeRepo.ValidateIncomingInvariant | internal/db/edge_repo.go:628-702 | accepts exactly the targets whose incoming edges satisfy the matrix |
| EdgeRepo.CheckReferenceSet | internal/db/edge_repo.go:650-690 | accepts exactly 2 to 20 distinct reference edges stamped with the target's tree whose sources include the anchor |
| EdgeRepo.PGEdgeRepo.CheckSources | internal/db/edge_repo.go:493-508 | passes exactly 2 to 20 distinct sources other than the target; each error names what is wrong |
| EdgeRepo.PGEdgeRepo.CreateReferenceSet | internal/db/edge_repo.go:486-550 | inserts the whole ordered set or nothing, and is refused exactly by its checks, a duplicate row, or a tree, target or source that does not exist; the rows are numbered in order from just above the tree's largest number, deleted rows included, or from 1 |
| EdgeRepo.PGEdgeRepo.CreateMultiReference | internal/db/edge_repo.go:486-702 | node, set and final validation, rolled back as a whole; a new node with stored sources that include its anchor is always accepted in an existing tree |
| EdgeRepo.ReplyAccepted | internal/db/edge_repo.go:486-702 | for a message with its anchor among the sources, acceptance is exactly a new id, an existing tree and 2 to 20 distinct stored sources other than itself |
| EdgeRepo.FreshSetAccepted | internal/db/edge_repo.go:486-702 | what CreateReferenceSet writes for a fresh target satisfies the matrix |
| EdgeRepo.PGEdgeRepo.GetActiveReferenceParents | internal/db/edge_repo.go:583-614 | active reference edges by stored order, with derived labels |
| EdgeRepo.ParentsInOrder | internal/db/edge_repo.go:583-614 | exactly the active reference edges of the target, by selection order, missing ones last, then sequence number, labelled R1, R2, ... |
| EdgeRepo.ReadBack | internal/db/edge_repo.go:486-614 | a set written for a fresh target is read back in the same order with labels R1, R2, ... and the same colours |
| EdgeRepo.PGEdgeRepo.SoftDelete | internal/db/edge_repo.go:346-358 | marks an active row deleted, not found otherwise |
| EdgeRepo.SoftDeleteEffect | internal/db/edge_repo.go:346-358 | keeps every node's matrix, except that a multi_reference target stays valid exactly when three or more sources were there and the anchor is not the one that goes |
| EdgeRepo.PGEdgeRepo.Move | internal/db/edge_repo.go:439-458 | moves exactly the active rows whose new source is a node and breaks no constraint; every other row, and the row's tree, target, kind and order, stay; the new number exceeds that of every active edge of the new source and follows one of them directly, or is 1 when there is none |
| EdgeRepo.NextNumbers | internal/db/edge_repo.go:443-444 | the numbers written by Move and by a reference set follow the largest there, negative or not, directly, and are 1 without any |
| EdgeRepo.MoveEffect | internal/db/edge_repo.go:439-458 | keeps every node's matrix, except that a multi_reference target stays valid exactly when the moved edge was not its anchor's |
| EdgeRepo.SmallestSetBreaks | internal/db/edge_repo.go:346-358 | a valid set of two is broken by deleting either edge and by moving the anchor's |
| EdgeRepo.SameTreeStepIff | internal/db/edge_repo.go:432-458 | a Create, reply or move that goes through keeps every active edge at a source of its own tree exactly when the sources it writes are in the edge's tree; everything else keeps it |
| EdgeRepo.MoveLeavesTree | internal/db/edge_repo.go:432-458 | a valid table in which Move takes an edge to a source of another tree |
| EdgeRepo.ReplyTakesForeignSources | internal/db/edge_repo.go:486-702 | a reply accepted with both of its sources in another tree |
| EdgeRepo.StepLinks | internal/db/edge_repo.go:201-702 | every transaction keeps the foreign keys of nodes and edges |
| EdgeRepo.RunSameTree | internal/db/edge_repo.go:201-702 | over a run edges stay within their trees if every caller checks |
| EdgeRepo.StepKeeps | internal/db/edge_repo.go:201-702 | with the foreign keys in place, node insertion, edge creation, multi-reference replies, and deletes and moves at lineage targets keep the matrix everywhere |
| EdgeRepo.RunKeeps | internal/db/edge_repo.go:201-702 | after every run the foreign keys hold, and after every run in scope every node satisfies the parent matrix |
| MigrateRepair.TryOnce | internal/db/migrate_repair.go:105-161 | one attempt ends the repair or moves the walk, with the row forced there |
| MigrateRepair.RepairDirty | internal/db/migrate_repair.go:76-164 | the bounded loop as a walk over the bookkeeping row against any engine |
| MigrateRepair.RunMigrateWithRepair | internal/db/migrate_repair.go:51-61 | success exactly when the first Up or the repair succeeds; success leaves the row clean at the maximum and no forced version exceeds it |
| MigrateRepair.AttemptSafe | internal/db/migrate_repair.go:105-161 | an attempt succeeds exactly when the engine reaches the maximum, or stops there on objects that exist and the row can be read and forced; it moves on just past a version that stopped on such objects, by at least two and never above the maximum |
| MigrateRepair.WalkSafe | internal/db/migrate_repair.go:105-163 | forced versions strictly increase and stay within the maximum; recovery ends clean at the maximum |
| MigrateRepair.RepairSafe | internal/db/migrate_repair.go:76-164 | the same for every row, reported version and engine; the first version forced is the dirty one, or none when this binary does not have it |
| MigrateRepair.RepairRecovers | internal/db/migrate_repair.go:76-164 | when nothing but objects that exist stands in the way and the maximum is below 128, the repair always gets there |
| MigrateRepair.CapBindsIff | internal/db/migrate_repair.go:40-46 | some engine makes the 64-step cap end the repair exactly when the maximum is at least 128 |
| VectorClock.Clock.Increment | internal/federation/clock.go:16-18 | raises the peer's counter by one and no other |
| VectorClock.Clock.Merge | internal/federation/clock.go:20-31 | a fresh clock with the merged counters; neither operand changes |
| VectorClock.RaiseCounters | internal/federation/clock.go:25-29 | the second loop, in any iteration order, yields the merged counters |
| VectorClock.Clock.Compare | internal/federation/clock.go:33-57 | Before and After by the pointwise order, for all counters including negative ones |
| VectorClock.CompareIsOrderIff | internal/federation/clock.go:33-57 | the verdict is the pointwise order exactly when no unknown peer's counter is negative or a known one exceeds anyway |
| VectorClock.JoinIsLub | internal/federation/clock.go:20-31 | Merge is above the receiver and below every common upper bound, and above the other clock exactly when no counter the other lacks is negative |
| VectorClock.NegativeCounters | internal/federation/clock.go:20-57 | a negative counter makes a smaller clock compare equal, and a merge fall below an operand |
| VectorClock.ClockCounts | internal/federation/clock.go:16-31 | a counter never exceeds its peer's number of events, and one's own counter equals it |
| VectorClock.ClockKnows | internal/federation/clock.go:16-31 | an event precedes another exactly when the other's clock has counted it |
| VectorClock.ClockOrder | internal/federation/clock.go:16-57 | clock order is Lamport's happened-before, in both directions |
| VectorClock.CompareDecidesCausality | internal/federation/clock.go:33-57 | in every run Before, After, Equal and Concurrent are exactly the causal relations of the two events |
| VectorClock.Execute | internal/federation/clock.go:16-31 | peers that increment locally and merge-then-increment on receipt produce the clocks the theorems speak of |
| RateLimiter.PeerRateLimiter.Allow | internal/federation/ratelimit.go:28-45 | the locked part, with the clock read before: a call is refused exactly when the key's window is running and holds limit calls, and then changes nothing; no other key's bucket changes |
| RateLimiter.Replay | internal/federation/ratelimit.go:28-45 | a run of calls through the limiter yields the verdicts the bounds are about |
| RateLimiter.InvariantHolds | internal/federation/ratelimit.go:28-45 | after every run, in whatever order readings enter, a bucket started at a reading, counts the calls with later readings, and bounds what any interval of one window has allowed so far |
| RateLimiter.WindowBound | internal/federation/ratelimit.go:28-45 | when calls enter in the order of their readings, at most 2*limit - 1 in any half-open interval of one window; at most limit per bucket |
| RateLimiter.LateBound | internal/federation/ratelimit.go:28-45 | when no reading enters more than D behind a newer one, at most 1 + (limit - 1) times the number of buckets within reach |
| RateLimiter.EnteredWithin | internal/federation/ratelimit.go:32-34 | with a clock that never goes back, the longest wait for the mutex bounds how far readings enter out of order |
| RateLimiter.ConcurrentBound | internal/federation/ratelimit.go:28-45 | the bound for concurrent calls that wait at most D between reading the clock and entering |
| RateLimiter.LateBoundIsReached | internal/federation/ratelimit.go:28-45 | for every limit, window and D some run reaches the bound |
| RateLimiter.NoBoundWhenUnordered | internal/federation/ratelimit.go:28-45 | with no limit on the wait an interval of one window can hold any number of allowed calls |
| RateLimiter.BoundIsReached | internal/federation/ratelimit.go:28-45 | for every limit and every window of two instants or more a run in order allows 2*limit - 1 calls within one window |
| RateLimiter.OneInstant | internal/federation/ratelimit.go:28-45 | in order, a window of a single instant never holds more than limit |
| RateLimiter.FreshBucketAllows | internal/federation/ratelimit.go:28-45 | the first call of a fresh bucket passes; a limiter without a limit or window passes all |
| Snapshot.FillDigests | internal/db/snapshot_repo.go:247-261 | the digest slice, with created_at in milliseconds and "nil" for no parent |
| Snapshot.CanonicalBuffer | internal/db/snapshot_repo.go:229-301 | the sorted node lines followed by the sorted edge lines |
| Snapshot.OneNodeLine | internal/db/snapshot_repo.go:247-296 | a node's line: its seven columns between colons, whole milliseconds, "nil" for no parent |
| Snapshot.OneEdgeLine | internal/db/snapshot_repo.go:276-301 | an edge's line: id, source, target, type |
| Snapshot.LinesInOrder | internal/db/snapshot_repo.go:263-290 | nodes by sequence number and then id, edges by source, target, type and id, none lost |
| Snapshot.OrderIndependent | internal/db/snapshot_repo.go:229-301 | every ordering of nodes and edges gives the same buffer |
| Snapshot.FieldsUnique | internal/db/snapshot_repo.go:291-301 | a line determines its fields when they hold no separator |
| Snapshot.RecordsUnique | internal/db/snapshot_repo.go:291-301 | the buffer determines its lines |
| Snapshot.RecordsSplit | internal/db/snapshot_repo.go:291-301 | where the nodes end and the edges begin can be read off |
| Snapshot.BufferInjective | internal/db/snapshot_repo.go:229-301 | equal buffers of separator-free states mean equal multisets of hashed nodes and of edges |
| Snapshot.StoredBufferIff | internal/db/snapshot_repo.go:60-75 | for all rows the column types and constraints admit, with unique node ids, the buffers are equal exactly when the multisets of edges and of hashed node columns are |
| Snapshot.DigestDetermines | internal/db/snapshot_repo.go:247-261 | a stored node's line determines its id, number, milliseconds, parent or lack of one, hash, format and type |
| Snapshot.UuidTextInjective | internal/db/snapshot_repo.go:247-272 | the text of a UUID determines it |
| Snapshot.UuidTextClean | internal/db/snapshot_repo.go:247-272 | the text of a UUID holds no separator |
| Snapshot.ParentReadsBack | internal/db/snapshot_repo.go:248-252 | the parent is recovered unless an id is literally "nil" |
| Snapshot.SeparatorsCollide | internal/db/snapshot_repo.go:291-301 | two edges with ids that are no UUIDs have one buffer: BufferInjective needs fields without separators; no stored row has such ids |
| Accuracy.WalkEdges | internal/ctxaccuracy/accuracy.go:135-152 | terminates on every finite graph; returns without duplicates exactly the reachable nodes; fails exactly when a reachable node cannot be read |
| Accuracy.WalkParentId | internal/ctxaccuracy/accuracy.go:117-133 | the parent chain from the target, cycle or not, without duplicates, is exactly what parent links reach; fails exactly when one of these nodes cannot be read |
| Accuracy.Unique | internal/ctxaccuracy/accuracy.go:282-292 | the non-nil ids, once each, in the order in which they first occur |
| Accuracy.FirstsInOrder | internal/ctxaccuracy/accuracy.go:282-292 | an id that comes earlier in the result occurs earlier in the list |
| Accuracy.Difference | internal/ctxaccuracy/accuracy.go:294-306 | exactly the ids not excluded; no duplicates are introduced |
| Accuracy.DeriveEntry | internal/ctxaccuracy/accuracy.go:90-113 | the entry fails exactly when a read of the chain, of the edges' reach or of the topics does; edge-only ancestors are what edges reach and the parent chain does not; topics are the distinct ids read |
| Accuracy.Tally | internal/ctxaccuracy/accuracy.go:189-261 | hits are the expected ids in the manifest; hits plus misses are the unique expected ids |
| Accuracy.CountExtra | internal/ctxaccuracy/accuracy.go:229-238 | selected ids that were not expected are all but the hits |
| Accuracy.CountHits | internal/ctxaccuracy/accuracy.go:189-261 | the same over all entries, a missing manifest counting as all misses; hits plus extras are the selected nodes |
| Accuracy.CountSamples | internal/ctxaccuracy/accuracy.go:191-206 | roots are the entries marked so or expecting only the target, the others non-root; depth, fallback and edge-only counts |
| Accuracy.ScoreGolden | internal/ctxaccuracy/accuracy.go:189-261 | hits plus misses equal the total of unique expected ids, hits plus extras the selected nodes; accuracy lies in [0,1] and is 1 exactly without misses; the warning is given exactly for a sample without depth and topics; the report lists exactly the entries with something missing, extra or edge-only |
| Accuracy.ScoreEntry | internal/ctxaccuracy/accuracy.go:213-252 | the missing ids in expected order and the extra ones in rising order, for nodes and topics |
| Accuracy.WithoutFacts | internal/ctxaccuracy/accuracy.go:213-228 | the missing ids are exactly those not selected, in list order |
| Accuracy.EntryUnique | internal/ctxaccuracy/accuracy.go:213-252 | these lists are determined by what was expected and selected |
| Accuracy.ReportEntries | internal/ctxaccuracy/accuracy.go:189-252 | the entries with something to report, each with its lists, in order |
| Labels.ExtendLabel | cmd/canopyd/cli.go:777-795 | the builder loop computes the label one character longer, or the id itself |
| Labels.ExtendedFacts | cmd/canopyd/cli.go:777-795 | extension keeps the label a prefix of the id, a prefix of its hyphen-free form or the id; it adds one character of that form, or gives the id when none is left, and stops only at the id |
| Labels.ShortLabels | cmd/canopyd/cli.go:744-750 | every id starts with its short prefix |
| Labels.GroupByLabel | cmd/canopyd/cli.go:751-757 | the groups are the ids of each label in list order |
| Labels.ExtendGroup | cmd/canopyd/cli.go:758-770 | every id of the group grows once for each of its occurrences; something grows exactly when a label changes |
| Labels.ExtendColliding | cmd/canopyd/cli.go:751-770 | a pass over the groups in any order has one outcome, the round computed from the labels at its start |
| Labels.UniqueLabels | cmd/canopyd/cli.go:744-772 | terminates and gives distinct ids distinct labels of the promised shapes; the map is a function of the ids, the same for every iteration order |
| Labels.StableDistinct | cmd/canopyd/cli.go:751-772 | labels that a round leaves alone are distinct |
| Labels.CompactClean | cmd/canopyd/cli.go:777-795 | the form without hyphens holds none and is the id when the id holds none |
| Labels.UniqueKeeps | cmd/canopyd/cli.go:744-772 | an id whose first eight characters no other entry shares keeps them as its label |
| Labels.OrderIrrelevant | cmd/canopyd/cli.go:744-772 | listing the ids in another order gives the same labels |

## Left out

- Strings are character sequences; UUIDs, hashes, colour keys, JSON and quoted attributes are plain text or parameters, and times are integers. `int(float64(P)*0.5)` is integer halving, which is exact below 2^53.
- Integer widths: 64-bit wrap-around of clock counters, revisions and sequence numbers is not modelled.
- Relevance scores are reals, so NaN does not occur.
- Readers: the ancestors arrive self first, as the compiler assumes (the query orders by sequence_num); topic and card reference resolution, their caps, deduplication and malformed references are inputs of the compiler model, and so are first-sentence extraction and previews; an optional reader that fails is one that finds nothing.
- Warning texts, manifest titles and the manifest hash are not modelled, only the numbers they carry.
- RateLimiter.WindowBound: for calls that enter in the order of their readings; ConcurrentBound covers the others. Readings differ from the zero instant, which the code uses for "no bucket".
- Snapshot.OrderIndependent: nodes with equal sequence number and id agree on every hashed field, as a primary key ensures; the sort is not stable otherwise.
- PluginRegistry.RunKeeps: new rows have unused ids; description, permissions, source and audit columns and archived_at are omitted.
- EventHub.CardEventHub.UnsubscribeFrom: called with the card and id its subscription was given, as the returned closure does; nil hubs are not modelled.
- EdgeRepo.RunKeeps: deletes and moves at multi_reference targets are outside the run because they can break the matrix; SoftDeleteEffect and MoveEffect say exactly when. Node and tree deletion and nil-id checks are not modelled, so every stored node is a live one.
- MigrateRepair.RepairSafe: speaks of engines that go up to the maximum, stop dirty only at later versions within it, or leave the row alone, and of the bookkeeping row only; whether every migration body ran depends on where the external engine restarts.
- CardStore.WindowIsSuffix: not exactly 20 events, since sequences are shared by all cards of a type.
- CardProtocol.RunKeeps: a statement that reports an error has had no effect.
- UpdateCardData is PatchCard at the revision just read and adds no step; CreateCard's event is an append like the others; card repositories are one per type and only one is modelled.
- ContextCompiler.SelectionBound: labels short enough for the omission marker to fit the smallest allocation, as in CutSourceFits.
- Path queries, tree event log, calendar store, approvals, topics, search, token minting, HTTP handlers, frontend, desktop shell and scripts would only add single-statement facts or are input and output.
