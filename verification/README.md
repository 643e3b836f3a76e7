# Runs that a stranger can re-derive

This project models the parts of the repository that carry its central claim:
a run of a flow that was executed can be re-derived from what it published,
and one that was tampered with cannot. It proves properties of five linked
components.

1. **Planner, executor and linkage verifier.** `Plan`, `Waves`, `Executor` and
   `Linkage` model how a flow is levelled, run in waves and re-derived in index
   order from receipts and traces. `Completeness` shows that every executed run
   links; `Linkage` shows that what links is determined; `RunTheorems` shows
   that waves refine running one step at a time. `Tokens`, `Template` and
   `ChainRoot` carry the template language and the sealed root.
   `TemplateMeaning` says which value a reference reads and what a string, an
   array and an object resolve to; `PlanMeaning` which flows are accepted;
   `StepMeaning` what the sealed receipt and trace of a step say, from what the
   outside answered; `LinkageMeaning` what linking asks of the receipts and
   traces themselves.
2. **Verdict and hired runs.** `Verify` models the recursive three-valued
   verdict, `HireTree` the executor's recursion into sub-flows, and `EndToEnd`
   joins them: a tree of runs that was executed and published verifies exactly
   when nothing in it is left to doubt. `Hires` says what a run claims of the
   runs it hired, and `TwoViews` that two strangers who verify a run under one
   sealed root hold the same tree. `VerdictMeaning` says which evidence makes a
   run failed, incomplete or verified, and `ClaimMeaning` which runs its traces
   claim.
3. **Indexer.** `Store`, `Ingest` and `CatchUp` model the mutable store and the
   loops that feed it; `Replay` and `Reorg` relate it to a plain fold of the
   canonical log, `Polling` composes any number of catch-ups, `RunRows` and
   `Directory` say what a folded step, seal, listing and bond mean, and `Repair`
   and `DirectoryReorg` say exactly what a pass repairs after a reorganisation.
4. **Printers and parsers.** `Canonical`, `Canonicalize`, `CanonicalizeLoops`,
   `CanonicalPython` and `CanonicalPythonLoops` model RFC 8785 canonicalisation
   in both languages, `HashJson` the hash taken over it, and `Abi` the listing's
   calldata and the decoder that reads such data. `CanonicalDomain`
   says which values have a canonical text; `JsonReader` and `BytesReader` read
   JSON and UTF-8 by their own grammars, and find the value again.
5. **secp256k1.** `Modular`, `Fermat`, `Jacobian`, `AffineCurve`, `Groups`,
   `Scalars` and `Recovery` model extended Euclid, the Jacobian formulas,
   double-and-add and public key recovery.

`Json`, `Results`, `Receipts`, `Flow`, `Sorting`, `Hex` and `Unicode` are shared.

## How to read it

- Loops of the source are methods with invariants, proved equal to a function of
  their inputs or of the old state; what the source promises is proved about
  those functions.
- Keccak, SHA-256 and Unicode's NFC are parameters. No hash is assumed
  injective, since none of fixed length is: where a result depends on it, the
  conclusion is "or these two values collide", and the two values are ones that
  were hashed on the way.
- Agents, hired runs, storage and chain are oracles: functions from what was
  asked to what was answered.
- The curve's theorems hold over any odd prime modulus and any group order with
  the stated shape; `Recovery.SECP256K1` holds the constants, whose shape is
  proved. Three facts about the curve are hypotheses, gathered in
  `Recovery.Assumed`: that both numbers are prime, that the chord-and-tangent
  law is associative on the curve, and that every point has the group's order.

## Where the code and its comments differ

- The point at infinity `{0, 1, 0}` does not satisfy y^2 = x^3 + 7 z^6, so
  addition leaves the curve in the one branch that returns it for two opposite
  points. `Jacobian.AddStays` gives the exact condition,
  `Jacobian.NegativeLeaves` the points that meet it, and `Jacobian.ValidStays`
  the property that holds of every branch.
- `catchUp` starts above the cursor and `findReorg` never looks below `from`
  (packages/indexer/src/ingest.ts:102), so `reorgedFrom < from` never holds and
  a catch-up repairs no row at or below the cursor unless a log it reads writes
  that row's key again (`Repair.CatchUpKeepsOldRows`). A pass, and so a
  catch-up, leaves exactly the chain's steps and seals if and only if nothing
  is missing below its start and every stale row it does not look at has its
  key written by what it reads (`Repair.PassConvergesExactly`,
  `Repair.CatchUpConvergesExactly`). With an explicit `from` that looks back
  far enough it always does (`Reorg.IngestConverges`).
- A rollback deletes the latest version of a listing, and the latest bond with
  its sticky `slashed`, and cannot restore what they had overwritten. An agent's
  listing is the chain's after every pass exactly when no pass loses it, which
  one does when the rollback deletes it, the agent was listed below `from`, and
  the range registers no version as high (`DirectoryReorg.ListingsConverge`);
  a bond is lost likewise when the range has no bond log of the agent, or does
  not bring back its amount or that it was slashed
  (`DirectoryReorg.BondsConverge`). `RollbackForgetsListing` and
  `RollbackForgetsSlash` give passes that lose one. Both results take a block's
  hash to commit to all the blocks before it.
- The planner accepts one more level of nesting than the executor follows by
  default. `HireTree.DepthRefusesExactly` says which flows depth keeps from
  being followed, for every limit, and `HireTree.FollowedWhenItFits` that it
  refuses no sub-flow of the others.
- A disclosed run that the same run had opened by then as a sub-flow is not
  followed twice; any other disclosure keeps a run from being verified
  (`Hires.OwnHiresExactly`, `EndToEnd.ExecutedRunsVerify`).
- TypeScript refuses a key `toJSON`, the Python port does not
  (`CanonicalPython.ToJsonDivides`).
- An ok step whose output is JSON null is not stored for the steps below it;
  completeness holds through that case.
- A batch size below 1 makes `catchUp` loop forever when there is anything to
  scan; the source does not refuse it (`CatchUp.EndsExactly`).

## Model

| member | source | states |
|---|---|---|
| Tokens.ScanLoop | packages/core/src/template.ts:43-67 | the loop over the matches produces exactly the tokens of the leftmost reading of the string |
| Tokens.TokenizeLoop | packages/core/src/template.ts:43-67 | tokens are returned exactly when no literal holds an unmatched pair of braces |
| Tokens.ScanRejoins | packages/core/src/template.ts:43-67 | the source texts of the tokens rejoin to the input, from any cursor |
| Tokens.TokenizeIsTheOnlyReading | packages/core/src/template.ts:43-67 | any brace-free reading that rejoins to the string is the one tokenize finds, so the split is unambiguous |
| Template.TraverseLoop | packages/core/src/template.ts:85-117 | walking a path segment by segment yields the value or the first failure on the way |
| Template.ResolveStringLoop | packages/core/src/template.ts:174-197 | the loop gives what `TemplateMeaning.StringMeans` says a string resolves to: a lone reference keeps its type, anything else is rendered, and the first failing token decides |
| Template.TemplateFrame | packages/core/src/template.ts:199-272 | when the referenced steps are S, contexts that agree on the inputs and on the outputs in S resolve to the same value or the same failure |
| Template.ResolvedReadsAreAvailable | packages/core/src/template.ts:119-159 | a template that resolves had an output for every step it references |
| TemplateMeaning.ParsesExactly | packages/core/src/template.ts:69-83 | an expression is a path exactly when it is two or more names joined by dots with white space around it |
| TemplateMeaning.SegmentsAreNames | packages/core/src/template.ts:72-80 | a name is one or more letters, digits, underscores and hyphens |
| TemplateMeaning.BlankIsWhite | packages/core/src/template.ts:70-70 | what is trimmed is the white space and the line terminators of ECMAScript |
| TemplateMeaning.ReadsExactly | packages/core/src/template.ts:85-159 | a reference resolves to v exactly when its path leads to v, child by child, from the inputs or from the output of the step it names |
| TemplateMeaning.PutThenReadInput | packages/core/src/template.ts:119-135 | a value put at a path of fields and indices of the inputs is what `inputs.<path>` reads |
| TemplateMeaning.PutThenReadOutput | packages/core/src/template.ts:136-159 | a value put at a path of the output of a step is what `steps.<id>.output.<path>` reads |
| TemplateMeaning.ShowsExactly | packages/core/src/template.ts:161-172 | inside a text null, true and false read as those words, a number as its text, negative zero as 0 and a string as it is; nothing else reads at all |
| TemplateMeaning.ShowsCanonically | packages/core/src/template.ts:161-172 | apart from strings that is the canonical text of the value |
| TemplateMeaning.StringMeans | packages/core/src/template.ts:174-197 | a string that is one reference resolves to exactly what it reads, any other to exactly the text its parts contribute in order |
| TemplateMeaning.UnreadableFails | packages/core/src/template.ts:174-176 | a string fails as unbalanced exactly when it has no reading |
| TemplateMeaning.IdentitySubstitution | packages/core/src/template.ts:174-197 | where each reference reads as its own source text, a string of more than a lone reference resolves to itself |
| TemplateMeaning.PlainStays | packages/core/src/template.ts:199-217 | a value without braces resolves to itself |
| TemplateMeaning.ArrayMeans | packages/core/src/template.ts:199-217 | an array resolves to the array of its resolved items, and to nothing else |
| TemplateMeaning.ObjectMeans | packages/core/src/template.ts:199-217 | an object keeps its keys in order with each field resolved, and fails where a key opens a reference |
| Receipts.OkMeansEstablished | packages/core/src/outcome.ts:137-165 | a step may be reported ok exactly when it was neither skipped nor failed and everything demanded of it was established |
| Waves.LevelsFill | packages/executor/src/plan.ts:293-333 | the levels of the dependency graph are all nonempty, so there are waves 0 to the deepest |
| Waves.LevelsAreUnique | packages/executor/src/plan.ts:293-333 | no other list of waves has those levels |
| Waves.ChainFitsLevel | packages/executor/src/plan.ts:293-333 | no dependency chain ending in a step is longer than its wave number |
| Waves.ChainOfLevel | packages/executor/src/plan.ts:293-333 | a dependency chain of exactly that length ends in the step |
| Waves.WavesPartition | packages/executor/src/plan.ts:293-333 | each step is in one wave, no wave holds anything else, and each keeps declaration order |
| Waves.BuildWaves | packages/executor/src/plan.ts:293-333 | success exactly when every dependency is declared earlier; then the waves are the levels; a reported cycle is a set of steps each waiting on another of the set, and without such a set the error names the first dependency that is not declared before its step |
| Waves.CheckOrder | packages/executor/src/plan.ts:322-333 | the error names the first dependency, step by step, that is not declared before its step, and there is one only then |
| Plan.AcceptedIsSound | packages/executor/src/plan.ts:193-291 | an accepted plan has one planned step per declared step in order, distinct ids, dependencies known and earlier, and every referenced step among the dependencies |
| Plan.PlanAndLevel | packages/executor/src/plan.ts:175-291 | planning and levelling agree with the specification, and an accepted plan's waves are its levels |
| PlanMeaning.WalkExactly | packages/core/src/template.ts:229-272 | the walk fails exactly where a string is unbalanced or a reference bad, and otherwise finds exactly the steps some reference names |
| PlanMeaning.InputsExactly | packages/executor/src/plan.ts:149-163 | and the inputs found are exactly those some reference names |
| PlanMeaning.AcceptedExactly | packages/executor/src/plan.ts:193-291 | at every nesting depth a flow is accepted exactly when its steps are told apart, mention declared inputs and needed steps only, need earlier steps, and nest acceptable flows within the levels left |
| PlanMeaning.PlannerAccepts | packages/executor/src/plan.ts:165-178 | so `planFlow` accepts exactly the acceptable flows that nest at most four levels |
| Executor.ExecuteRun | packages/executor/src/execute.ts:352-420 | the wave loop leaves the receipts, traces, root and outcome of the pure run; `StepMeaning.SealedStepMeans` says what those receipts and traces say of each step |
| StepMeaning.SealedStepMeans | packages/executor/src/execute.ts:462-640 | the sealed receipt and trace of every step, from the answers of the outside: held back is skipped, no input or no answer is failed, an answer short of what was demanded is unattested, any other is ok; with the hashes, the times and what was stored |
| StepMeaning.OkExactly | packages/core/src/outcome.ts:137-165 | a step is ok exactly when it was not held back, has an input, was answered, and everything demanded was established |
| StepMeaning.OutputsAreOfOk | packages/executor/src/execute.ts:396-406 | what later steps read is exactly the outputs of ok steps that are not null |
| StepMeaning.HaltedIsSealed | packages/executor/src/execute.ts:404-406 | a wave is halted exactly when under failFast a sealed receipt of an earlier wave is not ok |
| Schedules.LevelsAreSchedule | packages/executor/src/execute.ts:352-406 | the planner's waves run every step once, after everything it depends on |
| Schedules.OneByOneIsSchedule | packages/executor/src/execute.ts:352-406 | so does declaration order, one step at a time |
| Schedules.RunKeeps | packages/executor/src/execute.ts:352-406 | after any schedule every step is completed once and each outcome is what the step would give on the final outputs and statuses |
| RunTheorems.OneReceiptPerStep | packages/executor/src/execute.ts:408-420 | the sealed receipts are one per step with indices 0 to n-1, numbered as planned |
| RunTheorems.SchedulesAgree | packages/executor/src/execute.ts:352-406 | without failFast any two schedules give the same receipts, outputs and statuses |
| RunTheorems.WavesRefineOneByOne | packages/executor/src/execute.ts:352-406 | the wave loop gives what an interpreter running one step at a time in declaration order gives |
| RunTheorems.NoOkAboveNotOk | packages/executor/src/execute.ts:462-478 | no ok step depends, at any depth, on a step that is not ok |
| RunTheorems.FailingWaveHalts | packages/executor/src/execute.ts:404-406 | under failFast a wave with a step that is not ok halts the run |
| RunTheorems.FailFastSkips | packages/executor/src/execute.ts:462-478 | once halted, every outcome recorded later is a skip |
| RunTheorems.FailFastSeals | packages/executor/src/execute.ts:352-420 | under failFast the sealed receipt of every step in a wave after that of a step that is not ok says skipped |
| RunTheorems.OutcomeIsFirstFailure | packages/executor/src/execute.ts:408-420 | the sealed outcome is 0 exactly when all steps are ok, otherwise the status of the lowest-indexed step that is not |
| Linkage.CheckStep | packages/core/src/linkage.ts:96-202 | one step of the loop reports ok exactly when the step links, and extends the confirmed outputs and statuses accordingly |
| Linkage.VerifyLinkage | packages/core/src/linkage.ts:73-233 | the report is ok exactly when every step links and no receipt is stray, and counts exactly the steps that link |
| LinkageMeaning.StepLinksExactly | packages/core/src/linkage.ts:96-202 | a step passes exactly when its reads are declared and earlier, and its latest receipt and trace hold: both hashes and ok upstream steps when it is ok, its output the one committed to, its input derived from outputs committed to by earlier steps |
| LinkageMeaning.LinkedExactly | packages/core/src/linkage.ts:73-233 | a run passes exactly when every declared step does and every receipt is of a declared step |
| LinkageMeaning.DerivedExactly | packages/core/src/linkage.ts:166-195 | the hash reported as derived is that of the template resolved over the outputs committed to, where the receipt commits to an input and those exist |
| Linkage.SameLookupsLink | packages/core/src/linkage.ts:78-95 | nothing but what the look-ups find matters: queries that look up alike link alike |
| Linkage.OrderDoesNotMatter | packages/core/src/linkage.ts:78-95 | short of two different receipts for one index or two records of one step, the order and repetition of receipts and evidence do not matter |
| Linkage.LinkedIsDerived | packages/core/src/linkage.ts:96-202 | every ok step's committed input hash is that of its template resolved over nothing but the run's inputs and the committed outputs of strictly earlier ok steps |
| Linkage.OutputsUnique | packages/core/src/linkage.ts:78-202 | two evidence sets accepted against the same receipts agree on every committed output, or that very pair of outputs collides |
| Linkage.InputsUnique | packages/core/src/linkage.ts:96-202 | and on every derived input, unless outputs it reads collide |
| Completeness.StepPasses | packages/core/src/linkage.ts:96-202 | each executed step passes the verifier's checks, in every branch of the executor |
| Completeness.EveryRunLinks | packages/executor/src/execute.ts:352-411 | for every sound plan, schedule and agent behaviour, failFast or not, the receipts and traces written link |
| Completeness.PlanRunCheck | packages/core/src/linkage.ts:73-233 | planning, running and verifying any accepted flow reports ok with every step linked |
| ChainRoot.EncodeInjective | packages/core/src/receipt.ts:55-102 | two receipts with one fixed-width encoding are one receipt |
| ChainRoot.EncodesExactly | packages/core/src/receipt.ts:70-97 | a receipt is encoded exactly when each number is within its Solidity type |
| ChainRoot.EncodingLays | packages/core/src/receipt.ts:80-97 | the eleven fields lie one word each in the declared order, hashes as they are and numbers with the least significant byte last |
| ChainRoot.AssertContiguous | packages/core/src/chain-root.ts:26-45 | accepted exactly when the indices are 0 to n-1, each once |
| ChainRoot.FoldChainRoot | packages/core/src/chain-root.ts:47-61 | the loop gives the root of the receipts in index order, and nothing when they are not contiguous or do not fit their widths |
| ChainRoot.RootIsFold | packages/core/src/chain-root.ts:47-61 | the root of n receipts is the hash of the first encoding, or of the root of the others followed by the hash of the last encoding |
| ChainRoot.ChainRootProgression | packages/core/src/chain-root.ts:63-72 | element i is the root of the first i+1 receipts |
| ChainRoot.RootBinds | packages/core/src/chain-root.ts:47-61 | ordered receipt lists of any two lengths with one root are equal, or two preimages hashed on the way collide |
| ChainRoot.OrderIrrelevant | packages/core/src/chain-root.ts:47-61 | the root does not depend on the order receipts arrive in |
| ChainRoot.ChainRootBindsRun | packages/core/src/chain-root.ts:26-72 | two contiguous receipt sets of any sizes with equal roots are the same receipts, or two preimages hashed on the way collide |
| Hex.IdRoundTrip | packages/core/src/hash.ts:26-41 | a 32-byte id written as text is read back |
| ClaimMeaning.ParsesId | packages/verify/src/verify.ts:575-576 | an id is read from a text exactly when it is 0x and the two hex digits of each byte, in either case |
| HireTree.ChildTextInjective | packages/executor/src/execute.ts:980-994 | two different steps or parents derive their child run id from different texts |
| ClaimMeaning.ChildTextSpells | packages/executor/src/execute.ts:964-966 | a child run id is the hash of the prefix, the id of the parent, a colon and the step index in decimal |
| ClaimMeaning.ChildOutputSays | packages/executor/src/execute.ts:988-994 | a sub-flow step puts out the ids of its run and flow, the root, the number of steps and the outcome |
| ClaimMeaning.ParentIsTold | packages/executor/src/execute.ts:968-1012 | a parent step is told of the run it opened that it did not complete, or what it puts out and whether every step of it was ok |
| HireTree.OpenedIsBounded | packages/executor/src/execute.ts:312-331 | every run opened has fewer ancestors than the depth limit, flow ids on its lineage are distinct, and its id is the one its path derives |
| HireTree.IdsDistinct | packages/executor/src/execute.ts:964-994 | different paths in the tree have different run ids, or the hash fails on texts derived along those paths |
| HireTree.HireTreeIsBounded | packages/executor/src/execute.ts:319-378 | at most maxDepth runs nest, flow ids on any lineage are distinct, and run ids in the tree are distinct up to such a failure of the hash |
| HireTree.AcceptedNesting | packages/executor/src/plan.ts:165-200 | an accepted flow nests no deeper than the planner's limit and one more |
| HireTree.NestedAccepted | packages/executor/src/plan.ts:193-200 | a chain of n nested flows is accepted exactly when it fits that bound |
| HireTree.OpenedRunsSpec | packages/executor/src/execute.ts:525-575 | each run opened is a run of the accepted flow nested at its path, below the depth limit |
| HireTree.FollowedWhenItFits | packages/executor/src/execute.ts:319-331 | where the nesting fits below the lineage, an opened run has each sub-flow opened unless that flow is on the lineage already: depth refuses none |
| HireTree.DepthRefusesExactly | packages/executor/src/execute.ts:319-323 | for every flow, lineage and limit, depth keeps some nested flow from ever being opened exactly when the nesting does not fit |
| HireTree.PlannerLooksOneDeeper | packages/executor/src/plan.ts:165-173 | with the default limits an accepted flow nests up to five flows, and some nested flow is never opened exactly when it nests five |
| Verify.CheckStep | packages/verify/src/verify.ts:436-680 | a receipt adds a failure or a gap exactly as `VerdictMeaning.StepVerdicts` spells out: a failure when something it commits to does not hold, a gap when evidence is missing |
| Verify.CheckSteps | packages/verify/src/verify.ts:436-710 | the loop over receipts finds the failures, the gaps and the hired runs of all of them |
| Verify.CheckSeal | packages/verify/src/verify.ts:407-432 | failures exactly when the seal disagrees with the folded root or the count, a gap exactly when there is no seal |
| Verify.CheckClaim | packages/verify/src/verify.ts:775-846 | how a hired run's own verdict and sealed root weigh on its parent, for sub-flows and for disclosed runs |
| Verify.VerifyRun | packages/verify/src/verify.ts:347-870 | the report gives the verdict that `VerdictMeaning.VerdictMeans` spells out, the counts that decide it, the roots, the number of steps and whether the run succeeded |
| VerdictMeaning.VerdictMeans | packages/verify/src/verify.ts:347-870 | for every spec and depth: failed exactly when there are no receipts or some evidence is wrong, incomplete exactly when none is wrong and some is missing, verified when neither, and thrown where a declared step has no evidence |
| VerdictMeaning.AnchoredInOrder | packages/verify/src/verify.ts:396-398 | the receipts are those logged, each as often, in ascending step index |
| VerdictMeaning.StepVerdicts | packages/verify/src/verify.ts:436-680 | what makes a receipt wrong and what makes it incomplete, in what is retrieved and hashed |
| VerdictMeaning.RunVerdicts | packages/verify/src/verify.ts:407-770 | the same of a run: flow ids that differ, no root, a seal that differs or linkage that breaks are wrong; no seal, no spec or missing evidence is incomplete |
| VerdictMeaning.HireVerdicts | packages/verify/src/verify.ts:775-846 | the same of a hired run: another root or a failed sub-flow is wrong; one not reached, not sealed, incomplete, or disclosed and failed is missing |
| VerdictMeaning.ThrowsExactly | packages/verify/src/verify.ts:718-739 | the procedure throws exactly when every trace reads and a declared step has none |
| Verify.VerifiedAllTheWayDown | packages/verify/src/verify.ts:407-846 | the verdict is verified exactly when the run is sealed with the folded root and count, every trace is retrieved with proof and holds, linkage is ok, and every hired run is a sub-flow sealed with the claimed root and itself verified |
| Verify.EveryDisclosureClaimed | packages/verify/src/verify.ts:516-561 | every run id a trace discloses is followed |
| ClaimMeaning.ClaimReads | packages/verify/src/verify.ts:898-914 | an output is read as a claim exactly when it has a run id and a root of 0x and 64 hex digits, and a number of steps and an outcome that are numbers |
| ClaimMeaning.ClaimsExactly | packages/verify/src/verify.ts:563-585 | the runs followed are exactly the sub-flows the traces name, and each run they disclose that is not followed already, once |
| Verify.VerifiedDisclosuresAreSubFlows | packages/verify/src/verify.ts:516-561 | a verified run discloses no run other than its sub-flows |
| Hires.OwnHiresExactly | packages/verify/src/verify.ts:516-561 | a run makes no claim but of its sub-flows exactly when whatever its steps disclose is a sub-flow it had opened by then |
| TwoViews.VerifiedRunsAgree | packages/verify/src/verify.ts:407-846 | two strangers who verify a run under one sealed root, whatever each was shown, hold the same receipts, the same committed inputs and outputs and the same tree of hired runs at every depth, or two values hashed on the way collide |
| EndToEnd.ClaimReadsBack | packages/verify/src/verify.ts:898-914 | the output a sub-flow step records is read back as the child's run id and root |
| EndToEnd.ExecutedRunsVerify | packages/executor/src/execute.ts:293-440 | a tree of runs executed by the executor and published as written is verified, given a hire depth that covers the levels left, exactly when what was attested or signed in it holds up, no agent output reads as a sub-flow result, and no agent discloses a run but one its own run had opened by then |
| EndToEnd.DefaultsSuffice | packages/verify/src/verify.ts:373-373 | the default hire depth of 3 covers the default run depth of 4: that condition alone decides the verdict |
| Logs.FetchSortsToWatched | packages/indexer/src/ingest.ts:128-145 | fetching each contract's logs, concatenating and sorting gives every watched log of the range once, in chain order |
| Logs.RangesConcatenate | packages/indexer/src/ingest.ts:131-135 | adjacent ranges read one after the other are the whole range |
| Store.DropFrom | packages/indexer/src/memory-store.ts:53-71 | exactly the entries of lower blocks are kept |
| Store.MemoryStore.UpsertStep | packages/indexer/src/memory-store.ts:75-77 | sets the row of its run and step and changes nothing else |
| Store.MemoryStore.UpsertSeal | packages/indexer/src/memory-store.ts:79-81 | sets the row of its run and changes nothing else |
| Store.MemoryStore.UpsertAgentListing | packages/indexer/src/memory-store.ts:87-95 | replaces the agent's listing unless the stored version is higher |
| Store.MemoryStore.DeactivateAgentListing | packages/indexer/src/memory-store.ts:97-103 | marks a known agent inactive at that block, whatever its version |
| Store.MemoryStore.UpsertAgentBond | packages/indexer/src/memory-store.ts:130-140 | replaces the agent's bond unless the stored one is of a later block, and never clears slashed |
| Store.MemoryStore.RollbackFrom | packages/indexer/src/memory-store.ts:53-73 | drops the rows of every table from the block on and rewinds the cursor below it |
| Store.FoldConcatenates | packages/indexer/src/ingest.ts:147-236 | applying two runs of logs in turn is applying their concatenation |
| Store.FoldRecordsBlocks | packages/indexer/src/ingest.ts:147-149 | the logs of one chain record its hash for the blocks they touch and for no other |
| RunRows.StepIsLastAnchored | packages/indexer/src/ingest.ts:151-170 | a step is indexed exactly when a log anchors it, every field as the last such log has it |
| RunRows.SealIsLastSealed | packages/indexer/src/ingest.ts:171-182 | a run is sealed exactly when a log seals it, every field as the last such log has it |
| Ingest.FindReorg | packages/indexer/src/ingest.ts:92-115 | the loop finds the first replaced block that FirstReplaced specifies |
| Ingest.FirstReplacedIsFirst | packages/indexer/src/ingest.ts:92-115 | what is found is the lowest recorded block from the larger of `from` and the finalised height up to `to` whose hash the chain no longer has, and nothing exactly when there is none |
| Ingest.ReorgFound | packages/indexer/src/ingest.ts:92-115 | a reorganisation is found at block b exactly when b is the lowest recorded block of the range, not below the finalised height, whose hash is no longer that of the chain |
| Ingest.CountsPlaces | packages/indexer/src/ingest.ts:147-236 | the counts reported are of the logs of each kind, each once |
| Ingest.ApplyTo | packages/indexer/src/ingest.ts:147-236 | one log changes the store as specified for its event |
| Ingest.IngestRange | packages/indexer/src/ingest.ts:117-241 | the store becomes the rolled-back rows with the ordered logs folded over them and the cursor at `to`; the result counts the logs of each kind |
| CatchUp.CatchUp | packages/indexer/src/ingest.ts:254-279 | whenever it ends, the loop scans the ranges that `Polling.ScansExactly` says, to the head read at its start, and leaves the store that passes over them leave |
| CatchUp.EndsExactly | packages/indexer/src/ingest.ts:267-276 | the loop ends exactly when there is nothing to scan or the batch size is at least 1 |
| CatchUp.RangesTile | packages/indexer/src/ingest.ts:267-276 | the scanned ranges are adjacent from start to head and none is longer than a batch |
| CatchUp.WholeBatches | packages/indexer/src/ingest.ts:267-276 | every scanned range but the last is a whole batch |
| CatchUp.ScannedOnce | packages/indexer/src/ingest.ts:267-276 | every block from start to head is in exactly one scanned range |
| CatchUp.TilingIsOneFold | packages/indexer/src/ingest.ts:254-279 | on a chain that only grows, scanning any adjacent ranges leaves what one fold of all their logs leaves |
| CatchUp.CatchUpIsOneFold | packages/indexer/src/ingest.ts:254-279 | so a catch-up with any batch size leaves one fold of every watched log from start to head, and the cursor at the head |
| Polling.ScansExactly | packages/indexer/src/ingest.ts:263-276 | a catch-up scans exactly the blocks from the deployment to the head that are above the cursor, where there is one |
| Polling.PollingComposes | packages/indexer/src/ingest.ts:254-279 | from an empty store, after any number of catch-ups on a chain that only grows, their ranges tile the blocks from the deployment to the last head, and the rows are one fold of all their logs |
| Polling.EachBlockOnce | packages/indexer/src/ingest.ts:254-279 | so each of those blocks is in exactly one range and no other block is in any |
| Replay.FoldListing | packages/indexer/src/memory-store.ts:87-103 | the effect of any logs on one agent's listing is a threshold version and a deactivation |
| Replay.BondSettles | packages/indexer/src/memory-store.ts:130-140 | what the bond logs of the last block leave, they leave again, although unstake requests read the amount back |
| Replay.FoldTwice | packages/indexer/src/ingest.ts:147-236 | applying the same logs twice is applying them once, for every table and whatever the store held before |
| Replay.ReplayChangesNothing | packages/indexer/src/ingest.ts:183-235 | replaying any suffix of a log over the store the log produced changes nothing |
| Replay.RescanChangesNothing | packages/indexer/src/ingest.ts:117-241 | scanning again a range that overlaps the last one, on a chain that has only grown, changes nothing |
| Reorg.NoneStaleAfter | packages/indexer/src/ingest.ts:117-241 | after a pass no step or seal row at or below `to` is missing from the chain |
| Reorg.NoneMissingAfter | packages/indexer/src/ingest.ts:117-241 | after a pass every step and seal of the chain at or below `to` is a row |
| Reorg.IngestConverges | packages/indexer/src/ingest.ts:117-241 | whatever stale tail was stored, after a pass the steps and seals up to `to` are exactly the chain's, and what the next pass relies on holds again |
| Reorg.EveryPassConverges | packages/indexer/src/ingest.ts:117-241 | from an empty store, after each of any number of passes over a chain that keeps being reorganised, the steps and seals are exactly those of the chain that pass saw |
| Reorg.PassesAgreeWithFreshIndex | packages/indexer/src/memory-store.ts:53-81 | so the step and seal tables are those a plain fold of the canonical log gives |
| Repair.RowsBelowStay | packages/indexer/src/ingest.ts:101-105 | a row below the range of a pass survives it, stale or not, exactly when no log of the range writes its key |
| Repair.CatchUpKeepsOldRows | packages/indexer/src/ingest.ts:263-277 | a row below the start of a catch-up is left as it is exactly when no log the catch-up reads writes its key |
| Repair.NoneStaleExactly | packages/indexer/src/ingest.ts:92-115 | after a pass no stale row is left up to `to` exactly when every stale row below the blocks it checks has its key written by the range |
| Repair.NoneMissingExactly | packages/indexer/src/ingest.ts:117-241 | after a pass nothing of the chain is missing up to `to` exactly when nothing was missing below `from` |
| Repair.PassConvergesExactly | packages/indexer/src/ingest.ts:117-241 | so a pass leaves exactly the steps and seals of the chain under exactly those two conditions |
| Repair.CatchUpIsOnePass | packages/indexer/src/ingest.ts:254-279 | while the chain stands still, a catch-up leaves the steps and seals that one pass over all its ranges would, whatever the store held and however it was reorganised before |
| Repair.CatchUpConvergesExactly | packages/indexer/src/ingest.ts:254-279 | so a catch-up converges under exactly the conditions of that one pass |
| Directory.ListingIsNewest | packages/indexer/src/memory-store.ts:87-103 | an agent is listed exactly when it registered, with the details of its newest registration and the block it was last touched in, and is active exactly when that registration was and no deactivation came after it |
| Directory.BondIsLastStated | packages/indexer/src/ingest.ts:207-235 | logs in chain order leave a bond at the amount last stated, pending exactly when the last bond log requested an unstake, and slashed exactly when it was or one of them slashes it |
| DirectoryReorg.PassListsExactly | packages/indexer/src/ingest.ts:117-241 | whatever the store held, after a pass a listing is that of the chain exactly when what the rollback leaves of it and what the chain has below the range are equal, are both replaced by the range, or differ only in what a deactivation in the range overwrites |
| DirectoryReorg.ListingConvergesExactly | packages/indexer/src/ingest.ts:117-241 | a listing that was that of the last chain is that of the next one after a pass exactly when the pass does not lose it: the rollback spares it, or the agent was not listed below `from`, or the range registers a version as high |
| DirectoryReorg.ListingsConverge | packages/indexer/src/memory-store.ts:63-65 | over any number of passes and reorganisations, from an empty store, a listing is that of the chain after every pass exactly when no pass loses it |
| DirectoryReorg.PassBondsExactly | packages/indexer/src/memory-store.ts:130-140 | where the rollback leaves no bond of the range itself, after a pass a bond is that of the chain exactly when what is left and what the chain has below the range are equal, or the range overwrites them with a stated or equal amount and slashes them or they were slashed alike |
| DirectoryReorg.BondConvergesExactly | packages/indexer/src/ingest.ts:117-241 | a bond that was that of the last chain is that of the next one after a pass exactly when the pass does not lose it: the rollback spares it, or there was none below `from`, or the range brings back its amount and that it was slashed |
| DirectoryReorg.BondsConverge | packages/indexer/src/memory-store.ts:66-68 | the same over any number of passes and reorganisations |
| DirectoryReorg.RollbackForgetsListing | packages/indexer/src/memory-store.ts:63-65 | two passes after which no listing is left where the chain has version 1: version 2, which had overwritten it, was rolled back |
| DirectoryReorg.RollbackForgetsSlash | packages/indexer/src/memory-store.ts:66-68 | two passes after which a slashed agent that staked again is no longer slashed |
| Unicode.ScalarsAreWellFormed | packages/core/src/canonicalize.ts:58-71 | a string passes exactly when its code points hold no surrogate |
| Unicode.EncodeUndoesDecode | packages/core/src/canonicalize.ts:43-49 | iterating by code point loses nothing of a string |
| Unicode.BytesOrderUnits | packages/python-sdk/src/zgflow/canonical.py:61-69 | comparing big-endian UTF-16 bytes is comparing code units |
| Unicode.PointOrderDiffers | packages/core/src/canonicalize.ts:91-97 | code-point order is a different order |
| Unicode.PairsKeepOrder | packages/core/src/canonicalize.ts:91-97 | among code points that take a surrogate pair both orders agree |
| Canonical.PrintPrefix | packages/core/src/canonicalize.ts:102-167 | a printed value ends where the value does: what follows it cannot be read as part of it |
| Canonical.PrintInjective | packages/core/src/canonicalize.ts:102-167 | two canonical trees with one text are one tree |
| JsonReader.ReadsBack | packages/core/src/canonicalize.ts:102-167 | a reader of the JSON grammar reads every printed tree as its value |
| JsonReader.CanonicalTextReads | packages/core/src/canonicalize.ts:24-172 | the canonical text of a value reads as JSON for a value alike to it, in NFC and with the keys of each object strictly ascending by code unit, and no text that reads so is shorter |
| JsonReader.EscapesAddNoCapitals | packages/core/src/canonicalize.ts:34-49 | escapes are in lower case |
| Canonicalize.TreesAreAlike | packages/core/src/canonicalize.ts:102-167 | two values normalise to one tree exactly when they are equal up to key order, NFC and the sign of zero |
| Canonicalize.CanonicalTextIsInjective | packages/core/src/canonicalize.ts:102-172 | two values have one canonical text exactly when they are equal up to key order, NFC and the sign of zero |
| CanonicalDomain.AcceptsExactly | packages/core/src/canonicalize.ts:53-167 | a value has a canonical text exactly when its numbers are finite, its surrogates paired, and no object has a key toJSON or two keys that normalise alike |
| CanonicalizeLoops.AssertWellFormed | packages/core/src/canonicalize.ts:58-71 | the loop accepts exactly the strings whose surrogates are paired |
| CanonicalizeLoops.SerializeString | packages/core/src/canonicalize.ts:39-51 | the loop gives the quoted, escaped text of the normalised string, which `JsonReader.ReadsString` reads back, or refuses an unpaired surrogate |
| CanonicalizeLoops.NormalizeKeys | packages/core/src/canonicalize.ts:145-156 | the loop collects the normalised keys with their values, or fails on the first key that is ill-formed or already there |
| CanonicalizeLoops.Serialize | packages/core/src/canonicalize.ts:102-167 | the recursive serializer gives the canonical text, which `JsonReader.CanonicalTextReads` reads back, or the failure the specification gives |
| CanonicalPython.SameTree | packages/python-sdk/src/zgflow/canonical.py:104-172 | for every value without a toJSON key the port builds the same tree or fails with the same error |
| CanonicalPython.PythonAgrees | packages/python-sdk/src/zgflow/canonical.py:175-182 | TypeScript accepts a value exactly when Python does and no key of it is toJSON; then both print the same text |
| CanonicalPython.ToJsonDivides | packages/core/src/canonicalize.ts:139-143 | a value with that key which TypeScript refuses and Python prints |
| CanonicalPythonLoops.Serialise | packages/python-sdk/src/zgflow/canonical.py:104-145 | the port's recursive serializer gives the specified text or failure: where TypeScript accepts, the text `JsonReader.CanonicalTextReads` reads back |
| CanonicalPythonLoops.SerialiseFields | packages/python-sdk/src/zgflow/canonical.py:148-172 | the port's loop over a dictionary gives the specified text or failure |
| HashJson.Utf8Injective | packages/core/src/canonicalize.ts:175-177 | different texts have different UTF-8 bytes |
| HashJson.BytesAreInjective | packages/core/src/canonicalize.ts:174-177 | two values have the same canonical bytes exactly when they are equal up to key order, NFC and the sign of zero |
| BytesReader.CanonicalBytesRead | packages/core/src/canonicalize.ts:174-177 | the bytes every hash is taken over are UTF-8, and read as JSON for a value alike to the one hashed, in canonical form |
| HashJson.OutputsAgree | packages/core/src/hash.ts:219-221 | two evidence sets accepted against one set of receipts agree on every committed output up to key order, NFC and the sign of zero, or the bytes of those outputs collide under SHA-256 |
| Abi.WordReads | packages/publish/src/calldata.ts:52-57 | a number is encoded exactly when it is at least 0 and below 16^64, as 64 digits that spell it |
| Abi.TailReads | packages/verify/src/decode.ts:165-186 | a string whose head word points at its encoded tail is read back byte for byte |
| Abi.TailIsTight | packages/publish/src/calldata.ts:79-92 | the tail of a string ends in the zeros that fill its last word and no more |
| Abi.DynamicString | packages/verify/src/decode.ts:165-186 | the loop reads the string its specification gives, or the bounds check that fails |
| Abi.TupleRoundTrip | packages/publish/src/calldata.ts:109-132 | every field of an encoded tuple, and the exact bytes of both strings, are read back by the decoder's rules, for strings of any length |
| Abi.TextSpells | packages/publish/src/calldata.ts:59-77 | 40 or 64 hex digits in any case, with or without a prefix, are encoded as the number they spell |
| Abi.EncodesWhenItFits | packages/publish/src/calldata.ts:52-91 | a listing is encoded exactly when every number fits a word and the root and addresses are hex of their length |
| Abi.EncodingBinds | packages/publish/src/calldata.ts:59-77 | two listings have one encoding exactly when they differ in nothing but the case and prefix of their hex |
| Abi.CalldataHoldsTuple | packages/publish/src/calldata.ts:131-131 | the calldata is the selector, the offset 32 and, 32 bytes on, the tuple |
| Modular.Invert | packages/core/src/secp256k1.ts:41-51 | the result times the value is congruent to their greatest common divisor with the modulus; only zero itself is refused |
| Modular.GcdIsGreatest | packages/core/src/secp256k1.ts:41-51 | what Euclid computes is a common divisor that every common divisor divides |
| Modular.EuclidKeepsBezout | packages/core/src/secp256k1.ts:44-49 | every remainder stays congruent to the value times its coefficient until the remainder is zero |
| Modular.InverseExactly | packages/core/src/secp256k1.ts:41-51 | the result is a true inverse exactly when value and modulus have no common divisor |
| Modular.Power | packages/core/src/secp256k1.ts:53-63 | square-and-multiply gives the power modulo the modulus |
| Fermat.FermatOf | packages/core/src/secp256k1.ts:65-72 | over a prime m every number is its own m-th power, which is what makes the power taken a square root |
| Jacobian.DoubleStays | packages/core/src/secp256k1.ts:86-100 | doubling keeps every point on y^2 = x^3 + 7 z^6, the point at infinity included |
| Jacobian.ChordStays | packages/core/src/secp256k1.ts:102-128 | the general branch of addition keeps points on the curve |
| Jacobian.AddStays | packages/core/src/secp256k1.ts:102-128 | the sum of two points of the curve is on it exactly when they are not opposite; then it is ZERO, which is not |
| Jacobian.ZeroIsOffCurve | packages/core/src/secp256k1.ts:81-81 | ZERO does not satisfy the equation |
| Jacobian.NegativeLeaves | packages/core/src/secp256k1.ts:102-128 | every point of the curve with y other than 0 has a negative on the curve, and adding the two leaves it |
| Jacobian.ValidStays | packages/core/src/secp256k1.ts:86-128 | infinity aside, nothing ever leaves the curve |
| AffineCurve.DoubleRefines | packages/core/src/secp256k1.ts:86-100 | doubling in Jacobian coordinates is the affine tangent law |
| AffineCurve.AddRefines | packages/core/src/secp256k1.ts:102-147 | addition in Jacobian coordinates is the affine chord-and-tangent law in every branch |
| Groups.Halve | packages/core/src/secp256k1.ts:134-138 | one turn of double-and-add leaves result plus k times the addend as it was, in any group |
| Groups.TimesCongruent | packages/core/src/secp256k1.ts:130-133 | reducing a scalar modulo the order changes no multiple |
| Scalars.PlusStays | packages/core/src/secp256k1.ts:102-147 | the affine law stays on the curve, because the Jacobian formulas do |
| Scalars.Multiply | packages/core/src/secp256k1.ts:130-140 | the loop is the ladder from infinity with the reduced scalar |
| Scalars.MultiplyIsTimes | packages/core/src/secp256k1.ts:130-140 | multiply is repeated addition, scalar modulo the order |
| Recovery.ParseReads | packages/core/src/secp256k1.ts:165-190 | 65 bytes are accepted exactly when r and s are in range, s is in the low half and the last byte is one of six, and then read back as written |
| Recovery.OneFormAccepted | packages/core/src/secp256k1.ts:184-187 | of the two forms s and n - s of a signature exactly one is accepted |
| Recovery.RootWorks | packages/core/src/secp256k1.ts:65-72 | over a prime that is 3 modulo 4 the power taken is a square root of every square |
| Recovery.NonceExactly | packages/core/src/secp256k1.ts:200-216 | a point is found exactly when the x asked for is in the field and on the curve, and it is the one there whose y has the parity asked for |
| Recovery.NonceReturns | packages/core/src/secp256k1.ts:204-216 | the nonce's point comes back from r and the recovery id, negated when the parity bit says so |
| Recovery.RecoverPublicKey | packages/core/src/secp256k1.ts:196-231 | the steps in order give the specified key or the first error |
| Recovery.RecoversSigner | packages/core/src/secp256k1.ts:196-231 | recovery on an honestly produced signature, in either form, returns the signer's public key |
| Recovery.BytesRecoverSigner | packages/core/src/secp256k1.ts:165-231 | so does parsing the signature's 65 bytes, in either convention for the last byte: of the 64 bytes recovered the first 32 are the signer's x and the last 32 the y |
| Recovery.Secp256k1IsShaped | packages/core/src/secp256k1.ts:21-29 | the constants have the shape the theorems ask for, and the generator is on the curve |

## Left out

- HTTP, JSON-RPC, 0G Storage, Postgres, routes, wallets, explorer and command lines: input and output; the chain, storage and agents are oracles here.
- Keccak, SHA-256, Unicode's NFC tables and `Number::toString`: parameters, or for numbers an identification of each finite double with its text; the Python port's number formatting is taken to give that text.
- Attestation levels, quotes, output identity and signature checks: one oracle each in `Verify` and `Executor`; a step anchored ok with level `attested` fails verification, so `EndToEnd` makes that what was attested or signed holds up part of its condition.
- Verify.CheckStep: whether an agent is identified, an attestation holds and a signature is the agent's are one oracle each, so how those answers are reached is not modelled.
- DirectoryReorg.PassBondsExactly: says nothing of a store that keeps a bond of the range itself and was not an index of some chain; for one that was, `DirectoryReorg.BondConvergesExactly` covers that case.
- Repair.CatchUpConvergesExactly: asks that the chain stands still during the catch-up; what a pass does when it does not is `Repair.PassConvergesExactly`.
- An empty list of identity registries adds only a note in `verifyRun`; identity is one oracle, so that case is not told apart.
- Values with no canonical form reaching `hashJson` in the executor or the verifier, where the source throws: the hash is a total function there.
- Retries, timeouts, payments, escrow, stakes, reputation, schema checks and endpoints of a step: part of the oracle that answers for it.
- Clock values: the times in a receipt come from the step's oracle, so trace roots across schedules are compared only through it.
- Failure texts and their locations: errors are kinds, counts or positions.
- The planner's check for a flow that contains itself as the same object: specs are trees here, so it cannot fire.
- Object identity in the canonicalisers (circular references) and JavaScript types that are not JSON: values are trees.
- JavaScript's order of integer-like keys and inherited properties such as `__proto__`: objects keep the order they are given in.
- Logs that fail to decode, and the decoding of the static event fields: logs reach the indexer decoded; the string and word rules of the decoder are in `Abi`.
- `TextEncoder` on lone surrogates and `TextDecoder`'s dropping of a byte order mark: `Abi` works on the bytes of a string.
- The chain changing between the calls of one pass of `ingestRange`: a pass sees one chain, the next may see another.
- The flow and health tables of the store, and its listing and paging queries: easier members beside the others.
- Two of the three indexed contracts sharing an address: `Logs.FetchSortsToWatched` asks that they differ, since their logs would be fetched twice.
- That the two secp256k1 numbers are prime and that the curve's law is associative: hypotheses of `Recovery.RecoversSigner`, as said above.
- `publicKeyToAddress`, `hashPersonalMessage`, checksums, `dataUri` and `encodeRegisterIdentity`: they add hashing and text to what is modelled.
- Store.MemoryStore.UpsertStep: keys are 32-byte ids, so the lower-casing of hexadecimal ids in map keys is not modelled.
