# josuke, verified

A Dafny model of the parts of `josuke` that decide what an upgrade of a modular dispatch proxy does,
with proofs about all their inputs. `dafny verify dfyconfig.toml` checks everything.

The modules follow the program:

- `Migration`, `MigrationCodec`, `MigrationRun` – the migration compiler. A list of routes (selector,
  storage slot, delegate) becomes straight-line EVM bytecode and back. `Evm` gives the bytecode its meaning:
  byte code, program counter, a stack of at most `limit` words, memory, storage and logs.
- `Upgrade`, `UpgradeProofs`, `EndToEnd` – planning an upgrade, judging the storage it leaves, and checking a
  recorded migration's code; then the end-to-end theorem from slot detection to the accepted upgrade.
- `SelectorsMethod` – the bytecode generated for `selectors()`, over byte memory with overlapping stores.
- `Dispatch`, `SlotDetection`, `Trace` – slot detection. A dispatcher is an adaptive program, a function from the
  values read so far to the next action, run with a budget of steps for its gas. It is re-run on partly
  known storage, and the trace interpreter is proved against trees of call frames.
- `Rpc`, `LogWindows`, `LogScan`, `LogScanProofs`, `LogScanEnds`, `LogScanRounds`, `LogScanExact`, `LogScanEmpty`,
  `LogScanTheorems` – batched requests and the log scan over an arbitrary node: what a scan accounts for, what
  it finds on a node that lacks only old blocks, exactly when it raises and when it never ends; for scans of at
  least one block, for scans that start after they end, and together.
- `Shapes`, `ShapePaths`, `ShapeBuild`, `StorageChecks` – storage layouts: types as possibly cyclic graphs,
  the comparison as the greatest simulation, and as exactly the access paths that it keeps.
- `Ledger` – what any run of `deploy` and `accept` keeps on record.
- `DeployPlan` – how `check`'s plan on placeholder addresses predicts `deploy`'s.
- `Bytes`, `Sorting`, `Wrappers` – big-endian bytes, a stable sort, and `Option`/`Result`.

Fixed-width hex strings are numbers below their bound (big-endian, so they sort alike), dictionaries are maps,
and exceptions are `Result` or `Option` values. A node, a dispatcher and a sender's fresh addresses are
arbitrary functions.

## Where the code does not keep a promise

Each item names the lemma that states the exact condition, and the one with an input that shows it.

- `get_logs` does not end for every node. For a range of at least one block `LogScanTheorems.DivergesExactly` says
  when: from some round on, the queue is one block that the node rejects as missing, naming no first block, and
  then serves to the probe. `LogScanEnds.FlappingDiverges` is such a node. Every other round shrinks the queue.
- `get_logs` from a block after the last one has nothing to scan and no way to cut its window down. It goes on
  forever exactly if no round makes it raise or settles it (`LogScanEmpty.EmptyDivergesExactly`): on every node
  that rejects each window it is asked for, with twice as many windows each round
  (`LogScanEmpty.RejectingDiverges`), and on every node that never answers in time (`LogScanEmpty.SilentDiverges`),
  though the documentation says such a node makes it fail. `LogScanEmpty.RefuserDiverges` is an input.
  If the node answers the window at once, the scan ends unless the node calls it missing, serves its last block to
  a probe and contradicts itself on that block ever after (`LogScanEmpty.TakenDivergesExactly`).
- `Migration.encode` depends on the order of the routes when two of them give one delegate one selector at
  different slots, and only then (`MigrationCodec.Canonical`; `MigrationCodec.AmbiguousOrder` is such a pair).
- `Migration.decode` raises an address error, which `verify_migration` does not catch, exactly for the script of
  some groups of known delegates followed by a PUSH20 with fewer than 20 bytes after it
  (`MigrationCodec.MalformedExactly`; `MigrationCodec.BarePushMalformed` is the shortest).
- `verify_migration` passes code that does something else than the plan: it compares the last route of each
  selector once the decoded routes are sorted, while the code performs them in byte order.
  `UpgradeProofs.VerifiedCodeMatchesPlan` has the condition on the decoded routes, and
  `UpgradeProofs.CleanButWrong` such code. Code with one entry for each selector is safe
  (`UpgradeProofs.OneEntryAgrees`).
- After the migration `verify_migrated` fails if `current` has a generated `selectors()` that still routes and
  nothing proposed serves it: the migration does not clear its slot (`UpgradeProofs.UpgradeLands`;
  `UpgradeProofs.LeftBehindRejected` is such a pair of states). A state that `deploy` proposes always serves
  `selectors()`, and is accepted outright (`UpgradeProofs.UpgradeAccepted`).
- `check` passes, and `deploy` crashes on, a ledger in which some facet's installed record matches its code but
  has no address, which the ledger's schema allows, and then only (`DeployPlan.PredictAndDeploy`;
  `DeployPlan.UnaddressedCrashes` is such a ledger).
- Slot detection takes the first call after a slot's read for the handoff. If the dispatcher calls another
  contract between the two, a guard that makes it read the proxy's storage again, a settled test can find a route
  the real storage does not have (`EndToEnd.GuardReadsMislead`). Settled tests tell the truth exactly when what
  is read after such a call does not change how the dispatch ends (`Dispatch.TerminalExactly`), which is what
  `SlotDetection.ProxyStorage.Fetch` assumes.

## Model

| member | source | states |
|---|---|---|
| `Migration.Encode` | src/josuke/migration.py:86-94 | the encoding loop emits the header and then one group per run of equal delegates of the sorted routes |
| `Migration.EncodeGroup` | src/josuke/migration.py:89-93 | one group: its delegate pushed once, every block but the last keeping it, the last consuming it |
| `Migration.FlattenGroupBy` | src/josuke/migration.py:88-89 | grouping by delegate neither loses, repeats nor reorders a route, and no group is empty |
| `Migration.Decode` | src/josuke/migration.py:97-140 | the decoding loops return the parsed routes sorted again, or the error the parse meets first: not a migration, an address cut short, or an unknown delegate |
| `Migration.DecodeBlocks` | src/josuke/migration.py:110-138 | the inner loop returns a group's routes and its end, or nothing for a malformed block |
| `MigrationCodec.ParseIsInverse` | src/josuke/migration.py:96-140 | decoding accepts a bytestring if and only if it is the script of some nonempty groups of known delegates, and returns exactly those groups |
| `MigrationCodec.MalformedExactly` | src/josuke/migration.py:96-140 | decoding raises the address error exactly for the script of some nonempty groups of known delegates followed by a push of an address cut short |
| `MigrationCodec.BarePushMalformed` | src/josuke/migration.py:104-107 | a bare push after the header is such code |
| `MigrationCodec.UnknownExactly` | src/josuke/migration.py:104-107 | decoding fails on a delegate exactly for the script of some nonempty groups of known delegates followed by the push of one that is not known |
| `MigrationCodec.RoundTrip` | src/josuke/migration.py:86-140 | decoding an encoded migration gives back its sorted routes |
| `MigrationCodec.EncodedInjective` | src/josuke/migration.py:82-94 | two lists of routes have the same bytes exactly when they sort to the same list |
| `MigrationCodec.Canonical` | src/josuke/migration.py:79-84 | the bytes are the same for every order of the routes if and only if no two routes share a delegate and a selector but not a slot |
| `MigrationCodec.AmbiguousOrder` | src/josuke/migration.py:79-84 | two routes of one selector to one delegate at different slots have different bytes in the two orders |
| `MigrationCodec.OneGroupPerDelegate` | src/josuke/migration.py:27-30 | the groups are the distinct delegates, each once, in increasing order |
| `MigrationCodec.EncodedLength` | src/josuke/migration.py:32-33 | the script has 33 bytes, 20 more for each delegate and 48 more for each route |
| `MigrationRun.RunBlock` | src/josuke/migration.py:65-74 | one block writes its slot and logs its selector and delegate, and leaves the delegate on the stack only if it is not the last |
| `MigrationRun.RunGroup` | src/josuke/migration.py:16-25 | a group performs its writes and logs in order and leaves only the event signature on the stack |
| `MigrationRun.RunScript` | src/josuke/migration.py:14-30 | any script of nonempty groups runs to its end under any stack limit from 8 up, with exactly its routes written and announced in order |
| `SelectorsMethod.PushShortest` | src/josuke/opcodes.py:259-264 | run anywhere in a program, `push` of a number pushes that number, no shorter push instruction does, and for zero it is the one byte of PUSH0 |
| `Upgrade.SelectorOwners` | src/josuke/deploy.py:321-335 | the owners and selectors of a deployment state, with the generated `selectors()` only where no facet serves it; nothing if a facet cannot be read |
| `Upgrade.OwnersExactly` | src/josuke/deploy.py:326-334 | a state routes exactly what its facets export, each selector to the last facet that does, and `selectors()` to the generated delegate if no facet exports it |
| `Upgrade.SlotAddressBytes` | src/josuke/storage.py:20-24 | the address in a storage word is its last 20 bytes, whatever the others hold, and none in an empty word |
| `Upgrade.BuildMigration` | src/josuke/deploy.py:390-457 | planning succeeds if and only if all facets are recorded and readable, no selector is contested, every slot is known and none is written twice; it returns the sorted writes, or nothing when none is needed |
| `Upgrade.ClaimSelectors` | src/josuke/deploy.py:390-402 | the claims succeed exactly if all facets are recorded, readable and uncontested, and fail on a selector exactly if facets at different addresses export it before any facet is met that is not recorded or readable |
| `Upgrade.PlanWrites` | src/josuke/deploy.py:417-442 | one write for each selector not yet routed as wanted, in ascending order |
| `Upgrade.WritesOncePerSlot` | src/josuke/deploy.py:444-455 | the guard passes if and only if no slot is written twice |
| `Upgrade.VerifyMigrated` | src/josuke/accept.py:15-52 | no failure if and only if every proposed selector routes to its recorded facet and every dropped one nowhere; the failures reported are exactly those there are |
| `Upgrade.CheckRouted` | src/josuke/accept.py:35-44 | the first loop reports exactly the proposed selectors that are not recorded, or route elsewhere, with where to |
| `Upgrade.CheckUnrouted` | src/josuke/accept.py:46-52 | the second loop reports exactly the dropped selectors that still route, with where to |
| `Upgrade.VerifyMigration` | src/josuke/verify.py:193-216 | clean if and only if a migration is needed and the code decodes to the same latest route of each selector as the plan; otherwise the failures are exactly the selectors lacking, misrouted, misplaced or unexpected; it raises exactly if one is needed and the code ends inside a pushed address after groups of known delegates |
| `Upgrade.CompareRoutes` | src/josuke/verify.py:203-214 | one failure for each planned route that the decoded ones lack or contradict, naming how, and no other |
| `Upgrade.LatestIsLast` | src/josuke/verify.py:198-202 | the dictionary by selector holds each selector's last route, and no other selector |
| `UpgradeProofs.SameStorage` | src/josuke/migration.py:79-84 | lists of the same routes, in any order and repeated or not, leave the same storage if no slot gets two delegates |
| `UpgradeProofs.DecodedRuns` | src/josuke/migration.py:96-140 | whatever bytes decoding accepts run to their end, performing the decoded writes and logs in byte order, with known delegates only |
| `UpgradeProofs.EncodedRuns` | src/josuke/migration.py:86-94 | running an encoded migration writes and announces its sorted routes |
| `UpgradeProofs.AssignmentsExactly` | src/josuke/deploy.py:417-442 | a route is planned exactly if its selector is not yet routed as the upgrade wants it |
| `UpgradeProofs.PlansExactly` | src/josuke/deploy.py:417-442 | the routes planned are exactly: of each exported selector not routed to its last exporter, the one to it; of the generated `selectors()` not routed there, the one to it; and of each installed selector that nothing takes over and whose slot is known and not empty, the one that clears it |
| `UpgradeProofs.LocatedMeans` | src/josuke/deploy.py:418-431 | planning asks for the slot of exactly the selectors to be routed, not of those to be cleared |
| `UpgradeProofs.PlanReachesGoal` | src/josuke/deploy.py:379-380 | after the plan's writes every selector of either state is where the upgrade wants it |
| `UpgradeProofs.PlanFrame` | src/josuke/deploy.py:444-446 | a slot of no planned selector keeps its word |
| `UpgradeProofs.AssignmentsDistinct` | src/josuke/deploy.py:444-455 | with slots detected apart the guard against writing a slot twice never fires |
| `UpgradeProofs.UpgradeLands` | src/josuke/accept.py:15-52 | end to end: running the encoded plan leaves every proposed selector at its facet, every dropped facet's selector at zero and all other slots alone, and acceptance then passes exactly unless a generated `selectors()` is left behind and still routes |
| `UpgradeProofs.UpgradeAccepted` | src/josuke/deploy.py:585-596 | when the proposed state serves `selectors()`, as every state `deploy` proposes does, running the plan leaves storage that acceptance passes |
| `UpgradeProofs.LeftBehindRejected` | src/josuke/accept.py:46-52 | when nothing proposed serves the installed generated `selectors()`, acceptance fails after the plan has run |
| `UpgradeProofs.VerifiedCodeMatchesPlan` | src/josuke/verify.py:196-216 | code that verifies clean leaves the same storage as the recomputed plan from every state if and only if each slot's last decoded route in byte order is the plan's, and no other slot is written |
| `UpgradeProofs.OneEntryAgrees` | src/josuke/verify.py:196-202 | it does if the code has one entry for each selector |
| `UpgradeProofs.CleanButWrong` | src/josuke/verify.py:198-202 | code with two entries of a selector, in groups out of order, verifies clean and leaves the slot at the other delegate |
| `EndToEnd.DetectionFeedsPlanning` | src/josuke/deploy.py:410-424 | what slot detection records is what planning needs: a slot apart for each selector, with its real word |
| `EndToEnd.FetchedUpgradeLands` | src/josuke/deploy.py:410-457 | after an upgrade planned on fetched slots, the slot a proposed selector's real dispatch reads holds its facet's address |
| `EndToEnd.DirectIsTerminal` | src/josuke/storage.py:92-99 | a dispatcher that reads one slot and hands off meets the assumption of slot detection |
| `EndToEnd.GuardReadsMislead` | src/josuke/storage.py:97-98 | a guard called between the slot's read and the handoff, whose reads of the proxy decide the dispatch, makes a settled test reach the stub where the real dispatch does not |
| `SelectorsMethod.GeneratedSelectors` | src/josuke/erc8167.py:12-21 | the list has every facet selector and `selectors()` itself, each once, ascending |
| `SelectorsMethod.OrderIndependent` | src/josuke/erc8167.py:12-21 | the list and the bytecode are the same for every order of the facets |
| `SelectorsMethod.RuntimeLength` | src/josuke/erc8167.py:24-36 | for a nonempty list the code has 9n + 11 bytes and as many as its length takes |
| `SelectorsMethod.StoreNext` | src/josuke/erc8167.py:25-32 | storing one more selector overwrites only zeros its predecessor left and adds one element |
| `SelectorsMethod.StoreHeader` | src/josuke/erc8167.py:33-34 | the length and then the offset overwrite exactly the two header words |
| `SelectorsMethod.RunStores` | src/josuke/erc8167.py:29-32 | running the joined stores leaves every selector in memory and the pointer at the last |
| `SelectorsMethod.RuntimeReturnsList` | src/josuke/erc8167.py:26-36 | run on fresh memory the code returns exactly the ABI encoding of the list as `bytes4[]`, for every list, in four stack words, touching nothing |
| `Dispatch.SteeredBy` | src/josuke/storage.py:69-81 | the loop returns the slots read after the key until its frame, or one that called it, makes a call |
| `Dispatch.AgreeBefore` | src/josuke/storage.py:127-130 | runs that agree on what they read before a slot read the same slots up to it |
| `Dispatch.AgreeHolding` | src/josuke/storage.py:69-81 | past the read of the stub's address, only the steering reads can change how the call ends |
| `Dispatch.AgreeSteered` | src/josuke/storage.py:97-98 | runs that agree on the reads before the slot and on the steering reads end alike |
| `Dispatch.TerminalExactly` | src/josuke/storage.py:69-81 | every settled test on part of the real storage ends as on the real storage if and only if no handoff is followed by reads that change how the dispatch ends |
| `SlotDetection.TestIsReal` | src/josuke/storage.py:144-162 | a test on partly known storage whose steering reads are known ends as on the real storage, and tests a slot the real dispatch reads |
| `SlotDetection.WalkIsReal` | src/josuke/storage.py:163-167 | a walk past every slot, all of them known, was of the real dispatch |
| `SlotDetection.Search.Walk` | src/josuke/storage.py:141-167 | one selector's walk keeps claims and found inverse, shared slots unclaimed, every claim a real route, and loses no selector |
| `SlotDetection.Search.Try` | src/josuke/storage.py:144-162 | one test claims the slot, waits for what steers it, or rules it out for the selector or for all |
| `SlotDetection.Search.Wait` | src/josuke/storage.py:148-151 | a selector waits with the slots it needs |
| `SlotDetection.Search.Claim` | src/josuke/storage.py:152-157 | a slot nobody claimed goes to the selector, in both maps |
| `SlotDetection.Search.Revoke` | src/josuke/storage.py:153-160 | a slot that routes two selectors is shared for good, and its first owner is queued again |
| `SlotDetection.Search.Fail` | src/josuke/storage.py:161-162 | a slot that does not route the selector on the real storage, or runs out of gas, is ruled out for it |
| `SlotDetection.Search.Drain` | src/josuke/storage.py:140-167 | the inner loop ends with an empty queue: each walk shrinks it or shares one more of the finitely many slots |
| `SlotDetection.Search.Learn` | src/josuke/storage.py:168-169 | fetching adds real words for exactly the needed slots |
| `SlotDetection.Search.Round` | src/josuke/storage.py:137-170 | a round that leaves selectors pending has fetched a slot not known before |
| `SlotDetection.Search.Detect` | src/josuke/storage.py:136-170 | the outer loop ends with no selector pending |
| `SlotDetection.ProbedProperties` | src/josuke/storage.py:100-103 | at least two distinct selectors are probed, all the wanted ones among them |
| `SlotDetection.ProxyStorage.Fetch` | src/josuke/storage.py:91-178 | on success each wanted selector has a slot of its own that its real dispatch reads, that hands off to the stub when set to it, with its real word; on failure some wanted selector has no slot that routes it alone; records of others stay |
| `SlotDetection.ProxyStorage.Record` | src/josuke/storage.py:174-178 | the found slots and words are recorded in order, up to the first selector without one, and no others change |
| `Trace.ProxyEvents` | src/josuke/storage.py:37-66 | the loop computes the events of the steps from the proxy's own frame |
| `Trace.EnterReady` | src/josuke/storage.py:48-65 | a step of a frame whose owner is known is read as in that owner's storage, keeps the owners of all shallower frames, and readies the next deeper frame for the owner its instruction gives it |
| `Trace.FrameEvents` | src/josuke/storage.py:42-44 | the steps of any frame, whoever's storage it runs in, yield that frame's own events and leave its caller's frames in place |
| `Trace.TraceIsFaithful` | src/josuke/storage.py:37-66 | for every tree of call frames the interpreter reports exactly the reads of the proxy's storage and the calls, in order with their depths, though some frames leave no step |
| `Rpc.Judge` | src/josuke/ethjsonrpc.py:205-235 | what is done about a reply: fail, shrink to half, resend, or take the answers but those cut off, each exactly on the replies that call for it |
| `Rpc.Settled` | src/josuke/ethjsonrpc.py:228-234 | all answers of a batch are taken except those cut off by too large a response, in a batch of more than one |
| `Rpc.LoneErrorVerdict` | src/josuke/ethjsonrpc.py:160-171 | a lone error shrinks a batch of several exactly if its code is one of the four listed, or is -32005 and it names the batch; any other fails the batch |
| `Rpc.CutExactly` | src/josuke/ethjsonrpc.py:228-234 | a request goes out again exactly if its last answer, in a batch of several, has code -32003, or -32005 and names the batch; else that answer is taken |
| `Rpc.StatusVerdict` | src/josuke/ethjsonrpc.py:174-223 | what each HTTP status calls for: a smaller batch after 413, up to five sends in all after 429, 502 and 503, two after 504, and failure at once after any other but 200 |
| `Rpc.Client.PostBatch` | src/josuke/ethjsonrpc.py:192-239 | on success every id has an answer the node gave it; on failure the ids split into answered, failed and unsent, and the last reply was one that fails after as many overloads as its status allows; it ends under any sequence of replies, each batch as long as the limit allows and each turn following from the reply to the one before |
| `Rpc.Settle` | src/josuke/ethjsonrpc.py:229-235 | the requests left after a batch are those cut off and those not sent, each once |
| `LogWindows.WindowsTile` | src/josuke/audit.py:135-136 | the windows cover each block of the range once and no other |
| `LogWindows.NarrowTiles` | src/josuke/audit.py:139-156 | a rejected window is cut into windows that cover its blocks once, with a smaller measure |
| `LogWindows.NarrowCuts` | src/josuke/audit.py:139-156 | a rejected window of several blocks is cut, in order, to the width of the first stated cap narrower than it, N + 1 blocks for a cap of N; else to the width of the range to retry; else in halves |
| `LogWindows.EmptyWindowDoubles` | src/josuke/audit.py:139-156 | a rejected window of no blocks makes two windows of no blocks, whatever the error says, and twice itself if it ends just before it starts |
| `LogWindows.FindHistoryStart` | src/josuke/audit.py:164-179 | the bisection computes where a window's history starts, or fails with a probe |
| `LogWindows.HistoryStartBounds` | src/josuke/audit.py:164-179 | the start found is past the window's first block, exactly unless the node serves to a probe the single block it rejected |
| `LogWindows.HistoryStartExact` | src/josuke/audit.py:164-179 | on a node that lacks exactly the blocks before a cutoff, the start is the cutoff, clipped to the window |
| `LogWindows.FindDeployBlock` | src/josuke/audit.py:70-98 | the block found has code and the one before it has none, so it is the first one for code that stays |
| `LogWindows.Merged` | src/josuke/audit.py:182-189 | the merged ranges cover the same blocks, in order and apart |
| `LogScan.BatchServes` | src/josuke/audit.py:243-253 | what the batching layer promises is what the scan relies on: every window answered, failed or unsent |
| `LogScan.SortOut` | src/josuke/audit.py:254-264 | the loop over the queue sorts each window into retried, missing or held, or raises |
| `LogScanRounds.FateMeans` | src/josuke/audit.py:255-264 | a window whose answer does not raise is held with its logs, missing with its error, cut as the error or its batch's says, or sent again as it is; the answer raises exactly if it is no list, or rejects a single block as not missing |
| `LogScanRounds.RangeRound` | src/josuke/audit.py:241-275 | of a scan of at least one block, a round raises exactly if its batch broke for another reason than a wide window, an answer raises, or two missing windows do not compare or a probe the bisection makes fails |
| `LogScan.SiftConserves` | src/josuke/audit.py:254-264 | every block of the queue is retried, missing or held as often as it was asked for |
| `LogScan.GetLogs` | src/josuke/audit.py:208-277 | the scan returns the sorted logs and merged missing ranges of its run, or raises, whenever its run ends |
| `LogScanProofs.LocateConserves` | src/josuke/audit.py:265-274 | each block of a missing window is reported or asked for again |
| `LogScanProofs.LocateMeans` | src/josuke/audit.py:265-274 | missing windows not wholly below every window held are reported whole; of the others the blocks from the lowest up to where history starts in the highest are reported, and the rest of the highest is asked for again |
| `LogScanProofs.RoundKeeps` | src/josuke/audit.py:240-275 | every round keeps each block in range either queued or held, once, or reported |
| `LogScanEnds.NeverTied` | src/josuke/audit.py:269-270 | a scan of at least one block never compares two missing windows by their errors, which would raise |
| `LogScanTheorems.ReturnsAccounts` | src/josuke/audit.py:208-225 | whatever the node does, a scan that returns accounts for every block by windows answered once each and reported ranges, with exactly their logs, in order; one that starts after it ends, by windows of no blocks or of one between its end and its start |
| `LogScanEnds.RoundShrinks` | src/josuke/audit.py:240-275 | every round shrinks the queue, unless it is stuck on one block on which the node contradicts itself |
| `LogScanEnds.StuckStays` | src/josuke/audit.py:269-275 | a stuck round leaves the scan as it was, but for a reported range of no blocks |
| `LogScanTheorems.DivergesExactly` | src/josuke/audit.py:240-275 | a scan never ends if and only if it is stuck in every round from some point on, or, when it starts after it ends, no round makes it raise or settles it |
| `LogScanTheorems.EndsUnlessFlapping` | src/josuke/audit.py:240-275 | a scan ends if there is no block that the node forever rejects as missing and serves to a probe, provided that the node answers the range at once if there are no blocks in it |
| `LogScanEnds.FlappingDiverges` | src/josuke/audit.py:240-275 | a node that rejects every window as missing and serves every probe is never done with |
| `LogScanEmpty.EmptyRound` | src/josuke/audit.py:241-275 | of a scan that starts after it ends, a round raises exactly if its batch, an answer or the missing start does, and empties the queue exactly if every window is answered and no block is asked for again |
| `LogScanEmpty.EmptyDivergesExactly` | src/josuke/audit.py:240-275 | such a scan never ends if and only if no round makes it raise or settles it |
| `LogScanEmpty.TakenDivergesExactly` | src/josuke/audit.py:240-275 | if the node answers its window at once, it never ends if and only if the node calls it missing, serves the last block to a probe and contradicts itself on that block ever after |
| `LogScanEmpty.RejectingDoubles` | src/josuke/audit.py:153-156 | on a node that rejects every window, not as missing, such a scan has 2^n windows queued after n rounds |
| `LogScanEmpty.SilentDiverges` | src/josuke/audit.py:217-219 | on a node that never answers in time such a scan never ends, rather than fail |
| `LogScanEmpty.RefuserDiverges` | src/josuke/audit.py:240-275 | a node that lacks only old blocks but rejects such windows is never done with |
| `LogScanExact.NoGaps` | src/josuke/audit.py:265-268 | on a node that lacks exactly its oldest blocks no missing window lies above one that is held |
| `LogScanTheorems.ReturnsExactly` | src/josuke/audit.py:208-225 | on such a node, under any limits and timeouts, the logs are exactly those from the cutoff on, in chain order, and the missing list is empty or the one range before the cutoff; a scan that starts after it ends returns no logs and reports no block the node holds |
| `LogScanTheorems.ArchiveEnds` | src/josuke/audit.py:240-275 | a scan of such a node ends, provided that the node answers the range at once if there are no blocks in it |
| `LogScanTheorems.RaisesExactly` | src/josuke/audit.py:240-275 | a scan of any range raises exactly if one of its rounds does, as the round's replies say |
| `LogScanTheorems.ArchiveSucceeds` | src/josuke/audit.py:208-225 | a scan of such a node does not raise if the node never refuses a single block or a probe |
| `LogScanTheorems.ScanArchive` | src/josuke/audit.py:208-277 | run on such a node, under any range and result caps, the scan returns exactly the logs from the cutoff on and reports exactly the blocks before it |
| `Shapes.Comparison.Fits` | src/josuke/check.py:215-257 | the memoised recursion, true, has compared a set closed under the local rules and contained in every simulation of the pair; false, no simulation holds the pair; it ends on cyclic graphs |
| `Shapes.Comparison.FitsElements` | src/josuke/check.py:226-235 | arrays fit if the stride is kept, neither size nor length shrinks and the elements fit; a longer one is noted |
| `Shapes.Comparison.FitsMembers` | src/josuke/check.py:242-256 | structs fit if every member keeps its place in order and fits, and no kept name moves; renames and growth are noted |
| `Shapes.Fit` | src/josuke/check.py:211-259 | true if and only if some relation holding the two types is closed under the local rules, with exactly the notes every such relation has |
| `Shapes.SameShape` | src/josuke/check.py:262-265 | true if and only if there are such relations both ways with nothing to note |
| `Shapes.FitsCompose` | src/josuke/check.py:211-259 | comparisons without a rename compose, and without growth if neither grows |
| `Shapes.SameTransitive` | src/josuke/check.py:262-265 | having the same shape is transitive, however the graphs share their types |
| `Shapes.SameReflexive` | src/josuke/check.py:262-265 | a type whose structs do not have one name at two places has its own shape |
| `ShapePaths.FitKeepsPaths` | src/josuke/check.py:211-212 | every access path valid in the old type is valid in the new one and leads to the same place and a type that reads alike, by position always and by name when no rename is noted, through cycles too |
| `ShapePaths.FitsExactly` | src/josuke/check.py:211-259 | the comparison succeeds if and only if every path into the old type by position leads in the new one to the same place, where what is found is read alike, arrays are no smaller and their elements as far apart, and no name has moved |
| `ShapePaths.NotesExactly` | src/josuke/check.py:233-255 | growth and renames are noted exactly if some path into the old type meets a longer array or enum or a larger struct, or a member of another name |
| `ShapePaths.SameExactly` | src/josuke/check.py:262-265 | types have the same shape exactly if every path keeps both ways and meets nothing to note |
| `ShapeBuild.ShapeFaithful` | src/josuke/check.py:164-208 | the graph has exactly one node for each type that the type refers to, however far, the type itself first; each node is its entry in every field, with indices for ids |
| `ShapeBuild.ShapeCanonical` | src/josuke/check.py:164-170 | the graph is the same for any other ids of the same types |
| `StorageChecks.SortedOverlap` | src/josuke/check.py:301-303 | in sorted declarations a later one overlaps exactly when it starts before the earlier one ends, and stopping there misses none |
| `StorageChecks.CheckStorage` | src/josuke/check.py:284-312 | the sweep reports exactly the pairs of overlapping variables that two sources declare and that are not identical |
| `StorageChecks.CompareOne` | src/josuke/check.py:334-352 | one old variable against all new ones: whether it moves, what clashes, what renames or grows it, whether it is dropped |
| `StorageChecks.CompareStorage` | src/josuke/check.py:324-355 | the comparison reports exactly the moves, clashes, renames, growth and drops there are |
| `StorageChecks.PassesExactly` | src/josuke/check.py:324-355 | nothing fails if and only if every new variable that shares a byte with an old one starts where it starts and keeps every path into it, and every name still declared is declared where it was |
| `StorageChecks.ReportsExactly` | src/josuke/check.py:341-353 | of a variable read back, a rename is reported exactly if its name is gone or a path meets another name, growth exactly if the new one ends later or a path meets something longer; it is dropped exactly if nothing shares a byte with it |
| `StorageChecks.VariablesReadBack` | src/josuke/check.py:324-327 | without failures every new variable over an old one starts at the same byte and reads back every path into it |
| `StorageChecks.NamesStay` | src/josuke/check.py:334-338 | without failures a name still declared is declared where it was, with a type that fits |
| `StorageChecks.GrowthIsFree` | src/josuke/check.py:325-327 | without failures all old variables that a new one overlaps start where it does, so growth takes no byte of one that starts elsewhere |
| `Ledger.CollectEntries` | src/josuke/accept.py:71-93 | the loop fills the dictionary of a state's entries |
| `Ledger.HistoryEntriesMean` | src/josuke/accept.py:71-93 | there is one entry for each delegate the state installs: of the last facet at the address, or of the generated `selectors()` with its sorted sources, with the state's commit |
| `Ledger.LedgerFile.RecordPlans` | src/josuke/deploy.py:606-610 | each proxy's plan replaces what was proposed, or nothing is left pending, and its current state and archive stay |
| `Ledger.LedgerFile.RunAccept` | src/josuke/accept.py:117-165 | if every check passes, each proposed state becomes current and is no longer proposed, the archive gains the old current entry of exactly the delegates no longer installed, and a history without one is unchanged; if one fails, no history changes |
| `Ledger.CurrentIsLastAccepted` | src/josuke/accept.py:158-160 | over any run of deploys and accepts the current state is the last one that was staged when an accept came |
| `Ledger.Conservation` | src/josuke/accept.py:96-104 | over any run of deploys and accepts, a delegate some current state installed stays current, or is archived with the entry of the last state that installed it |
| `Ledger.LabelsPrefer` | src/josuke/audit.py:322-333 | a delegate is recorded exactly if a state installs it or it is archived; it is labelled current if it is, else archived, else proposed, with its entry there |
| `Ledger.NeverOnlyProposed` | src/josuke/audit.py:322-333 | after any run, a delegate that was ever current is recorded and not as only proposed |
| `Ledger.ArchivedSelectorsRebuild` | src/josuke/accept.py:88-92 | the `selectors()` bytecode rebuilt from an entry's sorted sources is the one generated in the facets' order |
| `DeployPlan.ClaimStep` | src/josuke/deploy.py:394-402 | a facet's selector is owned at another address exactly if it clashes with an earlier facet, though only the last owner is kept |
| `DeployPlan.PlanClaims` | src/josuke/deploy.py:390-402 | `build_migration`'s claims, made of one proxy's records: planned exactly if every record has an address and no selector is contested, refused exactly if a selector is contested before a record without an address is met, and crashed otherwise |
| `DeployPlan.DeployFacets` | src/josuke/deploy.py:544-581 | every facet gets a record of its own code: the installed one if it is, else the staged one with an address, else the first the run gave out for that code, and only otherwise a new one at the next address |
| `DeployPlan.PlanDeploy` | src/josuke/deploy.py:528-595 | the planning loop completes exactly if every proxy is planned, and is refused or crashes exactly as the first proxy that is not; every facet planned got the record it should, the run's deployments shared across proxies |
| `DeployPlan.RecordsChosen` | src/josuke/deploy.py:286-297 | so do the records of every proxy of a run, by which it is planned, refused or crashes |
| `DeployPlan.ContestedClash` | src/josuke/deploy.py:394-400 | the selectors `build_migration` finds contested are those that clash in the plan of records `check` makes |
| `DeployPlan.RecordsUnaddressed` | src/josuke/deploy.py:286-297 | the record a facet gets has no address exactly if the installed one matches its code and has none |
| `DeployPlan.CheckClaims` | src/josuke/check.py:576-584 | the loop over a facet's selectors fails exactly if one is owned at another address, and all of them change hands |
| `DeployPlan.CheckFacets` | src/josuke/check.py:536-584 | the loop over one proxy's facets follows the plan on placeholders and fails exactly if two facets clash |
| `DeployPlan.PlanCheck` | src/josuke/check.py:655-670 | the offline plan over all proxies fails exactly if some proxy clashes in it |
| `DeployPlan.CheckPredictsDeploy` | src/josuke/check.py:561-566 | `deploy` is refused if and only if the plan on placeholders clashes before a facet is reused whose record has no address, and completes if and only if there is no such facet and no clash |
| `DeployPlan.PredictAndDeploy` | src/josuke/check.py:576-583 | on one ledger, if `check` reports no clash `deploy` crashes exactly if a facet is reused whose record has no address, and else completes; if there is no such facet it is refused exactly if `check` reports a clash |
| `DeployPlan.UnaddressedCrashes` | src/josuke/deploy.py:286-289 | an installed facet recorded without an address passes `check` and crashes `deploy` |

## Left out

- Gas: a dispatch has a budget of steps, and running out of it is no route; what an opcode costs is not modelled.
- Opcodes other than those the two compilers emit, jumps among them: their code is straight-line.
- Storage writes during a dispatch: a dispatcher only reads, calls and ends.
- Migration.Decode: a delegate's source is not modelled, only whether its address is known; the routes' text form is not either.
- SlotDetection.ProxyStorage.Fetch: assumes that reads after a handoff do not change how the dispatch ends, because the code does not follow them; by `Dispatch.TerminalExactly` its tests cannot be relied on otherwise.
- UpgradeProofs.UpgradeLands: assumes `selectors()` is served by a facet or by the generated delegate, not both, as `deploy` proposes it, and no delegate at the zero address.
- Upgrade.BuildMigration: the warning for an installed facet that cannot be read is not modelled; its selectors are not among the installed ones.
- Upgrade.VerifyMigration: a recorded migration whose address holds no code is the empty bytestring; reading code from the chain is not modelled.
- LogScan.GetLogs: requires a run that ends, since it does not return otherwise; an error that is not an object, which would compare with others, is not modelled.
- LogScanTheorems.ReturnsAccounts: a range that is both reported missing and answered later is possible with an inconsistent node and is not excluded.
- LogScanTheorems.ReturnsExactly: logs of one block have increasing indices; a log marked removed is not modelled.
- Classifying a node's messages by regular expressions: an error is given as whether it is missing history, its first block, its stated caps and its retry range.
- Waiting between resends, timeouts and the HTTP layer.
- Rpc.Client.PostBatch: an overload's resends are counted since the last answered batch, as in the source, also over a batch that shrank meanwhile.
- ShapeBuild.ShapeFaithful: the recursion that fills the list of nodes in place is modelled on values; how a type's label is read is not modelled.
- Shapes.SameReflexive: assumes no struct has one name at two places, which the compiler rules out.
- Findings, warnings and reports as text, with the counts in them; only which findings there are.
- StorageChecks.CheckStorage: the count of slots that sources declare alike, which only the report shows, is not modelled.
- Ledger.LedgerFile.RunAccept: whether a proxy's checks pass is an input here; `Upgrade.VerifyMigrated` is that check.
- DeployPlan.CheckPredictsDeploy: assumes all constructor arguments known, and fresh addresses that differ from each other and from those recorded; `redeploy_all`, and facets that do not build, are left out.
- Rehearsing a migration on a fork, and the failures it reports.
- Key stores, signing, broadcasting, constructor replay and Sourcify.
- Resolving `facetSrc`, building with `forge`, and reading ABIs and storage layouts from the compiler.
