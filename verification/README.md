# Session core: a verified model

This project models, in Dafny, the parts of the Session utility library that are hardest to get
right, and proves what they promise.

- **Configs** (`src/config.cpp`). A config is a nested dict of scalars, sets and dicts. Every
  message carries a `(seqno, hash)` identity, its data, the diff from its parent and a window of
  older diffs. Devices edit concurrently and merge what they receive. The model has the diff and
  apply walks, pruning, the wire form, the mutable message and the merge. The theorems are about
  all messages, all histories and all runs: replay with hindsight, convergence, absorption, last
  writer wins, concurrent edits, the window, round trips.
- **The network** (`src/session_network.cpp`). The life of a request as a state machine with every
  event of the loop (send, queue, time out, resume, fail, retry, wait for a refresh, close), the
  onion paths with their repairs and drops, and the swarm lookup. The theorems are about every run.
- **Supporting algorithms**: the two-cursor map merge (`src/bt_merge.cpp`), `split`
  (`src/util.cpp`) and the disk format of nodes that rests on it.

Loops are methods with invariants, objects are classes, and each is proved equal to a function on
values; the laws are proved about those functions. Dicts, sets and vectors that the source passes by
reference and changes in place are values here: a method returns the new value.

`dafny verify dfyconfig.toml` checks the whole project.

## Layout

| file | content |
|---|---|
| `Options`, `Ordering` | options and results; orders, sorted enumerations, walks with two cursors |
| `ConfigData`, `ConfigDiff`, `ConfigApply`, `ConfigDiffLaws` | values and pruning; computing a diff; applying one; what a diff records at every path |
| `ConfigReplay` | replaying a history from its last state |
| `ConfigMerge`, `ConfigMergeLoops`, `ConfigMergeLaws`, `ConfigLastWriter` | the merge of a set of messages; the loops that compute it; its laws |
| `BtTree`, `Wire`, `WireParse`, `WireMessage`, `WireForms` | the trees on the wire; writing, reading and parsing them; what exactly is written and accepted |
| `ConfigMessage`, `ConfigRuns`, `ConfigLoad`, `ConfigExchange` | the mutable message; whole runs of edits; merging raw inputs; exchange from end to end |
| `BtMerge`, `Split`, `NodeDisk`, `Swarms` | map merge; string splitting; nodes on disk; swarm lookup |
| `Requests`, `RequestLaws`, `RequestEffects`, `RequestBounds`, `RequestLoop` | the request state machine; its laws; what each event does to the requests; its bounds are exact; the object that runs it |
| `Paths`, `PathLaws`, `PathEffects`, `PathTable`, `PathChoice` | the path state machine; its laws; what each event does to the paths; the object that runs it; choosing a path |

## Assumptions

- Sequence numbers are mathematical integers, `lag >= 1`, hashes have 32 bytes, and a hash identifies
  a message (`ConfigMerge.IdsIdentify`, `ConfigLoad.NoCollision`).
- The byte form of bencoding (BEP 3), hex and decimal conversion, hashing, signatures, QUIC and
  timers belong to libraries. Trees, hash functions, clocks, connections and node lists are inputs.
- User callbacks neither throw nor call back into the network. They are outputs in a list.
- Every event of the network loop is atomic, as all of them run on one loop.

## Findings

Where the code does not do what its comments or its callers expect, the model follows the code, and
a lemma says exactly when.

- `unmerged_index` counts only the messages that parsed, although its user takes it as an index into
  the inputs (src/config/base.cpp:545). It names the right input if and only if no input up to
  that index failed to parse (`ConfigLoad.IndexNamesInput`, `ConfigLoad.IndexCanBeOff`).
- A bad node in a path is replaced by the last unused node without a look at its IP, so a path can
  get two nodes of one IP, which building a path excludes. `PathLaws.SpreadKeptIff` gives the exact
  condition and `PathLaws.SpreadCanFail` a run.
- An error seen before decryption is retried behind the response handler of the failed attempt. A
  request can therefore be re-sent up to fourteen times and not three
  (`RequestLaws.BoundedRetries`, `RequestBounds.BoundsReached`).
- `load_diff` accepts a list with one element that is not a scalar, and applying that diff later
  throws. So inputs that all parse can make the construction fail: exactly when a surviving change
  reaches such an entry where its greatest carrier holds a set (`ConfigMerge.MergeBreaksIff`,
  `ConfigExchange.AcceptedButUnmergeable`).
- `load_diff` does not advance past an integer value. It loops for ever exactly when one is reached
  after an accepted part (`WireParse.LoadDiff`, `WireMessage.MessageStuckIff`).
- `increment_impl` trims against the seqno before it is bumped, so one entry more than its comment
  says stays in memory (`ConfigMessage.MutableMessage.IncrementImpl`); the serialiser filters it out
  (`ConfigRuns.WindowOverRuns`).
- A node whose version is all zeros, or empty, or whose IP has a `|`, cannot be read back
  (`NodeDisk.DiskRoundTrip`).
- `std::replace` gets a reference into the vector it changes; only the first match, and later
  elements equal to the new value, are written (`PathTable.ReplaceFrom`).
- `find_valid_path` is said to keep off the destination's IP (src/session_network.cpp:1545-1546) but
  compares whole nodes, so another node on that IP slips through. `PathChoice.CandidatesAvoidIff` gives
  the exact condition and `PathChoice.SharedIpSlipsThrough` an input.
- Splitting undoes joining for every one-byte delimiter, and for longer ones exactly when they are
  unbordered (`Split.SplitJoinIff`).

## Model

| member | source | states |
|---|---|---|
| `ConfigData.PruneIsPruned` | src/config.cpp:27-54 | what pruning leaves has no empty set or dict below the top level, at any depth |
| `ConfigData.PruneFixesPruned` | src/config.cpp:27-54 | pruning changes a dict exactly when it is not pruned |
| `ConfigData.PruneKeepsContent` | src/config.cpp:27-54 | a scalar sits at a path after pruning iff it did before: no content is lost or made up |
| `ConfigData.PruneInPlace` | src/config.cpp:27-54 | the erasing walk prunes; its flags say that the dict became empty and that something was removed |
| `ConfigData.PruneValueInPlace` | src/config.cpp:27-54 | the same for one value; removed subkeys are reported exactly for a dict that was not pruned |
| `ConfigData.ScalarOrder` | src/config.cpp:180-200 | scalars are strictly and totally ordered, ints before strings |
| `Ordering.StrLessIff` | src/config.cpp:195-199 | the order of keys, strings and hashes: at the first difference the lesser ends or has the lesser byte |
| `ConfigDiff.DiffEmptyIffEqual` | src/config.cpp:88-154 | a diff is empty iff the two dicts are equal |
| `ConfigDiff.DiffEffective` | src/config.cpp:57-154 | the diff of pruned dicts has no empty part at any depth and adds nothing that it removes |
| `ConfigDiff.DiffClean` | src/config.cpp:57-154 | a computed diff never has a set change that cannot be applied |
| `ConfigDiff.DiffLookup` | src/config.cpp:88-154 | the diff has an entry for a key exactly when the two slots differ, whatever the other keys are |
| `ConfigDiff.KindChangeLooksNew` | src/config.cpp:115-119 | a change of kind is recorded like a new value, whatever was there |
| `ConfigDiff.DiffSetsWalk` | src/config.cpp:57-86 | the two-cursor set walk gives exactly new minus old and old minus new, both sorted, and nothing iff the sets are equal |
| `ConfigDiff.DiffDictsWalk` | src/config.cpp:88-154 | the two-cursor dict walk equals the key-by-key diff, whose every entry `ConfigDiffLaws.DiffAtPath` fixes, and gives nothing iff the dicts are equal |
| `ConfigDiff.NewEntry` | src/config.cpp:138-147 | the entry for a value that was not there, which needs no empty sub-diff to be dereferenced |
| `ConfigDiff.GoneEntry` | src/config.cpp:97-109 | the entry for a value that is gone: a deletion for a scalar, the removal of every member for a set, the diff to nothing for a dict |
| `ConfigDiff.ChangedEntry` | src/config.cpp:121-135 | the entry for a value changed within its kind, none iff it is the same |
| `ConfigDiff.BothEntry` | src/config.cpp:111-147 | the entry for a key of both dicts, a change of kind included |
| `ConfigDiffLaws.DiffAtPath` | src/config.cpp:88-154 | the entry at every path by what was and is there: none iff nothing changed or the container above is not looked into; an assignment, a deletion, exactly the members gained and lost, or a sub-diff |
| `ConfigDiffLaws.RemovedAtPath` | src/config.cpp:97-109 | replaying a removal over any data and source: at every path below it old scalars go, old set members go and no others, all else stays |
| `ConfigDiffLaws.RemovedKey` | src/config.cpp:97-109 | the same at a top-level key: a removed scalar is a deletion, a removed set loses exactly its old members |
| `ConfigApply.ApplyExact` | src/config.cpp:356-426 | applying the diff of two dicts to the first, with the second as source, gives exactly the second, at every depth |
| `ConfigApply.ApplyIdempotent` | src/config.cpp:356-426 | for any data, diff and source, applying twice equals applying once |
| `ConfigApply.ApplyAtPath` | src/config.cpp:356-426 | frame at every depth: a path no entry is about keeps its value, and a path with an entry depends on that entry, its old value and the source alone |
| `ConfigApply.ApplyByKind` | src/config.cpp:356-426 | what each kind of entry makes of a path, by the kind the source holds there: assigned, deleted, members added and then removed, a dict, and erased whenever the source has another kind |
| `ConfigApply.SetMemberLaw` | src/config.cpp:400-421 | at any depth a set member ends up present iff it was present or added, and is not removed |
| `ConfigApply.ApplyInPlace` | src/config.cpp:356-426 | the loop over the diff computes `Apply`, and fails exactly when a set change with an element that is no scalar meets a set in the source |
| `ConfigApply.UpdateSlot` | src/config.cpp:359-424 | one entry: assign, delete, set or dict change, erasing where the source has another kind, and the error of a set change that cannot be applied |
| `ConfigApply.InsertThenErase` | src/config.cpp:408-421 | inserting the added and then erasing the removed members, with an error iff some element is no scalar |
| `ConfigApply.BreaksIff` | src/config.cpp:356-426 | applying fails iff at some path, below sub-dict entries that match the source, stands such a set change and the source holds a set there; the data has no say |
| `ConfigApply.CleanNeverBreaks` | src/config.cpp:356-426 | a diff without such set changes can be applied to anything with any source |
| `ConfigReplay.FaithfulStep` | src/config.cpp:368-377 | the invariant of a replay with a later source: wherever the state agrees with the goal, at any depth, so does the data, even after an erasure on a kind mismatch |
| `ConfigReplay.FaithfulAgrees` | src/config.cpp:368-377 | what the invariant says of one key |
| `ConfigReplay.ReplayFaithful` | src/config.cpp:677-683 | the invariant over a whole history |
| `ConfigReplay.HindsightReplay` | src/config.cpp:368-377 | for every history, replaying the diffs of any suffix with the last state as source, from the suffix's first state or from the last state itself, ends exactly in the last state |
| `ConfigMerge.GreatestSurvives` | src/config.cpp:587-614 | the message with the greatest (seqno, hash) always survives pruning, and is the greatest survivor |
| `ConfigMerge.SurvivesIff` | src/config.cpp:587-614 | a message survives iff no message lists it and none is `lag` or more ahead of it |
| `ConfigMerge.UnmergedIsGreatest` | src/config.cpp:616-644 | when no merge may be signed the message with the greatest (seqno, hash) of all is taken as it is; else a message is taken as it is iff no other survives |
| `ConfigMerge.ReplayedFrom` | src/config.cpp:665-675 | a change is replayed with the diff and the data of the greatest message that knows of it |
| `ConfigMerge.ReplayedIff` | src/config.cpp:665-675 | and is replayed iff some survivor knows of it |
| `ConfigMerge.MergedSeqno` | src/config.cpp:661-663 | the seqno of a real merge is one above the greatest |
| `ConfigMerge.MergedLagged` | src/config.cpp:677-683 | its lagged diffs are exactly the changes its survivors know of |
| `ConfigMerge.DroppedIsCovered` | src/config.cpp:587-614 | every dropped message that is not too old is linked to a survivor by a chain of inclusions with strictly rising seqnos |
| `ConfigMerge.MergeBreaksIff` | src/config.cpp:654-690 | a merge stops with an error iff more than one message survives, merging is allowed, and some known change reaches, at some path, a set change that cannot be applied where its greatest carrier holds a set |
| `ConfigMerge.CleanMerges` | src/config.cpp:654-690 | messages whose changes can all be applied never stop a merge |
| `ConfigMergeLoops.MarkRedundant` | src/config.cpp:587-610 | the marking loop finds the highest seqno and marks exactly the included, the too old and all but one of equal messages |
| `ConfigMergeLoops.FindShadow` | src/config.cpp:596-604 | the inner loop finds a message that makes this one redundant iff there is one |
| `ConfigMergeLoops.KeepIsSurvivors` | src/config.cpp:587-614 | what is not marked is, without repetition, the set of survivors |
| `ConfigMergeLoops.CountKept` | src/config.cpp:612-614 | the number of messages left |
| `ConfigMergeLoops.BestIndex` | src/config.cpp:634-643 | the pick when no merge may be signed: an unmarked message that no unmarked message exceeds |
| `ConfigMergeLoops.EraseRedundant` | src/config.cpp:648-652 | erasing keeps the unmarked messages in order |
| `ConfigMergeLoops.SortDescending` | src/config.cpp:654-659 | sorting keeps the messages and orders them from the greatest down |
| `ConfigMergeLoops.CollectReplay` | src/config.cpp:665-675 | collecting the diffs, never overwriting, from the greatest message down |
| `ConfigMergeLoops.CollectedIsReplayMap` | src/config.cpp:665-675 | which gives each known change once, with values from the greatest survivor that carries it |
| `ConfigMergeLoops.ReplayAll` | src/config.cpp:677-683 | the replay loop runs the changes in ascending order and records them as lagged diffs; it fails iff some change cannot be applied to its source |
| `ConfigMergeLoops.MergeKept` | src/config.cpp:654-690 | sort, collect, replay and prune: data, lagged diffs and failure are functions of the set of survivors |
| `ConfigMergeLoops.Merge` | src/config.cpp:587-690 | convergence: in every outcome (one survivor, pick without signing, real merge, broken merge) the result is a function of the set of messages, so no permutation or repetition of the inputs changes it; `unmerged` is the position of the message used, which exceeds every other in (seqno, hash), and is there whenever no merge may be signed |
| `ConfigMergeLaws.Absorption` | src/config.cpp:596-686 | as values: merging a published merge result with all the messages it was made from gives that result back, unmerged |
| `ConfigLastWriter.LastWriterWins` | src/config.cpp:356-426 | at every path of a merge result the greatest replayed change that mentions the path decides it, with the data of the greatest survivor that carries that change: gone below a replaced container, after a deletion and on a kind mismatch, else the scalar, the set members or a dict whose paths are decided in turn; an unmentioned path keeps the greatest message's value |
| `ConfigLastWriter.PruneAtPath` | src/config.cpp:27-54 | what pruning makes of the value at a path depends on that value alone |
| `ConfigLastWriter.PruneKeepsLeaves` | src/config.cpp:27-54 | scalars and sets with members stay at their paths; a dict stays a dict or goes |
| `ConfigLastWriter.TopLevelMention` | src/config.cpp:356-391 | at a top-level key a change is mentioned iff it has an entry for the key |
| `ConfigMergeLaws.ThreeWayMember` | src/config.cpp:400-421 | in the three-way merge a set member is decided by the side that changed it |
| `ConfigMergeLaws.NoConflictNoOrder` | src/config.cpp:654-686 | without conflicts the three-way merge does not depend on which side is the greater |
| `ConfigMergeLaws.EditsMeet` | src/config.cpp:356-426 | applying the lower and then the higher edit, each with its own source, gives the three-way merge at every depth |
| `ConfigMergeLaws.ConcurrentEdits` | src/config.cpp:461-690 | two children of one base merge to the three-way merge of their data, in which the greater (seqno, hash) wins the conflicts |
| `ConfigMergeLaws.NoLostEdits` | src/config.cpp:461-690 | without conflicts both sides' changes survive, whichever hash is greater |
| `ConfigMergeLaws.DisjointEdits` | src/config.cpp:461-690 | when the sides change disjoint top-level keys, every key ends with the value of the side that changed it |
| `Wire.ReadWrite` | src/config.cpp:246-294 | reading a serialised pruned dict gives it back |
| `Wire.WriteRead` | src/config.cpp:246-294 | writing what an accepted tree is read as gives the tree back |
| `Wire.DataAccepted` | src/config.cpp:269-310 | an ordered tree is accepted iff it is the serialisation of a dict with no empty nested dict or set |
| `WireParse.SerializeData` | src/config.cpp:246-267 | the serialiser loops write the sorted tree |
| `WireParse.ParseSet` | src/config.cpp:292-310 | a list is accepted iff it is non-empty, all scalars, strictly ascending |
| `WireParse.ParseData` | src/config.cpp:269-290 | a dict is accepted iff its keys ascend and its values are well shaped; only the top level may be empty |
| `WireParse.LoadDiff` | src/config.cpp:203-243 | the loader accepts exactly the trees of the shape `DiffShaped`, never returns exactly on those in which an integer value is reached after an accepted, ascending part, at any depth, and refuses all others |
| `WireParse.LoadEntry` | src/config.cpp:209-240 | one value: its entry, an error, or no progress |
| `WireParse.LoadSetChange` | src/config.cpp:215-235 | two lists, each with ascending neighbours; a single element is not looked at |
| `WireParse.FirstFault` | src/config.cpp:203-243 | the first entry that is not accepted decides between an error and an endless loop |
| `WireParse.IntegerStops` | src/config.cpp:209-240 | a leading integer stops the loader; behind a refused entry it does not |
| `WireParse.CheckScalarOrders` | src/config.cpp:183-200 | a list is accepted iff neighbours ascend, ints before strings |
| `WireParse.DiffReadWrite` | src/config.cpp:203-243 | reading a written diff gives it back, set changes that cannot be applied included |
| `WireParse.DiffWriteRead` | src/config.cpp:203-243 | writing what any accepted tree is read as gives the tree back |
| `WireParse.DiffAccepted` | src/config.cpp:203-243 | the loader accepts a tree iff it is a written diff |
| `WireParse.LoadedIsClean` | src/config.cpp:203-243 | what is loaded can always be applied iff all listed set changes are scalars |
| `WireParse.LoadedButStray` | src/config.cpp:215-235 | the loader accepts a set change whose only added element is a list |
| `WireMessage.SerializeMessage` | src/config.cpp:737-787 | the serialised message has the seqno, data, diff and exactly the lagged diffs in the window, ascending |
| `WireMessage.ParseLags` | src/config.cpp:312-342 | the rows of lagged diffs: too old ones skipped, the rest checked in order for seqno, hash size, order and diff, any of which may end it; the diff of a row may also stop it |
| `WireMessage.ParseMessage` | src/config.cpp:525-561 | parsing a message, with its errors and its endless loop |
| `WireMessage.MessageStuckIff` | src/config.cpp:525-561 | parsing never ends iff the data is accepted and then an in-window row in order, or after all rows the message's own diff, stops the loader |
| `WireMessage.ParseGuarantees` | src/config.cpp:269-342 | a parsed message has pruned data, only lagged seqnos inside its window, and hashes of 32 bytes |
| `WireMessage.MessageRoundTrip` | src/config.cpp:525-787 | parsing a serialised message gives back its seqno, data, diff and in-window lagged diffs |
| `WireForms.ScalarForm` | src/config.cpp:180-200 | ints come before strings, ints by value, strings by bytes |
| `WireForms.WrittenSet` | src/config.cpp:263-267 | a set is written as exactly its members in strictly ascending order |
| `WireForms.WrittenDict` | src/config.cpp:246-267 | a dict is written as its entries in key order, each value in the form of its kind |
| `WireForms.WrittenDiff` | src/config.cpp:57-154 | the form of each diff entry: the empty string, a dash, two sorted lists with the additions first, or a dict |
| `WireForms.ChangeListsIff` | src/config.cpp:215-233 | a set change is accepted iff it is two lists, each the written form of a set or of a single element of any kind |
| `WireForms.LoadedNext` | src/config.cpp:203-243 | the loader entry by entry: a key that does not follow is refused; an integer stops it, at any depth; a value is accepted or ends the loading whatever follows |
| `WireForms.WrittenRow` | src/config.cpp:749-760 | a lagged row is seqno, hash and diff, rows in ascending order |
| `WireForms.WrittenMessage` | src/config.cpp:737-764 | everything is written, and of the lagged diffs exactly those in the window |
| `WireForms.ReadRowIff` | src/config.cpp:312-342 | exactly which rows are skipped as too old and which are taken, and as what |
| `WireForms.AddRowsIff` | src/config.cpp:312-342 | the rows are accepted iff each is old or good and the good ones ascend |
| `WireForms.MessageLoadedIff` | src/config.cpp:525-561 | exactly which trees are accepted as messages; rows below the window are not looked into |
| `WireForms.MessageRead` | src/config.cpp:525-561 | what is read from them: writing it gives the data, the diff and every row in the window back, and there are no other lagged diffs |
| `ConfigMessage.MutableMessage.constructor` | src/config.cpp:521-523 | a fresh message is empty, and its hash is that of the empty message with seqno 0 |
| `ConfigMessage.MutableMessage.IncrementOf` | src/config.cpp:500-511 | a message made from a parsed one or from a merge result: next seqno, same data, the parent's diff among the lagged |
| `ConfigMessage.MutableMessage.Retain` | src/config.cpp:489-498 | keeping the seqno of an immutable message keeps data and lagged diffs, but the original data is empty |
| `ConfigMessage.MutableMessage.RetainMutable` | src/config.cpp:489-498 | of a mutable message everything is kept |
| `ConfigMessage.MutableMessage.SetData` | include/session/config.hpp:333-335 | editing changes the data alone |
| `ConfigMessage.MutableMessage.Diff` | src/config.cpp:724-729 | prunes the data and stores the diff from the original data |
| `ConfigMessage.MutableMessage.Serialize` | src/config.cpp:737-787 | what a mutable message sends |
| `ConfigMessage.MutableMessage.Hash` | src/config.cpp:789-794 | the hash is that of the serialised message |
| `ConfigMessage.MutableMessage.IncrementImpl` | src/config.cpp:461-487 | the in-place increment: old seqno's window, plus the finished diff |
| `ConfigMessage.MutableMessage.Increment` | src/config.cpp:500-519 | hash, then increment |
| `ConfigMessage.IncrementAfterSending` | src/config.cpp:500-511 | incrementing the parsed message comes to the same as incrementing the message that was sent |
| `ConfigMessage.Trim` | src/config.cpp:466-481 | the two erasing loops leave exactly the entries inside the window |
| `ConfigMessage.SentIsParsed` | src/config.cpp:724-787 | another device parses what is sent without error as the message meant |
| `ConfigMessage.EditSendsChild` | src/config.cpp:461-511 | editing an incremented message and sending it makes a child of the parsed base |
| `ConfigMessage.SentCarries` | src/config.cpp:461-487 | what a sent message carries is what the next one has in memory |
| `ConfigRuns.WindowOverRuns` | src/config.cpp:461-511 | after any n edit-and-increment steps from a fresh message the serialised lagged diffs are exactly the last min(n, lag-1) diffs, ascending, each between consecutive states |
| `ConfigRuns.RunSendsLine` | src/config.cpp:461-511 | every message sent along a run carries the steps of one line of states ending in its data |
| `ConfigLoad.ValidMergeable` | src/config.cpp:563-585 | the inputs that parse meet what the merge needs |
| `ConfigLoad.IndexNamesInput` | src/config.cpp:563-585 | the i-th valid message comes from input i iff no input up to i failed to parse |
| `ConfigLoad.IndexCanBeOff` | src/config.cpp:563-585 | and with a bad first input it does not |
| `ConfigLoad.MergeInputs` | src/config.cpp:563-690 | parse, skip and merge: the result depends on the set of valid messages and on whether some input never parses; it fails iff there is no valid message or the merge breaks, whose exact condition is part of the contract; a message taken as it is exceeds every other valid one in (seqno, hash), and one is taken whenever no merge may be signed |
| `ConfigExchange.ResultIsParsed` | src/config.cpp:525-787 | another device parses a sent merge result as the message meant |
| `ConfigExchange.WireAbsorption` | src/config.cpp:563-787 | on the wire: merging the inputs again together with the serialised result of merging them takes that tree as it is, and the index names it |
| `ConfigExchange.TwoDevices` | src/config.cpp:461-787 | on the wire: two devices parse the same message of any run, edit it and send; whoever parses and merges the two trees gets the three-way merge of the edits |
| `ConfigExchange.AcceptedButUnmergeable` | src/config.cpp:408-421 | two messages that both parse and whose construction fails, because an accepted diff cannot be applied |
| `BtMerge.Merge` | src/bt_merge.cpp:4-19 | the map union with left precedence, inserted in ascending key order |
| `Split.SplitUnique` | src/util.cpp:6-27 | there is one way to split a string |
| `Split.JoinSplit` | src/util.cpp:6-27 | joining the pieces restores the input |
| `Split.PiecesFree` | src/util.cpp:6-27 | no piece contains the delimiter |
| `Split.SplitJoin` | src/util.cpp:6-27 | for a one-byte delimiter, splitting a join of pieces without it gives the pieces |
| `Split.SplitJoinIff` | src/util.cpp:6-27 | for any delimiter, that holds for all pieces iff no end of the delimiter is also a beginning of it |
| `Split.SplitString` | src/util.cpp:6-27 | the loop finds that split, trims empty pieces at both ends if asked, and splits into bytes for an empty delimiter |
| `Split.StripFrontIs` | src/util.cpp:6-27 | trimming takes exactly the empty pieces at the front |
| `Split.StripBackIs` | src/util.cpp:6-27 | and exactly those at the back |
| `NodeDisk.ParseVersion` | src/session_network.cpp:140-155 | the numbers between the dots, trailing zeros trimmed, or an error |
| `NodeDisk.TrimmedZero` | src/session_network.cpp:140-155 | a version trims to a single zero iff it is all zeros |
| `NodeDisk.TrimZerosIs` | src/session_network.cpp:140-155 | exactly the trailing zeros go, except the first number |
| `NodeDisk.NodeFromDisk` | src/session_network.cpp:206-233 | reading a line, with its errors |
| `NodeDisk.DiskRoundTrip` | src/session_network.cpp:206-264 | reading a written node gives it back with trailing version zeros trimmed, exactly when its ip has no delimiter and its version is neither empty nor (unless ignored) all zeros |
| `NodeDisk.DiskParts` | src/session_network.cpp:253-264 | a written node is ip, port, version, key and swarm id, in this order |
| `NodeDisk.DecimalForm` | src/session_network.cpp:253-264 | its numbers are decimal without leading zeros |
| `NodeDisk.HexForm` | src/session_network.cpp:253-264 | its key has two lower-case hex digits for each byte, high half first |
| `NodeDisk.ReadNodeIff` | src/session_network.cpp:206-233 | exactly which lines are read as a node, and as which node |
| `Swarms.PartitionConserves` | src/session_network.cpp:304-319 | every node is in exactly one swarm, as often as it was given |
| `Swarms.PartitionUnique` | src/session_network.cpp:304-319 | the nodes determine the list of swarms |
| `Swarms.GroupNodes` | src/session_network.cpp:309-310 | the grouping loop |
| `Swarms.MembersInOrder` | src/session_network.cpp:309-310 | the nodes of a swarm keep the order they were given in |
| `Swarms.SortGroups` | src/session_network.cpp:312-317 | the sort by id |
| `Swarms.GenerateSwarms` | src/session_network.cpp:304-319 | the swarms are a strictly id-sorted partition of the nodes |
| `Swarms.NearestUnique` | src/session_network.cpp:1699-1722 | one swarm is nearest, ties going to the left |
| `Swarms.NearestIff` | src/session_network.cpp:1699-1722 | nearest in the plain metric of the ring of 64-bit ids: strictly nearer than any other swarm, or as near and on the left |
| `Swarms.LowerBound` | src/session_network.cpp:1703-1706 | the first swarm not below the id |
| `Swarms.Boundaries` | src/session_network.cpp:1708-1719 | the two candidates are the nearest to the right and to the left, with wrap-around at 2^64 |
| `Swarms.NearestSwarm` | src/session_network.cpp:1699-1721 | the lookup finds the swarm of least circular distance |
| `Swarms.SwarmTable.constructor` | src/session_network.cpp:571-627 | swarms of the loaded cache |
| `Swarms.SwarmTable.RefreshComplete` | src/session_network.cpp:1081-1107 | new nodes, regenerated swarms, empty swarm cache |
| `Swarms.SwarmTable.ClearCache` | src/session_network.cpp:694-697 | clearing the node cache leaves the swarms |
| `Swarms.SwarmTable.GetSwarm` | src/session_network.cpp:1678-1732 | in every reachable state the answer, cached or computed, is the nearest of the current swarms; there is none iff nothing is cached and there are no nodes or swarms |
| `Requests.JudgeRaisesRank` | src/session_network.cpp:2424-2650 | every automatic retry raises the rank none < decryption failure < redirect < swarm refresh, and only a redirected request of a node's swarm waits for a refresh |
| `Requests.JudgeIff` | src/session_network.cpp:2424-2650 | a request is sent again iff this is its first decryption failure, or a 421 on a first or second attempt for a swarm with another node; it waits for a refresh iff the 421 answers a redirect |
| `RequestEffects.JudgeOutcome` | src/session_network.cpp:2424-2650 | what the verdict is: the request with its new reason and another node of the swarm, or a reply with the status and timeout the user gets |
| `RequestEffects.HtmlStatuses` | src/session_network.cpp:2457-2475 | the status and timeout each proxy body stands for |
| `RequestEffects.OtherStatuses` | src/session_network.cpp:2457-2475 | all other failures are taken as they are |
| `Requests.HtmlOrderIrrelevant` | src/session_network.cpp:2457-2475 | the order of the unordered table of HTML errors makes no difference |
| `Requests.RedirectLeavesTarget` | src/session_network.cpp:2529-2566 | a redirect goes to another node of the swarm than the one that answered 421 |
| `RequestLaws.RefusalReachesUser` | src/session_network.cpp:1977-1980 | a failure passes through every wrapped response handler to the user |
| `RequestLaws.DeliverFits` | src/session_network.cpp:1959-2105 | calling a handler stays with its request, spends its budget of re-sends and raises the rank |
| `RequestLaws.StepKeeps` | src/session_network.cpp:1763-2105 | every event keeps the invariant: each request in one place, each attempt within its budget |
| `RequestLaws.RequestConservation` | src/session_network.cpp:1763-2105 | after every run each accepted request is in exactly one place or answered exactly once, and its callback was called at most once |
| `RequestLaws.ResendRaisesRank` | src/session_network.cpp:2444-2650 | every step that re-sends takes one attempt out and schedules one for the same request: with the callback of the attempt it replaces, differing from it only in target and reason, and of strictly higher rank; what it replaces is the attempt taken out, or the attempt of the handler that could not read the answer |
| `RequestLaws.RespondResends` | src/session_network.cpp:1855-1882 | the same for a response, and what it replaces |
| `RequestLaws.RefreshResends` | src/session_network.cpp:2576-2630 | the retry after a refresh leaves the node that answered 421 too |
| `RequestLaws.BoundedRetries` | src/session_network.cpp:1864-1882 | over every run a request is re-sent at most fourteen times, and at most three times when no failure was seen before decryption |
| `RequestEffects.TimeoutsExactly` | src/session_network.cpp:1780-1803 | a queued request stays iff it has no deadline or the deadline is not past; every other one is answered with a path build timeout; nothing else changes |
| `RequestEffects.TimeoutsInOrder` | src/session_network.cpp:1763-1803 | in the order of the queue, and not at all on a suspended network |
| `RequestEffects.ResumedExactly` | src/session_network.cpp:1511-1519 | exactly the queued requests of the type of the new path that it fits are scheduled; nothing else changes |
| `RequestEffects.ResumedInOrder` | src/session_network.cpp:1511-1519 | in the order of the queue, and not at all on a suspended network |
| `RequestEffects.ClosedExactly` | src/session_network.cpp:743-761 | every queued request gets the suspension error, in order |
| `RequestEffects.SentAs` | src/session_network.cpp:1817-1970 | a new request goes out with the user's callback and a scheduled one as scheduled: queued, refused with its status, or in flight behind a handler |
| `RequestEffects.RejectedExactly` | src/session_network.cpp:1855-1882 | what a failure seen before decryption does, by its verdict |
| `RequestEffects.ArrivedExactly` | src/session_network.cpp:1884-1890 | what a response does, by what the chain of handlers makes of it |
| `RequestEffects.ReadByAll` | src/session_network.cpp:1959-2105 | a response every handler can read reaches the user with the status the last one found |
| `RequestEffects.UnreadBy` | src/session_network.cpp:1959-2105 | the first handler that cannot read it decides, on the request it captured: sent again or put off with the callback behind it, or failed |
| `RequestEffects.LookedUpExactly` | src/session_network.cpp:2588-2630 | the lookup after a refresh: waits again without a swarm, answers 421 without another node, and else goes to another node of the swarm |
| `RequestBounds.BoundsReached` | src/session_network.cpp:1864-1882 | both bounds are exact, by runs over well-typed nodes |
| `RequestBounds.Drain` | src/session_network.cpp:1864-1882 | every re-send the budget of a chain of handlers allows can happen |
| `RequestLoop.CopyOthers` | src/session_network.cpp:2539-2546 | the swarm's nodes other than the target, in order |
| `RequestLoop.SplitQueue` | src/session_network.cpp:1780-1803 | `std::erase_if`: what stays and what is erased, both in order |
| `RequestLoop.Network.RefuseAll` | src/session_network.cpp:750-757 | calls back a list of requests with one failure, in order |
| `RequestLoop.Network.Invoke` | src/session_network.cpp:1959-2105 | calling a chain of handlers is `Deliver` |
| `RequestLoop.Network.Fault` | src/session_network.cpp:1977-1980 | a failing call reaches the user |
| `RequestLoop.Network.Send` | src/session_network.cpp:1817-1970 | sending: queued, refused, or in flight behind a new handler |
| `RequestLoop.Network.SubmitRequest` | src/session_network.cpp:1892-1910 | a new request is the event `Submit` |
| `RequestLoop.Network.RunOne` | src/session_network.cpp:2452-2454 | a scheduled re-send is the event `RunScheduled` |
| `RequestLoop.Network.OnResponse` | src/session_network.cpp:1849-1890 | a response is the event `Respond` |
| `RequestLoop.Network.CheckRequestQueueTimeouts` | src/session_network.cpp:1763-1803 | the erasing loop is the event `CheckTimeouts`, whose effect `RequestEffects.TimeoutsExactly` states |
| `RequestLoop.Network.ResumeQueue` | src/session_network.cpp:1510-1519 | the erasing loop is the event `PathBuilt`, whose effect `RequestEffects.ResumedExactly` states |
| `RequestLoop.Network.CloseAll` | src/session_network.cpp:743-761 | every queued request is answered and the queue is empty |
| `RequestLoop.Network.CompleteRefresh` | src/session_network.cpp:1109-1112 | everything that waited is scheduled |
| `RequestLoop.Network.LookUpSwarm` | src/session_network.cpp:2588-2630 | the lookup after a refresh: wait again, give up, or retry once more |
| `RequestLoop.Network.SetSuspended` | src/session_network.cpp:724-737 | suspending and resuming |
| `RequestLoop.Network.Handle` | src/session_network.cpp:1763-2105 | one turn of the event loop is the step of the machine and keeps conservation and budgets |
| `Paths.GrowChooses` | src/session_network.cpp:1437-1469 | the nodes added to a path are unused ones, in order from the back, one per IP |
| `Paths.GrowLeaves` | src/session_network.cpp:1437-1469 | a node that was passed over shares its IP with the path |
| `PathEffects.GrowNext` | src/session_network.cpp:1437-1469 | the next node is the last unused one whose IP the path does not have |
| `PathEffects.BuiltFromTheBack` | src/session_network.cpp:1437-1469 | which two nodes a new path gets, by their positions, and what is left |
| `Paths.FullIffThreeIps` | src/session_network.cpp:1437-1469 | a path can be filled iff guard and unused nodes have three IPs between them |
| `Paths.BuildPromises` | src/session_network.cpp:1396-1509 | a build succeeds iff there is a free connection and three IPs; then there is one new path of three nodes with distinct IPs and no failures, and the unused nodes are those that share no IP with it; otherwise paths and the order of connections are unchanged |
| `PathEffects.BuildOutcomes` | src/session_network.cpp:1396-1509 | which of the five ways a build goes, by the sizes of what it has, and what each leaves |
| `PathLaws.PathInvariant` | src/session_network.cpp:1435-1508 | in every reachable state each active path has exactly three nodes, starts at its connection and has fewer than three failures |
| `PathLaws.PathStepKeeps` | src/session_network.cpp:2708-2810 | every event keeps that |
| `PathLaws.ThreeStrikes` | src/session_network.cpp:2780-2811 | a path is kept through two failures and dropped by the third |
| `PathLaws.LastStrike` | src/session_network.cpp:2375-2379 | a dropped path stays pending exactly while it has requests |
| `PathEffects.StruckExactly` | src/session_network.cpp:2780-2811 | a failure that names no node of the path counts one, and drops the path at three |
| `PathEffects.BadNodeDrops` | src/session_network.cpp:2745-2768 | a bad node that is the guard, or any node when none is unused, drops the path at once: no path with its nodes is active, and it is pending iff busy |
| `PathEffects.BadNodeReplaced` | src/session_network.cpp:2742-2763 | any other bad node alone is replaced by the last unused one, and the failures grow iff the connection is not valid |
| `PathEffects.StruckElsewhere` | src/session_network.cpp:2683-2706 | a failure on a path that is not active changes no path |
| `PathEffects.StruckPending` | src/session_network.cpp:2683-2763 | and uses up a node exactly when a pending path has the bad node after its guard |
| `PathLaws.SpreadKeptIff` | src/session_network.cpp:2742-2763 | an event keeps one node per IP in every path iff it does not repair a path with a node of an IP the path has |
| `PathLaws.SpreadOverRuns` | src/session_network.cpp:1435-1508 | so over every run without such a repair each path has distinct IPs |
| `PathLaws.SpreadCanFail` | src/session_network.cpp:2742-2763 | and with one it may not: a run over well-typed nodes |
| `PathTable.Table.CollectNodes` | src/session_network.cpp:1437-1469 | the loop that takes nodes from the back |
| `PathTable.Table.BuildPath` | src/session_network.cpp:1396-1509 | the build, its five outcomes and the whole new state; the connection is put back at the front when nodes run out |
| `PathTable.Table.StorePath` | src/session_network.cpp:1471-1508 | the new path is added and unused nodes that share an IP with it are forgotten |
| `PathTable.Table.ClearEmptyPendingPathDrops` | src/session_network.cpp:2401-2417 | exactly the pending paths with requests stay |
| `PathTable.Table.DropPathWhenEmpty` | src/session_network.cpp:2375-2399 | all paths with these nodes leave, one becomes pending |
| `PathTable.Table.UpdatePath` | src/session_network.cpp:2708-2798 | the repaired or punished copy of the path, in each case as `PathEffects` states it |
| `PathTable.Table.HandlePathFailure` | src/session_network.cpp:2667-2811 | the end of the error handler, for active and pending paths: the step `Failed` that `PathEffects.StruckExactly`, `BadNodeDrops` and `BadNodeReplaced` describe |
| `PathTable.Table.ConnectionClosed` | src/session_network.cpp:953-974 | a closed connection is forgotten and the paths on it are dropped, whatever the order of the unordered map |
| `PathLaws.ClosedInAnyOrder` | src/session_network.cpp:953-974 | that order makes no difference to the paths left |
| `PathEffects.ClosedExactly` | src/session_network.cpp:953-974 | the closed connection goes, and of each type exactly the paths with the nodes of the first one that uses it |
| `PathEffects.ClosedPending` | src/session_network.cpp:953-974 | those and the paths pending before are pending iff busy |
| `PathTable.Table.OnRequestDone` | src/session_network.cpp:1884-1889 | a successful response clears the pending paths without requests |
| `PathTable.Table.CloseConnections` | src/session_network.cpp:743-769 | everything is cleared |
| `PathTable.ReplaceFrom` | src/session_network.cpp:2805-2810 | `std::replace` when its old value is an element of the range |
| `PathTable.DropShared` | src/session_network.cpp:1500-1508 | the unused nodes without an IP of the path |
| `PathTable.FindGuard` | src/session_network.cpp:2671-2681 | the first path with that guard |
| `PathChoice.FindValidPath` | src/session_network.cpp:1533-1597 | the choice of a path: any living candidate for standard requests, a least busy one for the others, none iff there is no candidate or a new path should be built |
| `PathChoice.KeepCandidates` | src/session_network.cpp:1538-1563 | the filters: living paths without the target node, with the fallback of the single path mode |
| `PathChoice.CandidatesAre` | src/session_network.cpp:1538-1563 | a path is a candidate iff it is alive and does not have the destination, or the single path mode has nothing else |
| `PathChoice.WaitsIff` | src/session_network.cpp:1565-1597 | none is returned iff there is no candidate or all are busy and there is room for another path; what is returned is least busy |
| `PathChoice.ContainsNode` | src/session_network.cpp:514-521 | whole nodes are compared |
| `PathChoice.CandidatesAvoidIff` | src/session_network.cpp:1545-1563 | every candidate avoids the destination's IP iff each living path on that IP contains the destination itself and the single path mode does not fall back |
| `PathChoice.ReturnedAvoidsIff` | src/session_network.cpp:1533-1597 | the same for what can be returned for a standard request |
| `PathChoice.SharedIpSlipsThrough` | src/session_network.cpp:1545-1563 | a usable path over well-typed nodes that ends on the destination's IP is chosen |

## Left out

- Signatures, unknown-key preservation and real hashing of config messages: helpers outside the modelled files; the hash is an abstract identity.
- The byte form of bencoding and the 64-bit range of integers on the wire: the tree is modelled, integers are unbounded.
- Aliasing of dicts updated in place: `prune_`, `apply_diff` and the parsers change an argument by reference; the methods return the changed value.
- WireMessage.ParseMessage: does not model absent optional sections, because what the dict reader answers at its end belongs to a library.
- ConfigMessage.MutableMessage.Retain: moving out of the source object is not modelled, only the new object's state.
- The C++ exceptions of parsers carry texts; the model has one error.
- In the request machine the path found, and whether a request fits a new path, are part of the events; `PathChoice` models the choice by itself.
- The per-type lists of the request queue: one list in order of arrival; the order of answers to different path types is unspecified in the source.
- RequestLaws.RequestConservation: does not say that a request is answered in the end, because the network may never respond.
- Failure counts of single nodes, timers and delays, connection status and change notifications, pending path builds, the parsing of the bad node's key out of a response, disjointness of different paths.
- The counting and intersection of node cache refreshes, and the random shuffles (any choice is allowed).
- The retry of uploads, downloads and version checks, `parse_url`, the disk thread, logging and the C API.
- Encryption, key and protobuf code: wrappers around libraries.
