# LiXS in Dafny: the transactional store, its watches and its wire

LiXS is a XenStore daemon: a tree of small values shared by the domains of a Xen host, with permissions,
optimistic transactions and watches, reached over shared-memory rings. This project models its three
stateful layers and proves what they promise.

**The store (`mstore`).** Committed entries and every transaction's overlay live in one database of records,
each ordered by stamps from a per-record counter. A transaction fetches validity, data and children lazily,
is validated at its end by comparing stamps only, and installs its overlay.

- `Paths`: a path is its chain of basenames; a bijection with strings ties it to `basename`.
- `Tree`: the serial meaning. A tree of nodes and one `Step` per operation; `Replay` runs operations in turn.
- `Laws`: who may read and write, what each operation answers and leaves, and what is read back, said without the
  definitions that the accessors and the serial meaning share.
- `Database`: entries, overlay entries, records and every group of assignments on one record, with the record invariant.
- `SimpleAccess`, `Transaction`: the accessors as functions on the database, branch for branch, and their invariants.
- `Views`: what an overlay means. Every operation of a transaction is `Step` on the tree its overlay shows, for
  *every* committed tree that agrees with what it has seen, so nothing has to be known about other clients.
- `Commit`: `can_merge`, `do_merge` and `abort` over the whole database.
- `Runs`: all runs of the store, as shipped and repaired; a journal records calls and replies only. `SerialMeaning` is the
  main theorem, `SerialEquivalence` its corollary for the repaired merge.
- `Guarantees`: isolation, replies against the tree committed right now, the verdict of `can_merge`, the life of overlays,
  repeatable reads, and exactly what the shipped `do_merge` does to deletes; all in every state that a run reaches.
- `Interference`: a transaction that never commits cannot be observed (`Unobservable`).
- `OwnView`: the tree a transaction would see by fetching everything now, which exists also when it can no longer commit.
- `Observations`: what stamps and histories say of the committed tree: an operation stamps exactly what it changes, and the
  first check of `can_merge` is what an observer of the tree would call it.
- `Mstore`, `Stores`: the classes. Their methods update one shared database in place and are proved to leave exactly
  the database of the functions above, so every theorem about runs is a theorem about them.

**Watches (`watch_mgr`, `xenstore`).** `Watches` keeps the ancestor/descendant index equal to its plain definition and
fires each notice exactly once; `Xenstores` ties store results to notices and releases a transaction's notices exactly
when it commits.

**The wire (`ring_conn`, `xs_proto`).** `Ring` proves the shared 1024-byte ring a FIFO with 32-bit wrapping indices and a
peer that moves between the index sample and the copy. `Wires` builds headers and bodies inside the wire buffer,
`Framing` proves the receive and transmit state machines independent of how transfers are fragmented, and `Arguments`
proves the argument, number and permission codecs. `Bytes` holds the byte-level vocabulary.

## A defect found: committed deletes are lost

`do_merge` stamps `te.delete_seq` at `lib/lixs/mstore/transaction.cc:373`, in an overlay entry that is erased a few lines
later. The comments at 371-372 and 389 describe stamping the committed entry. As shipped, a transaction that deletes an
existing entry is told that it committed, the name leaves its parent's list, and the entry stays valid
(`Guarantees.ShippedDeleteIsLost`, `Guarantees.LostDeleteLeavesOrphan`, `Guarantees.ShippedDeleteExample`). `Install`
therefore comes in two versions: `Shipped` follows the code, `Repaired` stamps the committed entry and empties its child
list as well (without the latter, a record kept alive by another transaction would keep stale children).

`Runs.SerialMeaning` covers every run of both versions. It says what a commit means: repaired, the committed tree becomes
the serial result; as shipped, it becomes the serial result plus the nodes of the old tree that the result lacks. Plain
serial equivalence follows for every run of `Repaired`; for `Shipped` it holds when no commit deletes a node it found, and
`Runs.LosslessExactlyWhen` and `Guarantees.ShippedMergeIsSerialExactlyWhen` show that this condition is exact.

A lost delete can leave nodes that no parent lists (`Guarantees.LostDeleteLeavesOrphan`), so the committed tree of a
shipped run need not be well-formed. A shipped commit keeps it well-formed if and only if no entry that the transaction
found valid ends deleted under a parent that it sees as valid, which can be decided before the call
(`Guarantees.ShippedMergeKeepsTreeExactlyWhen`); a shipped run keeps it well-formed throughout if and only if no merge in it
meets that guard (`Guarantees.ShippedRunKeepsTreeExactlyWhen`, and `Runs.OrphanFreeExactlyWhen` in terms of what was
served). What holds in every state is that every listed child exists (`Tree.Closed`), and that is all that the loops, the
invariant and the classes need: every method of the store and of `xenstore` can be called in every state of either version.

Two smaller facts the proofs brought out: `get_int` accepts blanks, a sign and trailing text around a number
(`Arguments.NumberRoundTrip`), and a permission whose client id exceeds 65535 can be printed but not read back
(`Arguments.PermRoundTrip`).

## Conventions

`Record.log` and `TEntry.mark` are history: they record what happened to a committed entry and what a transaction saw of
it. No operation reads them to decide anything. Direct operations have transaction id 0.

## Model

| member | source | states |
|---|---|---|
| Runs.SerialMeaning | lib/lixs/mstore/transaction.cc:266-397 | both versions, every interleaving of direct operations, branches, transaction operations, merges and aborts: serving what took effect one after another, each transaction at its commit, gives every reply of a direct operation or committed transaction and the final committed tree, in which every listed child exists |
| Runs.SerialEquivalence | lib/lixs/mstore/transaction.cc:266-397 | with the merge repaired, serving is running the operations one after another, and the tree is well-formed |
| Runs.SerialEquivalenceShipped | lib/lixs/mstore/transaction.cc:332-397 | the same for the shipped merge, over every run in which no commit deletes a node it found |
| Runs.LosslessIsReplay | lib/lixs/mstore/transaction.cc:332-397 | under that condition serving unit by unit is running call by call |
| Runs.LosslessExactlyWhen | lib/lixs/mstore/transaction.cc:370-375 | the condition is exact: it holds if and only if at every point of the run the served tree is the one that running call by call gives |
| Runs.RepairedIsLossless | lib/lixs/mstore/transaction.cc:370-375 | repaired, the condition always holds |
| Runs.OrphanFreeExactlyWhen | lib/lixs/mstore/transaction.cc:370-375 | in terms of what was served: the shipped tree is well-formed at every point if and only if no batch deletes a node under a parent that is still there at its end |
| Runs.CommitIsSerial | lib/lixs/mstore/transaction.cc:266-275 | at every successful merge, of either version, the transaction's calls replayed on the tree committed at that instant give its recorded replies and the tree it shows, and the merge installs that tree (as shipped, with the committed nodes it lacks) |
| Runs.NextInv | lib/lixs/mstore/store.cc:49-226 | every call of the store, of either version, keeps the invariant: sound records, every listed child there, journal and tree served, overlays only for active transactions, each active transaction a simulation for all compatible trees |
| Runs.RunInv | lib/lixs/mstore/store.cc:49-226 | the invariant holds after any sequence of calls |
| Runs.OperationSimulates | lib/lixs/mstore/transaction.cc:51-246 | one more operation of a transaction keeps the simulation of all its calls so far |
| Guarantees.Isolation | lib/lixs/mstore/transaction.cc:248-275 | transaction operations, aborts and failed merges leave the committed tree alone; no event changes the overlay of another transaction |
| Guarantees.RepliesAreSerial | lib/lixs/mstore/transaction.cc:51-246 | while a transaction can commit, each reply is the one its operations would get one after another on the tree committed right now, whatever others have done since it began |
| Interference.Unobservable | lib/lixs/mstore/transaction.cc:248-275 | over whole runs of either version: leaving out every operation, failed merge and abort of a transaction that never commits changes no outcome of any other event, whatever others do and commit before and after, nor the committed tree |
| Interference.LaterReplyUnchanged | lib/lixs/mstore/transaction.cc:248-275 | a transaction's next reply is the same before and after any event of another transaction short of a successful merge, also when it can no longer commit |
| Interference.SameOutcome | lib/lixs/mstore/store.cc:49-226 | in two stores that only one transaction can tell apart every event of anybody else has the same outcome, and they stay so |
| Interference.OperationAlike | lib/lixs/mstore/transaction.cc:51-246 | in two databases that a transaction cannot tell apart each of its operations gives the same reply and leaves two such databases |
| Interference.DirectAlike | lib/lixs/mstore/simple_access.cc:52-259 | so does every direct operation |
| Interference.MergeAlike | lib/lixs/mstore/transaction.cc:277-397 | so does every merge, with the same verdict, resets and erasures notwithstanding |
| Interference.AbortAlike | lib/lixs/mstore/transaction.cc:248-264 | so does every abort |
| Guarantees.VerdictIsHistory | lib/lixs/mstore/transaction.cc:277-330 | validation passes exactly when, in every touched record, nothing the transaction relied on has happened since it first touched, read or listed it |
| Observations.FirstCheckIsObservable | lib/lixs/mstore/transaction.cc:289-304 | from the operation that first touches an entry, through any run in which the transaction does not end: an entry found valid fails the first check if and only if it was absent from the committed tree at some point, an entry found invalid if and only if it was there at some point |
| Observations.HistoryIsSeen | lib/lixs/mstore/transaction.cc:289-304 | over such a run a record's history gains a deletion, or a write, exactly as an observer of the committed tree sees the entry absent, or there |
| Observations.EventTells | lib/lixs/mstore/store.cc:49-226 | every event records in the history of a referenced entry that it went or that it is there |
| Observations.DirectTells | lib/lixs/mstore/simple_access.cc:52-259 | so does every direct operation, recursive ones included |
| Observations.DirectLogsExactly | lib/lixs/mstore/simple_access.cc:52-259 | on a well-formed tree a direct operation records, and so stamps, exactly what became of each referenced entry: a deletion if and only if it went, a write if and only if it appeared or was overwritten, a changed list if and only if its children are others |
| Observations.MergeLogsExactly | lib/lixs/mstore/transaction.cc:338-375 | a merge records a write if and only if the transaction wrote the entry, a changed list if and only if it linked or unlinked children, a deletion if and only if it deleted it (repaired) |
| Observations.ReadersDoomNobody | lib/lixs/mstore/transaction.cc:332-397 | the commit of a transaction that only read changes no other transaction's verdict |
| Guarantees.OperationsKeepVerdict | lib/lixs/mstore/transaction.cc:496-595 | a transaction's own operations, and those of other transactions, neither doom nor rescue it |
| Guarantees.DoomedUntilTheEnd | lib/lixs/mstore/transaction.cc:277-330 | a transaction that cannot commit stays so through every event that does not end it |
| Guarantees.DoomedOverRun | lib/lixs/mstore/transaction.cc:277-330 | and through every run that does not end it |
| Guarantees.LiveOverlaySurvives | lib/lixs/mstore/transaction.cc:377-393 | no record with a live overlay entry is erased or reset by any event: its counter and history only grow, and the entry forgets nothing it fetched |
| Guarantees.LiveOverlaySurvivesRun | lib/lixs/mstore/transaction.cc:377-393 | nor by any run that does not end the transaction |
| Guarantees.RepeatableReads | lib/lixs/mstore/transaction.cc:79-98 | from every reachable state of either version, two equal reads, get_perms or get_children of a transaction with no own write in between get the same reply, whatever other clients write, delete and commit meanwhile |
| Guarantees.ReadIsAnswered | lib/lixs/mstore/transaction.cc:540-595 | after a reading operation the overlay alone holds all its answer needs |
| Guarantees.StaysSettledOverRun | lib/lixs/mstore/transaction.cc:540-595 | what a read has fetched answers the same at the end of any run without own writes |
| Guarantees.ShippedMergeIsSerialExactlyWhen | lib/lixs/mstore/transaction.cc:370-375 | in every state that the shipped code reaches, a merge installs the serial result if and only if the transaction ends with no entry deleted that it found valid, and always that result plus the committed nodes it lacks |
| Guarantees.ShippedDeleteIsLost | lib/lixs/mstore/transaction.cc:370-375 | in every reachable state, a transaction deleting one existing entry is answered and merges successfully, yet as shipped the entry is unchanged; repaired, exactly its branch is gone |
| Guarantees.ShippedMergeKeepsTreeExactlyWhen | lib/lixs/mstore/transaction.cc:370-375 | a shipped commit keeps the tree well-formed if and only if no entry that the transaction found valid ends deleted under a parent that it sees as valid |
| Guarantees.EventKeepsTreeExactlyWhen | lib/lixs/mstore/store.cc:49-226 | of all calls only a successful merge with that guard breaks the tree |
| Guarantees.ShippedRunKeepsTreeExactlyWhen | lib/lixs/mstore/transaction.cc:332-397 | a shipped run keeps the tree well-formed at every point if and only if no merge in it meets the guard |
| Guarantees.LostDeleteLeavesOrphan | lib/lixs/mstore/transaction.cc:370-375 | the instance: a lone committed delete of an entry that is not a root leaves it without a parent that lists it |
| Guarantees.ShippedDeleteExample | lib/lixs/mstore/transaction.cc:370-375 | the concrete run: create /a, delete it in a transaction, merge, read: the value is still read (shipped), ENOENT (repaired) |
| Guarantees.LoneDeleteMerges | lib/lixs/mstore/transaction.cc:135-166 | a transaction whose only operation deletes an existing entry always passes validation |
| Commit.ValidatedIsCompatible | lib/lixs/mstore/transaction.cc:277-330 | after a successful validation the committed tree agrees with all the transaction has observed |
| Commit.CommitInstallsView | lib/lixs/mstore/transaction.cc:332-397 | installing a validated overlay makes the committed tree the one the overlay showed or, as shipped, that tree plus the nodes it lacks |
| Commit.InstalledKeepsClosed | lib/lixs/mstore/transaction.cc:332-397 | in both cases every listed child still exists |
| Commit.InstalledKeepsTree | lib/lixs/mstore/transaction.cc:370-375 | retaining the deleted nodes keeps a well-formed tree well-formed if and only if none of them had a parent that remains |
| Commit.OrphansAreDeletesUnderParent | lib/lixs/mstore/transaction.cc:370-375 | the overlay tells beforehand whether one will |
| Commit.ShippedLosesDeletes | lib/lixs/mstore/transaction.cc:370-375 | an entry found valid ends deleted if and only if the shown tree lacks a committed node, and then and only then the shipped merge fails to install the shown tree |
| Commit.MergedAt | lib/lixs/mstore/transaction.cc:338-393 | path by path: what the merge leaves valid, and with which node |
| Commit.DoMergeEnds | lib/lixs/mstore/transaction.cc:332-397 | after a merge every record is sound, the transaction has no overlay entry left and every other transaction keeps its own |
| Commit.AbortEnds | lib/lixs/mstore/transaction.cc:248-264 | the same after an abort, which also leaves the committed tree unchanged |
| Commit.EndedKeepsOthers | lib/lixs/mstore/transaction.cc:248-264 | ending one transaction leaves the overlays of all others as they were |
| Database.StampsRefineHistory | lib/lixs/mstore/transaction.cc:285-326 | in a sound record the stamp comparisons of can_merge decide exactly what the record's history says |
| Database.ValidationIsSound | lib/lixs/mstore/transaction.cc:285-326 | a validated overlay entry has the committed validity, and what it copied equals what is committed now |
| Database.DoomedStaysDoomed | lib/lixs/mstore/transaction.cc:285-326 | a failed comparison stays failed as the record's history grows |
| Database.OverlaysKeepVerdict | lib/lixs/mstore/transaction.cc:285-326 | updates of overlay entries do not change the outcome of the comparisons |
| Database.CommitKeepsRecord | lib/lixs/mstore/simple_access.cc:67-71 | any write, delete or child-list change of the committed entry with a fresh stamp keeps every overlay entry's invariant |
| Database.TouchOk | lib/lixs/mstore/transaction.cc:496-538 | first touch keeps the record invariant (every stamp below next_seq) and changes only this transaction's side |
| Database.FetchDataOk | lib/lixs/mstore/transaction.cc:540-571 | fetching data does too; the invariant says that the copy is the committed data until the history records a write |
| Database.FetchChildrenOk | lib/lixs/mstore/transaction.cc:573-595 | fetching the child list does too |
| Database.TLinkOk | lib/lixs/mstore/transaction.cc:399-412 | linking a child does too, and keeps children_add and children_rem disjoint |
| Database.TUnlinkOk | lib/lixs/mstore/transaction.cc:414-427 | unlinking a child does too |
| Database.InstallOk | lib/lixs/mstore/transaction.cc:338-375 | installing a validated entry keeps the record invariant and the other transactions' entries |
| Database.MergeRecordOk | lib/lixs/mstore/transaction.cc:338-393 | so do the counter reset and the erasure after it, and a record that another transaction references is neither reset nor erased |
| SimpleAccess.DirectIsStep | lib/lixs/mstore/simple_access.cc:52-259 | every direct operation is Step on the committed tree, with the same reply, and touches no overlay entry, provided only that every listed child exists |
| SimpleAccess.UnregisterDirectOk | lib/lixs/mstore/simple_access.cc:279-295 | unlisting takes the name from the parent's list, and changes nothing if the parent is not there |
| SimpleAccess.AddDirectOk | lib/lixs/mstore/simple_access.cc:52-78 | creating ancestors, listing, inheriting permissions and writing is AddNode on the committed tree |
| SimpleAccess.DeleteDirectOk | lib/lixs/mstore/simple_access.cc:136-172 | the recursive delete terminates and removes exactly the entry and what the child lists lead to |
| SimpleAccess.DeleteChildrenDirectOk | lib/lixs/mstore/simple_access.cc:313-324 | deleting the children one after another removes exactly their branches |
| Transaction.InTransactionIsIsolated | lib/lixs/mstore/transaction.cc:51-246 | a transaction operation keeps every record sound, the committed tree, and every other overlay |
| Transaction.OverlaysAreIsolated | lib/lixs/mstore/transaction.cc:496-538 | a database that differs only in one transaction's overlay entries has the same committed tree and the same other overlays |
| Transaction.DeleteInOk | lib/lixs/mstore/transaction.cc:135-166 | the recursive transactional delete terminates within the depth of the database and touches only this overlay |
| Views.InTransactionIsStep | lib/lixs/mstore/transaction.cc:51-246 | every operation of a transaction is Step on the tree its overlay shows, same reply, for every compatible committed tree |
| Views.AddSim | lib/lixs/mstore/transaction.cc:51-77 | creating in a transaction is AddNode on the shown tree |
| Views.DeleteSim | lib/lixs/mstore/transaction.cc:135-166 | deleting in a transaction removes exactly the entry and what the child lists of the shown tree lead to |
| OwnView.RepliesAreOwn | lib/lixs/mstore/transaction.cc:51-246 | in every transaction, also one that can no longer commit, every reply is Step's reply on the tree it would see by fetching everything now |
| OwnView.DeleteOwn | lib/lixs/mstore/transaction.cc:135-166 | in every transaction a delete removes from that tree exactly the entry and what its child lists lead to, with Step's reply |
| OwnView.DeleteChildrenOwn | lib/lixs/mstore/transaction.cc:445-472 | so does its loop, also over lists that name children no longer there |
| OwnView.OneMoreRemoved | lib/lixs/mstore/transaction.cc:445-472 | one iteration of that loop on the tree |
| Views.DeleteChildrenSim | lib/lixs/mstore/transaction.cc:445-472 | so does its loop over children + children_add - children_rem |
| Views.UpdateSim | lib/lixs/mstore/transaction.cc:100-133 | update in a transaction |
| Views.SetPermsSim | lib/lixs/mstore/transaction.cc:221-246 | set_perms in a transaction |
| Views.ReadSim | lib/lixs/mstore/transaction.cc:79-98 | read in a transaction |
| Views.GetChildrenSim | lib/lixs/mstore/transaction.cc:168-197 | get_children in a transaction |
| Views.GetPermsSim | lib/lixs/mstore/transaction.cc:199-219 | get_perms in a transaction |
| Views.ParentPermsSim | lib/lixs/mstore/transaction.cc:474-494 | the inherited permissions are those of the shown parent |
| Views.EarlierIsCompatible | lib/lixs/mstore/transaction.cc:540-595 | an overlay that has learned more is compatible with fewer trees |
| Tree.AddNodeExact | lib/lixs/mstore/simple_access.cc:297-341 | creating adds the missing ancestors and nothing else, empty and with inherited permissions, and old nodes gain at most one name; the tree stays well-formed |
| Laws.ReadIgnoresWriteBits | lib/lixs/mstore/database.cc:40-56 | whether a client may read does not depend on any write bit |
| Laws.WriteIgnoresReadBits | lib/lixs/mstore/database.cc:58-74 | whether a client may write does not depend on any read bit |
| Laws.OwnerPasses | lib/lixs/mstore/database.cc:40-74 | client 0 and the client that the first entry names may do both, and so may everybody if there is no list |
| Laws.OthersGetTheDefault | lib/lixs/mstore/database.cc:40-74 | a client that the list does not name gets exactly the bits of the first entry |
| Laws.EntryGrants | lib/lixs/mstore/database.cc:40-74 | one more entry grants its client its bits, takes nothing away and changes no other client's verdict |
| Laws.RootsAreClosed | lib/lixs/mstore/simple_access.cc:326-341 | what a root is created with lets in nobody but client 0 |
| Laws.ReadingLaw | lib/lixs/mstore/simple_access.cc:80-105 | read, get_perms and get_children change nothing and answer ENOENT if nothing is there, EACCES to those who may not read, else the value, permissions and children that are there |
| Laws.CreateLaw | lib/lixs/mstore/simple_access.cc:52-78 | create answers false and changes nothing if the node is there; else true, and the node is there, empty, listed by its parent, with its parent's permissions, and no other node loses anything |
| Laws.UpdateLaw | lib/lixs/mstore/simple_access.cc:107-134 | update is refused exactly to those who may not write; else the value is read back, permissions, children and other nodes are as before, and a missing node is made |
| Laws.SetPermsLaw | lib/lixs/mstore/simple_access.cc:230-259 | set_perms answers ENOENT, EACCES or sets exactly the permissions, which are read back |
| Laws.DeleteLaw | lib/lixs/mstore/simple_access.cc:136-172 | del answers ENOENT, EACCES or removes exactly the branch |
| Laws.PermissionsDecide | lib/lixs/mstore/database.cc:40-74 | end to end, in every state of either version: after set_perms [n(owner), r7] client 7 reads and may not update, client 8 may do neither, the owner may do both |
| Laws.FootprintLaw | lib/lixs/mstore/transaction.cc:51-246 | an operation on one entry makes a transaction depend on no other entry: create of one that is there on its being there, the others also on its data, get_children of those who may read also on its list |
| Laws.MergeCleansUp | lib/lixs/mstore/transaction.cc:377-393 | of the records that only the ended transaction held a merge leaves the valid ones, their stamps at the start again, and nothing of the others |
| Laws.AbortCleansUp | lib/lixs/mstore/transaction.cc:248-264 | an abort removes exactly the deleted records that only the ended transaction held |
| Laws.DeleteCleansUp | lib/lixs/mstore/simple_access.cc:160-168 | a direct delete leaves nothing of a record that no transaction holds |
| Laws.FirstTree | lib/lixs/xenstore.cc:44-50 | creating the root in an empty store leaves just the root, empty, with permissions n0 |
| Tree.RemoveBranchExact | lib/lixs/mstore/simple_access.cc:136-172 | deleting takes out exactly the node and its descendants, every other node keeps value and permissions, only the parent's list changes, by one name; the tree stays well-formed |
| Tree.WithoutOneMore | lib/lixs/mstore/simple_access.cc:313-324 | removing one child's branch after others removes the branches of one more child |
| Tree.WithoutAll | lib/lixs/mstore/simple_access.cc:155-168 | after all children, unlisting and erasing the node is the removal of the branch |
| Tree.MidwayStep | lib/lixs/mstore/simple_access.cc:313-324 | the state between two iterations of delete_branch |
| Tree.BranchIsRooted | lib/lixs/mstore/simple_access.cc:261-277 | in a well-formed tree the child lists lead from p to everything below p |
| Tree.ReachedChild | lib/lixs/mstore/simple_access.cc:313-324 | what the lists reach from p is what they reach from exactly one of the children that p lists |
| Tree.SameReach | lib/lixs/mstore/simple_access.cc:313-324 | what is reached depends only on the lists on the way |
| Tree.RemoveBranchKeepsClosed | lib/lixs/mstore/simple_access.cc:136-172 | a delete leaves every listed child in place |
| Tree.StepKeepsClosed | lib/lixs/mstore/simple_access.cc:52-259 | every operation keeps every listed child in place, in trees that need not be well-formed |
| Tree.ReplayKeepsClosed | lib/lixs/mstore/simple_access.cc:52-259 | so does any sequence of operations |
| Tree.StepKeepsTree | lib/lixs/mstore/simple_access.cc:52-259 | every operation keeps the tree well-formed |
| Tree.ReplayKeepsTree | lib/lixs/mstore/simple_access.cc:52-259 | so does any sequence of operations |
| Paths.BasenameIsParse | lib/lixs/util.cc:42-54 | climbing the chain is calling basename, going down is appending "/" and a name |
| Paths.FormatParse | lib/lixs/util.cc:42-54 | every string is the text of its chain |
| Paths.ParseFormat | lib/lixs/util.cc:42-54 | every chain is the parse of its text, so no two paths share a string |
| Paths.SlashSplitIsUnique | lib/lixs/util.cc:42-54 | the split at the last slash is unique |
| Paths.BelowContinues | lib/lixs/util.cc:42-54 | the text of what is below a path continues the path's text with a slash |
| Paths.SamePathWithSlash | lib/lixs/mstore/store.cc:85-103 | a path with and without its trailing slash is the same one, and "/" is the root with the empty name |
| Paths.LeastIsUnique | lib/lixs/mstore/simple_access.cc:313-324 | the first name of an ordered set exists and is unique |
| Mstore.SimpleAccess.Create | lib/lixs/mstore/simple_access.cc:52-78 | in place: leaves the database and reply of CreateDirect |
| Mstore.SimpleAccess.Read | lib/lixs/mstore/simple_access.cc:80-105 | the reply of ReadDirect; changes nothing |
| Mstore.SimpleAccess.Update | lib/lixs/mstore/simple_access.cc:107-134 | in place: UpdateDirect |
| Mstore.SimpleAccess.Del | lib/lixs/mstore/simple_access.cc:136-172 | in place: DeleteDirect; terminates whenever every listed child exists, as in every state of either version |
| Mstore.SimpleAccess.GetChildren | lib/lixs/mstore/simple_access.cc:174-200 | the reply of ChildrenDirect |
| Mstore.SimpleAccess.GetPerms | lib/lixs/mstore/simple_access.cc:202-228 | the reply of GetPermsDirect |
| Mstore.SimpleAccess.SetPerms | lib/lixs/mstore/simple_access.cc:230-259 | in place: SetPermsDirect |
| Mstore.SimpleAccess.RegisterWithParent | lib/lixs/mstore/simple_access.cc:261-277 | the parent's list gains the name, with a fresh stamp |
| Mstore.SimpleAccess.UnregisterFromParent | lib/lixs/mstore/simple_access.cc:279-295 | the parent's list loses the name, with a fresh stamp |
| Mstore.SimpleAccess.EnsureBranch | lib/lixs/mstore/simple_access.cc:297-311 | the parent exists afterwards |
| Mstore.SimpleAccess.DeleteBranch | lib/lixs/mstore/simple_access.cc:313-324 | the loop over a set shrunk by the deletions it calls ends, and leaves what deleting the children in order leaves |
| Mstore.SimpleAccess.GetParentPerms | lib/lixs/mstore/simple_access.cc:326-341 | the parent's permissions, or the default |
| Mstore.ChildGone | lib/lixs/mstore/simple_access.cc:313-324 | one iteration: the child is gone from the list, the entry is still valid, the rest is as it was |
| Mstore.Transaction.GetTEntry | lib/lixs/mstore/transaction.cc:496-538 | the path has an overlay entry and is in the transaction's records, which list exactly the entries it has |
| Mstore.Transaction.Create | lib/lixs/mstore/transaction.cc:51-77 | in place: CreateIn |
| Mstore.Transaction.Read | lib/lixs/mstore/transaction.cc:79-98 | in place: ReadIn |
| Mstore.Transaction.Update | lib/lixs/mstore/transaction.cc:100-133 | in place: UpdateIn |
| Mstore.Transaction.Del | lib/lixs/mstore/transaction.cc:135-166 | in place: DeleteIn; terminates |
| Mstore.Transaction.GetChildren | lib/lixs/mstore/transaction.cc:168-197 | in place: ChildrenIn |
| Mstore.Transaction.GetPerms | lib/lixs/mstore/transaction.cc:199-219 | in place: GetPermsIn |
| Mstore.Transaction.SetPerms | lib/lixs/mstore/transaction.cc:221-246 | in place: SetPermsIn |
| Mstore.Transaction.Abort | lib/lixs/mstore/transaction.cc:248-264 | the loop over the records drops every overlay entry of the transaction: AbortAll |
| Mstore.Transaction.Merge | lib/lixs/mstore/transaction.cc:266-275 | success is CanMerge; the database is then DoMerge, otherwise AbortAll |
| Mstore.Transaction.Validate | lib/lixs/mstore/transaction.cc:277-330 | the loop with its early exit decides CanMerge over all records |
| Mstore.Transaction.Install | lib/lixs/mstore/transaction.cc:332-397 | the loop over the records is DoMerge |
| Mstore.Transaction.RegisterWithParent | lib/lixs/mstore/transaction.cc:399-412 | in place: RegisterIn |
| Mstore.Transaction.UnregisterFromParent | lib/lixs/mstore/transaction.cc:414-427 | in place: UnregisterIn |
| Mstore.Transaction.EnsureBranch | lib/lixs/mstore/transaction.cc:429-443 | in place: the parent is created in the overlay |
| Mstore.Transaction.DeleteBranch | lib/lixs/mstore/transaction.cc:445-472 | in place: DeleteChildrenIn |
| Mstore.Transaction.GetParentPerms | lib/lixs/mstore/transaction.cc:474-494 | in place: ParentPermsIn |
| Stores.Store.Branch | lib/lixs/mstore/store.cc:49-53 | a new transaction with the next id, state and journal as Runs.Next says |
| Stores.Store.Call | lib/lixs/mstore/store.cc:85-226 | drops one trailing slash and keeps client and arguments; with id 0 database and reply are those of the direct operation, with an active id those of the operation in that transaction, else EINVAL and nothing changes; journal noted, invariant kept |
| Stores.Store.Merge | lib/lixs/mstore/store.cc:55-68 | ENOENT and nothing changes for an unknown id; else success is can_merge, the database is merged or the transaction undone, and it is forgotten; invariant kept by both versions |
| Stores.Store.Abort | lib/lixs/mstore/store.cc:70-83 | ENOENT and nothing changes for an unknown id, else the transaction is undone and forgotten; invariant kept |
| Watches.RegisterWithParentsExact | lib/lixs/watch_mgr.cc:184-194 | registering adds the watch to the children of every ancestor and nowhere else |
| Watches.UnregisterFromParentsExact | lib/lixs/watch_mgr.cc:196-211 | unregistering removes it from every ancestor, erasing emptied records, and nowhere else |
| Watches.AddAgrees | lib/lixs/watch_mgr.cc:53-60 | adding keeps the index equal to its definition over the registered watches |
| Watches.DelAgrees | lib/lixs/watch_mgr.cc:62-71 | so does deleting |
| Watches.NoEmptyLeft | lib/lixs/watch_mgr.cc:196-211 | unregistering leaves no empty record on the way up, and touches no other record |
| Watches.ReferenceAgrees | lib/lixs/watch_mgr.cc:128-133 | an empty record created by looking up a path is invisible |
| Watches.ClimbNotices | lib/lixs/watch_mgr.cc:145-154 | one level up: the parent's notices come first, no notice twice |
| Watches.JoinLevels | lib/lixs/watch_mgr.cc:73-89 | the notices on a path followed by those above it are exactly both, nearest first |
| Watches.WatchMgr.Add | lib/lixs/watch_mgr.cc:53-60 | the index agrees with one more watch; the new watch fires once at once |
| Watches.WatchMgr.Del | lib/lixs/watch_mgr.cc:62-71 | the index agrees with one watch less and holds no empty record on the watch's path or above; no event |
| Watches.WatchMgr.Fire | lib/lixs/watch_mgr.cc:73-80 | appends exactly one notice per watch on the path, to the list of the transaction or the event manager |
| Watches.WatchMgr.FireAt | lib/lixs/watch_mgr.cc:128-143 | the same carrying another path, at or below the watch's; every other list is unchanged |
| Watches.WatchMgr.FireParents | lib/lixs/watch_mgr.cc:145-166 | appends exactly one notice per watch on an ancestor, carrying the changed path, nearest first |
| Watches.WatchMgr.FireChildren | lib/lixs/watch_mgr.cc:168-182 | appends exactly one notice per watch strictly below, carrying that watch's own path |
| Watches.WatchMgr.FireTransaction | lib/lixs/watch_mgr.cc:100-107 | the transaction's notices go out, all and in order, and its list is gone |
| Watches.WatchMgr.AbortTransaction | lib/lixs/watch_mgr.cc:109-112 | the list is gone and nothing goes out |
| Watches.WatchMgr.Callback | lib/lixs/watch_mgr.cc:114-126 | a notice handed to the event manager is delivered exactly when its watch is still registered |
| Xenstores.Xenstore.constructor | lib/lixs/xenstore.cc:44-50 | a fresh server holds just the root: empty, no children, permissions n0 |
| Xenstores.DeliveredExact | lib/lixs/xenstore.cc:139-169 | a notice reaches the event manager if and only if the change that caused it was direct or its transaction's next end was a commit |
| Xenstores.PendingExact | lib/lixs/watch_mgr.cc:135-182 | a transaction's pending notices are those of its changes since it last ended |
| Xenstores.Xenstore.Change | lib/lixs/xenstore.cc:62-104 | the store changes first; exactly when that succeeded (mkdir: created) the changed path's watches and those above are told, and for a removal those below |
| Xenstores.Xenstore.Notify | lib/lixs/xenstore.cc:62-104 | the notices of one change are exactly right and appended to one list |
| Xenstores.Xenstore.TransactionStart | lib/lixs/xenstore.cc:132-137 | a new transaction, no notice |
| Xenstores.Xenstore.TransactionEnd | lib/lixs/xenstore.cc:139-169 | notices go out exactly on a successful commit, are dropped on conflict and abort, and are untouched for an unknown id |
| Xenstores.Xenstore.WatchAdd | lib/lixs/xenstore.cc:171-174 | registration and its first notice |
| Xenstores.Xenstore.WatchDel | lib/lixs/xenstore.cc:176-179 | deregistration |
| Ring.DiffIsOccupancy | lib/lixs/ring_conn.cc:270-273 | the 32-bit difference of the free-running indices is the number of bytes in the ring, wrap or not |
| Ring.WrittenIsHeld | lib/lixs/ring_conn.cc:308-311 | writing into free slots up to the end of the buffer overwrites no unread byte |
| Ring.UnreadIsContiguous | lib/lixs/ring_conn.cc:279-282 | unread bytes up to the end of the buffer are the next bytes of the stream |
| Ring.TwoChunks | lib/lixs/ring_conn.cc:112-119 | two chunks move the minimum of what is wanted and what is there, counting what the peer adds before the second is sampled |
| Ring.Ring.SharedLayout | lib/lixs/ring_conn.cc:261-319 | what both sides agree on: 1024 slots, byte i of the stream in slot i modulo 1024, 32-bit indices that count what was produced and consumed |
| Ring.Ring.ReadChunk | lib/lixs/ring_conn.cc:261-289 | with the peer producing between sample and copy, the bytes delivered are the next bytes of the stream, and how many; occupancy stays within the ring |
| Ring.Ring.WriteChunk | lib/lixs/ring_conn.cc:291-319 | with the peer consuming between sample and copy, the stream grows by exactly the bytes written |
| Ring.RingConn.Read | lib/lixs/ring_conn.cc:102-140 | with the peer appending during and between the chunks, also into the slots the first one freed, the destination holds the next bytes of the stream; at least min(bytes, available) move, and exactly that with an idle peer; done if and only if all moved and still alive; read interest is on if and only if bytes remain; dead if and only if something moved and the notification failed |
| Ring.RingConn.Write | lib/lixs/ring_conn.cc:142-180 | with the peer consuming during and between the chunks, also what the first one wrote, the stream gains exactly the bytes written, in number as for reading with the free space; done, write interest and liveness likewise |
| Ring.RingConn.NeedRx | lib/lixs/ring_conn.cc:182-192 | read interest is on unless dead, and the multiplexer knows |
| Ring.RingConn.NeedTx | lib/lixs/ring_conn.cc:194-204 | write interest likewise |
| Wires.HeaderRoundTrip | inc/lixs/xs_proto_v1/xs_proto.hh:67-90 | a header written as bytes reads back as itself |
| Wires.HeaderLayout | inc/lixs/xs_proto_v1/xs_proto.hh:67-90 | type, request id, transaction id and length are the four 32-bit words of the header, low byte first |
| Wires.PackedLayout | lib/lixs/xs_proto_v1/xs_proto.cc:693-716 | with a terminator every string is followed by a NUL, without one the last is not; a single string is itself |
| Wires.PackedLength | lib/lixs/xs_proto_v1/xs_proto.cc:693-702 | the length loop computes the length of the packed body; for one string its own, plus one if terminated |
| Wires.Wire.constructor | lib/lixs/xs_proto_v1/wire.cc:43-47 | the buffer starts with the domain's path and a slash, and the body follows |
| Wires.Wire.SanitizeInput | lib/lixs/xs_proto_v1/wire.cc:49-52 | a NUL follows the body, the body is unchanged |
| Wires.Wire.BuildHdr | lib/lixs/xs_proto_v1/xs_proto.cc:650-656 | the header bytes encode the fields, length 0 |
| Wires.Wire.BuildBodyOne | lib/lixs/xs_proto_v1/xs_proto.cc:658-680 | refused exactly when too long; else body and length are the string's |
| Wires.Wire.BuildBody | lib/lixs/xs_proto_v1/xs_proto.cc:682-719 | refused, header untouched, exactly when the packed strings exceed the payload; else body and length are the packed strings, all writes inside the buffer; one unterminated string goes out as just that string |
| Framing.JoinSplit | inc/lixs/xs_proto_v1/xs_proto.hh:246-284 | cutting a byte stream into messages loses nothing and leaves an incomplete rest |
| Framing.SplitJoin | inc/lixs/xs_proto_v1/xs_proto.hh:246-284 | there is only one way to cut it, so the messages do not depend on where transfers stopped |
| Framing.SentIsReceived | inc/lixs/xs_proto_v1/xs_proto.hh:287-325 | a receiver cuts the encodings of any list of messages into exactly those messages |
| Framing.MessagesAreReceived | lib/lixs/xs_proto_v1/xs_proto.cc:490-506 | the i-th message received has the request and transaction id of the i-th sent, and its kind and body if the body fits 4096 bytes, else kind XS_ERROR and "E2BIG"; one unterminated string arrives as just that string |
| Framing.OutgoingCarries | lib/lixs/xs_proto_v1/xs_proto.cc:490-506 | the encoding of a message, field by field |
| Framing.PartIsReceived | inc/lixs/xs_proto_v1/xs_proto.hh:246-284 | from any prefix of a stream a receiver gets a prefix of its messages, each whole |
| Framing.Connection.Transfer | lib/lixs/sock_conn.cc:74-192 | a transfer moves some prefix, may die, and asks to be called again exactly while bytes remain |
| Framing.RingLink.Read | lib/lixs/ring_conn.cc:102-140 | a ring keeps the reading promise of a connection, so the state machines may run over it: the input is the request ring's stream |
| Framing.RingLink.Write | lib/lixs/ring_conn.cc:142-180 | and the writing promise: what is sent is the response ring's stream |
| Framing.RingIsServed | inc/lixs/xs_proto_v1/xs_proto.hh:246-325 | over the rings: what is handled is the cut of the request stream as far as consumed, and what the other side has taken is cut into a prefix of the messages sent, each whole |
| Framing.XsProto.constructor | inc/lixs/xs_proto_v1/xs_proto.hh:229-235 | both machines idle, read interest on |
| Framing.XsProto.PrepareTx | lib/lixs/xs_proto_v1/xs_proto.cc:490-506 | takes the front of the queue, and the wire carries it field by field, or an E2BIG error with its ids if it does not fit |
| Framing.XsProto.BuildMessage | lib/lixs/xs_proto_v1/xs_proto.cc:498-503 | the wire carries the message's ids, and its kind and body or the error in their place |
| Framing.XsProto.ProcessTx | inc/lixs/xs_proto_v1/xs_proto.hh:287-325 | terminates; bytes sent and unsent are the encodings of what left the queue, in order; a live connection returns with everything sent and write interest off, or with output pending and write interest on |
| Framing.XsProto.SentInOrder | inc/lixs/xs_proto_v1/xs_proto.hh:287-325 | at rest, what is on the wire is a prefix of the encodings of all ever queued, the peer has a prefix of the messages, and a live connection waits to write if and only if something is missing |
| Framing.XsProto.Enqueue | lib/lixs/xs_proto_v1/xs_proto.cc:146-150 | queueing a message and processing the queue keeps all that |
| Framing.XsProto.WatchFired | lib/lixs/xs_proto_v1/watch.cc:46-59 | one watch event is queued that names the fired path in the form it was registered; for a relative watch there is always a domain path to take off |
| Framing.XsProto.HandleRx | inc/lixs/xs_proto_v1/xs_proto.hh:268-280 | each whole message is handed over once, NUL-terminated, and the machine is idle again |
| Framing.XsProto.RxHeader | inc/lixs/xs_proto_v1/xs_proto.hh:256-266 | resumes the header; when complete its length fits the buffer |
| Framing.XsProto.RxBody | inc/lixs/xs_proto_v1/xs_proto.hh:268-273 | resumes the body; when complete it is NUL-terminated, the domain path in front intact |
| Framing.XsProto.ProcessRx | inc/lixs/xs_proto_v1/xs_proto.hh:246-284 | terminates on finite input; a live connection returns waiting to read, and the messages handled with the partial one are exactly the cut of all bytes read, however they were fragmented |
| Arguments.NumberRoundTrip | lib/lixs/xs_proto_v1/xs_proto.cc:628-648 | a printed number reads back as itself exactly when the type can hold it, whatever blanks and sign precede it and whatever text follows |
| Arguments.DecimalPlaces | lib/lixs/xs_proto_v1/xs_proto.cc:628-648 | digits are read in base ten |
| Arguments.Str2PermExactly | lib/lixs/xs_proto_v1/xs_proto.cc:523-563 | exactly the texts of a permission are read as it: a letter b, r, w or n, then blanks, a sign, at least one digit and anything that is not a digit, with a number in 0..65535; every other argument is refused |
| Arguments.PermRoundTrip | lib/lixs/xs_proto_v1/xs_proto.cc:508-563 | a permission is printed as the letter for who may read and write and its client id in decimal without leading zeros, and reads back as itself if and only if its client id is at most 65535 |
| Arguments.ArgsOfPacked | lib/lixs/xs_proto_v1/xs_proto.cc:612-617 | strings packed with a terminator are read back as they were, empty ones included |
| Arguments.ArgsOfUnterminated | lib/lixs/xs_proto_v1/xs_proto.cc:612-617 | strings packed without a terminator are read back as they were, except that an empty last one is not read |
| Arguments.PermStringsRoundTrip | lib/lixs/xs_proto_v1/xs_proto.cc:256-271 | a list of printed permissions reads back as itself if and only if all client ids fit |
| Arguments.PermListRoundTrip | lib/lixs/xs_proto_v1/xs_proto.cc:256-271 | end to end: path and permission list, packed, framed, received and read, are the same path and list, or refused if a client id does not fit |
| Arguments.ArgsAfterPrefix | lib/lixs/xs_proto_v1/xs_proto.cc:619-626 | seen from the domain's path in front of the body, the first argument is longer and the others are the same |
| Arguments.StrLen | lib/lixs/xs_proto_v1/xs_proto.cc:612-617 | never looks past the NUL after the body, and measures the argument |
| Arguments.GetPath | lib/lixs/xs_proto_v1/xs_proto.cc:619-626 | relative paths continue the domain's path, absolute and special ones do not |
| Arguments.GetNextArg | lib/lixs/xs_proto_v1/xs_proto.cc:612-617 | the next argument if the body has one, else none |
| Arguments.PathArg | lib/lixs/xs_proto_v1/xs_proto.cc:619-626 | the path argument is the body's first, behind the domain's path if relative; what follows it is the same |
| Arguments.WatchPath | lib/lixs/xs_proto_v1/xs_proto.cc:290-300 | a watch is relative exactly when its path is neither absolute nor special, and then registered behind the domain's path and a slash |
| Arguments.CollectPerms | lib/lixs/xs_proto_v1/xs_proto.cc:256-271 | the loop computes PermsOf of the arguments after the path |
| Arguments.ReadPerms | lib/lixs/xs_proto_v1/xs_proto.cc:256-277 | accepted if and only if every argument after the path is the text of a permission, and then the i-th permission is what the i-th argument spells |
| Arguments.PermsOfExactly | lib/lixs/xs_proto_v1/xs_proto.cc:256-271 | the same of the list that is read |
| Arguments.WritePerms | lib/lixs/xs_proto_v1/xs_proto.cc:232-247 | the loop prints every permission in order |

## Left out

- Runs.SerialEquivalenceShipped: excludes the runs in which a commit deletes a node it found, for which `Runs.LosslessExactlyWhen` shows it false; `Runs.SerialMeaning` says what those do.
- OwnView.RepliesAreOwn: says what is replied; of what is then seen it follows deletes only, since an entry created anew in a transaction that can no longer commit may show children that others gave it.
- Framing.XsProto.constructor: assumes that no incoming header announces more than 4096 bytes; `process_rx` does not check it.
- Wires.Wire.SanitizeInput: assumes the same of the message received; beyond that bound the behaviour of the C++ code is undefined.
- Framing.XsProto.HandleRx: what an `op_*` handler queues is an oracle; only the argument loops of get_perms and set_perms and the path of watch are followed.
- Framing.RingLink.Read: meets the clauses of `Connection`, which stands for the template's parameter in the state machines; `Framing.RingIsServed` states their result for the rings.
- Wires.Wire.BuildBody: the length sum is unbounded, so a message of more than 4 GiB is not modelled.
- Ring.Ring.ReadChunk: the peer obeys the ring protocol (it writes only free slots and its index never runs ahead by more than the ring); the index samples are taken in program order, so memory barriers are not modelled.
- Xen's headers are not part of this model: ring size, payload limit, header layout, message numbers and the name of E2BIG are constants.
- Stamps, transaction ids and permission client ids are unbounded: no overflow.
- Records are held by value in a map: that two references to one record alias each other is modelled by rereading it, not by pointers.
- Never-written records left behind by lookups and aborts are in the database but not in the committed tree, on which all claims are made.
- The empty path: `path.back()` is undefined there, so a non-empty string is required.
- The seven operations of the store and the four changing ones of `xenstore` are one method each with the operation as a value; read-only calls of `xenstore` only pass through.
- `_fire` and `_tfire`, and their variants for parents and children, are one method each that picks the list by transaction id.
- Watches have fresh identities and are iterated in any order; reuse of a freed watch's address is not modelled.
- The event manager is the sequence of events handed to it; its loop is not modelled.
- Event channels, grant tables, mmap, sockets and epoll are not modelled: a notification succeeds or not, a transfer moves any prefix.
- domain_mgr, domain, client, logging, options and signals hold no state of interest here.
- `err2str` and the rest of the watch and introduce handlers are left out: they would only add easy members.
