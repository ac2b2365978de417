# Verified model of gzochi's distributed data layer

gzochi is a server for multiplayer games. A meta server holds the durable stores of every
application and hands out locks on their keys; application servers cache what they have
locked, run game logic in transactions over a layer of objects, and send back the changes.
This project models that machinery in Dafny and proves what it keeps in every run.

Verify everything with `dafny verify dfyconfig.toml`.

## How the files fit together

| files | what they model |
|---|---|
| `Keys`, `Lists`, `Wrappers` | byte-string keys, nullable bounds and ranges; lists used as indexes; optional values |
| `LockSpec`, `LockTable` | the lock table: first as a state with steps and runs, then as the class with its four indexes |
| `ServerSpec`, `DataServer`, `Cluster` | the data server's messages as steps, the server class, and runs of a whole cluster with what each node has cached |
| `IntervalTree`, `RangeTree` | the pointer tree of intervals, and the tree as the lock table uses it |
| `ObjectSpec`, `ObjectLayer`, `OidBlocks` | the transactional object layer, and the allocation of object ids |
| `Codec`, `Requests`, `Framing`, `Messages` | byte forms of messages, how streams are cut into them, and a changeset's way from client to server |
| `Correlation`, `Service` | how responses find their callbacks, and a node and the server end to end |
| `ClientSession` | the GLib client's message buffer |
| `Migration`, `LruCache`, `Workers` | the migration tool's walk, the cache, and the retrying task workers |

A pattern repeats: a `...Spec` module, or the first half of a module, says in terms of plain
values what may happen in one step and proves what every run keeps; a class then does the
work the way the C code does, field by field, and each of its methods is proved to be such
a step. Where the C code meets a world the model cannot see (a storage engine that fails,
the place GLib's search happens to enter a sequence, the order of a hash table) the method
takes that as an argument or leaves the choice open, so the proofs hold for all of it.

## Where the code does less than its documentation says

The model follows the code, and each of these is a theorem here.

- A node that asks again for a range it already holds gets a second list entry. After it
  has released the range and another node has taken it, the first node's disconnection
  removes the other node's range (`AskingTwiceLosesAnothersRange`). Disconnection spares
  the other nodes exactly when nobody else's range sits at bounds the node still lists
  (`ReleaseAllSparesOthersIff`), and in runs where no node asks twice it always does
  (`TidyRunsKeepRanges`, `NextKeyStaysTrue`).
- A range with a lower bound is granted over another node's write lock inside it exactly
  when nobody holds a point lock on that bound (`RangeGrantedOverWriterIff`,
  `RangeGrantedOverWriter`), and is refused for nothing exactly when the bound is locked and
  somebody writes a key above the range (`RangeRefusedInVainIff`).
- A range search with a null lower bound goes no further at a node that ends before the
  sought range. It reports every overlapping range exactly when it stops so at no node with
  children (`OpenBelowIsCompleteIff`). The lock table's own search stops at the first foreign
  range, and can miss one only if the node asking owns a range ending before the one it asks
  for (`FindForeign`, `OwnRangeHidesForeign`); then ranges of different nodes come to overlap
  (`OpenBelowBreaksDisjointness`), and otherwise never (`GuardedRunsKeepRangesDisjoint`).
- A range from null to a key is never released by the call that should release it
  (`OpenBelowIsNotReleased`, `ReleasedRangeIsStillThere`).
- A request that the server cannot read, or whose store it does not know, goes unanswered,
  and so does one whose answer the client cannot read, such as a value of 32768 to 65535
  bytes. From then on the callbacks of that application get the answers to other requests
  (`CallbackIsOwnIff`, `UnansweredRequestMisleads`).
- A received changeset with a count of 32768 or more is read as an empty one
  (`NegativeCountReadsAsNone`), and one whose bytes give out early with zeroed records in
  the place of those missing (`ChangesRoundTrip`).
- A length prefix of 65535 is taken for a message of no bytes (`CanDispatchIff`), and
  whether it is depends on how the stream was cut (`WrappedLengthDependsOnPieces`).
- Removing an object that was removed and then marked again reports that it does not exist
  (`RemoveAgain`, `RemovedTwice`).
- When a timed task fails, the worker that retries on the spot runs the catch task with the
  time limit and the worker that goes back to the queue runs it without; otherwise they
  make the same calls (`CatchTimeIff`).
- A reservation of no object ids still issues one, which a disjoint reservation may issue
  again (`EmptyReservationIssuesTwice`).

## Model

| member | source | states |
|---|---|---|
| Keys.OverlapTestIsOverlap | gzochi-server/src/itree.c:477-482 | The three-way test of the interval search is overlap of closed ranges, for every combination of null bounds. |
| Keys.LessIff | gzochi-server/src/lock-mem.c:166-173 | A key comes before another exactly if it is a proper prefix of it or has the lesser byte where they first differ. |
| Keys.ByteOrder | gzochi-server/src/util.c:280-294 | A key comes before whatever extends it, and after a common beginning the lesser byte comes first, whatever follows. |
| LockSpec.PointGrantKeepsSound | gzochi-server/src/lock-mem.c:498-644 | Granting what the rules allow keeps a write lock alone on its key and every range on its owner's list. |
| LockSpec.PointGrantExcludes | gzochi-server/src/lock-mem.c:498-644 | After a grant the node holds the key, for writing exactly if it asked to or did before; no other node writes the key, after a write grant no other node holds it; no other lock and no range has changed. |
| LockSpec.ReadersShare | gzochi-server/src/lock-mem.c:498-644 | For every key in every range with a lower bound, a run after which three nodes read the key together, one of them the owner of the range. |
| LockSpec.PointReleaseTakesOne | gzochi-server/src/lock-mem.c:780-815 | The node no longer holds the key; every other lock, and every range, is as it was. |
| LockSpec.RangeGrantAddsOne | gzochi-server/src/lock-mem.c:712-727 | The range is the node's, in the tree and once more on its list; every other range, entry and lock is as it was. |
| LockSpec.ReleaseAllLeavesNothing | gzochi-server/src/lock-mem.c:936-949 | The node holds no key, owns no range and lists none; every other node holds the keys and lists the ranges it did. |
| LockSpec.LockStepKeepsSound | gzochi-server/src/lock-mem.c:498-949 | Every operation of the table keeps those invariants. |
| LockSpec.EveryRunIsSound | gzochi-server/src/lock-mem.c:498-949 | They hold in every state of every run from the empty table. |
| LockSpec.GuardedRunsKeepRangesDisjoint | gzochi-server/src/lock-mem.c:664-727 | In every run whose range requests have a lower bound, or come from a node that owns no range ending before the requested one, ranges of different nodes never overlap. |
| LockSpec.OpenBelowBreaksDisjointness | gzochi-server/src/lock-mem.c:664-685 | A run of three range requests, the last open below and from a node that owns a range ending earlier, after which two nodes hold overlapping ranges. |
| LockSpec.OverlookedIff | gzochi-server/src/itree.c:477-495 | A range may be overlooked exactly if the request is open below and the range ends at a key before the requested end, which may be none. |
| LockSpec.LockedLowerBoundGuards | gzochi-server/src/lock-mem.c:691-710 | A granted range overlaps no foreign range, and if its lower bound was locked, no other node writes any key at or above it. |
| LockSpec.RangeGrantedOverWriterIff | gzochi-server/src/lock-mem.c:691-697 | With a foreign writer inside and no foreign range in the way, the range is granted exactly when nobody holds a point lock on its lower bound. |
| LockSpec.RangeGrantedOverWriter | gzochi-server/src/lock-mem.c:691-697 | A run in which a node is granted a range around a key another node writes. |
| LockSpec.RangeRefusedInVainIff | gzochi-server/src/lock-mem.c:697-710 | With no foreign range or writer in the way, a range with a lower bound is refused exactly when that bound is locked and another node writes a key above its upper bound: the scan does not look at the upper bound. |
| LockSpec.OpenBelowIsNotReleased | gzochi-server/src/lock-mem.c:880-910 | Releasing a range from null to a key changes nothing, in any state. |
| LockSpec.RangeReleaseTakesOneIff | gzochi-server/src/lock-mem.c:880-910 | A node's range goes exactly when it does not run from null to a key; its list entry goes with it and nothing else does. |
| LockSpec.OthersRangeIsNotReleased | gzochi-server/src/lock-mem.c:880-910 | Releasing a range another node has, or nobody, changes nothing. |
| LockSpec.WholeKeyspaceIsReleased | gzochi-server/src/lock-mem.c:880-910 | A run in which the range from null to null is granted and released, after which the table is empty. |
| LockSpec.ReleasedRangeIsStillThere | gzochi-server/src/lock-mem.c:880-910 | A run in which such a range is granted, released, and still there. |
| LockSpec.ReleaseAllSparesOthersIff | gzochi-server/src/lock-mem.c:845-878 | Releasing all a node's locks leaves other nodes' ranges in place exactly when none of them sits at bounds the node lists. |
| LockSpec.TidyRunsKeepRanges | gzochi-server/src/lock-mem.c:845-949 | In runs where no node asks again for a range it lists, no list is out of date and a range leaves the tree only by its owner's release or disconnection. |
| LockSpec.AskingTwiceLosesAnothersRange | gzochi-server/src/lock-mem.c:664-727 | For every range with a lower bound, a run of five operations in which one node's disconnection removes the range another node holds. |
| LockTables.LockTable.ViewIsSound | gzochi-server/src/lock-mem.c:498-644 | A table whose by-key, by-time, by-node and tree indexes hold the same locks has no write lock beside another lock on its key, and every range in the tree is on its owner's list. |
| LockTables.LockTable.Check | gzochi-server/src/lock-mem.c:469-496 | True exactly when the node holds the key, for writing if asked. |
| LockTables.LockTable.MostRecentCovering | gzochi-server/src/lock-mem.c:389-428 | Finds the newest range of another node over the key, and null exactly when there is none. |
| LockTables.LockTable.Regrant | gzochi-server/src/lock-mem.c:518-576 | A node that has the key gets it again or upgraded exactly when the rules allow; refusal changes nothing. |
| LockTables.LockTable.Upgrade | gzochi-server/src/lock-mem.c:564-575 | The lock becomes a write lock and new in the time order; all indexes still agree. |
| LockTables.LockTable.AddLock | gzochi-server/src/lock-mem.c:588-643 | The lock is in every index, and the table means what it meant with this lock granted. |
| LockTables.LockTable.CheckAndSet | gzochi-server/src/lock-mem.c:498-644 | Grants exactly what the rules allow, changes nothing else, and on refusal gives the stamp of a lock in the way; all indexes still agree. |
| LockTables.LockTable.ScanForWriter | gzochi-server/src/lock-mem.c:696-710 | Looking at the first locker of each key from a position on is enough: if it finds no foreign writer, no locker of any of those keys is one. |
| LockTables.LockTable.FindOverlapping | gzochi-server/src/lock-mem.c:649-687 | What it finds overlaps; if it finds nothing, a foreign range overlaps only if the search is open below, that range ends before the requested one, and so does one of the node's own. |
| LockTables.LockTable.FindBlockingWriter | gzochi-server/src/lock-mem.c:691-710 | With a lower bound: finds a foreign writer at or above it exactly when the bound is locked and there is such a writer. |
| LockTables.LockTable.RangeCheckAndSet | gzochi-server/src/lock-mem.c:664-727 | The answer is one the rules allow: with a lower bound exactly one, and open below a grant over a foreign range only to a node that owns a range ending before the requested one; a grant changes the table to the granted one and a refusal not at all, giving the stamp of a lock in the way. |
| LockTables.LockTable.RemoveLock | gzochi-server/src/lock-mem.c:732-778 | The lock leaves all indexes, its key's entry and its node's entry going with the last lock; nothing else changes. |
| LockTables.LockTable.Release | gzochi-server/src/lock-mem.c:780-815 | Exactly the node's lock on the key is gone. |
| LockTables.LockTable.RemoveRangeLock | gzochi-server/src/lock-mem.c:845-878 | One list entry of the node goes, and whatever range is at its bounds in the tree. |
| LockTables.LockTable.ReleaseRange | gzochi-server/src/lock-mem.c:880-910 | The range goes exactly when the tree has it at these bounds for this node and the search by its lower bound reaches it. |
| LockTables.LockTable.ReleasePoints | gzochi-server/src/lock-mem.c:912-943 | Walking a list that each visit shortens removes exactly the node's point locks. |
| LockTables.LockTable.DropRanges | gzochi-server/src/lock-mem.c:925-947 | Walking the range list the same way empties it and removes what the tree has at those bounds. |
| LockTables.LockTable.ReleaseAll | gzochi-server/src/lock-mem.c:936-949 | Both together: the node holds no key, owns no range and lists none; the table means what `AllReleased` says, and its indexes still agree. |
| ServerSpec.FirstAbove | gzochi-server/src/dataserver.c:493-511 | The storage cursor: the least key strictly above the given one in byte order, or none exactly when there is no such key. |
| ServerSpec.NextExists | gzochi-server/src/dataserver.c:493-511 | There is exactly one right answer to a next-key question. |
| ServerSpec.ChangesStayWithinLocks | gzochi-server/src/dataserver.c:556-652 | Applying a permitted changeset changes no lock and no key its node has not write-locked. |
| ServerSpec.UntouchedKeysKept | gzochi-server/src/dataserver.c:599-610 | A key no change names keeps its value. |
| ServerSpec.LastChangeWins | gzochi-server/src/dataserver.c:599-610 | A key several changes name ends with what the last of them says. |
| ServerSpec.StoreNames | gzochi-server/src/dataserver.c:344-357 | The stores are "oids" and "names", each its own, and no other name is one. |
| ServerSpec.OpenedIsOnDisk | gzochi-server/src/dataserver.c:332-366 | A store just opened has, for every key, what is on disk, and no locks. |
| ServerSpec.FirstValueIsOnDisk | gzochi-server/src/dataserver.c:390-461 | The first request for a value of a store not yet open is granted and answered with what is on disk, or with nothing if nothing is. |
| ServerSpec.FirstNextKeyIsOnDisk | gzochi-server/src/dataserver.c:463-554 | The first request for a next key is granted and answered with the first key on disk above the one given. |
| ServerSpec.WrittenIsRead | gzochi-server/src/dataserver.c:390-681 | A key nobody else holds, locked for writing, changed or deleted and released, is then read by any node as changed. |
| DataServers.DataServer.EnsureOpen | gzochi-server/src/dataserver.c:332-366 | Both stores of the application are open; one that was not shows, for every key, what is on disk; all else is as it was. |
| DataServers.DataServer.RequestValue | gzochi-server/src/dataserver.c:390-461 | The step of the specification: an unknown store is an error; otherwise the lock is granted exactly when grantable and the value comes with it. |
| DataServers.DataServer.RequestNextKey | gzochi-server/src/dataserver.c:463-554 | The step of the specification: the range from the key to the store's next key is asked for, and a grant comes with that key. |
| DataServers.DataServer.MayChange | gzochi-server/src/dataserver.c:577-597 | True exactly when the change names a store in which the node write-locks its key. |
| DataServers.DataServer.MakeChanges | gzochi-server/src/dataserver.c:572-622 | The loop goes through exactly when every change is permitted and storage does not fail, and has then applied all of them in order. |
| DataServers.DataServer.ProcessChangeset | gzochi-server/src/dataserver.c:556-652 | All changes are committed exactly when all are permitted and storage does not fail; otherwise no store changes. |
| DataServers.DataServer.ReleaseKey | gzochi-server/src/dataserver.c:654-681 | The step of the specification: one lock in one store, or nothing for an unknown store. |
| DataServers.DataServer.ReleaseKeyRange | gzochi-server/src/dataserver.c:683-715 | The same for one range. |
| DataServers.DataServer.Disconnect | gzochi-server/src/dataserver.c:717-733 | The node holds no key and no range in any store of any application; each table is as after releasing all its locks. |
| Cluster.StepKeepsInv | gzochi-server/src/dataserver.c:390-733 | Every message keeps caches coherent, clean ranges protected and tables sound, in every store. |
| Cluster.EveryRunKeepsInv | gzochi-server/src/dataserver.c:390-733 | So does every run, from servers with nothing open. |
| Cluster.CacheCoherence | gzochi-server/src/dataserver.c:390-461 | In every run, while a node holds a key, what it was last told or last committed for it is what the store holds; while it holds it for writing nobody else holds it. |
| Cluster.HeldKeyStays | gzochi-server/src/dataserver.c:390-733 | No message but the holder's own changeset changes a held key's value. |
| Cluster.HeldKeysDoNotChange | gzochi-server/src/dataserver.c:556-652 | The same at every step of every run. |
| Cluster.StoresHoldWhatTheyShould | gzochi-server/src/dataserver.c:556-652 | In every run an open store holds, under every key, what the last committed change to it said or, if none has named it, what is on disk. |
| Cluster.DisconnectedHoldsNothing | gzochi-server/src/dataserver.c:717-733 | In every run, after a node has been disconnected it holds no key and no range in any store. |
| Cluster.PhantomProtection | gzochi-server/src/lock-mem.c:551-618 | In every run, a range granted while no other node wrote inside it has no other writer inside it, and its upper end is still the store's next key unless its owner changed something inside. |
| Cluster.TouchedInsideIff | gzochi-server/src/dataserver.c:572-610 | A changeset counts as changing something inside a range exactly if one of its changes names that store and a key inside. |
| Cluster.NextKeyStaysTrue | gzochi-server/src/dataserver.c:463-554 | In runs where no node asks again for a range it lists, such a range stays with its owner and stays true until the owner gives it up or commits a change inside. |
| Cluster.EachTableSteps | gzochi-server/src/dataserver.c:390-733 | Every message is, at each store, an operation of its lock table or leaves it alone. |
| Cluster.TidyRunsHaveNothingStale | gzochi-server/src/lock-mem.c:845-949 | In such runs no lock table's list is out of date. |
| IntervalTrees.MaximumIsExact | gzochi-server/src/itree.c:188-206 | If every cached maximum is right from the children's, each is the greatest upper bound in its whole subtree. |
| IntervalTrees.RaiseStep | gzochi-server/src/itree.c:307-313 | If one cached maximum may be wrong and recomputing it changes nothing, all are right; otherwise only its parent's may now be wrong. |
| IntervalTrees.FaithfulWith | gzochi-server/src/itree.c:316-348 | With a new node, the tree holds the last data inserted for each interval of the longer history. |
| IntervalTrees.FaithfulReplacing | gzochi-server/src/itree.c:324-326 | So it does when the data of a node is replaced. |
| IntervalTrees.IntervalTree.Location | gzochi-server/src/itree.c:154-184 | The node of the interval, or, if no node has it, one with room on the side where it belongs. |
| IntervalTrees.IntervalTree.Link | gzochi-server/src/itree.c:329-342 | A leaf hung there leaves a tree in order with balance factors from -1 to 1, only the maximum above the leaf possibly wrong. |
| IntervalTrees.IntervalTree.UpdateMaxUpper | gzochi-server/src/itree.c:188-206 | The node's maximum is right afterwards; if it changed only its parent's may be wrong, and if not none is. |
| IntervalTrees.IntervalTree.RetraceInsert | gzochi-server/src/itree.c:273-314 | No rotation is ever due, and the upward pass that stops at the first unchanged maximum makes all maxima right. |
| IntervalTrees.IntervalTree.Insert | gzochi-server/src/itree.c:316-348 | The tree is still in order, balanced, with exact maxima, and holds exactly the last data per interval of the longer history. |
| IntervalTrees.IntervalTree.NotPrunedIsReached | gzochi-server/src/itree.c:489-500 | Pruning on cached maxima never passes over an interval whose own upper bound would not be pruned. |
| IntervalTrees.StoppedAbove | gzochi-server/src/itree.c:484-500 | If the search does not get to a node, it has gone no further at one it did get to. |
| IntervalTrees.IntervalTree.Traverse | gzochi-server/src/itree.c:464-501 | The stack search reports each reachable hit once, none missing, until told to stop. |
| IntervalTrees.IntervalTree.Search | gzochi-server/src/itree.c:504-541 | Unless stopped it reports exactly the intervals that hold the point, each once. |
| IntervalTrees.IntervalTree.SearchInterval | gzochi-server/src/itree.c:459-502 | Unless stopped it reports, each once, exactly the intervals that pass the test under no pruned node, among them all that do not end before both ends of the sought one. |
| RangeTrees.RangeOrderIsValid | gzochi-server/src/lock-mem.c:295-313 | The two comparisons of nullable bounds are orders, as the tree needs. |
| RangeTrees.MeetsIsOverlap | gzochi-server/src/itree.c:477-482 | With them, the tree's test is overlap of ranges. |
| RangeTrees.HoldsIsInside | gzochi-server/src/itree.c:504-541 | With them, the tree's test of a point is that the key lies inside the range. |
| RangeTrees.FoundByLowerBoundIff | gzochi-server/src/lock-mem.c:880-910 | A range is found by its own lower bound exactly when it does not run from null to a key. |
| RangeTrees.NewestForeignCover | gzochi-server/src/lock-mem.c:389-428 | The newest stamp among other nodes' ranges around a key, found by the tree's search; none exactly when no other node has such a range. |
| RangeTrees.PassedOverIsOverlooked | gzochi-server/src/itree.c:477-495 | An overlapping range is passed over only by a search open below, and only if it ends before the sought one. |
| RangeTrees.OverlappingRanges | gzochi-server/src/itree.c:459-502 | The search reports, each once, exactly the overlapping ranges it gets to; with a lower bound those are all a look at every range would find. |
| RangeTrees.FindForeign | gzochi-server/src/lock-mem.c:649-687 | The search that stops at the first foreign range finds one exactly if it gets to one; if it finds none although one overlaps, it is open below and the node itself owns a range ending before the sought one. |
| RangeTrees.OwnRangeHidesForeign | gzochi-server/src/itree.c:484-495 | On a tree of two inserted ranges, a search open below by the owner of the first does not find the overlapping range of the other. |
| RangeTrees.OpenBelowIsCompleteIff | gzochi-server/src/itree.c:489-490 | A search open below finds every overlapping range exactly when it stops at no node with children. |
| RangeTrees.ChildOfPrunedIsMissed | gzochi-server/src/itree.c:489-490 | Below a node with children at which such a search stops there is an overlapping range it does not find. |
| ObjectSpec.StepKeepsInv | gzochi-server/src/data.c:429-682 | Every call keeps each object with one reference, the store as it was but for removals, and every reference to be written locked for update. |
| ObjectSpec.EveryTransactionKeepsInv | gzochi-server/src/data.c:429-682 | So does every sequence of calls. |
| ObjectSpec.StepSimulates | gzochi-server/src/data.c:429-682 | Every call of the write-back layer is one the write-through machine allows, and leaves the two alike. |
| ObjectSpec.EveryTransactionIsDirect | gzochi-server/src/data.c:429-682 | Every transaction storage has not rolled back is a run of the write-through machine: each fetch returns what that machine's store holds. |
| ObjectSpec.PreparedTransactionIsDirect | gzochi-server/src/data.c:196-226 | A transaction that prepares leaves exactly the write-through machine's store. |
| ObjectSpec.PreparedStoreIsStartExcept | gzochi-server/src/data.c:137-226 | That store is the one it started from, except that new and modified ids hold their objects as they are now and removed ones, not marked again, are absent. |
| ObjectSpec.UpdateLockBeforeWrite | gzochi-server/src/data.c:137-194 | Every write, also in a preparation that fails, comes after a granted request to update the same id. |
| ObjectLayers.ObjectLayer.ReferenceByOid | gzochi-server/src/data.c:491-509 | The one reference of an id; the id table and the object table stay one identity map. |
| ObjectLayers.ObjectLayer.CreateReference | gzochi-server/src/data.c:429-489 | A new reference whose update lock was granted, or none, exactly when no id was issued or storage has rolled back. |
| ObjectLayers.ObjectLayer.ReferenceByPtr | gzochi-server/src/data.c:512-538 | The one reference of an object, made if there is none. |
| ObjectLayers.ObjectLayer.Upgrade | gzochi-server/src/data.c:970-998 | The reference is to be written; without an error its update lock was granted. |
| ObjectLayers.ObjectLayer.Mark | gzochi-server/src/data.c:954-998 | Without an error the object's reference is to be written and locked for update. |
| ObjectLayers.ObjectLayer.Fetch | gzochi-server/src/data.c:566-622 | The object is what the stored bytes deserialize to, in the state asked for, after exactly one storage call, a get for update exactly if asked for; each failure is reported exactly when it happens and leaves what it should. |
| ObjectLayers.ObjectLayer.Dereference | gzochi-server/src/data.c:540-622 | An object already there is kept; one asked for update is to be written afterwards, unless it was removed or only half deserialized. |
| ObjectLayers.ObjectLayer.Remove | gzochi-server/src/data.c:624-682 | The reference is gone. A new or gone one is removed without a storage call and without an error; any other with exactly one deletion, whose error, if the id is not in the store or storage rolls back, is the one reported. |
| ObjectLayers.CreatedThenRemoved | gzochi-server/src/data.c:658-682 | An object the transaction created is removed, and removed again, without an error and without a storage call; nothing of it is left to be written. |
| ObjectLayers.RemoveAgain | gzochi-server/src/data.c:658-682 | A fetched object that is removed, marked again and removed is reported not to exist while it was about to be written. |
| ObjectLayers.RemovedTwice | gzochi-server/src/data.c:658-682 | That history, from a new transaction, for every stored object that deserializes. |
| ObjectLayers.ObjectLayer.FlushReference | gzochi-server/src/data.c:137-194 | Writes the object as it is now if it is to be written, and succeeds exactly when nothing stands in the way. |
| ObjectLayers.ObjectLayer.Prepare | gzochi-server/src/data.c:196-226 | In whatever order the references come: ready exactly when storage has not failed and every reference to be written can be, and then all of them are. |
| OidBlocks.IssueKeeps | gzochi-server/src/data.c:393-427 | The id issued was not issued before and lies in a reserved block, and no other block's ids are affected. |
| OidBlocks.ReserveKeeps | gzochi-server/src/data.c:110-121 | A new disjoint reservation leaves issued ids and blocks as they are, none of its ids having been issued. |
| OidBlocks.AskedIsSound | gzochi-server/src/data.c:393-427 | The id a transaction is given was not issued before and lies in a reservation, unless some reservation was empty or overlapped another. |
| OidBlocks.GivenIsDue | gzochi-server/src/data.c:393-427 | The same condition for the request as a step: an id is given exactly when one is due, and it is that one. |
| OidBlocks.ReservationIsIssuedInOrder | gzochi-server/src/data.c:393-427 | For every reservation, a lone transaction that asks again and again is issued its ids in order from the first. |
| OidBlocks.NoIdIsIssuedTwice | gzochi-server/src/data.c:284-427 | Over any requests and endings of any transactions: if no reservation was empty and no two overlapped, no id was issued twice and each lies in a reservation. |
| OidBlocks.EmptyReservationIssuesTwice | gzochi-server/src/data.c:393-427 | Two requests for an id with pairwise disjoint reservations, the first of them empty, that are given the same id. |
| OidBlocks.OidPool.Reserve | gzochi-server/src/data.c:284-315 | A waiting block first, else a new reservation, else nothing; other transactions keep their blocks. |
| OidBlocks.OidPool.NextObjectId | gzochi-server/src/data.c:393-427 | For any reservations offered: an id is given exactly when the transaction has a block or one is waiting or offered and, if that block is at its last id, another is waiting or offered; it is that block's next, and new if the reservations are not empty and disjoint. |
| OidBlocks.OidPool.End | gzochi-server/src/data.c:123-135 | Commit or rollback gives up the rest of the block and keeps ids unique. |
| Codec.ShortRoundTrip | gzochi-common/src/io.c:44-77 | A two-byte integer is read back as its value wrapped to sixteen signed bits. |
| Codec.IntRoundTrip | gzochi-common/src/io.c:35-70 | A four-byte integer is read back as its value wrapped to thirty-two signed bits. |
| Codec.BigEndian | gzochi-common/src/io.c:35-77 | The bytes written are those of the number, the most significant first. |
| Codec.StrRoundTrip | gzochi-server/src/protocol-common.c:25-39 | A NUL-terminated string is read back whatever follows it. |
| Codec.BytesRoundTrip | gzochi-server/src/protocol-common.c:41-55 | A length-prefixed byte string is read back exactly when it is shorter than 32768 bytes. |
| Codec.ResponseRoundTripIff | gzochi-server/src/data-protocol.c:224-314 | A response is read back exactly when its data is absent or 1 to 32767 bytes long and its times fit in four bytes; whenever anything is read, the names are right. |
| Codec.ResponseBytes | gzochi-server/src/data-protocol.c:224-256 | The bytes of a response with a value, of one without, and of a refusal. |
| Codec.ChangeRoundTripIff | gzochi-server/src/data-protocol.c:384-462 | A change is read back, consuming exactly its own bytes, when it has a store, a key and a value or a deletion of lengths up to 32767; otherwise it is refused or altered. |
| Codec.ChangesRoundTrip | gzochi-server/src/data-protocol.c:517-544 | Sendable changes are read back; records the count promises beyond the bytes come out blank. |
| Codec.ChangesetRoundTripIff | gzochi-server/src/data-protocol.c:464-554 | A changeset is read back exactly when it has 1 to 32767 changes, all of them sendable. |
| Codec.ChangesetBytes | gzochi-server/src/data-protocol.c:464-490 | The bytes of a changeset with a new value and a deletion. |
| Codec.NegativeCountReadsAsNone | gzochi-server/src/data-protocol.c:512-546 | Received bytes with a count of 32768 to 65535 are read as a changeset without changes, whatever follows the count. |
| Codec.WriteChangesetBytes | gzochi-server/src/data-protocol.c:464-490 | The appending loop writes the changeset's byte form. |
| Codec.FillChanges | gzochi-server/src/data-protocol.c:517-544 | The loop that fills the array of zeroed records reads what the recursive reader reads. |
| Codec.ReadChangesetBytes | gzochi-server/src/data-protocol.c:492-554 | The reader as a whole is the inverse the round trip is stated for. |
| Requests.RequestRoundTripIff | gzochi-server/src/dataserver-protocol.c:145-324 | The server reads back what the client wrote exactly when both names are there and the key's length fits; whatever it reads, names and kind are right. |
| Requests.RequestOpcodes | gzochi-server/src/meta-protocol.h:64-223 | The opcodes of both requests and of the responses they expect. |
| Requests.RequestBytes | gzochi-server/src/dataclient.c:541-684 | The bytes of both requests, with and without a key. |
| Framing.ChunksDoNotMatter | gzochi-server/src/dataserver-protocol.c:502-528 | Dispatching a stream in two pieces, the leftover carried over, dispatches what dispatching it whole does. |
| Framing.ArrivingIsWhole | gzochi-server/src/socket.c:194-213 | Unless a length wraps, a stream that arrives in any number of pieces, dispatched after each if the readiness test says so, is dispatched as it would be whole. |
| Framing.WrappedLengthDependsOnPieces | gzochi-server/src/socket.c:194-213 | Two ways of cutting one stream with a length of 65535 in it that lead to different messages. |
| Framing.Drain | gzochi-server/src/socket.c:194-213 | The socket's loop around the dispatch runs once and leaves exactly the bytes not dispatched. |
| Framing.WholeFramesComeFirst | gzochi-server/src/dataserver-protocol.c:502-528 | Whole messages at the front are dispatched first, in order and intact. |
| Framing.DispatchedAreFrames | gzochi-server/src/dataserver-protocol.c:508-516 | Everything dispatched is a whole message or the bare prefix of a length that wraps. |
| Framing.LongestRunOfFrames | gzochi-server/src/dataserver-protocol.c:502-528 | No run of whole messages at the front of the buffer is longer than what was dispatched. |
| Framing.CanDispatchIff | gzochi-server/src/dataserver-protocol.c:76-87 | The readiness test implies that the loop takes something; the loop would take something without it exactly when the length is 65535 and its payload is not all there. |
| Framing.FormatIsFrameIff | gzochi-server/src/dataclient.c:360-377 | A formatted message is a frame exactly when its payload has at most 65534 bytes. |
| Framing.SentIsReceived | gzochi-server/src/dataclient.c:701-708 | A message within the client's limit is received as sent, whatever follows it. |
| Messages.ChangesetArrivesIff | gzochi-server/src/dataclient.c:686-718 | A changeset within the client's limit arrives as one message for the data server, and is read back exactly when it has changes and each can be sent; the limit on their number then follows. |
| Messages.SubmitChangeset | gzochi-server/src/dataclient.c:686-718 | Sends exactly the changesets within the limit, as messages from which the server reads what was written. |
| Messages.RequestsAreForData | gzochi-server/src/metaserver-protocol.c:272-333 | Every request for a lock is framed by its length, opcode and payload, and goes to the data server. |
| Framing.ClientDispatch | gzochi-server/src/dataserver-protocol.c:502-528 | The loop with its three counters dispatches exactly those messages and returns the bytes they took. |
| Framing.DelegateGetsOne | gzochi-server/src/metaserver-protocol.c:282-333 | A delegate handed one message dispatches that message, and one handed a bare wrapped prefix nothing. |
| Framing.RouterDispatch | gzochi-server/src/metaserver-protocol.c:251-346 | Each delegate dispatches exactly the messages with its opcodes, whole and in order. |
| Framing.OpcodesByProtocol | gzochi-server/src/meta-protocol.h:43-192 | Which opcodes go to which of the four protocols; all others go nowhere. |
| Framing.RoutingKeepsOrder | gzochi-server/src/metaserver-protocol.c:251-346 | Routing a stream of messages is routing its first part and then the rest. |
| Framing.EveryMessageIsRouted | gzochi-server/src/metaserver-protocol.c:251-346 | A protocol gets a message as often as it came if its opcode is that protocol's, and never otherwise. |
| ClientSessions.OneByOneIsAll | gzochi-glib-client/src/protocol.c:154-209 | One message at a time until there is none delivers what all at once does. |
| ClientSessions.PiecesDoNotMatter | gzochi-glib-client/src/protocol.c:154-226 | Reading and dispatching in pieces delivers what reading everything first does, disconnections included. |
| ClientSessions.InPieces | gzochi-glib-client/src/protocol.c:154-226 | The same for any number of pieces. |
| ClientSessions.DeliversWhatWasSent | gzochi-glib-client/src/protocol.c:116-187 | A session delivers exactly the messages sent, in order, up to the first disconnection. |
| ClientSessions.ClientSession.Compact | gzochi-glib-client/src/protocol.c:189-194 | Moving bytes to the front of the same buffer keeps exactly those not taken. |
| ClientSessions.ClientSession.TakeMessage | gzochi-glib-client/src/protocol.c:172-183 | The message at an offset is delivered exactly when it is whole. |
| ClientSessions.ClientSession.AttemptDispatch | gzochi-glib-client/src/protocol.c:154-197 | The loop over the buffer, with or without a limit, does what the recursive account says, and returns its count. |
| ClientSessions.ClientSession.DispatchSingly | gzochi-glib-client/src/protocol.c:199-209 | Repeated calls for one message do what one call for all does. |
| ClientSessions.ClientSession.Read | gzochi-glib-client/src/protocol.c:211-226 | What was received is appended to the buffer, nothing else changes. |
| Correlation.StepKeepsInv | gzochi-server/src/dataclient.c:464-684 | Every send, service and receipt keeps an application's callbacks those of all its requests but the first so many, and what is under way those of all not lost but the first so many. |
| Correlation.EveryRunKeepsInv | gzochi-server/src/dataclient.c:464-684 | So does every run, of any applications interleaved and with any requests lost. |
| Correlation.CallbackIsOwnIff | gzochi-server/src/dataclient.c:464-522 | A readable response always finds a callback; it is that of the request answered exactly when no earlier request of its application went unanswered, and then the opcode check passes. |
| Correlation.UnansweredRequestMisleads | gzochi-server/src/dataclient.c:464-522 | For any two requests of an application of which the first goes unanswered, a run in which the first one's callback is taken for the answer to the second. |
| Correlation.CallbacksMatchWhatIsUnderway | gzochi-server/src/dataclient.c:464-684 | While nothing has gone unanswered, each queue is the application's responses under way followed by its requests under way. |
| Correlation.EveryMatchIsRight | gzochi-server/src/dataclient.c:464-522 | Then every callback ever taken was that of the request answered and expected the opcode it got. |
| Correlation.NothingIsLost | gzochi-server/src/dataserver-protocol.c:145-324 | If requests are sendable, their stores known, and answers sendable, nothing goes unanswered. |
| Correlation.DataClient.Send | gzochi-server/src/dataclient.c:541-684 | The client's part of a send: queue and message are those of the specification. |
| Correlation.DataClient.Receive | gzochi-server/src/dataclient.c:464-539 | The client's part of a receipt; a callback is called only for its expected opcode, and while nothing is lost it is called and is the right one. |
| Service.RepliesAreRight | gzochi-server/src/dataserver.c:390-554 | What the server answers a request is right for that request, key and all, on the stores it decides on. |
| Service.CallbackGetsItsAnswer | gzochi-server/src/dataclient.c:464-522 | End to end, whatever else the cluster does: when no earlier request of the application went unanswered, a callback is given an answer that was right for its own request on the stores it was served from, to the byte if it can be sent. |
| Service.CallbackGetsCurrentValue | gzochi-server/src/dataserver.c:390-461 | If the node has held the key since its request was served and committed nothing in between, the value its callback is given is what the store holds at that moment for that key. |
| Migrations.PrefixIsContiguous | gzochi-server/src/gzochi-migrate.c:789-812 | Between two names beginning with "o." lie only such names, so the walk may stop at the first other. |
| Migrations.RootIff | gzochi-server/src/gzochi-migrate.c:789-812 | The names the walk starts from are exactly those that begin with "o." and go on. |
| Migrations.ReachableIsLeast | gzochi-server/src/gzochi-migrate.c:814-861 | A set with the bound objects that is closed under references has every reachable object. |
| Migrations.FinishedWalk | gzochi-server/src/gzochi-migrate.c:814-861 | When queue and names are used up, the visited ids are exactly the reachable ones. |
| Migrations.Migration.EnqueueOids | gzochi-server/src/gzochi-migrate.c:309-324 | The ids join the end of the queue in order. |
| Migrations.Migration.MigrateObject | gzochi-server/src/gzochi-migrate.c:752-781 | A new id is handed over and its object's references queued before the callback sees it; an old one changes nothing; an id without an object queues nothing. |
| Migrations.Migration.NextKey | gzochi-server/src/gzochi-migrate.c:789-812 | The next name after the last with the prefix, or none if the next lacks it. |
| Migrations.Migration.Run | gzochi-server/src/gzochi-migrate.c:814-861 | The loop ends; if no transaction fails it has handed over exactly the ids bound under "o." or reachable from them, each once, and each object is as the callback left it. |
| LruCaches.CachedIsLastOfRecency | gzochi-server/src/lrucache.c:105-168 | After every trace the cache is the end of the list of keys by last access. |
| LruCaches.CachedIffAmongLast | gzochi-server/src/lrucache.c:105-168 | A key is cached exactly when it was accessed and fewer other keys than the cache holds were accessed since. |
| LruCaches.LargerContainsSmaller | gzochi-server/src/lrucache.c:105-168 | A larger cache contains a smaller one that saw the same accesses. |
| LruCaches.LruCache.Bump | gzochi-server/src/lrucache.c:116-128 | A value in the cache becomes the most recent; index and table still agree. |
| LruCaches.LruCache.Generate | gzochi-server/src/lrucache.c:132-166 | A generated value goes in; the least recently used goes out if the table has outgrown its size, and no value is lost track of. |
| LruCaches.LruCache.Lookup | gzochi-server/src/lrucache.c:105-169 | The cache holds exactly the last keys of the longer trace; a cached value is returned as it is; every value generated is either cached or evicted once. |
| LruCaches.LruCache.Destroy | gzochi-server/src/lrucache.c:171-193 | Over the cache's life each generated value is evicted exactly once. |
| Workers.WhenAttemptsEnd | gzochi-server/src/app-task.c:390-396 | The main task is attempted up to its first outcome that does not ask for a retry, or until no attempt is left. |
| Workers.WhatIsRun | gzochi-server/src/app-task.c:281-316 | The calls are those attempts, then the catch task once exactly when the last outcome was not success, then the cleanup task once. |
| Workers.CallsOneByOne | gzochi-server/src/app-task.c:281-316 | Call by call: the attempts; the catch task once, exactly if there is one and the last outcome was not success; the cleanup task once, exactly if there is one, outside a transaction, last and nowhere else. |
| Workers.CatchTimeIff | gzochi-server/src/app-task.c:292-353 | The two workers' calls are of the same tasks, and the same in every respect exactly when the execution is not timed or nothing is caught. |
| Workers.Context.NewExecution | gzochi-server/src/app-task.c:79-107 | One more reference to each of its tasks. |
| Workers.Context.FreeExecution | gzochi-server/src/app-task.c:126-139 | Exactly those references given back. |
| Workers.Context.AttemptAll | gzochi-server/src/app-task.c:288-290 | The loop makes as many attempts as there should be. |
| Workers.Context.Reexecuting | gzochi-server/src/app-task.c:281-316 | Makes exactly the calls due, uses no task without a reference, and ends holding none. |
| Workers.Context.Resubmitting | gzochi-server/src/app-task.c:318-373 | One attempt, after which what is queued leads to exactly the rest of the calls, holding exactly the references it needs. |
| Workers.Context.RunJob | gzochi-server/src/app-task.c:382-388 | A queued job makes its calls and gives back the queue's reference. |
| Workers.Context.RunResubmitting | gzochi-server/src/app-task.c:318-388 | Run through the queue to the end: the same calls, all references given back, nothing left queued. |

## Left out

- Removal and rotation in the interval tree: `itree_rotate` and `gzochid_itree_remove` do not maintain the parent links and the order the other functions rely on, so the tree is proved for insertion histories and the lock table uses a map with the contract of `itree.h`.
- LockTables.LockTable.RangeCheckAndSet: ranges that end before they begin are not considered, because the data server only asks for a key and the next key above it. Open below, which foreign ranges are missed depends on the shape of the tree and is left open within what the tree's search can miss, and where the point locks are examined from is left open, because GLib's comparison of a null key enters the sequence at no defined place.
- LockTables.LockTable.FindOverlapping: the same, for the search alone.
- DataServers.DataServer.RequestNextKey: the same, for a request without a key.
- Keys.OverlapTestIsOverlap: ranges that end before they begin are not considered, and on them the test and overlap differ.
- DataServers.DataServer.RequestValue: a storage failure while reading is not modelled; the code does not look for one either.
- Timestamps are arguments, mutexes make each call one step, and the `most_recent_timestamp` field, which is written and never read, is dropped.
- Storage engines: a transaction is a private copy of the store that may fail at any call and is committed whole.
- ObjectLayers.ObjectLayer.Prepare: serializers are functions of the object; one that creates references while it runs is not considered, and neither are name bindings, events and transaction timeouts.
- Object ids and access counters are unbounded, so their wrapping after 2^64 steps is not modelled.
- ObjectLayers.ObjectLayer.CreateReference: the id offered for a new object is taken to be one neither the store nor the transaction knows; `OidBlocks.NoIdIsIssuedTwice` proves that of ids issued by one application, and that the store holds only such ids is not modelled.
- ObjectLayers.ObjectLayer.ReferenceByPtr: the same, when the object has no reference yet.
- ObjectLayers.ObjectLayer.Mark: the same, when the object has no reference yet.
- ClientSessions.ClientSession.AttemptDispatch: streams with a length of 32768 or more are not considered, because a negative length makes the loop go backwards out of its buffer.
- ClientSessions.OneByOneIsAll: the same.
- ClientSessions.PiecesDoNotMatter: the same.
- ClientSessions.InPieces: the same.
- ClientSessions.DeliversWhatWasSent: the same.
- ClientSessions.ClientSession.TakeMessage: the same.
- ClientSessions.ClientSession.DispatchSingly: the same.
- ClientSessions.ClientSession.Read: the same.
- Correlation.StepKeepsInv: changesets, releases and reservations of ids share the connection but not the callback queues, and are not among the messages; the timed release of a granted lock is an ordinary release in `Cluster`.
- Correlation.CallbackIsOwnIff: packets carry no frame length, so a response of 65535 bytes or more, whose length would put the whole stream out of step, is only unread or altered.
- Migrations.Migration.Run: the callback is taken to change only the object it is given; deserialization failures and failed transactions both count as failing, since both end the program.
- Workers.Context.RunResubmitting: one execution at a time is in the queue; interleaving with other executions' jobs is not modelled.
- Codec.ResponseRoundTripIff: the success flag is written as the first byte of a C integer, which is the flag on little-endian machines only.
- The response with reserved object ids: its reader subtracts the name's length twice, so it has no round trip.
- Keys of the LRU cache are compared by value and the generator is an argument.
- Channels, sessions, authentication, HTTP consoles, configuration, descriptors, Guile bindings and socket handling: calls into foreign code or simple tables that would add only easy members.
