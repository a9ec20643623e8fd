# Membership directory handler of concord-rcanopus, in Dafny

This project models `SimpleAppState::execute`, the handler the replication engine calls for every agreed request. Two replicas serve a membership directory that lives in a document store (CouchDB database `global_membership_service`). The model covers both replicas.

* **Membership replica** (`bftengine/tests/membership_service/replica.cpp`):
  * A read-only request in one of the lookup modes looks up a `BGID` or `SLID` entry in the document named by `Mode`; one in mode `emulators` runs the `emulators` query.
  * The `emulators` query does four things:
    * It compares `height` with `max_height` as text.
    * It climbs `height` parent links.
    * It walks breadth first down from there, avoiding the branch it came up.
    * It groups the leaves it finds by parent.
  * A request that is not read-only and is in one of the five write modes fetches one document, copies every entry but the target, inserts the new entry and puts the body back. The reply is `{Status, Global_Cert}`, which carries the commit proof the engine left in the reply buffer.
  * A request in any other mode, read-only or not, changes neither the store nor the reply (`UnknownModeUntouched`).
* **Earlier replica** (`bftengine/tests/simpleTest/replica.cpp`):
  * It has the same handler with three lookups and two writes, and its writes answer `"OK"`.
  * It also has a per-client register array with index arithmetic, getters and setters.

Modules, following the program's structure:

| module | file | what it holds |
|---|---|---|
| `Json` | json.dfy | JSON values, objects as maps, and the reply (plain text or a JSON body) |
| `Buffers` | buffers.dfy | `parse_char_string`, and `strcpy` into `outReply` |
| `DocStore` | doc_store.dfy | the document store as a class with a `docs` map |
| `Directory` | directory.dfy | the fetch, copy-all-but-target, insert, put merge shared by all write modes |
| `Topology` | topology.dfy | the `configuration` document: children, parent, climbing |
| `LevelOrder` | level_order.dfy | the queue walk, specified by a function `Bfs` |
| `Grouping` | grouping.dfy | the grouping loop, specified by its state machine `Step`/`Run` |
| `HeightText` | height_text.dfy | `std::string` order and `atoi` |
| `EmulatorsQuery` | emulators_query.dfy | the `emulators` read branch |
| `EmulatorsExample` | emulators_example.dfy | a worked tree `root -> A -> {L1, L2}` |
| `WriteExample` | write_example.dfy | a worked `quorum_size` write on both replicas |
| `MembershipReplica` | membership_replica.dfy | the membership replica's handler |
| `SimpleReplica` | simple_replica.dfy | the earlier replica's handler and register array |

External parts are handled as follows:

* Parsing the request text with jsonxx, and serialising replies with `.json()`, are function parameters of `Execute` (`parse`, `toText`).
* The store is an in-memory map of documents.
* The tree's termination argument is a ghost `rank` map, under which every child ranks below its parent. This stands in for the acyclic `configuration` document the code relies on.

## Model

| member | source | states |
|---|---|---|
| Buffers.ParseCharString | bftengine/tests/membership_service/replica.cpp:196-210 | the string has exactly `requestSize` characters: the buffer's first `requestSize` characters, in order (the earlier replica runs the same loop at bftengine/tests/simpleTest/replica.cpp:219-233) |
| Buffers.CString | bftengine/tests/membership_service/replica.cpp:249 | what `strcpy` copies: the longest prefix free of NUL, stopping at the first NUL of the text |
| Buffers.SendReply | bftengine/tests/membership_service/replica.cpp:245-250 | afterwards the buffer holds the copied characters, then a NUL, then its old contents; the reported size is the full text length |
| DocStore.DocStore.Put | bftengine/tests/membership_service/replica.cpp:496 | the body replaces the document named by its `_id`; every other document is unchanged |
| Directory.Merged | bftengine/tests/membership_service/replica.cpp:472-493 | the put body's keys are the fetched keys plus `_id` and the target; the target maps to the new entry, `_id` to the document name and `_rev` to the fetched `_rev`; every other fetched entry is copied unchanged |
| Directory.MergeBody | bftengine/tests/membership_service/replica.cpp:468-493 | the insertion loop over the fetched keys builds exactly `Merged`, in whatever order the keys are visited |
| Directory.Apply | bftengine/tests/membership_service/replica.cpp:469-496 | a write keeps the set of documents, leaves every other document unchanged, and sets `_id` to the document's own name |
| Directory.FetchMergePut | bftengine/tests/membership_service/replica.cpp:467-496 | fetch, merge and put leave the store equal to `Apply` of the old store |
| Directory.ApplyReadBack | bftengine/tests/membership_service/replica.cpp:472-496 | after a write the target reads back as the new entry; every other entry of every document reads as before, except the written document's `_id`; no other key appears |
| Directory.ApplyIdempotent | bftengine/tests/membership_service/replica.cpp:472-496 | writing the same entry twice leaves the store as one write does, up to `_rev`, which `Put` does not advance |
| Topology.AncestorStep | bftengine/tests/membership_service/replica.cpp:348-352 | climbing k+1 links is climbing k links and then one more parent link |
| Topology.CanClimbShorter | bftengine/tests/membership_service/replica.cpp:348-352 | a chain that can climb k links can climb any shorter number of links |
| Topology.AncestorOutranks | bftengine/tests/membership_service/replica.cpp:348-352 | in a consistent tree every proper ancestor ranks strictly above its descendant |
| HeightText.LexLessFirstDifference | bftengine/tests/membership_service/replica.cpp:329 | the height test is `std::string` order: `a < b` iff at the first difference `a` is smaller, or `a` is a proper prefix of `b` |
| HeightText.LexLessSingle | bftengine/tests/membership_service/replica.cpp:329 | one-character heights compare as their characters |
| HeightText.TenPassesNine | bftengine/tests/membership_service/replica.cpp:329 | quirk: "10" is not above a maximum of "9" |
| HeightText.TwoFailsTen | bftengine/tests/membership_service/replica.cpp:329 | quirk: "2" is above a maximum of "10" |
| HeightText.SkipSpace | bftengine/tests/membership_service/replica.cpp:337 | `atoi` drops exactly the leading white space: the rest is a suffix of the input, every dropped character is white space, and the rest does not start with white space |
| HeightText.AtoiDecimal | bftengine/tests/membership_service/replica.cpp:337 | `atoi` reads the decimal text of any natural number back as that number |
| LevelOrder.Excluding | bftengine/tests/membership_service/replica.cpp:366-371 | the children pushed are exactly those different from `parent_to_exclude` |
| LevelOrder.StepDecreases | bftengine/tests/membership_service/replica.cpp:359-372 | popping a node that has children and pushing them strictly lowers the queue's subtree weight, so the walk ends |
| LevelOrder.Bfs | bftengine/tests/membership_service/replica.cpp:354-376 | on exit the queue is empty or its front is childless; an excluded node not queued at the start is never queued |
| LevelOrder.BfsPassesInternal | bftengine/tests/membership_service/replica.cpp:359-372 | a queue prefix of nodes with children is replaced, one by one, by their children in order |
| LevelOrder.BfsStopsAtLeafLayer | bftengine/tests/membership_service/replica.cpp:354-376 | if every layer above depth d has only nodes with children and layer d has only leaves, the exit queue is exactly layer d, in breadth-first order |
| LevelOrder.BfsAvoidsBranch | bftengine/tests/membership_service/replica.cpp:368-369 | if no starting node lies below the excluded node, no node in the exit queue does either |
| LevelOrder.LeafQueue | bftengine/tests/membership_service/replica.cpp:354-376 | the queue loop ends with exactly `Bfs` from the single start node |
| LevelOrder.PushChildren | bftengine/tests/membership_service/replica.cpp:366-371 | the inner loop appends the children except the excluded one, in array order |
| Grouping.Readable | bftengine/tests/membership_service/replica.cpp:382-399 | the lookups the loop makes succeed, so every queued node has a parent |
| Grouping.Step | bftengine/tests/membership_service/replica.cpp:387-402 | after one round the open group belongs to the front's parent |
| Grouping.Run | bftengine/tests/membership_service/replica.cpp:385-403 | after the loop the open group belongs to the last leaf's parent |
| Grouping.GroupByParent | bftengine/tests/membership_service/replica.cpp:378-406 | the loop over `pare`, `sub_json`, `final_json` and `diff_parents`, with the post-loop flush, yields exactly `Grouped` |
| Grouping.RunConcat | bftengine/tests/membership_service/replica.cpp:385-403 | running the loop over `a + b` is running it over `a` and then over `b` |
| Grouping.RunSameParent | bftengine/tests/membership_service/replica.cpp:387-391 | under an unchanged parent the loop only adds each leaf's entry to the open group, skipping `SLID` |
| Grouping.GroupedSingleParent | bftengine/tests/membership_service/replica.cpp:385-406 | leaves under a single parent give one group under that parent, holding every leaf but `SLID` |
| Grouping.GroupedTwoParents | bftengine/tests/membership_service/replica.cpp:393-406 | quirk: with two parent runs only the first group reaches the reply; the second is never flushed |
| Grouping.RunKeys | bftengine/tests/membership_service/replica.cpp:395 | sealed group keys are the parents already seen, or the parent open at the start |
| Grouping.GroupedKeys | bftengine/tests/membership_service/replica.cpp:382-406 | every key of the reply is the parent of some queued leaf |
| Grouping.TrailingGroupDropped | bftengine/tests/membership_service/replica.cpp:404-406 | quirk: when the last run of leaves has a new parent, that parent's group is missing from the reply |
| Grouping.RunSound | bftengine/tests/membership_service/replica.cpp:385-403 | every leaf in every group was queued, has that group's key as parent, and maps to its own emulators entry |
| Grouping.GroupedByImmediateParent | bftengine/tests/membership_service/replica.cpp:378-411 | the reply groups only queued leaves, each under its immediate parent, each mapped to its own emulators entry |
| EmulatorsQuery.WalkUp | bftengine/tests/membership_service/replica.cpp:346-352 | `parent` is the height-th ancestor of `SLID`; `parent_to_exclude` is its child on the path to `SLID`, and is `SLID` itself at height 1 |
| EmulatorsQuery.Emulators | bftengine/tests/membership_service/replica.cpp:317-414 | the error text is sent iff `height` is above `max_height` as text; height 0 answers `SLID`'s own entry; otherwise the reply is the grouped leaf queue |
| EmulatorsQuery.StartAvoidsExcluded | bftengine/tests/membership_service/replica.cpp:346-357 | the walk's start node lies above the excluded branch, not inside it |
| EmulatorsQuery.LeavesAvoidOrigin | bftengine/tests/membership_service/replica.cpp:354-376 | in a consistent tree no queued leaf is `SLID` or lies below `parent_to_exclude` |
| EmulatorsQuery.OriginNeverReported | bftengine/tests/membership_service/replica.cpp:317-414 | neither a group key (a parent) nor an emulator listed in the `emulators` reply is `SLID` or lies on the branch back to it |
| EmulatorsQuery.LeavesAtHeightOne | bftengine/tests/membership_service/replica.cpp:346-376 | at height 1 under a parent whose children are all leaves, the queue is exactly `SLID`'s siblings in array order |
| EmulatorsQuery.SiblingsAtHeightOne | bftengine/tests/membership_service/replica.cpp:317-411 | the reply is then one object under the parent, mapping each sibling to its emulators entry |
| EmulatorsExample.ExampleLeaves | bftengine/tests/membership_service/replica.cpp:354-376 | in `root -> A -> {L1, L2}`, the walk from A excluding L1 leaves just L2 |
| EmulatorsExample.ExampleGrouped | bftengine/tests/membership_service/replica.cpp:378-406 | grouping the queue `[L2]` gives `{"A": {"L2": ...}}` |
| EmulatorsExample.ExampleQuery | bftengine/tests/membership_service/replica.cpp:317-414 | `emulators(L1, "1")` answers `{"A": {"L2": {"ip": ["2.2.2.2"]}}}` |
| WriteExample.ExampleBody | bftengine/tests/membership_service/replica.cpp:469-493 | the document `{_id: quorum_size, _rev: 1-x, 0: {size: 3}}` merged with the entry `{size: 5, cycle: 2, quorum_cert: c}` gives exactly `{_id: quorum_size, _rev: 1-x, 0: {size: 5, cycle: 2, quorum_cert: c}}` |
| WriteExample.ExampleMembershipWrite | bftengine/tests/membership_service/replica.cpp:452-499 | the request `{Mode: quorum_size, BGID: 0, size: 5, cycle: 2, quorum_cert: c}` on that document stores that body and answers `{Status: OK, Global_Cert: proof}` |
| WriteExample.ExampleSimpleWrite | bftengine/tests/simpleTest/replica.cpp:343-386 | the same request on the earlier replica stores the same body and answers "OK" |
| MembershipReplica.Read | bftengine/tests/membership_service/replica.cpp:238-414 | the three `BGID` modes and `super_leafs` (by `SLID`) answer the entry stored under that id in the document of the same name; `emulators` answers `EmulatorsReply`; there is no reply iff the mode is none of the five |
| MembershipReplica.WriteUpdate | bftengine/tests/membership_service/replica.cpp:461-655 | exactly the five modes write; each writes the document named by the mode, at the id its lookup reads (`BGID`, or `SLID` for `super_leafs` and `emulators`); the entry each stores (lines 489-493, 533, 569-572, 609-612, 652-655) is read back by `WriteThenRead` and `EmulatorsWriteThenRead` |
| MembershipReplica.Write | bftengine/tests/membership_service/replica.cpp:446-661 | a write in one of the five modes applies its update and answers `{Status: "OK", Global_Cert: proof}`; any other mode changes nothing and sends nothing |
| MembershipReplica.Execute | bftengine/tests/membership_service/replica.cpp:214-663 | the handler returns 0 and leaves the store as `Respond` says; a reply is copied with its NUL and its length reported; with no reply, `outReply` and `outActualReplySize` are untouched; the proof is the first `outActualReplySize` characters of `outReply` on entry |
| MembershipReplica.ReadsWriteNothing | bftengine/tests/membership_service/replica.cpp:329-334 | read-only requests leave the store unchanged; a height above `max_height` answers exactly the error text |
| MembershipReplica.UnknownModeUntouched | bftengine/tests/membership_service/replica.cpp:223-663 | a mode that matches none of the five leaves both the store and the reply alone, read or write |
| MembershipReplica.WriteThenRead | bftengine/tests/membership_service/replica.cpp:461-618 | a lookup after a write of the same id returns exactly the entry written |
| MembershipReplica.EmulatorsWriteThenRead | bftengine/tests/membership_service/replica.cpp:625-661 | an `emulators` write followed by a height-0 query for that `SLID` returns `{ip, cert}` from the write |
| MembershipReplica.WriteKeepsSiblings | bftengine/tests/membership_service/replica.cpp:472-498 | a write answers the OK reply, keeps every other document and every other entry of the written one except `_id`, and sets `_id` to the document's name |
| SimpleReplica.SimpleAppState.constructor | bftengine/tests/simpleTest/replica.cpp:213-216 | one register per client, each starting with `stateNum = 0` and `lastValue = 0` |
| SimpleReplica.SimpleAppState.ClientToIndex | bftengine/tests/simpleTest/replica.cpp:187-189 | a client id maps to `clientId - numOfReplicas`; an id below the replica count wraps modulo 2^64 |
| SimpleReplica.SimpleAppState.ClientIndexInRange | bftengine/tests/simpleTest/replica.cpp:187-209 | a client id in range indexes inside the array, and distinct clients use distinct registers |
| SimpleReplica.SimpleAppState.GetLastStateValue | bftengine/tests/simpleTest/replica.cpp:191-194 | reads the value in client `clientId`'s register, the one at offset `clientId - numOfReplicas`, which lies inside the array; `SetLastStateValue` states what it reads back |
| SimpleReplica.SimpleAppState.GetLastStateNum | bftengine/tests/simpleTest/replica.cpp:196-199 | reads the count in client `clientId`'s register, at offset `clientId - numOfReplicas` inside the array; `SetLastStateNum` states what it reads back |
| SimpleReplica.SimpleAppState.SetLastStateValue | bftengine/tests/simpleTest/replica.cpp:201-204 | afterwards that client's value reads back as the one written, its count is unchanged, and every other client's register is unchanged |
| SimpleReplica.SimpleAppState.SetLastStateNum | bftengine/tests/simpleTest/replica.cpp:206-209 | afterwards that client's count reads back as the one written, its value is unchanged, and every other client's register is unchanged |
| SimpleReplica.SimpleAppState.Execute | bftengine/tests/simpleTest/replica.cpp:237-437 | the handler returns 0 and leaves the store as `Respond` says; a reply is copied with its NUL and its length reported; with no reply, the buffer and its size are untouched |
| SimpleReplica.ReadReply | bftengine/tests/simpleTest/replica.cpp:259-312 | there is a reply iff the mode is one of the three lookups, and it is the entry under `BGID` in the document of the same name |
| SimpleReplica.WriteUpdate | bftengine/tests/simpleTest/replica.cpp:343-426 | only `quorum_size` and `public_keys` write, each to the document named by the mode, at the request's `BGID`, which is a document and id that the lookups read |
| SimpleReplica.WriteRepliesOk | bftengine/tests/simpleTest/replica.cpp:343-386 | every handled write answers exactly "OK", two characters long |
| SimpleReplica.UnimplementedModesUntouched | bftengine/tests/simpleTest/replica.cpp:314-320 | `emulators` and `super_leafs` requests, and a `byzantine_groups` write, leave the store and the reply alone |
| SimpleReplica.WriteThenRead | bftengine/tests/simpleTest/replica.cpp:348-426 | a lookup after a write of the same `BGID` returns exactly the entry written; every other entry of that document except `_id` is kept |

## Left out

- `main` and `parse_params` in both replica files are left out. They construct the replica, its communication and state transfer, and parse the command line, all on top of a replication engine that is not part of this model.
- The CouchDB client is left out. The store is a map from document name to document. The revision check is not modelled: `put` always succeeds, its result is ignored as in the source, and `_rev` is not advanced.
- jsonxx is not modelled:
  - text parsing and `.json()` serialisation are parameters of `Execute`;
  - key order in objects is not modelled, so `kv_map()` iteration order does not matter, and `MergeBody` is proved for every visiting order;
  - missing keys and wrong value types are preconditions (`Admitted`, `Readable`, `Mergeable`), not error paths, because the library's behaviour on them is not part of this model.
- Directory.Applicable: a write whose target id is `_id` or `_rev` is excluded by precondition. In the source such a write would overwrite the bookkeeping key. This is outside what clients send.
- A commutation law for writes to different documents is not stated. Only read-back and idempotence are proved.
- EmulatorsQuery.Admissible: walking past the root, a missing `parent`, `children` or emulators entry, and `queue.front()` on an empty queue are preconditions. The source's behaviour there is undefined.
- EmulatorsQuery.Leaves: the tree must carry a rank that decreases from parent to child (`WellFormed`). A cyclic `configuration` document, on which the source's walk may not end (it still stops at the first childless front), is outside the model.
- Json.Json: numbers are integers. jsonxx numbers are floating point. The handlers never compute with numbers; they only copy them.
- HeightText.Atoi: overflow of `int` on very long digit strings is not modelled; the result is an unbounded integer.
- Buffers.SendReply: that the reply fits in `maxReplySize` is a precondition. The source copies without checking, and an overrun is undefined behaviour.
- `cout` logging and the `concordlogger` logger are left out because they have no effect on the directory.
- The membership replica's `statePtr` and its constructor are not modelled: the handler never reads them, and only `main` hands `statePtr` to state transfer, which is left out. The earlier replica's register array is modelled in `SimpleReplica.SimpleAppState`.
- SimpleReplica.SimpleAppState.GetLastStateValue: the accessors require a client id in range. The source indexes the array without checking, and an out-of-range id is undefined behaviour.
- The `clientId` and `sequenceNum` arguments of both `Execute` methods are accepted and unused, as in the source.
- The certificate fields (`quorum_cert`, `certificate_msp`, `cert`) are read but never checked, as in the source.
- `bftengine/tests/simpleTest/client.cpp`, `bftengine/tests/membership_service/membership.pb.h`, the Go clients under `scripts/go_client`, `bftengine/tests/config/config_file_parser_test.cpp` and `bftengine/tests/simpleTest/Client_dependencies.cpp` are not part of this model. They are a gRPC front end, generated protobuf code, network scripts, a configuration-parser driver and a list of includes.
