# Verified models of the protobuf Lua binding, conformance tools and benchmark helpers

This project models the parts of the repository that hold real algorithms and state, and proves what
their comments and tests rely on. `dafny verify dfyconfig.toml` checks all of it.

**The Lua binding** (`protobuf321/lua/msg.c`, `def.c`, `upb.c`). `LuaGraph` is a transition system: wrapper
userdata with their slots, the weak wrapper cache, arena userdata, definition pools with their weak tables,
and below them the upb messages, arrays and maps at addresses that may be reused once freed. A run is any
interleaving of program operations (new, index, assign, array and map stores, map deletes, decode, dropping a
reference) and collector steps (collecting any unreachable set, finalizing any dead arena or pool).
`UpbMemory` and `Arenas` give upb's side as small contracts: fusing merges two groups, a group's memory lives
while one of its arenas is not freed. Assigning a field of a oneof unsets the others. `LuaInvariant` proves that every
step keeps one invariant, `LuaSafety` draws the consequences for all runs, `LuaContainers` those for arrays and maps of
messages. `LuaReadback` says for Lua values and indices written out what each store accepts and what it reads as
afterwards, `LuaAccess` what stores leave alone, `LuaOperations` what operations make, refuse and collect, and
`LuaScenario` spells out one run. `LuaRuntime` has the operations as methods of a class that updates its fields in the
order of the source, each proved equal to its transition, up to whole runs. `LuaDefs` is the definition side,
`NumberChecks` the integer checks with binary64 rounding written out, `Binary32` the narrowing of float fields, and
`FloatValues` what both formats hold. Weak entries to dead wrappers are cleared before finalizers run, as in section
2.5.4 of the Lua 5.4 Reference Manual.

**Fused arenas** (`php-upb.c`). `ArenaForest` has the operations of upb on its tagged parent-or-count words, the
links that thread each tree and the hints where they end, updated in place; `ForestWords` and `ForestLists` prove
that the trees are the groups of `Arenas`, that each root counts the arenas of its tree that are not freed, and that
each list holds exactly its tree, so that fusing and freeing refine what `UpbMemory` says.

**The failure-list trie** (`failure_list_trie_node.cc`). `FailureTries` has the trie as a value, its search with
backtracking and its insertion, compared with a flat set of patterns; `FailureTrieOrder` says when the order of
insertion can show in an answer; `FailureListTrieNodes` has the mutable nodes, proved against those values;
`TestNames` has sections, dots and wildcards.

**The pipe protocol** (`fork_pipe_runner.cc`, `conformance_cpp.cc`). `PipeProtocol` is a state machine of tester,
testee and two byte queues in which reads deliver any part of what is there and the testee may crash or time
out at any point; `PipeTermination` bounds every run; `PipeOutcomes` says how each test ends; `ForkPipeRunner` has the read loops, the server step and
`RunTest` as methods, with late reads and a child that dies with its reply half written.

**The wire format builder** (`binary_wireformat.{h,cc}`). `Varints` has `vencode64` over its buffer, `WireFormat`
the field helpers, and both the reader of the sections "Base 128 Varints" and "Message Structure" of the Protocol
Buffers Encoding specification.

**Smaller parts.** `Dependencies` (dependency order) and `BalancedFuse` (rounds of fuses) from `benchmark.cc`;
`LuaPrinter` from `upbc.cc`, with a reader of Lua string literals after section 3.1 of the Lua 5.4 Reference
Manual; `FailureListUpdate` and `FailureListOrder` (the merge), `FailureListAlignment` and `FailureListRoundTrip` (the alignment
and the parser that reads its output), `FailureListLoss` (what is lost when lines run together) and
`FailureListScript` (all of them in a row) for `update_failure_list.py`.
`LineText`, `Sequences`, `Arithmetic` and `Options` are shared.

## Where the code and its comments differ, or a promise fails

- `lupb_Map_New` stores the message class in slot 1, which the arena then overwrites (`MAP_MSGDEF_INDEX` and
  `LUPB_ARENA_INDEX` are both 1). The map's definition slot stays empty, so a map made by `upb.Map` for messages never
  accepts one, in any later state. A map of messages accepts a message exactly when it was made for its definition,
  which only maps in message fields are. Typing is therefore "the slot is empty or correct, and a map with an empty
  slot holds no message".
- An assignment is not always seen at its own field only. In `TestAllTypesProto3` (oneof `oneof_field` of
  `src/google/protobuf/test_messages_proto3.proto:174`), after `m.oneof_uint32 = 1; m.oneof_bool = true` the field
  `m.oneof_uint32` reads 0. Another field reads as before exactly when it is not a set member of the assigned
  field's oneof, or read as unset already.
- Array and map stores link first and fuse afterwards, message stores fuse first. Between the two steps of the former
  the second key invariant of `msg.c` fails exactly when the two objects do not share an arena group yet, as a message
  that was just made never does; it holds again when the operation returns.
- `PackedImpl` writes the number of elements where a length belongs. A packed field is read back exactly when every
  element takes one byte.
- `vencode64` ignores the extra bytes for zero, although `LongVarint` promises them.
- A tag keeps its field number exactly when the number has at most 29 bits.
- The order of insertion can show in the trie's answer to a query exactly when the query has a wildcard, and for one
  set of accepted names exactly when more than one of them matches the query.
- Aligning a line whose comment is blank also strips its newline. `AlignKeepsTests` and `AlignTwice` say for
  every text whether the reader still finds the same tests and whether a second pass changes anything.
- The merge compares an added line as a whole with the names of existing lines. The tests stay in order exactly when
  that comparison orders each added line like the test it names. For names of characters above `#` this means that
  each added line that begins with a blank, which is written before every named line, names no greater test than the
  kept lines and the added lines after it.
- An added line without a newline runs into the line written after it. The test runner reads exactly the kept and the
  added tests if and only if each line without a newline lists the same when it is joined to what follows, and each
  blank message stands last or before a blank line.
- The script is said to recognize comments and ignore them. Comments and blank lines of the list stay exactly when no
  removal line is itself a comment or blank; such a line puts the empty name into the removed set, and then all of
  them are dropped.
- An empty failure list makes the update fail, because there is no last line to trim.
- `check` after `push` is the identity exactly on the integers that binary64 holds.
- A comment in `def.c` says that the pool goes into the cache's metatable; the code puts it into the cache.

## Model

| member | source | states |
|---|---|---|
| Arenas.FuseMerges | protobuf321/lua/msg.c:188-197 | after merging two groups, two arenas are together exactly when they were, or each was with one of the two merged |
| UpbMemory.FreeArenaExact | protobuf321/lua/msg.c:206-210 | freeing an arena keeps an object exactly when another arena of its group is not freed |
| UpbMemory.FreeArenaInv | protobuf321/lua/msg.c:206-210 | freeing keeps links inside live groups and leaves no group without an unfreed arena |
| ForestWords.SplitKeepsRoot | protobuf321/php/ext/google/protobuf/php-upb.c:6517-6524 | splitting a path changes no arena's root and makes no path longer |
| ForestWords.SplitPathHalves | protobuf321/php/ext/google/protobuf/php-upb.c:6497-6527 | a whole search halves the way to the root, for every arena it meets |
| ForestWords.HangRoots | protobuf321/php/ext/google/protobuf/php-upb.c:6964-6999 | hanging one root below another gives the arenas of its tree the other root and leaves all others their roots |
| ForestWords.HangCounted | protobuf321/php/ext/google/protobuf/php-upb.c:6984-6990 | adding one tagged count to the other leaves each root with the number of unfreed arenas in its tree |
| ForestWords.FusesRefines | protobuf321/php/ext/google/protobuf/php-upb.c:6946-7007 | what a fuse does to the words is what Arenas.Fuse does to the groups, in every memory the forest stands for |
| ForestWords.CountDecides | protobuf321/php/ext/google/protobuf/php-upb.c:6792-6826 | a group outlives an arena exactly when the root of the arena counts more than one |
| ForestWords.PlantRefinesAll | protobuf321/php/ext/google/protobuf/php-upb.c:6686-6719 | a new root with the count one is a new group |
| ForestLists.JoinListed | protobuf321/php/ext/google/protobuf/php-upb.c:6931-6936 | after a fuse the list of the new root holds exactly the arenas of both trees, its hint lies in it, and links back lead to the arena before |
| ForestLists.FreesRefines | protobuf321/php/ext/google/protobuf/php-upb.c:6792-6826 | what freeing does to the words is what UpbMemory.FreeArena does: the tree is released exactly when no other arena of the group is unfreed, and with it exactly the objects that lie in it |
| ArenaForest.Forest.InitSlow | protobuf321/php/ext/google/protobuf/php-upb.c:6686-6719 | a new arena is a root that counts one, with a list of its own |
| ArenaForest.Forest.InitInBlock | protobuf321/php/ext/google/protobuf/php-upb.c:6721-6762 | the same for an arena that begins in its caller's memory, which is noted |
| ArenaForest.Forest.FindRoot | protobuf321/php/ext/google/protobuf/php-upb.c:6497-6527 | the loop returns the root and its word, all roots and counts stay, no path becomes longer and the way from the argument is halved |
| ArenaForest.Forest.LinkForward | protobuf321/php/ext/google/protobuf/php-upb.c:6835-6871 | from any hint in the list the loop finds its end and links the child there |
| ArenaForest.Forest.DoFuseArenaLists | protobuf321/php/ext/google/protobuf/php-upb.c:6931-6936 | the links, the hint and the link back make one list of the two |
| ArenaForest.Forest.DoFuse | protobuf321/php/ext/google/protobuf/php-upb.c:6946-7007 | counts and lists stay right, and of two different roots the one with the higher address ends below the other |
| ArenaForest.Forest.Fuse | protobuf321/php/ext/google/protobuf/php-upb.c:7035-7060 | fails exactly for two arenas one of which begins in a block of its caller, and then changes nothing |
| ArenaForest.Forest.IsFused | protobuf321/php/ext/google/protobuf/php-upb.c:7062-7074 | true exactly when the roots are the same |
| ArenaForest.Forest.SpaceAllocated | protobuf321/php/ext/google/protobuf/php-upb.c:6529-6571 | counts every arena of the tree once and adds up their space |
| ArenaForest.Forest.DoFree | protobuf321/php/ext/google/protobuf/php-upb.c:6762-6790 | releases the arenas of the list in order, each once |
| ArenaForest.Forest.Free | protobuf321/php/ext/google/protobuf/php-upb.c:6792-6826 | releases the whole tree exactly when its root counts one, otherwise counts one less |
| UpbMemory.FuseInv | protobuf321/lua/msg.c:193-197 | fusing keeps the memory invariant |
| LuaDefs.SameWrapperSameDef | protobuf321/lua/def.c:700-732 | two live definition wrappers are identical exactly when they wrap the same definition |
| LuaDefs.PushWrapperStable | protobuf321/lua/def.c:700-732 | pushing a definition again finds the wrapper of the first push and changes nothing |
| LuaDefs.PushWrapperInv | protobuf321/lua/def.c:700-732 | a push keeps wrappers canonical in every pool |
| LuaDefs.PushWrapperFrame | protobuf321/lua/def.c:700-732 | a push yields a wrapper of that definition and pool, creates at most one, and changes no other |
| LuaDefs.CollectDefsInv | protobuf321/lua/def.c:744-761 | clearing weak entries with their wrappers keeps wrappers canonical |
| LuaDefs.FreePoolInv | protobuf321/lua/def.c:763-768 | freeing a pool without live wrappers keeps the rest canonical |
| LuaDefs.AddDefsInv | protobuf321/lua/def.c:770-792 | adding a file keeps existing definitions and wrappers valid |
| LuaInvariant.LinkFuseCommute | protobuf321/lua/msg.c:420-428 | linking first and fusing afterwards gives the state that fusing first gives |
| LuaInvariant.StoreInv | protobuf321/lua/msg.c:420-428 | storing a link and fusing, in either order, keeps the invariant when the store is typed |
| LuaInvariant.ArrayNewindexInv | protobuf321/lua/msg.c:414-431 | an array store, failed or not, keeps the invariant |
| LuaInvariant.MapNewindexInv | protobuf321/lua/msg.c:555-571 | a map store or delete keeps the invariant |
| LuaInvariant.MsgNewindexInv | protobuf321/lua/msg.c:822-869 | an assignment to a field keeps the invariant, also when the check has created a definition wrapper and then failed |
| LuaInvariant.MsgIndexInv | protobuf321/lua/msg.c:794-812 | reading a field, which may allocate a container and create a wrapper, keeps the invariant |
| LuaInvariant.PushValueInv | protobuf321/lua/msg.c:299-336 | pushing an element creates a wrapper only when the cache has none, and keeps the invariant |
| LuaInvariant.NewArrayInv | protobuf321/lua/msg.c:370-391 | a new array, with or without a class, keeps the invariant |
| LuaInvariant.NewArrayFromInv | protobuf321/lua/msg.c:370-405 | a new array with a table of initial values keeps the invariant, also when a store fails halfway |
| LuaInvariant.NewMapInv | protobuf321/lua/msg.c:491-514 | a new map, whose slot stays empty, keeps the invariant |
| LuaInvariant.NewMessageInv | protobuf321/lua/msg.c:652-664 | a new message keeps the invariant |
| LuaInvariant.DecodeInv | protobuf321/lua/msg.c:930-952 | decoding into a new message keeps the invariant, also when it fails |
| LuaInvariant.CollectInv | protobuf321/lua/msg.c:118-130 | a collection that clears weak entries to dead wrappers keeps the cache exact and everything live sound |
| LuaInvariant.ArenaGcInv | protobuf321/lua/msg.c:206-210 | finalizing a dead arena userdata keeps the invariant |
| LuaInvariant.PoolGcInv | protobuf321/lua/def.c:763-768 | finalizing a dead pool keeps the invariant |
| LuaSafety.StepInv | protobuf321/lua/msg.c:81-90 | every program operation and every collector step keeps the invariant |
| LuaSafety.EveryRunKeepsInv | protobuf321/lua/msg.c:81-90 | every state of every run satisfies the invariant |
| LuaSafety.HeldIsUsable | protobuf321/lua/msg.c:345-347 | whatever object a program holds can be used by the operations for its kind |
| LuaSafety.FinalizersNeverFail | protobuf321/lua/msg.c:206-210 | every userdata awaiting finalization can be finalized, in any order |
| LuaSafety.ReachableIsAlive | protobuf321/lua/msg.c:81-86 | in every run, whatever is reachable by links from a live wrapper is allocated, in the group of an unfreed arena that the wrapper references |
| LuaSafety.CollectorLeavesReachable | protobuf321/lua/msg.c:81-86 | no collector step changes an object reachable from a wrapper that survives it |
| LuaSafety.CollectorRunsLeaveReachable | protobuf321/lua/msg.c:81-86 | no sequence of dropped references, collections and finalizers changes an object reachable from a wrapper that survives it |
| LuaSafety.AssignedOutlivesItsWrapper | protobuf321/lua/msg.c:64-66 | an assigned object outlives its own wrapper and arena userdata as long as the holder's wrapper lives, and the field still leads to it |
| LuaScenario.LinkedRunExists | protobuf321/lua/msg.c:64-80 | a run exists that links one message to another and then drops, collects and finalizes the other's wrapper and arena userdata: they are gone, and the other message is still allocated and linked |
| LuaSafety.ArenaGcFreesExactly | protobuf321/lua/msg.c:206-210 | finalizing an arena frees an object exactly when no other arena userdata is in its group |
| LuaSafety.NothingLeaks | protobuf321/lua/msg.c:206-210 | in every run, every allocated object lies in the group of an arena userdata that still exists |
| LuaSafety.WrappersAreCanonical | protobuf321/lua/msg.c:132-164 | in every run there is at most one live wrapper per object, a cache hit is a wrapper of exactly that object, and a freed address has neither |
| LuaSafety.FieldReadsBack | protobuf321/lua/msg.c:822-869 | reading a field that was just assigned an object yields the very wrapper assigned and changes nothing |
| LuaSafety.ArrayReadsBack | protobuf321/lua/msg.c:414-449 | reading an array element that was just stored yields the very wrapper stored |
| LuaSafety.MapReadsBack | protobuf321/lua/msg.c:522-571 | reading a map entry that was just stored yields the very wrapper stored |
| LuaAccess.ArrayStoreIsLocal | protobuf321/lua/msg.c:414-449 | an array store is seen at its own index only: all other indices and arrays read as before |
| LuaAccess.MapStoreIsLocal | protobuf321/lua/msg.c:522-571 | a map store or deletion is seen at its own key only |
| LuaReadback.ConversionReadsAs | protobuf321/lua/msg.c:243-336 | for every type and every Lua value, converting and pushing accept and yield what a reference written in Lua values says |
| LuaReadback.FieldReadsAs | protobuf321/lua/msg.c:794-869 | a plain field takes a value exactly when its type does, then reads as the reference says, and is unchanged otherwise |
| LuaReadback.StringFields | protobuf321/lua/msg.c:269-286 | a string or bytes field takes any string and nothing else, and reads it back |
| LuaReadback.BoolFields | protobuf321/lua/msg.c:266-268 | a boolean field takes a boolean and nothing else, and reads it back |
| LuaReadback.DoubleFields | protobuf321/lua/upb.c:208-218 | a double field takes any number and nothing else, and reads a binary64 value back as it is |
| LuaReadback.IntegerFields | protobuf321/lua/upb.c:165-206 | an integer field takes a number exactly when it denotes an integer within the bounds of its own type, and reads as the nearest binary64 value |
| LuaReadback.ArrayStoreExactly | protobuf321/lua/msg.c:414-431 | a plain store succeeds exactly at a whole number from 1 to one past the size and for a value the type takes, changes that element or appends it, and nothing else |
| LuaReadback.ArrayMessageStoreExactly | protobuf321/lua/msg.c:414-431 | the same for a message with the array's definition: it is linked and the two arenas are fused |
| LuaReadback.ArrayReadExactly | protobuf321/lua/msg.c:440-449 | a read succeeds exactly at a whole number from 1 to the size, and yields that element or the wrapper of that message |
| LuaReadback.ArrayReadsAs | protobuf321/lua/msg.c:414-449 | what was stored at a whole number is read there, for every plain element type |
| LuaReadback.NoIndex | protobuf321/lua/msg.c:356-360 | what denotes no whole number is refused as an index and changes nothing |
| LuaReadback.MapDeleteExactly | protobuf321/lua/msg.c:555-562 | a deletion succeeds exactly for a key of the key type, and the key then reads as nil |
| LuaReadback.MapStoreExactly | protobuf321/lua/msg.c:555-571 | a plain store succeeds exactly for a key and a value of the map's types, and the key then reads as that value |
| LuaReadback.MapMessageStoreExactly | protobuf321/lua/msg.c:555-571 | the same for a message with the map's definition: it is linked and the two arenas are fused |
| LuaReadback.OtherKeysStay | protobuf321/lua/msg.c:522-571 | every other key, and every key of every other map, reads as before |
| LuaReadback.MapReadExactly | protobuf321/lua/msg.c:522-534 | a key of another type is refused, and an empty map reads as nil |
| LuaAccess.FieldStoreExactly | protobuf321/lua/msg.c:794-869 | any other field, of the same message or another one, reads after an assignment as before if and only if it is not a set member of the assigned field's oneof, or read as unset already; otherwise it reads as unset |
| LuaAccess.SiblingReadsUnset | protobuf321/php/ext/google/protobuf/php-upb.h:3867-3879 | assigning one field of a oneof makes any other that is set read as unset |
| LuaAccess.OneofAssignmentIsSeenElsewhere | protobuf321/php/ext/google/protobuf/php-upb.h:3758-3766 | of two fields of one oneof the first, assigned 1, reads as 0 again once the second is assigned |
| LuaAccess.PlainFieldReadsBack | protobuf321/lua/msg.c:853-869 | a plain field reads back as the conversion of what was assigned; what does not convert is refused and changes nothing |
| LuaAccess.FloatFieldsReadBack | protobuf321/lua/upb.c:220-226 | what a float field reads as can be stored again unchanged |
| Binary32.NarrowIsNearest | protobuf321/lua/upb.c:220-226 | narrowing gives a binary32 value, and none is nearer |
| Binary32.NarrowTwice | protobuf321/lua/upb.c:220-226 | narrowing a narrowed value changes nothing |
| FloatValues.IsFloatExactly | protobuf321/lua/upb.c:220-226 | narrowing leaves a value alone exactly when it is m * 2^e with m below 2^24 in magnitude and e from -149 to 104 |
| FloatValues.NarrowIsFiniteExactly | protobuf321/lua/upb.c:220-226 | narrowing overflows exactly from 2^128 - 2^103 on, to the infinity of the same sign |
| FloatValues.NarrowTiesToEven | protobuf321/lua/upb.c:220-226 | of two equally near values narrowing takes the even one |
| FloatValues.ExactExactly | protobuf321/lua/upb.c:196-201 | the integers that binary64 holds are those k * 2^e with k below 2^53 in magnitude |
| LuaOperations.NewArrayTakes | protobuf321/lua/msg.c:370-391 | a new array of a plain type is empty, takes as its first element exactly what the type takes, and reads it back |
| LuaOperations.NewClassArrayTakes | protobuf321/lua/msg.c:370-391 | a new array of a message class takes exactly the messages of that class |
| LuaOperations.NewMapTakes | protobuf321/lua/msg.c:491-514 | a new map of plain types reads as nil everywhere, takes exactly what its types take, and reads it back |
| LuaOperations.InitialTableReads | protobuf321/lua/msg.c:370-405 | an array made with a table of values holds those values in order and no more |
| LuaOperations.RefusedEntry | protobuf321/lua/msg.c:370-405 | an initial table with an entry that is refused makes no array |
| LuaOperations.UnsetFieldReads | protobuf321/lua/msg.c:794-812 | a field that is not set reads as its default, a message field as nil |
| LuaOperations.UnsetContainerReads | protobuf321/lua/msg.c:794-812 | a repeated or map field that is not set reads as an empty container of the field's types, and from then on as the same object |
| LuaOperations.ObjectFieldReads | protobuf321/lua/msg.c:691-742 | a field that holds an object reads as the wrapper of that object, or as a new one of the field's kind |
| LuaOperations.NewMessageReads | protobuf321/lua/msg.c:652-664 | in a new message nothing is set |
| LuaOperations.DecodedReads | protobuf321/lua/msg.c:930-952 | a decoded message reads as what the parser put into it; after a failure the program holds what it held before |
| LuaOperations.DecodedObjects | protobuf321/lua/msg.c:930-952 | decoding adds the parser's objects, all in the arena of the new wrapper, and changes no other object |
| LuaOperations.UnknownField | protobuf321/lua/msg.c:630-648 | a name the message does not have is refused |
| LuaOperations.OthersAreRefused | protobuf321/lua/msg.c:243-297 | where a message, an array or a map belongs, no plain value, no class and no object of another kind is stored |
| LuaOperations.RefusedStores | protobuf321/lua/msg.c:822-869 | a refused store changes nothing but the definition wrapper that its check may have made |
| LuaOperations.AssignmentFuses | protobuf321/lua/msg.c:856-869 | an object assignment links the object, fuses the arenas of the two wrappers, and changes no other object, wrapper or arena |
| LuaOperations.LookupFinds | protobuf321/lua/def.c:819-825 | a lookup yields nil for an unknown name, otherwise the wrapper of that definition, held by the program |
| LuaOperations.AddFileAdds | protobuf321/lua/def.c:770-792 | a file adds its definitions and changes no other |
| LuaOperations.CollectableExactly | protobuf321/lua/msg.c:64-80 | the collector may take an object exactly when no chain of strong references leads to it from what the program holds |
| LuaOperations.CollectTakes | protobuf321/lua/msg.c:118-130 | a collection takes the dead wrappers and their weak entries, sets dead userdata with finalizers aside, and leaves the rest |
| LuaOperations.FinalizersRemove | protobuf321/lua/def.c:763-768 | a finalizer removes its userdata and no other |
| LuaOperations.HeldMessageSteps | protobuf321/lua/msg.c:902-906 | reading and assigning fields of a message the program holds are steps of the machine |
| LuaOperations.HeldArraySteps | protobuf321/lua/msg.c:462-467 | so are reading and storing elements of an array it holds |
| LuaOperations.HeldMapSteps | protobuf321/lua/msg.c:609-614 | and entries of a map |
| LuaOperations.HeldClassSteps | protobuf321/lua/msg.c:652-664 | and making messages, arrays and maps of a class |
| LuaAccess.IntegerFieldsExactly | protobuf321/lua/msg.c:246-259 | what an integer field reads as can be stored again as the same integer exactly when binary64 holds it |
| LuaSafety.EveryRunIsTyped | protobuf321/lua/msg.c:88-90 | in every run each object holds only what its definition or element type allows, and each message at most one field of a oneof |
| LuaSafety.IdentityComparesDefinitions | protobuf321/lua/msg.c:287-294 | the identity check on definition slots passes exactly when the definitions are the same |
| LuaSafety.ArrayAcceptsExactly | protobuf321/lua/msg.c:414-431 | an array takes a message exactly at a whole number from 1 to one past its size, and of the array's own definition |
| LuaSafety.FieldAcceptsExactly | protobuf321/lua/msg.c:749-757 | a message field takes a message exactly when it has the field's definition |
| LuaSafety.ContainerAcceptsExactly | protobuf321/lua/msg.c:828-850 | a repeated or map field takes an object exactly when its key, element and message types are the field's |
| LuaSafety.MessageMapsAreStuck | protobuf321/lua/msg.c:476-507 | a message map with an empty definition slot is empty, and every store of a value into it fails and changes nothing |
| LuaSafety.MapAcceptsExactly | protobuf321/lua/msg.c:555-571 | a map of messages takes a message exactly for a key that converts and the definition the map was made for |
| LuaContainers.MapForMessagesNeverAccepts | protobuf321/lua/msg.c:491-514 | a map made with a message class refuses every value and stays empty in every later state in which its wrapper lives |
| LuaContainers.ArrayLinkExactly | protobuf321/lua/msg.c:420-428 | after the link of an array store and before its fuse, links stay inside groups exactly when the two objects share one already |
| LuaContainers.MapLinkExactly | protobuf321/lua/msg.c:563-567 | the same between the link and the fuse of a map store |
| LuaContainers.NewMessageBreaksLinks | protobuf321/lua/msg.c:420-428 | storing a message that was just made into any array or map passes through a state in which a link leaves its group |
| LuaContainers.FirstStoreBreaksLinks | protobuf321/lua/msg.c:370-428 | so does the first store into a new array |
| LuaContainers.ArrayElementOutlivesItsWrapper | protobuf321/lua/msg.c:420-428 | a message stored into an array outlives its own wrapper and arena userdata as long as the array's wrapper lives |
| LuaContainers.MapValueOutlivesItsWrapper | protobuf321/lua/msg.c:563-567 | the same for a message stored into a map |
| LuaRuntime.Binding.PushDefWrapper | protobuf321/lua/def.c:700-732 | the method refines PushWrapper |
| LuaRuntime.Binding.PushSubMsgDef | protobuf321/lua/def.c:56-74 | the method refines PushSub |
| LuaRuntime.Binding.ArenaPushnew | protobuf321/lua/msg.c:182-186 | the method refines PushArena |
| LuaRuntime.Binding.ArenaFuseobjs | protobuf321/lua/msg.c:199-204 | the method refines FuseObjs |
| LuaRuntime.Binding.ArenaGcRun | protobuf321/lua/msg.c:206-210 | the method refines the transition ArenaGc |
| LuaRuntime.Binding.CheckValue | protobuf321/lua/msg.c:243-297 | the method refines ToMsgVal |
| LuaRuntime.Binding.PushMsgVal | protobuf321/lua/msg.c:299-336 | the method refines PushValue |
| LuaRuntime.Binding.ArrayNew | protobuf321/lua/msg.c:370-391 | the method refines the transition NewArray |
| LuaRuntime.Binding.ArrayNewFrom | protobuf321/lua/msg.c:370-405 | the loop over the initial table refines a new array followed by one array store per entry, up to the first that fails |
| LuaRuntime.Binding.ArrayGet | protobuf321/lua/msg.c:440-449 | the method refines the transition ArrayIndex |
| LuaRuntime.Binding.ArraySet | protobuf321/lua/msg.c:414-431 | the method, which links and then fuses, refines the transition ArrayNewindex |
| LuaRuntime.Binding.MapNew | protobuf321/lua/msg.c:491-514 | the method, which writes the class and the arena into the same slot, refines the transition NewMap |
| LuaRuntime.Binding.MapGet | protobuf321/lua/msg.c:522-534 | the method refines the transition MapIndex |
| LuaRuntime.Binding.MapSet | protobuf321/lua/msg.c:555-571 | the method refines the transition MapNewindex, deletion included |
| LuaRuntime.Binding.MsgPushnew | protobuf321/lua/msg.c:652-664 | the method refines the transition NewMessage |
| LuaRuntime.Binding.WrapFieldObject | protobuf321/lua/msg.c:691-742 | the method refines WrapField |
| LuaRuntime.Binding.MsgGet | protobuf321/lua/msg.c:794-812 | the method refines the transition MsgIndex |
| LuaRuntime.Binding.MsgSet | protobuf321/lua/msg.c:822-869 | the method, which fuses and then links, refines the transition MsgNewindex |
| LuaRuntime.Binding.Decode | protobuf321/lua/msg.c:930-952 | the method refines the transition Decode |
| LuaRuntime.Binding.DefPoolNew | protobuf321/lua/def.c:739-742 | the method makes a pool with an empty weak table |
| LuaRuntime.Binding.FindMessageByName | protobuf321/lua/def.c:819-825 | the method refines the transition LookupMsg |
| LuaRuntime.Binding.PoolGcRun | protobuf321/lua/def.c:763-768 | the method refines the transition PoolGc |
| LuaRuntime.Binding.Perform | protobuf321/lua/msg.c:902-906 | every step of the machine is what its method does |
| LuaRuntime.Binding.Run | protobuf321/lua/msg.c:81-90 | so a whole run leaves the binding in the state the run of the machine leads to |
| NumberChecks.RoundIsNearest | protobuf321/lua/upb.c:165-190 | conversion to binary64 yields an exactly held integer, and none is nearer |
| NumberChecks.RoundFixesExactly | protobuf321/lua/upb.c:191-196 | conversion leaves an integer unchanged exactly when binary64 holds it |
| NumberChecks.BoundIsMaxPlusOne | protobuf321/lua/upb.c:180-189 | the rounded bound is max + 1 for all four integer types |
| NumberChecks.CheckIntExact | protobuf321/lua/upb.c:165-195 | a Lua number is accepted exactly when it is integral and in range, and that integer is returned |
| NumberChecks.CheckAfterPush | protobuf321/lua/upb.c:196-206 | checking a pushed integer gives it back exactly when binary64 holds it, always so for 32 bits |
| NumberChecks.LossyPush | protobuf321/lua/upb.c:196-201 | a pushed INT64_MAX is refused and a pushed 2^53 + 1 comes back as 2^53 |
| TestNames.JoinSplit | protobuf321/conformance/failure_list_trie_node.cc:45-52 | joining the sections of a name with dots gives back the name |
| TestNames.SplitJoin | protobuf321/conformance/failure_list_trie_node.cc:94-97 | splitting joined sections without dots gives back the sections |
| FailureTries.InsertHas | protobuf321/conformance/failure_list_trie_node.cc:45-73 | insertion adds exactly the inserted name to the names in the trie |
| FailureTries.InsertKeepsDistinct | protobuf321/conformance/failure_list_trie_node.cc:53-67 | insertion keeps sibling labels distinct everywhere |
| FailureTries.InsertOffPath | protobuf321/conformance/failure_list_trie_node.cc:45-73 | a node whose path does not lead along the inserted name is unchanged |
| FailureTries.WalkAnswers | protobuf321/conformance/failure_list_trie_node.cc:75-103 | the backtracking search returns a name of the trie that matches, and finds one whenever there is one |
| TestNames.StarFitsAll | protobuf321/conformance/failure_list_trie_node.cc:83-85 | a section that is no bad wildcard fits every section exactly when a `*` stands in it |
| TestNames.PlainSectionsFit | protobuf321/conformance/failure_list_trie_node.cc:83-85 | sections without a `*` fit exactly when they are the same |
| TestNames.BadWildcardExactly | protobuf321/conformance/failure_list_trie_node.cc:33-34 | a bad wildcard is a section that holds a `*` and something else |
| FailureTries.InsertAnswers | protobuf321/conformance/failure_list_trie_node.cc:24-43 | an insertion answers that the name exists exactly when a listed name matches, refuses it exactly when none does and a section holds a `*` beside another character, and otherwise adds exactly the name |
| FailureTries.AcceptedIsFound | protobuf321/conformance/failure_list_trie_node.cc:75-103 | an accepted name is found by every query that agrees with it wherever it has no `*` |
| FailureTries.ListedNameIsFound | protobuf321/conformance/failure_list_trie_node.cc:75-103 | a listed name with a `*` in the middle is found by a test that differs there |
| FailureTries.InsertRefinesFlat | protobuf321/conformance/failure_list_trie_node.cc:24-43 | Insert answers and changes what a flat set of patterns does; a refused insertion changes nothing |
| FailureTries.AnySequenceOfInserts | protobuf321/conformance/failure_list_trie_node.cc:24-43 | after any insertions the trie holds the flat set's names and no two of them overlap |
| FailureTrieOrder.AnswerDependsOnNamesExactly | protobuf321/conformance/failure_list_trie_node.cc:75-103 | the answer to a query depends on the set of accepted names alone exactly when the query has no wildcard |
| FailureTrieOrder.OrderShowsExactly | protobuf321/conformance/failure_list_trie_node.cc:75-103 | for one set of accepted names the order of insertion cannot show in the answer exactly when at most one of them matches the query |
| FailureTrieOrder.AnyOrderIsAccepted | protobuf321/conformance/failure_list_trie_node.cc:24-43 | patterns that do not overlap are all accepted in whatever order they come |
| FailureTries.AnswerDependsOnNamesOnly | protobuf321/conformance/failure_list_trie_node.cc:75-103 | the answer to a query without wildcards depends only on the set of accepted names |
| FailureTries.AnswerIsInserted | protobuf321/conformance/failure_list_trie_node.cc:94-97 | the returned string is an inserted name that matches the query |
| FailureTries.WildcardAnswerDependsOnOrder | protobuf321/conformance/failure_list_trie_node.cc:84-85 | with a wildcard query two orders of insertion give different answers |
| FailureListTrieNodes.FailureListTrieNode.InsertImpl | protobuf321/conformance/failure_list_trie_node.cc:45-73 | the method on mutable nodes refines FailureTries.Insert |
| FailureListTrieNodes.FailureListTrieNode.WalkDownMatch | protobuf321/conformance/failure_list_trie_node.cc:75-103 | the method returns the joined answer of FailureTries.Walk |
| FailureListTrieNodes.FailureListTrieNode.Insert | protobuf321/conformance/failure_list_trie_node.cc:24-43 | the method refines FailureTries.InsertName |
| PipeProtocol.StepInv | protobuf321/conformance/fork_pipe_runner.cc:69-118 | every step of tester, testee or crash keeps the protocol invariant |
| PipeProtocol.AnswersMatchRequests | protobuf321/conformance/fork_pipe_runner.cc:69-118 | in every run the k-th response is the testee's answer to the k-th request, and between tests both pipes are empty |
| PipeProtocol.TesteeServesCurrentRequest | protobuf321/conformance/conformance_cpp.cc:215-232 | in every run, a child, respawned or not, only ever computes the answer to the current request |
| PipeProtocol.NeverBothBlocked | protobuf321/conformance/fork_pipe_runner.cc:195-247 | when the tester waits on an empty pipe, the testee does not |
| PipeProtocol.AlwaysProgress | protobuf321/conformance/fork_pipe_runner.cc:195-240 | until all tests have results or the tester gives up, some step other than a crash or timeout is possible |
| PipeProtocol.EveryRunCanGoOn | protobuf321/conformance/conformance_test_runner.cc:25-31 | no run gets stuck: the two sides never both read empty pipes, and an unfinished run has a next step |
| PipeProtocol.CleanRuns | protobuf321/conformance/fork_pipe_runner.cc:69-118 | without crashes, timeouts and refusals every result is a response and the tester never gives up |
| PipeOutcomes.GivesUpExactly | protobuf321/conformance/fork_pipe_runner.cc:69-118 | the tester gives up exactly when it writes bytes to a child that is gone, or when a read fails while the body is awaited |
| PipeOutcomes.CrashIsRecorded | protobuf321/conformance/fork_pipe_runner.cc:82-111 | a failed read while the length is awaited is recorded as a crash and forgets the child |
| PipeOutcomes.NewChildIsFresh | protobuf321/conformance/fork_pipe_runner.cc:69-80 | a test that finds no child starts one on empty pipes |
| PipeOutcomes.FrameBytes | protobuf321/conformance/fork_pipe_runner.cc:76-80 | a message on the pipe begins with its length in four bytes, the least significant first |
| PipeOutcomes.FaultsAnywhere | protobuf321/conformance/fork_pipe_runner.cc:195-240 | a child can exit and a read can be late at any time, and an exit leaves what was written |
| PipeOutcomes.ReadsAnyPart | protobuf321/conformance/fork_pipe_runner.cc:195-247 | a read may deliver any part of what is there and wanted |
| PipeOutcomes.TestsEndAsExpected | protobuf321/conformance/fork_pipe_runner.cc:69-118 | in every run, a test whose request was written and that does not time out ends as the child's reply decides: response, crash or the end of the tester |
| PipeOutcomes.RecoveryRunExists | protobuf321/conformance/fork_pipe_runner.cc:69-118 | a run exists in which a crash is followed by a response from a new child |
| PipeTermination.EveryRunEnds | protobuf321/conformance/fork_pipe_runner.cc:195-240 | every run, also one in which the tester gives up, takes at most 18 steps per test and one for each byte of request and response |
| ForkPipeRunner.Pipe.ReadFd | protobuf321/conformance/conformance_cpp.cc:60-76 | however reads are split, the loop ends with the first bytes asked for, and fails exactly when the stream is shorter |
| ForkPipeRunner.Pipe.TryRead | protobuf321/conformance/fork_pipe_runner.cc:195-240 | success means exactly the first bytes asked for; failure means a shorter stream or a late read, after which bytes are drained up to the limit or to the end, besides those the late read still takes |
| ForkPipeRunner.Pipe.Drain | protobuf321/conformance/fork_pipe_runner.cc:210-217 | takes bytes up to the limit, and stops short of it only at the end of the stream |
| ForkPipeRunner.ServeConformanceRequest | protobuf321/conformance/conformance_cpp.cc:215-250 | consumes exactly one frame and writes exactly the frame of the answer, or fails without writing |
| ForkPipeRunner.Runner.SpawnTestProgram | protobuf321/conformance/fork_pipe_runner.cc:138-158 | a new child gets new, empty pipes |
| ForkPipeRunner.Runner.RunTest | protobuf321/conformance/fork_pipe_runner.cc:69-118 | a response is the testee's answer and leaves both pipes empty; with punctual reads the outcome is decided by where the child's reply breaks off; a new child is spawned exactly when there is none |
| Varints.VEncode64 | protobuf321/conformance/binary_wireformat.cc:20-38 | fills the buffer with the encoding, and its assertion holds exactly for what ten bytes can take |
| Varints.VarintRoundTrip | protobuf321/conformance/binary_wireformat.cc:56-68 | decoding an encoding followed by any bytes gives the value and those bytes |
| Varints.VarintLength | protobuf321/conformance/binary_wireformat.cc:62-68 | a value other than zero takes exactly the extra bytes more; zero always takes one |
| Varints.PrefixFree | protobuf321/conformance/binary_wireformat.cc:56-68 | no encoding is a proper prefix of another |
| WireFormat.TagExact | protobuf321/conformance/binary_wireformat.cc:86-88 | a tag carries its wire type, and its field number exactly up to 29 bits |
| WireFormat.KnownFields | protobuf321/conformance/binary_wireformat.h:214-264 | the helpers produce the bytes of known examples |
| WireFormat.TwoBytes | protobuf321/conformance/binary_wireformat.cc:40-52 | fixed-width values are written with the least significant byte first |
| WireFormat.FieldRoundTrip | protobuf321/conformance/binary_wireformat.h:214-264 | a built field in front of any bytes is read back, whatever group is open |
| WireFormat.TreeRoundTrip | protobuf321/conformance/binary_wireformat.h:214-264 | any tree of fields and nested groups is read back as that tree |
| WireFormat.BuildDeterminesTree | protobuf321/conformance/binary_wireformat.h:219-222 | two trees read the same exactly when they differ at most in over-long varints, and have the same bytes exactly when they differ at most in lengthened zeros |
| WireFormat.EndGroupMustMatch | protobuf321/conformance/binary_wireformat.h:261-264 | the end-group tag of one field number never closes a group of another |
| WireFormat.PackedImpl | protobuf321/conformance/binary_wireformat.h:169-176 | writes the element count and the elements in order |
| WireFormat.PackedReadsBackExactly | protobuf321/conformance/binary_wireformat.h:169-176 | a packed field is read back exactly when every element takes one byte |
| WireFormat.LengthReadsExactly | protobuf321/conformance/binary_wireformat.cc:82-84 | a prefix yields the payload after it exactly when it is the payload's length |
| Dependencies.Collector.Collect | protobuf321/benchmarks/benchmark.cc:43-52 | appends distinct files reachable from the argument, each after its dependencies unless they lie on a cycle, and ends on every graph |
| Dependencies.CollectAll | protobuf321/benchmarks/benchmark.cc:204-208 | outputs exactly the reachable files, each once, in the order of a depth-first search, which is a dependency order exactly when nothing reachable is on a cycle |
| Dependencies.OrderIffAcyclic | protobuf321/benchmarks/benchmark.cc:43-52 | the output is in dependency order exactly when no reachable file depends on itself |
| BalancedFuse.FuseBalanced | protobuf321/benchmarks/benchmark.cc:95-107 | ends with one group after exactly k - 1 fuses, each of a full block with a different, nonempty one that is at most as large |
| BalancedFuse.FuseRound | protobuf321/benchmarks/benchmark.cc:104-106 | one round turns blocks of the step's size into blocks of twice that size |
| BalancedFuse.StepIsBalanced | protobuf321/benchmarks/benchmark.cc:102-105 | in round r the left group has 2^r members and the right one between 1 and 2^r |
| BalancedFuse.FuseCount | protobuf321/benchmarks/benchmark.cc:105 | joining two different groups leaves one group fewer |
| BalancedFuse.CeilLog2Covers | protobuf321/benchmarks/benchmark.cc:101 | the number of rounds is the least whose block covers all arenas |
| LuaPrinter.LiteralReadsBack | protobuf321/lua/upbc.cc:58-82 | a printed literal ends at its own closing quote and reads back as the bytes, for all bytes |
| LuaPrinter.ByteForms | protobuf321/lua/upbc.cc:62-78 | printable ASCII stands for itself but for the backslash and the quote, which get a backslash; any other byte is `\x` and two upper-case digits |
| LuaPrinter.TableReadsBack | protobuf321/lua/upbc.cc:104-111 | the printed lines read back as the concatenated chunks |
| LuaPrinter.Printer.PrintHexDigit | protobuf321/lua/upbc.cc:43-51 | writes the upper-case hexadecimal digit |
| LuaPrinter.Printer.PrintString | protobuf321/lua/upbc.cc:58-82 | writes one literal for a prefix of the view, ending with the byte that uses up the columns or with the view, at least a quarter of the columns long unless the view ends, at most twice the columns plus two wide |
| LuaPrinter.Printer.PrintTable | protobuf321/lua/upbc.cc:106-110 | what is written reads back as the data, in at most one chunk per 18 bytes, none over 146 characters |
| FailureListUpdate.MergeLines | protobuf321/conformance/update_failure_list.py:56-70 | the loops write what Merge says |
| FailureListUpdate.AddedGoesBefore | protobuf321/conformance/update_failure_list.py:60-66 | the next added line goes in front of the first line whose test is greater and behind all lines before that, removed or kept |
| FailureListUpdate.UpdateLines | protobuf321/conformance/update_failure_list.py:49-70 | merges after giving the last line one newline, and fails exactly on an empty list |
| FailureListUpdate.CommentsStayExactly | protobuf321/conformance/update_failure_list.py:42-67 | the comments and blank lines of the list all stay, exactly when no removal line is a comment or blank, or all go |
| FailureListUpdate.EmptyRemovalDropsComment | protobuf321/conformance/update_failure_list.py:42-67 | an empty removal line drops a comment |
| FailureListUpdate.CollectRemovals | protobuf321/conformance/update_failure_list.py:42-48 | fails exactly when a line is both added and removed; otherwise yields exactly the names of the removal lines |
| FailureListUpdate.KeptExactly | protobuf321/conformance/update_failure_list.py:48-67 | a line of the list is kept exactly when no removal line names the same test |
| FailureListUpdate.UpdateList | protobuf321/conformance/update_failure_list.py:33-70 | the merged file has exactly the added lines and the lines of the list that no removal line names |
| FailureListUpdate.MergeInterleaves | protobuf321/conformance/update_failure_list.py:56-70 | the result is the kept lines in order interleaved with every added line in order, and nothing else |
| FailureListOrder.RawOrderIsNameOrder | protobuf321/conformance/update_failure_list.py:60-61 | lines in raw order have their names in order |
| FailureListOrder.MergeAscendsExactly | protobuf321/conformance/update_failure_list.py:56-70 | a merge of sorted lines into tests that ascend leaves tests that ascend exactly when the added lines, compared as the loop compares them, are ordered like the tests they name |
| FailureListOrder.IndentedFitExactly | protobuf321/conformance/update_failure_list.py:56-70 | for names of characters above the comment sign this holds exactly when every added line that begins with a blank names no greater test than the kept lines and the added lines after it |
| FailureListOrder.TrimKeepsName | protobuf321/conformance/update_failure_list.py:53-55 | trimming the last line does not change the test it names |
| FailureListOrder.UpdateKeepsOrder | protobuf321/conformance/update_failure_list.py:49-70 | after the whole update the lines are the kept old ones and each added line once, and the tests ascend exactly when the orders agree |
| FailureListOrder.PlainLinesFit | protobuf321/conformance/update_failure_list.py:56-70 | the condition for such names holds whenever every added line begins with its name |
| FailureListOrder.IndentedBreaksOrder | protobuf321/conformance/update_failure_list.py:57-61 | an added line with a leading blank breaks the order of any one smaller test |
| FailureListOrder.LeadingBlankBreaksOrder | protobuf321/conformance/update_failure_list.py:57-61 | one concrete input on which the order breaks |
| LineText.SpacesAre | protobuf321/conformance/conformance_test_runner.cc:74-76 | a blank is a space or one of five control characters |
| FailureListAlignment.SplitIsText | protobuf321/conformance/update_failure_list.py:79 | splitting a text keeps every character and yields lines |
| FailureListAlignment.SplitText | protobuf321/conformance/update_failure_list.py:79 | lines put together split into the same lines |
| FailureListAlignment.AlignMessages | protobuf321/conformance/update_failure_list.py:78-88 | the loop writes Align of the text |
| FailureListAlignment.ParseFailureList | protobuf321/conformance/conformance_test_runner.cc:70-99 | the loop appends exactly the tests of Parse |
| FailureListRoundTrip.AlignKeepsTest | protobuf321/conformance/update_failure_list.py:80-86 | an aligned line lists the same test and message |
| FailureListRoundTrip.OthersAreCopied | protobuf321/conformance/update_failure_list.py:87-88 | a line without a comment sign, or with only blanks before it, is copied |
| FailureListRoundTrip.MessagesLineUp | protobuf321/conformance/update_failure_list.py:76-85 | the line is the test, spaces up to one column after the alignment or after a longer test, the comment sign, a space and the message |
| FailureListRoundTrip.AlignLineTwice | protobuf321/conformance/update_failure_list.py:80-86 | an aligned line is not changed again |
| FailureListRoundTrip.AlignLineShape | protobuf321/conformance/update_failure_list.py:83-86 | a line loses its newline exactly when its message is blank |
| FailureListRoundTrip.OutputSplits | protobuf321/conformance/update_failure_list.py:78-88 | the output splits into the aligned lines, each line with a blank message joined to the next |
| FailureListRoundTrip.AlignKeepsTests | protobuf321/conformance/update_failure_list.py:78-88 | the reader finds the same tests before and after alignment exactly when each blank message is on the last line or before a blank line |
| FailureListRoundTrip.AlignTwice | protobuf321/conformance/update_failure_list.py:78-88 | a second alignment changes nothing exactly when no line beginning with a blank is joined directly to a blank message |
| FailureListRoundTrip.WithMessages | protobuf321/conformance/update_failure_list.py:78-88 | for messages that are not blank, or none, alignment is idempotent and keeps what the reader reads |
| FailureListRoundTrip.BlankMessageSwallowsTest | protobuf321/conformance/update_failure_list.py:83-86 | a test with a blank message before another test: the reader no longer finds the same tests |
| FailureListRoundTrip.BlankMessageUnsettled | protobuf321/conformance/update_failure_list.py:83-86 | a blank message before an empty line: the second pass changes the file again |
| FailureListLoss.PiecesSurvive | protobuf321/conformance/update_failure_list.py:66-88 | a text put together from lines, some without a newline, lists their tests after the alignment exactly when those join well with what follows and each blank message stands last or before a blank line |
| FailureListLoss.EndedFits | protobuf321/conformance/update_failure_list.py:57-59 | with a newline on every line the first of those conditions always holds |
| FailureListLoss.JoinLoses | protobuf321/conformance/conformance_test_runner.cc:70-99 | two lines put together never list more than apart, and lose a test or lengthen a message unless they list the same |
| FailureListLoss.AlignmentLoses | protobuf321/conformance/update_failure_list.py:78-88 | wherever a blank message stands before a line that is not blank, the alignment loses a test or lengthens a message |
| FailureListScript.RunnerReadsKeptAndAdded | protobuf321/conformance/update_failure_list.py:49-88 | after both passes the test runner reads exactly the tests of the kept and of the added lines, with their messages, if and only if those two conditions hold |
| FailureListScript.UnendedLineRunsOn | protobuf321/conformance/update_failure_list.py:64-65 | an added test without a newline that is written before another test runs into it |
| FailureListScript.OutputAscends | protobuf321/conformance/update_failure_list.py:78-88 | the alignment never takes tests out of order, even where it loses some |
| FailureListScript.RunnerReadsInOrder | protobuf321/conformance/update_failure_list.py:49-88 | when every line joins well, the runner reads the tests in ascending order whenever the orders agree, and only then if it reads them all |
| FailureListScript.TestsAscendExactly | protobuf321/conformance/conformance_test_runner.cc:70-99 | the tests read from lines ascend exactly when the names of the lines do |
| FailureListScript.LinesList | protobuf321/conformance/conformance_test_runner.cc:70-99 | a name with blanks around it and a stripped message is listed as that test, a name alone without a message, and a comment or a blank line as nothing |

## Left out

- `fork`, `exec`, `waitpid`, timers, files, standard input and output: only byte queues, an abstract crash or timeout step, and texts in and out are modelled. Pipes are unbounded and payloads are below 2^32 bytes.
- The texts of the crash report in `RunTest`: a failed test is one outcome, and the report's bytes are not modelled.
- Pipe descriptors of an earlier child stay open in the source when a new one is spawned; the model simply has new pipes.
- upb, Lua and protobuf library bodies: decoding and JSON parsing are "a parser builds typed objects in its own arena and may fail", the field setters and getters are map updates and lookups. Presence bits of fields outside a oneof and extensions are not modelled.
- Encoding to bytes, JSON or text, `tostring`, lengths and the map iterator: they read the graph and add only easy members. The initial-value table of a message constructor is a sequence of the modelled assignments.
- The Lua stack: the model has the effect on wrappers, slots, caches and what the program holds.
- Storage of string data, copied or referenced: a string is a value.
- Signed zeros and NaN payloads: a finite floating-point value is the real number it denotes, so two map keys 0.0 and -0.0 are one.
- The pool's own entry in its weak table, and wrappers of enums, fields, oneofs, services and files: only message definitions take part in typing. Definitions of a freed pool are never used again, and pool numbers are not reused.
- Races between threads on fused arenas: the operations of `ArenaForest` run one at a time, so no compare-and-swap fails, no loop is retried and no count is corrected afterwards. Blocks inside an arena, cleanup functions, references taken with `upb_Arena_IncRefFor` and the width of a count are not modelled either.
- Allocation failures, `lua_close`, finalizers that resurrect objects: outside a normal run.
- Arrays with 2^32 elements or more, whose size the index check would truncate.
- LuaInvariant.DecodeInv: the parser's output is only assumed to be typed and closed; how it is built is upb's matter.
- ForkPipeRunner.Runner.RunTest: the testee runs while the tester waits; all other interleavings are in PipeProtocol. The status that `waitpid` reports is not modelled.
- BalancedFuse.FuseBalanced: arenas are named by their index in the vector, and the ceiling of the logarithm is exact, which the source computes in binary64.
- FailureListScript.RunnerReadsInOrder: asks for names without blanks inside, which the parser would remove.
- FailureListAlignment.SplitIsText: lines end at newlines only, while Python also splits at other separators; blanks are those of C's `isspace`.
- Python's removal of duplicates and descending sort of added lines: the sorted list is the input.
- Zig-zag, float and double helpers of the wire format builder: a re-encoding in front of the modelled varints and fixed widths.
- FailureListTrieNodes.FailureListTrieNode.constructor: the source leaves the flag of a root unset; it is never read, and the model gives it as an argument.
- The conformance suites, harnesses in other languages, `hpb`, `objectivec`, generator plumbing, descriptor loading benchmarks and the test manager around the trie: finite tables or plumbing.
