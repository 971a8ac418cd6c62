# SmartSNMP: a model of the agent and proofs about it

SmartSNMP is an SNMP agent. It keeps a tree of registered OIDs whose leaves call Lua handlers, lets communities and
users see parts of the tree through views, answers GET, GETNEXT, GETBULK and SET, and speaks BER to managers and
AgentX to a master agent. This project models those layers in Dafny and proves what they are for.

* **MIB tree** (`Oids`, `MibTable`, `NextSearch`, `MibTree`, `TreeSearch`, `TableEdit`, `TreeUpdate`, `SubtreeOrder`,
  `TreeDelete`, `EditHistory`, `TreeRun`). Nodes are objects with sorted arrays of sub-ids and child pointers that are
  grown, shifted and shrunk in place. A ghost table from paths to nodes says what the tree holds. Handlers are finite
  lists of named values in increasing order of their non-empty suffixes.
* **Views and dispatch** (`Views`, `ViewRun`, `Dispatch`, `BulkWalk`). Read and write lists of a community, prefix-free
  and as sorted as the agent's comparison allows, and the request loops that rely on that.
* **Lua group index** (`GroupIndex`, `GroupServe`, `GroupTable`). How a group of scalars and tables is laid out as
  ordered blocks, the successor search in them, and the retries after variables that cannot be read. It discharges
  what the tree search assumes of a handler.
* **Wire formats** (`Asn1`, `Ber`, `BerOid`, `BerValue`, `Parsing`, `Message`, `MessageIn`, `MessageOut`, `AgentX`,
  `AgentXOut`, `AgentXSearch`, `Samples`). Each format is stated once by structure; the byte loops and the two-pass
  writers are proved to produce it and the decoders to undo it. `Samples` has whole messages octet by octet.
* **End to end** (`Agent`). The octets of a GET, GETNEXT or GETBULK in, the octets of its response out.

`dafny verify dfyconfig.toml` checks the whole project.

## Where the code differs from what it promises

* `oid_cmp` orders two OIDs correctly exactly when, at the first place where they differ, the sub-id of the first minus
  that of the second is at least -2^31 and below 2^31 (`Oids.CmpMeaning`, `Oids.CmpWrapsExample`). Below, OIDs compare
  soundly when that holds.
* A GETNEXT from before a view skips a variable whose full name is the view's own OID (`NextSearch.ViewIsVariable`). A
  request whose sub-ids are 2^31 or more away from the view's is answered as if it lay on the other side, so GETNEXT
  can go backwards (`NextSearch.WrappedRequest`). For every 32-bit request, `NextSearch.AnswerIsNext` and
  `Dispatch.AnswerIsNextIn` say exactly when the answer is the one RFC 3416 asks for.
* GET and SET find the view that covers a request exactly when the request compares as smaller than no view before it
  (`Dispatch.Get`, `Dispatch.Set`, `Dispatch.Reaches`). That is so over lists that are sorted and whose OIDs compare
  soundly (`Dispatch.OrderlyReaches`); being sorted is not enough, and GETNEXT can go backwards there too
  (`Dispatch.SortedIsNotEnough`).
* A GET that has no value reports what the search of the last view said, even if an earlier view covers the request: a
  row missing below one view is reported as a missing object (`Dispatch.ReportOverwritten`). The report is the one RFC
  3416 asks for exactly when the request is not at an instance the caller can see, or the last view of the list covers
  it and no view before ends the search (`Dispatch.ReportMeaning`). A handler's refusal of a SET is reported as such
  exactly in the second case (`Dispatch.RefusalReported`).
* A walk leaves out variables whose full name is a view's OID; it lists every variable RFC 3416 asks for exactly when
  there are none after its start (`BulkWalk.WalkIsComplete`).
* A list of views stays sorted exactly when every comparison made while inserting is sound (`Views.AddSorted`,
  `Views.Misplaced`).
* Taking only write access from a community that can still read never ends (`Views.UnregisterEnds`).
* After a table variable that cannot be read, GETNEXT in a Lua group goes on at row 0 of the next column. It returns the
  next readable variable for every request exactly when nothing readable lies in between (`GroupServe.ServesReadable`,
  `GroupServe.RowZeroIsSkipped`); hiding whole columns of tables without a row 0 is enough (`GroupServe.HiddenColumns`).
* GET in a Lua group does not look the row up in the index: it agrees with GETNEXT exactly when no variable gives a
  value for a row that is not there (`GroupServe.GetMeetsContract`).
* A counter is encoded as a signed integer: whoever reads it as that integer gets its value exactly when it is below
  2^31 (`BerValue.CounterRead`, `BerValue.CounterMisread`). The agent's own decoder reads it back modulo 2^32.
* A GETBULK response carries the request's count of non-repeaters as its error status (`Agent.ServeBulk`).
* An OID comes back from BER exactly when it is empty or its first two sub-ids fit the first octet
  (`BerOid.OidRoundTrip`, `BerOid.NotEncodable`); its size is predicted right exactly when it is below 256 octets
  (`BerOid.OidEncTry`, `BerOid.LongOid`).
* An integer of a response is readable exactly when the size taken over from the request is the size of the value
  (`MessageIn.FieldComesBack`); after a GETBULK with 128 or more repetitions it is not (`MessageIn.BulkIndexMisfit`).
* An OID comes back from AgentX exactly when it is empty or starts with 1.3.6.1 and a fifth sub-id below 256 that is
  not a trailing 0 (`AgentX.ObjectBack`, `AgentX.NotCarried`).
* In an AgentX PDU of network byte order only the header, the context, the fixed fields and the tags are converted.
  With OIDs that are carried, such a PDU is read as it was meant exactly when the sub-ids and numbers in it are the same
  in both byte orders and its texts are empty (`AgentX.PduBack`, `AgentX.NetworkMisread`). A response copies the flag and
  is written in the byte order of the machine all the same (`AgentX.HeaderCopied`).
* A search range without an end is treated as empty, and starts and ends that do not compare soundly are taken for
  ones on the other side. `AgentXSearch.RangeIsRight` says exactly when the answer is the one section 5.2 of RFC 2741
  asks for; `AgentXSearch.NullEndFails`, `AgentXSearch.WrappedStartFails` and `AgentXSearch.WrappedEndFails` are ranges
  where it is not.

## Model

| member | source | states |
|---|---|---|
| `Oids.OidCmp` | core/mib_tree.c:54-69 | the loop returns the wrapped 32-bit difference at the first place where the OIDs part, else of the lengths |
| `Oids.CmpMeaning` | core/mib_tree.c:54-69 | zero means equal; the sign is the lexicographic order if and only if the difference of the deciding sub-ids fits a signed 32-bit integer |
| `Oids.CmpWrapsExample` | core/mib_tree.c:54-69 | two OIDs that the comparison orders the wrong way round |
| `Oids.OidCover` | core/mib_tree.c:83-95 | which of two OIDs is a prefix of the other, or neither |
| `MibTree.BinarySearch` | core/mib_tree.c:97-117 | the index of the sub-id, or minus one minus the place where it belongs |
| `MibTree.Tree.Search` | core/mib_tree.c:257-329 | GET finds exactly the variables of the table under the view with their values, and without one says whether the name lies below an instance; a SET calls one handler, for the exact name, or none, and says why nothing was stored |
| `NextSearch.AnswerIsNext` | core/mib_tree.c:356-550 | for every 32-bit request: the search result is the least variable under the view after the request if and only if, the comparison being sound, the view is not itself a variable lying ahead, or, the comparison wrapping around, there is nothing to answer |
| `NextSearch.WrappedRequest` | core/mib_tree.c:364-420 | a view and a request past it for which the search goes back to a smaller OID |
| `NextSearch.ViewIsVariable` | core/mib_tree.c:356-550 | a well-formed tree, view and request where the search misses the variable named like the view |
| `TreeSearch.StartNext` | core/mib_tree.c:364-420 | the start of the traversal: where the request lies relative to the view decides the mode, the bound and the node; a view missing from the tree leaves nothing to search |
| `TreeSearch.Ask` | core/mib_tree.c:437-478 | asking one instance gives the least variable of its handler above the bound, or proves the instance used up |
| `TreeSearch.Backtrack` | core/mib_tree.c:517-534 | popping the backlog moves to the next sibling of the deepest open group, with nothing wanted skipped |
| `TreeSearch.SearchNext` | core/mib_tree.c:356-550 | for every valid tree, view and request: the answer is exact, carries the variable's value, restores the request at the end of the view, and the traversal asks each instance's handler at most once |
| `MibTree.Tree.PushLands` | core/mib_tree.c:331-354 | below any group of a valid tree a push onto the backlog of 64 entries is never dropped |
| `TreeSearch.Descend` | core/mib_tree.c:427-453 | the search puts the group aside and moves down with the cursor at the depth of the node; the backlog has grown by the entry and holds at most 64 |
| `TreeDelete.GoDown` | core/mib_tree.c:752-783 | the same for the deletion |
| `MibTree.GroupMaxIsExact` | core/util.h:28 | of the capacities a group goes through, exactly those below 47421 can still grow within the 16-bit field |
| `TreeUpdate.Expand` | core/mib_tree.c:568-606 | opens a gap at the index, in place or in larger arrays, every other entry kept in order |
| `TreeUpdate.Shrink` | core/mib_tree.c:608-625 | closes the gap; a group left empty has a zero id and a null pointer in its first slot |
| `TreeUpdate.Register` | core/mib_tree.c:822-883 | succeeds if and only if the OID is non-empty, at most 64 long, not a node and not below an instance; then the table is the old one with exactly that path grafted, else nothing changes; the tree stays valid |
| `TableEdit.RegisterRefinesMap` | core/mib_tree.c:822-883 | registering adds exactly one binding to the map from OIDs to callbacks and keeps the tree well-formed |
| `TreeDelete.FindNode` | core/mib_tree.c:674-726 | finds the node an OID names, or the instance one sub-id above it, with its parent and its place there |
| `TreeDelete.TearDown` | core/mib_tree.c:728-804 | terminates, releases every node of the subtree exactly once and only after its children, and unrefs each callback in it once |
| `TreeDelete.Unregister` | core/mib_tree.c:806-816 | what is released is exactly the set of nodes that leave the table; the rest of the tree is valid and unchanged but for the parent's slot |
| `TableEdit.UnregisterRefinesMap` | core/mib_tree.c:674-816 | exactly the bindings with the OID as prefix go; the root is never removed |
| `TableEdit.EditOk` | core/mib_tree.c:822-927 | exactly what a call does: an accepted registration adds the groups above its OID and one callback; a removal takes the groups at and below its OID, the callbacks there, and the callback one sub-id above; nothing else changes, and the table stays well-formed |
| `TableEdit.RunServesRegistered` | core/mib_tree.c:887-927 | over any run of calls a callback is served only under an OID it was registered for |
| `EditHistory.RunIs` | core/mib_tree.c:806-927 | after any run of calls a callback is served under an OID if and only if a registration of it there was accepted and no later removal named a node at or above it, or the OID followed by one sub-id; the same for groups |
| `EditHistory.AcceptedIsFree` | core/mib_tree.c:822-883 | by the calls before it, a registration is accepted exactly when its OID has 1 to 64 sub-ids, is no node and lies below no instance |
| `TreeRun.EditNarrow` | core/mib_tree.c:561-606 | one call adds at most one child to any group |
| `TreeRun.Replay` | core/mib_tree.c:806-927 | any run of register and unregister calls on a new tree in memory, of any length, keeps it valid; afterwards it serves a callback under an OID if and only if a registration of it there was accepted and no later removal reached it, and has exactly the groups the calls account for, as long as no group receives a 47422nd child |
| `TreeRun.ShortRunsAreRoomy` | core/mib_tree.c:568-606 | no run of up to 47421 calls can make a group outgrow its capacity |
| `Views.Filter` | core/mib_view.c:85-103 | reports whether a view covers the OID; then it deletes nothing, else it keeps exactly the views the OID does not cover |
| `Views.AddSorted` | core/mib_view.c:105-127 | the view is inserted and the list stays prefix-free; it stays sorted if and only if every comparison the loop makes is sound |
| `Views.Misplaced` | core/mib_view.c:105-127 | a list and a view where it does not |
| `Views.Registry.ViewCreate` | core/mib_view.c:47-64 | one view object per OID |
| `Views.Registry.Bind` | core/mib_view.c:142-164 | the covered set becomes exactly the old one plus the new subtree |
| `Views.Registry.Register` | core/mib_view.c:166-181 | read and write coverage of the name grow by exactly the subtree granted, other names are untouched, all lists stay prefix-free, and sorted as long as the OIDs of all views compare soundly |
| `Views.Registry.Strip` | core/mib_view.c:183-208 | the loop does what the turns of its abstract form do, and ends where they end |
| `Views.Registry.Unregister` | core/mib_view.c:183-208 | the name loses everything, all others keep their lists |
| `Views.UnregisterEnds` | core/mib_view.c:183-208 | the removal loop ends if and only if it is not taking write access from a name with read views |
| `Views.WithinCovers` | core/mib_view.c:142-164 | what can be written can be read |
| `Views.Community.ViewCover` | core/mib_view.c:226-249 | true if and only if some view of the list covers the OID |
| `Views.Community.NextView` | core/mib_view.c:251-283 | the view after the given one, the first after null, null at the end |
| `Views.VisitsAll` | core/mib_view.c:251-283 | iterating from null visits every view once, in order, and ends |
| `ViewRun.Replay` | core/mib_view.c:166-208 | after any run of grants and removals a name reaches exactly what was granted to it since its last removal; if the OIDs granted compare soundly, all lists are sorted |
| `Dispatch.Get` | core/snmp_msg_proc.c:29-73 | for every list of views and every 32-bit request: the value is returned if and only if the OID is a variable and the search reaches a read view that covers it; over a list that is sorted and compares soundly, if and only if some read view covers it; without a value, the report is that of the last view searched: no such instance if that view covers the request and it lies at an instance, else no such object |
| `Dispatch.ReportMeaning` | core/snmp_msg_proc.c:50-72 | over any list of views the report is the one RFC 3416 asks for if and only if the request is not at an instance the caller can see, or the last view covers it and the search gets there |
| `Dispatch.ReportOverwritten` | core/snmp_msg_proc.c:50-72 | two views, and a missing row below the first that is reported as a missing object |
| `Dispatch.OrderlyReaches` | core/snmp_msg_proc.c:56-66 | over a list that is sorted and compares soundly, every covered request is reached |
| `Dispatch.SortedIsNotEnough` | core/snmp_msg_proc.c:56-66 | a sorted list with a covered request that is not reached, and from which GETNEXT goes backwards |
| `Dispatch.NoLaterCover` | core/snmp_msg_proc.c:56-66 | once the request compares as smaller than a view of a list that is sorted and compares soundly, no later view covers it |
| `Dispatch.GetNext` | core/snmp_msg_proc.c:136-180 | for every list of views and every 32-bit request: the answer of the first view that has one, with the variable's value, or the request again |
| `Dispatch.AnswerIsNextIn` | core/snmp_msg_proc.c:136-180 | over any list of views that answer is the least variable after the request in the union of all views if and only if, among the views not after the answering one, the search is right in those searched and the others have nothing to find |
| `Dispatch.AnswerInSorted` | core/snmp_msg_proc.c:136-180 | over a sorted list: if and only if the search is right in each view up to the one that answers |
| `Dispatch.Set` | core/snmp_msg_proc.c:243-299 | for every list of views and every 32-bit request: the one SET handler of the name is called, once, if and only if the search reaches a write view that covers it; over a list that is sorted and compares soundly, if and only if a write view covers it; if nothing is stored, the report is that of the last view searched |
| `Dispatch.RefusalReported` | core/snmp_msg_proc.c:275-298 | a refusal of the handler is reported if and only if the last view covers the request and the search gets there |
| `BulkWalk.BulkGet` | core/snmp_msg_proc.c:384-434 | repeat times the number of bindings are returned, each the agent's next answer after the one before; over a list that is sorted and compares soundly every column is a walk, from its first answer on even when the start wraps around |
| `BulkWalk.WalkIffFollowing` | core/snmp_msg_proc.c:384-434 | over any list of views, a column is the strictly increasing list of the variables due after the start, none skipped or repeated, then the end with a fixed OID, if and only if each answer in it is right |
| `BulkWalk.WalkIsComplete` | core/snmp_msg_proc.c:384-434 | a walk at its end lists all accessible variables after the start if and only if none of them is named like a view |
| `BulkWalk.ChainIsWalk` | core/snmp_msg_proc.c:384-434 | over a list that is sorted and compares soundly, with a start that does too, a chain of the agent's answers is a walk |
| `BulkWalk.ChainWalksOn` | core/snmp_msg_proc.c:384-434 | over such a list, from any start whatever, a chain is the end throughout, or a first answer and a walk from there |
| `GroupTable.Generate` | lualib/smartsnmp/init.lua:260-395 | the blocks generated from a group in any order, tables without rows included, are ordered and their tuples are exactly the names of its variables |
| `GroupIndex.GetNext` | lualib/smartsnmp/init.lua:398-510 | the least tuple of the product after the request, or the empty OID exactly when there is none; the request table is then unmodified, or, in a block without tuples, left at an OID of that block |
| `GroupIndex.Retreat` | lualib/smartsnmp/init.lua:480-510 | backtracking goes to the last dimension with a further element, or gives up exactly when nothing is left |
| `GroupServe.SearchBlocks` | lualib/smartsnmp/init.lua:513-518 | the first block with a successor gives the least name of the group after the request, blocks without tuples making no difference |
| `GroupServe.GroupNext` | lualib/smartsnmp/init.lua:700-771 | the search and its retries give the next name that can be read among those not skipped |
| `GroupServe.ServesReadable` | lualib/smartsnmp/init.lua:750-753 | every request is answered with the least readable name after it if and only if only unreadable names are skipped |
| `GroupServe.RowZeroIsSkipped` | lualib/smartsnmp/init.lua:750-753 | a table where a readable variable is skipped |
| `GroupServe.HiddenColumns` | lualib/smartsnmp/init.lua:750-753 | if whole columns are hidden and no row is numbered 0, only unreadable names are skipped |
| `GroupServe.ListsNames` | lualib/smartsnmp/init.lua:260-395 | the tuples of the blocks, listed in order, are exactly the names of the group |
| `GroupServe.GroupMeetsContract` | lualib/smartsnmp/init.lua:700-771 | the list of readable variables built from the blocks is a handler as the tree search assumes, and the group answers GETNEXT as that handler does |
| `GroupServe.GroupGet` | lualib/smartsnmp/init.lua:628-696 | GET gives the value of a scalar's name or of a column's name with any row, and nothing otherwise |
| `GroupServe.GetMeetsContract` | lualib/smartsnmp/init.lua:628-696 | it answers as the handler does for every name if and only if no variable gives a value for a row outside the index |
| `GroupServe.GroupsServe` | lualib/smartsnmp/init.lua:542-775 | groups behind all callbacks of a tree, with names of at most 64 sub-ids, are what the tree searches assume |
| `GroupTable.AnswerNext` | lualib/smartsnmp/init.lua:700-771 | from the declaration of a group and the values its variables give to the least readable name after the request |
| `Ber.IntOctetsMeaning` | core/snmp_encoder.c:206-265 | the content octets are the two's complement of the number and minimal (section 8.3.2 of X.690) |
| `Ber.MinimalIsUnique` | core/snmp_encoder.c:206-265 | there is no other minimal encoding |
| `Ber.IntEnc` | core/snmp_encoder.c:206-265 | writes exactly those octets for every 32-bit signed number |
| `Ber.IntEncTry` | core/snmp_encoder.c:31-86 | predicts their number |
| `Ber.UintEnc` | core/snmp_encoder.c:271-312 | writes the minimal octets of every 32-bit unsigned number, with a leading zero where the sign bit would be set |
| `Ber.UintEncTry` | core/snmp_encoder.c:92-129 | predicts their number |
| `Ber.IntDec` | core/snmp_decoder.c:85-108 | reads the two's complement number, wrapped to 32 bits |
| `Ber.UintDec` | core/snmp_decoder.c:114-130 | reads the number modulo 2^32 |
| `Ber.IntRoundTrip` | core/snmp_decoder.c:85-130 | every 32-bit signed and unsigned number is decoded from its own octets |
| `Ber.LengthEnc` | core/snmp_encoder.c:441-482 | the short form below 128, else the long form without leading zeros (section 8.1.3 of X.690) |
| `Ber.LengthEncTry` | core/snmp_encoder.c:398-435 | predicts the number of octets |
| `Ber.LengthDec` | core/snmp_decoder.c:216-231 | reads a length of any form, modulo 2^32 |
| `Ber.LengthRoundTrip` | core/snmp_decoder.c:216-231 | every 32-bit length is decoded from its own octets, whatever follows |
| `Ber.LengthIsLeast` | core/snmp_encoder.c:398-482 | whatever octets the decoder reads as a length, the encoding of that length has no more octets, and as many only if it is the same or the indefinite form was read as 0; one octet is used exactly below 128 |
| `BerOid.OidEnc` | core/snmp_encoder.c:319-348 | writes the sub-ids in groups of seven bits, the first two in one octet |
| `BerOid.OidEncTry` | core/snmp_encoder.c:136-159 | predicts the number of octets modulo 256, so rightly if and only if it is below 256 |
| `BerOid.LongOid` | core/snmp_encoder.c:136-159 | an OID of 64 sub-ids that takes 311 octets and is predicted to take 55 |
| `BerOid.OidDec` | core/snmp_decoder.c:137-155 | reads the sub-ids, each modulo 2^32 |
| `BerOid.OidDecTry` | core/snmp_decoder.c:31-43 | predicts the number of sub-ids |
| `BerOid.OidRoundTrip` | core/snmp_decoder.c:137-155 | an OID is decoded from its own octets if and only if it is empty or has two sub-ids or more that fit the first octet |
| `BerOid.NotEncodable` | core/snmp_encoder.c:319-348 | two OIDs that come back changed |
| `BerValue.ValueEnc` | core/snmp_encoder.c:354-392 | writes the content octets of any value |
| `BerValue.ValueEncTry` | core/snmp_encoder.c:165-200 | predicts their number, for OIDs modulo 256 |
| `BerValue.ValueRoundTrip` | core/snmp_decoder.c:161-194 | the agent's decoder gives a value back from its own octets, counters modulo 2^32, if and only if it is not an OID that does not fit |
| `BerValue.CounterRead` | core/snmp_encoder.c:364-367 | the integer a counter is encoded as is its value if and only if it is below 2^31 |
| `BerValue.CounterMisread` | core/snmp_encoder.c:364-367 | the largest counter is written as -1 |
| `MessageIn.ParseVars` | core/snmp_msg_in.c:212-254 | the loop over the bindings, counting the list's length down, reads what the decoder's definition says |
| `MessageIn.GlobalRoundTrip` | core/snmp_msg_in.c:257-304 | the global data of version 3 comes back |
| `MessageIn.SecurityRoundTrip` | core/snmp_msg_in.c:307-402 | the security parameters come back, within 32 and 40 octets |
| `MessageIn.HeaderRoundTrip` | core/snmp_msg_in.c:166-209 | the PDU header comes back |
| `MessageIn.VarRoundTrip` | core/snmp_msg_in.c:113-163 | a binding with at most 64 sub-ids and 1024 octets comes back and uses up exactly its length |
| `MessageIn.MessageRoundTrip` | core/snmp_msg_in.c:405-515 | a message of any version within the decoder's limits is decoded from its octets |
| `MessageIn.MessageReceived` | core/snmp_msg_in.c:113-163 | whatever octets are received, the OIDs of a decoded message have at most 64 sub-ids of 32 bits and can be encoded again |
| `MessageIn.MessageLimited` | core/snmp_msg_in.c:113-515 | whatever octets are received, a decoded message has names of at most 40 octets, engine ids of at most 32 and values of at most 1024, integers of 32 bits, and the parts of version 3 exactly from version 3 on |
| `MessageIn.FieldComesBack` | core/snmp_msg_in.c:185-205 | an integer written behind a stored size is read back with the cursor behind it if and only if the size is that of the value |
| `MessageIn.BulkIndexMisfit` | core/snmp_msg_proc.c:380-382 | a cleared error index with the size of a repeat count above 127 is not read back |
| `MessageOut.VarLen` | core/snmp_msg_proc.c:115-126 | the incremental sums are the sizes of the binding and of its encoding |
| `MessageOut.Datagram.AddVar` | core/snmp_msg_proc.c:98-130 | the answer is encoded and the length of the list stays the size of its encoding |
| `MessageOut.MeasureAll` | core/snmp_msg_out.c:166-216 | every summed length is the size of the content it will enclose |
| `MessageOut.PutGlobal` | core/snmp_msg_out.c:59-88 | writes the global data |
| `MessageOut.PutSecurity` | core/snmp_msg_out.c:118-156 | writes the security parameters |
| `MessageOut.Datagram.Encode` | core/snmp_msg_out.c:158-279 | the buffer has exactly the size of the whole message and the cursor stands where the bindings begin |
| `MessageOut.Datagram.Respond` | core/snmp_msg_out.c:158-314 | the final buffer is the message with every length exact, whatever the OIDs; if their first two sub-ids fit one octet, decoding it gives the same version, name, header and bindings; from version 3 on, both engine ids are 80 00 00 00 04 "SmartSNMP", the flags are as many as before and all clear, and all other fields are the request's |
| `MessageOut.Deliver` | core/snmp_msg_proc.c:183-241 | the agent's decoder reads from the response to GET, GETNEXT or GETBULK every answer with its OID and value, in order, in the same header and the fields of `Respond` |
| `Agent.ServeBulk` | core/snmp_msg_proc.c:368-437 | whatever octets decode to a GETBULK of up to 127 repetitions, they are answered with octets from which the decoder reads a response (0xA2) or, without variables, a report (0xA8), with the request's id, its error status, error index 0 and, column by column, the walk through the variables the community can see: each OID with the value that the tree holds for it, or the last OID with tag 0x82 and no content |
| `Agent.ServeNext` | core/snmp_msg_proc.c:182-241 | the same for GETNEXT: each variable is answered with the agent's next OID and the value that the tree holds for it, or with its own OID, tag 0x82 and no content; the error index is the request's |
| `Agent.ServeGet` | core/snmp_msg_proc.c:75-134 | the same for GET: each OID comes with the value that the tree holds for it exactly when it is a variable and a view that covers it is reached, else without content and with tag 0x81 or 0x80 as the last view searched says |
| `AgentX.ParseVars` | core/agentx_msg_in.c:231-255 | the loop over the bindings, counting the payload down, reads what the decoder's definition says |
| `AgentX.ParseRanges` | core/agentx_msg_in.c:258-282 | the same for search ranges |
| `AgentX.ObjectBack` | core/agentx_decoder.c:70-133 | an OID is decoded from its own octets, in either byte order, if and only if AgentX can carry it here and, in network byte order, its sub-ids from the sixth on are the same in both orders |
| `AgentX.NotCarried` | core/agentx_decoder.c:70-133 | two OIDs that come back empty |
| `AgentX.NetworkMisread` | core/agentx_decoder.c:106-127 | 1.3.6.1.2.1 in network byte order is read as another OID |
| `AgentX.DataBack` | core/agentx_decoder.c:70-133 | a value comes back in either byte order if and only if it is the same in both or the order is the machine's; what is read uses up exactly its octets, padding included |
| `AgentX.VarsSize` | core/agentx_msg_out.c:383-416 | the bindings take whole words (section 6.1 of RFC 2741) |
| `AgentX.PduBack` | core/agentx_msg_in.c:285-440 | any PDU, of whatever kind, with or without a context, in either byte order: kinds 5, 6 and 7 carry ranges, 8 and 18 bindings, 2, 7 and 18 fields of their own, and the decoder gives all of it back if and only if every OID and value in it comes back |
| `AgentX.HeaderCopied` | core/agentx_msg_out.c:419-427 | a header with the flags of the request and words in the byte order of the machine comes back if and only if the flag says so or its four words are the same in both orders |
| `AgentX.ResponseBack` | core/agentx_msg_in.c:359-440 | a response (18) is decoded to its error, index and bindings, the payload being used up exactly |
| `AgentX.QueryBack` | core/agentx_msg_in.c:182-282 | a GET (5) or GETNEXT (6) of the master is decoded to its search ranges |
| `AgentX.BulkBack` | core/agentx_msg_in.c:344-357 | a GETBULK (7) of the master is decoded to its two counts and its search ranges |
| `AgentXOut.Length` | core/agentx_msg_out.c:382-416 | the first pass computes the size of the encoding |
| `AgentXOut.ResponsePdu` | core/agentx_msg_out.c:366-503 | the write pass ends exactly at the length of the first, for any bindings; the payload is a multiple of 4; with OIDs that AgentX can carry here, decoding gives the same OIDs and values |
| `AgentXSearch.RangeNext` | core/agentx_msg_proc.c:85-118 | with an excluded start: the search result unless it compares as past the end, else the start again, for every 32-bit range |
| `AgentXSearch.RangeIsRight` | core/agentx_msg_proc.c:85-118 | that is the least variable below 1.3.6.1 after the start and before the end, or the start again when there is none, if and only if, the start comparing soundly, nothing is found or there is an end with which the variable found compares soundly, or, the start wrapping around, the search result is thrown away |
| `AgentXSearch.NullEndFails` | core/agentx_msg_proc.c:102-108 | a range without an end whose variable is not returned |
| `AgentXSearch.WrappedStartFails` | core/agentx_msg_proc.c:85-118 | a range past 1.3.6.1 answered with a variable before it |
| `AgentXSearch.WrappedEndFails` | core/agentx_msg_proc.c:102-108 | a range with a far end whose variable is not returned |
| `Samples.Values` | core/asn1.h:31-48 | one value of each type with its tag and length, octet by octet |
| `Samples.Request` | core/snmp_msg_in.c:405-515 | the forty octets of a version 2c GET of sysDescr.0 and the message decoded from them |
| `Samples.RequestV3` | core/snmp_msg_in.c:257-515 | the octets of a version 3 GETNEXT with a different value in each field and the message decoded from them |
| `Samples.MasterBulk` | core/agentx_msg_in.c:285-440 | the octets of an AgentX GETBULK and the PDU decoded from them |
| `Samples.MasterGet` | core/agentx_msg_in.c:285-440 | the octets of an AgentX GET with a context in network byte order and the PDU decoded from them |
| `Samples.SubagentResponse` | core/agentx_msg_out.c:366-503 | the octets of an AgentX response with a number and a text and the PDU decoded from them |

## Left out

- Users and their views (core/mib_view.c:285-502) are a copy of the communities and are not modelled a second time.
- Sockets, transports, event loops, logging and memory exhaustion.
- The Lua C API: a handler is an ordered list of named values; handler errors and the error codes it returns are not modelled, and a GET that misses inside an instance is reported as no such instance. `GroupServe` says when Lua groups are such handlers.
- Lua groups: string indexes and tables without an entry; the index generator's own error messages.
- GETBULK non-repeaters, which the code ignores, and negative repeat counts.
- The encoding of SET responses.
- The error status and error index that GET and GETNEXT put into the header; `MessageOut.Deliver` takes the header as given, and the methods of `Agent` are given the community that the request names.
- Notifications and the other AgentX PDUs that the agent sends; AgentX searches with an included start, where the code asks the handler for the variable after the start and writes its name into a copy of the start.
- Big-endian machines.
- Dispatch.Get: of a community without read views nothing is searched and the code repeats the request's own value; the model answers no such object, and `Agent.ServeGet` is for communities with a read view.
- Views.Registry.Unregister: removal of write access alone is covered only for names that are not registered, because for others it never ends.
- TreeUpdate.Register: a group with 47421 children does not get another one, because its 16-bit capacity field would overflow; the single loop of the source is split into the search for the place and the growth of the path.
- TreeRun.Replay: runs that would give a group more than 47421 children, for the same reason.
- GroupTable.Generate: sorting is a function on sequences of distinct numbers, not the in-place sort of the Lua library.
- MessageIn.MessageRoundTrip: the decoder's straight-line steps are functions on the part of the buffer still to be read; where the C code reads past the buffer or fills in a sign without end, the outcome is `Undefined`.
- Ber.IntDec: at most four octets for negative numbers, because for more the sign-filling loop has no end.
- Agent.ServeBulk: up to three million answers, so that the response stays below 2^32 octets; up to 127 repetitions and fields with the sizes of their values, because a response is not readable otherwise (`MessageIn.FieldComesBack`, `MessageIn.BulkIndexMisfit`); the search for the community or user by name is `Views.Registry.Search`.
- BerOid.OidEncTry: OIDs of fewer than 256 sub-ids, because its index is one byte wide.
- MessageOut.Datagram.Respond: messages below 2^32 octets, so that sums of lengths do not wrap around, OID encodings below 256 octets and stored sizes that are those of the values.
- AgentXOut.ResponsePdu: the decoding is stated for flags of byte order and context that are clear, as the response carries no context.
- The links from a view back to its communities, and `list.h` rings: lists are sequences.
