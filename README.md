# BrOpcUaExample client core, modelled in Dafny

This project models the client of an OPC UA example that talks to a B&R PLC.
The client keeps two live PLC variables in a local cache: the byte `gCounter` and the boolean `flag`.
Notifications from a subscription feed the cache, and an initial read seeds it.
The client writes a node only when the CurrentWrite bit of the node's AccessLevel attribute is set.
It builds variable handles, each checked against a client-side type by a structural field-by-field comparison of JSON trees.
It writes a structure by reading the current value as a skeleton, copying the client's fields into it, and writing it back.
It reads a structure and turns every failure into the type's default.
It flattens a record into one write per member, addressed `<root>.<member path>`.
It walks the address space from the Objects folder and collects every variable.
It also mirrors the PLC's global types Struct1, Struct2 and Enum1.

The OPC UA session is a class (`Sessions.Session`).
Its address space answers reads.
Every Write request is appended to a log, and a fixed function gives the server's verdict on each entry.
`OpcDevice` and `BrDevice` carry the same cache code, so one class, `Devices.Device`, models both.
Where the code is the same in both files, a table row cites OpcDevice and names the BrDevice lines in its last column.

Modules:

- `Primitives`: fixed-width integers and `Option`.
- `Json`: the JObject trees.
- `Ua`: status codes, NodeIds, Variants, the address space, exceptions.
- `NodeIdText`: the `ns=..;s=..` text form and its parser.
- `Sessions`: the session.
- `ShapeCheck`: `AreAllFieldsPresent`.
- `WriteValues`: `BuildWriteValueCollection`.
- `Structures`: `WriteStructureAsync`, `ReadStructureAsync`, `CopySimilarProperties`.
- `Browse`: `BrowseAllVariables`. Its result is `Crawl`: the level-by-level `Walk` run with the loop's next-level function and what the loop collects per level.
- `Devices`: the device class, its cache and variable handles.
- `PlcStructs`: the PLC types.

Three behaviours of the code are easy to miss:

- Writing a value that is not a decoded complex structure sends an empty Write request. There is no scalar path in `WriteStructureAsync`. The server refuses the empty request with Bad_NothingToDo, and the call throws (`Structures.WriteStructure`, `Structures.NonComplexWriteFails`).
- Every dequeued value of a notification batch goes through the Counter setter, so one batch can raise several CounterChanged events (`Devices.Device.OnDataChange`, `Devices.ReplayEvents`).
- The flag is never updated by a notification, although the comment in the Flag setter (Client/PlcClient/OpcDevice.cs:288-299) expects the notification to set the cached flag. See "## Findings".

## Model

| member | source | states |
|---|---|---|
| Ua.ReadAttribute | Client/PlcClient/OpcUa.Utils.cs:221 | Reading an unknown node gives Bad_NodeIdUnknown and no value. Reading an attribute the node lacks gives a bad status and no value. Otherwise the read gives the node's stored DataValue. |
| Json.Lookup | Client/PlcClient/OpcDevice.cs:368 | TryGetValue finds a token exactly when some property has the name, and the token found is held by a property of that name. |
| Json.LookupUnique | Client/PlcClient/OpcDevice.cs:368 | In a JObject, where names are unique, looking up a property's own name finds that property's value. |
| Json.LookupAppend | Client/PlcClient/OpcDevice.cs:368 | Appending properties never changes what an existing name finds. |
| Sessions.Respond | Client/PlcClient/OpcUa.Utils.cs:283-284 | The Write service answers with a Bad_NothingToDo service fault exactly when the request is empty. Otherwise it gives one status per entry, the server's verdict on that entry. |
| Sessions.Session.ReadValue | Client/PlcClient/OpcDevice.cs:324 | ReadValueAsync succeeds exactly when the Value read is not bad, and then returns that DataValue. A bad status is thrown as a ServiceResultException carrying it. |
| Sessions.Session.Write | Client/PlcClient/OpcUa.Utils.cs:283 | The request is appended to the session's write log, and the response is the Write service's answer to it. |
| NodeIdText.ParseDecimal | Client/PlcClient/OpcDevice.cs:316 | A number is read exactly from a non-empty run of decimal digits. |
| NodeIdText.DecimalRoundTrip | Client/PlcClient/OpcDevice.cs:316 | The decimal text of every natural number parses back to it. |
| NodeIdText.IdentifierRoundTrip | Client/PlcClient/OpcUa.Utils.cs:316 | Every `i=` and `s=` identifier text parses back to its identifier, in any namespace. |
| NodeIdText.FormatParse | Client/PlcClient/OpcUa.Utils.cs:316 | NodeId.ToString followed by new NodeId(string) gives back the same NodeId, for every NodeId. |
| NodeIdText.ParseSuffixed | Client/PlcClient/OpcUa.Utils.cs:316 | Text appended to a formatted NodeId is read as part of its identifier, in the NodeId's namespace. |
| NodeIdText.ParseNamespaced | Client/PlcClient/OpcDevice.cs:316 | A text `ns=<n>;<rest>` with a non-zero 16-bit namespace parses `<rest>` as an identifier in namespace n. |
| ShapeCheck.AreAllFieldsPresent | Client/PlcClient/OpcDevice.cs:345-362 | If either object is null, the answer is false. If either serialised form is not a JSON object, parsing throws. The answer is true only for two objects. For a source object with unique names at every level and a target object, it is true exactly when every path of the source tree exists in the target tree. |
| ShapeCheck.FieldsPresentEach | Client/PlcClient/OpcDevice.cs:364-384 | The foreach passes exactly when every source property passes its own iteration. |
| ShapeCheck.FieldFound | Client/PlcClient/OpcDevice.cs:368-379 | After a passing check, every source field is found by name in the target. If the source field is an object, the target field is an object that holds all of its fields. |
| ShapeCheck.FieldsPresentResolves | Client/PlcClient/OpcDevice.cs:364-384 | After a passing check, every path of member names that resolves in the source resolves in the target. Where the source reaches an object, so does the target. |
| ShapeCheck.FieldsPresentCovers | Client/PlcClient/OpcDevice.cs:364-384 | A passing check implies path-wise inclusion of the source tree in the target tree. |
| ShapeCheck.CoversFieldsPresent | Client/PlcClient/OpcDevice.cs:364-384 | Conversely, path-wise inclusion of a JObject in the target makes the check pass. |
| ShapeCheck.FieldsPresentIffCovers | Client/PlcClient/OpcDevice.cs:364-384 | For a JObject, the check decides exactly path-wise inclusion, in both directions. |
| ShapeCheck.MissingFieldFails | Client/PlcClient/OpcDevice.cs:369-372 | A source field whose name the target lacks fails the check. |
| ShapeCheck.FieldsPresentReflexive | Client/PlcClient/OpcDevice.cs:364-384 | Every JObject passes the check against itself. |
| ShapeCheck.FieldsPresentTransitive | Client/PlcClient/OpcDevice.cs:364-384 | If a passes against b and b passes against c, then a passes against c. |
| ShapeCheck.FieldsPresentWiden | Client/PlcClient/OpcDevice.cs:364-384 | Extra target fields are ignored: widening the target never makes a passing check fail. |
| ShapeCheck.LeafTypesIgnored | Client/PlcClient/OpcDevice.cs:374-380 | A source field whose value is not an object passes exactly when the target has a property of that name, whatever that property holds. |
| WriteValues.MemberPath | Client/PlcClient/OpcUa.Utils.cs:312 | Under an empty prefix the path is the bare member name. Otherwise it is `prefix.name`. |
| WriteValues.MemberNodeIdText | Client/PlcClient/OpcUa.Utils.cs:316 | Under a string root, a member's NodeId is the root's namespace with the identifier `<root id>.<path>`. Under a numeric root, the text does not parse. |
| WriteValues.TextDotted | Client/PlcClient/OpcUa.Utils.cs:316 | `s=<text>.<path>` is the string identifier `<text>.<path>`. |
| WriteValues.NumericDotted | Client/PlcClient/OpcUa.Utils.cs:316 | `i=<digits>.<path>` is not a valid numeric identifier. |
| WriteValues.RequestsAddress | Client/PlcClient/OpcUa.Utils.cs:316-326 | There is one write per emitted member. Entry k writes the Value attribute of the node named by the root and path k, with member k's value. |
| WriteValues.WriteValueCollection.constructor | Client/PlcClient/OpcUa.Utils.cs:361 | A new collection is empty. |
| WriteValues.BuildWriteValueCollection | Client/PlcClient/OpcUa.Utils.cs:303-344 | A null collection throws ArgumentNullException("writeValues"). A null object throws NullReferenceException. Otherwise the call succeeds exactly when the root is a string NodeId or nothing needs a NodeId. On success it appends one Value write per non-record member, in walk order, and keeps the earlier entries. Under a numeric root the collection is unchanged. |
| WriteValues.AddMember | Client/PlcClient/OpcUa.Utils.cs:309-343 | One property: a nested record is walked under the member's path; any other member, null included, is one write. Building a NodeId fails under a numeric root. |
| WriteValues.FlattenComplete | Client/PlcClient/OpcUa.Utils.cs:309-343 | Completeness: every member that is not a nested record, at any depth, gets an entry with its dotted path and its value. |
| WriteValues.FlattenSound | Client/PlcClient/OpcUa.Utils.cs:309-343 | Soundness: for a type with distinct member names, every entry is a non-record member reached by following the names of its path. |
| Structures.CopySimilarProperties | Client/PlcClient/OpcUa.Utils.cs:292-299 | The target's body is replaced in place by the field bag the JSON populate leaves, even when populate throws part-way. The call fails exactly when serialising or populating throws, with that exception. Nothing else of the target changes. |
| Structures.SkeletonRequest | Client/PlcClient/OpcUa.Utils.cs:250-276 | Building the request throws exactly when the value read is a decoded complex ExtensionObject and the copy throws, with the copy's exception. Otherwise there is one entry exactly when the value read is a decoded complex ExtensionObject. That entry writes the Value attribute of the node. It keeps the server's type id and carries the copied body. |
| Structures.WriteStructure | Client/PlcClient/OpcUa.Utils.cs:201-290 | A copy that throws escapes uncaught, and nothing is written. Otherwise exactly one Write request is logged: the skeleton request. If that request is empty, the call throws ServiceResultException(Bad_NothingToDo). Otherwise it succeeds exactly when the first status is good, and throws "Write failed" with that status when it is not. |
| Structures.NonComplexWriteFails | Client/PlcClient/OpcUa.Utils.cs:250-288 | A value that is not a decoded complex structure is never written, whatever the server would answer. |
| Structures.SkeletonKeepsMetadata | Client/PlcClient/OpcUa.Utils.cs:269-275 | When the copy succeeds, the written skeleton keeps the server's type id and stays a complex body. |
| Structures.ReadStructure | Client/PlcClient/OpcUa.Utils.cs:151-179 | Nothing is thrown. An unknown node, a bad Value read or a null value gives the default. Otherwise the result is the decoded value, or the default when decoding fails. Any other result is a decoded value. |
| Browse.FindReferences | Client/PlcClient/OpcUa.Utils.cs:38-52 | Finding references throws exactly when the cache cannot fetch the node's references, and the exception carries the fetch status. |
| Browse.FindReferencesMember | Client/PlcClient/OpcUa.Utils.cs:38-52 | The targets returned are exactly the known nodes that a forward reference of the given type leads to. |
| Browse.ReferenceTargetsMember | Client/PlcClient/OpcUa.Utils.cs:38-52 | A target is listed exactly when it is known and referenced with the given type. |
| Browse.OfClassMember | Client/PlcClient/OpcUa.Utils.cs:53-61 | The Where filter keeps exactly the listed nodes of the requested node class. |
| Browse.BrowseAllVariables | Client/PlcClient/OpcUa.Utils.cs:25-74 | The loop ends, and its result is the level-by-level traversal from the Objects folder, complete and not truncated (see CrawlStable). Every node in the result is a VariableNode. |
| Browse.BrowseLevel | Client/PlcClient/OpcUa.Utils.cs:34-70 | One level: the next level and the collected variables are those of the level's nodes, in order. |
| Browse.BrowseNode | Client/PlcClient/OpcUa.Utils.cs:36-69 | One node: its object children and its variables. A node whose fetch throws contributes nothing. |
| Browse.NextLevelOrigin | Client/PlcClient/OpcUa.Utils.cs:53-58 | Every node queued for the next level is an ObjectNode reached from the current level by an Organizes or HasComponent reference. |
| Browse.ChildReached | Client/PlcClient/OpcUa.Utils.cs:53-58 | A child is an ObjectNode that an Organizes or HasComponent reference of a fetchable node points to. |
| Browse.FoundReached | Client/PlcClient/OpcUa.Utils.cs:59-61 | A collected node is a VariableNode that an Organizes, HasComponent or HasProperty reference of a fetchable node points to. |
| Browse.LevelVariablesOrigin | Client/PlcClient/OpcUa.Utils.cs:59-61 | Every variable a level contributes comes from one of that level's nodes. |
| Browse.LevelVariablesOnly | Client/PlcClient/OpcUa.Utils.cs:59-61 | A level contributes only VariableNodes. |
| Browse.CrawlVariables | Client/PlcClient/OpcUa.Utils.cs:59-61 | A traversal of any depth collects only VariableNodes. |
| Browse.CrawlUnfold | Client/PlcClient/OpcUa.Utils.cs:31-72 | One pass of the while loop: a traversal is the level's variables followed by the traversal from the next level. |
| Browse.NextLevelHeights | Client/PlcClient/OpcUa.Utils.cs:31-72 | The next level of a level of nodes reached from the Objects folder is again reached from it, and every height on it is at least one lower. |
| Browse.CrawlStable | Client/PlcClient/OpcUa.Utils.cs:31-72 | Once the step bound exceeds every height in the level, further levels add nothing. |
| Browse.SkippedNode | Client/PlcClient/OpcUa.Utils.cs:63-69 | A node whose fetch throws is skipped: the level yields the same variables and the same next level as without it. |
| Browse.WalkOnly | Client/PlcClient/OpcUa.Utils.cs:31-72 | A level-by-level walk whose every level contributes only variables collects only variables. |
| Browse.WalkStable | Client/PlcClient/OpcUa.Utils.cs:31-72 | When each next level lies one lower than the level before it, a step bound above every height of the level makes further steps add nothing. |
| Browse.WalkHas | Client/PlcClient/OpcUa.Utils.cs:31-72 | What any level within the step bound contributes is in the walk's result. |
| Browse.IterateEmpty | Client/PlcClient/OpcUa.Utils.cs:31 | An empty level leads only to empty levels: the while loop stops. |
| Browse.ChildListed | Client/PlcClient/OpcUa.Utils.cs:38-58 | Completeness for one node: every ObjectNode an Organizes or HasComponent reference of a fetchable node points to is queued as its child. |
| Browse.VariableListed | Client/PlcClient/OpcUa.Utils.cs:38-61 | Completeness for one node: every VariableNode an Organizes, HasComponent or HasProperty reference of a fetchable node points to is collected from it. |
| Browse.NextLevelComplete | Client/PlcClient/OpcUa.Utils.cs:34-58 | Every ObjectNode that some node of the level leads to is on the next level. |
| Browse.LevelVariablesComplete | Client/PlcClient/OpcUa.Utils.cs:34-61 | Every VariableNode that some fetchable node of the level references is collected with the level. |
| Browse.ChainStep | Client/PlcClient/OpcUa.Utils.cs:34-58 | The rest of a chain of followed edges starts on the next level. |
| Browse.ChainReached | Client/PlcClient/OpcUa.Utils.cs:31-72 | The end of a chain of k followed edges from a node of the level is on the level reached after k iterations of the loop. |
| Browse.CrawlComplete | Client/PlcClient/OpcUa.Utils.cs:31-72 | A variable referenced from the end of such a chain is in the traversal once the step bound covers the chain. |
| Browse.ChainHeight | Client/PlcClient/OpcUa.Utils.cs:31-72 | Along a chain of followed edges that starts at a node reached from the Objects folder, the height drops by at least one per edge, so no chain outgrows the bound BrowseAllVariables uses. |
| Browse.AllVariablesFound | Client/PlcClient/OpcUa.Utils.cs:25-74 | Completeness of BrowseAllVariables: every VariableNode referenced from an object that a chain of followed edges reaches from the Objects folder is in its result. |
| Browse.LoopNeverEnds | Client/PlcClient/OpcUa.Utils.cs:31-72 | As written, an Objects folder that organizes itself is its own next level, so the loop never empties its level; no height descends on that space. |
| Browse.BrowseAllVariablesOnce | Client/PlcClient/OpcUa.Utils.cs:25-74 | Corrected walk with a visited set. The loop ends on every address space, cycles of Organizes references included. No node is browsed twice, and the result is what the browsed nodes contribute, in browsing order. It holds only VariableNodes, and every VariableNode referenced from a node that a chain of followed edges reaches from the Objects folder is in it. |
| Browse.BrowsePass | Client/PlcClient/OpcUa.Utils.cs:33-70 | One pass of the corrected while loop. Each node of the level is browsed unless already visited. The visited set grows, and when it does not grow the next level is empty. Every child of a visited node is visited or queued. |
| Browse.Visit | Client/PlcClient/OpcUa.Utils.cs:36-62 | Browsing a node not yet visited marks it, logs it, appends what it contributes, and queues its children. |
| Browse.ClosedAdvance | Client/PlcClient/OpcUa.Utils.cs:34-58 | Taking a node off the level keeps every child of a visited node visited or pending: a visited node is dropped, and a browsed one queues its children. |
| Browse.ChainVisited | Client/PlcClient/OpcUa.Utils.cs:31-72 | When nothing is pending, a chain of followed edges from a visited node ends at a visited node. |
| Browse.ElemsDistinct | Client/PlcClient/OpcUa.Utils.cs:34-35 | A log with as many elements as distinct nodes holds no node twice. |
| Browse.ChainExtend | Client/PlcClient/OpcUa.Utils.cs:53-58 | A chain of followed edges extended by one more followed edge is a chain. |
| Browse.ReachedStep | Client/PlcClient/OpcUa.Utils.cs:53-58 | A node that a followed edge leads to from a node reached from the Objects folder is reached from it too. |
| Browse.UnreachableCycleAllowed | Client/PlcClient/OpcUa.Utils.cs:31-72 | Two objects organize each other, but the Objects folder has no references. The walk stays finite: the Objects folder has no children, and a constant height satisfies the requires of BrowseAllVariables. |
| Browse.NothingFromBad | Client/PlcClient/OpcUa.Utils.cs:63-69 | A node whose fetch throws contributes no child and no variable. |
| Browse.GatherSkip | Client/PlcClient/OpcUa.Utils.cs:34-70 | A node that contributes nothing can be dropped from a level without changing what the level yields. |
| Devices.NumericNodeId | Client/PlcClient/OpcDevice.cs:184 | The implicit conversion of an attribute id gives a numeric NodeId in namespace 0. |
| Devices.UnboxByte | Client/PlcClient/OpcDevice.cs:183 | The byte cast succeeds exactly on a byte, with its value. Null throws NullReferenceException; anything else throws InvalidCastException. |
| Devices.UnboxBool | Client/PlcClient/OpcDevice.cs:184 | The bool cast succeeds exactly on a boolean, with its value. Null throws NullReferenceException; anything else throws InvalidCastException. |
| Devices.Assign | Client/PlcClient/OpcDevice.cs:264-278 | The counter takes the value. An event carrying the value is raised exactly when it differs from the previous counter. |
| Devices.Replay | Client/PlcClient/OpcDevice.cs:181-183 | After a run of values, the counter holds the last one. An empty run changes nothing. |
| Devices.ReplayEvents | Client/PlcClient/OpcDevice.cs:181-185 | The events a run raises are exactly the changes: each value that differs from the one before it. |
| Devices.ChangesNoStutter | Client/PlcClient/OpcDevice.cs:272-276 | No event repeats the previous event's value, and the first event differs from the counter held before the run. |
| Devices.ChangesEmpty | Client/PlcClient/OpcDevice.cs:272-276 | A run raises no event exactly when every value equals the held counter. |
| Devices.ChangesLast | Client/PlcClient/OpcDevice.cs:272-276 | The last event carries the run's last value. |
| Devices.LeadingBytes | Client/PlcClient/OpcDevice.cs:181-183 | The leading byte values of a batch end at the first notification whose cast throws. |
| Devices.LeadingBools | Client/PlcClient/OpcDevice.cs:181-184 | The leading boolean values of a batch end at the first notification whose cast throws. |
| Devices.ReadNodeValue | Client/PlcClient/OpcDevice.cs:188-207 | A good Value read gives its value. Any other status gives null. The same code is at Client/PlcClient/BrDevice.cs:182-201. |
| Devices.Writability | Client/PlcClient/OpcDevice.cs:233-253 | Writable exactly when the AccessLevel read is good, holds a byte, and has the CurrentWrite bit. It throws exactly when a good read holds no byte. |
| Devices.DataTypeOf | Client/PlcClient/BrDevice.cs:249-268 | A read that is not good gives null. A good one gives its NodeId, or null for a null value. The cast throws InvalidCastException for anything else. |
| Devices.ProgramOrDefault | Client/PlcClient/OpcDevice.cs:310 | An empty program name means AsGlobalPV. Any other name is kept. |
| Devices.NodeAddressParses | Client/PlcClient/OpcDevice.cs:316 | The handle's text `ns=6;s=::<program>:<variable>` always parses, to that string identifier in namespace 6. |
| Devices.NodeAddressFormats | Client/PlcClient/OpcDevice.cs:316 | The handle's node formats back as the same text. |
| Devices.Probe | Client/PlcClient/OpcDevice.cs:320-336 | A thrown read fails. A value that is not a decoded complex ExtensionObject passes with nothing kept. A complex one passes exactly when the shape check answers true, and then that value is kept. |
| Devices.ProbeCovers | Client/PlcClient/OpcDevice.cs:330-334 | For an object body, handle creation passes exactly when every path of the client type's tree exists in the server's. |
| Devices.VariableHandle.constructor | Client/PlcClient/OpcDevice.cs:311-318 | A handle holds its name, program, node and session, and no ExtensionObject yet. |
| Devices.Device.constructor | Client/PlcClient/OpcDevice.cs:279-301 | A new device caches counter 0 and flag false, and has raised no event. |
| Devices.Device.SetCounter | Client/PlcClient/OpcDevice.cs:264-278 | The Counter setter moves the cache exactly as Assign: the new value, plus one event exactly when it changed. The same code is at Client/PlcClient/BrDevice.cs:279-293. |
| Devices.Device.OnDataChange | Client/PlcClient/OpcDevice.cs:179-186 | A counter batch replays its leading byte values through the setter. It throws exactly when some value is not a byte, with that value's cast exception. Other items change nothing. The flag never changes. The same code is at Client/PlcClient/BrDevice.cs:173-180. |
| Devices.FlagBranchUnreachable | Client/PlcClient/BrDevice.cs:178 | The attribute id, converted to a NodeId, never equals the flag's node. |
| Devices.Device.OnDataChangeByNode | Client/PlcClient/OpcDevice.cs:179-186 | Corrected handler. A flag batch leaves the flag at its last leading boolean and throws exactly when some value is not a boolean. Counter batches behave as OnDataChange. Items of other nodes change nothing. |
| Devices.Device.ApplyByNode | Client/PlcClient/OpcDevice.cs:183-184 | One dequeued value of the corrected handler: it goes to the counter's setter or to the flag, by the item's node, or the cast throws. |
| Devices.Device.ReadInitialNodeValues | Client/PlcClient/OpcDevice.cs:257-261 | The fields are seeded directly from the reads, bypassing the setter and raising no event. A read without a byte gives counter 0; a read without a boolean gives flag false. The same code is at Client/PlcClient/BrDevice.cs:272-276. |
| Devices.Device.IsNodeWritable | Client/PlcClient/OpcDevice.cs:233-253 | The answer is Writability of the node's AccessLevel read. The same code is at Client/PlcClient/BrDevice.cs:227-247. |
| Devices.Device.WriteNodeValue | Client/PlcClient/OpcDevice.cs:209-231 | Nothing is written unless the node is writable. A writable node gets exactly one single-entry Value write. The call succeeds exactly when that status is good, and throws "Write failed" with it otherwise. The same code is at Client/PlcClient/BrDevice.cs:203-225. |
| Devices.Device.SetFlag | Client/PlcClient/OpcDevice.cs:288-299 | Setting Flag writes the boolean to the flag node exactly when the node is writable, and leaves the cached flag alone. The same code is at Client/PlcClient/BrDevice.cs:303-314. |
| Devices.Device.GetNodeDataType | Client/PlcClient/BrDevice.cs:249-268 | The answer is DataTypeOf the node's DataType read. |
| Devices.Device.CreateVariableHandle | Client/PlcClient/OpcDevice.cs:306-343 | The handle addresses `ns=6;s=::<program>:<variable>`, with an empty program meaning AsGlobalPV. It fails with "Variable <name> not found" exactly when the probe fails. Otherwise it returns a new handle holding the probed ExtensionObject. |
| PlcStructs.Ordinal | Client/TDOs/PlcStructs.cs:33-37 | Every Enum1 member has underlying value 0 or 1. |
| PlcStructs.FromOrdinal | Client/TDOs/PlcStructs.cs:33-37 | The member with a given underlying value has that value. |
| PlcStructs.EnumNamesFollowPlc | Client/TDOs/PlcStructs.cs:33-37 | Each client member name is the PLC member at its index, an underscore, and the index. |
| PlcStructs.DefaultArrayMatchesPlc | Client/TDOs/PlcStructs.cs:45 | The default int_array has exactly the ten elements of ARRAY[0..9], all zero. |
| PlcStructs.JsonNamesMatchPlc | Client/TDOs/PlcStructs.cs:39-52 | The serialised Struct1 and Struct2 carry the PLC declaration's member names, in its order. |
| PlcStructs.Struct1JsonWellFormed | Client/TDOs/PlcStructs.cs:39-46 | Every serialised Struct1 is a JObject with unique names at every level. |
| PlcStructs.Struct2Fits | Client/TDOs/PlcStructs.cs:48-52 | Any two Struct2 trees pass the shape check against each other. |
| PlcStructs.DefaultStruct1Fits | Client/TDOs/PlcStructs.cs:39-46 | A default Struct1 passes the shape check against the tree of any Struct1. |
| PlcStructs.InnerStructMustBeObject | Client/TDOs/PlcStructs.cs:42 | A server tree whose inner_struct is not an object fails the check, though every name is present. |
| PlcStructs.Struct1Entries | Client/TDOs/PlcStructs.cs:39-52 | Flattening a Struct1 gives six writes. inner_struct becomes `inner_struct.myFloat` and `inner_struct.myByte`. The array is one write of the whole collection. |

## Left out

- The WinForms UI, certificate and endpoint set-up, and the subscription parameters (sampling interval, queue size 10, drop-oldest) are not modelled. The SDK applies them before any modelled code runs.
- `DemonstrateWriteVariables`, `DemonstrateReadVariables`, the end of `Connect` and `PlcVariableHandle.ReadValueAsync`/`WriteValueAsync` are left out as callers. They call the modelled `WriteStructureAsync` and `ReadStructureAsync` (`Structures.WriteStructure`, `Structures.ReadStructure`) on fixed nodes: `struct1`, `struct2` and `e1` in Client/PlcClient/OpcDevice.cs:65-105 and Client/PlcClient/BrDevice.cs:59-99, and a default Struct1 through a handle at Client/PlcClient/OpcDevice.cs:60-62. They add no logic of their own.
- The JSON and XML printers and converters (`GetVauleAsJson`, `PrintValueAsJson`, `PrintGlobalTypeNames`, `PrintDataTypeSystem`, `CastInt32ToEnum`, `ObjectToByteArray`, `SerializeToXmlElement`) are not modelled. They are debugging aids with no effect on the cache or the server.
- `WriteStructureAsync_` and the private `WriteValue(Session, ...)` helper are not modelled. The first ends by throwing NotImplementedException and is never called; the second is never called. The recursion it calls, `BuildWriteValueCollection`, is modelled.
- WriteValues.BuildWriteValueCollection: requires the walked object to be a record or null. Its own recursion (line 341) passes only members that are not value types, strings or enumerables, and are not null: records. Its other caller, the unused `WriteStructureAsync_` (line 362), passes a structure. Reflection over the properties of a primitive, string or array passed at the top level is not modelled.
- WriteValues.BuildWriteValueCollection: the member order is the declaration order. .NET does not guarantee the order of `GetProperties`, although it follows declaration order in practice.
- Structures.CopySimilarProperties: Newtonsoft's serialise-and-populate is the parameter `copy`. It returns the field bag populate leaves, which may be partly filled, and the exception either step throws, if any. The model states where that result goes and that the exception escapes `WriteStructureAsync` before anything is written. It does not state what populate does field by field.
- Structures.ReadStructure: the SDK's JSON encoding and Newtonsoft's deserialisation are the parameter `decode`. The DataType read and `ReadNode` at lines 157-166 are kept only through their effect: a node the session does not know gives the default.
- Browse.BrowseAllVariables: requires a ghost height that strictly descends along every followed edge out of a node reached from the Objects folder. Edges among nodes the walk never reaches are unconstrained (`Browse.UnreachableCycleAllowed`). The source keeps no visited set. On an address space where reachable edges form a cycle, it never ends (`Browse.LoopNeverEnds`, "## Findings"), and the model does not represent that run.
- NodeIdText.Parse: the parser agrees with the SDK's `new NodeId(string)` on the `ns=<n>;i=<n>` and `ns=<n>;s=<text>` texts the program builds, and on the same texts without the `ns=<n>;` prefix. It returns None for everything else. The SDK also reads `g=` (Guid) and `b=` (opaque) identifiers, and it reads a text without an identifier prefix as a string identifier. Its numeric conversion accepts surrounding whitespace and a sign. None of these forms is modelled.
- Browse.FindReferences: a reference whose target the node cache cannot resolve is dropped. The only failure is a per-node ServiceResultException, which the catch turns into a skip. The debug line for Bad_UserAccessDenied has no effect and is left out.
- Browse.BrowseAllVariables: ExpandedNodeId and NodeId are the same type here. Namespace URIs and server indices are not modelled.
- `float` values (REAL members, `myFloat`) are kept as 32-bit patterns and never interpreted. No property depends on floating-point arithmetic.
- Asynchrony is not modelled. Each `await`ed service call is one atomic step, and the fire-and-forget write in the Flag setter completes within the setter. Races between a notification and a concurrent read of the cache are out of scope.
- The session is never null (`_session?.` is not modelled). Transport failures of Read and Write (timeouts, lost connection) are not modelled: every call returns a response with one result per entry.
- Exception messages are not modelled. Errors carry their kind and, where the source formats one, the status code or the variable name.
- The CounterChanged event is modelled as the log of the values it was raised with. Subscribers' code is not modelled.
- PlcStructs.Struct1: the members are non-null values. A client could assign null to `inner_struct`, `str` or `int_array`. The reflection form `WriteValues.Value` covers null members in general. The STRING[80] length bound is not enforced by the C# class and is not modelled.

## Findings

| source | as written | input that shows it | evidently intended | confidence | as-written member | corrected member |
|---|---|---|---|---|---|---|
| Client/PlcClient/OpcDevice.cs:184 (same in Client/PlcClient/BrDevice.cs:178) | The flag branch compares `item.AttributeId` with the flag's NodeId. The attribute id 13 converts implicitly to `i=13` in namespace 0, which never equals `ns=6;s=::AsGlobalPV:flag`, so the cached flag never follows the PLC. | A notification of the flag's monitored item: start node `ns=6;s=::AsGlobalPV:flag`, attribute 13, value true, with the cached flag false. The flag stays false. | Compare `item.StartNodeId`, as the counter branch does and as the Flag setter's comment expects (the notification is what updates the cached flag). | high; not executed | Devices.Device.OnDataChange | Devices.Device.OnDataChangeByNode |
| Client/PlcClient/OpcUa.Utils.cs:31-72 | The walk keeps no visited set. Every ObjectNode an Organizes reference reaches is queued again, so a cycle of Organizes references re-queues the same objects forever. OPC UA forbids loops only for HasChild references such as HasComponent. | An address space whose Objects folder has an Organizes reference to itself (`Browse.LoopSpace`). The next level of the Objects folder is the Objects folder again. | Browse each node at most once, so that the walk ends on every address space and still collects every variable referenced from a node the Objects folder reaches. | medium; not executed | Browse.LoopNeverEnds | Browse.BrowseAllVariablesOnce |
