# SPHERE Smart Home Architect — a verified model of the game core

The Smart Home Architect is a browser game built on a Node-RED style flow editor. The player
places sensing devices (environmental sensors, wearables, video, gateways, water sensors, 3G
uplinks) on the floor plan of a house and links them with radio or wired protocols (TSCH, BLE,
USB, 433 MHz, PLC, WiFi, 3G). Each device costs credits from a fixed budget. A link is allowed
only when both devices share a protocol, it runs the right way for devices that only send or
only receive, and the devices are within the protocol's range. Every tick, the game works out
which devices a home gateway can reach and which rooms each device covers. It then checks a
list of achievements and records coverage percentages. On request it gives the player a
suggestion or points out a problem with the network.

This project models that core in Dafny, one module per source file:

- `Options` holds the option and protocol tables.
- `Nodes` covers devices, costs and link feasibility.
- `Store` is the node/link store with its cascading removals, workspaces, flow search and wire export.
- `Import` covers importing a node set.
- `Game` covers room assignment, reachability, achievement checks and the tick.
- `Achievements` holds the achievement predicates and the done list.
- `Suggestions` is the suggestion engine.
- `Validators` holds the property validators.
- `Editor` covers property validation, the port-count adjustment and link-dialog rules.
- `View` holds the graph rules of the canvas: range pruning, the wearable box, moving and deleting the selection, and creating links.
- `TabInfo` covers the sidebar text rules.
- `Application` covers the save guard, the suggestion dialog and options import.
- `Utils` holds the string helpers.
- `Graph` (undirected connectivity), `Seqs` and `Wrappers` are shared helpers.

Devices and links are values. A device has a unique string id. A link names its endpoints by
id. The store, the canvas, the game state, the done list and the options object are classes whose
methods update their fields in place, as the source's module closures do. Every method states its
whole new state. The properties the source promises are proved as `ensures` clauses and lemmas:
- the cascade of a removal;
- the budget bound of an import;
- reachability is exactly the undirected closure of the home gateways;
- the room lists;
- the achievement and suggestion rules;
- the round trip of the HTML escape.

`fullEnvironmentalCoverage` holds when the house has no rooms at all: the function returns
`presentRooms.length >= rooms.length`, which is `0 >= 0` then (src/achievements.js:73).
`Achievements.EnvironmentalWithoutRooms` proves this case.

## Model

| member | source | states |
|---|---|---|
| Options.GetOption | src/options.js:97-99 | An option is found exactly for the names of the option table |
| Options.OptionValues | src/options.js:20-33 | The starting budget is 1500 credits, the room boundary 30 pixels and the scale 50 pixels per metre |
| Options.OptionKeys | src/options.js:20-33 | The option names are exactly the keys of the option table |
| Options.GetProtocolByName | src/options.js:109-111 | A protocol record is returned exactly for the seven listed names, and its `nm` is the name asked for |
| Options.ProtocolByNameListed | src/options.js:102-111 | Every record found by name is one of the records `getProtocols` lists |
| Options.ProtocolKeys | src/options.js:35-95 | The protocol names are exactly the keys of the protocol table |
| Options.ProtocolTableLookup | src/options.js:109-111 | Looking up a table key returns that key's record |
| Options.NamesAreKeys | src/options.js:35-95 | Every record's `nm` equals its key |
| Options.ProtocolValues | src/options.js:102-108 | The listed records are the table's records, in table order |
| Options.GetProtocols | src/options.js:102-108 | `getProtocols` lists the seven records once each, each under a known name |
| Options.ProtocolRanges | src/options.js:35-95 | The ranges are 50 times the metres (TSCH 500, BLE 350, USB 150, 433 MHz 1000, PLC 500, WiFi 750, 3G 5000); USB and PLC are wired and the rest wireless |
| Options.RangesPositive | src/options.js:35-95 | Every known protocol has a positive range |
| Nodes.CalculateCostForNode | src/nodes.js:71-91 | The cost is 0 unless the type has a cost default that parses to a number; otherwise it is that parsed integer, negative values included |
| Nodes.NegativeCostPassesThrough | src/nodes.js:87-90 | A negative parsed cost is charged unchanged and lowers the total |
| Nodes.TotalCostAppend | src/nodes.js:93-99 | The credit total is additive over concatenation of node lists |
| Nodes.TotalCostNonNegative | src/nodes.js:93-99 | With no negative costs the total is never negative |
| Nodes.DistanceSquared | src/nodes.js:120-125 | The squared distance is never negative |
| Nodes.DistanceAsymmetric | src/nodes.js:120-125 | The distance is measured from the source's right edge, so swapping the endpoints can turn an in-range pair out of range |
| Nodes.CanBeLinkedWith | src/nodes.js:176-193 | A protocol is allowed exactly when both ends offer it, the direction holds and, with the distance check, it is a known protocol whose range covers the distance from source to target |
| Nodes.ScanCapabilities | src/nodes.js:141-156 | The three flags of the capability scan are exactly "some shared protocol", "some shared protocol in the right direction" and "some allowed protocol in range" |
| Nodes.CanBeLinked | src/nodes.js:133-174 | A link that is ok has a usable protocol, and the error text is empty exactly when the link is ok |
| Nodes.CanBeLinkedIffSomeProtocol | src/nodes.js:133-174 | Two devices can be linked iff some source capability passes `canBeLinkedWith` with the distance check |
| Nodes.CanBeLinkedErrorPriority | src/nodes.js:159-171 | The error reported is no shared protocol (worded for wearables when either end is one) before wrong direction before too far |
| Nodes.DisjointCapabilitiesCannotLink | src/nodes.js:133-174 | Devices with no shared capability get the no-shared-protocol error |
| Store.FindById | src/nodes.js:232-239 | The lookup fails exactly for ids not stored, and a found node has that id |
| Store.WithDefaults | src/nodes.js:195-216 | A link is made valid and dirty, gets "TSCH" only when it has no protocol, and is otherwise unchanged |
| Store.GraphStore.constructor | src/nodes.js:18-31 | The store starts with no nodes, links or workspaces and is valid |
| Store.GraphStore.CalculateCredits | src/nodes.js:93-99 | The credits spent are the total cost of the stored nodes |
| Store.GraphStore.CanAddNode | src/nodes.js:62-69 | A node can be added iff the total cost with it stays within the starting budget |
| Store.GraphStore.AddNode | src/nodes.js:113-118 | The node is appended, marked dirty, and the store stays valid |
| Store.GraphStore.AddLink | src/nodes.js:218-231 | Exactly one link with its defaults is appended |
| Store.GraphStore.GetNode | src/nodes.js:232-239 | A node is found iff its id is stored |
| Store.GraphStore.RemoveLink | src/nodes.js:270-275 | The first equal link is removed and nothing else changes; absent links change nothing |
| Store.GraphStore.RemoveNode | src/nodes.js:257-268 | An absent id changes nothing and returns no links; otherwise the node and exactly its incident links are removed and returned, and the order of the rest is kept |
| Store.AbsentIdRemovesNothing | src/nodes.js:257-268 | For an id not stored, the node and link filters of a removal keep everything |
| Store.RemovalKeepsValid | src/nodes.js:257-268 | A removal keeps ids unique, drops exactly the removed id and leaves no dangling link |
| Store.SpliceEach | src/nodes.js:264-265 | Splicing out each marked link by index leaves exactly the unmarked links, in order |
| Store.GraphStore.GetAllFlowNodes | src/nodes.js:353-371 | The start node comes first; the result lists each node of the start's undirected link component exactly once and nothing else |
| Store.FlowNodes | src/nodes.js:353-371 | The queue search on values returns the start's component, once each, start first |
| Store.FlowSearchSound | src/nodes.js:353-371 | Every node the finished search lists is connected to the start |
| Store.FlowSearchCovers | src/nodes.js:353-371 | Every stored node connected to the start is listed by the finished search |
| Store.GraphStore.AddWorkspace | src/nodes.js:295-307 | The workspace is recorded once; "net_tab" and "alloc_tab" become the network and allocation workspaces, and any other id becomes the default when there is none |
| Store.FirstOtherWorkspace | src/nodes.js:311-323 | The replacement default is another workspace that is neither the network nor the allocation workspace, and there is none exactly when no such workspace exists |
| Store.GraphStore.DetachWorkspace | src/nodes.js:311-335 | Removing the default hands the default to the first other ordinary workspace; the network and allocation workspaces, and a default with no replacement, are not deleted; a deleted workspace is gone |
| Store.GraphStore.RemoveWorkspace | src/nodes.js:311-351 | The workspace is deleted exactly when it is the default and another ordinary workspace can take over, or it is neither the default, the network nor the allocation workspace; the default passes to the first other ordinary workspace; the workspace list loses that one entry or stays as it was; the nodes placed on the workspace are removed in store order, with exactly the links incident to them |
| Store.WorkspaceIdsMatch | src/nodes.js:337-348 | Removing the collected nodes by id keeps exactly the nodes outside the workspace |
| Store.GraphStore.ConvertWires | src/nodes.js:409-429 | Each output port lists, in link order, the targets of exactly the links leaving the node through it |
| Store.GetLinkAttr | src/nodes.js:432-447 | The category is 3 for a user attribute, else 2 for a network attribute, else 1 for a link attribute, else -1 |
| Import.Tag | src/nodes.js:530-547 | An item of unknown type becomes type "unknown" and keeps its old type as its name; other items are unchanged |
| Import.UnknownNamesFacts | src/nodes.js:530-547 | The unknown type names are recorded once each, exactly for the unknown items |
| Import.TagAllFacts | src/nodes.js:530-547 | Tagging drops exactly the unknown items with neither x nor y, and tags the rest in order |
| Import.TagItems | src/nodes.js:530-547 | The tagging loop yields the tagged items and the unknown names |
| Import.DefFor | src/nodes.js:598-620 | A node of a catalogued type gets that type's descriptor; otherwise an empty, costless one |
| Import.BuildNode | src/nodes.js:597-626 | An imported node keeps the item's id, type and workspace and takes the type's descriptor; its property keys are the type's default keys, each taking the item's field, or undefined when the item has none; its `valid` flag is unset; it is dirty and not changed |
| Import.AdmittedSubsequence | src/nodes.js:628-639 | The nodes admitted are device items taken from the import list, at most as many as there are |
| Import.AdmittedWithinBudget | src/nodes.js:628-639 | Whenever a node is admitted, the credits spent stay within the starting budget |
| Import.AllAdmittedWhenAffordable | src/nodes.js:628-639 | When the whole import is affordable, every device item is admitted |
| Import.WireLink | src/nodes.js:653-671 | A wire becomes a link from the node's port to its target, with protocol "TSCH" when it has none |
| Import.WireLinksSound | src/nodes.js:653-671 | Every link made comes from a wire of an admitted node whose target was admitted |
| Import.WireLinksComplete | src/nodes.js:653-671 | Every wire between admitted nodes becomes a link |
| Import.ValidateFrom | src/nodes.js:653-655 | The loop over the added nodes calls `validateNode` on each in store order; the nodes become the run of validations |
| Import.ValidatedRunKeeps | src/ui/editor.js:53-65 | Validating the added nodes changes only their `valid` and `dirty` flags; the nodes outside the run stay as they were |
| Import.ValidatedRunVerdict | src/ui/editor.js:53-65 | Each added node's flag is set to the `validateNode` verdict against the store at its turn, where the earlier added nodes are already validated and the later ones still have no flag, which a config reference accepts; it is dirty when it was or the flag changed |
| Import.ImportNodes | src/nodes.js:516-686 | The unknown names are reported; the admitted nodes are appended within budget and then validated in order; a budget notice is given iff some device was skipped; links are added for wires between admitted nodes |
| Game.SegmentTableLastWins | src/game.js:198-215 | A repeated segment id keeps its last descriptor |
| Game.SegmentTableKeysDistinct | src/game.js:198-215 | The segment table holds each segment id once |
| Game.AssignRooms | src/game.js:40-63 | The node's rooms and segments are rebuilt from the segments it falls in |
| Game.MobileHasNoRooms | src/game.js:40-48 | A mobile device is in no room and no segment |
| Game.RoomsAligned | src/game.js:51-62 | Rooms and segments are equally long and aligned; a static node gets a segment iff it lies in the rectangle widened by the room boundary on every side |
| Game.RoomRepeats | src/game.js:51-62 | A room is listed twice when two of its segments cover the node |
| Game.WithRoomsKeepsRest | src/game.js:40-63 | Room assignment changes nothing but the room lists |
| Game.Reachability | src/game.js:68-97 | After the queue search, a node is reachable iff it is connected to a home gateway by links in either direction; nothing else changes |
| Game.GatewaysReachable | src/game.js:68-78 | Every home gateway ends up reachable |
| Game.SearchRound | src/game.js:77-96 | One round dequeues the head and marks it reachable, changing only reachability flags; the rest of the queue keeps its order ahead of the ids the round enqueues; the search invariant holds and the loop measure goes down |
| Game.SearchComplete | src/game.js:75-97 | A finished search has marked exactly the nodes connected to a gateway |
| Game.RecalculatedReachable | src/game.js:66-103 | After recalculation, reachability is the gateway closure and the rooms are reassigned |
| Game.RecalculatedKeepsRest | src/game.js:66-103 | Recalculation changes only reachability, rooms and segments |
| Game.RoomTables | src/game.js:198-215 | The segment table keeps the last descriptor per id and the room names are the layout's rooms, once each, in first-appearance order |
| Game.DoneAfterAllGrows | src/game.js:105-117 | Checking achievements only appends names, never duplicates one, appends only names of achievements whose predicate holds, and ends with the name of every achievement whose predicate holds |
| Game.GameState.constructor | src/game.js:19-38 | The game starts with no rooms, zero coverage, counter 0 and not started, over the given store and done list |
| Game.GameState.GetRoomNames | src/game.js:236 | Returns the room names |
| Game.GameState.SetCoverage | src/game.js:237 | Only the given coverage kind is set |
| Game.GameState.RecalculateReachability | src/game.js:66-103 | The stored nodes become their recalculation and the store stays valid |
| Game.GameState.InitRooms | src/game.js:198-215 | The room tables are rebuilt from the layout and reachability is recalculated |
| Game.GameState.CheckAchievement | src/game.js:105-117 | A satisfied, undone achievement is marked done; coverage is updated as its check reports |
| Game.GameState.CheckAll | src/game.js:159-177 | The achievements are checked in list order |
| Game.GameState.Tick | src/game.js:159-177 | Reachability is always recalculated; achievements and coverage change only when no dialog is open; the counter goes up by one |
| Game.GameState.Start | src/game.js:179-196 | The game runs one tick and counts as started: reachability and rooms are recalculated, the room tables are kept, the done list and coverage become the in-order check of every achievement when no dialog is open and stay as they were otherwise, and the counter goes up by one |
| Achievements.LastWhereSpec | src/achievements.js:19-32 | The scan finds a node iff one qualifies, and the node found is the last that qualifies |
| Achievements.AnyCoverage | src/achievements.js:19-32 | Returns the last node with the modality that is reachable, or need not be |
| Achievements.CoverageInRoom | src/achievements.js:34-48 | Returns the last qualifying node in the room |
| Achievements.CoverageInRoomImpliesAny | src/achievements.js:34-48 | Coverage in a room implies any coverage |
| Achievements.CollectRooms | src/achievements.js:54-61 | The rooms of the qualifying nodes are collected once each, in first-appearance order |
| Achievements.PresentRoomsMembers | src/achievements.js:54-61 | A room is collected iff some qualifying node is in it |
| Achievements.RoundHalfUpNearest | src/achievements.js:67-68 | Rounding gives the integer nearest the ratio, with halves rounded up |
| Achievements.PercentBounds | src/achievements.js:67-68 | The percentage is at most 100, 100 when the part covers the whole, and 0 for no part |
| Achievements.FullEnvironmentalCoverage | src/achievements.js:50-74 | Achieved iff the reachable environmental sensors cover at least as many rooms as the house has; coverage is 0 without rooms, else the rounded share capped at 100 |
| Achievements.EnvironmentalWithoutRooms | src/achievements.js:50-74 | With no rooms the full-environmental achievement holds, whatever the devices and links, and sets the environmental percentage to 0 |
| Achievements.EnvironmentalFullHouse | src/achievements.js:50-74 | When every room holds a reachable environmental sensor, the achievement holds |
| Achievements.WearableCoverageStats | src/achievements.js:76-104 | The statistics loop computes whether a wearable exists and the rooms of the reachable gateways |
| Achievements.FullWearableCoverage | src/achievements.js:106-117 | Achieved iff a wearable exists and the gateways reach at least half the rooms; the coverage follows the statistics |
| Achievements.WearablePercentCases | src/achievements.js:106-117 | Coverage is 0 without a wearable or without rooms, at most 100, and 100 when covered |
| Achievements.FullVideoCoverage | src/achievements.js:119-147 | Achieved iff hall-and-stairs, kitchen and living room all hold a reachable video device; coverage is the rounded third |
| Achievements.CountCameras | src/achievements.js:139-142 | The count is the number of the three video rooms covered |
| Achievements.VideoPercentValues | src/achievements.js:144 | The video coverage is 0, 33, 67 or 100, and 100 iff all three rooms are covered |
| Achievements.IsMeshNetwork | src/achievements.js:149-162 | The scan answers exactly the mesh condition |
| Achievements.MeshIffGatewayLink | src/achievements.js:149-162 | It is a mesh iff some link joins a gateway-modality source to a stored gateway-modality target |
| Achievements.WholeEmbeddedNetwork | src/achievements.js:164-180 | Holds iff mesh, a reachable environmental sensor, a wearable and no link using the other of TSCH and BLE |
| Achievements.WholeNetworkWithoutEmbeddedLinks | src/achievements.js:164-180 | Links of other protocols do not count, so a network without TSCH or BLE links qualifies for both |
| Achievements.CountProtocolZero | src/achievements.js:172-175 | The protocol count is 0 iff no link uses the protocol |
| Achievements.SystemMonitoring | src/achievements.js:182-185 | Holds iff some reachable 3G device exists |
| Achievements.SleepMonitoring | src/achievements.js:187-197 | Holds iff a wearable exists, rooms exist and a gateway reaches a bedroom |
| Achievements.IndoorLocalization | src/achievements.js:199-202 | Holds iff a wearable exists and the gateways reach every room count |
| Achievements.IsMinimalist | src/achievements.js:205-208 | Holds iff there are at most two gateways and the wearable coverage holds |
| Achievements.IsWaterSensor | src/achievements.js:210-212 | Holds iff a reachable water sensor is in the room |
| Achievements.StricterWearableAchievements | src/achievements.js:199-208 | Indoor localisation and minimalism each imply full wearable coverage |
| Achievements.Evaluate | src/achievements.js:214-323 | Each listed achievement is evaluated by its predicate |
| Achievements.CoverageOnlyFromFullCoverage | src/achievements.js:214-323 | Only the three full-coverage achievements report a percentage |
| Achievements.AchievementNamesDistinct | src/achievements.js:214-323 | The achievement names are distinct |
| Achievements.FindByName | src/achievements.js:340-348 | Returns the first achievement with the name, and none exactly when no achievement has it |
| Achievements.GetAllSplits | src/achievements.js:359-370 | The done and pending names together account for every achievement once |
| Achievements.DoneList.constructor | src/achievements.js:325-332 | The done list starts as the stored list, or empty when nothing parses |
| Achievements.DoneList.IsDone | src/achievements.js:334-336 | Holds iff the name is in the done list |
| Achievements.DoneList.SetDone | src/achievements.js:349-354 | The name is appended only if absent |
| Achievements.DoneList.GetDone | src/achievements.js:356-358 | Returns the done list |
| Achievements.DoneList.GetAll | src/achievements.js:359-370 | Splits the list into done names and pending names |
| Achievements.DoneList.Reset | src/achievements.js:371-375 | The done list becomes empty |
| Achievements.SetDoneMonotone | src/achievements.js:349-354 | Marking done never shrinks the list, keeps its prefix and never creates a duplicate |
| Suggestions.DisconnectedIsUnreachable | src/suggestions.js:194-216 | A disconnected sensor is an unreachable sensor |
| Suggestions.IncomingLinksDoNotConnect | src/suggestions.js:204-216 | Only outgoing links count as connecting: an unreachable sensor with only an incoming link is disconnected |
| Suggestions.ReachableIsPresent | src/suggestions.js:54-74 | Reachable sensors are sensors, and sensing in a room implies a sensor in that room that is reachable |
| Suggestions.UnconnectedGatewaysIffNotMesh | src/suggestions.js:76-93 | Fewer than two gateways are never "multiple unconnected"; otherwise the check is the negation of the mesh test |
| Suggestions.GetSuggestion | src/suggestions.js:278-327 | Loading until started; then suggestion 0 or 1 if unmet; a problem returned is the first that holds; a suggestion returned from the loop is unmet, every suggestion before it from position 2 holds or was skipped by its draw, and it was not skipped itself unless it is the first unmet one after a first pass that met or skipped every suggestion; "all done" only when every suggestion is met |
| Suggestions.Select | src/suggestions.js:278-327 | The same rules, including the order of the passes, for any lists of at least three suggestions |
| Suggestions.FirstProblem | src/suggestions.js:295-305 | Returns the first problem that holds, or reports that none does |
| Suggestions.SuggestionPass | src/suggestions.js:307-322 | A pass returns the first unmet suggestion that is not skipped: on a first pass every suggestion before it holds or is skipped, each unmet one but the last using up one draw in order, and on a second pass every one before it holds; the last is never skipped; a pass that finds nothing has met or skipped them all; `anySkipped` records exactly whether something was skipped |
| Suggestions.NoDrawSkips | src/suggestions.js:311-315 | When no draw says skip, the suggestions met-or-skipped all hold, so the pass returns the first unmet one |
| Validators.Rem1 | src/validators.js:29-31 | `v % 1` lies strictly between -1 and 1 and carries the sign of `v` |
| Validators.Rem1ZeroIffWhole | src/validators.js:29-31 | `v % 1` is 0 exactly for whole numbers |
| Validators.ValidatorChains | src/validators.js:20-37 | positiveInteger implies positiveNumber implies nonNegNumber implies number; positiveInteger implies nonNegInteger implies integer; nonNegInteger is nonNegNumber and integer together |
| Validators.IntegerIsWhole | src/validators.js:29-31 | `integer` holds exactly for finite whole numbers |
| Validators.IdIffStored | src/validators.js:40-42 | `id` holds exactly for the stored ids |
| Validators.AllFromIff | src/validators.js:43-48 | The reduce fold is true iff it starts true and every piece passes |
| Validators.AllFromStaysFalse | src/validators.js:43-48 | Once the fold is false it stays false |
| Validators.IdListIff | src/validators.js:43-48 | `idList` holds iff every comma-separated, trimmed piece is a stored id |
| Validators.IdListEmpty | src/validators.js:43-48 | The empty value is a list of one empty id |
| Editor.ValidatePropertyCases | src/ui/editor.js:91-117 | After trimming, an empty value is valid iff not required; a custom validator decides a non-empty value; a config property without one is invalid if empty, "_ADD_", naming no stored node, or naming a node validated as invalid; a node not yet validated is accepted |
| Editor.ValidatePropertyIgnoresSpace | src/ui/editor.js:91-98 | Surrounding whitespace does not change a string's validity |
| Editor.ValidateProperties | src/ui/editor.js:74-81 | Holds iff every defined property validates, and a failure names a failing property |
| Editor.ValidateNode | src/ui/editor.js:53-65 | Validity is properties, then the custom validator, then credentials; the flag is set to it, and dirty is set when the flag changes, including from unset; nothing else changes |
| Editor.LinkPropertiesAlwaysValid | src/ui/editor.js:74-81 | A link's only property, its protocol, always validates |
| Editor.LinkValidIff | src/ui/editor.js:53-65 | A link is valid iff its protocol is known, both endpoints are stored and the endpoints can be linked with it |
| Editor.FinishLinkEdit | src/ui/editor.js:286-297 | After the dialog closes, the link is removed iff it fails validation; nothing else changes |
| Editor.AdjustedPorts | src/ui/editor.js:126-151 | The port list gets exactly `outputs` entries, keeping existing ones and numbering new ones by index |
| Editor.PopPorts | src/ui/editor.js:131-134 | The popping loop shortens the port list to its adjusted form |
| Editor.PushPorts | src/ui/editor.js:144-148 | The pushing loop extends the port list to its adjusted form |
| Editor.CollectDangling | src/ui/editor.js:135-140 | Collects exactly the node's links on a dropped port, in store order |
| Editor.DropDangling | src/ui/editor.js:135-143 | Dropping those links keeps the store valid and leaves no link on a dropped port |
| Editor.UpdateNodeProperties | src/ui/editor.js:126-151 | The node gets exactly `outputs` ports; on shrinking, exactly its links on dropped ports are removed and returned, otherwise no link changes |
| Editor.Offered | src/ui/editor.js:540-561 | A protocol is offered iff it passes the capability and direction check, enabled or disabled by range |
| Editor.ProtocolOptions | src/ui/editor.js:540-561 | The dialog enables exactly the known protocols allowed in range and disables exactly those allowed only out of range |
| Editor.OfferedSound | src/ui/editor.js:540-561 | Every offered protocol is known and allowed without the distance check |
| Editor.OfferedComplete | src/ui/editor.js:540-561 | Every known protocol allowed without the distance check is offered |
| View.CollectOutOfRange | src/ui/view.js:455-474 | The scan collects exactly the links with a known protocol whose range the distance exceeds |
| View.CheckLinkRanges | src/ui/view.js:455-474 | Exactly those links are removed after the scan; unknown-protocol links stay |
| View.CheckLinkRangesIdempotent | src/ui/view.js:455-474 | Pruning twice is pruning once |
| View.WearableBox | src/ui/view.js:1169-1183 | The wearable box is x from 112 to 223 and y from 96 to 189 |
| View.WearableNeverInBin | src/ui/view.js:1165-1167 | A node inside the wearable box is never in the bin region |
| View.Clamp | src/ui/view.js:1169-1183 | The clamped value lies in the range, and a value already inside is unchanged |
| View.ClampNearest | src/ui/view.js:1169-1183 | The clamped value is the point of the range nearest the input |
| View.ClampIdempotent | src/ui/view.js:1169-1183 | Clamping twice is clamping once |
| View.IntoWearableBox | src/ui/view.js:1169-1183 | Only the position changes, and it ends up inside the wearable box |
| View.WearablePos | src/ui/view.js:1169-1183 | The source's comparisons compute the clamp into the box |
| View.CheckWearablePos | src/ui/view.js:1169-1183 | Only that node moves, into the box |
| View.IntoWearableBoxKeepsInside | src/ui/view.js:1169-1183 | A node already in the box stays put |
| View.MinOverBounds | src/ui/view.js:834-845 | The running minimum starts at 0, bounds every value and is 0 when none is negative |
| View.MoveAllMoves | src/ui/view.js:834-853 | Moving a selection applies the move to exactly the selected nodes and keeps the rest |
| View.TwoPasses | src/ui/view.js:830-856 | The shift and the correction together move every selected node by one common offset |
| View.MovedClear | src/ui/view.js:830-856 | After the correction every moved node lies inside the canvas, with its left and top edges at least 0 |
| View.MoveSelectionSound | src/ui/view.js:830-856 | Moving the selection is one common shift of the selected nodes that keeps them inside the canvas |
| View.ShiftAndMeasure | src/ui/view.js:834-845 | The first loop shifts each selected node and measures the smallest left and top edges |
| View.ShiftBack | src/ui/view.js:847-853 | The second loop shifts each selected node back by the measured overshoot |
| View.RemovedAll | src/ui/view.js:857-882 | Removing the selected nodes one by one removes exactly them and their incident links |
| View.RemoveSelected | src/ui/view.js:857-882 | The selected nodes and exactly their incident links are removed |
| View.FindExisting | src/ui/view.js:979-982 | The scan reports a link iff one joins the same source port to the same target |
| View.Canvas.constructor | src/ui/view.js:40-58 | The canvas starts with no selection and clean |
| View.Canvas.MoveSelection | src/ui/view.js:830-856 | The selected nodes move by one common offset that keeps them on the canvas; nothing else moves |
| View.Canvas.DeleteSelection | src/ui/view.js:857-882 | The selected nodes with their links, and the selected link, are removed; the selection is emptied and the canvas marked dirty when something was selected |
| View.Canvas.PortMouseUp | src/ui/view.js:930-1000 | Same-facing ports and self links are refused; the output end is the source; a link is added exactly when no link joins the same source port to the same target and `canBeLinked` allows it |
| View.JoinKeepsDistinct | src/ui/view.js:979-988 | Adding a link only when none joins the same source port to the same target keeps those joins distinct |
| TabInfo.Truncate | src/ui/tab-info.js:61-65 | Strings over 30 characters become their first 30 followed by " ..."; shorter ones are unchanged |
| TabInfo.JsonFilter | src/ui/tab-info.js:28-43 | The root passes through; arrays become "[array:N]", objects and null "[object]", long strings are cut, the rest pass |
| TabInfo.JsonFilterFlattens | src/ui/tab-info.js:28-43 | A filtered non-root value is never an array or an object |
| TabInfo.EscapeIsEach | src/ui/tab-info.js:65 | Escaping '&' first makes the three replacements equal to escaping each character once |
| TabInfo.EscapeNoAngles | src/ui/tab-info.js:65 | Escaped text holds no '<' and no '>' |
| TabInfo.UnescapeEscape | src/ui/tab-info.js:65 | Unescaping escaped text gives back the input |
| TabInfo.StringCell | src/ui/tab-info.js:103-107 | A string cell holds no markup and reads back as the cut value |
| TabInfo.ClearText | src/ui/tab-info.js:134-147 | The text is prefixed by its kind and always ends with '.' or '!' |
| Application.UnknownNameList | src/main.js:49-58 | Lists exactly the names of the nodes of type "unknown" |
| Application.SaveGuard | src/main.js:47-76 | Saving is blocked iff some node is invalid, never validated, or unknown, or, when all nodes are valid, some link is invalid; the unknown names come once each in first-seen order |
| Application.UnknownListSound | src/main.js:49-58 | The names shown are distinct, exactly those of the unknown nodes, in first-seen order |
| Application.UnknownRefuses | src/main.js:47-76 | There are no unknown names iff there is no unknown node |
| Application.Committed | src/main.js:112-121 | A changed node becomes dirty and unchanged; other nodes are untouched |
| Application.CommittedIdempotent | src/main.js:112-121 | Committing twice is committing once |
| Application.CommitChanges | src/main.js:112-121 | Every stored node is committed in place, and the store keeps its ids and stays valid |
| Application.Save | src/main.js:46-124 | An unforced save is refused exactly when the guard blocks, reporting the unknown names; otherwise the changes are committed locally |
| Application.SuggestionHtml | src/main.js:270-275 | The rendered advice is never empty |
| Application.SuggestionHtmlReadBack | src/main.js:270-275 | A problem ends with '!' and anything else with '.'; the text can be read back between the fixed prefix and the terminator |
| Application.DefaultOptions | src/main.js:34-38 | The default options are exactly `testOption` set to false |
| Application.OverlayHas | src/main.js:289-293 | After import, a key is present iff it was before or is named in the global options |
| Application.OverlayKeeps | src/main.js:289-293 | A key the global options do not name keeps its value |
| Application.OverlayLastWins | src/main.js:289-293 | A named key takes the value of its last naming |
| Application.OverlayIdempotent | src/main.js:289-293 | Importing the same options twice is importing them once |
| Application.AppOptions.constructor | src/main.js:32-39 | Options start as the defaults |
| Application.AppOptions.ResetOptions | src/main.js:34-38 | Options become the defaults |
| Application.AppOptions.ImportOptions | src/main.js:289-293 | Options become the old options overlaid with the global ones |
| Utils.Includes | utils.js:19-21 | True iff the element occurs in the array |
| Utils.TrimIdempotent | utils.js:30-35 | Trimming twice is trimming once |
| Utils.TrimEnds | utils.js:30-35 | Trimmed text neither starts nor ends with whitespace |
| Utils.BaseName | utils.js:48-50 | The result is the text after the last '/' or '\\', holds neither separator, and is the whole path when there is none |
| Utils.JoinSplit | utils.js:113 | `String.prototype.split` on one character (as for ',' here, '&', '=' and ':' at utils.js:101-115 and ',' at src/validators.js:44): joining the pieces with that character gives back the input |
| Utils.SplitJoin | utils.js:113 | The one-character split undoes the join: splitting pieces free of the separator, joined by it, gives back the pieces |
| Utils.SplitList | utils.js:51-53 | Splitting on /,\s*/ is splitting on ',' and dropping leading spaces after each comma |
| Utils.ExtractLast | utils.js:54-56 | The last item holds no comma and no leading space, and is the whole term when there is no comma |
| Utils.ExtractLastAfterComma | utils.js:54-56 | The last item of a term is the last item of what follows its first comma |
| Utils.TrimComma | utils.js:57-59 | The trimmed value, with at most one trailing comma removed |
| Utils.TrimCommaOnce | utils.js:57-59 | Only one trailing comma is removed |
| Utils.Oc | utils.js:60-67 | The object's keys are exactly the array's elements, each mapped to "" |
| Utils.GetValue | utils.js:72-75 | null and undefined become "", a function gives its result, any other value is returned |
| Utils.FindInArray | utils.js:77-82 | Returns the first element that passes, and none exactly when no element does |
| Utils.PlusToSpace | utils.js:103 | Every '+' becomes a space and nothing else changes |
| Utils.GetQueryString | utils.js:96-107 | The map is built from the '&'-pieces with exactly one '='; "" gives the empty map |
| Utils.QueryLastWins | utils.js:96-107 | A key is present iff some piece names it, and it holds the value of its last piece |
| Utils.AssignLastWins | utils.js:109-129 | Keys assigned in order take their last value |
| Utils.PropertiesToObject | utils.js:109-129 | The empty string gives the empty object; otherwise the comma-separated entries are assigned in order |
| Utils.PropertyEntryFlag | utils.js:114-127 | A piece without ':' is its trimmed name set to true |
| Utils.PropertyEntryNumber | utils.js:114-127 | "name:digits" is the trimmed name set to the number |
| Utils.PropertyForDisplay | utils.js:171-175 | Values too long to fit 35 characters with the name are cut and get "..."; the name and result together fit when the name is at most 32 long |

## Left out

- Drawing, dragging, touch input, zoom, tabs, dialogs and the HTML tables of the sidebar are not modelled. Only the graph rules those handlers apply are kept.
- Persistence and network I/O are not modelled: localStorage, the AJAX save and flow loading, the credentials requests and the settings fetch. The done list lives in memory. The constructor of `Achievements.DoneList` takes the stored list as a parameter.
- Timers are not modelled: one run of `mainLoop` is the method `Game.GameState.Tick`. The intro dialog of `start` is not modelled.
- Randomness: the random draws of `getSuggestion` are an oracle `coin: nat -> bool`. `getRandomID` is replaced by the assumption that ids are unique.
- Floating point is idealised:
  - Coordinates and distances are reals. Range checks compare squared distances instead of taking a square root.
  - `Math.round` of a non-negative ratio is exact half-up rounding.
  - Link-length rounding, stroke widths and view scale factors are not modelled.
- JavaScript number conversion is an input `Option<real>`, where `None` stands for NaN and the infinities. `parseInt` of a cost is an already-parsed `Option<int>`. `decodeURIComponent` is a function parameter. The regular-expression validator and type-descriptor callbacks (`validate`, `oneditsave`, labels) are given as values.
- JSON parsing and stringifying are not modelled. `jsonFilter` is modelled on a `Value` datatype standing for parsed JSON.
- Whitespace for `trim` is the JavaScript whitespace set as a character predicate. No other Unicode behaviour is modelled.
- Object identity is modelled as id or value equality:
  - Node lookups compare ids strictly. The source's loose `==` on ids is not modelled.
  - `links.indexOf(l)` is the first equal link.
  - Workspace objects are compared by id.
  - Property names of unknown nodes are compared as values.
- `for … in` over objects is modelled in insertion order. `importOptions` receives the global options as an ordered list of key and value pairs. String or array globals are not modelled.
- Import.ImportNodes: the workspace and tab mapping, the options item, link-typed items and `createNewIds` are not modelled. Imported ids are required to be fresh, as `importNodes` assumes when it keeps the given ids.
- Import.ImportNodes: the `catch` path (src/nodes.js:677-683), which notifies and returns null, is not modelled. The items arrive already parsed and typed, so the failures it catches (unparsable JSON, an unknown item without `wires`, a link item naming a missing node) cannot be represented.
- Import.BuildNode: a missing coordinate becomes 0.0. The source copies `undefined` into the node (src/nodes.js:599-600), and node positions are reals here.
- Import.WireLinks: a port entry that is a single wire rather than an array is not wrapped (src/nodes.js:657). Items carry each port's wires as a list.
- Import.ImportNodes: the type's own `validate` function and its credentials are parameters, given per node; the `_def.validate` code of each type is not part of this model.
- Editor.UpdateNodeProperties: requires non-negative `outputs`, because the source's pop loop never ends for a negative count.
- View.Canvas.PortMouseUp: the touch path and the `mouse_mode` bookkeeping are not modelled. The guard requires both nodes to be stored, since a drag ends on a drawn node.
- View.Canvas.MoveSelection: the `ox`/`oy` drag bookkeeping and the per-node `dirty` flags of the drag are not modelled.
- Application.Save: only the local-save branch is modelled, because the application's settings mark the server read-only. `createCompleteNodeSet`, the AJAX request and the view's dirty flag are not modelled.
- `exportOptions` and `getOptions` return the options object unchanged. `Application.AppOptions.ExportOptions` is a plain reader with no contract.
- Utils.ExtractLast: does not state that the result is a suffix of the term; `Utils.ExtractLastAfterComma` pins it down instead.
- The `refreshNode` and `refreshLink` loops, which only concatenate HTML rows, are modelled by the cell function `TabInfo.StringCell`. Array values are not rendered.
- Palette registration, type lookup, `refreshValidation`, `removeAll`, `createExportableNodeSet`, `convertLink` and `getLinkProperties`/`getNodeProperties` are not modelled. They are outside the graph rules.
- The link dialog's assignment of the chosen protocol to the link is not modelled. Only the offered protocols and the removal of an invalid link are.
