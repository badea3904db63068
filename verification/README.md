# Verified models of the FLYNC configuration checks and the ARXML mapper

This Dafny project models the parts of the repository whose correctness is an argument over a whole graph, tree, run or
document, and proves what those parts guarantee. `dafny verify dfyconfig.toml` checks all of it.

| files | what they model |
|---|---|
| `Graphs`, `Sequences`, `Wrappers` | walks, reachability and acyclicity in finite graphs; sequence helpers; optional values |
| `Forwarders`, `ForwarderHops`, `CycleDetector`, `ForwarderRuns` | the forwarder graph of a workspace, its frame catalogue and two indexes; where a forwarder stands and leads in the workspace itself; the three-colour cycle detector, and the runs of a forwarded PDU |
| `DeployedForwarders`, `ForwarderExamples` | the forwarders where they are deployed, when the searched graph is theirs, and workspaces in which it is not |
| `Trees`, `TreeSize`, `InPlaceDeletion` | parsed data, and deletion at a location as a value and in place |
| `Repair`, `RepairSteps`, `RepairGuarantees` | the validate-and-repair loop over an arbitrary validator: what each error takes away, what a run keeps, when it ends, what its outcome means |
| `ListDeletion`, `ListRepair`, `ListRepairRuns`, `ListCleaning`, `AllReportRuns` | what the loop does to lists, in one round, in whole runs with one report a round, and in whole runs with all |
| `Multicast`, `MulticastSteps`, `LevelSearch`, `MulticastPaths`, `MulticastTables`, `MulticastValidation` | VLAN-restricted path exploration, its steps by the fields of the network, and the filling of the switches' multicast tables |
| `BitLayout`, `Placement`, `FrameLayout` | placement checks for signals, signal groups, PDUs and frames, what they accept by positions and lengths, and the layout of a whole frame |
| `DependencyTree`, `FieldTypes`, `ModelEdges` | the dependency tree of a model class, the models that its fields' types mention, and the edges that are collected from it |
| `Htb`, `HtbMeaning`, `HtbGuarantees` | hierarchical token buckets and their link |
| `Topology`, `TopologyMeaning`, `TopologyBinding` | resolving and binding the internal connections of an ECU |
| `DeepIter` | iterating an object graph with an explicit stack |
| `Bits`, `ValueEncoding`, `ValueMeaning` | bit masks, flags and bitfields of a signal |
| `ArxmlIndex`, `ArxmlResolution`, `ArxmlMeaning` | the ARXML index and reference resolution |
| `Datatypes`, `DatatypeKinds`, `DatatypeComparison` | the kind and expansion of a datatype and its comparison with a FLYNC datatype |
| `MappingRules`, `MappingMeaning`, `SelectionMeaning`, `MappingStatus`, `MappingGuarantees`, `MappedMeaning`, `EvidenceMeaning` | candidate selection, evidence and status |

Code that changes state is modelled as classes and methods with loops (`CycleDetector`, `RepairLoop`, `SwitchTables`,
`Extractor`, `Walker`, `UniqueKeys`, `SwitchPort`, `EcuPort`, `Interface`, `Comparison`, `Cell`); each method is proved
against a specification function or predicate, and the lemmas are about those. `ForwarderHops`, `RepairSteps`,
`MulticastSteps`, `Placement`, `FieldTypes`, `DatatypeKinds` and the files named `...Meaning` say what the specification
functions stand for: they define the same notions once more from the entities' own fields, with places and quantifiers
instead of recursion, and prove the two equal.

## Findings

Where the code and its documentation differ, the models follow the code. Each of these has a lemma.

* The cycle detector goes by names and keeps the last forwarder for each, and the last frame of each name in one
  catalogue for all buses. It misses a loop through an earlier forwarder of the same CAN frame and bus
  (`SharedFrameLoopIsMissed`) and one through a frame whose name a later bus gives to another frame
  (`SameFrameNameLoopIsMissed`), and it reports a loop that does not exist between controllers of the same name on
  different ECUs, whose names nothing keeps apart (`SameNameLoopIsNotDeployed`). The searched graph is the deployed one if
  and only if every forwarder feeds exactly those that are the last ones deployed under the names it sends to
  (`ResolvedIsDeployedIff`). Where the catalogue fits the buses, as when frame names differ (`DifferentNamesFit`), this
  means that of the forwarders of those names the last one, and no other, is where the egress leads (`NamesLeadIff`).
* The repair loop documents that it removes the offending item. In a list, a pop moves the later items down within the
  same round: a round removes the items it names exactly when their indices come in descending order
  (`RoundRemovesNamedIff`), and validation reports them first to last, so exactly when there is one (`AscendingRoundIff`).
  A validator that reports one bad item a round has a list cleaned exactly when no two bad items are neighbours; otherwise
  the loop gives up on data it could have repaired (`FirstReportIff`). With all bad items reported, the whole run is that
  of a small machine on the list (`AllReportedRun`), and a list gets clean only if every beginning of it does
  (`PrefixDecides`). So the loop gives up on every list whose first two bad items are neighbours (`NeighboursGiveUp`). With
  exactly two bad items it accepts if and only if they are not neighbours, and then loses no good item if and only if the
  second is the last item (`TwoReportedIff`).
* Deletion in place of an entry of a dictionary or list that the data holds twice, as with a YAML alias, deletes it in both
  places. What is left is the data without the named entry if and only if the container occurs once (`LostValueIff`,
  `SharedCellIsHitTwice`).
* Line 67 of `multicast_paths.py` compares an interface's name with the name of a list, which raises. `ComputePath` takes
  `strict`: with it the line is read as written, and the search raises, where nothing is hidden from it, exactly when an
  interface has a VLAN sibling ahead on some level; without it the line is read as the same comparison with the
  component's name, as line 35 has it.
* The multicast search compares components by name. Two interfaces of one name on controllers of one name, on different ECUs,
  are the same to it; the search is complete if and only if no component is hidden in this way
  (`LevelSearch.ExploringEnds`, `SecondCpuIsMissed`).
* `collect_edges` promises all edges reachable from the root. An edge that does not leave the root is missed exactly when
  its child lies on every way to its parent (`CollectedIff`, `AllEdgesIff`), so a model other than the root with a field of
  its own type loses that edge (`RecursiveModelLosesAnEdge`).
* The ceiling check of a token bucket also rejects every negative ceiling above a child (`CeilCheckIff`).
* An ECU port lists one component per name, although switch port names are unique only within a switch. It lists all its
  partners if and only if their names differ (`ListsAllIff`); an accepted ECU in which it does not is
  `NamesakePortIsNotListed`.
* `find_all` promises all instances. An instance is found exactly if some way to it meets no other instance first
  (`VisibleIff`, `NestedTargetIsMissed`).
* A bitfield group promises exactly one active state; there is at most one, and one for every raw value exactly when the
  states cover all values of the mask (`SomeStateIff`).
* The ARXML index is independent of the order of discovery exactly when every key identifies its element
  (`OrderMattersIff`). Siblings with the same tag and the same SHORT-NAME share a key; files are visited in sorted order,
  so such an index is still the same from run to run, but a key may lead to another element than the one that was
  resolved (`ResolvedLeadsToTarget` needs identifying keys).
* For an element with a rule, a reference of its candidate that does not resolve at all does not keep it from being mapped;
  only an ambiguous one does (`MappedIff`). A datatype element needs all its type references resolved (`DatatypeMappedIff`).

## Assumptions

* Objects that the source compares by `id` are distinct values here: forwarders and controllers carry an object identity,
  components, cells and ports are compared as they are.
* Field constraints that pydantic has checked before a validator runs hold: bit lengths, PDU lengths and masks are
  positive, positions and frame lengths are not negative.
* When the strict reading of the multicast search raises is determined for searches from which nothing is hidden, as in
  every network whose different components differ in the attributes by which the source compares them (kind, name, and name
  of the switch or controller).
* The bound by the size of the data holds for validators whose answer depends on the data only, as `validate_python(working)`
  does. An oracle whose answers change from round to round needs a finite stock of error locations.
* In the deployed graph an egress leads where the source says it does: to the sockets of its name on the sender's own
  controller, or to the frames of its id, in either id format, on its bus. Ethernet traffic from ECU to ECU is not followed.
* The examples of forwarder loops show the forwarders; the `pdu_sender` deployments and `sender_frames` that the locality
  checks ask for at their egresses are taken to be there.
* `MappingRules` takes as parameters how two values compare after `normalize_scalar`, which values normalize to
  integers, the table of rules, whose tags are not empty, and the primitive names, longest first (the source sorts a set
  by length, which leaves the order of names of one length open).

## Model

| member | source | states |
|---|---|---|
| `Forwarders.BuildSocketIndex` | src/flync/core/utils/forwarder_validators.py:158-170 | nested loops over controllers, sockets and forwarders leave, for each (controller, socket, PDU), the forwarder assigned last |
| `Forwarders.BuildFrameCatalogue` | src/flync/core/utils/forwarder_validators.py:210-220 | nested loops over buses and their frames leave one catalogue for all buses, by frame name |
| `Forwarders.CatalogueKeepsLast` | src/flync/core/utils/forwarder_validators.py:217-219 | a name is in the catalogue exactly if some frame has it, and it holds the last such frame, whatever its bus |
| `ForwarderHops.EntriesInOrder` | src/flync/core/utils/forwarder_validators.py:94-103 | the entries of the workspace are one for each position in a socket or CAN interface of a controller, with that controller's identity and name and the carrier's name, sockets first, then by controller, carrier and position |
| `ForwarderHops.NodesStand` | src/flync/core/utils/forwarder_validators.py:626-630 | a forwarder is a node exactly if it is in a socket or a CAN interface of some controller |
| `ForwarderHops.CatalogueGoesByName` | src/flync/core/utils/forwarder_validators.py:210-220 | a name leads to the last frame of that name, by bus and position |
| `Forwarders.BuildCanIndex` | src/flync/core/utils/forwarder_validators.py:173-188 | the same for (bus, CAN id); a forwarder whose frame is not in the catalogue gets no key |
| `Forwarders.IndexKeepsLast` | src/flync/core/utils/forwarder_validators.py:167-187 | a key is in the index exactly if some deployed forwarder has it, and it holds the last such forwarder |
| `Forwarders.ResolvedListens` | src/flync/core/utils/forwarder_validators.py:649-661 | an egress resolves exactly when some deployed forwarder listens at its target, and then to one that does |
| `Forwarders.NeighbourIsResolved` | src/flync/core/utils/forwarder_validators.py:663-670 | the neighbours of a forwarder are exactly what its egresses resolve to |
| `ForwarderHops.EdgesAreHops` | src/flync/core/utils/forwarder_validators.py:649-670 | the graph has an edge exactly where an egress leads: to the forwarder at the last position with the PDU on a socket of the name, of a controller named like the sender's, or at the last position on the bus whose frame has the id |
| `CycleDetection.CycleDetector.constructor` | src/flync/core/utils/forwarder_validators.py:621-641 | all forwarders white, no parents, both indexes built |
| `CycleDetection.CycleDetector.Neighbours` | src/flync/core/utils/forwarder_validators.py:663-670 | returns the adjacency list of the resolved graph |
| `CycleDetection.CycleDetector.CycleNodes` | src/flync/core/utils/forwarder_validators.py:679-687 | the walk up the parent map ends and returns the stack segment from the grey node to the current one, closed up |
| `CycleDetection.CycleDetector.VisitNeighbour` | src/flync/core/utils/forwarder_validators.py:702-717 | a grey neighbour yields a simple cycle; otherwise the neighbour is black afterwards and the grey nodes are still exactly the call stack |
| `CycleDetection.CycleDetector.Dfs` | src/flync/core/utils/forwarder_validators.py:719-724 | the node and all its neighbours end up black, with the stack invariant restored; recursion is bounded by the white nodes |
| `CycleDetection.CycleDetector.Detect` | src/flync/core/utils/forwarder_validators.py:726-730 | returns without raising if and only if the resolved graph has no cycle, self-loops included; then all nodes are black and a rank drops along every edge; otherwise the reported loop is a simple cycle |
| `DepthFirst.FinishedRanks` | src/flync/core/utils/forwarder_validators.py:719-730 | the order of finishing ranks the graph, so it is acyclic |
| `ForwarderRuns.RunsTerminate` | src/flync/core/utils/forwarder_validators.py:649-670 | in an accepted workspace a run of hops visits no forwarder twice, so it visits at most as many as there are |
| `ForwarderRuns.CycleRunsForever` | src/flync/core/utils/forwarder_validators.py:702-715 | a rejected workspace has runs of every length |
| `ForwarderRuns.DetectForwarderCycles` | src/flync/core/utils/forwarder_validators.py:733-736 | returns without raising exactly if no hops of the workspace lead back to where they started; acceptance bounds every run, and rejection comes with such a loop and unbounded runs |
| `DeployedForwarders.ResolvedIsDeployedIff` | src/flync/core/utils/forwarder_validators.py:158-188 | the searched graph is the deployed one, in which a forwarder listens where its own controller or bus has it, if and only if every forwarder feeds exactly those that are the last ones deployed under the names it sends to |
| `DeployedForwarders.AcceptanceCoversDeployment` | src/flync/core/utils/forwarder_validators.py:726-736 | under that condition a workspace is accepted exactly if the deployed graph is acyclic |
| `DeployedForwarders.NamesLeadIff` | src/flync/core/utils/forwarder_validators.py:158-188 | where the catalogue holds the frames that the forwarders' own buses declare, the condition comes to this: of all forwarders that go by the names an egress sends to, the last one deployed, and no other, is on the sender's own controller, or on any controller if the egress sends to a bus |
| `DeployedForwarders.DifferentNamesFit` | src/flync/core/utils/forwarder_validators.py:210-220 | the catalogue holds those frames when different frames have different names and each forwarder's bus declares its frame |
| `ForwarderExamples.SharedFrameLoopIsMissed` | src/flync/core/utils/forwarder_validators.py:183-187 | two gateways forward one CAN frame of a bus: the first feeds itself, and the search finds no cycle |
| `ForwarderExamples.SameFrameNameLoopIsMissed` | src/flync/core/utils/forwarder_validators.py:210-220 | two buses declare a frame of one name with different ids: a gateway on the first feeds itself, is indexed under the id of the second, and the search finds no cycle |
| `ForwarderExamples.SameNameLoopIsNotDeployed` | src/flync/core/utils/forwarder_validators.py:163-170 | two controllers of the same name on different ECUs: the search finds a cycle that no deployed forwarder takes part in |
| `Trees.DeleteAtPrunes` | src/flync/core/utils/exceptions_handling.py:299-329 | deletion at any location only deletes: dictionaries shrink, lists keep a subsequence, leaves stay |
| `Trees.DeleteAtIsExact` | src/flync/core/utils/exceptions_handling.py:299-329 | on list-free data a path is gone afterwards exactly when it lies at or below the location; leaves are untouched |
| `Trees.DeletionMeaning` | src/flync/core/utils/exceptions_handling.py:299-329 | on any data the container at the location loses the named entry, a list closing the gap; everything beside it stays, and without such an entry nothing changes |
| `Trees.PrunedTransitive` | src/flync/core/utils/exceptions_handling.py:471-535 | deletions compose to deletions |
| `InPlaceDeletion.WalkDown` | src/flync/core/utils/exceptions_handling.py:315-323 | the loop over all keys but the last ends at the container they lead to, or gives up exactly when they lead nowhere |
| `InPlaceDeletion.DeleteAtLoc` | src/flync/core/utils/exceptions_handling.py:299-329 | mutating one container in place removes the entry wherever the data holds that container; the store then has the shape of the deleted data, and the data left has its value, if and only if the container occurs once |
| `InPlaceDeletion.DeletionLaysShapeIff` | src/flync/core/utils/exceptions_handling.py:325-329 | changing the one container at the end of a path gives the heap the shape of the deleted data if and only if no other path leads to that container |
| `InPlaceDeletion.LostValueIff` | src/flync/core/utils/exceptions_handling.py:325-329 | the data left is, as a value, the data without the named entry if and only if no other path leads to the changed container |
| `InPlaceDeletion.LostEverywhereIsLaid` | src/flync/core/utils/exceptions_handling.py:325-329 | whatever is shared, the entry is gone exactly where the changed container occurs |
| `InPlaceDeletion.DeletedValue` | src/flync/core/utils/exceptions_handling.py:299-329 | deleting in the heap shape and deleting in the value agree |
| `InPlaceDeletion.DeletedStaysSeparate` | src/flync/core/utils/exceptions_handling.py:299-329 | after a deletion the data is again free of sharing, ready for the next one |
| `InPlaceDeletion.SeparateIsUnshared` | src/flync/core/utils/exceptions_handling.py:299-329 | in data without sharing every deletion meets the condition |
| `InPlaceDeletion.SharedCellIsHitTwice` | src/flync/core/utils/exceptions_handling.py:325-329 | an object held under two keys loses its entry under both, so the data is not the deleted data |
| `Repair.GetUniqueErrors` | src/flync/core/utils/exceptions_handling.py:354-380 | the errors without repetitions, each at its first occurrence |
| `Repair.NoProgressIff` | src/flync/core/utils/exceptions_handling.py:506-535 | a round removes nothing new exactly when every error is blocked by an earlier removal, and then changes nothing at all |
| `Repair.ProcessIsSound` | src/flync/core/utils/exceptions_handling.py:491-535 | one round keeps: working data pruned from the input, every removed location at or above a collected error, major-removed within removed |
| `Repair.NeverBecomesMajor` | src/flync/core/utils/exceptions_handling.py:471-535 | a location removed for another reason never becomes major-removed |
| `Repair.RunIsSound` | src/flync/core/utils/exceptions_handling.py:538-612 | the invariant holds after every number of rounds, for every validator |
| `Repair.RoundsAreBounded` | src/flync/core/utils/exceptions_handling.py:564-588 | when the validator names only locations of a prefix-closed set, n continuing rounds remove at least n of them |
| `TreeSize.SizeMeaning` | src/flync/core/utils/exceptions_handling.py:299-329 | the number that bounds the rounds is that of the locations in the data |
| `TreeSize.DeletionShrinks` | src/flync/core/utils/exceptions_handling.py:299-329 | a deletion leaves the data as it is or with fewer nodes |
| `Repair.StalledRoundIsLast` | src/flync/core/utils/exceptions_handling.py:566-588 | a round that leaves the data as it is repeats its errors in the next round, all of them blocked, so that one does not continue |
| `Repair.DeterminedRunsAreBounded` | src/flync/core/utils/exceptions_handling.py:564-588 | a validator whose answer depends on the data only, as `validate_python(working)` does, keeps the loop going for no more rounds than the data has nodes |
| `Repair.RepairLoop.CollectOriginalError` | src/flync/core/utils/exceptions_handling.py:471-488 | records the error and removes its location from the working data |
| `RepairSteps.StepMeaning` | src/flync/core/utils/exceptions_handling.py:491-535 | one error in full: a nested fatal one takes the enclosing place, any other its own; it is recorded and deleted, follows silently from an earlier removal, or changes nothing |
| `RepairSteps.RoundMeaning` | src/flync/core/utils/exceptions_handling.py:491-535 | a round handles its errors in turn |
| `RepairSteps.UniqueMeaning` | src/flync/core/utils/exceptions_handling.py:354-380 | the errors without repetitions are those at their first occurrences, in that order |
| `RepairSteps.TakenIsGone` | src/flync/core/utils/exceptions_handling.py:512-535 | after a round on list-free data nothing is left at the place that an error takes away, unless a major error had taken the error's own place |
| `RepairSteps.RemovedWasReported` | src/flync/core/utils/exceptions_handling.py:491-535 | every location removed in a run was taken away by an error of an earlier round |
| `RepairSteps.IncompleteObjectIsDropped` | src/flync/core/utils/exceptions_handling.py:512-535 | a document whose only error is a field missing in an object is returned without that object |
| `Repair.RepairLoop.ProcessErrorList` | src/flync/core/utils/exceptions_handling.py:491-535 | one round equals its specification; the flag says exactly whether something new was removed |
| `Repair.RepairLoop.Attempt` | src/flync/core/utils/exceptions_handling.py:565-588 | one turn of the loop, with its four ways out |
| `Repair.RepairLoop.ValidateWithPolicy` | src/flync/core/utils/exceptions_handling.py:538-615 | the loop ends, with the outcome of its last round: for every validator that depends on the data only, within as many rounds as the data has nodes; for any other whose error locations lie in a finite prefix-closed set, within as many as the set has locations |
| `RepairSteps.RunMeaning` | src/flync/core/utils/exceptions_handling.py:538-612 | the whole loop in terms of the errors: rounds one after the other from the input, and then the way out with exactly the recorded errors and warnings, or the raised ones |
| `RepairGuarantees.NoSilentLoss` | src/flync/core/utils/exceptions_handling.py:354-380 | whenever the loop returns, each removed location, silent escalations included, is a prefix of the location of a returned error |
| `RepairGuarantees.OnlyDeletions` | src/flync/core/utils/exceptions_handling.py:299-329 | the working data is the input with deletions only; on list-free input exactly the removed locations are gone |
| `RepairGuarantees.OutcomeMeaning` | src/flync/core/utils/exceptions_handling.py:565-588 | a returned model was accepted from the repaired data; giving up means that every reported error is stuck |
| `RepairGuarantees.EscalationNeverStartsAtMajor` | src/flync/core/utils/exceptions_handling.py:518-524 | a silent escalation starts from a location that is not major-removed then or ever after |
| `ListDeletion.RemovesNamedIff` | src/flync/core/utils/exceptions_handling.py:325-329 | popping a duplicate-free batch of positions removes the named items exactly when it is in descending order |
| `ListDeletion.AscendingSurvivors` | src/flync/core/utils/exceptions_handling.py:325-329 | in ascending order the j-th pop removes the position j places behind the one it names |
| `ListRepair.RoundPops` | src/flync/core/utils/exceptions_handling.py:506-535 | a round of errors about the items of a list, at any place in the data, pops the named indices in turn, a repeated one once, and leaves all other data alone |
| `ListRepair.RoundRemovesNamedIff` | src/flync/core/utils/exceptions_handling.py:506-535 | exactly the named items go if and only if the indices, each at its first occurrence, come in descending order |
| `ListRepair.AscendingRoundIff` | src/flync/core/utils/exceptions_handling.py:506-535 | errors that name the items first to last remove exactly these if and only if there is at most one |
| `ListRepairRuns.FirstReportIff` | src/flync/core/utils/exceptions_handling.py:564-588 | when validation reports the first bad item of a list each round, the run ends accepted, with exactly the good items left, if and only if no two bad items are neighbours; otherwise the loop gives up |
| `AllReportRuns.AllReportedIff` | src/flync/core/utils/exceptions_handling.py:506-535 | when it reports all bad items, the first round leaves exactly the good items if and only if there was one bad item |
| `ListCleaning.PrefixDecides` | src/flync/core/utils/exceptions_handling.py:506-535 | a list of which all bad items are named in every round gets clean only if every beginning of it does, and what is left of the beginning begins what is left of the list |
| `AllReportRuns.AllReportedRun` | src/flync/core/utils/exceptions_handling.py:564-588 | with all bad items reported the run ends as that machine on the list alone does: accepted with exactly the list it leaves, or given up |
| `AllReportRuns.NeighboursGiveUp` | src/flync/core/utils/exceptions_handling.py:512-516 | whenever the first two bad items of a list are neighbours the loop gives up, whatever follows them |
| `AllReportRuns.TwoReportedIff` | src/flync/core/utils/exceptions_handling.py:506-535 | with exactly two bad items the run is accepted if and only if they are not neighbours, and an accepted run leaves exactly the good items if and only if the second is the last item |
| `Multicast.CheckObjInList` | src/flync/core/utils/base_utils.py:216-232 | true exactly if some listed component has the same kind, name and owner |
| `Multicast.SwitchPortInVlan` | src/flync/model/flync_4_ecu/switch.py:182-186 | true exactly if some VLAN entry of the switch with that id names the port |
| `Multicast.VlanPortsMeaning` | src/flync/model/flync_4_ecu/switch.py:169-180 | the listed ports are exactly the switch's ports that some entry for the VLAN names |
| `Multicast.NextMeaning` | src/flync/core/utils/multicast/multicast_paths.py:13-68 | one step: VLAN-valid links, and for components other than the start the other ports of the switch or interfaces of the controller in the VLAN |
| `MulticastSteps.NextIsStep` | src/flync/core/utils/multicast/multicast_paths.py:13-68 | one step, by the network's own fields: a switch port's peer or anything an interface or ECU port lists, if the VLAN lets it pass; or, from a component other than the start, another port of its switch that a VLAN entry names, or another interface of its controller in the VLAN |
| `LevelSearch.ExploringContinues` | src/flync/core/utils/multicast/multicast_paths.py:104-136 | moving the frontier over and replacing it keeps: known components are reachable and their successors known, levels disjoint |
| `LevelSearch.LevelStep` | src/flync/core/utils/multicast/multicast_paths.py:106-136 | a level of the search is the components at that distance, or else a reachable component has been taken for a namesake and is missed for good |
| `LevelSearch.ExploringEnds` | src/flync/core/utils/multicast/multicast_paths.py:104-137 | at the end every reachable component is known if and only if nothing is hidden: the namesakes of a component are as far away as it is, and the start and its neighbours have none |
| `MulticastPaths.CheckVlanConnValid` | src/flync/core/utils/multicast/multicast_paths.py:71-87 | true exactly if the component is unseen and, where it has VLANs, in the VLAN |
| `MulticastPaths.ExploreLevel` | src/flync/core/utils/multicast/multicast_paths.py:106-133 | the new level is the unseen successors of the frontier, in order; under the strict reading it raises exactly when a name is compared |
| `MulticastPaths.ComputePath` | src/flync/core/utils/multicast/multicast_paths.py:90-137 | terminates; everything returned is reachable along VLAN-valid steps from the start's direct links, and it is everything reachable if and only if nothing is hidden; where nothing is hidden the strict reading raises exactly when a VLAN sibling lies ahead on some level |
| `MulticastSteps.EdgesAreSteps` | src/flync/core/utils/multicast/multicast_paths.py:13-68 | the searched graph has an edge exactly where there is such a step |
| `MulticastSteps.ReachesMeaning` | src/flync/core/utils/multicast/multicast_paths.py:90-137 | the search reaches exactly what has a way of such steps from the start |
| `MulticastSteps.OutcomeIsPath` | src/flync/core/utils/multicast/multicast_paths.py:90-137 | the path in these terms: everything on it has a way, and everything that has one is on it if and only if no component is taken for another one that is met on another level |
| `MulticastPaths.PathCarriesVlan` | src/flync/model/flync_4_ecu/switch.py:169-186 | every switch port and interface on a path other than its start belongs to the VLAN |
| `MulticastPaths.StrictRaises` | src/flync/core/utils/multicast/multicast_paths.py:66-68 | a linked interface with a sibling in the VLAN makes the strict reading compare a name, if the sibling does not go by the identity of the start or of a link of the start |
| `MulticastPaths.SecondCpuIsMissed` | src/flync/core/utils/base_utils.py:216-232 | two ECUs with an interface of the same name on a controller of the same name: the path misses the second, which is reachable |
| `MulticastTables.AppendPort` | src/flync/model/flync_model.py:404-410 | the port is appended to every group of the address, or to a new group if there is none |
| `MulticastSteps.WithPortMeaning` | src/flync/model/flync_model.py:404-410 | the port comes last in every group of the address, or alone in a new last group if there is none; all other groups stay |
| `MulticastTables.SwitchTables.AppendMcast` | src/flync/model/flync_model.py:400-410 | every entry for the VLAN of the port's own switch gets the port under the address, nothing else changes |
| `MulticastTables.SwitchTables.LoadSwitchMulticast` | src/flync/model/flync_model.py:412-417 | all paths are loaded |
| `MulticastTables.LoadedListing` | src/flync/model/flync_model.py:400-417 | a port is listed afterwards exactly if it was before or is a switch port of a loaded path with that VLAN and address |
| `MulticastValidation.ValidateMulticastPaths` | src/flync/model/flync_model.py:234-257 | after the pass the tables list what they listed before and only reached ports of each group's first transmitter; all of them, if nothing is hidden from the searches |
| `MulticastSteps.FilledMeaning` | src/flync/model/flync_model.py:234-257 | a port is listed after the pass only if it was before or has a way in the VLAN from the first interface that transmits to the group, and also if where no component is taken for another |
| `BitLayout.CollectBitRanges` | src/flync/core/utils/common_validators.py:822-837 | the ranges of the placed items, in order |
| `BitLayout.CheckBitRangesWithin` | src/flync/core/utils/common_validators.py:840-859 | accepts exactly if no range ends beyond the bound |
| `BitLayout.CheckBitRangesNoOverlap` | src/flync/core/utils/common_validators.py:862-886 | accepts exactly if no two ranges overlap |
| `BitLayout.SignalGroupFootprint` | src/flync/model/flync_4_signal/signal.py:410-421 | the largest end bit of the placed signals, 0 if none is placed |
| `BitLayout.FootprintCovers` | src/flync/model/flync_4_signal/signal.py:410-421 | no placed signal of a group ends beyond its footprint |
| `Placement.GroupRangeMeaning` | src/flync/model/flync_4_signal/pdu.py:353-369 | the range checked for a placed group starts at its position and ends where its last placed signal ends; there is none if no signal is placed |
| `BitLayout.ValidateSignalsNoOverlap` | src/flync/model/flync_4_signal/signal.py:373-377 | accepts exactly the groups whose placed signals do not overlap |
| `BitLayout.ValidateSignalsFitInPdu` | src/flync/model/flync_4_signal/pdu.py:98-104 | accepts exactly if signals and groups fit the PDU and do not overlap |
| `BitLayout.ValidateFrame` | src/flync/model/flync_4_communication/flync_channels.py:156-173 | accepts exactly the frames whose placed PDUs fit and do not overlap |
| `BitLayout.CollectUnknownPduRefs` | src/flync/model/flync_4_communication/flync_channels.py:138-145 | exactly the referenced names that the registry lacks |
| `BitLayout.ValidateConfig` | src/flync/model/flync_4_communication/flync_channels.py:115-135 | accepts exactly the configurations whose groups, PDUs, references and frames all pass their own check |
| `Placement.PduValidMeaning` | src/flync/model/flync_4_signal/pdu.py:98-104 | a PDU is accepted exactly if, by positions and lengths, every placed signal ends inside it, its own signals lie apart from each other, and each group lies wholly before or behind every other item |
| `Placement.ConfigValidMeaning` | src/flync/model/flync_4_communication/flync_channels.py:115-173 | a configuration is accepted exactly if all PDUs are so laid out, and in each frame all names are declared and the PDUs they last declare end inside the frame and lie apart |
| `FrameLayout.GroupLeavesNested` | src/flync/model/flync_4_signal/pdu.py:353-369 | the signals of a placed group lie inside the range that its PDU checks for the group |
| `FrameLayout.PduLeavesNested` | src/flync/model/flync_4_signal/pdu.py:98-104 | the leaf signals of a valid PDU are disjoint and inside the PDU |
| `FrameLayout.FrameLeavesNested` | src/flync/model/flync_4_communication/flync_channels.py:148-173 | the leaf signals of a frame are disjoint and each lies inside a placed PDU |
| `FrameLayout.AcceptedFramesFit` | src/flync/model/flync_4_communication/flync_channels.py:115-173 | in an accepted configuration the leaf signals of every CAN and LIN frame occupy pairwise disjoint bits inside its payload, so their lengths sum to at most 8 times its length |
| `Placement.SignalsShareNoBit` | src/flync/model/flync_4_communication/flync_channels.py:115-173 | in an accepted configuration any two placed signals of a frame, directly in PDUs or in groups, lie apart and inside the payload |
| `FrameLayout.DisjointRangesAddUp` | src/flync/core/utils/common_validators.py:862-886 | disjoint ranges occupy as many bits as their lengths add up to |
| `FrameLayout.GroupedSignalIsALeaf` | src/flync/model/flync_4_signal/signal.py:380-421 | no placed signal of a placed group in a placed PDU is missing from the leaves; its offset is the sum of the three positions |
| `FieldTypes.EdgeMeaning` | src/flync/sdk/utils/model_dependencies.py:26-81 | the field graph has an edge from a model to each model that the annotation of a followed field mentions: as such, as list item, dictionary value or any union argument, or inside `Annotated` |
| `FieldTypes.TreeMirrors` | src/flync/sdk/utils/model_dependencies.py:126-206 | the tree of a model has one entry for each followed field, in order, with its name, its marker and the shape of its annotation |
| `DependencyTree.Extractor.Extract` | src/flync/sdk/utils/model_dependencies.py:126-162 | terminates on any schema, restores the shared set of models on every way out, and returns the specified tree |
| `DependencyTree.Extractor.BuildStructure` | src/flync/sdk/utils/model_dependencies.py:165-206 | the same for the containers of a field |
| `DependencyTree.TreeUnfolds` | src/flync/sdk/utils/model_dependencies.py:126-206 | the paths of the tree are exactly the walks of the field graph whose models are distinct up to the last; the subtree there is expanded with exactly the path on the stack |
| `DependencyTree.CycleMarksRepeats` | src/flync/sdk/utils/model_dependencies.py:141-142 | a path ends in the cycle marker exactly when its last model already lies on it |
| `ModelEdges.Walker.WalkStructure` | src/flync/sdk/utils/model_dependencies.py:209-247 | restores the visited set and adds exactly the last edges of the trails of distinct models that avoid it |
| `ModelEdges.Walker.CollectEdges` | src/flync/sdk/utils/model_dependencies.py:250-272 | adds exactly the edges (p, c) at the end of a trail of distinct models from a field of the root, the root's own edges included |
| `ModelEdges.CollectedStep` | src/flync/sdk/utils/model_dependencies.py:237-247 | what a trail from a model collects: the edge to it, and what trails beyond it collect without coming back |
| `ModelEdges.CollectedIff` | src/flync/sdk/utils/model_dependencies.py:250-272 | a field edge is collected if and only if it leaves the root or some way to its parent avoids its child |
| `ModelEdges.CollectedChildren` | src/flync/sdk/utils/model_dependencies.py:250-272 | the children of the collected edges are exactly the models the root reaches by one edge or more |
| `ModelEdges.AllEdgesIff` | src/flync/sdk/utils/model_dependencies.py:250-272 | all reachable edges are collected exactly when none below the root leads back to a model that dominates its parent |
| `ModelEdges.AcyclicIsComplete` | src/flync/sdk/utils/model_dependencies.py:250-272 | on schemas without recursion all reachable edges are collected |
| `ModelEdges.SelfEdgeIsMissed` | src/flync/sdk/utils/model_dependencies.py:237-240 | a field of a model's own type is never collected, except at the root |
| `ModelEdges.RecursiveModelLosesAnEdge` | src/flync/sdk/utils/model_dependencies.py:237-247 | a class tree like that of the token buckets loses its recursive edge |
| `ModelEdges.Invert` | src/flync/sdk/utils/model_dependencies.py:302-315 | the child-to-parents map holds exactly the edges, with no empty entry |
| `Htb.CheckDefault` | src/flync/model/flync_4_tsn/qos.py:632-671 | in one tree: not a leaf if any inner class has the id, found if only leaves have it, absent otherwise |
| `Htb.FindDefault` | src/flync/model/flync_4_tsn/qos.py:606-612 | the first top-level tree that has the class decides |
| `Htb.CheckCeilGreaterThanRate` | src/flync/model/flync_4_tsn/qos.py:673-707 | accepts exactly if no class of the tree has a ceiling below its rate |
| `Htb.UniqueKeys.Check` | src/flync/model/flync_4_tsn/qos.py:709-783 | with a shared list of keys met so far, accepts exactly if no key repeats in the forest |
| `Htb.CheckRateConsistency` | src/flync/model/flync_4_tsn/qos.py:785-822 | accepts exactly if the children of no class are guaranteed more than it, and returns the sum of the top rates |
| `Htb.CheckCeilConsistency` | src/flync/model/flync_4_tsn/qos.py:824-860 | accepts exactly if no class lies below the largest of 0 and its children's ceilings, and returns that of the top classes |
| `Htb.ValidateHtbConfig` | src/flync/model/flync_4_tsn/qos.py:577-630 | returns the error of the first failing check in the order of the source |
| `HtbMeaning.AllInOrder` | src/flync/model/flync_4_tsn/qos.py:632-783 | the recursive checks meet every class of the forest exactly once, each before those below and beside it |
| `HtbMeaning.DefaultMeaning` | src/flync/model/flync_4_tsn/qos.py:606-671 | the first tree that has the default class decides: an inner class of the id in it is an error, otherwise it is found |
| `HtbMeaning.VerdictMeaning` | src/flync/model/flync_4_tsn/qos.py:577-630 | the error is that of the first check, in order, that fails at some class of the forest |
| `HtbGuarantees.AcceptedIff` | src/flync/model/flync_4_tsn/qos.py:577-630 | accepted exactly if the default class is the only class of its id and a leaf, ids and priorities are unique, and rates and ceilings nest |
| `HtbGuarantees.LeavesWithinNode` | src/flync/model/flync_4_tsn/qos.py:785-822 | the leaves under any class are together guaranteed no more than the class |
| `HtbGuarantees.DescendantsWithinCeil` | src/flync/model/flync_4_tsn/qos.py:824-860 | no class has a ceiling above that of any class above it |
| `HtbGuarantees.CeilCheckIff` | src/flync/model/flync_4_tsn/qos.py:824-860 | the ceiling check is the documented rule and, besides, no negative ceiling above a child |
| `HtbGuarantees.DefaultIsTheOnlyLeaf` | src/flync/model/flync_4_tsn/qos.py:606-671 | given unique ids the search finds the default class exactly if one leaf, and nothing else, has its id |
| `HtbGuarantees.ValidateHtb` | src/flync/core/utils/common_validators.py:535-560 | accepts exactly if interface or speed is missing or zero, or the top rates of all nodes sum to at most the speed |
| `HtbMeaning.SumOfBuckets` | src/flync/core/utils/common_validators.py:549-560 | the checked sum adds up the top rates of all nodes that have a bucket |
| `HtbGuarantees.LeavesWithinSpeed` | src/flync/core/utils/common_validators.py:549-560 | on an accepted link all leaf classes of all nodes are together guaranteed no more than its speed |
| `Topology.FindSwitchPortMeaning` | src/flync/model/flync_4_ecu/internal_topology.py:151-175 | an unscoped name is ambiguous exactly if two ports have it, missing exactly if none has, and otherwise resolves to the only one |
| `Topology.ScopedPortMeaning` | src/flync/model/flync_4_ecu/internal_topology.py:144-175 | a scoped name looks in the first switch of that name only: error 073 exactly if there is none, 075 exactly if no port there has the name, and otherwise the first such port |
| `TopologyMeaning.PortMeaning` | src/flync/model/flync_4_ecu/internal_topology.py:144-175 | what a reference to a switch port answers, by the places of switches and ports: the only port of the name, the first one in the first switch of the scope, or the error for none or several |
| `TopologyMeaning.InterfaceMeaning` | src/flync/model/flync_4_ecu/internal_topology.py:219-260 | the same for interfaces of controllers |
| `TopologyMeaning.LinkMeaning` | src/flync/model/flync_4_ecu/internal_topology.py:263-480 | a connection becomes the link of what its two references mean, in order, or fails with the first error |
| `Topology.LinkIsHeld` | src/flync/model/flync_4_ecu/internal_topology.py:275-281 | both ends of a bound connection are components of the ECU |
| `TopologyBinding.Attach` | src/flync/model/flync_4_ecu/internal_topology.py:275-281 | one end is told its partner in place: switch ports overwrite, interfaces append, ECU ports append unless the name is there |
| `TopologyBinding.BindAll` | src/flync/model/flync_4_ecu/ecu.py:177-182 | connections are bound in order up to the first that does not resolve, whose error is raised |
| `TopologyBinding.CheckSwitchPorts` | src/flync/model/flync_4_ecu/ecu.py:183-204 | accepts exactly if no switch port is an end of a link twice; the error is 209 if the first link that repeats a port links it to itself, and 210 otherwise |
| `TopologyMeaning.RefsMeaning` | src/flync/model/flync_4_ecu/ecu.py:183-204 | the check accepts exactly if no switch port is both ends of a link or an end of two |
| `TopologyBinding.ResolveTopologyConnections` | src/flync/model/flync_4_ecu/ecu.py:177-208 | the state after binding and checking, and exactly when it is accepted |
| `TopologyBinding.PortHoldsPartner` | src/flync/model/flync_4_ecu/internal_topology.py:275-281 | when no switch port is told twice, each holds the partner it was told: no bind overwrote another |
| `TopologyBinding.EndsPointAtEachOther` | src/flync/model/flync_4_ecu/internal_topology.py:413-420 | every switch port of an accepted connection points at the other end |
| `TopologyBinding.SwitchPortsAreMatched` | src/flync/model/flync_4_ecu/ecu.py:183-204 | over fresh components a connected switch port points at the other end of its only connection, and a linked switch port points back and is another port |
| `TopologyBinding.AcceptedIsMatching` | src/flync/model/flync_4_ecu/ecu.py:177-208 | switch-to-switch links form an involution without fixed points |
| `TopologyBinding.InterfaceListsPartners` | src/flync/model/flync_4_ecu/internal_topology.py:351-355 | an interface lists the partners of all its connections, in order |
| `TopologyMeaning.WiringMeaning` | src/flync/model/flync_4_ecu/internal_topology.py:275-281 | over fresh components a switch port holds its last partner, an interface lists all its partners link by link, and an ECU port the first of each name among them |
| `TopologyBinding.ListedAreFirstOfName` | src/flync/model/flync_4_ecu/internal_topology.py:278-279 | an ECU port lists exactly the partners that no earlier partner shares a name with |
| `TopologyBinding.ListsAllIff` | src/flync/model/flync_4_ecu/internal_topology.py:278-279 | an ECU port lists all its partners if and only if different partners have different names |
| `TopologyBinding.NamesakePortIsNotListed` | src/flync/model/flync_4_ecu/internal_topology.py:275-281 | two switches with a port of the same name, both wired to one ECU port: the topology is accepted, and the second switch port points at an ECU port that does not list it |
| `DeepIter.DeepIter` | src/flync/core/utils/base_utils.py:235-272 | terminates on cyclic graphs and yields, each exactly once, precisely the objects reachable without passing through a stop instance |
| `DeepIter.FindAll` | src/flync/core/utils/base_utils.py:278-291 | the target instances among them, each once |
| `DeepIter.VisibleIff` | src/flync/core/utils/base_utils.py:278-291 | an instance is found exactly when some way to it meets no other instance first |
| `DeepIter.NestedTargetIsMissed` | src/flync/core/utils/base_utils.py:258-260 | an instance inside another is missed |
| `DeepIter.FlatTargetsAreAllFound` | src/flync/core/utils/base_utils.py:278-291 | when no instance reaches another, all are found |
| `Bits.MaskSelects` | src/flync/model/flync_4_signal/value_encoding.py:136-141 | values put together inside disjoint masks are read back by their own masks |
| `ValueEncoding.ValidateFlags` | src/flync/model/flync_4_signal/value_encoding.py:285-302 | accepts exactly if labels are unique and masks pairwise disjoint |
| `ValueMeaning.FlagsMeaning` | src/flync/model/flync_4_signal/value_encoding.py:285-302 | flags are accepted exactly if labels differ and no bit belongs to two masks |
| `ValueMeaning.RangeMeaning` | src/flync/model/flync_4_signal/signal.py:320-332 | masks are in range exactly if no bit at the bit length or above is set |
| `ValueEncoding.CheckMasksInRange` | src/flync/model/flync_4_signal/signal.py:320-332 | accepts exactly if every mask is below 2 to the bit length |
| `ValueEncoding.FlagsRoundTrip` | src/flync/model/flync_4_signal/value_encoding.py:259-302 | any set of flags has a raw value below 2 to the bit length that decodes to exactly that set |
| `ValueMeaning.RawMeaning` | src/flync/model/flync_4_signal/value_encoding.py:259-270 | the raw value of a choice of flags has exactly the bits of their masks |
| `ValueEncoding.FlagsAreIndependent` | src/flync/model/flync_4_signal/value_encoding.py:259-270 | setting one more flag changes the decoding of no other |
| `ValueEncoding.ValidateStates` | src/flync/model/flync_4_signal/value_encoding.py:162-192 | accepts exactly if labels are unique, bounds lie inside the mask and ranges do not overlap |
| `ValueMeaning.GroupMeaning` | src/flync/model/flync_4_signal/value_encoding.py:162-192 | a group is accepted exactly if labels differ, no bound has a bit outside the mask, and no value belongs to two states |
| `ValueEncoding.ValidateGroups` | src/flync/model/flync_4_signal/value_encoding.py:216-233 | accepts exactly if all groups are valid, names unique and masks disjoint |
| `ValueMeaning.TableMeaning` | src/flync/model/flync_4_signal/value_encoding.py:216-233 | a table is accepted exactly if all its groups are, names differ, and no bit belongs to two masks |
| `ValueEncoding.AtMostOneState` | src/flync/model/flync_4_signal/value_encoding.py:136-143 | no raw value has two active states in a group |
| `ValueEncoding.SomeStateIff` | src/flync/model/flync_4_signal/value_encoding.py:136-143 | every raw value has an active state exactly when the states cover all values of the mask |
| `ValueEncoding.TableRoundTrip` | src/flync/model/flync_4_signal/value_encoding.py:195-233 | any choice of one state per group has a raw value that fits the signal and in which exactly those states are active |
| `ArxmlIndex.Group` | scripts/mapping_v3/arxml.py:43-56 | each value of an attribute maps to exactly the elements that have it, in key order |
| `ArxmlIndex.BuildIndex` | scripts/mapping_v3/arxml.py:37-56 | the elements sorted by key, the last element of each key, and the three groupings |
| `ArxmlMeaning.PathMeaning` | scripts/mapping_v3/arxml.py:43-56 | the path of an element is the names around it and its own, each behind a slash; unnamed elements have none |
| `ArxmlMeaning.ByKeyMeaning` | scripts/mapping_v3/arxml.py:41-43 | the index holds under a key the element of that key that was discovered last |
| `ArxmlIndex.LookUpIsScan` | scripts/mapping_v3/arxml.py:43-56 | a look-up by tag, name or path finds exactly what a scan of all elements finds |
| `ArxmlIndex.SortIsStable` | scripts/mapping_v3/arxml.py:41 | elements of one key keep their order of discovery |
| `ArxmlIndex.DiscoveryOrderIsIrrelevant` | scripts/mapping_v3/arxml.py:28-56 | with identifying keys two orders of discovery give the same index |
| `ArxmlIndex.OrderMattersIff` | scripts/mapping_v3/arxml.py:41-42 | the order shows exactly when some key has two different elements |
| `ArxmlResolution.CandidatesAreScanned` | scripts/mapping_v3/arxml.py:135-140 | the candidates, in key order, are elements with one of the tags, and the name if given, one for each key; they are all such elements if and only if no two of these share a key |
| `ArxmlResolution.TargetsAreScanned` | scripts/mapping_v3/arxml.py:142-164 | the targets found through the index are those of the rule applied to all elements: whole path first, then last name, narrowed to the owner's package if that leaves any |
| `ArxmlResolution.ResolveMeaning` | scripts/mapping_v3/arxml.py:142-171 | missing means no target, ambiguous two different ones or one that the document holds twice, resolved a single one; the keys are those of all targets |
| `ArxmlResolution.AnswersAreIndexed` | scripts/mapping_v3/arxml.py:148-170 | every key in an answer is in the index |
| `ArxmlResolution.ResolvedLeadsToTarget` | scripts/mapping_v3/arxml.py:148-168 | with identifying keys a resolved key leads back to the one target |
| `ArxmlMeaning.NormalizedMeaning` | scripts/mapping_v3/arxml.py:150 | of a reference, white space and then slashes are taken off both ends, and one slash is put in front |
| `ArxmlMeaning.TargetMeaning` | scripts/mapping_v3/arxml.py:149-171 | a reference may mean the elements of its path with the tag asked for, if there are any; otherwise those of its last name, and of these only the ones in the owner's packages, if there are any and the reference has no leading slash |
| `ArxmlMeaning.PathLeadsBack` | scripts/mapping_v3/arxml.py:149-171 | the path of an element that no other element has, used as a reference, resolves to that element |
| `Datatypes.ResolvedHasTarget` | scripts/mapping_v3/datatypes.py:79-81 | indexing with the first candidate of a resolved reference never fails |
| `DatatypeKinds.KindMeaning` | scripts/mapping_v3/datatypes.py:61-76 | the kind of an element by its tag and category, in order; a name is taken for the longest primitive that occurs in it, without capitals and underscores |
| `DatatypeKinds.NodeMeaning` | scripts/mapping_v3/datatypes.py:56-91 | a node has the element's kind and name and, in order, one child for each reference to a type: the expansion of its target, or a note that it does not resolve |
| `DatatypeKinds.TrailMeaning` | scripts/mapping_v3/datatypes.py:56-91 | along a trail, each step takes the reference to a type at the given position to what it leads to |
| `Datatypes.ExpansionFollowsTrail` | scripts/mapping_v3/datatypes.py:56-91 | the expansion terminates; along any trail of resolving references it goes exactly as far as no element repeats, and the node there is that element's expansion with the trail entered |
| `Datatypes.CycleMarksRepeat` | scripts/mapping_v3/datatypes.py:57-59 | a cycle node stands exactly where a resolved target is already on the path |
| `Datatypes.DepthIsBounded` | scripts/mapping_v3/datatypes.py:56-91 | the tree is at most one level deeper than there are indexed elements |
| `DatatypeComparison.Comparison.Walk` | scripts/mapping_v3/datatypes.py:107-130 | appends exactly the specified evidence |
| `DatatypeComparison.CompareDatatypes` | scripts/mapping_v3/datatypes.py:102-133 | the evidence of the whole comparison |
| `MappedMeaning.ComparedMeaning` | scripts/mapping_v3/datatypes.py:107-130 | the evidence is one note for each position of the FLYNC tree up to unusable or missing counterparts, with its result by the two kinds |
| `DatatypeComparison.MatchesIffEmbeds` | scripts/mapping_v3/datatypes.py:107-130 | all evidence is a match if and only if every position of the FLYNC tree exists in the ARXML tree with a usable and compatible kind |
| `MappingRules.GatherProperties` | scripts/mapping_v3/rules.py:251-264 | one piece of evidence per property that the element has |
| `MappingRules.ResolveElement` | scripts/mapping_v3/rules.py:187-271 | candidates and evidence of an element: by its rule, as a datatype, or unsupported |
| `MappingRules.ResolveDatatype` | scripts/mapping_v3/rules.py:309-355 | parameter prototypes by name, argument prototypes first, and the evidence of their type references |
| `MappingGuarantees.SelectedIffBest` | scripts/mapping_v3/rules.py:171-184 | a candidate is selected exactly if it has an anchor and no element of its types has more anchors, or as many and more support |
| `SelectionMeaning.StrengthMeaning` | scripts/mapping_v3/rules.py:125-168 | anchors and support counted: the name, the context names in the hierarchy, the properties with a shared value, and an address that a reference leads to; ports and numbers that several elements have only support |
| `SelectionMeaning.SelectedMeaning` | scripts/mapping_v3/rules.py:171-184 | selected are exactly the elements of the types with an anchor that none of them is stronger than by that count |
| `SelectionMeaning.SelectedCount` | scripts/mapping_v3/rules.py:171-184 | each as often as it is available, in key order |
| `MappingGuarantees.SingleIsStrictlyStrongest` | scripts/mapping_v3/rules.py:171-184 | a single selected candidate is strictly stronger than every other element of its types |
| `MappingGuarantees.MappedIff` | scripts/mapping_v3/status.py:10-18 | an element with a rule is mapped exactly if it has one candidate, all required properties and socket values match, no reference is ambiguous, and something beyond names and types matches |
| `MappedMeaning.MappedMeans` | scripts/mapping_v3/status.py:10-18 | mapped, by the candidate's own values: there is one candidate, it shares a value of each required property and of a socket's port, protocol and address, no reference of it may mean several elements, and it shares something or has a reference that means one |
| `MappingGuarantees.MappedIsUnique` | scripts/mapping_v3/rules.py:171-271 | a mapped element's candidate has an anchor and the strictly greatest strength |
| `MappingGuarantees.DatatypeMappedIff` | scripts/mapping_v3/rules.py:309-355 | a datatype is mapped exactly if it has one parameter, with type references that all resolve to datatypes it embeds in |
| `MappedMeaning.ParametersMeaning` | scripts/mapping_v3/rules.py:309-320 | the parameters are the argument prototypes of the name, or the variable prototypes if there is none, each as often as discovered |
| `MappedMeaning.DatatypeMappedMeans` | scripts/mapping_v3/rules.py:309-355 | a datatype is mapped exactly if it has one parameter, with references to types that each mean one element, whose expansion it embeds in |
| `EvidenceMeaning.GatheredMeaning` | scripts/mapping_v3/rules.py:193-305 | by the values of all candidates: one note for each property that the element has, each value a socket's context gives and each reference of a candidate, matched, mismatched, absent, ambiguous or unresolved; those on names, types and several candidates; without a candidate the missing one and the hint at a namesake |
| `EvidenceMeaning.DatatypeEvidenceMeaning` | scripts/mapping_v3/rules.py:309-355 | a missing or repeated parameter, parameters without a type, types that mean none or several elements, and what the comparison with the one that is meant notes |
| `EvidenceMeaning.ElementMeaning` | scripts/mapping_v3/rules.py:187-271 | for any element: a datatype has its parameters, whatever the rules say, an element with a rule the strongest ones, any other none; and the evidence is the notes on these |
| `EvidenceMeaning.ElementMappedMeans` | scripts/mapping_v3/status.py:10-18 | when any element is mapped, by its category and its one candidate |
| `MappingGuarantees.MappedMeansOneCandidate` | scripts/mapping_v3/status.py:10-18 | whatever the element, mapped means exactly one candidate and no failed, missing or ambiguous required evidence |

## Left out

- YAML and XML parsing, file discovery, writers, command lines, caches and locks: input, output and libraries.
- pydantic: validation is an oracle in the repair loop and an established field constraint elsewhere.
- Message texts, error contexts and source positions; errors are a location, a type and a message, or a number.
- Python's recursion limit and memory.
- Repair.RepairLoop.Attempt: works on a value, not in place; `InPlaceDeletion.DeleteAtLoc` says exactly when the deletion in
  place comes to the same.
- The names of ECUs: a workspace is its controllers in order, each an object of its own. A socket's deployments are given as
  the forwarders among them.
- Multiplexed and container PDUs take part in frame placement by their length only; the mux groups of a multiplexed PDU are
  not bounded by it in the source.
- The plain uniqueness validators of a channel configuration: a duplicate PDU name only means that the registry keeps the
  last PDU of that name, which the model does.
- FrameLayout.AcceptedFramesFit: speaks of `StandardPDU` signals, for the same reason.
- The multicast paths are keyed by address and VLAN as a pair, not by the joined string.
- Warnings about receivers that are not reached, and the collection of multicast groups from sockets and endpoints.
- The MDI configuration copied from an ECU port to its switch port when they are bound, and the compatibility checks after
  binding.
- ModelDependencyGraph look-ups by name and file; field metadata other than external, reference and implied.
- Traffic classes, policers, gPTP, MACsec, TCAM rules: a single branch settles them.
- Filters and root ids of a token bucket.
- Text tables: documented unique labels are not checked by the source.
- Properties, attributes, sources and parents of ARXML elements that neither resolution nor comparison reads; building
  elements from XML nodes.
- ArxmlResolution.IsSpace: covers the ASCII white space of `str.strip`, not the Unicode one.
- Datatypes.KindOf: lower-cases ASCII letters only.
- The values, keys and rationale that evidence carries for display, and the reasons given with a status.
- Service-interface and SOME/IP validators that build an error without raising it.
