# Verified models of INET's algorithms and protocol logic

This project models, in Dafny, the parts of the INET framework that are algorithms or protocols
rather than simulation plumbing, and proves what they are for. The sources are cited by path and line.

**Shortest paths and graph editing** (`Weights`, `ShortestPaths`, `SearchSteps`, `Topology`). Nodes and
links are objects with the fields of the C++ classes; a ghost value `wires` records the link lists of
every node and the two ends of every link. The editing methods are proved to change that value in a
stated way, and lemmas about the value show that it stays *dual*: each link is listed once by its source
and once by its destination. The searches are proved against steps on a value (`State`) whose invariant
is that of Dijkstra's algorithm run backwards from the target. What they leave behind is a
`ShortestTree`, and `ShortestTreeIsOptimal` says what that means: a minimum over all walks, attained by
following the out-paths.

**DHCP** (`DhcpMessages`, `DhcpClientSpec`, `DhcpServerSpec`, `DhcpSystem`, `DhcpClient`, `DhcpServer`).
The handlers of the client and of the server are methods proved against functions; the functions are the
steps of a system of one server and any number of clients. The methods also say in plain terms what each
message and timer does to the fields, the timers and the socket. A message once sent stays in the network for
good, and anybody may receive it any number of times or never: delay, loss, duplication and reordering.
Assumed: MACs are distinct (clients are keyed by MAC), no other server is on the network, and no client
draws a transaction id that another client has drawn (its own it may draw again). The client recognises a
reply by its transaction id alone, so this is needed: `ReusedIdsShareAnAddress` is a run that breaks this
rule once, and in which two clients hold one address.

**Hierarchical state machine** (`MachoTree`, `Macho`). For any state tree, the calls of entry, exit and
init actions that a machine makes are a trace; replaying the trace keeps a stack of active states, and
gets stuck if a call is not one at the innermost active state. Only the methods that stand for user
actions add to the trace. User actions are arbitrary. What is proved
of `RattleOn` holds after any number of turns, so that it covers machines that never come to rest.

**Pattern matcher** (`PatternLanguage`, `PatternTokens`, `PatternEscapes`, `PatternSubstrings`,
`PatternLaws`, `PatternMatcher`), in case-sensitive mode. A token list denotes a language, defined without
regard to how matching is done. `PatternLaws` says what each construct of a pattern's text means, as laws
about the lines accepted; other lemmas say what plain, escaped and substring patterns match.

**128-bit integers** (`Bits`, `Limbs`, `Numerals`, `Uint128`). Two 64-bit limbs, updated in place, with
the wrap-around of `uint64_t` written out, against arithmetic on natural numbers.

**Reassembly and byte queues** (`Reassembly`, `ByteArrayBuffer`). Interval reassembly under any order of
arrival, and a chunked queue that behaves like one flat sequence of bytes, with the wrap-around of the
32-bit offsets written out.

Where code and documentation disagree, the model follows the code:

- A backslash is to take away the special meaning of the next character. It does, except before a `[` that
  opens a numeric range (`BackslashQuotes`): the pattern text `\[1..2]` still contains the range. So quoting
  a text makes a pattern for just that text exactly if the text holds no range (`QuotedMatchesOnlyItself`).
- Substring mode is to accept a line if some substring matches. Without numeric ranges it does. With them
  an accepted line always has a matching substring (`AcceptedLineHasMatch`), but for acceptance there must be
  a match in which the last number does not end inside a run of digits (`SubstringModeWithNumbers`);
  `NumberIsNotFoundInsideNumber` is a line with a match that is not accepted.
- After too many missing acknowledgements the DHCP client logs a restart, but `RetriesExhausted` shows that it
  keeps its state and sends its request again; only missing offers restart it (`OnlyMissingOffersRestart`).
- Setting a number from text accepts, beyond the digits of the radix, exactly one more of each kind
  (`OneDigitTooMany`); for instance 08 is read as 8 (`EightIsReadInOctal`). The round trips are not affected.
- Copying from a byte chunk is right unless the end of the range overflows 32 bits; `OverreadsByChunk`
  says exactly when it does, and `OverreadHappens` that it can.

`dafny verify dfyconfig.toml` checks the project.

## Model

| member | source | states |
|---|---|---|
| ShortestPaths.RelaxedIsLowerBound | src/base/Topology.cc:447 | labels that no link can improve are at most the cost of every walk to the target (link weights, plus the weights of the nodes passed through) |
| ShortestPaths.OutWalkRealisesDistance | src/base/Topology.cc:451-452 | following the out-paths from a reached node ends at the target, at exactly the cost that the node's label says |
| ShortestPaths.ShortestTreeIsOptimal | src/base/Topology.cc:405-463 | a finished search leaves the minimum over all walks, attained on the out-paths, and infinity exactly where every walk costs infinity |
| ShortestPaths.DistancesAreUnique | src/base/Topology.cc:361-463 | any two searches of one graph leave the same distances, whatever out-paths they chose |
| SearchSteps.RemoveContents | src/base/Topology.cc:450 | removing a node from the queue removes that node and no other |
| SearchSteps.RemoveKeepsOrder | src/base/Topology.cc:450 | and keeps the queue sorted and duplicate-free |
| SearchSteps.InsertKeepsOrder | src/base/Topology.cc:454-459 | inserting a node in front of the first entry that is further away keeps the queue sorted by distance |
| SearchSteps.StartIsBetween | src/base/Topology.cc:411-422 | the search invariant holds of the initial labels and queue |
| SearchSteps.PopStartsScan | src/base/Topology.cc:424-427 | after a pop no popped node is further away than the one just popped, and no queued node nearer; that node had not been popped before |
| SearchSteps.PoppedIsReached | src/base/Topology.cc:426-429 | a node that is popped is the target, or the source of a link of finite weight into the target or a node of finite weight |
| SearchSteps.ImprovedIsQueued | src/base/Topology.cc:447-450 | a node that is improved has not been popped, is not the target, and has a finite distance exactly if it is still queued |
| SearchSteps.ImprovedQueue | src/base/Topology.cc:449-459 | after an improvement the queue is sorted, duplicate-free, and holds the nodes it held and the improved one |
| SearchSteps.ImproveKeepsScanning | src/base/Topology.cc:449-459 | improving a node keeps the whole search invariant: queue, relaxed links, realised distances |
| SearchSteps.SkipKeepsScanning | src/base/Topology.cc:434-447 | passing over a disabled or useless link keeps it, too |
| SearchSteps.LookKeepsScanning | src/base/Topology.cc:432-461 | so every turn of the inner loop does |
| SearchSteps.ScanEnds | src/base/Topology.cc:424-462 | when all links into the popped node have been looked at, all links into popped nodes are relaxed |
| SearchSteps.EmptyQueueIsOptimal | src/base/Topology.cc:424-462 | with an empty queue the invariant gives a shortest tree |
| SearchSteps.HopLookIsLook | src/base/Topology.cc:388-400 | on unit weights the breadth-first step, which appends and never removes, is the weighted step |
| SearchSteps.HopLookKeepsScanning | src/base/Topology.cc:386-401 | the breadth-first step keeps the search invariant and a queue that spans at most one hop |
| SearchSteps.HopsAreLinks | src/base/Topology.cc:397 | on unit weights the cost of a walk is its number of links |
| SearchSteps.FewestHops | src/base/Topology.cc:361-403 | a finished breadth-first search leaves in each node the least number of hops over all walks, realised by its out-paths, and infinity exactly where there is no walk |
| Topology.Topology.LowerBound | src/base/Topology.cc:247 | binary search splits nodes[] into the nodes before an id and the others, ids compared as unsigned numbers |
| Topology.Topology.GetNodeFor | src/base/Topology.cc:352-359 | finds a node exactly when one with that id is present |
| Topology.InsertKeepsOrderById | src/base/Topology.cc:244-249 | insertion at the lower bound keeps nodes[] sorted by id, -1 last |
| Topology.EraseKeepsOrderById | src/base/Topology.cc:272-274 | erasing a node keeps the order and loses no other node |
| Topology.EraseOne | src/base/Topology.cc:330-333 | erasing the found link from a duplicate-free list takes away that link and no other |
| Topology.UnlinkedKeepsDual | src/base/Topology.cc:321-326 | taking links out of both lists keeps every other link listed once at each end |
| Topology.AttachedKeepsDual | src/base/Topology.cc:292-295 | appending a new link to the lists of its ends keeps duality, for self-loops and parallel links as well |
| Topology.LinkedKeepsDual | src/base/Topology.cc:279-296 | adding or reconnecting a link keeps duality |
| Topology.NodeAddedKeepsDual | src/base/Topology.cc:236-251 | adding a new node keeps duality exactly if it lists no links |
| Topology.NodeRemovedKeepsDual | src/base/Topology.cc:253-277 | removing a node with all links that start or end there keeps duality |
| Topology.Topology.InsertNode | src/base/Topology.cc:236-251 | the node is in its place, all others are where they were, and the order holds |
| Topology.Topology.AddNode | src/base/Topology.cc:236-251 | one node more, at the position returned, in the order of ids; the graph stays valid exactly if the node is new and lists no links |
| Topology.Topology.UnlinkFromSourceNode | src/base/Topology.cc:328-334 | the source's outLinks lose the link's first occurrence |
| Topology.Topology.UnlinkFromDestNode | src/base/Topology.cc:336-342 | the destination's inLinks lose the link's first occurrence |
| Topology.Topology.Detach | src/base/Topology.cc:281-285 | every node's lists are without the link, and otherwise as before |
| Topology.Topology.Attach | src/base/Topology.cc:292-295 | the link has its new ends and is listed last by both |
| Topology.Topology.AddLink | src/base/Topology.cc:279-296 | the link has the given source and destination, is last in the outLinks of the one and in the inLinks of the other, and in no other list; all lists are otherwise as before, and the graph stays valid |
| Topology.Topology.DeleteLink | src/base/Topology.cc:321-326 | the link is gone from all lists, which are otherwise as before, and the graph stays valid |
| Topology.Topology.UnlinkFromDestinations | src/base/Topology.cc:255-261 | the first loop of deleteNode takes exactly the node's outgoing links out of all inLinks, its own included |
| Topology.Topology.UnlinkFromSources | src/base/Topology.cc:263-269 | the second loop takes exactly the remaining incoming links out of all outLinks |
| Topology.Topology.UnlinkNode | src/base/Topology.cc:255-269 | afterwards the node lists nothing, and every other node forgot exactly the links it shared with the node |
| Topology.Topology.DeleteNode | src/base/Topology.cc:253-277 | the node is gone, every other node forgot exactly the links that it listed, and the graph stays valid |
| Topology.Topology.ResetLabels | src/base/Topology.cc:411-418 | all labels are forgotten, except that the target is at distance 0 |
| Topology.Topology.OfferWeighted | src/base/Topology.cc:434-446 | a link is used exactly if it and its source are enabled; the distance offered is that of the destination, plus the weight of the link, plus that of the destination unless it is the target |
| Topology.Topology.FindInsertionPoint | src/base/Topology.cc:455-458 | the first entry that is further away |
| Topology.Topology.Relabel | src/base/Topology.cc:449-459 | the node has its new distance and out-path and sits in its new place in the queue; nothing else changes |
| Topology.Topology.LookWeighted | src/base/Topology.cc:432-461 | the inner loop's body does the step of the value model |
| Topology.Topology.ScanWeighted | src/base/Topology.cc:432-461 | the inner loop handles every link into the popped node |
| Topology.Topology.LeadingToIsClosed | src/base/Topology.cc:431-459 | the target, and every source of a link into a node from which the target can be reached, can reach it themselves |
| Topology.Topology.WalksAreChains | src/base/Topology.cc:434-439 | the walks of the value graphs are chains of enabled links that leave enabled nodes and lead to the target |
| Topology.Topology.ChainsAreWalks | src/base/Topology.cc:434-439 | and all chains of the links by which the search meets nodes are among them |
| Topology.Topology.ChainIsWalkOrInfinite | src/base/Topology.cc:441-447 | a chain of enabled links to the target that is no walk of the weighted graph has a link or a node of infinite weight on it, so nothing is lost by leaving it out |
| Topology.Topology.ListedLinkIsPictured | src/base/Topology.cc:432-439 | of the links that a node met lists, the search uses exactly those of the value graph |
| Topology.Topology.WeightedGraphDescribesAll | src/base/Topology.cc:434-439 | in a valid graph the links met by the search are those of the value graph |
| Topology.Topology.PopWeighted | src/base/Topology.cc:424-462 | one turn keeps the invariant and pops one node more, so the loop ends |
| Topology.Topology.SearchWeighted | src/base/Topology.cc:420-462 | the loop leaves a shortest tree |
| Topology.Topology.RoutingLinksStartAtMetNodes | src/base/Topology.cc:429-447 | links of finite weight, into the target or a node of finite weight, lead only to nodes of which the weights are asserted |
| Topology.Topology.ShortestTreeIsSettled | src/base/Topology.cc:434-453 | read off the nodes and links: no enabled link from an enabled node offers its source less than it has, and every reached node has what its out-path offers |
| Topology.Topology.CalculateWeightedSingleShortestPathsTo | src/base/Topology.cc:405-463 | a null target fails and changes nothing; otherwise the nodes hold a shortest tree of the enabled part of the graph, if the weights of what the search meets are as it asserts, and are settled in that sense |
| Topology.Topology.LookUnweighted | src/base/Topology.cc:388-400 | the breadth-first loop's body does the breadth-first step |
| Topology.Topology.ScanUnweighted | src/base/Topology.cc:386-401 | its inner loop handles every link into the popped node |
| Topology.Topology.PopUnweighted | src/base/Topology.cc:380-402 | one turn keeps the invariant and pops one node more |
| Topology.Topology.ShortestTreeIsSettledByHops | src/base/Topology.cc:388-400 | the same for hops: no usable link shortens a way, and each reached node is one hop further than the end of its out-path |
| Topology.Topology.CalculateUnweightedSingleShortestPathsTo | src/base/Topology.cc:361-403 | a null target fails and changes nothing; otherwise the nodes hold a shortest tree for hop counts, and are settled in that sense |
| Topology.Topology.SearchesAgreeOnUnitWeights | src/base/Topology.cc:361-463 | with link weights 1 and node weights 0 both searches leave the same distances |
| DhcpServerSpec.PoolIsInjective | src/applications/dhcp/DHCPServer.cc:334-337 | the pool never wraps onto itself, although addresses do wrap |
| DhcpServerSpec.PoolIsConsecutive | src/applications/dhcp/DHCPServer.cc:330-337 | the pool starts at the address configured and goes on one by one, modulo 2^32 |
| DhcpServerSpec.AvailableIsNext | src/applications/dhcp/DHCPServer.cc:335-359 | of a table that holds the first k addresses of the pool, the next address is given out, or none if the pool is exhausted |
| DhcpServerSpec.ProcessKeepsTable | src/applications/dhcp/DHCPServer.cc:125-224 | every packet keeps the table: keys equal addresses, no MAC twice, a prefix of the pool of at most clientNum |
| DhcpServerSpec.ProcessKeepsAddresses | src/applications/dhcp/DHCPServer.cc:133-204 | no packet takes an address away from a MAC |
| DhcpServerSpec.ReplyCarriesOwnLease | src/applications/dhcp/DHCPServer.cc:226-307 | a reply is an offer to a discover or an ACK to a request, with the sender's transaction id and MAC and the address the table holds for it |
| DhcpServerSpec.DiscoverIsRefusedIffPoolIsFull | src/applications/dhcp/DHCPServer.cc:137-153 | a discover goes unanswered exactly when its sender has no address and all of the pool is taken |
| DhcpServerSpec.RequestIsAcknowledgedIffKnown | src/applications/dhcp/DHCPServer.cc:165-205 | a request is acknowledged exactly when its sender has an address |
| DhcpServer.DHCPServer.GetLeaseByMac | src/applications/dhcp/DHCPServer.cc:309-323 | finds the lowest address that the table has for a MAC, and none exactly when it has none |
| DhcpServer.DHCPServer.GetAvailableLease | src/applications/dhcp/DHCPServer.cc:325-360 | returns the first address of the pool that is not leased, entering it into the table if it is not there, and none exactly when all are leased |
| DhcpServer.DHCPServer.SendOffer | src/applications/dhcp/DHCPServer.cc:267-307 | one message, with its fields taken from the lease: an offer of the address |
| DhcpServer.DHCPServer.SendACK | src/applications/dhcp/DHCPServer.cc:226-265 | one message, with its fields taken from the lease: an ACK of the address |
| DhcpServer.DHCPServer.ProcessDiscover | src/applications/dhcp/DHCPServer.cc:133-164 | a known client is offered its address; another the first free one, which is leased to it; with none free nothing happens |
| DhcpServer.DHCPServer.ProcessRequest | src/applications/dhcp/DHCPServer.cc:165-205 | a known client has its address confirmed, its entry marked as leased unless the request names this server; any other request has no effect |
| DhcpServer.DHCPServer.ProcessPacket | src/applications/dhcp/DHCPServer.cc:125-224 | discovers and requests are handled in these ways, all other packets have no effect, and a sound table stays sound |
| DhcpClient.DHCPClient.SendDiscover | src/applications/dhcp/DHCPClient.cc:504-537 | one message, field by field: a discover under a new transaction id |
| DhcpClient.DHCPClient.SendRequest | src/applications/dhcp/DHCPClient.cc:448-502 | one message, field by field: a request that names server and address while an offer is answered, and claims the address while a lease is extended; fails exactly on a null lease |
| DhcpClient.DHCPClient.ChangeFSMState | src/applications/dhcp/DHCPClient.cc:146-235 | entering a state has the specified effect on state, timers, interface and socket |
| DhcpClient.DHCPClient.RequestAgain | src/applications/dhcp/DHCPClient.cc:279-303 | a missing ACK: the request goes out again in the same state, and the count goes up or back to zero |
| DhcpClient.DHCPClient.HandleTimer | src/applications/dhcp/DHCPClient.cc:260-317 | a missing offer discovers again, from scratch when the retries are used up; a missing ACK requests again; T1 renews; T2 rebinds if the renewal is unanswered and is ignored otherwise; with the timers, the count and the message that go with it |
| DhcpClient.DHCPClient.HandleDHCPMessage | src/applications/dhcp/DHCPClient.cc:319-424 | an offer for a selecting client becomes its lease and is requested; an ACK binds the client to its lease in whatever state, with T1 and T2 pending and no timeout; the null lease is dereferenced exactly by an ACK without a lease; all else is ignored |
| DhcpClient.DHCPClient.ReceiveAssociation | src/applications/dhcp/DHCPClient.cc:426-446 | an association cancels T1 and T2 and discovers again |
| DhcpSystem.TimerKeepsClientOk | src/applications/dhcp/DHCPClient.cc:260-317 | a timer that goes off leaves the client with the timers of its state pending, and dereferences no null lease |
| DhcpSystem.MessageKeepsClientOk | src/applications/dhcp/DHCPClient.cc:319-424 | so does a message, unless it is an ACK for a client without a lease |
| DhcpSystem.OnlyMissingOffersRestart | src/applications/dhcp/DHCPClient.cc:260-317 | of all timers only the one that waits for an offer makes a client discover again |
| DhcpSystem.RetriesExhausted | src/applications/dhcp/DHCPClient.cc:264-303 | when the retries are used up a missing offer starts the client over, while a missing ACK sets the count back and sends the same request again |
| DhcpSystem.MessageContinues | src/applications/dhcp/DHCPClient.cc:324-418 | only an accepted offer changes the lease, only to what it offers, and only the lease's address reaches the interface |
| DhcpSystem.ReplyIsMine | src/applications/dhcp/DHCPClient.cc:323-324 | a reply with the client's transaction id was meant for it: it carries its MAC and the address the server holds for it, and an ACK finds it with a lease |
| DhcpSystem.AcceptedAckConfirmsOwnLease | src/applications/dhcp/DHCPClient.cc:362-412 | an ACK that a client accepts confirms the address in its own lease |
| DhcpSystem.NoSharedAddress | src/applications/dhcp/DHCPClient.cc:180 | two clients never have the same address, on their interfaces or in their leases |
| DhcpSystem.ServerStepKeepsInvariant | src/applications/dhcp/DHCPServer.cc:125-224 | a packet that reaches the server keeps the invariant of the whole system |
| DhcpSystem.ClientStepKeepsInvariant | src/applications/dhcp/DHCPClient.cc:448-537 | so does a client's turn that continues its transaction or begins a new one |
| DhcpSystem.StepKeepsInvariant | src/applications/dhcp/DHCPClient.cc:237-258 | every step of the system succeeds and keeps the invariant |
| DhcpSystem.EveryRunIsSafe | src/applications/dhcp/DHCPClient.cc:319-424 | in every run in which no client draws the id of another, no client dereferences a null lease, the table is sound, each client has the timers of its state, clients have different addresses, and acceptable ACKs confirm the lease at hand |
| DhcpSystem.RunKeepsAddresses | src/applications/dhcp/DHCPServer.cc:137-162 | over every run a MAC keeps the address it was once given |
| DhcpSystem.ReusedIdsShareAnAddress | src/applications/dhcp/DHCPClient.cc:323-324 | a run in which one client draws the id of another, which is against the rule for ids, and both end up with one address |
| MachoTree.PathIsSuperstates | src/util/Macho.h:799-802 | the active states of a current state are its superstates other than Root |
| MachoTree.ExitsReachPivot | src/util/Macho.cc:157-175 | exits go one by one from the innermost active state up to the innermost superstate kept |
| MachoTree.EntriesFromBase | src/util/Macho.cc:139-155 | entries go one level down at a time, from there to the new state |
| MachoTree.EntriesFromRoot | src/util/Macho.cc:139-155 | from Root the entries are those of all superstates of the target, outermost first, and of the target |
| MachoTree.TransitionReplays | src/util/Macho.cc:369-387 | a transition turns the active states of its source into those of its target: its exits and entries meet at the same superstate |
| MachoTree.ExitedStates | src/util/Macho.cc:157-175 | exactly the superstates of the source that do not properly contain the target are left |
| MachoTree.EnteredStates | src/util/Macho.cc:139-155 | exactly the target, and those of its superstates that do not contain the source, are entered |
| MachoTree.RunsReplay | src/util/Macho.cc:356-410 | over any sequence of transitions the states entered and not left are the superstates of the current one |
| MachoTree.SaveHistoryRecords | src/util/Macho.h:275-296 | leaving a state records it (deep), or the substate on the way to it (shallow), in every superstate that keeps a history, through superstates that keep none, and changes no other history |
| MachoTree.SaveHistoryKeepsHistoryOk | src/util/Macho.h:736-748 | a stored history is always a proper substate |
| MachoTree.ChainDescends | src/util/Macho.cc:400-403 | a transition to a proper substate goes down the tree, so chains of them end |
| Macho.MachineBase.EntryOf | src/util/Macho.cc:139-155 | calls and boxes of an entry |
| Macho.MachineBase.ExitOf | src/util/Macho.cc:157-175 | calls and boxes of an exit; a box that is deleted is there |
| Macho.MachineBase.LeavingNeedsBoxes | src/util/Macho.h:930-934 | every state that a transition leaves has its box |
| Macho.MachineBase.BoxesAfterTransition | src/util/Macho.h:924-934 | afterwards just the active states, and states that keep their boxes, may have one, and all active states do |
| Macho.MachineBase.SetHistorySuper | src/util/Macho.h:743-748 | the histories of the superstates are updated as specified |
| Macho.MachineBase.InitOf | src/util/Macho.cc:177-191 | a history is followed or the init action called; a new transition is to a proper substate; the history is used up |
| Macho.MachineBase.Move | src/util/Macho.cc:369-387 | exits, history records and entries lead to the new state |
| Macho.MachineBase.Transition | src/util/Macho.cc:359-410 | one turn of the inner loop makes exactly the calls of the transition; then it requests the recorded state, if a history was asked for and there is one, or else calls init; the history is used up unless init has parameters; a further transition goes strictly down |
| Macho.MachineBase.PerformPending | src/util/Macho.cc:359-410 | the inner loop makes the calls of the pending transition, and those to the recorded state or an init, before any other; it ends with nothing pending, in the recorded state or the target, or below |
| Macho.MachineBase.Turn | src/util/Macho.cc:356-420 | one turn of the outer loop: what is pending is performed, and then the pending event handled in the state reached |
| Macho.MachineBase.RattleOn | src/util/Macho.cc:352-422 | performs first what is pending at first, and stays there unless an event is handled; comes to rest, or handles an event in each of the given number of turns; the active states are the superstates of the current one, each with its box |
| Macho.MachineBase.SetState | src/util/Macho.cc:246-250 | goes to the state given, by its history if asked to, and stays there or below unless an event is handled |
| Macho.MachineBase.Start | src/util/Macho.cc:258-266 | from Root, where nothing is active, enters the superstates of the given state, outermost first, and the state; ends there or below unless an event is handled; also after a shutdown |
| Macho.MachineBase.Shutdown | src/util/Macho.cc:278-288 | leaves every active state, and comes to rest: over the machine's life every entry has its exit, and only kept boxes are left |
| Macho.MachineBase.ClearHistoryDeep | src/util/Macho.cc:310-318 | forgets exactly the histories of a state and its substates |
| PatternLanguage.FitsConcat | src/util/PatternMatcher.cc:223-314 | a pattern made of two parts matches exactly what splits into matches of the parts |
| PatternLanguage.EndChangesNothing | src/util/PatternMatcher.cc:306-307 | the END element adds nothing to the language |
| PatternLanguage.RestChangesNothing | src/util/PatternMatcher.cc:269-276 | only numeric ranges look at what follows them |
| PatternLanguage.LanguageSplits | src/util/PatternMatcher.cc:286-305 | trying every split for the first element decides membership |
| PatternLanguage.NumberTakesAllDigits | src/util/PatternMatcher.cc:269-276 | a number takes the maximal run of digits |
| PatternLaws.NothingMatchesNothing | src/util/PatternMatcher.cc:93-95 | the empty pattern accepts the empty line |
| PatternLaws.DoubleStarLaw | src/util/PatternMatcher.cc:73-74 | `**` in front of u accepts any string followed by what u accepts |
| PatternLaws.StarLaw | src/util/PatternMatcher.cc:73-77 | `*` in front of u, not followed by another, accepts any string, without dots in dotted mode, followed by what u accepts |
| PatternLaws.QuestionLaw | src/util/PatternMatcher.cc:62 | `?` in front of u accepts one character, not a dot in dotted mode, followed by what u accepts |
| PatternLaws.SetLaw | src/util/PatternMatcher.cc:98-137 | a set in front of u accepts one of the characters and ranges it lists, followed by what u accepts |
| PatternLaws.NegatedSetLaw | src/util/PatternMatcher.cc:98-137 | with `^` in front, one that it does not list |
| PatternLaws.OpenBraceLaw | src/util/PatternMatcher.cc:134-135 | a brace that is not closed makes no pattern |
| PatternLaws.BracedRangeLaw | src/util/PatternMatcher.cc:68-70 | a numeric range in braces in front of u accepts a maximal run of digits of which the number is within the bounds written, followed by what u accepts |
| PatternLaws.CharacterLaw | src/util/PatternMatcher.cc:139-154 | any other character in front of u, and a bracket that opens no numeric range, accepts itself, followed by what u accepts |
| PatternLaws.BackslashLaw | src/util/PatternMatcher.cc:146-152 | so does any character behind a backslash, but for a bracket that opens a numeric range |
| PatternLaws.TrailingBackslashLaw | src/util/PatternMatcher.cc:146-147 | a backslash alone makes no pattern |
| PatternLaws.BracketedRangeLaw | src/util/PatternMatcher.cc:63-67 | a bracket that opens a numeric range, behind a backslash or not, accepts itself and such a run of digits, followed by what the text from the closing bracket on accepts |
| PatternTokens.PlainPatternMatchesItself | src/util/PatternMatcher.cc:370-375 | a pattern without wildcards matches exactly the equal string |
| PatternTokens.WildcardsAre | src/util/PatternMatcher.cc:370-375 | which texts are said to hold wildcards |
| PatternEscapes.BackslashQuotes | src/util/PatternMatcher.cc:142-153 | a backslash and a character add the character to the literal that follows, exactly if the character is not a bracket that opens a numeric range |
| PatternEscapes.IsRangeQuoted | src/util/PatternMatcher.cc:156-183 | quoting what is behind a bracket neither makes nor breaks a numeric range |
| PatternEscapes.QuotedUpToRange | src/util/PatternMatcher.cc:139-154 | a quoted text is one literal up to its first bracket that opens a range, bracket included |
| PatternEscapes.RangeIsNoNumber | src/util/PatternMatcher.cc:269-276 | the text of a range is not matched by a number and a literal that begins with its closing bracket |
| PatternEscapes.QuotedMatchesOnlyItself | src/util/PatternMatcher.cc:139-154 | a text quoted by backslashes is a pattern for just that text, exactly if it holds no numeric range |
| PatternEscapes.EscapedPatternMatchesText | src/util/PatternMatcher.cc:146-147 | a pattern with every character escaped matches exactly the unescaped string |
| PatternEscapes.EscapedBracketStillOpensRange | src/util/PatternMatcher.cc:146-151 | an input: the tokens of `\[1..2]`, which does not match [1..2] |
| PatternSubstrings.PaddedMatchesWithin | src/util/PatternMatcher.cc:83-92 | substring mode accepts a line exactly when a part of it fits, in its place |
| PatternSubstrings.SubstringModeMatchesSubstrings | src/util/PatternMatcher.cc:83-92 | without numeric ranges that is: exactly when some substring matches the pattern by itself |
| PatternSubstrings.FitsAlone | src/util/PatternMatcher.cc:223-314 | what fits in its place fits by itself |
| PatternSubstrings.FitsUpToNumber | src/util/PatternMatcher.cc:269-276 | a pattern that ends in a number fits in its place exactly if it fits by itself and no digit follows |
| PatternSubstrings.AcceptedLineHasMatch | src/util/PatternMatcher.cc:83-92 | for every pattern, an accepted line has a substring that matches the pattern by itself |
| PatternSubstrings.SubstringModeWithNumbers | src/util/PatternMatcher.cc:83-92 | with numeric ranges a line is accepted exactly when the pattern up to its last number and the pattern behind it match adjacent substrings, and no digit follows the number |
| PatternSubstrings.SubstringModeWithNumberLast | src/util/PatternMatcher.cc:83-92 | if the pattern ends in a number: exactly when a substring matches that no digit follows |
| PatternSubstrings.NumberIsNotFoundInsideNumber | src/util/PatternMatcher.cc:273 | an input: {12..12} matches 12, which is a substring of 123, where it is not found |
| PatternTokens.TokensHaveNoEnd | src/util/PatternMatcher.cc:93-95 | END occurs only at the end of a pattern |
| PatternTokens.NextElem | src/util/PatternMatcher.cc:57-81 | the cursor stays in the text, and may stand still only for a literal that follows none, so tokenizing ends |
| PatternMatcher.LastLiteral | src/util/PatternMatcher.cc:329-337 | a pattern that ends in a literal matches only lines that end in it, which justifies the two-character shortcut |
| PatternMatcher.AnySeqAtEnd | src/util/PatternMatcher.cc:281-282 | a pattern that ends in "**" matches any rest |
| PatternMatcher.AnySeqLiteralAtEnd | src/util/PatternMatcher.cc:283-284 | one that ends in "**" and a literal matches exactly what ends in the literal |
| PatternMatcher.PatternMatcher.ParseNumRange | src/util/PatternMatcher.cc:156-183 | finds the numeric range at a bracket, or leaves the cursor |
| PatternMatcher.PatternMatcher.ParseLiteralString | src/util/PatternMatcher.cc:139-154 | the literal at the cursor |
| PatternMatcher.PatternMatcher.ParseSet | src/util/PatternMatcher.cc:98-137 | the set at the cursor, or an unmatched brace |
| PatternMatcher.PatternMatcher.Tokenize | src/util/PatternMatcher.cc:55-81 | the loop, which may leave the cursor in place for a turn, ends with all tokens of the text |
| PatternMatcher.PatternMatcher.SetPattern | src/util/PatternMatcher.cc:50-96 | the compiled pattern, closed by END, of which the laws say what it accepts |
| PatternMatcher.PatternMatcher.Take | src/util/PatternMatcher.cc:232-276 | an element other than a sequence takes the only number of characters it can |
| PatternMatcher.PatternMatcher.DoMatch | src/util/PatternMatcher.cc:223-314 | true exactly if the line is in the language of the pattern from the given element on; ends, within bounds |
| PatternMatcher.PatternMatcher.SkipAny | src/util/PatternMatcher.cc:286-295 | "**" backtracks over all positions |
| PatternMatcher.PatternMatcher.SkipCommon | src/util/PatternMatcher.cc:296-305 | "*" backtracks over all positions up to a dot |
| PatternMatcher.PatternMatcher.Matches | src/util/PatternMatcher.cc:316-342 | true exactly if the line is in the language of the pattern, shortcuts included |
| Bits.AndLowMask | src/util/uint128.cc:336 | masking with n ones takes the remainder modulo 2^n |
| Bits.AndHighMask | src/util/uint128.cc:369 | masking off the n low bits takes the multiple of 2^n below |
| Bits.OrDisjoint | src/util/uint128.cc:372 | or of numbers without a common bit is their sum |
| Limbs.AddJoin | src/util/uint128.cc:204-214 | limbs added with the carry of the code make the sum modulo 2^128 |
| Limbs.NegJoin | src/util/uint128.cc:157-163 | limbs negated by the code's cases make the negation modulo 2^128 |
| Limbs.JoinOrder | src/util/uint128.h:233-236 | comparing limbs, the high one first, compares the numbers |
| Limbs.ShlJoin | src/util/uint128.cc:363-376 | the masks and shifts of <<= for 0 < n < 64 multiply by 2^n modulo 2^128 |
| Limbs.ShlFarJoin | src/util/uint128.cc:356-361 | so does moving the low limb for n >= 64 |
| Limbs.ShlAllJoin | src/util/uint128.cc:350-354 | and nothing is left for n >= 128 |
| Limbs.ShrJoin | src/util/uint128.cc:330-343 | the masks and shifts of >>= for 0 < n < 64 divide by 2^n |
| Limbs.ShrFarJoin | src/util/uint128.cc:323-328 | so does moving the high limb for n >= 64 |
| Limbs.BitOfLow | src/util/uint128.cc:290-291 | the low bits of the number are those of its low limb |
| Limbs.BitOfHigh | src/util/uint128.cc:292-293 | the high bits are those of its high limb |
| Limbs.SetBitJoin | src/util/uint128.cc:302-306 | setting a bit of a limb adds its power of two to the number, unless it was set |
| Limbs.ProductRound | src/util/uint128.cc:229-235 | a round of the multiplication extends the product by one bit of the multiplier |
| Limbs.ProductEnd | src/util/uint128.cc:229-237 | after 128 rounds it is the product modulo 2^128 |
| Limbs.PrefixDoubles | src/util/uint128.cc:262 | the remainder so far can be doubled without overflow while bits are left |
| Limbs.DivisionBringsDown | src/util/uint128.cc:269-276 | bringing down a bit keeps the equation of long division, and does not overflow |
| Limbs.DivisionSubtracts | src/util/uint128.cc:278-282 | subtracting the divisor and setting the quotient's bit, which was clear, keeps it |
| Limbs.DivisionDone | src/util/uint128.cc:268-285 | at the end quotient and remainder are those of the division |
| Numerals.OneDigitTooMany | src/util/uint128.cc:83-94 | the tests let through the digits of the radix, and beyond them exactly 8 in octal, a in decimal and g in hexadecimal, in either case |
| Numerals.EightIsReadInOctal | src/util/uint128.cc:85-87 | an input: 08 is read as 8 |
| Numerals.LettersAreDigits | src/util/uint128.cc:89-92 | letters count from ten on, in either case |
| Numerals.DecimalTextLaw | src/util/uint128.cc:80-97 | digits of which the first is no 0, up to the first character that is none, are read as their number modulo 2^128 |
| Numerals.HexadecimalTextLaw | src/util/uint128.cc:69-97 | so are hexadecimal ones behind 0x |
| Numerals.OctalTextLaw | src/util/uint128.cc:69-97 | and octal ones behind any other 0 |
| Numerals.OtherTextLaw | src/util/uint128.cc:93-94 | a text that does not begin like a number is read as zero |
| Numerals.MinusLaw | src/util/uint128.cc:63-67 | a minus sign in front negates modulo 2^128 |
| Numerals.NumeralIsCanonical | src/util/uint128.cc:41-46 | the printed digits denote the number, are below the radix, and do not begin with zero |
| Numerals.NumeralIsShort | src/util/uint128.cc:33-41 | a number of n bits has at most n digits, so the buffer is never filled |
| Numerals.ParsePrinted | src/util/uint128.cc:80-97 | having read a printed number, the accumulator holds it, for radix 8, 10 and 16 |
| Numerals.PrintedNumbersParse | src/util/uint128.cc:28-103 | decimal text, octal text after "0" and hexadecimal text after "0x" are read back as the number printed |
| Uint128.Uint128.IsZero | src/util/uint128.h:125 | true exactly for the number zero |
| Uint128.Uint128.Less | src/util/uint128.h:233-236 | compares the numbers |
| Uint128.Uint128.AddAssign | src/util/uint128.cc:204-214 | the sum modulo 2^128, also of a number and itself |
| Uint128.Uint128.Negated | src/util/uint128.cc:157-163 | the negation modulo 2^128 |
| Uint128.Uint128.SubAssign | src/util/uint128.h:148-151 | the difference modulo 2^128, also of a number and itself |
| Uint128.Uint128.Increment | src/util/uint128.cc:170-177 | one more, modulo 2^128 |
| Uint128.Uint128.ShrAssign | src/util/uint128.cc:315-346 | floor division by 2^n, for every n |
| Uint128.Uint128.ShlAssign | src/util/uint128.cc:348-379 | multiplication by 2^n modulo 2^128, for every n |
| Uint128.Uint128.Bit | src/util/uint128.cc:288-295 | the n-th bit of the number, and none from 128 on |
| Uint128.Uint128.SetBit | src/util/uint128.cc:297-306 | adds 2^n if the bit was clear, changes nothing otherwise or from 128 on |
| Uint128.Uint128.MulAssign | src/util/uint128.cc:216-238 | the product modulo 2^128, also of a number and itself |
| Uint128.Uint128.LeadingBits | src/util/uint128.cc:255-266 | the first loop ends, with the shortest prefix of the dividend that is at least the divisor; the counter may pass zero and comes back |
| Uint128.Uint128.SubtractAndShift | src/util/uint128.cc:268-285 | the second loop ends with quotient and remainder |
| Uint128.Uint128.Div | src/util/uint128.cc:241-286 | quotient and remainder for every non-zero divisor, wherever the remainder is stored |
| Uint128.Uint128.DivAssign | src/util/uint128.h:152-157 | the quotient, also of a number and itself |
| Uint128.Uint128.ModAssign | src/util/uint128.h:158-162 | the remainder, although it overwrites the dividend |
| Uint128.Uint128.ToString | src/util/uint128.cc:28-49 | for every radix from 2 to 37 digits below it that denote the number, the first of them not zero; 0 for zero, and a complaint for any other radix |
| Uint128.Uint128.Set | src/util/uint128.cc:51-103 | the number that the text parses to, of which the laws say what it is |
| Reassembly.CutsAreOrdered | src/base/ReassemblyBuffer.cc:49-80 | how a piece lies to the part assembled so far: inside, next to it, or beyond a gap |
| Reassembly.ReassemblyBuffer.Consider | src/base/ReassemblyBuffer.cc:93-124 | a stored fragment is merged exactly if it is the next piece, and dropped exactly if it is no later one |
| Reassembly.ReassemblyBuffer.MergeFragments | src/base/ReassemblyBuffer.cc:83-128 | ends with all pieces up to the first gap assembled, and the pieces stored beyond it |
| Reassembly.ReassemblyBuffer.Merge | src/base/ReassemblyBuffer.cc:47-81 | one more piece has arrived; what is assembled and stored is right for it |
| Reassembly.ReassemblyBuffer.AddFragment | src/base/ReassemblyBuffer.cc:39-45 | true exactly if no piece is missing now, and then nothing is left in store |
| Reassembly.ReassemblyBuffer.GetTotalLength | src/base/ReassemblyBuffer.h:81 | the length of the datagram, once it is complete |
| Reassembly.Reassemble | src/base/ReassemblyBuffer.cc:39-128 | for every order of arrival, with duplicates, the k-th answer is true exactly if all pieces are among the first k arrivals, and the length is then the datagram's |
| ByteArrayBuffer.OverreadsByChunk | src/base/ByteArray.cc:51-60 | reading goes wrong exactly if, in the chunk that holds the offset, offset plus length overflows a word |
| ByteArrayBuffer.OverreadHappens | src/base/ByteArray.cc:56-58 | an input for which it goes wrong |
| ByteArrayBuffer.NoOverreadWithinAWord | src/base/ByteArray.cc:56-57 | it cannot if the whole range ends within a word, as it does from offset 0 |
| ByteArrayBuffer.NextChunk | src/base/ByteArrayBuffer.cc:57-70 | a chunk before the offset is skipped and the offset reduced; a later one is read from its beginning |
| ByteArrayBuffer.ByteArray.SetDataFromBuffer | src/base/ByteArray.cc:19-29 | the chunk holds the bytes given |
| ByteArrayBuffer.ByteArray.CopyDataToBuffer | src/base/ByteArray.cc:51-60 | copies the bytes from the offset on, at most the length asked for, and touches nothing else; None exactly if it reads past the chunk |
| ByteArrayBuffer.ByteArray.TruncateData | src/base/ByteArray.cc:69-86 | the bytes that are left; where the two counts overflow a word the source's assertion may let them through, and the chunk is read past its end unless nothing is left |
| ByteArrayBuffer.ByteArrayBuffer.Push | src/base/ByteArrayBuffer.cc:44-50 | the flat contents grow by the bytes pushed |
| ByteArrayBuffer.ByteArrayBuffer.GetBytesToBuffer | src/base/ByteArrayBuffer.cc:52-72 | the matching slice of the flat contents, across chunk boundaries and empty chunks |
| ByteArrayBuffer.ByteArrayBuffer.Drop | src/base/ByteArrayBuffer.cc:79-104 | the flat contents without so many first bytes; the length kept is right; ends |
| ByteArrayBuffer.ByteArrayBuffer.PopBytesToBuffer | src/base/ByteArrayBuffer.cc:74-77 | the first bytes move to the buffer, all that are there or as many as asked for |
| ByteArrayBuffer.ByteArrayBuffer.Clear | src/base/ByteArrayBuffer.cc:106-114 | nothing is left |
| ByteArrayBuffer.Exchange | src/base/ByteArrayBuffer.cc:38-104 | over every history of pushes and pops, the bytes popped and then those inside are the bytes pushed, once and in order |

## Left out

- The simulation kernel: gates, signals, display strings, parameters, module lookup, logging, and extracting a topology from a network. The extracted graph is taken as given.
- Gate ids of links, and the form of `addLink` that takes gates.
- Out-paths that point to deleted links, `Topology::clear`, and the deletion of the objects themselves.
- Floating-point rounding: weights and distances are exact reals or infinity.
- DHCP: byte encoding of options, network parameters (netmask, gateway, DNS, NTP), UDP and its addresses, the routing table, clocks and the lengths of timers, expiry of leases (which the source does not implement), and negative acknowledgements.
- DhcpSystem.EveryRunIsSafe: no client draws a transaction id of another, while the source draws random numbers; no statement is made about probabilities.
- Macho: template plumbing, placement and reuse of box memory, the deprecated `setStateBox`, snapshots, aliases, and creation of instances on demand.
- Macho.MachineBase.UserInit: user init actions respect the assertion that they only go to proper substates.
- PatternMatcher: case-insensitive mode, and `patternPrefixMatches`, for which the shortcut at src/util/PatternMatcher.cc:283-284 ignores the suffix length.
- PatternMatcher.PatternMatcher.ParseNumRange: numbers too large for a long become the largest, as `strtol` has it for longs of 64 bits; the C standard leaves open what `atol` does with them.
- PatternMatcher.PatternMatcher.ParseLiteralString: a backslash at the very end of a pattern is an error, while the source reads past the end of the text.
- PatternMatcher.PatternMatcher.SetPattern: what a matcher holds after a bogus pattern is not stated; characters in sets compare as unsigned.
- Uint128: conversions from and to floating point, `~`, `--`, clearing a bit, bitwise operators, and the signed class Int128.
- Uint128.Uint128.ToString: the result is a value, not the static buffer that later calls overwrite.
- ByteArrayBuffer.ByteArrayBuffer.Push: copies of whole arrays, `addDataFromBuffer` (which appends nothing) and `assignBuffer` are left out; the 64-bit total of chunk sizes is unbounded here.
- ReassemblyBuffer: overlapping fragments that are not pieces of one datagram, which the source declares impossible.
- `WeightedTopology` repeats the weighted search line by line; the queue base classes and the HTTP tools are plumbing around the simulation kernel, random numbers and I/O.
