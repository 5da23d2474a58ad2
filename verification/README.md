# A verified model of the OLSR daemon with cluster heads

The daemon runs the Optimized Link State Routing protocol (RFC 3626) with link-quality extensions and
election of cluster heads by quality of service. This project models its protocol engine in Dafny and
proves what the pieces guarantee together:

- **Flooding** (`SequenceNumbers`, `Bitmap`, `DuplicateSet`, `Flooding`): the sliding 32-bit window over
  16-bit sequence numbers is a plain set of unbounded numbers; the flood of a message over any network ends.
- **Topology advertisements** (`Borders`, `OutputBuffer`, `TopologyControl`, `TopologySync`,
  `SplitAdvertisement`): a list of neighbours is split over several messages with one-byte border flags, and a
  receiver that processes all pieces holds exactly that list.
- **HELLO messages** (`LinkHello`): the same for the grouped neighbour lists of link-quality HELLOs.
- **Relays and heads** (`RelaySelection`, `ClassicMpr`, `HeadElection`, `HeadHistory`): which neighbours become
  relays, what both exits of the classic selection guarantee, what elections with hysteresis keep, and when a
  course of elections, searches and link changes keeps a single head.
- **Smart gateways** (`GatewayList`, `GatewayChoice`, `GatewayAnnouncement`): the bounded list ordered by cost,
  the tunnel names, the current gateway, the choice with a threshold, and the announcement on the wire.
- **Link quality** (`PacketWindow`, `LinkCost`): the ring of packet counters, the cached cost, and how fast the
  averages settle.
- **Codecs and stores** (`TimeCodec`, `MidSet`, `BlockAllocator`): validity times, interface aliases kept in two
  indexes, and recycled memory blocks.
- `Basics` and `Sums` hold shared definitions.

`dafny verify dfyconfig.toml` checks the whole project.

Code that updates state in place is modelled by classes and array methods, each proved against a function on
values; the theorems about runs are about those functions. Where the code and the expectation differ, the model
follows the code. The differences found are stated as theorems, with the exact condition where there is one:

- The message that creates a duplicate entry is accepted once more (`CreatingNumberAcceptedAgain`).
- On a little-endian host an IPv4 address can lie beyond the border of its own LQ_TC fragment
  (`RawOrderMissesPiece`), exactly unless the last address of the fragment ends in zeroes behind the differing byte
  and is smaller in it (`RawPiecesExactly`); nothing is lost by that as long as both ends order alike
  (`AdvertisedEdgesStay`), and otherwise an edge can be missing between two fragments (`EdgeLostBetween`), exactly
  if it is below a border before its own fragment (`EdgeStaysExactly`). The upper end of the last interval is
  exclusive, so an old edge to the all-ones address survives.
- The relay selection reports a change only for neighbours gained, not for neighbours lost (`CalculateLqMpr`).
- The classic selection, which no other code here calls, can end normally with a two-hop neighbour uncovered,
  because what a neighbour has left to cover is lowered by every covering, not only by the first
  (`NormalEndMisses`); it cannot where the others are too few to use it up (`NormalEndCovers`). It can stop early too
  soon after choosing a neighbour that is not symmetric (`EarlyEndMisses`), and only then (`EarlyEndCovers`).
- Looking for a new head marks the best one on offer beside the head already followed (`SearchMakesTwo`), and a
  head whose links all become unusable keeps its mark, so that two heads can meet again (`ReturningHead`). These are
  the only two ways: a run keeps a single head if and only if none of its searches and returning links is of that
  kind (`SingleHeadForever`).
- An election in which all qualities are zero drops the head without any margin (`SwitchNeedsMargin`); the high bit
  of the head status can be cleared while nodes still have this one as head (`HighBitAgrees`, `HighBitLost`).
- The current gateway is left dangling when it is evicted for one whose tunnel then cannot be created
  (`DanglesExactly`, `DanglingReached`), and a gateway that becomes infinitely expensive is not moved to the end of
  the list (`InfiniteCostBreaksOrder`). Its takedown boundary overflows, so that at 72 of the 99 percentages below
  100, the default of 25 among them, working gateways behind it are taken down (`LostTakesDownExactly`,
  `LostGatewayTakesDownWorking`).
- The threshold computed from an infinite cost overflows; for all but the odd percentages above 50 a lost gateway
  is then never replaced (`LostGatewayThreshold`). In C the overflow is undefined; the model lets it wrap around.
- A link whose cost is above 10000 looks calm however its cost moves: the estimate is the cost itself and the
  deviation only halves (`AveragedExactly`).
- An alias inserted under a second main address leaves the two alias indexes without a common meaning
  (`ClashBreaks`); both callers of the insertion rule that out (`HelloFrom`, `Message`).
- An MID message that declares no alias removes even aliases that have not timed out (`PrunedLists`).
- Validity times are rounded down, where section 18.3 of RFC 3626 rounds up (`EncodingError`).

## Model

| member | source | states |
|---|---|---|
| SequenceNumbers.DiffOfLifted | src/duplicate_set.c:106-117 | the wrapped difference is the true difference if and only if the numbers are less than half the number space apart, or exactly half and the residues happen to give the right sign |
| Bitmap.BitAfterShift | src/duplicate_set.c:188-192 | shifting the window by d moves every remembered number by d and forgets exactly those pushed out of the word |
| DuplicateSet.DupEntry.IsDuplicate | src/duplicate_set.c:157-197 | the in-place update of an entry and its verdict are those of the value step |
| DuplicateSet.Table.IsDuplicate | src/duplicate_set.c:119-197 | an unknown originator gets a fresh entry and is no duplicate; a known one is stepped; no other entry changes |
| DuplicateSet.Table.Forget | src/duplicate_set.c:68-75 | only the rejection counter of the named originator changes |
| DuplicateSet.BitmapRefinesSet | src/duplicate_set.c:157-197 | one message: the bitmap over wrapped numbers answers like a plain set of unbounded numbers and goes on representing it |
| DuplicateSet.BitmapIsHistory | src/duplicate_set.c:106-197 | over every run bit k is set exactly when top - k was accepted since the last re-anchoring |
| DuplicateSet.VerdictFromHistory | src/duplicate_set.c:119-197 | a message is accepted exactly if the history does not record it, or it is too low and the rejections are used up |
| DuplicateSet.AcceptedAtMostOnce | src/duplicate_set.c:119-197 | until re-anchoring no number is accepted a second time |
| DuplicateSet.CreatingNumberAcceptedAgain | src/duplicate_set.c:77-90 | the number that created the entry is accepted once more |
| DuplicateSet.CounterIsStreak | src/duplicate_set.c:157-197 | over every run the rejection counter is the number of messages below the window since the last message within or above it, re-anchoring or forgetting, and fourteen more after a forgetting |
| DuplicateSet.LowAcceptedExactly | src/duplicate_set.c:162-177 | a message below the window is accepted if and only if the sixteen events before it were such messages, or the two before it were and a forgetting came right before these |
| DuplicateSet.RestartAfterLowNumbers | src/duplicate_set.c:162-175 | of consecutive too-low messages exactly the remaining rejections are refused, the next one is accepted and re-anchors the window on itself |
| DuplicateSet.RestartExactly | src/duplicate_set.c:162-177 | told from the events alone: of a series of too-low messages the 17th is the first one accepted, right after a forgetting the third |
| Flooding.Node.Forward | src/olsr.c:348-451 | a message is forwarded exactly if the sender is symmetric, this node relays and the duplicate check accepts; the header of the copies; a copy goes out on exactly the interfaces whose mode wants it and whose buffer can hold it, in order; all other duplicate entries are untouched |
| Flooding.OutgoingByMode | src/olsr.c:411-424 | a copy goes out over a mesh interface if and only if its time to live is at least two and its header plausible, over an ether exactly away from where it came, and never over a silent interface |
| Flooding.BudgetDrops | src/olsr.c:394-396 | forwarding uses up one of at most two chances of a node, even when the window is re-anchored by the flood itself |
| Flooding.FloodTerminates | src/olsr.c:348-451 | every run of deliveries over every network, with loss, loops and reordering, is bounded by the copies in flight and the chances left, independent of the time to live |
| Flooding.ForwardsAtMostTwice | src/olsr.c:348-451 | in every run a node forwards the message at most once if it knew the originator, at most twice otherwise |
| Flooding.HeaderSumConserved | src/olsr.c:398-409 | in every run time-to-live plus hop count is the same on every copy, so the hop count never overflows |
| Flooding.MessageTravels | src/olsr.c:348-451 | along every path of relays over mesh interfaces shorter than the time to live there is a run that takes the message to the end, counting one hop for each relay |
| Borders.CalculateBorderFlag | src/lq_packet.c:614-646 | the flag is one more than the most significant differing bit of the two addresses |
| Borders.CutAddress | src/tc_set.c:781-815 | for any flag byte: the code stays within the address if and only if the flag names one of its bits, and the border is then the listed address with that bit set and all lower bits cleared |
| Borders.CutAgrees | src/tc_set.c:781-815 | both sides of a cut compute the same border from their own address |
| Borders.CutSeparates | src/tc_set.c:781-815 | in byte order the border lies above the lower and not above the higher address |
| Borders.CutNotAbove | src/tc_set.c:781-815 | in either host order the border is not above the later address |
| OutputBuffer.Buffer.Push | src/net_olsr.c:219-229 | a message is queued exactly if it fits, behind everything already queued |
| OutputBuffer.Buffer.Output | src/net_olsr.c:336-421 | flushing keeps the stream of messages and empties the buffer |
| TopologyControl.SerializeLqTc | src/lq_packet.c:648-757 | the pushed messages carry exactly the list in order, cut into non-empty pieces whose flags match, with right size fields; each fits; one message if the list fits an empty buffer; how many packets go out, and that none does if everything fits behind what is queued |
| TopologySync.TcEntry.UpdateEdge | src/tc_set.c:664-719 | confirms a known edge, inserts an unknown one keeping the tree in order, and refuses an unknown one with a denied address, exactly then leaving its link quality unread |
| TopologySync.NewerIsOrder | src/olsr_protocol.h:201-204 | the comparison of advertisement numbers is the true order of unbounded numbers less than half the number space apart; what it says at exactly half |
| TopologySync.WalkRevoked | src/tc_set.c:618-650 | the walk that stops behind the upper border drops exactly the older edges within the borders |
| TopologySync.TcEntry.DeleteRevoked | src/tc_set.c:618-650 | exactly the unconfirmed older edges between the borders are gone |
| TopologySync.TcEntry.Receive | src/tc_set.c:934-985 | one message: it is followed to its end if and only if no listed address is refused and both flags are usable or zero; then listed edges are confirmed and the rest of its interval is revoked, a plain message with both flags zero revokes nothing, and an empty one without borders clears the node |
| TopologySync.ProcessWithoutBorders | src/tc_set.c:957-985 | a plain message adds and confirms exactly what it lists; an empty one clears the node if it has no borders and does nothing otherwise |
| TopologySync.BorderAddress | src/tc_set.c:781-815 | the border of a fragment, with all zeroes or all ones for the open ends, and for which flags there is one |
| SplitAdvertisement.CollectNeighbours | src/lq_packet.c:291-376 | the advertised list holds exactly the neighbours admitted by redundancy and link cost, strictly sorted |
| SplitAdvertisement.RedundancyNests | src/lq_packet.c:294-336 | from redundancy 2 on every symmetric neighbour with a usable link is advertised, at 1 without those that are neither relay nor selector, at 0 only the selectors among them |
| SplitAdvertisement.FragmentsConsistent | src/lq_packet.c:648-757 | what the serialiser produces meets at every cut: the last address, the flag and the next first address fit together |
| SplitAdvertisement.IntervalsCover | src/tc_set.c:781-815 | intervals that lie end to end reach every address between their ends, in any comparison order |
| SplitAdvertisement.AfterPieces | src/tc_set.c:934-985 | after any pieces a receiver holds what they list and those older edges that lay outside all intervals |
| SplitAdvertisement.AdvertisementReplacesEdges | src/tc_set.c:934-985 | sender to receiver: after all fragments the edges are exactly the advertised ones, plus an old edge to the all-ones address, whatever order either end uses |
| SplitAdvertisement.HostReplacesEdges | src/tc_set.c:934-985 | the same for each of the two orders in which hosts compare addresses |
| SplitAdvertisement.Advertise | src/lq_packet.c:291-376 | collecting, serialising and receiving end to end: whatever the order of sender and receiver, the receiver then holds exactly the admitted neighbours and what is left over, or nothing if there are none |
| SplitAdvertisement.EdgeStaysExactly | src/tc_set.c:618-650 | for any order of the list and of the receiver, an advertised edge known before is known after k fragments if and only if one of them lists it or it is not below any of their upper borders as the receiver compares |
| SplitAdvertisement.AdvertisedEdgesStay | src/tc_set.c:618-650 | an advertised edge known before is known after every single fragment if both ends order alike |
| SplitAdvertisement.EdgeLostBetween | src/ipcalc.h:72-75 | a byte-ordered list of two fragments that costs a little-endian receiver an advertised edge until the second one arrives |
| SplitAdvertisement.PiecesPartition | src/lq_packet.c:614-757 | for a byte-sorted list each listed address lies in the interval of its own fragment and in no other |
| SplitAdvertisement.RawCutSeparatesExactly | src/ipcalc.h:72-75 | compared as raw little-endian numbers, the border is above the address in front of it if and only if that address is smaller in the differing byte and zero in all bytes behind it |
| SplitAdvertisement.RawPiecesExactly | src/lq_packet.c:614-757 | for a raw-ordered list all of a fragment lies in its own interval if and only if it is the last one or its last address meets that condition |
| SplitAdvertisement.RawOrderMissesPiece | src/ipcalc.h:72-75 | an IPv4 list in raw order that fails the condition, with an address beyond its own border |
| LinkHello.EstimateSize | src/lq_packet.c:481-504 | every neighbour, sent or not, and a header for each group that occurs, and so never less than the message takes |
| LinkHello.LinkCodesDiffer | src/olsr_protocol.h:211-215 | no two groups share a link code |
| LinkHello.SerializeLqHello | src/lq_packet.c:436-612 | the messages carry every neighbour of an admitted type once, under its own link code, in list order within a group; size fields are right; each fits; exactly one message if and only if all fits an empty buffer; how many packets go out |
| LinkHello.ReceivedByCode | src/olsr_protocol.h:211-215 | a receiver finds under the code of a neighbour type and a link type exactly the neighbours of these types, as often and in the order in which they were listed |
| LinkHello.NothingElseReceived | src/lq_packet.c:526-600 | and nothing under any other code |
| RelaySelection.ResetRelays | src/lq_mpr.c:63-93 | only heads that were relays stay so, and symmetric always-willing neighbours are added |
| RelaySelection.SelectFor | src/lq_mpr.c:95-186 | one two-hop entry adds exactly its pick |
| RelaySelection.CalculateLqMpr | src/lq_mpr.c:55-194 | the relays are exactly the kept heads, the always-willing and one pick per two-hop entry; a change is reported exactly if a neighbour newly became a relay |
| RelaySelection.OrderIrrelevant | src/lq_mpr.c:55-194 | the relay set does not depend on the order of the two-hop table |
| RelaySelection.SecondPassIdle | src/lq_mpr.c:55-194 | a second pass changes nothing and reports nothing |
| RelaySelection.PickedAtLeastCost | src/lq_mpr.c:95-186 | a two-hop entry is given a cheapest symmetric connector if and only if some symmetric connector is usable and, for a symmetric neighbour, cheaper than its own link |
| RelaySelection.CoveredAtLeastCost | src/lq_mpr.c:99-164 | of a node that is no symmetric neighbour and is reached by a symmetric connector below the broken cost, a cheapest such connector is a relay |
| RelaySelection.ShortcutAtLeastCost | src/lq_mpr.c:107-164 | of a symmetric neighbour that a symmetric connector reaches more cheaply than its own link, a cheapest such connector is a relay |
| RelaySelection.RelaysExplained | src/lq_mpr.c:63-186 | a relay is a kept head, an always-willing symmetric neighbour, a cheapest connector of some entry, or the first connector of a head further off without one |
| RelaySelection.ReasonsMet | src/lq_mpr.c:63-186 | each of these reasons is met, up to the choice among equally cheap connectors |
| RelaySelection.AsymmetricRelays | src/lq_mpr.c:63-186 | a neighbour that is not symmetric is a relay if and only if it is a kept head or the fallback for a head further off |
| ClassicMpr.Selection.CountTwoHop | src/mpr.c:324-368 | the two-hop count is a running sum: each strict two-hop neighbour counts once for every symmetric neighbour from the first that leads to it; what a neighbour has left to cover includes the links of all before it |
| ClassicMpr.Selection.Choose | src/mpr.c:145-208 | choosing a neighbour keeps every coverage counter equal to the number of chosen neighbours leading there, the covered count equal to the summed excess, and what a symmetric neighbour has left to cover equal to what it started with less the excess behind it |
| ClassicMpr.Selection.FindMaximum | src/mpr.c:218-242 | the first unchosen neighbour of the given willingness with the most left to cover, none only if nobody has anything left |
| ClassicMpr.Selection.OnlyNeighbour | src/mpr.c:91-138 | finds the single neighbour leading to a two-hop node, if and only if it is single |
| ClassicMpr.Selection.AddWillAlways | src/mpr.c:373-399 | exactly the symmetric always-willing neighbours are chosen |
| ClassicMpr.Selection.AddOneLink | src/mpr.c:430-441 | adds exactly the symmetric neighbours of this willingness that are the only way to some strict two-hop neighbour |
| ClassicMpr.Selection.AddGreedy | src/mpr.c:449-457 | the loop makes exactly the greedy picks on values, each one the first with the most left to cover, until the count is reached or nobody has anything left |
| ClassicMpr.EarlyExit | src/mpr.c:405-458 | double counting: if no asymmetric neighbour was chosen for its two-hop neighbours, the covered count never exceeds the running sum, and equality means every strict two-hop neighbour is sufficiently covered, all symmetric neighbours leading to it are chosen and the required coverage is one |
| ClassicMpr.Selection.Calculate | src/mpr.c:405-458 | the choice and the kind of end are exactly those of the selection on values, and all counters agree with the choice at the end |
| ClassicMpr.LeftFalls | src/mpr.c:190-198 | choosing more neighbours never leaves anybody more to cover |
| ClassicMpr.SelectedEnds | src/mpr.c:405-458 | for every graph and coverage: an early end has covered enough; a normal end has chosen everybody with something left to cover and everybody who is the only way to a strict two-hop neighbour; either way nobody else than willing symmetric neighbours, and asymmetric ones behind a symmetric one, is chosen |
| ClassicMpr.EarlyEndCovers | src/mpr.c:444-457 | unless an asymmetric neighbour that can be chosen has strict two-hop neighbours, an early end covers every reachable strict two-hop neighbour as often as required, by all symmetric neighbours leading to it, and only for a required coverage of one |
| ClassicMpr.EarlyEndMisses | src/mpr.c:405-458 | the selection run on a graph with such an asymmetric neighbour: it stops early with a two-hop neighbour uncovered |
| ClassicMpr.NeededSelected | src/mpr.c:430-441 | a willing symmetric neighbour that is the only way to some strict two-hop neighbour is selected, after a normal end always and after an early one under the same condition |
| ClassicMpr.NormalEndCovers | src/mpr.c:190-198 | told from the graph alone: a normal end covers a strict two-hop neighbour if a willing symmetric neighbour leads to it whose share the other choosable neighbours are too few to use up |
| ClassicMpr.SelectionCovers | src/mpr.c:405-458 | both conditions together cover it whichever way the selection ends |
| ClassicMpr.NormalEndMisses | src/mpr.c:190-198 | the selection run on a graph of five neighbours: it ends normally with a reachable two-hop neighbour uncovered |
| HeadElection.Scan | src/mpr.c:568-609 | one pass clears all marks of linked neighbours and finds the best quality and the head in office |
| HeadElection.CalculateHead | src/mpr.c:554-657 | table and own status after an election are those of the outcome on values |
| HeadElection.OneSymmetricHead | src/mpr.c:554-657 | at most one linked neighbour is head afterwards, and it is symmetric |
| HeadElection.HeadsRelay | src/mpr.c:568-650 | after an election a linked neighbour is a relay if and only if it is marked head; one without a usable link keeps its flags; nothing else changes |
| HeadElection.TopIsFirst | src/mpr.c:594-606 | of equally good neighbours the first one in the table wins |
| HeadElection.GoodEnoughHead | src/mpr.c:612-640 | unless all qualities are zero there is a head within ten percent of the best |
| HeadElection.SwitchNeedsMargin | src/mpr.c:600-650 | the neighbour in office stays marked if and only if some quality is positive and its own is within ten percent of the best, so an all-zero election drops it; the node itself loses office only to one more than a ninth better, and always then if no neighbour is in office |
| HeadElection.ElectionIdempotent | src/mpr.c:554-657 | electing again with the same qualities changes nothing |
| HeadElection.BothInOffice | src/mpr.c:612-650 | exactly when an election leaves both the node and a neighbour in office |
| HeadElection.Status.HeadChosen | src/process_package.c:739-747 | a neighbour that chose this node is recorded and the high bit set |
| HeadElection.Status.RelaySelectorExpired | src/mpr_selector_set.c:106-138 | the selector goes; the high bit is cleared if it was the last |
| HeadElection.Status.HeadSelectorExpired | src/mpr_selector_set.c:140-172 | the same for head selectors |
| HeadElection.StatusStep | src/mpr_selector_set.c:106-172 | only elections change the low bit of the status, and nothing else |
| HeadElection.SelectorsStep | src/mpr_selector_set.c:106-172 | who is a head selector and who a relay selector after an event, nobody twice |
| HeadElection.StatusBits | src/mpr_selector_set.c:106-172 | over every run the status stays 0 to 3 and its high bit is set only while some node has this one as head |
| HeadElection.HighBitAgrees | src/mpr_selector_set.c:106-138 | a step makes the high bit disagree with the head selectors exactly when the last relay selector expires while head selectors remain |
| HeadElection.HighBitLost | src/mpr_selector_set.c:106-138 | a course of three events after which the bit is clear and a head selector is left |
| HeadHistory.ScanOffers | src/mpr.c:494-519 | one pass demotes heads that are not symmetric any more and finds the last of the best heads on offer |
| HeadHistory.FindHead | src/mpr.c:490-551 | table and own status after a search for a head are those of the outcome on values |
| HeadHistory.SearchMarks | src/mpr.c:494-538 | a search that finds an offer marks a best one as head and relay, takes both marks from heads that are not symmetric any more, and touches nobody else |
| HeadHistory.SearchElects | src/mpr.c:541-543 | a search in vain elects, and never a head that lost its symmetry |
| HeadHistory.FindHeadExactly | src/mpr.c:490-551 | from at most one head a search leaves at most one if and only if the node is not elected and no other linked symmetric neighbour is marked, or the one found has no link, or an election takes place |
| HeadHistory.FindHeadFromAnywhere | src/mpr.c:502-538 | from any state, a search that marks a linked offer leaves a single head if and only if the node is not elected and no other mark survives the pass |
| HeadHistory.LinkUpExactly | src/mpr.c:568-609 | a link that comes up keeps a single head if and only if its neighbour carries no old mark or there is no other head |
| HeadHistory.StepExactly | src/neighbor_table.c:234-407 | of elections, searches, hellos, links going up and down, joins, leaves and selector events, each keeps a single head exactly under its condition |
| HeadHistory.SingleHeadForever | src/mpr.c:490-657 | over every course of such events there is at most one head at every point if and only if every event meets its condition |
| HeadHistory.SearchMakesTwo | src/mpr.c:502-538 | from the start, six events after which two neighbours are marked as head |
| HeadHistory.ReturningHead | src/mpr.c:568-609 | from the start, six events after which a head that lost its link returns to a node that elected itself |
| GatewayList.Gateways.Add | src/gateway_list.c:120-147 | insertion before the first entry that costs at least as much |
| GatewayList.Gateways.Remove | src/gateway.c:727-739 | the entry and its tunnel name go; a current pointer to it dangles |
| GatewayList.Gateways.Choose | src/gateway.c:1520-1588 | choosing a gateway: already current, already listed, eviction of the worst, tunnel failure |
| GatewayList.ChosenCurrent | src/gateway.c:1520-1588 | a usable gateway that is listed or whose tunnel comes up is current and listed afterwards; otherwise the current one stays or is left dangling |
| GatewayList.ChosenListed | src/gateway.c:1520-1588 | nobody else joins the list, and nobody leaves it but the worst of a full one, for a usable gateway not listed before |
| GatewayList.Gateways.Delete | src/gateway.c:1402-1437 | a lost gateway leaves list, names and current |
| GatewayList.DeletedListed | src/gateway.c:1402-1437 | exactly the deleted gateway leaves, and the current one is reset if and only if it was that one |
| GatewayList.Gateways.Reprice | src/gateway.c:1264-1338 | a new cost moves a listed gateway unless it is infinite |
| GatewayList.RepricedListed | src/gateway.c:1264-1338 | a new cost is recorded and moves nobody but its gateway; who is listed and current stays the same |
| GatewayList.WithdrawnListed | src/gateway.c:1292-1295 | a gateway without bandwidth is gone, not current and infinitely expensive; nobody else is affected |
| GatewayList.Gateways.Update | src/gateway.c:1243-1343 | an announcement that is not newer changes nothing, one without bandwidth removes the gateway, any other one sets its cost and its place; the sequence numbers kept |
| GatewayList.Gateways.TakeDown | src/gateway.c:749-797 | the loop that removes expensive gateways computes the cut on values |
| GatewayList.NameAvailable | src/gateway.c:301-325 | while the list has room a tunnel name is free, so the fallback naming is never used |
| GatewayList.NameRoundTrip | src/gateway.c:301-346 | giving a name and taking it back restores the names |
| GatewayList.AlwaysSound | src/gateway.c:1520-1588 | over every run: no repeats, at most the configured number, listed gateways and used names correspond one to one, current is unset, listed or dangling |
| GatewayList.DanglesExactly | src/gateway.c:1558-1586 | a step leaves current dangling if and only if the full list evicts it for a gateway whose tunnel fails |
| GatewayList.DanglingReached | src/gateway.c:1558-1586 | two choices after which the current pointer dangles |
| GatewayList.InfiniteCostBreaksOrder | src/gateway.c:1312-1322 | the order survives an infinite cost if and only if everything behind is as expensive |
| GatewayList.AlwaysSorted | src/gateway_list.c:120-185 | over every run without such a step the list is in order of cost |
| GatewayList.TakenDownExactly | src/gateway.c:749-797 | on a list in order exactly the gateways behind the current one that reach the boundary go |
| GatewayList.TrimmedExactly | src/gateway.c:749-797 | the same for the whole operation, and that it does nothing at percentage zero |
| GatewayList.TakenDownCuts | src/gateway.c:768-796 | on any list only a suffix goes, never the current gateway, and the cut is where the code stops |
| GatewayList.BoundaryMeaning | src/gateway.c:760-769 | the boundary is the cost over the percentage rounded down, and never below the cost unless it overflows |
| GatewayList.LostBoundary | src/gateway.c:760-769 | for an infinite current cost the overflowing boundary comes out below 100 at exactly the percentages below 100, other than 4, that divide 100 or go into it an odd number of times; otherwise it stays above every ordinary cost, and infinite only at 4 |
| GatewayList.LostTakesDownSome | src/gateway.c:749-797 | some finite cost reaches the boundary of a lost gateway if and only if the percentage is below 100 and not 4 |
| GatewayList.LostTakesDownExactly | src/gateway.c:749-797 | behind a lost current gateway either all gateways of ordinary cost are taken down or none, decided by the percentage alone |
| GatewayList.LostGatewayTakesDownWorking | src/olsr_cfg.h:113 | a course of events after which, at the default percentage of 25, a lost gateway takes down a working one of cost 5000 |
| GatewayChoice.ChooseGateway | src/gateway_default_handler.c:104-176 | the first of the cheapest eligible gateways, and none only if none is eligible |
| GatewayChoice.FreeChoice | src/gateway_default_handler.c:128-145 | without a threshold or a current gateway: the first of the cheapest gateways that offer IPv4 in an allowed way over a finite path, none only if there is none |
| GatewayChoice.ChoiceBelowThreshold | src/gateway_default_handler.c:104-145 | with both: the same among those that cost less than the rounded percentage of the current cost |
| GatewayChoice.ThresholdMeaning | src/gateway_default_handler.c:92-98 | without overflow the threshold is the rounded percentage and not above the cost |
| GatewayChoice.SwitchImproves | src/gateway_default_handler.c:104-176 | with a threshold a switch goes to a strictly cheaper gateway |
| GatewayChoice.StayingIsJustified | src/gateway_default_handler.c:104-176 | without a switch no selectable gateway beats the threshold |
| GatewayChoice.ChoiceIsStable | src/gateway_default_handler.c:104-176 | with unchanged costs a second pass never switches |
| GatewayChoice.LostGatewayThreshold | src/gateway_default_handler.c:92-98 | for an infinite current cost the overflowing threshold admits a gateway if and only if the percentage is odd and above 50 |
| GatewayChoice.LostGatewayKept | src/gateway_default_handler.c:104-176 | for every other percentage a lost gateway is never replaced |
| GatewayChoice.LostGatewayReplaced | src/gateway_default_handler.c:104-176 | for those percentages it is, by one at most as expensive as any of ordinary cost |
| GatewayChoice.LostGatewayReached | src/gateway_default_handler.c:104-176 | a course of events after which the current gateway is lost, and a pass that keeps it beside an ordinary one |
| GatewayChoice.Handler.Pass | src/gateway_default_handler.c:104-176 | nothing is chosen unless the handler is looking; it stops looking when it has found a gateway, and without a threshold its timer stops too |
| GatewayChoice.Handler.LookUp | src/gateway_default_handler.c:213-226 | a lookup always searches, and goes on looking exactly if it found nothing |
| GatewayChoice.Handler.Choose | src/gateway_default_handler.c:257-314 | a lookup in vain restarts the timer, and the handler then goes on looking unless this node is a gateway itself |
| GatewayAnnouncement.SerializeSpeed | src/gateway.c:242-262 | the loop computes the normalised code |
| GatewayAnnouncement.Quantised | src/gateway.c:211-262 | zero only for zero, one as two, the maximum from the maximum on, else at most the speed and more than three quarters of it |
| GatewayAnnouncement.SpeedRoundTrip | src/gateway.c:211-262 | every speed that can be decoded is encoded and decoded exactly |
| GatewayAnnouncement.PrefixToNetmask | src/ipcalc.c:82-112 | every byte of the mask for every prefix length, and when the call reports failure |
| GatewayAnnouncement.NetmaskToPrefix | src/ipcalc.c:114-164 | counts the leading ones, or reports a byte that is no netmask |
| GatewayAnnouncement.NetmaskRoundTrip | src/ipcalc.c:82-164 | reading back a mask gives the prefix length, for every length that fits |
| GatewayAnnouncement.PrefixMeans | src/ipcalc.c:114-164 | for any bytes: rejected only for a first incomplete byte that no netmask has, otherwise the mask of the prefix length found agrees up to that byte |
| GatewayAnnouncement.AnnouncementReceived | src/gateway.c:1154-1232 | a receiver sees prefix length 0, recognises the gateway and gets its flags and quantised speeds |
| PacketWindow.Window.Packet | src/lq_plugin_default_ff.c:220-263 | a packet counts once, with the gap since the last one unless it is a jump; a repeated number counts nothing |
| PacketWindow.GapOfLifted | src/lq_plugin_default_ff.c:246-255 | over unbounded packet numbers the gap counts every number passed, lost ones included, up to 256, and a longer jump for one |
| PacketWindow.TrafficBalances | src/lq_plugin_default_ff.c:220-263 | over every run of packets, seconds and missed hellos with at most 255 packets lost in a row, the packets received are the new ones and the packets sent are all numbers passed since the start |
| PacketWindow.MissedIsCount | src/lq_plugin_default_ff.c:260-262 | over every such run the missed hellos are those since the last new packet |
| PacketWindow.Window.Tick | src/lq_plugin_default_ff.c:265-322 | the measured quality is always that of the 16-bit counters in the window, and that of the whole history of per-second counts while traffic is below 256 packets a second; a new second begins |
| PacketWindow.Window.InEveryState | src/lq_plugin_default_ff.c:265-322 | in every state the active slot lies in the window, and while traffic is below 256 packets a second no slot has received more than were sent |
| PacketWindow.RingSum | src/lq_plugin_default_ff.c:314-318 | the ring holds the sum of the last 32 seconds plus the padding not yet overwritten |
| PacketWindow.WindowSum | src/lq_plugin_default_ff.c:274-285 | the sum over the growing window is that of the recent seconds plus the padding of the quickstart slots |
| PacketWindow.QualityRange | src/lq_plugin_default_ff.c:287-312 | the nested fixed-point divisions stay within 0 to 255 and lose nothing in the byte; when they give 255 |
| PacketWindow.ScaledError | src/lq_plugin_default_ff.c:291-312 | the fixed-point quality is at most 255 times the scaled share received and less than one and a quarter below it |
| PacketWindow.CreditedExactly | src/lq_plugin_default_ff.c:293-304 | a thirty-second less credit for each second that hellos are overdue, rounded down, and none after more than 32 |
| PacketWindow.QualityMonotone | src/lq_plugin_default_ff.c:287-312 | more received of fewer sent, with fewer hellos missed, never measures worse |
| PacketWindow.PerfectLink | src/lq_plugin_default_ff.c:265-322 | quality 255 if and only if a full window has passed, every packet of it arrived, some did, nothing scales it down and no hello is overdue |
| LinkCost.CostRange | src/lq_plugin_default_ff.c:331-350 | a usable link costs 1024 to 106536, and the cost is broken if and only if a direction is unusable |
| LinkCost.CostMonotone | src/lq_plugin_default_ff.c:331-350 | better qualities never cost more |
| LinkCost.HandleChange | src/lq_plugin_default_ff.c:110-218 | both passes over all links, the second exactly if some link changed relevantly |
| LinkCost.CacheAgrees | src/lq_plugin_default_ff.c:142-147 | in every reachable state the cached cost is the cost of the smoothed pair |
| LinkCost.TickIsClose | src/lq_plugin_default_ff.c:110-218 | after a tick smoothed values are within a tenth of the measured ones; after a relevant change equal, unless perfect |
| LinkCost.AdoptedExactly | src/lq_plugin_default_ff.c:120-147 | a measured pair is adopted exactly if a direction is off by more than a tenth of the smoothed value or newly perfect |
| LinkCost.OthersFollow | src/lq_plugin_default_ff.c:183-216 | when another link changed, an unchanged one adopts its pair as well unless it is perfect, and is then averaged a second time |
| LinkCost.AveragedExactly | src/lq_plugin_default_ff.c:159-172 | estimate, deviation and calculated cost as rounded weighted means; above 10000 the estimate is the cost and the deviation only halves |
| LinkCost.CalculatedIsCautious | src/lq_plugin_default_ff.c:172-172 | up to rounding the calculated cost is never below the cost plus the deviation before the tick |
| LinkCost.SwingShows | src/lq_plugin_default_ff.c:159-172 | after two ticks at costs up to 10000 the deviation is at least a quarter of their difference, up to rounding |
| LinkCost.GeometricApproach | src/lq_plugin_default_ff.c:159-166 | from above, the distance of the estimate to an unchanged cost shrinks by at least seven eighths each tick |
| LinkCost.SettlesForGood | src/lq_plugin_default_ff.c:159-172 | after a number of ticks computed from the start, logarithmic in it, the deviation is at most 4000 from then on |
| LinkCost.SettlesWithin88 | src/olsr.c:628-635 | from every state in range 88 ticks at unchanged cost are enough for the stability filter, for good |
| LinkCost.RangeKept | src/link_set.c:606-609 | every reachable link is in that range |
| TimeCodec.Encode | src/mantissa.c:62-133 | the code of a time is the one whose value comes next below it; fixed codes at both ends; the mantissa fits four bits |
| TimeCodec.DecodeMeaning | src/mantissa.c:170-180 | decoding rounds down, and only for exponents below five |
| TimeCodec.CodeUnique | src/mantissa.c:62-133 | a time has exactly one code |
| TimeCodec.EncodingError | src/mantissa.c:62-180 | decoding a code gives at most the time and, from 2 to 4096 seconds, more than sixteen seventeenths of it |
| TimeCodec.BestCode | src/mantissa.c:62-180 | in that range no other code comes closer from below |
| TimeCodec.Monotone | src/mantissa.c:62-180 | a longer time never decodes to less |
| TimeCodec.RoundTrip | src/mantissa.c:62-180 | a code survives decoding and encoding if and only if it is the shortest or decodes without rounding |
| MidSet.Mids.LookupMain | src/mid_set.c:329-344 | searching one bucket gives the owner of the alias, or nothing if it has none |
| MidSet.Mids.LookupAliases | src/mid_set.c:352-379 | lists exactly the aliases that the other index maps to this main address, once each |
| MidSet.Mids.Insert | src/mid_set.c:155-206 | an alias registered with this main address changes nothing; any other one enters both indexes, which go on agreeing if and only if it did not belong to another main address |
| MidSet.ClashBreaks | src/mid_set.c:155-206 | otherwise no assignment of owners fits the reverse index any more |
| MidSet.Mids.InsertAlias | src/mid_set.c:262-319 | as above, after a neighbour known under the alias gave up its own aliases; a denied alias changes nothing |
| MidSet.ReleasedExactly | src/mid_set.c:297-312 | exactly the aliases of the renamed neighbour are given up |
| MidSet.Mids.HelloFrom | src/process_package.c:645-669 | the address a hello came from becomes an alias of its originator unless it is denied or known to belong to somebody else, and the indexes stay in agreement |
| MidSet.Mids.PruneEntry | src/mid_set.c:415-490 | the surviving list, with both indexes agreeing and other main addresses untouched |
| MidSet.PrunedLists | src/mid_set.c:415-490 | which aliases survive: the declared ones, and others until they time out, but none if nothing is declared |
| MidSet.TimedOutIsPast | src/scheduler.c:209-217 | on a clock that wraps around, a time less than half its range away has come if and only if it is not in the future |
| MidSet.Mids.Delete | src/mid_set.c:497-528 | exactly the aliases of the deleted entry are gone from both indexes |
| MidSet.Mids.Message | src/mid_set.c:567-627 | the indexes stay in agreement; owners change only to the originator; only declared, valid, foreign addresses are added, and all of them unless an alias is a known neighbour; no alias of another main address is lost then; what the originator keeps is declared or not timed out |
| BlockAllocator.Cookie.Malloc | src/olsr_cookie.c:217-275 | the block is zeroed, branded and in nobody else's hands; the longest freed one is reused first |
| BlockAllocator.Cookie.Free | src/olsr_cookie.c:283-334 | the block leaves the live ones; it is kept exactly under the threshold, and the list never exceeds ten or a tenth of the peak |

## Left out

- Sockets, netlink, tunnels, timers, configuration files, plugins and the display: input and output. Whether a
  tunnel can be created, an address is valid or a neighbour is known is a parameter.
- Quality of service: the number itself comes from floating point and is an arbitrary input of the election.
- HELLO and TC messages without link quality (src/build_msg.c:259-691): not sent when link quality is on, which is
  the default. They are split by other rules: the buffer is not flushed so that a whole message fits, and a TC
  message that would be empty is suppressed.
- Link-quality bytes in HELLO and LQ_TC entries: carried along unchanged and not modelled.
- Acceptance of TC messages by sequence number.
- Expiry of duplicate entries: the validity time is kept, the periodic clean-up is not modelled.
- IPv6 gateway announcements, and the IPv6 halves of the gateway list and of the choice.
- Programming of routes, multi-gateway routing tables and the status file.
- The optimisation after the classic relay selection (src/mpr.c:669-713): it never lowers the coverage counters,
  so no coverage can be claimed after it.
- The other link-quality plugins, route calculation, the search trees and hash functions.
- LinkHello.SerializeLqHello: the three nested loops are modelled as enumeration followed by writing, and the
  size field of a group is filled in when the group ends.
- TopologySync.TcEntry.Receive: what the code does with a border flag that names no bit of the address, where it
  writes outside the address, and behind a refused address, where it reads the rest of the message out of step, is
  not followed; which messages these are is stated exactly.
- ClassicMpr.Selection.Calculate: the 8-bit and 16-bit counters do not wrap around.
- ClassicMpr.NormalEndCovers: goes one way; in which order the others are picked, and so whether they do use up the
  share of a neighbour before its turn, depends on the whole run.
- ClassicMpr.EarlyEndCovers: goes one way, since a choosable asymmetric neighbour need not be picked in time.
- HeadHistory.SingleHeadForever: when the code starts an election or a search is left to the course of events.
- GatewayList.Gateways.Choose: says nothing once the current pointer dangles, since the code then reads released
  memory.
- MidSet.Mids.Insert: changes to the neighbour and two-hop tables are left out.
- BlockAllocator.Cookie.Free: the brand is not checked, because a block in the caller's hands carries it.
