# BadVPN core: a verified model

BadVPN's C core, vendored under `app/src/main/jni/badvpn`, schedules packets, keeps augmented
balanced trees, and reads and writes several binary and text formats. This project models these
parts in Dafny and proves what they promise.

| files | what they model |
|---|---|
| `FairQueue.dfy`, `FairQueueLaws.dfy`, `FairQueueTheorems.dfy`, `FairQueueRestart.dfy`, `FairQueueFairness.dfy`, `FairQueueObject.dfy` | the fair packet queue: the step machine over values, run with the code's 64-bit times and with unbounded ones; what each step does to the times; refinement, where it ends, service gap, bounded bypass; the objects whose handlers follow it |
| `AvlTree.dfy`, `AvlBalance.dfy`, `AvlSums.dfy`, `AvlRemove.dfy`, `AvlObject.dfy` | the AVL tree with parent links, counts and associative sums: shapes and one-hole contexts as values, and the tree object over an arena of entries |
| `Substring.dfy` | Knuth-Morris-Pratt search in both directions |
| `BProto.dfy`, `BProtoParser.dfy`, `BProtoWriter.dfy`, `AddrProto.dfy` | the generated message parsers and writers, for any list of fields, and the address encoding on top of them |
| `Pending.dfy`, `PacketPassInterfaceObject.dfy` | the job stack and the packet interface it drives |
| `PacketProto.dfy`, `LineBuffer.dfy`, `RouteBuffer.dfy` | the packet framer, the line splitter, zero-copy routing |
| `Socks.dfy`, `SocksStandard.dfy`, `SocksClient.dfy`, `Addresses.dfy` | the SOCKS5 client (RFC 1928, RFC 1929) and the packet sender below it |
| `ParseNumber.dfy`, `Ipv6.dfy`, `Ipv6Dotted.dfy`, `Ipv6Form.dfy`, `Ipv6Grammar.dfy`, `Ipv6Address.dfy` | number and IPv6 text (section 2.2 of RFC 4291, section 4 of RFC 5952) |
| `SPProto.dfy` | the packet size arithmetic |
| `Wrappers.dfy`, `Arithmetic.dfy` | shared types and facts |

`dafny verify dfyconfig.toml` checks everything.

How to read it:

- Code that works by changing an object is a class with methods; its contracts tie the fields to a
  value (a sequence, a tree, a queue) through ghost state, and the theorems are about that value.
- Memory that the source links by pointers (tree entries, routed packets) is an arena: a link is an
  index, and each member of the entries is a sequence that is updated at one index per assignment.
- An event loop is a set of steps in any order; a peer is whatever calls them.
- 64-bit and 32-bit arithmetic is written out where the source relies on it: `FairQueue.Wrap`,
  `ParseNumber.Wrap`, `SPProto.Size` and `SPProto.AsInt`.

Two findings:

- The fair queue's rebase clamps idle flows to zero, and so forgets how far apart they were. From
  then on the code and a scheduler with unbounded times, as long as they are in step, stay in step
  over a send exactly when the queue is busy, or the flow was not clamped, or no flow is ahead of it
  (`FairQueueTheorems.StepRefines`). A caller sees only the clamped times: for all that they may hide,
  it is exactly a send into a busy queue, by a flow with time left, or by the only flow
  (`FairQueueTheorems.SettledExactly`). When every send after a rebase is such a one the dispatch
  order is the same (`FairQueueTheorems.RebaseInvisible`). Otherwise it may differ: any two clamped
  flows that are not even are told apart by a restart (`FairQueueRestart.RestartDiffers`), and every
  configuration, `FAIRQUEUE_MAX_TIME` = `UINT64_MAX` included, has a run from the empty queue that is
  dispatched in two orders (`FairQueueRestart.RebaseShows`).
- A SOCKS server may answer with a domain name as its bound address (section 6 of RFC 1928); the
  client treats that as an error. It comes up exactly on the other successful exchanges
  (`SocksStandard.UpIffRfcSuccessful`); `SocksStandard.DomainExample` is a server it gives up on.

## Model

| member | source | states |
|---|---|---|
| `FairQueue.TreeInsertSorted` | app/src/main/jni/badvpn/flow/PacketPassFairQueue.c:39-47 | The queued tree stays ordered by time, then address, when a flow that is not in it is put in. |
| `FairQueue.CurrentTimeBelow` | app/src/main/jni/badvpn/flow/PacketPassFairQueue.c:52-77 | The current time is a lower bound on every queued, sending or just-sent flow and is the time of one of them; it is 0 when there is none. |
| `FairQueue.RebaseExact` | app/src/main/jni/badvpn/flow/PacketPassFairQueue.c:79-116 | For a finished flow not behind any queued one, the wrapped subtraction and addition of `increment_sent_flow` give the integer result, no queued flow is clamped to zero, idle flows stop at zero, and all times stay within `FAIRQUEUE_MAX_TIME`. |
| `FairQueue.SendKeepsInv` | app/src/main/jni/badvpn/flow/PacketPassFairQueue.c:153-180 | `input_handler_send` keeps the whole invariant: tree order, sending flow first, exclusion of previous flow and pending job, times in range, work conservation. |
| `FairQueue.OutputDoneKeepsInv` | app/src/main/jni/badvpn/flow/PacketPassFairQueue.c:182-217 | `output_handler_done` keeps it, rebase included. |
| `FairQueue.ScheduleJobKeepsInv` | app/src/main/jni/badvpn/flow/PacketPassFairQueue.c:118-151 | The schedule job keeps it. |
| `FairQueue.FlowInitKeepsInv` | app/src/main/jni/badvpn/flow/PacketPassFairQueue.c:296-321 | A flow added keeps it. |
| `FairQueue.FlowFreeKeepsInv` | app/src/main/jni/badvpn/flow/PacketPassFairQueue.c:323-351 | A flow freed keeps it. |
| `FairQueue.StepKeepsInv` | app/src/main/jni/badvpn/flow/PacketPassFairQueue.c:118-351 | Every step the users of the queue may cause keeps the invariant. |
| `FairQueueTheorems.ReachableInv` | app/src/main/jni/badvpn/flow/PacketPassFairQueue.c:118-351 | Whatever has happened to a queue since it was set up, it has the invariant. |
| `FairQueueLaws.RunRemembers` | app/src/main/jni/badvpn/flow/PacketPassFairQueue.c:127-134 | Over any run, from a new queue on, a packet that waits or is on its way has the length of the last Send of its flow. |
| `FairQueueLaws.PacketCosts` | app/src/main/jni/badvpn/flow/PacketPassFairQueue.c:182-199 | With unbounded times, the flow that finishes pays `packet_weight` and the length that it sent, exactly, and no other flow pays. |
| `FairQueueLaws.PacketCostsRebased` | app/src/main/jni/badvpn/flow/PacketPassFairQueue.c:79-116 | In the code it pays the same, after all times have moved down, if there was no room, by the time of the least queued flow, or by its own if none is queued; idle flows stop at zero. |
| `FairQueueLaws.SendRaises` | app/src/main/jni/badvpn/flow/PacketPassFairQueue.c:153-180 | A flow that sends goes up to the least time of the queued, sending and just finished flows, if it is below; the flow that has just finished keeps its time, as all others do, and so does any flow when none of these is there. |
| `FairQueueLaws.NewcomerStarts` | app/src/main/jni/badvpn/flow/PacketPassFairQueue.c:163-168 | A new flow starts at that time, or at zero. |
| `FairQueueLaws.SendsAgain` | app/src/main/jni/badvpn/flow/PacketPassFairQueue.c:182-206 | A flow that sends again before the schedule job runs keeps the time it finished at, whatever happens in between. |
| `FairQueueLaws.JobForgets` | app/src/main/jni/badvpn/flow/PacketPassFairQueue.c:139-151 | Once the job has run, a flow that has not sent again does not count any more. |
| `FairQueueLaws.FreeForgets` | app/src/main/jni/badvpn/flow/PacketPassFairQueue.c:323-351 | A freed flow is gone, and nothing changes for the others. |
| `FairQueueLaws.DispatchesFirst` | app/src/main/jni/badvpn/flow/PacketPassFairQueue.c:118-137 | The output gets the first of the waiting flows, by time and then by address, with the length that it sent. |
| `FairQueueTheorems.StepRefines` | app/src/main/jni/badvpn/flow/PacketPassFairQueue.c:79-217 | One step of the code against one step of the scheduler with unbounded times: afterwards the two states are the same but for some total rebase exactly when the step is not a send, into an idle queue, by a flow that is clamped and behind another. |
| `FairQueueTheorems.SettledExactly` | app/src/main/jni/badvpn/flow/PacketPassFairQueue.c:52-116 | That condition is the weakest: after a rebase, a send keeps the two together for all unbounded times that the code's may stand for exactly when it holds. |
| `FairQueueTheorems.RunRefines` | app/src/main/jni/badvpn/flow/PacketPassFairQueue.c:79-217 | Over whole runs from related states the two dispatch the same flows in the same order, where every send after a rebase goes into a busy queue, or is by a flow with time left, or by the only flow. |
| `FairQueueTheorems.RebaseInvisible` | app/src/main/jni/badvpn/flow/PacketPassFairQueue.c:52-180 | The same from any state with the invariant: the rebase does not show in the dispatch order, under a condition on each send that the caller can see. |
| `FairQueueRestart.RestartDiffers` | app/src/main/jni/badvpn/flow/PacketPassFairQueue.c:52-180 | Beyond it the order may differ: for any two clamped flows of an idle queue that are not even, and any new flow, there is a restart after which the code dispatches the flow ahead and the unbounded scheduler the new one. |
| `FairQueueRestart.RebaseShows` | app/src/main/jni/badvpn/flow/PacketPassFairQueue.c:52-217 | Whatever the weight, the MTU and the greatest time, some run of a new queue is dispatched in two orders. |
| `FairQueueFairness.GapStep` | app/src/main/jni/badvpn/flow/PacketPassFairQueue.c:79-217 | A step moves two flows in service apart by exactly the weighted service it completes, which is what `FairQueueFairness.ServedIsBilled` says, within the larger of their gap and one packet. |
| `FairQueueFairness.ServedIsBilled` | app/src/main/jni/badvpn/flow/PacketPassFairQueue.c:182-199 | The service a run completes for a flow is `packet_weight` and the length of its Send, for each of its packets that finish. |
| `FairQueueFairness.ServiceConserved` | app/src/main/jni/badvpn/flow/PacketPassFairQueue.c:118-217 | For a flow that is not freed, what it has been charged for and the packet that still waits make up all that it has sent. |
| `FairQueueFairness.ServiceGap` | app/src/main/jni/badvpn/flow/PacketPassFairQueue.c:79-217 | Over any part of a run of a queue during which two flows stay queued, sending or just sent, the service they get, `packet_weight` and length summed over the packets that finish, differs by at most their gap at its start plus the larger of that gap and `packet_weight` + MTU, across any number of rebases. |
| `FairQueueFairness.DistanceStep` | app/src/main/jni/badvpn/flow/PacketPassFairQueue.c:88-217 | While a flow waits and no flow is added, each dispatch of another brings it one closer and no step, requeueing, raising or rebasing included, moves it away. |
| `FairQueueFairness.BoundedBypass` | app/src/main/jni/badvpn/flow/PacketPassFairQueue.c:88-217 | While a flow stays queued, at most the sum over the others at or before it of (t_f - t_g) / `packet_weight` + 1 packets are dispatched. |
| `FairQueueFairness.Progress` | app/src/main/jni/badvpn/flow/PacketPassFairQueue.c:118-217 | A waiting flow is never stuck: the output is working or the job is set, and each run of the job dispatches one flow. |
| `FairQueueFairness.NoStarvation` | app/src/main/jni/badvpn/flow/PacketPassFairQueue.c:88-217 | Once the job has run more often than that bound, the flow no longer waits. |
| `FairQueueObject.PacketPassFairQueue.Init` | app/src/main/jni/badvpn/flow/PacketPassFairQueue.c:219-266 | A new queue is the empty one. |
| `FairQueueObject.PacketPassFairQueue.GetCurrentTime` | app/src/main/jni/badvpn/flow/PacketPassFairQueue.c:52-77 | Reads the current time of the abstract queue from the objects. |
| `FairQueueObject.PacketPassFairQueue.IncrementSentFlow` | app/src/main/jni/badvpn/flow/PacketPassFairQueue.c:79-116 | Leaves the flows with the times of the abstract step. |
| `FairQueueObject.PacketPassFairQueue.SubtractFromAll` | app/src/main/jni/badvpn/flow/PacketPassFairQueue.c:92-108 | The loop over all flows rebases every one as the abstract queue says. |
| `FairQueueObject.PacketPassFairQueue.ScheduleFirst` | app/src/main/jni/badvpn/flow/PacketPassFairQueue.c:118-137 | The first queued flow becomes the sending one. |
| `FairQueueObject.PacketPassFairQueue.ScheduleJobHandler` | app/src/main/jni/badvpn/flow/PacketPassFairQueue.c:139-151 | The objects follow the abstract step, which keeps the invariant. |
| `FairQueueObject.PacketPassFairQueue.InputHandlerSend` | app/src/main/jni/badvpn/flow/PacketPassFairQueue.c:153-180 | The same for a send. |
| `FairQueueObject.PacketPassFairQueue.OutputHandlerDone` | app/src/main/jni/badvpn/flow/PacketPassFairQueue.c:182-217 | The same when the output is done; returns the flow whose input is told so, and whether its busy handler is called, which unsets it. |
| `FairQueueObject.PacketPassFairQueue.FlowInit` | app/src/main/jni/badvpn/flow/PacketPassFairQueue.c:296-321 | The same for a new flow. |
| `FairQueueObject.PacketPassFairQueue.FlowFree` | app/src/main/jni/badvpn/flow/PacketPassFairQueue.c:323-351 | The same for a flow that goes, wherever it is. |
| `FairQueueObject.PacketPassFairQueue.PrepareToFree` | app/src/main/jni/badvpn/flow/PacketPassFairQueue.c:281-287 | The same when freeing starts. |
| `AvlTree.RotateLinks` | app/src/main/jni/badvpn/structure/CAvl_impl.h:166-182 | The link assignments of a rotation turn the entries of one shape into those of the rotated shape, the context included. |
| `AvlTree.RotateInorder` | app/src/main/jni/badvpn/structure/CAvl_impl.h:166-193 | A rotation keeps the in-order sequence. |
| `AvlTree.KeysSuffice` | app/src/main/jni/badvpn/structure/CAvl_impl.h:47-67 | Any comparison of entries and searched keys that is a weak order is that of some integer keys. |
| `AvlSums.RotateSum` | app/src/main/jni/badvpn/structure/CAvl_impl.h:184-193 | It keeps the sum of the subtree for any associative operation, so nothing above changes. |
| `AvlSums.TreeSumIsFold` | app/src/main/jni/badvpn/structure/CAvl_impl.h:73-83 | The sum at an entry is the fold of its subtree in order. |
| `AvlBalance.NodeDeltaMeaning` | app/src/main/jni/badvpn/structure/CAvl_impl.h:341-346 | The computed delta is the change of the node's height and stays within one; the new balance factor is the new height difference. |
| `AvlBalance.SingleRotation` | app/src/main/jni/badvpn/structure/CAvl_impl.h:366-382 | Cases 1 and 0 of the switch leave a balanced subtree whose height is lower by one, or the same. |
| `AvlBalance.DoubleRotation` | app/src/main/jni/badvpn/structure/CAvl_impl.h:383-394 | Case -1 leaves a balanced subtree one lower. |
| `AvlBalance.HeightBound` | app/src/main/jni/badvpn/structure/CAvl_impl.h:92-148 | A balanced tree of height h has at least Fib(h + 2) - 1 entries. |
| `AvlObject.CAvl.constructor` | app/src/main/jni/badvpn/structure/CAvl_impl.h:445-448 | An empty tree over any memory. |
| `AvlObject.CAvl.UpdateCount` | app/src/main/jni/badvpn/structure/CAvl_impl.h:158-163 | The count is the number of entries of the subtree. |
| `AvlObject.CAvl.UpdateAssoc` | app/src/main/jni/badvpn/structure/CAvl_impl.h:73-83 | The sum is that of the subtree. |
| `AvlObject.CAvl.Rotate` | app/src/main/jni/badvpn/structure/CAvl_impl.h:166-193 | Parent and child links, counts and sums describe the rotated tree afterwards. |
| `AvlObject.CAvl.RebalanceNode` | app/src/main/jni/badvpn/structure/CAvl_impl.h:330-399 | One level of the rebalancing: a balanced subtree with the same sequence, whose height changed by the delta passed on, which is within one. |
| `AvlObject.CAvl.Rebalance` | app/src/main/jni/badvpn/structure/CAvl_impl.h:330-411 | From a subtree whose height changed by at most one, the whole tree is balanced again, with the same sequence. |
| `AvlObject.CAvl.FixAncestors` | app/src/main/jni/badvpn/structure/CAvl_impl.h:508-517 | The walk to the root moves every count by the change and recomputes every sum, and all are right at the end. |
| `AvlObject.CAvl.Insert` | app/src/main/jni/badvpn/structure/CAvl_impl.h:452-533 | Inserts exactly when no entry has the key; the sequence gains the node at one position and stays ordered, every link, balance, count and sum is right, and the reference is the equal entry or the neighbour. |
| `AvlObject.CAvl.InsertAt` | app/src/main/jni/badvpn/structure/CAvl_impl.h:537-599 | The node becomes the entry at the given position; all others keep their order. |
| `AvlObject.CAvl.SubtreeMax` | app/src/main/jni/badvpn/structure/CAvl_impl.h:206-215 | Finds the last entry of a subtree, at the end of right turns only. |
| `AvlRemove.SwapFarConjugates` | app/src/main/jni/badvpn/structure/CAvl_impl.h:281-315 | The assignments for entries that are not connected exchange their places, seen from every entry. |
| `AvlRemove.SwapNearConjugates` | app/src/main/jni/badvpn/structure/CAvl_impl.h:253-280 | The same for entries that are parent and child. |
| `AvlRemove.LinksRename` | app/src/main/jni/badvpn/structure/CAvl_impl.h:248-315 | Links exchanged so describe the tree with the two entries renamed. |
| `AvlObject.CAvl.SwapForRemove` | app/src/main/jni/badvpn/structure/CAvl_impl.h:248-328 | Exchanging a node with the last entry of its left subtree leaves a tree that is right but for the node to be removed. |
| `AvlObject.CAvl.ReplaceSubtreeFixAssoc` | app/src/main/jni/badvpn/structure/CAvl_impl.h:217-246 | The only subtree of the removed node takes its place, with all counts and sums above right again. |
| `AvlObject.CAvl.Remove` | app/src/main/jni/badvpn/structure/CAvl_impl.h:603-627 | The sequence loses exactly the entry at its position; links, balance, counts, sums and, where there is one, the key order are right. |
| `AvlObject.CAvl.Lookup` | app/src/main/jni/badvpn/structure/CAvl_impl.h:631-656 | Null exactly for an empty tree; otherwise an entry before which all keys are smaller and after which all are greater than the key. |
| `AvlObject.CAvl.LookupExact` | app/src/main/jni/badvpn/structure/CAvl_impl.h:658-683 | The entry with the key, or null exactly when there is none. |
| `AvlObject.CAvl.GetFirstGreater` | app/src/main/jni/badvpn/structure/CAvl_impl.h:685-702 | The first of exactly the entries with a greater key, or null. |
| `AvlObject.CAvl.GetLastLesser` | app/src/main/jni/badvpn/structure/CAvl_impl.h:704-721 | The last of exactly those with a smaller key, or null. |
| `AvlObject.CAvl.GetFirstGreaterEqual` | app/src/main/jni/badvpn/structure/CAvl_impl.h:723-740 | The first with a key not smaller, or null. |
| `AvlObject.CAvl.GetLastLesserEqual` | app/src/main/jni/badvpn/structure/CAvl_impl.h:742-759 | The last with a key not greater, or null. |
| `AvlObject.CAvl.GetFirst` | app/src/main/jni/badvpn/structure/CAvl_impl.h:763-770 | The first entry of the sequence, or null. |
| `AvlObject.CAvl.GetLast` | app/src/main/jni/badvpn/structure/CAvl_impl.h:772-779 | The last one, or null. |
| `AvlObject.CAvl.GetNext` | app/src/main/jni/badvpn/structure/CAvl_impl.h:781-799 | The entry at the next position, or null at the end. |
| `AvlObject.CAvl.GetPrev` | app/src/main/jni/badvpn/structure/CAvl_impl.h:801-819 | The entry at the previous position, or null at the start. |
| `AvlObject.CAvl.Count` | app/src/main/jni/badvpn/structure/CAvl_impl.h:837-840 | The length of the sequence. |
| `AvlObject.CAvl.IndexOf` | app/src/main/jni/badvpn/structure/CAvl_impl.h:842-860 | The position of the entry. |
| `AvlObject.CAvl.GetAt` | app/src/main/jni/badvpn/structure/CAvl_impl.h:862-887 | The entry at the position, or null beyond the end. |
| `AvlObject.CAvl.AssocSum` | app/src/main/jni/badvpn/structure/CAvl_impl.h:893-900 | The fold of all entries. |
| `AvlObject.CAvl.ExclusiveAssocPrefixSum` | app/src/main/jni/badvpn/structure/CAvl_impl.h:902-922 | The fold of the entries before the given one. |
| `AvlObject.CAvl.FindLastExclusiveAssocPrefixSumLesserEqual` | app/src/main/jni/badvpn/structure/CAvl_impl.h:924-945 | For prefix sums monotone under `sum_less`: the last entry whose exclusive prefix sum is not above the target, or null exactly when there is none. |
| `AvlObject.CAvl.HeightBounded` | app/src/main/jni/badvpn/structure/CAvl_impl.h:92-148 | The height of a valid tree is bounded by its number of entries through the Fibonacci numbers. |
| `Substring.BuildBacktrackTable` | app/src/main/jni/badvpn/misc/substring.h:6-21 | Entry i is the length of the longest proper border of the first i elements, for 1 <= i < len; entry 0 and what is beyond are not written; at most len fallbacks. |
| `Substring.FindSubstring` | app/src/main/jni/badvpn/misc/substring.h:23-43 | Finds the leftmost occurrence, or nothing exactly when there is none, whatever entry 0 of the table holds, with at most as many fallbacks as the text is long. |
| `Substring.BuildBacktrackTableReverse` | app/src/main/jni/badvpn/misc/substring.h:45-60 | The table of the reversed string. |
| `Substring.FindSubstringReverse` | app/src/main/jni/badvpn/misc/substring.h:62-82 | Finds the rightmost occurrence, or nothing exactly when there is none. |
| `Substring.FallBack` | app/src/main/jni/badvpn/misc/substring.h:13-15 | Falling back to the longest border misses no candidate that goes on with the next element. |
| `Substring.OccursReversed` | app/src/main/jni/badvpn/misc/substring.h:62-82 | Occurrences counted from the end are occurrences of the reverses. |
| `BProto.ScanIff` | app/src/main/jni/badvpn/generated/bproto_msgproto.h:541-681 | A buffer scans to a list of entries exactly when it is their encoding: reading and writing are inverses both ways. |
| `BProto.EntryBytes` | app/src/main/jni/badvpn/generated/bproto_msgproto.h:471-539 | An entry byte by byte: id and type, low byte first, the length of a data value in four bytes, the value. |
| `ByteOrder.ToLEAt` | app/src/main/jni/badvpn/generated/bproto_msgproto.h:471-539 | Byte i of an integer is its i-th digit to the base 256. |
| `BProto.AcceptsIff` | app/src/main/jni/badvpn/generated/bproto_msgproto.h:541-692 | The accepted buffers are exactly the encodings of legal messages. |
| `BProto.YouConnectMessage` | app/src/main/jni/badvpn/generated/bproto_msgproto.h:589-691 | What is legal for youconnect: known fields of the right types, at least one address, at most one key and one password. |
| `BProto.ScanSplit` | app/src/main/jni/badvpn/generated/bproto_msgproto.h:568-681 | Scanning in two pieces is scanning the whole. |
| `BProtoParser.Parser.Init` | app/src/main/jni/badvpn/generated/bproto_msgproto.h:541-692 | Accepts exactly the encodings of legal messages, and leaves windows from which each getter will return exactly its field's values. |
| `BProtoParser.Parser.ReadEntry` | app/src/main/jni/badvpn/generated/bproto_msgproto.h:568-643 | Finds the next entry's value and end, or fails exactly when it is cut short or of unknown type. |
| `BProtoParser.Parser.Record` | app/src/main/jni/badvpn/generated/bproto_msgproto.h:646-677 | Keeps, for every field, the window from its first entry to the end of its last. |
| `BProtoParser.Parser.Get` | app/src/main/jni/badvpn/generated/bproto_msgproto.h:705-769 | Returns the field's next value in buffer order, or nothing exactly when all have been returned; other fields are unaffected and no ASSERT fails. |
| `BProtoParser.Parser.GetUint` | app/src/main/jni/badvpn/generated/bproto_msgproto.h:857-921 | The same for an integer field. |
| `BProtoParser.Parser.GotEverything` | app/src/main/jni/badvpn/generated/bproto_msgproto.h:694-703 | True exactly when every field has been read to its end. |
| `BProtoParser.Parser.Reset` | app/src/main/jni/badvpn/generated/bproto_msgproto.h:771-774 | The getter starts over. |
| `BProtoParser.Parser.Forward` | app/src/main/jni/badvpn/generated/bproto_msgproto.h:776-779 | The getter is at its end. |
| `BProtoParser.GetterAt` | app/src/main/jni/badvpn/generated/bproto_msgproto.h:709-742 | The rest of a window always starts with a whole entry, which lies inside it. |
| `BProtoWriter.Writer.constructor` | app/src/main/jni/badvpn/generated/bproto_msgproto.h:452-459 | Nothing written. |
| `BProtoWriter.Writer.AddUint` | app/src/main/jni/badvpn/generated/bproto_msgproto.h:521-539 | The output gains one entry with the value. |
| `BProtoWriter.Writer.AddData` | app/src/main/jni/badvpn/generated/bproto_msgproto.h:471-494 | The output gains one entry whose payload is the memory at the returned place. |
| `BProtoWriter.Writer.Fill` | app/src/main/jni/badvpn/generated/bproto_msgproto.h:489-493 | Filling a returned place changes that entry's value and nothing else. |
| `BProtoWriter.Writer.Finish` | app/src/main/jni/badvpn/generated/bproto_msgproto.h:461-469 | What was written is accepted and scans to the entries written. |
| `BProtoWriter.Exchange` | app/src/main/jni/badvpn/generated/bproto_msgproto.h:452-931 | What a writer's user wrote is what a parser's user reads, field by field and in order. |
| `AddrProto.Write` | app/src/main/jni/badvpn/protocol/addr.h:121-151 | Writes exactly `addr_size` bytes, the message of the address; what is behind them is kept. |
| `AddrProto.AddressBytes` | app/src/main/jni/badvpn/protocol/addr.h:121-151 | Where the type, the port and the ip are in those bytes. |
| `AddrProto.Read` | app/src/main/jni/badvpn/protocol/addr.h:153-205 | Reads the address that an accepted message means, with its parts of the right sizes, or fails. |
| `AddrProto.MessageMeans` | app/src/main/jni/badvpn/protocol/addr.h:121-205 | The message of an address means that address. |
| `AddrProto.RoundTrip` | app/src/main/jni/badvpn/protocol/addr.h:121-205 | Reading what was written gives the address back. |
| `Pending.BPendingGroup.Set` | app/src/main/jni/badvpn/base/BPending.c:137-154 | The job is on top of the list, in it once; all others keep their order behind it. |
| `Pending.BPendingGroup.Unset` | app/src/main/jni/badvpn/base/BPending.c:156-171 | The job is not in the list; the others keep their order. |
| `Pending.BPendingGroup.ExecuteJob` | app/src/main/jni/badvpn/base/BPending.c:66-88 | Takes the job on top. |
| `Pending.SetAndExecute` | app/src/main/jni/badvpn/base/BPending.c:66-154 | The job set last runs first, and leaves the others as they were. |
| `Pending.WithoutAt` | app/src/main/jni/badvpn/base/BPending.c:137-171 | Taking out the one occurrence of a job is filtering it out. |
| `PacketPassInterface.StepKeepsInv` | app/src/main/jni/badvpn/flow/PacketPassInterface.h:149-227 | Every step keeps: the operation job is pending exactly in OPERATION_PENDING, the done job exactly in DONE_PENDING, the cancel job only in BUSY with a cancel requested; no job is listed twice. |
| `PacketPassInterface.RunKeepsInv` | app/src/main/jni/badvpn/flow/PacketPassInterface.h:149-227 | So does every run, whatever else uses the job list. |
| `PacketPassInterface.OncePerSend` | app/src/main/jni/badvpn/flow/PacketPassInterface.h:149-227 | Until the next Send there is at most one operation call, of the packet sent, and at most one done call, which comes last; it has come exactly when the interface is idle again; cancel calls and done without operation only after a RequestCancel. |
| `PacketPassInterface.SendReachesProvider` | app/src/main/jni/badvpn/flow/PacketPassInterface.h:181-198 | After a Send that is neither cancelled nor answered, the operation call is made, once, as soon as its job has run. |
| `PacketPassInterface.CancelAnswered` | app/src/main/jni/badvpn/flow/PacketPassInterface.h:200-227 | A cancel request before the operation call takes it back, and the done call comes as soon as its job has run; after it, the provider gets exactly one cancel call, as soon as that job has run. |
| `PacketPassInterface.CancelSettles` | app/src/main/jni/badvpn/flow/PacketPassInterface.h:200-227 | When no job is left, that is all: `Finished` alone in the one case, the operation and one cancel in the other. |
| `PacketPassInterface.DoneAnswered` | app/src/main/jni/badvpn/flow/PacketPassInterface.h:149-162 | After the provider's Done the done call comes as soon as its job has run, and a cancel call that has not been made is not made any more. |
| `PacketPassInterfaceObject.PacketPass.constructor` | app/src/main/jni/badvpn/flow/PacketPassInterface.h:106-128 | An idle interface. |
| `PacketPassInterfaceObject.PacketPass.SenderSend` | app/src/main/jni/badvpn/flow/PacketPassInterface.h:181-198 | The object follows the abstract step. |
| `PacketPassInterfaceObject.PacketPass.SenderRequestCancel` | app/src/main/jni/badvpn/flow/PacketPassInterface.h:200-227 | The object follows the abstract step, which `PacketPassInterface.CancelAnswered` is about. |
| `PacketPassInterfaceObject.PacketPass.ProviderDone` | app/src/main/jni/badvpn/flow/PacketPassInterface.h:149-162 | The same. |
| `PacketPassInterfaceObject.PacketPass.ExecuteJob` | app/src/main/jni/badvpn/flow/PacketPassInterface.c:32-68 | The same, with the call it ends in; the handlers' ASSERTs hold. |
| `PacketProto.FramedFirst` | app/src/main/jni/badvpn/flow/PacketProtoDecoder.c:46-92 | Framed packets in front of a stream come out first, whatever follows. |
| `PacketProto.FrameBytes` | app/src/main/jni/badvpn/flow/PacketProtoEncoder.c:51-64 | A frame byte by byte: the length, low byte first, and the payload. |
| `PacketProto.StartsFine` | app/src/main/jni/badvpn/flow/PacketProtoDecoder.c:64-69 | No start of a well-formed stream looks like an error. |
| `PacketProto.Decoder.constructor` | app/src/main/jni/badvpn/flow/PacketProtoDecoder.c:130-166 | The buffer has room for one frame of the limited MTU, and the first receive fills it. |
| `PacketProto.Decoder.ProcessData` | app/src/main/jni/badvpn/flow/PacketProtoDecoder.c:46-105 | Passes on the packet at the front of the buffer, asks for more, or drops everything after an error. |
| `PacketProto.Decoder.InputDone` | app/src/main/jni/badvpn/flow/PacketProtoDecoder.c:107-119 | Bytes received join those held; an error is reported only when the stream has one. |
| `PacketProto.Decoder.OutputDone` | app/src/main/jni/badvpn/flow/PacketProtoDecoder.c:121-128 | The same for the bytes still held. |
| `PacketProto.Decoder.Reset` | app/src/main/jni/badvpn/flow/PacketProtoDecoder.c:176-182 | Forgets what is held and leaves the write position, the receive under way and the submitted packet as they are. |
| `PacketProto.Decoder.ReceivesSomething` | app/src/main/jni/badvpn/flow/PacketProtoDecoder.c:98 | Every receive asks for at least one byte. |
| `PacketProto.Decoder.EmittedArePackets` | app/src/main/jni/badvpn/flow/PacketProtoDecoder.c:46-128 | However the stream was cut, the packets passed on are those the reference finds in the bytes received. |
| `PacketProto.DecodeStream` | app/src/main/jni/badvpn/flow/PacketProtoDecoder.c:46-128 | Any packets within the MTU, framed and cut in any way, come out exactly and in order. |
| `PacketProto.Encoder.OutputRecv` | app/src/main/jni/badvpn/flow/PacketProtoEncoder.c:40-49 | The payload is received behind room for the header. |
| `PacketProto.Encoder.InputDone` | app/src/main/jni/badvpn/flow/PacketProtoEncoder.c:51-64 | The packet passed on is the frame of the payload received. |
| `LineBuffer.PiecesUnique` | app/src/main/jni/badvpn/flow/LineBuffer.c:39-96 | Complete pieces in front of a stream are its greedy segmentation, the only one. |
| `LineBuffer.PieceIsComplete` | app/src/main/jni/badvpn/flow/LineBuffer.c:52-59 | Each piece ends at its only newline, or has the full size and no newline before its end. |
| `LineBuffer.LineSplitter.InputDone` | app/src/main/jni/badvpn/flow/LineBuffer.c:39-68 | Searching only the new bytes is enough; nothing received is lost or reordered. |
| `LineBuffer.LineSplitter.OutputDone` | app/src/main/jni/badvpn/flow/LineBuffer.c:70-96 | The same after a line is done. |
| `LineBuffer.LineSplitter.OutputsArePieces` | app/src/main/jni/badvpn/flow/LineBuffer.c:39-96 | The outputs are the greedy segmentation of the bytes received, and the buffer holds the rest. |
| `LineBuffer.SplitStream` | app/src/main/jni/badvpn/flow/LineBuffer.c:39-96 | For any stream, cut in any way. |
| `RouteBuffer.Routing.AddBuffer` | app/src/main/jni/badvpn/flow/RouteBuffer.c:119-152 | A new buffer has all its packets free. |
| `RouteBuffer.Routing.AddSource` | app/src/main/jni/badvpn/flow/RouteBuffer.c:174-192 | A new source holds one packet. |
| `RouteBuffer.Routing.Write` | app/src/main/jni/badvpn/flow/RouteBuffer.c:202-207 | Writing through the source's pointer changes no queued packet. |
| `RouteBuffer.Routing.Route` | app/src/main/jni/badvpn/flow/RouteBuffer.c:209-256 | Fails exactly when the buffer has no free packet, changing nothing; otherwise the packet joins the queue as it is now, a free one becomes the source's with the given part copied. Every packet stays in exactly one place and every buffer keeps its number. |
| `RouteBuffer.Routing.OutputDone` | app/src/main/jni/badvpn/flow/RouteBuffer.c:105-117 | The packet at the front is free again and the next one is sent; packets are sent in routing order, with the bytes and length they had when routed. |
| `RouteBuffer.Routing.ReleaseUsedPacket` | app/src/main/jni/badvpn/flow/RouteBuffer.c:80-92 | Moves one packet between the lists of its buffer. |
| `RouteBuffer.DeliversRouted` | app/src/main/jni/badvpn/flow/RouteBuffer.c:219-248 | A packet routed is sent at once exactly when the queue was empty. |
| `RouteBuffer.DeliversDone` | app/src/main/jni/badvpn/flow/RouteBuffer.c:105-117 | After a packet is done the next one sent is the next one routed. |
| `ParseNumber.AboveIsGreater` | app/src/main/jni/badvpn/misc/parse_number.h:138-141 | For digit strings of equal length byte order is numeric order. |
| `ParseNumber.HexDigitIff` | app/src/main/jni/badvpn/misc/parse_number.h:84-105 | Which characters are which hexadecimal digits; a letter counts the same in either case. |
| `ParseNumber.DecimalDigitIff` | app/src/main/jni/badvpn/misc/parse_number.h:67-82 | Which characters are which decimal digits. |
| `ParseNumber.LongFits` | app/src/main/jni/badvpn/misc/parse_number.h:138-141 | The overflow test is exact for digit strings of 20 digits or more without a leading zero. |
| `ParseNumber.ParseNoOverflow` | app/src/main/jni/badvpn/misc/parse_number.h:107-124 | No sum or product wraps. |
| `ParseNumber.ParseUnsignedInteger` | app/src/main/jni/badvpn/misc/parse_number.h:126-147 | Succeeds exactly for a nonempty string of digits whose value fits, and returns the value. |
| `ParseNumber.ParseUnsignedHexInteger` | app/src/main/jni/badvpn/misc/parse_number.h:149-179 | The same for hexadecimal digits. |
| `ParseNumber.ParseSignmagInteger` | app/src/main/jni/badvpn/misc/parse_number.h:181-196 | The same behind an optional sign. |
| `ParseNumber.ComputeDecimalReprSize` | app/src/main/jni/badvpn/misc/parse_number.h:198-208 | The length of the decimal representation. |
| `ParseNumber.ReprMinimal` | app/src/main/jni/badvpn/misc/parse_number.h:198-221 | It is the shortest digit string with the value. |
| `ParseNumber.GenerateDecimalRepr` | app/src/main/jni/badvpn/misc/parse_number.h:210-221 | Writes the representation from the back and nothing else. |
| `ParseNumber.ReprValue` | app/src/main/jni/badvpn/misc/parse_number.h:210-221 | The representation has the value. |
| `ParseNumber.ReprDigits` | app/src/main/jni/badvpn/misc/parse_number.h:210-221 | Its digits, the most significant first. |
| `ParseNumber.RoundTrip` | app/src/main/jni/badvpn/misc/parse_number.h:107-221 | Parsing what was printed gives the number back. |
| `Ipv6.ParseText` | app/src/main/jni/badvpn/misc/ipaddr6.h:71-205 | The text of an address is parsed back to it, whichever run of two or more zero blocks is collapsed. |
| `Ipv6Dotted.DottedIff` | app/src/main/jni/badvpn/misc/ipaddr6.h:162-196 | A dotted ending is read exactly when it is four numbers up to 255, without leading zeros, with dots between them, and then as those. |
| `Ipv6Dotted.ParseDottedText` | app/src/main/jni/badvpn/misc/ipaddr6.h:71-205 | An address whose ending is written so is parsed back to it, whichever run of zeros before the ending is collapsed, if any. |
| `Ipv6Grammar.ParseIff` | app/src/main/jni/badvpn/misc/ipaddr6.h:71-205 | The texts that stand for an address, and which: eight fields of hexadecimal digits whose values fit 16 bits, or fewer with one double colon for the zeros left out, the last two perhaps as four decimal numbers. A double colon may stand for nothing, behind at most seven fields. |
| `Ipv6Grammar.FormIsRead` | app/src/main/jni/badvpn/misc/ipaddr6.h:71-205 | Every text of the grammar is read as it says. |
| `Ipv6Grammar.ParseMeans` | app/src/main/jni/badvpn/misc/ipaddr6.h:71-205 | Every text that is accepted is one of them. |
| `Ipv6.ReadColons` | app/src/main/jni/badvpn/misc/ipaddr6.h:80-124 | Blocks with colons between them are read as those blocks. |
| `Ipv6.ReadHex` | app/src/main/jni/badvpn/misc/ipaddr6.h:112-123 | The hexadecimal digits of a block are read as that block, without overflow. |
| `Ipv6Address.ParseAddr` | app/src/main/jni/badvpn/misc/ipaddr6.h:71-205 | Accepts exactly the texts of the grammar, and then all 16 bytes are those of the address that the text stands for, whatever they were; every index is in range. |
| `Ipv6Address.ReadBlocks` | app/src/main/jni/badvpn/misc/ipaddr6.h:71-124 | The first loop reads as the reference does. |
| `Ipv6Address.ReadDotted` | app/src/main/jni/badvpn/misc/ipaddr6.h:162-196 | Accepts exactly four numbers up to 255, without leading zeros, with dots between them, and returns those. |
| `Ipv6Address.ExpandInPlace` | app/src/main/jni/badvpn/misc/ipaddr6.h:135-148 | The blocks behind the double colon move to the end and zeros fill the gap. |
| `Ipv6Address.FindLongestRun` | app/src/main/jni/badvpn/misc/ipaddr6.h:330-346 | Finds the leftmost of the longest runs of zero blocks. |
| `Ipv6Form.HexDigits` | app/src/main/jni/badvpn/misc/ipaddr6.h:351-368 | The digits of a field, the most significant first, in lower case; a zero comes first only for zero. |
| `Ipv6Form.TextForm` | app/src/main/jni/badvpn/misc/ipaddr6.h:328-372 | The text has no upper case and no padding, and a double colon exactly where two zero blocks meet. |
| `Ipv6Address.PrintAddr` | app/src/main/jni/badvpn/misc/ipaddr6.h:328-372 | Prints the text that collapses that run when it has at least two blocks: in lower case, no field padded, and with a double colon exactly when two blocks next to each other are zero. |
| `Ipv6Address.TextFits` | app/src/main/jni/badvpn/misc/ipaddr6.h:66 | The text with a prefix fits `IPADDR6_PRINT_MAX`. |
| `Ipv6Address.RoundTrip` | app/src/main/jni/badvpn/misc/ipaddr6.h:71-372 | Parsing the printed text of any 16 bytes gives them back. |
| `Ipv6Address.ParsePrefix` | app/src/main/jni/badvpn/misc/ipaddr6.h:207-219 | Accepts exactly the decimal numbers up to 128. |
| `Ipv6Address.ParseIfaddr` | app/src/main/jni/badvpn/misc/ipaddr6.h:221-230 | Splits at the first slash and accepts exactly an address and a prefix. |
| `Ipv6Address.PrintIfaddr` | app/src/main/jni/badvpn/misc/ipaddr6.h:374-381 | Prints both, within the buffer. |
| `Ipv6Address.IfaddrRoundTrip` | app/src/main/jni/badvpn/misc/ipaddr6.h:221-381 | Address and prefix are read back. |
| `Socks.HearMore` | app/src/main/jni/badvpn/socksclient/BSocksClient.c:248-264 | Cutting the server's bytes anywhere makes no difference. |
| `Socks.UpIffSuccessful` | app/src/main/jni/badvpn/socksclient/BSocksClient.c:199-558 | The connection comes up exactly on a successful exchange, with the bind address of its reply, after sending the greeting, the password message if called for, and the request, and nothing else. |
| `SocksStandard.UpIffRfcSuccessful` | app/src/main/jni/badvpn/socksclient/BSocksClient.c:199-558 | It comes up exactly on an exchange that section 6 of RFC 1928 calls successful and whose bound address is no domain name, for a destination that is one of the two address types. |
| `SocksStandard.DomainReplyFails` | app/src/main/jni/badvpn/socksclient/BSocksClient.c:345-360 | A successful reply with a domain name ends in an error instead. |
| `SocksStandard.DomainExample` | app/src/main/jni/badvpn/socksclient/BSocksClient.c:345-360 | A server that answers so, byte by byte. |
| `SocksStandard.ServerReads` | app/src/main/jni/badvpn/socksclient/BSocksClient.c:199-558 | A reader of the client's bytes, by position and with the numbers of sections 3 and 4 of RFC 1928 and section 2 of RFC 1929, finds all methods offered, the first login where the server asked for one, CONNECT or UDP ASSOCIATE as asked for, and exactly the destination. |
| `SocksClient.PacketStreamSender.Send` | app/src/main/jni/badvpn/flow/PacketStreamSender.c:50-63 | A packet is offered to the stream, or done at once if empty. |
| `SocksClient.PacketStreamSender.OutputDone` | app/src/main/jni/badvpn/flow/PacketStreamSender.c:65-77 | The stream gets the bytes of the packets in order; the packet is done exactly when all of it is taken. |
| `SocksClient.BSocksClient.ConnectorHandler` | app/src/main/jni/badvpn/socksclient/BSocksClient.c:149-183 | Reports the connection, or an error when connecting or `BConnection_Init` fails. |
| `SocksClient.BSocksClient.ConnectionHandler` | app/src/main/jni/badvpn/socksclient/BSocksClient.c:185-197 | Reports a closed connection only when up, an error otherwise. |
| `SocksClient.BSocksClient.ContinueJobHandler` | app/src/main/jni/badvpn/socksclient/BSocksClient.c:199-246 | Sends the greeting, or fails exactly for 0 or more than 255 methods. |
| `SocksClient.BSocksClient.SendProgress` | app/src/main/jni/badvpn/socksclient/BSocksClient.c:440-505 | Any pattern of partial sends; when the packet is out, the next receive fits the buffer. |
| `SocksClient.BSocksClient.RecvHandlerDone` | app/src/main/jni/badvpn/socksclient/BSocksClient.c:248-438 | Whatever the chunk, the client comes up or fails exactly as the reference does on all bytes received. |
| `SocksClient.BSocksClient.AuthFinished` | app/src/main/jni/badvpn/socksclient/BSocksClient.c:507-558 | Sends the request, or fails for another address type; `SocksStandard.ServerReads` says what a server reads in it. |
| `SocksClient.BSocksClient.SetDestAddr` | app/src/main/jni/badvpn/socksclient/BSocksClient.c:662-668 | Allowed before the greeting only. |
| `SocksClient.BSocksClient.UpMeansSuccessful` | app/src/main/jni/badvpn/socksclient/BSocksClient.c:199-558 | A client that is up has read exactly a successful exchange, knows the bind address at its place in it, and from what the stream has taken a server reads exactly what the user asked for. |
| `SocksClient.RunExchange` | app/src/main/jni/badvpn/socksclient/BSocksClient.c:199-558 | For any stream of server bytes, cut in any way, and any pattern of partial sends: the client comes up exactly when some start of the stream is a successful exchange, and then the server reads from it exactly what the user asked for; otherwise it has failed or waits for more. |
| `SPProto.AlignUpIsLeast` | app/src/main/jni/badvpn/misc/balign.h:43-57 | Aligning up gives the least multiple not below, where it does not overflow. |
| `SPProto.AlignDownIsGreatest` | app/src/main/jni/badvpn/misc/balign.h:62-65 | Aligning down gives the greatest multiple not above. |
| `SPProto.DivideUpBlocks` | app/src/main/jni/badvpn/misc/balign.h:70-74 | The quotient rounded up counts the blocks that aligning up covers. |
| `SPProto.PayloadExact` | app/src/main/jni/badvpn/protocol/spproto.h:152-163 | No wrap-around or conversion shows in the payload size. |
| `SPProto.CarrierExact` | app/src/main/jni/badvpn/protocol/spproto.h:173-193 | Nor in the carrier size, which is -1 exactly past the limit. |
| `SPProto.Adjoint` | app/src/main/jni/badvpn/protocol/spproto.h:152-193 | A payload fits a carrier exactly when the carrier size it needs does, wherever that is defined. |

## Left out

- BProto.Kind.Tag: `bproto/BProto.h` is not part of this model. The header is taken to be a 16-bit id and a 16-bit type, the data header a 32-bit length, all little-endian and packed, and the types the numbers 1 to 6; the proofs use only that the numbers differ.
- BProtoParser.Parser.Init: sizes are unbounded integers; the `int` members of the generated parsers limit messages to 2^31 - 1 bytes.
- BProtoWriter.Writer.AddData: the caller writes through the returned pointer; here that is `Fill`, for one entry at a time.
- FairQueueTheorems.RebaseInvisible: states the order for runs whose sends after a rebase are settled; without that it is false, as `FairQueueRestart.RebaseShows` says. When the two states are no longer the same but for a rebase, nothing is said about the order in which they dispatch, except for two clamped flows.
- FairQueueObject.PacketPassFairQueue: the queued tree is an ordered sequence of flows here, not the tree of `structure/CAvl_impl.h`; cancelling is not modelled, and what setting the busy handler asks of the caller is not either.
- AvlObject.CAvl.Insert: keys are integers and comparing is comparing them, which is no restriction for the entries of one memory (`AvlTree.KeysSuffice`), but they do not change; counts are unbounded, so `CAVL_PARAM_VALUE_COUNT_MAX` does not appear.
- AvlObject.CAvl.Remove: the position of the removed entry is a ghost argument.
- PacketPassInterface.OncePerSend: handlers run to their end before the next step, as the code's tail calls have it.
- PacketProto.Decoder.InputDone: after an error the decoder drops what it holds, so what follows depends on how the stream was cut; nothing is claimed beyond the error.
- SocksClient.BSocksClient.SendProgress: memory is never short, here and wherever else the buffer is reserved.
- SocksClient.BSocksClient: a packet handed to the sender is a copy of the buffer, which the invariant keeps equal to it.
- RouteBuffer.Routing: packets and buffers are not freed.
- ParseNumber.ParseUnsignedInteger: characters are compared by their numbers, as for the ASCII digits.
- `structure/BAVL.h` has the same algorithm as `structure/CAvl_impl.h` with plain pointers.
- Sockets, timers, the reactor, the TAP device, logging, memory that runs out, and process helpers are input and output.
- ChunkBuffer2, CHash, SAvl, SLinkedList and LinkedList1 are not part of this model; lists are sequences.
- DebugObject, DebugCounter and DebugError: their assertions are preconditions or proved.
- IPv6 masks, the priority and FIFO queues, connectors, notifiers, copiers, the growing arrays and insertion sort are not modelled.
- UTF-8 and UTF-16 conversion and the UDP checksum.
- Cryptography, hashes and OTPs, of which only sizes enter the packet size arithmetic.
