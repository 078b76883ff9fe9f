# Game-server framework: models of its library core

The framework's Lua bindings sit on libraries in C. These modules model the parts of them that compute, and prove what they promise. Where a comment speaks of the C code it means the file in the table below.

| part | source | modules |
|---|---|---|
| ENet's packet compressor: an adaptive order-2 model under a carry-less range coder | lua-enet/compress.c | RangeArithmetic, FrequencyModel, PpmModel, PpmHistory, ContextTree, PoolLayout, ContextPool, RangeCoder, PacketCoder, PacketDecoder |
| KCP, a retransmission protocol over datagrams | lua-kcp-fec/ikcp.c | KcpWire, KcpSpec, KcpProtocol, KcpResend, KcpSystem, KcpRuns, KcpLiveness, Kcp |
| ENet's reliable channel and its peers | lua-enet/peer.c, protocol.c | EnetReliable, EnetRuns, EnetLiveness, EnetChannel, EnetHost |
| The red-black tree and the consistent-hashing ring on it | lua-conhash | RbShape, RbLinks, RbDelete, RbTree, Conhash |
| Multiple-precision integers and decimal digits | lua-json/dtoa.c | Bigint, BigPowers, Decimal |
| The sensitive-word filter | lua-crab/lua-crab.c | CrabTable, CrabWords, CrabFilter |
| Q31.32 fixed point | lua-fixedpoint64/fp64.c | FixedPoint |
| The cells a line touches | lua-cutils/lua-cutils.c | Supercover |
| libco's timing wheel and event loop | libco/co_routine.cpp | TimerLists, TimerWheel |
| MessagePack | lua-cmsgpack/lua_cmsgpack.c | MessagePack, MessageCodec |
| The space of interest of watchers and markers | lua-aoi/aoi.c | AoiMap, AoiSpace |

Where the C code changes things in place, a class or a method with loops does so here, proved against functions on values (`ContextPool` against `PpmModel`, `Kcp` against `KcpSpec`, `ReliableChannel` against `EnetReliable`, `RbTree` against `RbShape`), and the main results are about those.

Some facts that the code shows and its names or comments do not:

- The division `Quorem` needs a divisor whose first word is not all ones: one more wraps round to zero, and the code would divide by it.
- `MultAdd` loses what it adds when the number has no words, as a division can leave it.
- A message of 256 pieces or more is refused by `Send`, but one of more pieces than the receive window of the other side is accepted and blocks the stream for ever.
- A fragment of a packet that looks like the last one received is answered with an error, where a whole command is not.
- A server whose name leaves no room for the numbers of its replicas has one place on the ring.
- A reliable command a lap of 65536 numbers late can be taken for another; `TooOldIsMistaken` says exactly when. A later lap is no different: the condition looks only at the cyclic distance.
- An object with the id ~0, which marks free slots and which the Lua binding lets through as -1, is overwritten by the next one with its main position; `InvalidLost` is an example.
- The new root keeps its deleted former root as its parent when that had one child; `top` is that node.
- The square root of numbers from 2^62 on can be one unit too small; `Missed` says exactly when.

`dafny verify dfyconfig.toml` checks the whole project.

## Model

| member | source | states |
|---|---|---|
| RangeArithmetic.NarrowInside | framework/lib/lua-enet/compress.c:121-125 | an event whose slice is within its total, coded in an interval of at least 2^16 words, leaves a non-empty interval inside the old one; nothing wraps |
| RangeArithmetic.NarrowDecodes | framework/lib/lua-enet/compress.c:352-357 | a code word of the interval lies in the narrowed one if and only if the quotient that READ computes from it falls in the slice of the event |
| RangeArithmetic.ShiftSound | framework/lib/lua-enet/compress.c:126-136 | each turn of the settling loop, the forced underflow cut included, leaves a valid interval and gains range, so the loop ends |
| RangeArithmetic.EmittedWindow | framework/lib/lua-enet/compress.c:121-146 | for every sequence of valid events, the first four bytes that the encoder and its flush emit, zeros appended, are a code word of the interval the events started from |
| RangeArithmetic.ReadsEvent | framework/lib/lua-enet/compress.c:352-371 | in front of an event, the quotient of the decoder falls in the slice of that event, and after as many bytes as the encoder wrote for it, what remains is what the encoder emits for the rest |
| RangeArithmetic.ReadsEnd | framework/lib/lua-enet/compress.c:139-146 | past the last event the flush makes the decoder read code 0, whatever the total: an escape |
| RangeArithmetic.EscapesAtEnd | framework/lib/lua-enet/compress.c:139-146 | following an escape at the end of the stream leaves the decoder at the end of the stream again, so every context down to the root escapes |
| FrequencyModel.LearnBounded | framework/lib/lua-enet/compress.c:90-112 | learning a symbol, halving included, leaves room for the next increment in every 8-bit count of a context and keeps its 16-bit total at most 2^16 - 2^8; no symbol but the learned one appears and none disappears |
| FrequencyModel.SliceValid | framework/lib/lua-enet/compress.c:159-202 | the slice of a symbol is a valid event above the escape slice, within the total of the context |
| PpmModel.LearnedSound | framework/lib/lua-enet/compress.c:286-330 | on frequency tables: learning one byte in all contexts of the chain keeps all tables sound, adds at most one symbol per context, and links each new symbol to a shorter one that exists |
| PpmModel.DecoderOrder | framework/lib/lua-enet/compress.c:529-615 | the decoder counts a byte first where it found it and in the longer contexts afterwards; the tables come out as those of the encoder, which goes from long to short |
| PpmModel.SymbolEventsValid | framework/lib/lua-enet/compress.c:286-330 | for every sound set of tables and every byte, all the events that the byte is coded by are valid coder events |
| PpmHistory.HoldsSubstrings | framework/lib/lua-enet/compress.c:148-157 | after every input the contexts and symbols in the pool are exactly the substrings of at most three bytes since the pool was emptied, which is as soon as there are 4094 of them, and the context is that of the last two of these bytes |
| PpmHistory.HoldsAll | framework/lib/lua-enet/compress.c:286-337 | as long as an input has fewer than 4094 different substrings of at most three bytes, the model holds all of them |
| PpmHistory.TablesAreCounts | framework/lib/lua-enet/compress.c:286-330 | a context that was never rescaled has counted a symbol twice, or thrice in the root, for each occurrence behind it at which no longer context had seen that symbol, and five escapes for each of its symbols |
| PpmHistory.EventsOfByte | framework/lib/lua-enet/compress.c:286-337 | a further byte is coded by the events of the state that the bytes before it lead to |
| PpmHistory.EventsInform | framework/lib/lua-enet/compress.c:300-311 | no event is coded whose slice is the whole total |
| ContextTree.WeightIsBelow | framework/lib/lua-enet/compress.c:165-202 | in a tree that holds a table of counts, the sum the walk takes of `under` and counts is the number of units below the symbol |
| ContextTree.InsertHolds | framework/lib/lua-enet/compress.c:165-202 | counting a symbol on the way down, or attaching it, gives a tree that holds the increased table, every `under` being its own count and that of its left subtree |
| ContextTree.HalveHolds | framework/lib/lua-enet/compress.c:90-105 | the recursive rescale gives a tree that holds the halved table |
| ContextPool.ContextPool.Reset | framework/lib/lua-enet/compress.c:82-87 | the pool starts over with the empty root context alone |
| ContextPool.ContextPool.Encode | framework/lib/lua-enet/compress.c:159-202 | in the array of cells: looks a byte up or creates it, returns exactly its units below and its count, and leaves the cells of all other contexts, their totals and their parent links as the tables say; the 16-bit offsets never overflow |
| ContextPool.ContextPool.Walk | framework/lib/lua-enet/compress.c:171-201 | the descent of one tree in place, against the tree it stands for |
| ContextPool.ContextPool.Decode | framework/lib/lua-enet/compress.c:373-448 | for every code in the slice of a byte, the descent by code finds that byte, its units below and its count, and creates it at the root where the tree does not hold it |
| ContextPool.ContextPool.RescaleContext | framework/lib/lua-enet/compress.c:107-112 | halving a context in place halves its table and recomputes its total, and changes no other context |
| RangeCoder.RangeEncoder.Encode | framework/lib/lua-enet/compress.c:121-138 | emits exactly the bytes that the event settles, and fails exactly when they do not fit |
| RangeCoder.RangeDecoder.Decode | framework/lib/lua-enet/compress.c:354-371 | follows the encoder through an event to the same interval, reading as many bytes as were written |
| PacketCoder.EncodeContext | framework/lib/lua-enet/compress.c:293-315 | one context: the slice of the byte if it is there, else an escape if there is anything, and the byte counted, with the rescale when it is due |
| PacketCoder.EncodeChain | framework/lib/lua-enet/compress.c:286-330 | one byte: the contexts from the longest on, each new symbol linked to that of the next shorter one |
| PacketCoder.Compress | framework/lib/lua-enet/compress.c:246-333 | returns the length of the compressed form of the concatenated buffers and puts it in the output, or 0 exactly when that form does not fit or there is nothing; resets of the symbol pool included |
| PacketDecoder.DecodeContext | framework/lib/lua-enet/compress.c:529-568 | on a stream that the encoder made: finds the symbol if the context holds it, steps over the escape if not, and otherwise leaves the pool alone |
| PacketDecoder.PatchChain | framework/lib/lua-enet/compress.c:598-615 | the patch loop makes the longer contexts learn the byte and sets the links |
| PacketDecoder.Decompress | framework/lib/lua-enet/compress.c:498-627 | given the compressed form of any packet, restores exactly that packet if the output has room for it, and returns 0 if not |
| PacketDecoder.RoundTrip | framework/lib/lua-enet/compress.c:246-627 | a packet that is compressed into a buffer with room and decompressed comes back unchanged |
| PacketDecoder.CompressedInjective | framework/lib/lua-enet/compress.c:246-333 | no two packets have the same compressed form |
| KcpWire.HeaderInverse | framework/lib/lua-kcp-fec/ikcp.c:47-120 | decoding the 24 bytes of an encoded header gives the header back, whatever follows |
| KcpWire.HeaderLayout | framework/lib/lua-kcp-fec/ikcp.c:47-120 | where each field of a header is, least significant byte first |
| KcpWire.TimeDiffExact | framework/lib/lua-kcp-fec/ikcp.c:135-138 | the signed 32-bit difference is the true difference while that is within 2^31 |
| KcpProtocol.JoinSplit | framework/lib/lua-kcp-fec/ikcp.c:467-535 | the pieces that a message is cut into, put together again, are the message |
| KcpProtocol.ParseDataKeeps | framework/lib/lua-kcp-fec/ikcp.c:676-736 | a genuine data segment, new, old or repeated, keeps the receive buffer strictly sorted inside its window and the receive queue the next stretch of the stream |
| KcpProtocol.InputSender | framework/lib/lua-kcp-fec/ikcp.c:742-880 | a cumulative or single acknowledgement removes nothing from the send buffer that the receiver does not have |
| KcpProtocol.FlushSegments | framework/lib/lua-kcp-fec/ikcp.c:911-1116 | a flush numbers pieces in order, sends only pieces of the stream under their own numbers, and acknowledges only what has arrived |
| KcpResend.FlushSendsExactly | framework/lib/lua-kcp-fec/ikcp.c:1025-1084 | a flush sends a numbered piece if and only if it numbers it now, has never sent it, its resend time is not after the clock, or enough later pieces were acknowledged |
| KcpResend.DueAgain | framework/lib/lua-kcp-fec/ikcp.c:1033-1058 | a piece that was sent times out again exactly when its new timeout is over |
| KcpResend.NumbersMany | framework/lib/lua-kcp-fec/ikcp.c:1001-1023 | a flush numbers as many pieces as the window takes beyond what is not acknowledged |
| KcpResend.FlushAnswersExactly | framework/lib/lua-kcp-fec/ikcp.c:930-942 | a flush acknowledges exactly the arrivals since the last one, with their times |
| KcpResend.ArrivalAcknowledged | framework/lib/lua-kcp-fec/ikcp.c:806-838 | a piece that arrives is acknowledged if and only if it is below the end of the window and at most 2^31 numbers old |
| KcpResend.AcknowledgedExactly | framework/lib/lua-kcp-fec/ikcp.c:558-605 | an arriving segment takes exactly the pieces before its una, and the one it acknowledges, out of the send buffer |
| KcpResend.SkippedExactly | framework/lib/lua-kcp-fec/ikcp.c:607-624 | the largest acknowledged number of a datagram counts once for every earlier piece in flight and for no other |
| KcpSystem.GroupFacts | framework/lib/lua-kcp-fec/ikcp.c:940-1010 | packing segments into datagrams loses, repeats and reorders none, and no datagram exceeds the mtu |
| KcpSystem.GroupTight | framework/lib/lua-kcp-fec/ikcp.c:940-1010 | no segment that would have fitted begins a new datagram |
| KcpRuns.InOrderOnceWhole | framework/lib/lua-kcp-fec/ikcp.c:356-535 | after every run of two endpoints, with any loss, repetition, reordering and delay, what one side has taken out is a prefix of what the other was given: in order, each once, whole |
| KcpRuns.NeverLost | framework/lib/lua-kcp-fec/ikcp.c:558-880 | after every run, each number below snd_nxt is in the send buffer or with the receiver, both buffers are strictly sorted inside their windows, and every datagram on the way is understood |
| KcpRuns.NextReceivable | framework/lib/lua-kcp-fec/ikcp.c:356-461 | after every run, once all pieces of the next message have arrived, Recv with enough room returns it whole if and only if the receive window has room for its pieces |
| KcpRuns.SendExactly | framework/lib/lua-kcp-fec/ikcp.c:467-490 | a message is refused, with -2, if and only if it is longer than 255 full pieces |
| KcpRuns.RecvAnswers | framework/lib/lua-kcp-fec/ikcp.c:356-380 | what the codes of Recv tell: nothing there, not complete, too long for the room, or the length |
| KcpSystem.OversizedStuck | framework/lib/lua-kcp-fec/ikcp.c:439-461 | a message of more pieces than the receive window is never handed out, although Send accepts it |
| KcpRuns.QuietMeansDelivered | framework/lib/lua-kcp-fec/ikcp.c:356-535 | after every run that ends with nothing queued, in flight or waiting, every accepted message has been delivered |
| KcpLiveness.DeliveryExactly | framework/lib/lua-kcp-fec/ikcp.c:356-1116 | after every run, everything can still be delivered by flushes, arrivals and taking messages out if and only if no message left has more pieces than the window of the other side |
| KcpLiveness.CanBeDelivered | framework/lib/lua-kcp-fec/ikcp.c:356-1116 | such a continuation, whose flushes have any window that is not empty and a clock at which the next piece is due |
| Kcp.Kcp.Recv | framework/lib/lua-kcp-fec/ikcp.c:356-432 | refines the specified receive; the assertion that the message has the size announced never fails |
| Kcp.Kcp.Send | framework/lib/lua-kcp-fec/ikcp.c:467-535 | refines the specified send: the pieces counted down to zero, or -2 for 256 or more |
| Kcp.Kcp.ParseData | framework/lib/lua-kcp-fec/ikcp.c:676-736 | the walk from the back of the receive buffer and the moves to the queue, as specified |
| Kcp.Kcp.AckPush | framework/lib/lua-kcp-fec/ikcp.c:630-664 | appends to the acknowledgement array, in a larger block when it is full |
| Kcp.Kcp.UpdateAck | framework/lib/lua-kcp-fec/ikcp.c:541-556 | smooths the round-trip time and bounds the timeout |
| Kcp.Kcp.UpdateProbe | framework/lib/lua-kcp-fec/ikcp.c:948-972 | when the window of the other side is asked for again while it is empty |
| Kcp.ToldByLast | framework/lib/lua-kcp-fec/ikcp.c:742-880 | the last segment of a datagram tells the window of the other side, and any of them may ask for that of this one |
| Kcp.Kcp.Input | framework/lib/lua-kcp-fec/ikcp.c:742-880 | refines the specified input on arbitrary bytes, its error codes included, takes over the window that it tells, and opens the congestion window by at most one, after progress only |
| Kcp.Kcp.FlushData | framework/lib/lua-kcp-fec/ikcp.c:1025-1084 | transmits what is new, timed out or skipped, in place, into the shared datagram buffer, and tells whether anything timed out or was skipped |
| Kcp.Kcp.Flush | framework/lib/lua-kcp-fec/ikcp.c:911-1116 | refines the specified flush byte for byte: the datagrams output are the encodings of its groups, in order; the congestion window and its threshold afterwards |
| Kcp.Kcp.Update | framework/lib/lua-kcp-fec/ikcp.c:1122-1150 | flushes exactly when the time has come, and the next flush is then due within an interval |
| RbTree.RbTree.LeftRotate | framework/lib/lua-conhash/util_rbtree.c:329-358 | the pointer surgery is the rotation of the tree it stands for, at any place |
| RbTree.RbTree.RightRotate | framework/lib/lua-conhash/util_rbtree.c:361-390 | the mirror image |
| RbTree.RbTree.InsertFixup | framework/lib/lua-conhash/util_rbtree.c:87-143 | restores the colours after an insertion without changing the order of the nodes |
| RbTree.RbTree.Insert | framework/lib/lua-conhash/util_rbtree.c:49-85 | for every node not in the tree: the in-order sequence gains exactly that node in its place, and the tree is again sorted, with no red node below a red one, equal black heights, a black root and the right size |
| RbTree.RbTree.DeleteFixup | framework/lib/lua-conhash/util_rbtree.c:252-326 | restores the colours after a deletion without changing the order of the nodes |
| RbTree.RbTree.DeleteRoot | framework/lib/lua-conhash/util_rbtree.c:178-184 | a root with at most one child: its child becomes the root and keeps naming it as its parent |
| RbTree.RbTree.DeleteDouble | framework/lib/lua-conhash/util_rbtree.c:166-249 | a node with two children: its successor takes its place, also when it is its own child |
| RbTree.RbTree.Delete | framework/lib/lua-conhash/util_rbtree.c:146-249 | for every node of the tree: the in-order sequence loses exactly that node, and the tree is valid again |
| RbTree.RbTree.Search | framework/lib/lua-conhash/util_rbtree.c:393-407 | finds a node with the key if and only if there is one |
| RbTree.RbTree.Lookup | framework/lib/lua-conhash/util_rbtree.c:409-431 | the first node clockwise from the key; nothing if and only if the tree is empty |
| RbShape.ClockwiseMeans | framework/lib/lua-conhash/util_rbtree.c:409-431 | that node has the least key that is not smaller, or the least of all if all are smaller |
| RbDelete.MendedRedBlack | framework/lib/lua-conhash/util_rbtree.c:252-326 | the rotation that ends a deletion, the red nephew recoloured, gives a red-black tree |
| RbShape.InsertedBetween | framework/lib/lua-conhash/util_rbtree.c:49-85 | a leaf reached by going left and right as the keys say is where the new node belongs in order |
| Conhash.NamesApart | framework/lib/lua-conhash/conhash_inter.c:29-36 | names of replicas that fit their buffer are equal exactly for the same server and the same number |
| Conhash.NamesCut | framework/lib/lua-conhash/conhash_inter.c:29-36 | when nothing of the numbers fits, all replicas of a server have one name |
| Conhash.EveryReplicaPlaced | framework/lib/lua-conhash/conhash_inter.c:38-58 | with a hash that keeps the names apart, a new server gets as many places as it has replicas |
| Conhash.Ring.AddServer | framework/lib/lua-conhash/conhash.c:57-73 | adds the hashes of all replicas that are not taken, or fails with -1 for a server not set up or already in; the count is the size of the tree |
| Conhash.Ring.DelServer | framework/lib/lua-conhash/conhash.c:75-91 | takes back exactly the places of the server |
| Conhash.Ring.AddReplicas | framework/lib/lua-conhash/conhash_inter.c:38-60 | the replica loop inserts a fresh node for each hash that is free |
| Conhash.Ring.DelReplicas | framework/lib/lua-conhash/conhash_inter.c:62-86 | the replica loop deletes the nodes under its hashes that are its own |
| Conhash.Ring.Lookup | framework/lib/lua-conhash/conhash.c:93-111 | the server at the place that serves the hash of the object |
| Conhash.AddingMovesLittle | framework/lib/lua-conhash/conhash.c:57-73 | adding a server moves an object only to that server |
| Conhash.DeletingMovesLittle | framework/lib/lua-conhash/conhash.c:75-91 | deleting a server moves only the objects that were on it |
| Conhash.AddThenDelete | framework/lib/lua-conhash/conhash_inter.c:38-86 | adding a server and deleting it restores the ring, whatever hashes collide |
| Conhash.DeletedIsGone | framework/lib/lua-conhash/conhash_inter.c:62-86 | after a deletion no place belongs to the server |
| EnetChannel.FragmentsTile | framework/lib/lua-enet/peer.c:148-197 | the fragments of a packet, put one after the other, are the packet |
| EnetChannel.ReliableSender.Send | framework/lib/lua-enet/peer.c:107-222 | queues the packet whole or in fragments, numbered on from the last, or nothing and -1 when it is too large |
| EnetRuns.WindowExact | framework/lib/lua-enet/peer.c:852-860 | the window check accepts a 16-bit number if and only if its cyclic distance is below that to the end of the seventh window |
| EnetRuns.SeekMeans | framework/lib/lua-enet/peer.c:870-893 | the search from the back, across the wrap, finds the command with that number or the gap where it belongs by cyclic distance |
| EnetRuns.FillPart | framework/lib/lua-enet/protocol.c:612-633 | copying a fragment in, new or repeated, keeps the count of missing fragments that of the clear flags and the bytes that are there those of the packet |
| EnetRuns.CompleteIsWhole | framework/lib/lua-enet/protocol.c:531-640 | when no fragment is missing, the assembled data are the packet |
| EnetRuns.DispatchedInOrder | framework/lib/lua-enet/peer.c:796-1014 | after every run with loss, repetition and reordering, across any number of wraps, the packets dispatched are a prefix of those sent, whole and in order; nothing that could leave waits |
| EnetRuns.WaitingInOrder | framework/lib/lua-enet/peer.c:836-1014 | what waits is strictly ordered by cyclic distance from the last number, within seven windows |
| EnetRuns.OldRecent | framework/lib/lua-enet/peer.c:852-860 | an old number may still arrive, by the condition of the runs, if and only if the window check refuses it or it looks like the last one |
| EnetRuns.WholeAnswer | framework/lib/lua-enet/peer.c:836-1014 | a whole command is answered -1 if and only if it is new, in its window, the peer is not closing and there is no room; so a repeated or old one is not refused |
| EnetRuns.FragmentAnswer | framework/lib/lua-enet/protocol.c:531-640 | a fragment is answered -1 if and only if it would begin a packet without room or at a closing peer, or its packet looks like the last one received |
| EnetRuns.AnsweredExactly | framework/lib/lua-enet/protocol.c:441-640 | these are the answers to everything that arrives in a run |
| EnetLiveness.HeardAllOut | framework/lib/lua-enet/peer.c:836-1014 | in every run, packets all of whose commands arrived in their window, with room, have left |
| EnetRuns.TooOldIsMistaken | framework/lib/lua-enet/peer.c:836-1014 | a command out of its window, old or a lap ahead, whole or any fragment, changes the channel if and only if its number fails that condition and nothing waits under it, or a packet of the same size and count waits that lacks this fragment; what waits is then another packet |
| EnetRuns.LapBehind | framework/lib/lua-enet/peer.c:852-860 | with nothing waiting, a packet one lap before the next leaves a second time |
| EnetRuns.FirstComesAgain | framework/lib/lua-enet/peer.c:852-860 | after 65536 packets the first one, when it comes again, leaves again: what has left is no longer what was sent |
| EnetChannel.ReliableChannel.DispatchIncoming | framework/lib/lua-enet/peer.c:797-833 | the walk over what is ready refines the specified dispatch |
| EnetChannel.ReliableChannel.QueueIncoming | framework/lib/lua-enet/peer.c:836-1014 | refines the specified queueing, with its three answers |
| EnetChannel.ReliableChannel.ReceiveFragment | framework/lib/lua-enet/protocol.c:532-640 | refines the specified handling of a fragment, all its checks in order |
| EnetHost.CountsChange | framework/lib/lua-enet/peer.c:351-375 | changing one peer changes the two counts by what that peer is and was |
| EnetHost.Host.ChangeState | framework/lib/lua-enet/protocol.c:35-44 | keeps connectedPeers the number of established peers and bandwidthLimitedPeers that of those with a bandwidth |
| EnetHost.Host.HandleAcknowledge | framework/lib/lua-enet/protocol.c:845-941 | the peer after an acknowledgement, in each state, with both counters kept |
| EnetHost.Host.HandleVerifyConnect | framework/lib/lua-enet/protocol.c:943-1003 | the peer after a confirmation, good or bad, with both counters kept |
| EnetHost.Host.HandleDisconnect | framework/lib/lua-enet/protocol.c:816-843 | the peer after a disconnect command, with both counters kept |
| EnetHost.Host.HandleBandwidthLimit | framework/lib/lua-enet/protocol.c:769-785 | keeps the second counter when a bandwidth changes to or from zero |
| EnetHost.Host.DispatchStateEvent | framework/lib/lua-enet/protocol.c:58-117 | a peer whose turn comes in the dispatch queue is connected, or reset, or left, with both counters kept |
| EnetHost.Host.GiveUp | framework/lib/lua-enet/protocol.c:1338-1370 | a peer that does not acknowledge is reset, or becomes a zombie to be told of, with both counters kept |
| EnetHost.EdgesExact | framework/lib/lua-enet/protocol.c:816-1003 | the edges of the state machine are exactly the steps that some event causes: a peer that nobody was told of is reset and never a zombie |
| EnetHost.HandshakeFirst | framework/lib/lua-enet/protocol.c:845-1003 | in every run, a peer that is established began a handshake when its slot was free, completed it after that, and has not been reset or given up since |
| Bigint.Cmp | framework/lib/lua-json/dtoa.c:1034-1066 | the sign of the comparison of the two values |
| Bigint.Big.MultAdd | framework/lib/lua-json/dtoa.c:612-667 | multiplies by m and adds a, exactly, in place |
| Bigint.Mult | framework/lib/lua-json/dtoa.c:805-913 | the exact product, in the sum of the words of both |
| Bigint.Diff | framework/lib/lua-json/dtoa.c:1068-1160 | the exact distance and which was larger |
| Bigint.Big.Quorem | framework/lib/lua-json/dtoa.c:2119-2241 | returns the quotient and leaves the remainder, for every divisor whose first word has more than 16 bits; in general the result is right if and only if the estimate is short by at most one |
| BigPowers.LShift | framework/lib/lua-json/dtoa.c:974-1032 | the exact product with 2^k |
| BigPowers.HiZeroBits | framework/lib/lua-json/dtoa.c:707-741 | the number of leading zero bits |
| BigPowers.Normalise | framework/lib/lua-json/dtoa.c:4152-4159 | a divisor shifted by the distance computed has its first word in [2^27, 2^28) |
| BigPowers.DigitFits | framework/lib/lua-json/dtoa.c:4150-4165 | what is below ten times such a divisor has no more words than it, so that every digit is one division |
| BigPowers.Fives.Pow5Mult | framework/lib/lua-json/dtoa.c:917-972 | the exact product with 5^k, from the shared list of powers, which it only extends |
| Decimal.FixedDigits | framework/lib/lua-json/dtoa.c:4282-4327 | the digits of b / S to ilim places: exact if they end before, else rounded half to even with carries into the first digit, no zero first or last |
| Decimal.NearestIsOne | framework/lib/lua-json/dtoa.c:4282-4327 | there is only one number that is nearest in that sense |
| CrabTable.LinkedBehind | framework/lib/lua-crab/lua-crab.c:103-130 | inserting behind the head of a chain keeps every chain complete, ordered and free of cycles |
| CrabTable.MovedOut | framework/lib/lua-crab/lua-crab.c:103-130 | so does moving a cell of another chain out of the way |
| CrabTable.AheadNext | framework/lib/lua-crab/lua-crab.c:132-145 | a search step loses no cell with the key: at the end of the chain the key is not in the table |
| CrabTable.Table.Get | framework/lib/lua-crab/lua-crab.c:132-145 | finds the cell of the key if and only if the table has it, and ends |
| CrabTable.Table.NewKey | framework/lib/lua-crab/lua-crab.c:103-130 | adds exactly that key, expanding a full table |
| CrabTable.Table.Expand | framework/lib/lua-crab/lua-crab.c:68-94 | doubles the table and keeps its contents; the inner insertions never expand again |
| CrabWords.NewBranch | framework/lib/lua-crab/lua-crab.c:219-228 | giving a letter a table of its own keeps the tree that of the same words |
| CrabWords.PrefixGoesOn | framework/lib/lua-crab/lua-crab.c:202-237 | every prefix of a word of the tree has a table |
| CrabWords.Dictionary.Insert | framework/lib/lua-crab/lua-crab.c:202-237 | adds exactly the word to the language of the tree; an illegal element adds none |
| CrabFilter.LongestAt | framework/lib/lua-crab/lua-crab.c:272-290 | the walk finds the longest word that starts there, or none |
| CrabFilter.Filter | framework/lib/lua-crab/lua-crab.c:261-302 | stars out, in place, exactly the leftmost longest words, which do not overlap |
| CrabFilter.UniqueCuts | framework/lib/lua-crab/lua-crab.c:261-302 | there is only one list of leftmost longest words |
| CrabFilter.Crab.Open | framework/lib/lua-crab/lua-crab.c:239-259 | the dictionary of exactly the non-empty words takes the place of the old one, unless an entry is illegal |
| CrabFilter.Crab.Apply | framework/lib/lua-crab/lua-crab.c:261-302 | reports something found if and only if some word occurs somewhere |
| FixedPoint.Mul | framework/lib/lua-fixedpoint64/fp64.c:37-62 | for all operands: the product rounded half away from zero, as 64 bits hold it |
| FixedPoint.Div | framework/lib/lua-fixedpoint64/fp64.c:75-109 | the quotient rounded half away from zero if and only if its absolute value is below 2^63, and otherwise what its low bits are; 0 for a zero divisor |
| FixedPoint.Sqrt | framework/lib/lua-fixedpoint64/fp64.c:111-169 | the square root to the nearest if and only if the number is not one of those missed, and one less than the nearest for those |
| FixedPoint.SmallNotMissed | framework/lib/lua-fixedpoint64/fp64.c:140-158 | below 2^62 none is missed |
| FixedPoint.SomeMissed | framework/lib/lua-fixedpoint64/fp64.c:147-152 | 9000000005493484498 is missed |
| Supercover.Supercover | framework/lib/lua-cutils/lua-cutils.c:125-265 | the cells listed are exactly those whose closed unit square meets the segment between the two centres, each once, from one end to the other |
| Supercover.RowsNear | framework/lib/lua-cutils/lua-cutils.c:178-210 | in a column, the cells touched are that of the line and, as the error says, the one above or below |
| Supercover.StepMarks | framework/lib/lua-cutils/lua-cutils.c:178-215 | each step lists what the line touches on the way to the next column, and nothing twice |
| Supercover.NearMeets | framework/lib/lua-cutils/lua-cutils.c:125-265 | the whole-number condition on the error says exactly when the square meets the segment |
| TimerLists.AddTail | framework/lib/libco/co_routine.cpp:191-211 | an item in no list is put last; one in a list, by its link, stays where it is |
| TimerLists.PopHead | framework/lib/libco/co_routine.cpp:212-236 | the first item leaves and is in no list |
| TimerLists.RemoveFromLink | framework/lib/libco/co_routine.cpp:152-189 | an item leaves the list it names, wherever in it |
| TimerLists.Join | framework/lib/libco/co_routine.cpp:238-266 | one list is emptied behind another, every item naming its new list |
| TimerLists.Apart | framework/lib/libco/co_routine.cpp:152-266 | no item is in two lists |
| TimerWheel.Wheel.AddTimeout | framework/lib/libco/co_routine.cpp:378-411 | puts an item in among those that wait behind all that are due as early, at its time or the last slot if that is too far; fails if its time is over |
| TimerWheel.Wheel.TakeAllTimeout | framework/lib/libco/co_routine.cpp:413-443 | takes exactly what is due, in order, and nothing that remains expires by now; the slots turn with the clock |
| TimerWheel.Turned | framework/lib/libco/co_routine.cpp:434-440 | turning the wheel past empty slots keeps every item in the slot of its tick |
| TimerWheel.EventLoop.Turn | framework/lib/libco/co_routine.cpp:802-859 | one turn of the event loop: what was ready, then the events that are in no list, each once, then what the wheel gives up are processed in that order, but for what was given up before its time, which is back in the wheel; nothing is processed twice, and what is in the wheel expires later |
| TimerWheel.EventLoop.Drain | framework/lib/libco/co_routine.cpp:838-859 | the loop over the active list ends with it empty; what is processed is the list in order without what goes back into the wheel |
| MessagePack.RoundTrip | framework/lib/lua-cmsgpack/lua_cmsgpack.c:174-500 | decoding what was encoded, with anything behind it, gives the value cut off at 16 levels and leaves the rest |
| MessagePack.KnownForms | framework/lib/lua-cmsgpack/lua_cmsgpack.c:203-346 | forms and tags of the MessagePack specification |
| MessagePack.BigBytes | framework/lib/lua-cmsgpack/lua_cmsgpack.c:69-90 | numbers have their most significant byte first |
| MessagePack.IntShortest | framework/lib/lua-cmsgpack/lua_cmsgpack.c:221-291 | every number has the shortest of the forms that hold it |
| MessagePack.UnknownTags | framework/lib/lua-cmsgpack/lua_cmsgpack.c:572-784 | which tags are a bad format |
| MessagePack.Unfinished | framework/lib/lua-cmsgpack/lua_cmsgpack.c:572-784 | on every proper beginning of what was encoded the decoder reports that the input ends too soon |
| MessagePack.IntBack | framework/lib/lua-cmsgpack/lua_cmsgpack.c:221-291 | every 64-bit number comes back from each of its ten forms |
| MessagePack.StreamBack | framework/lib/lua-cmsgpack/lua_cmsgpack.c:786-837 | of a packed stream any number of values is unpacked, and the rest is left |
| MessageCodec.Buffer.Append | framework/lib/lua-cmsgpack/lua_cmsgpack.c:118-128 | appends, in a block of twice the room when there is too little |
| MessageCodec.Buffer.EncodeType | framework/lib/lua-cmsgpack/lua_cmsgpack.c:480-503 | writes exactly the specified bytes, tables item by item |
| MessageCodec.Cursor.DecodeType | framework/lib/lua-cmsgpack/lua_cmsgpack.c:572-784 | on arbitrary bytes the cursor gives the specified value, place and error |
| MessageCodec.Pack | framework/lib/lua-cmsgpack/lua_cmsgpack.c:510-541 | the encodings of all arguments; fails without any |
| MessageCodec.UnpackFull | framework/lib/lua-cmsgpack/lua_cmsgpack.c:786-837 | at most limit values from offset on, and where to go on; errors as specified |
| AoiMap.CutOutChained | framework/lib/lua-aoi/aoi.c:92-107 | taking a slot that is in the way out of its chain and a new id into its place keeps every chain complete and in order |
| AoiMap.EvictedGone | framework/lib/lua-aoi/aoi.c:98-107 | the map is then without the id that was in the way and with the new one; a dropped object in the way is simply gone |
| AoiMap.EvictedMore | framework/lib/lua-aoi/aoi.c:104-106 | the id that was in the way finds the start of its chain in its main position, so that putting it in again moves nothing else |
| AoiMap.ContentsMeans | framework/lib/lua-aoi/aoi.c:146-164 | an id leads to an object if and only if some slot with that id has it, whatever slots dropped objects have left |
| AoiMap.SlotMap.Insert | framework/lib/lua-aoi/aoi.c:84-121 | the map gains exactly the id, in its main position, in the place of a slot in the way, or in a free slot behind the head; a table with a free slot is not replaced |
| AoiMap.SlotMap.Rehash | framework/lib/lua-aoi/aoi.c:123-144 | a table twice as long with the same map, without the ids of dropped objects; none of its insertions rehashes |
| AoiMap.SlotMap.Query | framework/lib/lua-aoi/aoi.c:146-164 | the object of the id, or a new one, also in the slot that a dropped object left |
| AoiMap.SlotMap.Drop | framework/lib/lua-aoi/aoi.c:176-191 | the map loses exactly the id and the slot keeps it |
| AoiMap.InvalidOnly | framework/lib/lua-aoi/aoi.c:84-91 | the id that marks free slots, ~0, is the only one that a table does not keep |
| AoiMap.InvalidLost | framework/lib/lua-aoi/aoi.c:84-91 | on a fresh table ~0 fills slot 15 and leaves it looking free, and id 15 overwrites its object |
| AoiSpace.Space.Update | framework/lib/lua-aoi/aoi.c:343-381 | an object appears, moves, changes its modes or is dropped, every count stays that of its references, and the table leads to exactly the objects that are there |
| AoiSpace.PlacedMeans | framework/lib/lua-aoi/aoi.c:358-381 | an object is never half a radius away from where its version was given out; a version stands for one place and one set of modes |
| AoiSpace.AskedMeans | framework/lib/lua-aoi/aoi.c:345-357 | what a string of modes asks for, in whatever order |
| AoiSpace.Space.FlushPair | framework/lib/lua-aoi/aoi.c:390-418 | keeps exactly the pairs that are as they were made and neither close nor far, tells of those that are close, and takes out objects whose last reference is gone |
| AoiSpace.PairDropped | framework/lib/lua-aoi/aoi.c:383-388 | dropping a pair gives back its two references, and an object is gone exactly when none is left |
| AoiSpace.Space.PushAll | framework/lib/lua-aoi/aoi.c:434-454 | walks the slots, sorts all objects into the four sets, each once, and clears their move flags |
| AoiSpace.ToldAllMeans | framework/lib/lua-aoi/aoi.c:457-488 | of two sets exactly those that are close are told of, and exactly those that are near become a pair |
| AoiSpace.Space.Message | framework/lib/lua-aoi/aoi.c:490-501 | exactly what is told of, nothing twice: the pairs that have come close, and any watcher and marker of which one had moved that are close; and exactly which pairs there are afterwards |

## Left out

- PacketDecoder.Decompress: says nothing about bytes that are not the compressed form of some packet; on those the code stays in its tables by bounds that are not modelled.
- PacketCoder.Compress: every buffer but the first must hold a byte, because the code reads a byte of the next buffer before it looks at its length.
- PacketDecoder.PatchChain: links are set after the counting of a context and not before, an order that nothing can observe; context exclusion is switched off by an #undef and absent.
- RangeArithmetic.ShiftSound: the tests by exclusive-or and masks are written as comparisons of leading bytes and remainders.
- KcpRuns.InOrderOnceWhole: needs fewer than 2^31 pieces a side, beyond which 32-bit numbers alias, and a fixed mtu and windows; stream mode is not modelled. That delivery will happen is not claimed, since the network may lose everything, only that it always can.
- Kcp.Kcp.Flush: in runs of two endpoints the congestion window, timers and probes are arbitrary, as the specification takes what they decide as an input; dead_link's state, ikcp_check, logging and failed allocation are left out, and the counters of queue elements are the lengths of the queues.
- RbTree.RbTree.Insert: the node must not be in the tree and must not be the retired former root that the root still names; a freed node whose address is used again is not covered.
- RbTree.RbTree.InsertFixup: the left and right branches, mirror images in the code, are one with a flag.
- Conhash.Ring.AddReplicas: the hash of a replica's name is an arbitrary function; MD5 is not modelled.
- EnetRuns.DispatchedInOrder: arrivals fulfil `Recent`, which excludes exactly numbers that look like those of others nearby; the limit on waiting data and a closing peer are arbitrary inputs.
- EnetRuns.TooOldIsMistaken: for commands of packets that a sender can send, to a peer that has room and is not closing.
- EnetChannel.ReliableChannel.ReceiveFragment: the bit set of fragments is a sequence of flags.
- EnetHost.Host.HandleAcknowledge: round-trip times, throttling and the queues of commands are left out; whether the acknowledged command was the expected one is an input. The flag that a peer is in the dispatch queue is not modelled.
- Bigint.Big.MultAdd: allocation by powers of two is the doubling of an array; the free lists are left out.
- BigPowers.Fives.Pow5Mult: the shared list is an object of its own, without the lock.
- Decimal.FixedDigits: takes S <= b < 10 S with S normalised, which the code has established before; the shortest-string mode and all floating point are left out.
- CrabTable.Table.NewKey: the main position is the remainder by the capacity, which is a power of two, so that the code's mask is the same.
- CrabFilter.Crab.Open: Lua tables are sequences, and numbers outside 32 bits are not modelled.
- FixedPoint.Div: the absolute value of the least number is what its bits say, where C leaves the negation undefined.
- Supercover.Supercover: the octants are one march with a frame of directions; a cell is recorded as a pair and not as x * 10000 + y.
- ENet: unreliable and unsequenced commands, sockets, and the compression of whole datagrams by the host.
- TimerWheel.Wheel.TakeAllTimeout: the clock runs less than 2^31 - 1 ms between two calls, beyond which the C code's int wraps, and has started when the wheel is made, so that the branch for a start of zero is absent.
- TimerWheel.EventLoop.Turn: processing an item is its place in the result; coroutines, system calls and the preparation functions of items are left out. An item's time is fixed when it is made.
- MessagePack.RoundTrip: a table is given as an array or as the keys and values of a map in order; how Lua tells them apart is left out, and so is storing the items: a nil value is not stored, and a nil key, which a table nested too deep becomes when it is a key, or a NaN makes lua_settable raise an error. The bytes of floating-point numbers are opaque.
- AoiSpace.Space.Update: coordinates are whole numbers, objects are values found by id where C follows a pointer, and the slots of the table hold ids for pointers; versions do not wrap. The id ~0 is excluded, as `InvalidLost` says why.
- AoiMap.SlotMap.Insert: the main position is the remainder by the size, a power of two, so that the code's mask is the same; int indices do not overflow.
- AoiSpace.Space.Message: that no watcher comes close unseen is not claimed, as slow drift does not change a version.
