# Reliable transport over UDP — Dafny model

This project models the core of a small reliable-transport program written in
C. Client and server exchange fixed-size packets: 32-bit acknowledgement and
sequence numbers, a 16-bit length, a flags byte, one unused byte and a
1012-byte (MSS) payload. The flags are SYN = 1 and ACK = 2. The repository
holds several iterations of the transport, and each is modelled against its
own definitions:

- `project/deque.c`: a ring-buffer deque of packets over a fixed array.
  Class `Deques.Deque` keeps the array, `front`, `back` and `size`, plus a
  ghost `Contents` sequence tied to the array by its invariant.
  `q_try_insert_keep_sorted` is proved to insert in order, shift loop
  included.
- `project/common.c`: the `params` state of a peer (class
  `Transport.Params`). It covers retransmission on timeout and on duplicate
  acknowledgements, sending data, in-order delivery with the
  cascade through the reorder buffer, clearing acknowledged segments,
  empty acknowledgements, and one turn of the `p_listen` loop. Packets put
  on the network are a ghost `sent` sequence. Delivered data is an
  `output` sequence of chunks.
- `project/reliable.c`: byte-order conversion, `create_packet`, and the
  send and receive windows (`Reliable.SendWindow`, `Reliable.RecvWindow`).
  Their linked lists are sequences in list order, and the list walks stay
  loops.
- `project/utils.c`, lines 69-135: the overwriting FIFO queue
  (`Fifo.FifoQueue`). A push onto a full queue drops the oldest packet.
- `project/server.c`, lines 52-100: the server's handshake loop, as a step
  method (`Handshake.Server.Step`) and a state function
  (`Handshake.Next`).

The 32-bit wrap-around of sequence numbers is explicit
(`Packets.Advance`). Clock readings, `rand()` results, received packets
and the bytes the data source would deliver are all parameters.

## Model

| member | source | states |
|---|---|---|
| Packets.MaskRand | project/utils.h:9 | `rand() & RANDMASK` is below 2^31, and any value already below 2^31 passes through unchanged |
| Packets.Advance | project/common.c:89 | adding a length to a sequence number wraps at 2^32: plain sum when there is no overflow, sum minus 2^32 when there is |
| Packets.Data | project/reliable.c:239 | the bytes written for a packet are a prefix of its payload, `length` long (capped at MSS) |
| Deques.Deque.constructor | project/deque.c:26-40 | `q_init`: an empty deque of the given capacity |
| Deques.Deque.Increment | project/deque.c:12-17 | the next slot index, wrapping from `capacity - 1` to 0 |
| Deques.Deque.Decrement | project/deque.c:19-24 | the previous slot index, wrapping from 0 to `capacity - 1` |
| Deques.Deque.IncrementDecrement | project/deque.c:12-24 | `increment` and `decrement` are mutual inverses |
| Deques.Deque.Clear | project/deque.c:47-51 | `q_clear` empties the deque and resets both indices |
| Deques.Deque.Size | project/deque.c:110-112 | `q_size` is the number of stored packets and never exceeds the capacity |
| Deques.Deque.Full | project/deque.c:114-116 | `q_full` holds exactly when the deque holds `capacity` packets |
| Deques.Deque.Empty | project/deque.c:118-120 | `q_empty` holds exactly when the deque holds nothing |
| Deques.Deque.Front | project/deque.c:103-108 | `q_front` is the oldest packet, or NULL when empty, and changes nothing |
| Deques.Deque.PushBack | project/deque.c:53-59 | refused exactly when full; otherwise the packet becomes the last element |
| Deques.Deque.PushFront | project/deque.c:61-67 | refused exactly when full; otherwise the packet becomes the first element |
| Deques.Deque.TryInsertKeepSorted | project/deque.c:69-85 | refused exactly when full or when a packet with the same sequence number is stored; otherwise the contents become the sorted insertion of the packet |
| Deques.Deque.HasSeq | project/deque.c:72-74 | the duplicate scan finds a match exactly when some stored packet has that sequence number |
| Deques.Deque.ShiftInsert | project/deque.c:75-84 | opening a slot before the front and shifting smaller entries down puts the packet at its sorted position; no entry is lost or duplicated |
| Deques.Deque.ShiftDown | project/deque.c:76-81 | the shift loop stops at the first entry larger than the packet; every entry it passed is not larger and has moved one slot towards the front |
| Deques.Deque.PopFront | project/deque.c:87-96 | returns the oldest packet (NULL when empty) and removes it |
| Deques.Deque.PopFrontGetNext | project/deque.c:98-101 | removes the oldest packet and returns the new oldest one |
| Deques.InsertSortedAt | project/deque.c:77-83 | the packet lands after every entry that is not larger and before the first entry that is larger |
| Deques.InsertSortedMultiset | project/deque.c:69-85 | sorted insertion adds exactly the new packet: the multiset grows by it |
| Deques.InsertSortedElements | project/deque.c:69-85 | after insertion, a packet is present exactly when it was present before or is the new one |
| Deques.InsertSortedKeepsOrder | project/deque.c:69-85 | a buffer strictly increasing by sequence number stays strictly increasing when a packet with a new number is inserted |
| Transport.Params.constructor | project/common.c:10-29 | `p_init`: both buffers empty; expecting 0; initial sequence number below 2^31; last acknowledgement `-1`; no duplicates; timer started now; packet buffer zeroed |
| Transport.Params.RetransmitOnTimeout | project/common.c:33-44 | after more than one second the timer is reset and only the oldest unacknowledged segment, if any, is resent; otherwise nothing changes |
| Transport.Params.SendPayloadAck | project/common.c:49-63 | succeeds exactly when the send buffer has room and the source has data. It then sends one ACK carrying that data at the current sequence number, buffers it, and moves the sequence number past it |
| Transport.Params.RetransmitOnDuplicateAck | project/common.c:67-80 | a repeat of the last acknowledgement counts as a duplicate, and the duplicate that brings the running count to three resets it and resends the oldest segment; a new acknowledgement is remembered and the count kept, so it carries over (acknowledgements 7, 7, 7, 9, 9 resend on the second 9) |
| Transport.Params.HandleDataPacket | project/common.c:86-103 | the expected segment is written out, followed by exactly the buffered segments that continue it without a gap; a later segment goes into the reorder buffer under the insertion rules; an earlier one is dropped; the buffer stays strictly increasing. The outcome is also stated as the receive-side function `Handled` that the turn of `p_listen` is specified with |
| Transport.Params.DeliverExpected | project/common.c:87-98 | the expected segment and then the gap-free run of buffered segments are written out in order, the expectation moves past all of them, and they leave the reorder buffer |
| Transport.Params.BufferFuture | project/common.c:99-102 | a later segment enters the reorder buffer at its sorted place exactly when there is a free slot and its number is new there; otherwise the buffer is unchanged |
| Transport.Params.Drain | project/common.c:93-98 | the cascade delivers the longest gap-free run at the front of the reorder buffer, in order, and stops at a segment that does not start at the new expectation |
| Transport.Params.DrainFrom | project/common.c:93-98 | the delivery loop removes exactly the gap-free front run, returns its data in order and the expectation past it |
| Transport.Params.ClearAckedPacketsFromSbuf | project/common.c:107-115 | exactly the front segments below the acknowledgement leave the send buffer; returns true iff at least one did |
| Transport.Params.SendEmptyAck | project/common.c:119-125 | sends one ACK with the expected sequence number, sequence 0 and length 0; nothing else changes |
| Transport.Params.ListenStep | project/common.c:129-151 | the whole new state after one turn of `p_listen`. With nothing received: the timeout resend, then a data packet exactly when the send buffer has room and the source has data (buffered, sequence number advanced), the receive side and the duplicate count untouched. With a packet received: timeout resend, then duplicate resend, and the new `recv_ack`/`ack_count`; the send buffer cleared of the acknowledged segments; the timer at the acknowledgement time iff something was cleared, else as the timeout check left it. An empty packet stops there. A packet with data is then handled as `Handled` says (delivery, buffering or drop) and answered by exactly one reply acknowledging the new expectation: a data packet iff the cleared buffer has room and the source has data, otherwise the empty acknowledgement |
| Transport.Params.Receive | project/common.c:134-149 | for a received packet: the duplicate count rule, the duplicate resend, the clearing of acknowledged segments and the timer reset; for an empty packet nothing else; for a packet with data its handling as `Handled` says and one reply, a data packet iff the cleared send buffer has room and the source has data, else the empty acknowledgement |
| Transport.Params.Acknowledge | project/common.c:135-138 | `recv_ack` becomes the acknowledgement; the count moves on (modulo three) for a repeat and is kept for a new value; the oldest segment is resent when a repeat brings the count to three; exactly the acknowledged front segments leave the send buffer; the timer is reset exactly when something was cleared |
| Transport.Params.Respond | project/common.c:143-148 | the receive side moves as `Handled` says, then exactly one ACK of the new expectation is sent: a data packet carrying the source's bytes at the current sequence number (buffered, sequence number advanced) iff the send buffer has room and the source has data, otherwise the empty acknowledgement with the buffer and sequence number unchanged |
| Transport.AckedCountSpec | project/common.c:110 | the count of cleared segments is the length of the front run below the acknowledgement: all counted ones are below it, the next is not |
| Transport.AckedCountIdempotent | project/common.c:107-115 | clearing twice with the same acknowledgement removes nothing the second time |
| Transport.DrainCountSpec | project/common.c:93-98 | the delivered run is gap-free: each segment starts where the data before it ends, and the first one left does not |
| Transport.ChainedSnoc | project/common.c:56-60 | buffering a segment at the current sequence number and advancing past it keeps the send buffer gap-free up to the new sequence number |
| Transport.ChainedSuffix | project/common.c:107-115 | removing acknowledged front segments keeps the send buffer gap-free |
| Reliable.Swap32 | project/reliable.c:15-24 | `htonl`/`ntohl` on a little-endian host reverse the four bytes: byte `i` of the result is byte `3 - i` of the argument |
| Reliable.Swap32Involution | project/reliable.c:13-26 | `ntohl` undoes `htonl` |
| Reliable.Swap16 | project/reliable.c:17 | `htons` exchanges the two bytes |
| Reliable.Swap16Involution | project/reliable.c:17-25 | `ntohs` undoes `htons` |
| Reliable.ToNetwork | project/reliable.c:13-18 | `packet_to_network` converts the acknowledgement, sequence and length fields and leaves flags, unused byte and payload alone |
| Reliable.ToHost | project/reliable.c:21-26 | `packet_to_host` converts the acknowledgement, sequence and length fields back (`ntohl`, `ntohl`, `ntohs`) and leaves the rest alone |
| Reliable.NetworkRoundTrip | project/reliable.c:13-26 | converting to network order and back, or back and then to network order, gives the original packet |
| Reliable.CreatePacket | project/reliable.c:29-37 | the four header fields are as given; the unused byte and the whole payload are zero |
| Reliable.InsertBeforeNotSmallerAt | project/reliable.c:120-126 | the walk puts the packet before the first later node whose number is not smaller |
| Reliable.InsertInOrderMultiset | project/reliable.c:98-133 | insertion into a window adds exactly the new packet |
| Reliable.InsertInOrderSorted | project/reliable.c:112-127 | a window sorted by sequence number (ties allowed) stays sorted |
| Reliable.InsertPosition | project/reliable.c:113-127 | the head test and the walk find the index where the in-order insertion splices the packet |
| Reliable.SendWindow.constructor | project/reliable.c:82-88 | `init_send_window`: empty; initial sequence number `rand() % (UINT32_MAX / 2)`; timer at now |
| Reliable.SendWindow.Add | project/reliable.c:98-133 | refused exactly when 20 packets are held; otherwise the packet is inserted in order, the size grows by one and the next sequence number advances by its length, wrapping |
| Reliable.SendWindow.RetransmitPacket | project/reliable.c:136-143 | NULL exactly when the window is empty; otherwise the head of the list, which on the sorted window has the lowest sequence number |
| Reliable.SendWindow.ProcessAck | project/reliable.c:145-189 | every node below the acknowledgement is removed wherever it is, the rest keep their order; returns true iff any was removed, and then the timer is reset so no retransmission is due |
| Reliable.SendWindow.CheckRetransmit | project/reliable.c:267-273 | never due on an empty window; otherwise due iff at least one second has passed since the last new acknowledgement |
| Reliable.SendWindow.Cleanup | project/reliable.c:276-287 | the window is emptied; its sequence number and timer are kept |
| Reliable.UnackedMembers | project/reliable.c:151-183 | a packet survives an acknowledgement exactly when it was held and is not below it |
| Reliable.UnackedSorted | project/reliable.c:151-183 | removing acknowledged packets keeps a sorted window sorted |
| Reliable.UnackedIdempotent | project/reliable.c:151-183 | a second acknowledgement with the same number removes nothing |
| Reliable.AckWalk | project/reliable.c:151-183 | the unlinking walk removes exactly the nodes below the acknowledgement and reports whether it removed any |
| Reliable.RecvWindow.constructor | project/reliable.c:90-95 | `init_recv_window`: empty, expecting sequence number 0 |
| Reliable.RecvWindow.Add | project/reliable.c:192-226 | refused exactly when 20 packets are held; otherwise the packet is inserted in order (duplicates allowed) and the size grows by one |
| Reliable.RecvWindow.ProcessReceivedData | project/reliable.c:229-264 | one walk writes out and unlinks every node not above the expectation as it stands, advancing the expectation past each; returns the final expectation |
| Reliable.DeliveryWalk | project/reliable.c:234-261 | the walk produces exactly what the delivery pass specifies: kept nodes, written data and final expectation |
| Reliable.DeliverSorted | project/reliable.c:229-264 | on a sorted window the pass delivers a front run: its data is written in order, the expectation moves past its total length (wrapping), and the rest is kept |
| Reliable.DeliverKeptAbove | project/reliable.c:236 | on a sorted window every kept node is above the final expectation, so a second pass writes nothing |
| Reliable.KeptAll | project/reliable.c:236 | when the first node is above the expectation, nothing is written |
| Reliable.RecvWindow.Cleanup | project/reliable.c:289-300 | `cleanup_recv_window`: the list is emptied and the size is 0; the expectation and the data written are kept |
| Reliable.DeliverKeptSorted | project/reliable.c:229-264 | what the pass keeps of a sorted window is sorted |
| Fifo.FifoQueue.constructor | project/utils.c:90-93 | `q_init`: zero-filled storage, so an empty queue with both indices at 0 |
| Fifo.FifoQueue.Increment | project/utils.c:76-81 | the next slot, wrapping from `Q_SIZE - 1` to 0 |
| Fifo.FifoQueue.Decrement | project/utils.c:83-88 | the previous slot, wrapping from 0 to `Q_SIZE - 1` |
| Fifo.FifoQueue.StepsInverse | project/utils.c:76-88 | `increment` and `decrement` are mutual inverses |
| Fifo.FifoQueue.ClearAsWritten | project/utils.c:99-102 | `q_clear` as written resets the indices but keeps `size`, which breaks the queue invariant whenever the queue was partly filled |
| Fifo.FifoQueue.Clear | project/utils.c:99-102 | the corrected clear empties the queue, size included |
| Fifo.FifoQueue.Push | project/utils.c:104-113 | appends the packet; a full queue first loses its oldest packet, so the size stays `Q_SIZE` and never exceeds it |
| Fifo.FifoQueue.DropOldest | project/utils.c:105-108 | on a full queue the oldest packet is discarded |
| Fifo.FifoQueue.Append | project/utils.c:110-112 | with room left, the packet becomes the newest and the size grows by one |
| Fifo.FifoQueue.Pop | project/utils.c:115-124 | NULL and no change when empty; otherwise the oldest packet is returned and removed (FIFO order) |
| Fifo.FifoQueue.Top | project/utils.c:126-131 | the oldest packet, or NULL when empty, with no change |
| Fifo.FifoQueue.Size | project/utils.c:133-135 | the number of packets held, never above `Q_SIZE` |
| Fifo.PushedNewest | project/utils.c:104-113 | one push leaves the newest packets of the old contents followed by the new one, at most `Q_SIZE` in all |
| Fifo.PushedAllNewest | project/utils.c:104-113 | any run of pushes leaves exactly the newest `Q_SIZE` packets of everything pushed, oldest first |
| Fifo.StaleAfterClear | project/utils.c:99-102 | a queue holding one packet, cleared as written, still reports one packet, and its top is the cleared packet |
| Fifo.EmptyAfterClear | project/utils.c:99-102 | the same queue cleared by the corrected clear reports no packet |
| Handshake.SynAck | project/server.c:72-76 | the reply to a SYN acknowledges `recv_seq`, carries `send_seq`, has length 0 and both SYN and ACK set |
| Handshake.Next | project/server.c:69-98 | a SYN wins over an ACK. It sets `recv_seq` to its sequence number plus one (wrapping). An ACK above `send_seq + 1` is ignored. One below it moves both numbers back. One equal to it completes the handshake. A packet with neither flag changes nothing |
| Handshake.Run | project/server.c:62-100 | the loop over the received packets: a completed handshake, or no packet at all, leaves the state as it is; a run ends complete only if it started complete or saw a packet |
| Handshake.NextReady | project/server.c:80-90 | one packet completes the handshake exactly when it is an ACK without SYN acknowledging `send_seq + 1`; a completed handshake stays complete |
| Handshake.RunReadyWitness | project/server.c:62-100 | any run of packets that completes the handshake contains a packet that acknowledged `send_seq + 1` as it stood then |
| Handshake.RunStops | project/server.c:63-66 | once the handshake is complete, later packets change nothing |
| Handshake.Server.constructor | project/server.c:52-59 | the initial `send_seq` is `rand() & RANDMASK`, below 2^31; not ready; no SYN seen; nothing sent |
| Handshake.Server.Step | project/server.c:62-100 | returns true exactly when the handshake was already complete, changing nothing. Otherwise the received packet moves the state as `Next` says, and only a SYN is answered, with the SYN-ACK |

## Left out

- Sockets, `sendto`/`recvfrom`, `stdin`/`stdout`, `fprintf` diagnostics and all the print functions are left out. A send appends to a ghost `sent` sequence, delivered data is appended to `output`, and a received packet is a method argument.
- The random drop in `send_packet` (utils.c:34) is not modelled. It drops a packet when `rand() > RANDMASK >> 1`, that is above 0x3FFFFFFF, about 50% of sends with a 31-bit `RAND_MAX` (the comment there says 75%).
- `clock()` and `rand()` become parameters. The clock is read once per operation.
- Reliable.SendWindow.ProcessAck: uses one clock reading `now` for every removed node, whereas the source calls `clock()` again at each removal (reliable.c:160). The final timer value is the last of those readings.
- `read_stdin_to_pkt` and `write_pkt_to_stdout` are called by common.c but are not part of this model. `chunk` stands for the bytes a read would deliver (empty means nothing to send), and the packet length is taken to be the number of bytes read.
- Byte order: common.c and deque.c store sequence numbers in network order and convert at each comparison. The model keeps them in host order throughout. This is sound because `htonl`/`ntohl` are mutually inverse bijections (Reliable.NetworkRoundTrip), and equality tests agree in either order. The swap functions model a little-endian host.
- `malloc` failure paths are not modelled: `q_init` returning NULL, `die` in `p_init`, and the `!new_node` returns in `add_to_*_window`.
- Deques.Deque.constructor: requires a capacity of 1 to 255. `p_init` passes an `int` that `q_init` truncates to `uint8_t`, and a capacity of 0 never makes `increment` wrap. Neither case is modelled.
- Fifo.FifoQueue.constructor: `q_init` calls `calloc(Q_SIZE, sizeof(packet))`, which is smaller than `struct queue_t` by its three index bytes. The model takes the storage as big enough, with every field zero.
- `Q_SIZE` is never defined in the repository, so it is the constructor parameter `capacity`, from 1 to 255.
- `write` on a packet whose length exceeds MSS would read past the payload; `Packets.Data` caps the written bytes at MSS.
- Cleanup of both windows empties the list; freeing each node is not modelled.
- `q_destroy`, the programs' `main` functions, argument parsing, address setup and `sec.cpp` are left out.
- The handshake's `recv_seq` and `pkt_send` start uninitialised in server.c. The model starts them at 0 and at an all-zero packet.
- Where the prose description and the code disagree, the model follows the code:
  - A new, different acknowledgement keeps `ack_count` (common.c:77-79) instead of resetting it.
  - A timeout resends the front segment without refreshing its acknowledgement number (common.c:39-42).
  - `process_received_data` delivers nodes with numbers at or below the expectation (`<=`, reliable.c:236), so a stale duplicate is written again.
  - The window insertion compares the head with `>` but walks with `<` (reliable.c:113, 121), so equal numbers go before later equal nodes except at the head.

## Findings

| source | as written | input that shows it | evidently intended | confidence | as-written member | corrected member |
|---|---|---|---|---|---|---|
| project/utils.c:99-102 | `q_clear` resets `front` and `back` but not `size` | push one packet onto an empty queue of 4 slots, then clear: `q_size` still returns 1 and `q_top` returns the cleared packet | `size` reset to 0, as `q_clear` in deque.c:47-51 does | high; not executed | Fifo.StaleAfterClear | Fifo.FifoQueue.Clear |
