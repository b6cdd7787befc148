# A verified model of the TFTP transfer engine

This project models the data path of the TFTP server and client in Dafny and proves what
each side keeps, what both keep together over a bad network, and under which exact
conditions the guarantees of the protocol hold.

Loops of the source are methods with invariants, objects are classes, and each of them is
proved against a specification function whose meaning is then the subject of lemmas. The
protocol results are about state machines whose runs are arbitrary sequences of actions:
any number of sends, losses, repetitions, timeouts and stray packets in any order.

| file | what it holds |
|---|---|
| `Wire.dfy`, `Arithmetic.dfy` | 16-bit block numbers, the half-range test, facts on quotients |
| `Blocks.dfy` | the partition of a file into blocks (RFC 1350, section 6) |
| `WindowSender.dfy`, `SenderBounds.dfy` | the windowed sender, buffered and streaming (RFC 7440), and its bounds |
| `ClientPut.dfy`, `PutReplies.dfy`, `UploadReceiver.dfy` | the client's upload loop and the server's receive loop |
| `Link.dfy`, `LinkTheorems.dfy`, `Completion.dfy` | a sender and the receiver over two FIFO channels that lose and duplicate |
| `ClientGet.dfy`, `Download.dfy`, `DownloadArrival.dfy`, `DownloadTheorems.dfy`, `FinalBlock.dfy` | the client's download loop, alone and over a network that also reorders |
| `Netascii.dfy`, `KeepingEncoder.dfy`, `SpilloverCutter.dfy` | the codecs and the NETASCII block cutter |
| `UploadOutcome.dfy`, `UploadStored.dfy` | what an upload leaves on disk, for any packets and for `put` |
| `Multicast.dfy`, `MulticastTransfer.dfy` | membership and selective retransmission (RFC 2090) |
| `Request.dfy` | request, option negotiation and OACK (RFC 2347, 2348, 2349, 7440) |
| `ProxyProtocol.dfy` | PROXY protocol headers (sections 2.1 and 2.2 of its specification) |
| `WorkerPool.dfy` | dispatch to worker queues and batching of replies |

## Where a promise does not hold in full

The model keeps the code as it is. Each of these is a lemma below, with its exact condition.

- Go-Back-N over FIFO channels is safe for files of any length exactly when no window holds
  more than 32769 blocks, one more than half the number space. The negotiation accepts up
  to 65535; beyond the bound false ACKs are possible, and a file that fits one such window
  can be reported as sent when nothing of it arrived.
- `get` compares block numbers without regard to their wrap, so downloads are safe exactly
  up to 65535 blocks (or if the client's window is the larger one, when longer files never
  get past the first window). Past that, a late copy of an old block is taken for a new one.
- When the short last block reaches `get` before its turn, `get` can no longer succeed,
  whatever arrives. That every run which writes the whole file also ends in success holds
  exactly when the blocks before the last fill whole windows, or no run gets that far.
- `put` sends no empty last block for a length that is a multiple of the block size: there
  are runs in which it succeeds, and none in which the server finishes and writes the file.
- The NETASCII sender of `main.rs` sends the empty last block of an exact multiple once and
  takes a duplicate ACK for success, so that block can be lost unnoticed. Success means that
  the last block was acknowledged exactly for the other files.
- The receiver's window edges are multiples of the window size for all blocks exactly when
  the window size divides 65536, and otherwise only in the first 65536 blocks.
- Encoding a file piece by piece equals encoding it whole exactly when no CR LF pair
  straddles two reads; the encoder of `main.rs` loses the pairs the file had.
- A retransmission in multicast repeats the right block for all blocks exactly up to 65535
  blocks where arithmetic overflow is checked; elsewhere exactly when each later block
  equals the one with the same number among the first 65536.
- A multicast session keeps ACKs by 16-bit number and never clears them. What counts as
  acknowledged by all is held by all exactly in transfers of at most 65536 blocks. The
  program itself calls `record_ack` nowhere, so in it nothing is ever acknowledged by all.
- A multicast master that joins again stays master but loses its flag.
- The server reads a request exactly when the file name has at most 254 bytes, and both
  ends use the same window exactly when the client asks for 2 to 65535 or the server's
  default is what the client uses.
- `put` never encodes. In NETASCII mode the server stores what was uploaded exactly when that
  has no CR LF or CR NUL pair.
- "Max retries exceeded" is reported by the server as success. In the model it is an
  outcome of its own, `GaveUp`, which can happen to every file but the empty one.

Assumptions: the block size is positive, window sizes are 1 to 65535 (the server does not
check its configured default), `file.read` fills the buffer unless the file ends (in
octet mode), and a rename is atomic.

## Model

| member | source | states |
|---|---|---|
| Blocks.BlockPartition | src/bin/server.rs:1581-1613 | A sequence of blocks is the cutter's partition of the data if and only if its blocks concatenate to the data, all but the last are full and the last is strictly short; there are then len/size + 1 of them. |
| Wire.BehindMeaning | src/bin/server.rs:2385-2386 | The half-range test on 16-bit numbers, read on unbounded indices within one turn: 1 to 32767 behind, or at least 32769 ahead. |
| Wire.SameNumber | src/bin/server.rs:2382-2383 | Equal numbers mean equal indices as long as these are less than one turn apart. |
| WindowSender.OnReply | src/bin/server.rs:1618-1661 | A reply keeps the sender within the file and its retries within the cap; while it is sending, a retry is left. |
| WindowSender.SendWindow | src/bin/server.rs:1615-1661 | The retry loop transmits the window until its last block is acknowledged or five tries are used up, and continues exactly where the reply-driven specification does. |
| WindowSender.CutWindow | src/bin/server.rs:1585-1613 | The window-building loop yields the window of the partition that begins at the current block, under the right numbers, and meets the end of file exactly with the last block. |
| WindowSender.Advance | src/bin/server.rs:1663-1686 | The loop behind an acknowledged window ends the transfer exactly when that window held the last block, and otherwise leaves offset and number at the next window. |
| WindowSender.SendBuffered | src/bin/server.rs:1538-1687 | For every file, window size and sequence of replies, the packets put on the wire, round by round, and the outcome are those of the specified transfer. |
| WindowSender.ReadWindow | src/bin/server.rs:1735-1777 | The loop that reads a window from the file yields that same window in octet mode, and the end-of-file flag exactly with its last block. |
| WindowSender.SendStreaming | src/bin/server.rs:1698-1866 | The streaming sender in octet mode puts on the wire, round by round and byte by byte, what the buffered one does on the same content and replies, empty files and exact multiples included. |
| WindowSender.AwaitAckLoop | src/bin/server.rs:2415-2478 | The wait for the block of an empty file, step by step as specified: at most five waits, ended early by the ACK or by an ERROR, with nothing sent again. |
| WindowSender.AwaitAckExactly | src/bin/server.rs:2415-2478 | That wait succeeds if and only if one of the five replies is the ACK and no ERROR came before it. |
| SenderBounds.WindowsPartition | src/bin/server.rs:1585-1613 | Grouping into windows neither loses, repeats, reorders nor renumbers a block; each window holds 1 to windowsize of them. |
| SenderBounds.DriveTranscript | src/bin/server.rs:1583-1687 | From any state of a transfer, the rounds are the remaining windows in order, each sent one to five times; completing means all windows were sent, giving up means the last one was sent five times. |
| SenderBounds.AttemptsAnswered | src/bin/server.rs:1618-1661 | Each of these windows was tried until the ACK of its last block came, and no longer; one that was given up never got it. |
| SenderBounds.DriveEnds | src/bin/server.rs:1618-1686 | The last reply that a completed transfer took was the ACK of its last block. |
| SenderBounds.BoundedTransfer | src/bin/server.rs:1538-1687 | Whatever replies arrive, a transfer stops with such a transcript, answered so, with at most 5 * (len/size + 1) DATA packets; an empty file completes if and only if one of five waits yields the ACK of block 1 with no ERROR before it. |
| SenderBounds.CanGiveUp | src/bin/server.rs:1620-1626 | Some replies make a transfer give up, which is reported as success, if and only if the file is not empty. |
| ClientPut.PutBlocksMeaning | src/bin/client.rs:409-418 | The blocks `put` reads carry the whole file, full ones first, and end with a short block exactly when the length is no multiple of the block size. |
| ClientPut.SendUntilAcked | src/bin/client.rs:423-470 | The inner loop resends until the ACK of this very block; only timeouts count as retries, five of them or an error end the upload. |
| ClientPut.Put | src/bin/client.rs:404-482 | For every file and sequence of replies, the packets sent and the outcome are those of the stop-and-wait specification. |
| PutReplies.NextBlock | src/bin/client.rs:423-470 | When the ACK of the current block comes after k replies that settle nothing (stale ACKs, unknown packets, fewer than five timeouts), the block was sent k + 1 times and `put` goes on with the next one and all its retries. |
| PutReplies.PutExactly | src/bin/client.rs:404-482 | `put` succeeds if and only if every block gets its own ACK before an ERROR, a receive error or the fifth timeout, and fails if and only if one of these comes first. |
| UploadReceiver.ReceiveLoop.Handle | src/bin/server.rs:1950-2129 | One packet or timeout changes the loop's variables, and sends an ACK, exactly as the receiver's rule says. |
| UploadReceiver.AckSchedule | src/bin/server.rs:2047-2061 | An accepted block is acknowledged, under its own number, exactly when its index is a multiple of windowsize or it is short: always up to block 65536, and for every block if and only if windowsize divides 65536 (or the size limit admits no full block). |
| UploadReceiver.DriftsAfterWrap | src/bin/server.rs:2052-2055 | For any other windowsize the receiver sees an edge at block 65536 + windowsize, which is no multiple of it. |
| UploadReceiver.ReceiveMeaning | src/bin/server.rs:1950-2129 | On any packets at all, the data received is the payloads of consecutively numbered packets in arrival order, within a non-zero size limit, and the loop is finished exactly when the last of them was short. |
| UploadReceiver.FatalEvent | src/bin/server.rs:1963-2122 | An ERROR, a receive error, a timeout, the due block if it breaks the size limit, or a block neither due nor less than half a turn late ends the upload for good: whatever follows is not accepted, not acknowledged and does not finish it. |
| UploadReceiver.HarmlessEvent | src/bin/server.rs:1952-2091 | Every other packet leaves it going on: one that is no DATA changes nothing, a late block is acknowledged again under its own number, the due one is appended and finishes the upload if it is short. |
| UploadReceiver.GarbageIgnored | src/bin/server.rs:1952-1986 | Packets that are no DATA can come anywhere without a trace. |
| Link.TakeAckKeeps | src/bin/server.rs:2381-2396 | An ACK moves the sender on only if it truly acknowledges the whole window. |
| Link.DeliverKeeps | src/bin/server.rs:1987-2091 | The receiver is right about every packet it takes as expected, as a duplicate or as out of order. |
| Link.RunInv | src/bin/server.rs:1573-1687 | In every reachable state data under way is of the current window or the one before, in that order, ACKs are truthful and close to each other, and base and expected block agree. |
| LinkTheorems.SlidingWindowSafety | src/bin/server.rs:2381-2400 | In all reachable states the received bytes are a block prefix of the file, ACKs are truthful, nothing unaccepted is left behind and either end finishing means full receipt, if and only if min(windowsize, number of blocks) <= 32769; any number of blocks and wraps. |
| LinkTheorems.LostFileReportedSent | src/bin/server.rs:2384-2400 | For a file of more than 32769 blocks in one window there is a run in which the sender completes and nothing was received. |
| LinkTheorems.WindowedCompletion | src/bin/server.rs:1663-1686 | When the windowed sender completes within the bound, the receiver holds exactly the file and is finished; the single block of an empty file is sent once and only awaited. |
| LinkTheorems.OutOfOrderExactly | src/bin/server.rs:1997-2010 | The "Out of order block" abort is unreachable if and only if no window can hold two blocks. |
| LinkTheorems.UploadEndToEnd | src/bin/client.rs:404-482 | `put` against the server for any length and any number of wraps: the two stay within one block, the server never aborts for order, success means the server received the file, and it finishes if and only if the length is no multiple of the block size. |
| Completion.CompletesExactly | src/bin/server.rs:2021-2044 | Within the bound, some run of either sender completes, for a file of any length, if and only if the file keeps the server's size limit: the results about completion are about states that are reached. |
| Completion.PutNeverStored | src/bin/client.rs:409-415 | For every length that is a multiple of the block size a run in which `put` succeeds, with all of the data received and the server still waiting; and in no run does the server finish. |
| UploadStored.RunIsReceive | src/bin/server.rs:1950-2091 | In every run the receiver is the receive loop over the packets and timeouts it handled. |
| UploadStored.PutStores | src/bin/server.rs:2131-2217 | In any run of `put` what is to be written is nothing or the uploaded data, decoded if asked; after success it is that data off the multiples of the block size and nothing on them. |
| UploadStored.StoredUnchanged | src/bin/client.rs:409-421 | What `put` uploads in NETASCII mode is stored unchanged if and only if it has no CR LF or CR NUL pair. |
| ClientGet.Downloader.Handle | src/bin/client.rs:212-326 | One packet changes expected block, last ACK, buffer and file, and sends an ACK, exactly as the client's rule says. |
| ClientGet.Downloader.WriteBuffered | src/bin/client.rs:271-280 | The drain loop writes and removes every buffered block that is now due. |
| ClientGet.ReceiveAll | src/bin/client.rs:212-326 | The loop of `get` over any events leaves the variables and sends the ACKs that its rule, event by event, says, and stops once it has succeeded or failed. |
| ClientGet.WithoutNewBlock | src/bin/client.rs:213-324 | In any history: a number below the expected one is answered with the last ACK sent, an OACK with ACK 0, a packet from elsewhere with nothing; a timeout, a malformed packet or an ERROR fails the download for good. |
| ClientGet.LastAckSent | src/bin/client.rs:282-299 | What the client remembers as acknowledged is always the last ACK it has sent. |
| DownloadArrival.DueArrival | src/bin/client.rs:266-311 | The block that is due is written with all that follow it in the buffer, up to the first gap and no further; the last block written is acknowledged if and only if a window was written since the last ACK or the block that came was the final one, and in that case `get` has succeeded. |
| DownloadArrival.EarlyArrival | src/bin/client.rs:257-264 | A block ahead of its turn is set aside, however far ahead, and not acknowledged. |
| DownloadArrival.OldArrival | src/bin/client.rs:250-256 | A block already written changes nothing and is answered with the last ACK. |
| DownloadArrival.DownloadCompletesExactly | src/bin/client.rs:282-311 | Up to 65535 blocks, some run completes at the server, and at both ends, if and only if the client's window does not keep the server in its first window for good. |
| Download.DrainMeaning | src/bin/client.rs:271-280 | Draining a buffer of true blocks extends the file by the blocks that follow it and leaves none that is due. |
| Download.DeliverKeeps | src/bin/client.rs:243-312 | Any block ever sent, delivered at any later time, keeps the invariant of the download. |
| Download.RunSafe | src/bin/client.rs:202-329 | As long as no index above 65535 can be sent, for any two window sizes: the local file is always the first k blocks, the buffer holds only true future blocks (or late copies once a file of 65535 blocks is complete), every ACK names a written block, and either end finishing means the file is complete. |
| DownloadTheorems.DownloadSafety | src/bin/client.rs:250-264 | For any two window sizes, that holds in all reachable states if and only if the file has at most 65535 blocks or the client's window is larger than the server's. |
| DownloadTheorems.StaleBlockBuffered | src/bin/client.rs:258-264 | Otherwise there is a run in which, with block 65536 due, a late copy of block 1 is buffered as one to come. |
| DownloadTheorems.FirstBlockAgain | src/bin/client.rs:258-280 | From 65536 blocks on and for any client window up to the server's, there is a run in which the first block follows block 65536 in the local file. |
| DownloadTheorems.FirstBlockMisplaced | src/bin/client.rs:271-280 | That is a beginning of the served file if and only if the file has the same block there. |
| DownloadTheorems.StaleBlockWritten | src/bin/client.rs:250-268 | With 65536 blocks, or more and equal windows, there is a run in which the local file grows longer than the served one. |
| DownloadTheorems.DownloadedFile | src/bin/client.rs:282-312 | For a file cut by the server, any two window sizes and up to 65535 blocks: the local file is a prefix of it, and the whole of it once `get` succeeds or the server completes. |
| FinalBlock.EarlyFinalBlock | src/bin/client.rs:258-311 | Once the final block has been buffered, no continuation makes `get` succeed; the file is right whenever all of it is written. |
| FinalBlock.CompleteMeansSuccess | src/bin/client.rs:268-311 | Every run that writes the whole file has `get` succeed if and only if the number of blocks before the last is a multiple of the server's window (or the transfer cannot get past the first window). |
| FinalBlock.LastTwoSwapped | src/bin/client.rs:268-280 | In every other case there is a run in which the whole file is written and `get` goes on waiting. |
| Netascii.EncodeLoop | src/lib.rs:156-172 | The library's loop computes the byte-wise encoding. |
| Netascii.DecodeLoop | src/bin/server.rs:2226-2255 | The decoder's loop, which takes one or two bytes at a time, computes the decoding. |
| Netascii.DecodeEncode | src/lib.rs:156-172 | Decoding undoes the library's encoding on every byte string. |
| Netascii.EncodeDecodeExactly | src/bin/server.rs:2226-2255 | Encoding undoes decoding if and only if every CR is followed by LF or NUL and every LF follows a CR. |
| Netascii.EncodeIsCanonical | src/lib.rs:156-172 | Whatever is encoded has that shape. |
| Netascii.EncodePieces | src/lib.rs:158-170 | LF becomes 13 10, CR becomes 13 0, every other byte stands for itself. |
| Netascii.DecodePieces | src/bin/server.rs:2230-2251 | 13 10 becomes LF, 13 0 becomes CR, every byte alone stands for itself. |
| Netascii.DecodeConcat | src/bin/server.rs:2226-2255 | Text can be decoded in parts wherever that cuts no such pair. |
| Netascii.DecodeIdentity | src/bin/server.rs:2226-2255 | Decoding leaves a byte string alone if and only if it has no CR LF or CR NUL pair. |
| KeepingEncoder.EncodeChunk | src/main.rs:505-566 | The scan of one chunk, with its look-behind into the result and look-ahead into the data, extends the output for the input before it to the output for the input up to its end. |
| KeepingEncoder.EncodeInChunks | src/main.rs:489-569 | For every input, chunk size and alignment, the chunked encoder equals the position-by-position one: LF after CR and CR before LF kept, a bare LF to CR LF, a bare CR to CR NUL. |
| KeepingEncoder.KeepingIsEncodeOfCollapse | src/main.rs:489-569 | It is the library's encoding of the input with its CR LF pairs made single LFs. |
| KeepingEncoder.KeptExactly | src/main.rs:510-560 | It leaves a text alone if and only if every CR is followed by LF and every LF follows a CR. |
| KeepingEncoder.DecodeKeeping | src/bin/server.rs:2226-2255 | Decoding it gives the input with every CR LF collapsed to LF, and the input itself if and only if that has no such pair. |
| KeepingEncoder.KeepingConcat | src/main.rs:1911-1914 | Encoding two pieces apart is encoding them together unless a pair straddles them, and then it is two bytes longer. |
| KeepingEncoder.PiecewiseEncoding | src/main.rs:1858-1914 | What the streaming sender encodes read by read equals the encoding of the whole file if and only if no pair straddles two reads; decoded, it is the pieces with their own pairs collapsed. |
| SpilloverCutter.Cutter.ReadMore | src/main.rs:1879-1914 | Called only with less than one block in the spillover; a read and its encoding keep it below three blocks and lose no byte of what is to be sent. |
| SpilloverCutter.Cutter.BuildWindow | src/main.rs:1864-1946 | A window takes the next blocks of the encoded pieces under their numbers, keeps the spillover below two blocks, is full unless the file ended, and then leaves at most one empty last block. |
| SpilloverCutter.Cutter.DrainAtEof | src/main.rs:1883-1913 | At the end of file what is left is cut into the next blocks as far as the window has room, and into all of them when less than a block was left. |
| SpilloverCutter.SendNetascii | src/main.rs:1814-2048 | For every sequence of read sizes and of replies, the rounds on the wire and the outcome are those of the specified transfer of the encoded pieces cut into full blocks and one short one. |
| SpilloverCutter.TransferMeaning | src/main.rs:1858-2048 | That transfer sends the windows in order, each one to five times until its ACK came, and after all of them the empty last block of an exact multiple; together they are the whole partition under its numbers. |
| SpilloverCutter.LostEmptyBlock | src/main.rs:2033-2046 | For every exact multiple there are replies with which all windows pass, the empty last block is sent once, and the ACK of the block before it, arriving again, makes the transfer a success. |
| SpilloverCutter.SuccessMeansAcked | src/main.rs:1858-2048 | For a file that is not empty, success means that the last reply was the ACK of the last block, whatever the replies, if and only if the last block is not empty. |
| SpilloverCutter.SuccessExactly | src/main.rs:1948-1960 | Success of an empty file, of the windows, and of an empty last block, exactly: the last one if and only if its one wait yields its own ACK or that of a block less than half a turn before. |
| UploadOutcome.TempDiffers | src/bin/server.rs:2268-2269 | The temporary file differs from the target if and only if that has a file name (the empty path, . and .. have none). |
| UploadOutcome.StemMeaning | src/bin/server.rs:2268-2269 | The stem that the temporary name keeps is the name up to its last dot, unless that is its first character. |
| UploadOutcome.TempCollides | src/bin/server.rs:2268-2269 | Two files share their temporary file if and only if they have the same stem. |
| UploadOutcome.FileStore.WriteFileSafely | src/bin/server.rs:2262-2281 | At whatever point writing stops, the target has its old content or all of the new one, and no third file changes. |
| UploadOutcome.WrittenExactly | src/bin/server.rs:1950-2138 | Something is to be written if and only if the accepted packets, numbered consecutively from 1, ended with a short block; it is those payloads in order, decoded if asked, and never above a non-zero size limit. |
| UploadOutcome.AbortedIsNotWritten | src/bin/server.rs:1963-2122 | An upload that was ended so is never written, whatever arrives afterwards. |
| UploadOutcome.HandleWriteRequest | src/bin/server.rs:1950-2217 | After any events and any fault the target is untouched or holds exactly that content; the ACKs sent are those of the receiver's rule. |
| Multicast.EveryRunIsConsistent | src/multicast.rs:150-331 | After every sequence of joins, ACKs, queued blocks and removals, these in any order and with any elections: a master exists if and only if there are members and is one of them, only it may be flagged, states are filed under their own address and the limit holds. |
| Multicast.ReachableIsConsistent | src/multicast.rs:113-331 | So it is in every state that a new session can come to. |
| Multicast.RemovalMeaning | src/multicast.rs:263-331 | Removing clients one by one, with an election whenever the master goes, comes to this: exactly the others stay with all they acknowledged, the master changes only if it was removed, and a new one is flagged. |
| Multicast.AcksOutlast | src/multicast.rs:192-217 | While nobody joins, a number acknowledged by all stays so as long as there are members. |
| Multicast.WithoutAcks | src/multicast.rs:150-217 | In a session on which record_ack is never called no number is ever acknowledged by all. |
| Multicast.RejoiningMaster | src/multicast.rs:164-173 | An accepted join keeps the master flagged if and only if it is not the master that joins. |
| Multicast.JoinMeaning | src/multicast.rs:150-183 | A join is refused if and only if the session is full; otherwise the newcomer has no ACKs and is master exactly if the session was empty, and nobody else changes. |
| Multicast.AckMeaning | src/multicast.rs:192-200 | An ACK adds one number to one member and says when it was heard; nothing else changes. |
| Multicast.TimedOutExactly | src/multicast.rs:263-275 | A member last heard from at t is timed out if and only if more than the timeout has passed since, whatever the others do meanwhile. |
| Multicast.MulticastSession.AddClient | src/multicast.rs:150-183 | A join changes the session as specified, or is refused at the limit. |
| Multicast.MulticastSession.MarkAcked | src/multicast.rs:192-200 | An ACK of a member is added to what that member has acknowledged; one of a stranger is ignored. |
| Multicast.MulticastSession.TakeRetransmitQueue | src/multicast.rs:250-255 | Returns the queued block numbers and leaves the queue empty, with everything else unchanged. |
| Multicast.MulticastSession.ElectNewMaster | src/multicast.rs:305-331 | The flag of the old master is cleared if it is still there, and whichever member the map yields first becomes the flagged master. |
| Multicast.MulticastSession.RemoveInactiveClients | src/multicast.rs:263-299 | In any order of the removals and for any elections, exactly the members not timed out stay with all they acknowledged, the master changes only if it was timed out, and the session stays consistent. |
| Multicast.MulticastSession.AllClientsAcked | src/multicast.rs:208-231 | True if and only if there are members and none of them is missing the number. |
| MulticastTransfer.SendPass | src/multicast.rs:591-656 | The pass sends the blocks of the file in order under their numbers and queues exactly the numbers that are not acknowledged by all in the session when their wait ends. |
| MulticastTransfer.QueuedMeaning | src/multicast.rs:619-641 | A number is queued if and only if, for some block that carries it, the session did not have that number acknowledged by all when the wait ended. |
| MulticastTransfer.AckedIsHeld | src/multicast.rs:208-217 | In a transfer of n blocks, a block whose number is acknowledged by all is held by all, in every state a session can come to, if and only if n <= 65536. |
| MulticastTransfer.LackedIsQueued | src/multicast.rs:619-641 | So up to 65536 blocks every block that some member lacks when its wait ends is queued. |
| MulticastTransfer.ResendOne | src/multicast.rs:787-801 | Cutting by offset resends block n of the file under number n, nothing if the file has no block n, and stops at number 0 where overflow is checked (elsewhere 0 stands for block 65536). |
| MulticastTransfer.ResendMeaning | src/multicast.rs:787-801 | What is resent under the number of block i is the block of the first turn with the same number. |
| MulticastTransfer.FidelityChecked | src/multicast.rs:787-801 | With overflow checks, every block is resent as first sent if and only if there are at most 65535. |
| MulticastTransfer.FidelityUnchecked | src/multicast.rs:787-801 | Without them, if and only if each block equals the one with the same number among the first 65536. |
| MulticastTransfer.ResendRound | src/multicast.rs:777-810 | A round over the taken queue resends its entries in order, skipping those beyond the file. |
| MulticastTransfer.RoundRepeatsPass | src/multicast.rs:748-810 | Up to 65535 blocks, a round over any part of the queue in any order resends for each entry the packet the pass sent, and never stops early. |
| ProxyProtocol.ReadV1 | src/web/proxy_protocol.rs:119-153 | The header returned, and on success the position left in the stream, are a function of the stream alone: they do not depend on how many bytes are in sight when the reader peeks. Lines of up to 108 bytes are accepted on both paths. |
| ProxyProtocol.ReadByteByByte | src/web/proxy_protocol.rs:137-151 | The byte loop returns the same line and stops just behind its newline. |
| ProxyProtocol.LineExactly | src/web/proxy_protocol.rs:119-153 | A line is accepted if and only if it begins what is left, its one newline ends it, and it has at most 108 bytes in all. |
| ProxyProtocol.ReadV2 | src/web/proxy_protocol.rs:41-105 | The address returned is a function of the stream alone; on every branch the stream is left just behind the announced length, or at its end. |
| ProxyProtocol.SourceRoundTrip | src/web/proxy_protocol.rs:41-105 | From what a proxy writes, for IPv4 or IPv6 and with any extensions, the reader gets the client's address and port if and only if the command is PROXY and the length at most 512. |
| ProxyProtocol.Discard | src/web/proxy_protocol.rs:107-117 | Discarding in pieces of 256 consumes exactly the length asked for, or what is left. |
| Request.WriteRrq | src/bin/client.rs:174-194 | The request is the opcode, name, mode and exactly the options that differ from the defaults. |
| Request.PrintParse | src/bin/client.rs:182-191 | Printing a number in decimal and parsing it again is the identity for every usize. |
| Request.ParseExactly | src/bin/server.rs:838 | A text parses as n if and only if it is n in decimal, after zeros and perhaps a plus sign, and n fits 64 bits. |
| Request.ParseField | src/bin/server.rs:2507-2542 | A terminated text in front of other bytes is read back exactly when it has at most 254 bytes. |
| Request.ParseOptionsLoop | src/bin/server.rs:808-825 | The option loop collects name and value pairs, names in lower case, later ones replacing earlier ones, and stops at the first text it cannot read. |
| Request.ModeExactly | src/lib.rs:146-153 | A mode is recognised by its name in letters of either case and by nothing else. |
| Request.OptionInAnyCase | src/bin/server.rs:808-825 | An option is recognised by its name in letters of either case. |
| Request.UnreadableOption | src/bin/server.rs:809-817 | A text that cannot be read ends the options, and a name without a value with it. |
| Request.ParsersAgree | src/worker_pool.rs:969-983 | The pool's byte-by-byte parser and the server's agree on every packet but those over 255 bytes with no terminator in the first 255. |
| Request.PoolStringLoop | src/worker_pool.rs:969-983 | The pool's loop yields the text before the first terminator and the bytes behind it. |
| Request.Negotiate | src/bin/server.rs:829-938 | In whatever order the options are met, each gets the requested value if that is a number in its range and its default otherwise, and the OACK names exactly those accepted, with their values. |
| Request.RequestRoundTrip | src/bin/server.rs:780-825 | The server reads the request `get` writes if and only if the file name has at most 254 bytes, and then gets the same name, mode and options. |
| Request.NegotiationAgrees | src/bin/client.rs:181-191 | Both ends then use the same block size if and only if it is in 8..65464, and the same window if and only if it is in 2..65535 or equals the server's default. |
| Request.Ranges | src/bin/server.rs:829-938 | Each option that was asked for with a number is accepted, and named with that number, if and only if it is in 8..65464, 1..255 or 1..65535; tsize is answered with 0; one not asked for keeps its default and is not named. |
| Request.BuildOack | src/bin/server.rs:2484-2496 | The OACK lists the accepted options in the order the map yields them. |
| Request.OackRoundTrip | src/bin/server.rs:2484-2496 | Read with the option rules it gives back exactly the negotiated options, whatever that order. |
| WorkerPool.RoundRobinFairness | src/worker_pool.rs:347-351 | Any two workers are offered numbers of packets that differ by at most one until the counter has wrapped at 2^64, and one packet later if and only if the number of workers divides 2^64. |
| WorkerPool.DealtShare | src/worker_pool.rs:347-351 | The packets of a batch dealt to a worker are as many as its share grows by. |
| WorkerPool.Dispatcher.Dispatch | src/worker_pool.rs:391-431 | After a batch, received equals dropped plus enqueued, each queue holds what it held and then, in order, what was dealt to its worker, cut off at its capacity. |
| WorkerPool.SendBatches | src/worker_pool.rs:533-572 | Batches concatenate to the channel, are never empty, never above the configured size (one packet if that is 0 or 1), and take all that is ready up to that size. |

## Left out

- Sockets, timers, tasks, recvmmsg and sendmmsg, socket options: replaced by replies and events that may be anything. An error on sending, which ends a transfer, does not occur in the model.
- Liveness: the retry cap and the retransmission on duplicate ACKs allow runs that never complete, so only safety and bounds are proved.
- The handshake of an upload in `Link`: a run begins with the receiver's ACK of block 0 on its way and no OACK; `get` does meet OACKs in `Download`.
- That the answers of an upload reach `put`: it connects its socket to the listening port (src/bin/client.rs:350), while the server answers a write request from a new one (src/bin/server.rs:1893-1899), and a connected socket does not see packets from another port. `Link`, `Completion` and `UploadStored` assume that they arrive.
- Packets from another transfer identifier are ignored events for `get`; how the first packet fixes the identifier is not modelled. Nor is the buffer of `get`, which cuts off packets longer than its own block size, or the panic of `put` on a reply under two bytes.
- The NETASCII mode of the streaming sender of `src/bin/server.rs`, whose payloads are not bounded by the block size; the cutter of `src/main.rs` carries the NETASCII results.
- The octet branch of the cutter in `src/main.rs` and its buffered sender. They end an exact multiple with an empty block sent once, as the NETASCII branch does and the senders of `src/bin/server.rs` do not.
- The comparison of a received size with `tsize`, which only logs; filling in `tsize` before the OACK is sent; the multicast option.
- Two uploads that share a temporary name at the same time. File names are texts without directories, and creating the directory may only fail or succeed.
- UTF-8 is a parameter that accepts ASCII; lower-casing is that of ASCII letters.
- The write request and its option loop, which repeat those of the read request; error packets; access checks on paths and patterns.
- The fields of a PROXY version 1 line once it is read.
- Multicast: the server's table of sessions, its own OACK, the limit of three retransmission rounds and the waits between packets. Clocks are parameters, and addresses are numbers.
- The hash strategy of the worker pool; "least loaded" is round robin in the source. What a worker does with a packet, beyond parsing its texts, is a stub there.
- Audit logs, statistics, configuration, command line, web interface, TLS, certificates and dashboards.
