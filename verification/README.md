# A Dafny model of cluster-glue

cluster-glue is the layer that cluster managers use to talk between processes: channels that carry messages over a
byte stream, a message type with two recursive wire formats, and a set of supporting algorithms. This project models
that layer and proves what it is relied on for. `dafny verify dfyconfig.toml` checks all of it.

**Channels** (`IpcFrame`, `BufPool`, `PoolLoop`, `Receiver`, `Sender`, `Stream`, `BufPoolCode`, `Socket`, `Channel`,
`Endpoints`, `Logd`). A sender puts a header in front of each message and resumes partial writes where they stopped. A
receiver takes chunks of any size into reference-counted buffer pools, cuts complete frames out of them, and moves an
unfinished frame to a new pool when the old one is too small. `Sender`, `Receiver` and `Stream` are step systems whose
runs are arbitrary interleavings of sends, partial or refused writes, reads, takes and releases; the theorems are
about every run. `Channel` is the code itself, with its loops and fields updated in place, and every execution of it
is proved to be a run of the step systems and to have made the calls it should; `Socket` is the operating system's
side, which keeps every call and its answer. `Endpoints` joins two such channels. `BufPoolCode` is the array code of
the pools, proved against the pool functions that `Channel` calls. `Logd` is the log daemon's use of a channel's water
marks.

**Messages** (`CText`, `MsgText`, `MsgTextProof`, `MsgTextLines`, `MsgTextExact`, `MsgTextCode`, `MsgTextRoom`,
`MsgTextStore`, `Netstring`, `NetstringProof`, `NetstringCode`, `WireForm`, `Base64`, `HaMsg`). A message is a
sequence of named values, and a value may be a message. Printer and parser exist as netstrings and as `name=value`
text; for both it is proved, at every nesting depth, exactly which messages come back unchanged, and for any octets
exactly which are read as a message (`WireForm`). `HaMsg` is the object with its five parallel arrays.

**Algorithms** (`Expect`, `MallocIndex`, `Malloc`, `MallocRun`, `Md5`, `Trigger`, `InetPton`, `LongClock`). The token
matcher of the stonith plugins, the bucket allocator, MD5 and HMAC streaming, the one-child-at-a-time trigger, the
IPv4 and IPv6 address parsers, and the clock that extends a wrapping tick counter.

`Bytes` and `Bits` hold what several of these share. A `char` is an octet 0 to 255, strings are sequences of octets,
and a C string ends at its first NUL. What the operating system answers (send, recv, poll, fork, malloc) is a
parameter, quantified over by every theorem.

Where the code does not do what one would expect, the model follows the code and says exactly when it does:

- a message whose body starts more than `msgpad` octets into its buffer is sent shifted (`Sender.GapCondition`);
- the length in a header is signed: at -8 the loop that cuts out messages never ends, below that it leaves the pool,
  and above it queues a message that lies in no pool (`PoolLoop.SoundExactly`, `PoolLoop.EndlessAtMinusEight`);
- for lengths close to 2^31 the sums of sizes wrap around; the copy to the new pool still never leaves it, but for
  some of these lengths it is refused and the unfinished frame is lost (`Receiver.NeverSpills`,
  `Receiver.PreparePending`, `Receiver.DroppedRun`);
- `socket_send` tests for a connection only once, so a connection lost in its own `resume_io` still lets the message
  into the queue, exactly if there is room, and no octet of it is ever sent (`Sender.AcceptedAfterLoss`,
  `Channel.Channel.SocketSend`);
- the text printer does not count the NUL behind what it writes: it clears the octet behind its buffer exactly if a
  tag, '=', string, list element, newline, head or end line ends right where the buffer does, or the buffer has no
  octet at all, and the call then fails (`MsgTextStore.Msg2StringBuf`, `MsgTextRoom.MeetingFails`);
- a name with a newline is read more than once from its text, so that its message comes back only if the name also
  holds the end of the message and the fields behind it are those read again (`MsgTextExact.BackExactly`,
  `MsgTextExact.NewlineNames`);
- above 2^24 octets the allocator's table looks at three octets of the size only, and some requests are then given a
  block of a bucket that is too small, and its guard lands behind it (`MallocIndex.ServesExactly`,
  `Malloc.Allocator.Malloc`);
- a failed `realloc` of a bucket block frees the old block all the same (`Malloc.Allocator.Realloc`);
- a fork that fails forgets the requests behind it (`Trigger.LostExactlyWhenForkFails`, `Trigger.ShortestLoss`);
- a wrap of the tick counter between readings more than 2^32 less MINJUMP apart goes unnoticed
  (`LongClock.ExactExactly`);
- `MD5` and `HMAC` cut the length of their data to 32 bits (`Md5.Whole`, `Md5.Hmac`).

## Model

| member | source | states |
|---|---|---|
| IpcFrame.HeadReads | include/clplumbing/ipc.h:717-736 | The length and the magic number stored in a header are the ones read back from it. |
| IpcFrame.HeadOctets | include/clplumbing/ipc.h:717-736 | A header is the length and the magic number 0xabcd, four octets each, low octet first, for every length. |
| IpcFrame.FirstHead | lib/clplumbing/ocf_ipc.c:440-467 | A prefix of a stream of frames that shows a whole header shows the header of the first message. |
| IpcFrame.FirstFrame | lib/clplumbing/ocf_ipc.c:469-491 | A prefix that shows the whole first frame shows its body unchanged and goes on with the frames of the rest. |
| BufPool.New | lib/clplumbing/ocf_ipc.c:286-328 | A pool asked for any legal message size has room for that message and for two headers, one reference, and nothing in it; above MAXMSG there is none, until the sum of sizes wraps around in an int and gives the smallest pool. |
| BufPool.Deposit | lib/clplumbing/ipcsocket.c:1331-1339 | What recv(2) puts into the pool follows what was pending, and nothing before the cursor changes. |
| BufPool.Consume | lib/clplumbing/ocf_ipc.c:436-493 | Up to the first header with a negative length, if there is one, the consuming loop only moves consumepos and the reference count, by one reference a message, and every message lies behind consumepos. |
| BufPool.ConsumeFrames | lib/clplumbing/ocf_ipc.c:436-493 | Fed by a well-formed peer, the loop yields exactly the messages whose frames are complete, with their octets and in order, and keeps the rest as an unfinished frame. |
| PoolLoop.SoundExactly | lib/clplumbing/ocf_ipc.c:436-493 | For any octets in the pool: the loop, with its unsigned sums, ends, never leaves the pool and queues only messages that lie in it, if and only if it meets no header whose length has the sign bit set. |
| PoolLoop.NegativeTurn | lib/clplumbing/ocf_ipc.c:455-492 | A header with a negative length passes every test of the loop, and its message lies in no pool. |
| PoolLoop.EndlessAtMinusEight | lib/clplumbing/ocf_ipc.c:455-492 | At a length of -8 the loop stays where it is after any number of turns and adds a reference each time. |
| PoolLoop.MinusEightExists | include/clplumbing/ipc.h:717-736 | Eight octets make such a header. |
| PoolLoop.LeavesBelowMinusEight | lib/clplumbing/ocf_ipc.c:489-492 | Below -8 the next consumepos is outside the pool. |
| Receiver.HandoffCopies | lib/clplumbing/ocf_ipc.c:531-568 | Whenever a new pool can be had for the length announced, the unfinished frame fits and is copied whole. |
| Receiver.PrepareInv | lib/clplumbing/ipcsocket.c:1290-1315 | Making or changing the pool keeps every invariant of the receiver, for any octets received. |
| Receiver.CopyStaysInside | lib/clplumbing/ocf_ipc.c:531-568 | The copy of an unfinished frame is refused or stays inside the new pool, also for lengths whose sums of sizes wrap around. |
| Receiver.ConsumeOwn | lib/clplumbing/ocf_ipc.c:436-493 | What makes that so: a pool above the usual size was made for the message at its start, and stays that message's own until nothing but a header can follow. |
| Receiver.NeverSpills | lib/clplumbing/ipcsocket.c:1302-1315 | In every state of every run, for any peer, the copy to a new pool never leaves that pool. |
| Receiver.PreparePending | lib/clplumbing/ipcsocket.c:1302-1315 | Changing pools neither loses nor alters an octet of the unfinished frame if and only if the announced length is not in the narrow range where the size of the new pool wraps around and the size of the frame does not. |
| Receiver.DroppedRun | lib/clplumbing/ocf_ipc.c:531-568 | For every length in that range there is a run that loses the frame: a header alone, and one more read pass. |
| Receiver.DeliverInv | lib/clplumbing/ocf_ipc.c:417-496 | Turning received octets into messages keeps the reference counts exact and every unfinished message intact, as long as no header met has a negative length. |
| Receiver.TakeInv | lib/clplumbing/ipcsocket.c:1075-1100 | Taking a message off the receive queue keeps the receiver's invariant. |
| Receiver.DoneInv | lib/clplumbing/ocf_ipc.c:361-375 | Giving a message back drops one reference, frees the pool exactly when it was the last, and leaves all other messages intact. |
| Receiver.Step | lib/clplumbing/ipcsocket.c:1272-1421 | Every step, short of a read that meets a negative length, keeps the receiver's invariant. |
| Receiver.Run | lib/clplumbing/ocf_ipc.c:570-593 | In every state of every run, whatever the peer sends, up to a header with a negative length: each pool's count is one for being current plus its unfinished messages, it is freed exactly at zero, frees are counted, no unfinished message is in a freed pool, and each still shows the octets it arrived with. |
| Receiver.AlwaysRoom | lib/clplumbing/ipcsocket.c:1302-1339 | With a well-formed peer a pool can always be had, it has room for at least one octet, and the unfinished frame fits, so recv(2) returns zero only when the peer has closed. |
| Receiver.HonestReads | lib/clplumbing/ipcsocket.c:1302-1398 | Whatever part of a well-formed peer's octets arrives can be read: a pool can be had and no length met is negative. |
| Receiver.DeliverFed | lib/clplumbing/ocf_ipc.c:417-496 | The messages reassembled from any chunk are the next ones of the peer's sequence. |
| Receiver.StepFed | lib/clplumbing/ipcsocket.c:1272-1421 | Every step of the receiver keeps it in agreement with what the peer has sent. |
| Sender.Queued | lib/clplumbing/ipcsocket.c:1018-1044 | What socket_send queues has room for a header in front of the body and the same length. |
| Sender.Post | lib/clplumbing/ipcsocket.c:986-1060 | A message is accepted if and only if it is at most MAXMSG long and the queue has room, whatever the status of the connection; accepted, it joins the messages accepted, and otherwise nothing changes. |
| Sender.GapCondition | lib/clplumbing/ipcsocket.c:1483-1495 | The body goes out unchanged, whatever the memory holds, if and only if the gap in front of it is at most msgpad. |
| Sender.PostInv | lib/clplumbing/ipcsocket.c:986-1060 | Sending, accepted or not, keeps accounting, queue bound and hysteresis. |
| Sender.WriteInv | lib/clplumbing/ipcsocket.c:1479-1572 | A partial, whole or refused write keeps them too, and takes back nothing already emitted. |
| Sender.StepKeeps | lib/clplumbing/ipcsocket.c:965-1061 | Each step keeps the invariant, moves the status only towards disconnection, keeps marks and queue limit, extends what was emitted, accepts at most the message sent, raises the pause flag only at the high mark and lowers it only on the way down through the low mark. |
| Sender.Hysteretic | lib/clplumbing/ipcsocket.c:944-963 | Until disconnected, every step leaves the pause flag up from the high mark on, down up to the low mark, and in between as it was. |
| Sender.Run | lib/clplumbing/ipcsocket.c:1423-1580 | In every state of every run: the octets emitted are the whole frames of the completed messages and the head frame up to bytes_remaining, so nothing is repeated or skipped; current_qlen is the queue's length and at most max_qlen; until disconnected, paused only above the low mark and running only below the high mark. |
| Sender.EmittedIsPrefix | lib/clplumbing/ipcsocket.c:1483-1530 | What is on the wire is always an initial part of the frames of the messages accepted. |
| Sender.SilentOnceLost | lib/clplumbing/ipcsocket.c:1433-1435 | Once the status is no longer CONNECT, no later run sends another octet. |
| Sender.AcceptedAfterLoss | lib/clplumbing/ipcsocket.c:965-1061 | From every connected state with room in the queue, losing the connection and then sending is a run in which the message is accepted, and no run that follows sends an octet of it. |
| Stream.SenderStepInv | lib/clplumbing/ipcsocket.c:1423-1580 | A step of the sender keeps the two ends and the wire in agreement. |
| Stream.ReceiverStepInv | lib/clplumbing/ipcsocket.c:1272-1421 | A step of the receiver, with any part of what is on the wire, does too. |
| Stream.Run | lib/clplumbing/ipcsocket.c:965-1101 | Every interleaving of sends, partial or refused writes, reads of any size, takes and releases keeps that agreement. |
| Stream.StartInv | lib/clplumbing/ipcsocket.c:893-926 | A freshly connected pair starts in agreement. |
| Stream.AgreementShows | lib/clplumbing/ocf_ipc.c:417-568 | Wherever the two ends agree, the messages reassembled are a prefix of what went on the wire, the ones still held show their octets, and recv(2) has room. |
| Stream.DeliveredInOrder | lib/clplumbing/ipcsocket.c:965-1061 | From a fresh connection on, after any run in which bodies start at most msgpad octets into their buffers: the messages reassembled are, octet for octet and in order, a prefix of those accepted for sending, across pool changes and up to MAXMSG; those not yet given back still show these octets; and recv(2) has room. |
| Stream.NothingLost | lib/clplumbing/ipcsocket.c:1423-1580 | Once the send queue and the wire are empty, every message accepted has been reassembled. |
| BufPoolCode.NewPool | lib/clplumbing/ocf_ipc.c:286-328 | The allocated pool is the one of the specification, or null exactly for sizes no message can have. |
| BufPoolCode.BufferPool.Fill | lib/clplumbing/ipcsocket.c:1331-1339 | recv(2) stores from currpos on and nowhere else. |
| BufPoolCode.BufferPool.Update | lib/clplumbing/ocf_ipc.c:417-496 | The loop over the array with its moving cursors has the result of the specification: same messages, same pool, same reason to stop, up to a negative length. |
| BufPoolCode.BufferPool.IsFull | lib/clplumbing/ocf_ipc.c:498-529 | The decision to change pools, and the room needed, are those of the specification. |
| BufPoolCode.BufferPool.Unref | lib/clplumbing/ocf_ipc.c:581-593 | One reference less; at zero the pool is wiped and freed. |
| BufPoolCode.CopyPartial | lib/clplumbing/ocf_ipc.c:531-568 | The copy between two arrays has the effect of the specification on both pools, with the sum of sizes as an int has it, and refuses when it does. |
| Channel.Channel.constructor | lib/clplumbing/ipcsocket.c:893-926 | A channel just connected, on a socket not yet used, is at the beginning of a run. |
| Channel.Channel.CheckFlowControl | lib/clplumbing/ipcsocket.c:944-963 | The callbacks fire as the marks demand, which Sender.Hysteretic says in full, and nothing else changes. |
| Channel.Channel.WriteHead | lib/clplumbing/ipcsocket.c:1447-1572 | Sending the head frame from where it was left, in any number of send(2) calls, some of which may take nothing, is a sequence of write steps; each call asks for all that is left, what it takes is what is emitted, and the calls end exactly with the one that fails, takes nothing or takes the rest; the message leaves the queue exactly if its frame is all out. |
| Channel.Channel.ResumeIoWrite | lib/clplumbing/ipcsocket.c:1423-1580 | Whatever send(2) and poll(2) answer, the write loop is a run of the sender and ends; the octets emitted are those send(2) took. While the channel stays connected it ends well, with an empty queue or after a send(2) that would block; EPIPE gives a broken result and a status no longer CONNECT, any other error a failure and DISCONNECT. It counts exactly the messages that left the queue, reads only after EPIPE, and does nothing unless connected. |
| Channel.WritePassOver | lib/clplumbing/ipcsocket.c:1423-1580 | A write pass that leaves the channel connected ends with nothing to send or with a send(2) that would block. |
| Channel.Channel.PreparePool | lib/clplumbing/ipcsocket.c:1290-1315 | Making or changing the pool has the effect of the specification, and fails exactly when the specification has no pool for the length announced. |
| Channel.Channel.BufpoolUpdate | lib/clplumbing/ipcsocket.c:1387-1398 | New messages join the end of the receive queue, those before them stay. |
| Channel.Channel.Accept | lib/clplumbing/ipcsocket.c:1384-1398 | What was received becomes messages as a read step of the receiver, and nothing else changes; a bad magic number disconnects and fails; the channel goes astray exactly if a header met has a negative length. |
| Channel.Channel.CheckPoll | lib/clplumbing/ipcsocket.c:1103-1138 | For every answer of poll(2), the status and result that follow: a hang-up leaves CONNECT, one without input while input is awaited disconnects and is a broken result, an error disconnects if the descriptor is closed and else fails, and nothing else changes anything. |
| Channel.Channel.CheckDiscPending | lib/clplumbing/ipcsocket.c:850-891 | With messages still queued, or disconnected, nothing changes; otherwise poll(2) is asked, a hang-up without input or a bad descriptor disconnects, input is read by a read pass that calls recv(2) wherever it can, the send queue is untouched, and the recursion through the read pass ends. |
| Channel.Channel.NoOctets | lib/clplumbing/ipcsocket.c:1352-1383 | For every answer of recv(2) without octets, the status and result that follow: the end of the stream disconnects once nothing is queued and else leaves DISC_PENDING; EAGAIN turns DISC_PENDING into DISCONNECT and else changes nothing; a reset leaves CONNECT and is looked into; any other error disconnects. |
| Channel.Channel.ReadOnce | lib/clplumbing/ipcsocket.c:1319-1398 | recv(2) is called exactly if the receive queue has room, with all the room the pool has; what it gives goes to the receiver as a step, and what it refuses is handled, whatever the system answers. |
| Channel.Channel.ResumeIoRead | lib/clplumbing/ipcsocket.c:1272-1421 | Whatever recv(2) and poll(2) answer, the read pass, up to a negative length, is a run of the receiver. Unless disconnected or out of pools it calls recv(2) exactly if the receive queue has room, and reports exactly the octets given. A good result means still readable, and if still connected that the last poll found no hang-up and no error; a broken one means disconnected; a failure means disconnected, astray, out of pools or a poll error. Messages are only added, the send queue is untouched. |
| Channel.ReadPassOver | lib/clplumbing/ipcsocket.c:1272-1421 | A read pass that read nothing could not, for want of octets, room or a pool. |
| Channel.Turn | lib/clplumbing/ipcsocket.c:1582-1623 | A turn keeps what the loop is to end with. |
| Channel.Ends | lib/clplumbing/ipcsocket.c:1598-1622 | A loop that has ended has nothing to send or was told that it would block, and nothing to read or no room for it; its result is the last failure, or, disconnected, good exactly if one of its passes was. |
| Channel.Channel.ResumeIo | lib/clplumbing/ipcsocket.c:1582-1623 | The loop of reads and writes is a run of both halves, ends, and moves the status only forward. It ends, still connected, only with nothing to send or after a send(2) that would block, and, still readable, only after a recv(2) that gave nothing or with no room or pool for more; a connected channel then fails only astray, out of pools or by a poll error. A channel that was disconnected is left alone. |
| Channel.Channel.SocketSend | lib/clplumbing/ipcsocket.c:965-1061 | A message too long, or a channel not connected when the call begins, changes nothing. Otherwise resume_io comes first, with all it promises; then the message is accepted if and only if the queue has room, even if the connection was lost meanwhile, joins the queue, and resume_io follows; or else it is refused, dropped silently or kept waiting, each for its setting of blocking and block_fail, and nothing more changes. |
| Channel.Channel.SocketRecv | lib/clplumbing/ipcsocket.c:1063-1101 | resume_io comes first, then a read pass that reads even if the receive queue is to hold nothing, and then the first message queued is taken: messages come out in the order they came in, each once. The call fails exactly with an empty queue, with the result of the read pass or, if that was good, a failure, and then changes nothing more. |
| Channel.Channel.MsgDone | lib/clplumbing/ocf_ipc.c:361-375 | Giving back a message taken before is the step of the receiver, and changes nothing else. |
| Channel.Channel.ComesFromRuns | lib/clplumbing/ipcsocket.c:965-1623 | After any calls in any order, the two halves of a channel are where runs of Sender and Receiver lead. |
| Channel.SendHistoryIsRun | lib/clplumbing/ipcsocket.c:965-1061 | Any recorded history of the sending half is a run of Sender. |
| Channel.RecvHistoryIsRun | lib/clplumbing/ipcsocket.c:1272-1421 | Any recorded history of the receiving half is a run of Receiver. |
| Endpoints.HistoryFed | lib/clplumbing/ipcsocket.c:1272-1421 | A receiving half that has read an initial part of a peer's frames agrees with what the peer has sent. |
| Endpoints.DeliveredBetween | lib/clplumbing/ipcsocket.c:965-1623 | For any two channel objects after any calls on either: if the octets that the one's socket has given are an initial part of those that the other's socket has taken, then the two and the octets between them agree as in Stream, and the messages reassembled are, octet for octet and in order, the first of those accepted, as the gaps put them on the wire. |
| Logd.Reader.constructor | logd/ha_logd.c:746-789 | With the marks that read_msg_process sets, reading starts enabled and the pause flags agree. |
| Logd.Reader.SuspendClients | logd/ha_logd.c:365-385 | Every listed client is paused and reading is stopped. |
| Logd.Reader.ResumeClients | logd/ha_logd.c:387-407 | Every listed client is resumed and reading is enabled. |
| Logd.Reader.CheckFlowControl | lib/clplumbing/ipcsocket.c:944-963 | With logd's callbacks the channel's flag becomes what the marks demand, which Sender.Hysteretic says in full, and the pause flag of every client follows it. |
| Logd.Reader.ResumeIo | lib/clplumbing/ipcsocket.c:1423-1580 | Writing goes on exactly as long as send(2) is tried, the channel is connected and something is queued, and each write emits what was taken; with that and with losing the connection every client's pause flag stays equal to stop_reading; running clients are not paused by it. |
| Logd.Reader.OnConnect | logd/ha_logd.c:478-516 | A client that connects while reading is stopped starts out paused, so the flags still agree. |
| Logd.Reader.OnRemove | logd/ha_logd.c:465-474 | Removing a client keeps the others and their flags. |
| Logd.Reader.OnReceive | logd/ha_logd.c:409-463 | A paused client is not read, an empty message is ignored, and without a connection a message is dropped. Otherwise it goes to the channel, with the writes before and after it, and is accepted unless too long: never refused for a full queue, even if the connection is lost on the way. The messages accepted grow by exactly that one, and else nothing changes. |
| Logd.Reader.Forward | lib/clplumbing/ipcsocket.c:986-1060 | Forwarding with room in the queue is what socket_send does: accepted, unless the message is too long. |
| Logd.NeverRefusedNeverStuck | logd/ha_logd.c:777-780 | In every run of the channel until it is disconnected, a running client's message is accepted and no client is paused once the queue has drained to the low mark. |
| CText.BytesForInt | lib/clplumbing/cl_msg_types.c:83-96 | The digit-counting loop gives the length of the decimal form, with the sign. |
| CText.DecimalDigit | lib/clplumbing/cl_msg_types.c:83-96 | The digits written are "0" to "9". |
| CText.PackLength | lib/clplumbing/cl_msg_types.c:165-194 | The predicted length of a packed list is its length. |
| CText.UnpackPack | lib/clplumbing/cl_msg_types.c:249-315 | Unpacking a packed list of non-empty C strings gives the list back. |
| CText.ParseDigits | lib/clplumbing/cl_netstring.c:71-93 | Parsing reads exactly the digits up to the first other character, as the number they write. |
| MsgTextCode.ConvertNlToSym | lib/clplumbing/cl_msg_types.c:721-769 | Escaping newlines in place has the result of the specification, fails exactly if the symbol already occurs, and touches nothing around the text. |
| MsgTextCode.ConvertSymToNl | lib/clplumbing/cl_msg_types.c:721-769 | Un-escaping in place turns every symbol up to the first NUL into a newline. |
| MsgTextCode.StringListUnpack | lib/clplumbing/cl_msg_types.c:249-315 | The unpacking loop yields the list of the specification, or fails with it. |
| MsgTextCode.String2Msg | lib/clplumbing/cl_msg.c:2118-2203 | The line loop of the text parser yields the message of the specification, or fails with it. |
| MsgTextStore.Str2String | lib/clplumbing/cl_msg_types.c:1084-1114 | A string is stored with its newlines replaced and a NUL behind it; the octet at the limit is cleared exactly if the string ends there, and nothing behind it changes. |
| MsgTextStore.StringListPack | lib/clplumbing/cl_msg_types.c:212-246 | A list is stored packed, with its NUL, exactly if its last comma ends by the limit; the octet at the limit is cleared exactly if an element ends there. |
| MsgTextStore.Base2String | lib/clplumbing/cl_msg_types.c:1120-1136 | A binary value is stored as its base64 text exactly if the text and its NUL fit; nothing from the limit on changes. |
| MsgTextStore.Struct2String | lib/clplumbing/cl_msg_types.c:1143-1174 | A nested message is printed into the room predicted for it and escaped in place, exactly if that room is there and the message can be printed and escaped; nothing from the limit on changes. |
| MsgTextStore.Value2String | lib/clplumbing/cl_msg_types.c:1084-1200 | The value's text is stored whole, with a NUL behind it, exactly if it fits by its type's own check; the octets in front stay, and those from the limit on as for its type. |
| MsgTextStore.Field2String | lib/clplumbing/cl_msg.c:2276-2309 | A field's line is stored whole exactly if every piece fits, and the octet at the limit is cleared exactly if a piece ends there; nothing in front of the line or behind the limit changes. |
| MsgTextStore.Msg2StringBuf | lib/clplumbing/cl_msg.c:2249-2321 | For a buffer of any length: the call succeeds if and only if the message fits, and then the buffer holds its text and a NUL; the octet behind the buffer is cleared if and only if a piece of the message ends right there with all checks before it passed; nothing in front of the buffer or further behind it changes. |
| MsgTextRoom.FitsExactly | lib/clplumbing/cl_msg.c:2249-2321 | A message fits into a buffer of any length if and only if its text and a NUL do, and each message nested in it gets the room predicted for it, which is more than its text takes. |
| MsgTextRoom.Predicted | lib/clplumbing/cl_msg.c:2249-2321 | With the length get_stringlen predicts, or more, a message fits exactly if it can be printed, and no piece meets the end of the buffer. |
| MsgTextRoom.MeetingFails | lib/clplumbing/cl_msg.c:2311-2318 | A call that clears the octet behind its buffer fails. |
| MsgTextCode.MsgTextLength | lib/clplumbing/cl_msg_types.c:136-157 | get_stringlen is the length of the text and its NUL plus one octet for every nested message. |
| MsgTextProof.SymsDiffer | lib/clplumbing/cl_msg_types.c:51-70 | The symbols of different depths differ, and none is the string symbol, newline or NUL. |
| WireForm.Marks | include/ha_msg.h:136-139 | The lines that start and end a message in either form. |
| WireForm.Tags | include/ha_msg.h:35-42 | The types are written as "(0)" for a string to "(5)" for an uncompressed message. |
| WireForm.OneLine | lib/clplumbing/cl_msg.c:2249-2321 | The text of a message of one field, octet for octet, for every field that has one. |
| WireForm.LineExact | lib/clplumbing/cl_msg.c:1004-1043 | For any octets: a line is taken as a field if and only if it is a name without '=' or NUL, '=' and a text up to a newline or NUL, the name does not start a message, and the field can be added. |
| WireForm.TypedExact | lib/clplumbing/cl_msg_types.c:1508-1580 | A name that starts with '(' is accepted if and only if it carries a type from 1 to 9 that reads the text; the field is then of that type and under the rest of the name; any other name is that of a string. |
| WireForm.ParsedExactly | lib/clplumbing/cl_msg.c:2118-2203 | For any octets: a text is parsed as a message if and only if it has the start line and then lines, each read from the first newline of the one before on and adding its field, up to the end line or a NUL; the message is made of these fields. |
| MsgTextProof.Unescape | lib/clplumbing/cl_msg_types.c:721-793 | Escaping and un-escaping one level gives the text back, and the escaped text is a single line without new characters but the symbol. |
| MsgTextProof.StrBack | lib/clplumbing/cl_msg_types.c:1081-1114 | A string with newlines is printed as one line and read back unchanged. |
| MsgTextProof.EscapeAvoids | lib/clplumbing/cl_msg_types.c:1143-1174 | A nested text can be escaped, and is then free of the symbols of the depths above, if and only if it is free of those and of its own depth's symbol. |
| MsgTextProof.MsgPrints | lib/clplumbing/cl_msg.c:2249-2321 | Every message of C strings at a depth up to MAXDEPTH prints, free of the symbols of the enclosing depths, if and only if it is printable: strings without NUL, lists non-empty, no uncompressed field, nested at most MAXDEPTH deep, and no name, string or list element holding a symbol of a depth above its own. |
| MsgTextLines.LineTaken | lib/clplumbing/cl_msg.c:1004-1043 | What the line loop does with a printed line, whatever its label: it ends the message, is refused, or adds a field and goes on at the label's first newline or behind the line. |
| MsgTextLines.LoopRange | lib/clplumbing/cl_msg.c:2118-2203 | The loop keeps what it has read, and every field it adds has a name without '=', no string name that is empty or starts with '(', a newline or a start or end of a message, and no list element with a newline. |
| MsgTextLines.LabelEcho | lib/clplumbing/cl_msg.c:2118-2203 | From the first newline of a label that holds the end of the message, the loop adds exactly the fields echoed by the rest of the label. |
| MsgTextLines.LoopLead | lib/clplumbing/cl_msg.c:2118-2203 | In front of the first label that holds the end of the message, fields are read as at least as many, and as more if one of their labels holds a newline. |
| MsgTextExact.StrExact | lib/clplumbing/cl_msg_types.c:1202-1219 | A string comes back from its text if and only if it lacks the string symbol. |
| MsgTextExact.ListTextExact | lib/clplumbing/cl_msg_types.c:1301-1321 | A list printed on one line comes back if and only if its elements are non-empty. |
| MsgTextExact.ValueExact | lib/clplumbing/cl_msg_types.c:1202-1321 | A value of any type and nesting, printed on one line, is read back from its text if and only if it is readable. |
| MsgTextExact.FieldExact | lib/clplumbing/cl_msg.c:1004-1043 | The printed line of a field is taken as exactly that field if its value is read back; otherwise no result of the loop has the field there. |
| MsgTextExact.FieldsExact | lib/clplumbing/cl_msg.c:2118-2203 | The line loop reads back all printed fields, in order and no more, if and only if all are readable. |
| MsgTextExact.MsgExact | lib/clplumbing/cl_msg.c:2118-2203 | A printed message of C strings is parsed back, at every depth and whatever follows it, if and only if it is readable. |
| MsgTextExact.BackExactly | lib/clplumbing/cl_msg.c:2118-2321 | Every message of C strings is printed and parsed back, whatever follows it, if and only if it is printable and readable: names free of '=', of strings neither empty nor starting with '(', a newline or a start or end of a message; strings without the string symbol; lists with non-empty elements free of newlines; and the first name with a newline, if there is one, holds the end of the message, with the fields behind it being those its further lines are read as. |
| MsgTextExact.ReadableEach | lib/clplumbing/cl_msg.c:2118-2203 | Without newlines in names a message is readable exactly if each of its fields is. |
| MsgTextExact.NewlineNames | lib/clplumbing/cl_msg.c:2118-2203 | Messages of two fields that come back although the first name holds newlines. |
| NetstringProof.ValueLength | lib/clplumbing/cl_msg_types.c:807-899 | The predicted length of a value, at any nesting, is the length of its encoding. |
| NetstringProof.MsgLength | lib/clplumbing/cl_msg_types.c:104-132 | get_netstringlen is exactly the number of octets of the encoding. |
| WireForm.OneField | lib/clplumbing/cl_netstring.c:126-191 | The encoding of a message of one field, octet for octet. |
| WireForm.PeelExact | lib/clplumbing/cl_netstring.c:291-333 | For any octets: a netstring is peeled off if and only if there is one, with its digits, colon, payload and comma in front of max, and it is that one. |
| WireForm.PairExact | lib/clplumbing/cl_netstring.c:336-403 | For any octets: a payload is decoded if and only if it is a type, a name without '=' or NUL, '=' and a value that is read by its type and can be added. |
| WireForm.DecodedExactly | lib/clplumbing/cl_netstring.c:406-463 | For any octets: they are decoded as a message if and only if they have the start line and then netstrings one behind the other, each adding its field, up to the end line or the end of the octets; the message is made of these fields, and the length counts the end line. |
| WireForm.EncodableExactly | lib/clplumbing/cl_msg_types.c:1323-1413 | A message can be encoded if and only if no list in it, at any depth, packs into 1024 octets or more. |
| NetstringProof.AddRawExact | lib/clplumbing/cl_msg.c:594-694 | Adding a decoded field appends exactly that field if and only if the field is good. |
| NetstringProof.ListExact | lib/clplumbing/cl_msg_types.c:1478-1502 | A packed list is decoded to itself if and only if it and its elements are non-empty. |
| NetstringProof.FieldExact | lib/clplumbing/cl_netstring.c:336-403 | A field's payload is decoded to that field, appended to those before, if and only if the field is good there. |
| NetstringProof.LoopExact | lib/clplumbing/cl_netstring.c:406-463 | The field loop gives back all fields if and only if all are good, and where it succeeds it stops right behind them. |
| NetstringProof.MsgExact | lib/clplumbing/cl_netstring.c:406-463 | Netstring round trip at every depth, for every message of C strings: decoding an encoding gives the message back if and only if names are non-empty, free of '=' and not a message start, string names do not start with '(', strings lack byte 19, and lists and their elements are non-empty with no earlier field of that name; if it decodes at all it takes exactly the octets encoded. |
| NetstringProof.AuthSameBytes | lib/clplumbing/cl_netstring.c:466-515 | With an authentication string appended, the receiver authenticates exactly the octets the sender did, and finds exactly the sender's authentication string. |
| NetstringCode.ClParseInt | lib/clplumbing/cl_netstring.c:71-93 | The digit loop reads the number and the offset of the specification. |
| NetstringCode.PeelNetstring | lib/clplumbing/cl_netstring.c:291-333 | The scan finds the payload of the specification, or fails with it; where it succeeds, payload and comma lie in front of max. |
| NetstringCode.ProcessNetstringNvpair | lib/clplumbing/cl_netstring.c:336-403 | One field is decoded, recursively, as specified, or fails with it. |
| NetstringCode.Netstring2Msg | lib/clplumbing/cl_netstring.c:406-463 | The decoder ends on every finite input and yields the message and the length of the specification. |
| NetstringCode.Fields2Netstring | lib/clplumbing/cl_msg_types.c:1323-1413 | A field is written exactly if it fits and its lists are short enough, and then it is its encoding, with nothing before it touched. |
| NetstringCode.Msg2NetstringBuf | lib/clplumbing/cl_netstring.c:126-191 | The encoder succeeds if and only if lists pack under MAXLENGTH and the predicted length fits the buffer, and then writes exactly the encoding; with a buffer of the predicted size its boundary failures and its discrepancy check are never reached. |
| Base64.EncodeLength | lib/clplumbing/base64.c:42-123 | The encoding has length B64_stringlen. |
| Base64.Decode | lib/clplumbing/base64.c:163-270 | A decoding is at most B64_maxbytelen octets long, and at most two shorter. |
| Base64.Alphabet | lib/clplumbing/base64.c:33-34 | The alphabet is A to Z, a to z, 0 to 9, + and /, in both directions. |
| Base64.RoundTrip | lib/clplumbing/base64.c:42-270 | Decoding an encoding gives the octets back, for every length. |
| Base64.BinaryToBase64 | lib/clplumbing/base64.c:42-123 | The chunk loop writes the encoding and a NUL and nothing else, or refuses too small a buffer untouched. |
| Base64.Base64ToBinary | lib/clplumbing/base64.c:163-270 | For every input string the decoder writes at most outlen octets: the decoding, or -1 exactly for a bad length, a bad character or too small a buffer. |
| Base64.ExactFits | lib/clplumbing/base64.c:183-196 | A buffer of exactly the original length is not too small for its encoding. |
| Base64.EncodeThenDecode | lib/clplumbing/base64.c:42-270 | Through both routines, with an output buffer of exactly the data's length, the data come back. |
| HaMsg.Message.constructor | lib/clplumbing/cl_msg.c:229-270 | A new message is empty and has room for the fields announced. |
| HaMsg.Message.Expand | lib/clplumbing/cl_msg.c:457-510 | More room, and not a field lost. |
| HaMsg.Message.GetValue | lib/clplumbing/cl_msg.c:1055-1082 | The value of the first field of that name. |
| HaMsg.Message.AddRawLl | lib/clplumbing/cl_msg.c:594-648 | The field is added as the field sequence's rules say, expanding if need be, or nothing changes. |
| HaMsg.Message.AddList | lib/clplumbing/cl_msg_types.c:956-1022 | A list joins the list already there under its name, or becomes a new field; a field of another type refuses it. |
| HaMsg.Message.RemoveOffset | lib/clplumbing/cl_msg.c:559-584 | The shift of all five arrays removes exactly that field. |
| HaMsg.Message.Remove | lib/clplumbing/cl_msg.c:536-557 | The first field of the name goes, if there is one. |
| HaMsg.Message.Replace | lib/clplumbing/cl_msg.c:1512-1557 | The value of that index is replaced, its name and all other fields stay. |
| HaMsg.Message.Mod | lib/clplumbing/cl_msg.c:1560-1611 | The first field of the name gets the value, or a field is added, or a change of type is refused. |
| HaMsg.Message.Replay | lib/clplumbing/cl_msg.c:457-648 | After any run of add, list merge, modify, replace, remove and expand, the five arrays stand for the field sequence the run describes, with lengths and types in step and nfields at most nalloc. |
| HaMsg.RemoveExposesNext | lib/clplumbing/cl_msg.c:536-557 | Removing fails exactly for a name that is not there; after it the name finds the next field of that name, and every other name finds what it found. |
| HaMsg.LastShows | lib/clplumbing/cl_msg.c:457-648 | After any run, the last operation shows: what was added or changed is found, what was deleted exposes the next of its name, what was replaced is in its place, and an expansion changes nothing. |
| HaMsg.ModifyThenLookup | lib/clplumbing/cl_msg.c:1560-1611 | Modifying a name that is there is refused exactly for another type, and makes the name find its new value; one that is not there is added; every other name finds what it found. |
| HaMsg.AddThenLookup | lib/clplumbing/cl_msg.c:594-694 | An added field is found under its name unless an earlier one hides it; a list under a legal name is joined behind the one that is there, and refused exactly if empty or something else is there; other names find what they found. |
| HaMsg.MergeThenLookup | lib/clplumbing/cl_msg_types.c:956-1022 | The elements of a list that joins one under its name follow those already there, the number of fields grows only if there was none, and a field of another type refuses. |
| HaMsg.LookupConcat | lib/clplumbing/cl_msg.c:1055-1082 | Earlier fields hide later ones of the same name, and only those. |
| Expect.NextLonger | lib/stonith/expect.c:189-206 | A matching character makes the longest match one longer. |
| Expect.NextShorter | lib/stonith/expect.c:227-247 | Otherwise the longest border that the character continues is the new longest match. |
| Expect.NextNone | lib/stonith/expect.c:248-250 | And if there is none, nothing of the token matches. |
| Expect.Etoken.Advance | lib/stonith/expect.c:189-251 | After each character matchto is again the length of the longest prefix of the token that is a suffix of the input. |
| Expect.Feed | lib/stonith/expect.c:187-252 | The first token in list order that ends with this character is reported, if any does. |
| Expect.ExpectToken | lib/stonith/expect.c:105-256 | The result is the type of the first token in list order that ends at the first character where any token ends; without one, all input is read; the save buffer holds the beginning of what was read. |
| MallocIndex.Int2Pow2IsLog | lib/clplumbing/cl_malloc.c:320-362 | Below 2^24 the table computes the logarithm to base two. |
| MallocIndex.IndexIsSearch | lib/clplumbing/cl_malloc.c:394-426 | For sizes 1 to 2^24 the table-driven index is the result of the linear search wherever a bucket fits, and NUMBUCKS or more where none does. |
| MallocIndex.ServesExactly | lib/clplumbing/cl_malloc.c:399-414 | A request of any size gets a bucket that holds it, or none, if and only if it is at most 2^24 or its three low octets, less one, are 2^16 or more; so the "bucket size bug" branch is dead exactly there. |
| MallocIndex.FirstUnserved | lib/clplumbing/cl_malloc.c:358-362 | A request of 2^24 + 1 octets is given the smallest bucket. |
| Malloc.InitTables | lib/clplumbing/cl_malloc.c:888-921 | The bucket sizes double from 32 and all lists are empty. |
| Malloc.NewMem | lib/clplumbing/cl_malloc.c:750-791 | New memory has the capacity of its bucket, or of the request above the buckets, and four octets more for the guard; null exactly if the system has none. |
| Malloc.Allocator.Disjoint | lib/clplumbing/cl_malloc.c:432-480 | No block is both handed out and on a list, on two lists, or twice on one. |
| Malloc.Allocator.Take | lib/clplumbing/cl_malloc.c:394-480 | The block comes from the front of the list that the index names, if that list serves the size and is not empty, and else from the system. |
| Malloc.Allocator.Malloc | lib/clplumbing/cl_malloc.c:370-506 | For a request of any size: the block returned was not handed out before, holds its request and an intact guard, and no other block handed out changes, except that a request that gets too small a bucket is given a new block of that bucket, too small for it, with the guard written behind it. The block is the first of its list if that has one, and then leaves the list, and else new; null exactly for size zero, an absurd size, or when the system has no memory and the list is empty; every block returned is counted. |
| Malloc.Allocator.Free | lib/clplumbing/cl_malloc.c:532-630 | Accepted exactly for a block handed out whose guard is intact, so a double free is caught; the block goes to the front of the list of its bucket, or back to the system, and no other block handed out changes. |
| Malloc.Allocator.Realloc | lib/clplumbing/cl_malloc.c:632-744 | The process ends exactly for a pointer freed before or a damaged guard. A size that fits the bucket gives the same block back; above the buckets the block is the same or a new one as the system has it, or null exactly without memory; a size that outgrows the bucket is served by malloc, with its conditions for null, and the old block goes to its list all the same. The result has the new size and the old contents as far as both blocks reach, and exactly the old block is given up, unless the system could not resize it; no other block handed out changes; the result is too small for its request exactly if the old block has to be replaced for a size that gets too small a bucket. |
| MallocRun.CountsAgree | lib/clplumbing/cl_malloc.c:486-494 | numalloc minus numfree is the number of blocks the program holds. |
| MallocRun.DoAlloc | lib/clplumbing/cl_malloc.c:370-506 | An allocation gives one new pointer, null exactly when malloc has no block, to a block too small exactly if the bucket is, and leaves the program's other blocks and their contents alone. |
| MallocRun.DoRelease | lib/clplumbing/cl_malloc.c:532-630 | Freeing a held pointer always works, any other one ends the process, and other blocks keep their contents. |
| MallocRun.DoResize | lib/clplumbing/cl_malloc.c:632-744 | Resizing gives null exactly when realloc does and the same block exactly when the new size fits in place, keeps the front of the contents, replaces the pointer and leaves other blocks alone; the new block is too small exactly if the request needs one and gets too small a bucket. |
| MallocRun.FollowResize | lib/clplumbing/cl_malloc.c:632-744 | What the program sees of a resize: a block of the new size with the front of the old contents, in its bucket while that holds it; gone for size zero or where malloc has none; as it was where the system could not resize it. |
| MallocRun.Replay | lib/clplumbing/cl_malloc.c:370-744 | In every run of malloc, free, realloc and writes inside blocks, up to an operation that ends the process or returns too small a block: each request is followed as far as its own block goes, with size and contents as asked, and no other block the program holds changes; lists and blocks handed out stay disjoint and of the right capacity, every block but that last one holds its request, the blocks handed out are those the program holds, each once, and the counters differ by their number. |
| Md5.PaddedIsWhole | lib/clplumbing/md5.c:136-170 | The padding of section 3.1 and 3.2 of RFC 1321 makes whole blocks and only appends. |
| Md5.PaddedIs | lib/clplumbing/md5.c:136-170 | After the message come 0x80, zeros, and its number of bits modulo 2^64, low order first, as in sections 3.1 and 3.2 of RFC 1321. |
| Md5.StartIs | lib/clplumbing/md5.c:80-95 | The state starts as section 3.3 of RFC 1321 has it. |
| Md5.Le64Is | lib/clplumbing/md5.c:162-164 | The length is appended low word first, each word low octet first. |
| Md5.CountGrows | lib/clplumbing/md5.c:105-109 | The two words with their carry count the octets modulo 2^64. |
| Md5.BitCount | lib/clplumbing/md5.c:162-164 | The two words stored are the bit count modulo 2^64, low word first. |
| Md5.PadOne | lib/clplumbing/md5.c:143-165 | With at most 55 octets waiting, the padding ends the message in one block. |
| Md5.PadTwo | lib/clplumbing/md5.c:152-165 | With more, it takes a block of its own. |
| Md5.Context.Update | lib/clplumbing/md5.c:96-134 | A context that stands for a message stands, after any update, for that message with the octets appended. |
| Md5.Context.Final | lib/clplumbing/md5.c:136-170 | The result is the digest of all that was taken in, and the context is cleared. |
| Md5.DigestOf | lib/clplumbing/md5.c:80-170 | However a message is cut into updates of less than 2^32 octets, the digest is the block function folded over the padded message. |
| Md5.Whole | lib/clplumbing/md5.c:273-284 | One-shot MD5 is the digest of the data, with its length cut to 32 bits. |
| Md5.Hmac | lib/clplumbing/md5.c:286-335 | For every key length, the definition in section 2 of RFC 2104, on the text with its length cut to 32 bits. |
| Trigger.Run | lib/clplumbing/GSource.c:1321-1412 | In every run at most one child is alive, isrunning says whether, runagain implies it, and while forks succeed every request not yet followed by a fork is remembered in a flag. |
| Trigger.NothingIsLost | lib/clplumbing/GSource.c:1713-1816 | From every state reached with forks succeeding, what is owed can still be served by a fork. |
| Trigger.LostExactlyWhenForkFails | lib/clplumbing/GSource.c:1754-1816 | In every run from the start, requests are forgotten if and only if its last event is a fork that fails while no child runs. |
| Trigger.ShortestLoss | lib/clplumbing/GSource.c:1754-1816 | One request and one failed fork are such a run, after which nothing is dispatched. |
| Trigger.TempProc.SetTrigger | lib/clplumbing/GSource.c:1321-1330 | A request is the request step. |
| Trigger.TempProc.DispatchTrigger | lib/clplumbing/GSource.c:1385-1412 | A dispatch, with a fork that succeeds or fails, is the dispatch step. |
| Trigger.TempProc.ProcessDied | lib/clplumbing/GSource.c:1713-1746 | A child's death is the death step: a second run owed is triggered. |
| InetPton.InetPton4 | replace/inet_pton.c:101-143 | Accepts exactly four decimal numbers up to 255 between dots, writes their octets, and touches nothing otherwise. |
| InetPton.HexDigits | replace/inet_pton.c:162-186 | The sixteen digits of either case have the values of their places. |
| InetPton.HexDigitsOnly | replace/inet_pton.c:162-186 | And no other character is one. |
| InetPton.HexWritten | replace/inet_pton.c:176-222 | A number written in hexadecimal, in either case, is read as that number, and up to 0xffff it is a group with its two octets. |
| InetPton.DecimalAsHex | replace/inet_pton.c:184-191 | The digits of an octet, read as hexadecimal, never exceed a group, so a dotted quad is never refused as one. |
| InetPton.ReadPieces | replace/inet_pton.c:176-222 | The character loop gathers the octets and the place of "::" that the address's pieces call for, or fails where they make no address; the temporary is never overrun. |
| InetPton.ShiftToEnd | replace/inet_pton.c:223-239 | The overlapping shift in place puts the octets after "::" at the end and zeros in between. |
| InetPton.InetPton6 | replace/inet_pton.c:154-244 | Accepts exactly the addresses, writes their sixteen octets and nothing else, and leaves dst untouched otherwise. |
| InetPton.AddressDenotes | replace/inet_pton.c:154-244 | The addresses accepted are exactly these: groups before "::", zeros, groups after it, the last of which may be a dotted quad, with their octets, as in section 2.2 of RFC 1884, except that a group may have any number of leading zeros; "::" stands for at least one octet. |
| LongClock.Clock.TimeLongclock | lib/clplumbing/longclock.c:136-192 | The static variables and the result are those of the specification. |
| LongClock.StaysSynced | lib/clplumbing/longclock.c:154-190 | A reading less than a wrap after the last one keeps the count in step if and only if no wrap lies between or they are at most 2^32 less MINJUMP apart. |
| LongClock.ClockIsExact | lib/clplumbing/longclock.c:136-192 | If ticks never decrease and readings less than a wrap apart cross no wrap or are at most 2^32 less MINJUMP apart, every result is the true count less one fixed multiple of 2^32, modulo 2^64, across any number of wraps. |
| LongClock.ExactExactly | lib/clplumbing/longclock.c:136-192 | For readings less than a wrap apart, all results are exact if and only if no two successive readings with a wrap between them are further apart than that. |
| LongClock.DifferencesAreExact | lib/clplumbing/longclock.c:251-273 | Results are monotone and their differences exact, as long as 64 bits hold the time elapsed. |

## Left out

- Channel.Channel.BufpoolUpdate: pools are addressed through an index into a table of pool values, so aliasing between pool objects is not modelled there; the array code of the pools is in BufPoolCode.
- Channel.Channel.SocketSend: a blocking call that would wait for ever returns Waits when the system has no more answers; the warning about dropped messages and its clock are left out.
- PoolLoop.SoundExactly: what the loop does to memory once consumepos has left the pool, or a message lies outside it, is not modelled.
- Receiver.Run: ends in front of a read that meets a negative length.
- Channel.Channel.ResumeIoRead: once astray, by a negative length, the model fails at once, where the source goes on with damaged memory or for ever.
- Sender.GapCondition: messages of length zero are outside it, since they have no octet to be shifted.
- Md5.DigestOf: the block function MD5Transform is any function on a state and a block; its 64 rounds and big-endian builds are not modelled.
- MsgTextExact.BackExactly: NUL in names and list elements, which are C strings, is excluded.
- MsgTextStore.Msg2StringBuf: printing without the message's head and end lines, which also skips the authentication field, is not modelled.
- MsgTextCode.String2Msg: malformed base64 in a binary field, for which the code stores a length of -1, counts as a failure.
- NetstringCode.ProcessNetstringNvpair: where the source's assertions would abort, and for types outside its table, decoding fails; so it does where the '=' lies beyond the payload, for which the code passes a negative length on as a size_t; lengths that overflow an int are not modelled.
- Malloc.Allocator.Malloc: block memory is a sequence field; what a guard or a copy that lands behind its block overwrites is not modelled, and nor is what becomes of such a block afterwards.
- Malloc.Allocator.Realloc: new sizes for which the size of the system block would overflow are outside the model.
- Expect.ExpectToken: select, the timeout and a read error other than the end of the input are left out.
- LongClock.ClockIsExact: the version for a 32-bit clock_t; Hz set-up and unit conversions are left out.
- The octet statistics of the allocator, which drift in the source, and its tracking and pristine-marking variants.
- Credential checks, socket set-up, accept, the streams variant, channel destruction and the debugging audits of ipcsocket.c: operating-system calls only.
- Compression and plugin loading: foreign code.
- The authentication method itself, and the choice of wire format.
- replytrack.c, whose copy and intersection do not do what they are for.
- logd's SIGTERM path, configuration and log files; the lrm client library, the stonith command line, logging and display: plumbing or output.
- cl_poll, cpulimits, realtime, uids, core dumps, lock files: the kernel decides the outcome.
- Failure of memory allocation in the message layer.
