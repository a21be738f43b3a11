# H9: a verified model of the gateway, the daemon and the firmware uploader

H9 connects CAN buses to TCP clients. `h9bus` moves frames between bus drivers and clients, `h9d` is a
multi-threaded device daemon on top of it, and `h9fwu` uploads firmware to a node's bootloader. This
project models the parts whose correctness depends on interleavings, on how bytes are cut into reads, on
ownership, or on arithmetic, and proves what they promise for all inputs, runs and schedules. Where the code
falls short of a promise, the model keeps the code's behaviour and a theorem gives the exact condition.

`dafny verify dfyconfig.toml` verifies the whole project.

| part | modules | form |
|---|---|---|
| reader/writer lock of h9d | `SharedMutex`, `Sums`, `Options` | step relation over any number of threads; every wait, notify and mutex operation is its own step |
| hand-off to client threads | `AsyncHandoff` | step relation over any number of producers, one worker, the socket and a closer |
| subscriptions and client lifetime | `Subscriptions` | step relation over any number of clients and devices, with notification, device replacement and the server's clean-up pass |
| message stream | `H9Socket`, `Bytes` | classes with the source's buffers and counters, against the decoding of the whole stream |
| serial line | `Slcan`, `Numbers`, `CanId`, `Frames` | class with the receive buffer, against a fold over the stream |
| frames as message attributes | `FrameMsg` | methods against functions |
| send queues and frame lifetime in h9bus | `SendQueue`, `BusMgr` | classes with ghost history |
| confirmation of sent frames | `SentConfirmation` | step relation over callers and the receive thread |
| threads on one socket | `SharedSocket` | schedules of the loads and stores of the id counter, and of the two writes of a message |
| frame observers | `FrameComparator`, `FrameSubject`, `Removal` | class over an ordered list of entries, against the flat list of attachments |
| node requests, registers and versions | `Node` | classes with the counters and the pending list |
| Intel HEX loader | `IntelHex`, `FirmwareImage` | methods over the firmware buffer, against an address-by-address reference |
| upload | `Upload`, `Flashing` | method with the source's loop and locals, against a step function, in closed loop with a bootloader |

In the step relations a run is a list of states joined by actions (`Path`), so a lemma about `states[i]`
holds at every point of every run. Where a program waits for a clock, the step that stands for the time-out
can happen at any moment.

## What the code does not meet

- `H9Socket.RoundTripExactly`: a message stream is received as it was sent exactly if no message is empty,
  holds a NUL or has 2^32 bytes or more. An empty message is never got over
  (`H9Socket.EmptyMessageBlocksTheRest`): its body is read with a length of zero, and the answer counts as a
  closed connection.
- `H9Socket.Outgoing.Send`: success is reported although the operating system took less than the whole header;
  the frame is whole exactly if it took all four bytes.
- `SharedSocket.IdsDistinctExactly`, `SharedSocket.MessagesArriveExactly`: client threads of `h9d` share one
  connection to `h9bus` without a lock. Their message ids are distinct exactly if no two allocations overlap,
  and their messages (of less than 16 MiB) arrive exactly if no two sends do. A longer message can begin with
  bytes that equal a header, so for those an overlap may go unnoticed.
- `AsyncHandoff.CrashExactly`: a message that is pushed while the peer closes ends the daemon exactly if one
  batch of events closes the socket before it handles the async event; `AsyncHandoff.CrashIsPossible` is such
  a run.
- `Node.DroppedWhileAwaited`: a pending request can be erased while its caller waits, so that reading its future
  throws, exactly if sending may take more than three seconds, which is the default limit.
- `SendQueue.Driver.WireAgreesUnlessOvertaken`: what a deferred driver reports as sent is what went over the
  wire exactly if no HIGH frame was pushed while a LOW one was in flight; `SendQueue.HighOvertakesLow` is the
  smallest such run: the LOW frame is sent twice, the HIGH one never, and both are reported.
- `BusMgr.Manager.SendFrame`: a broadcast goes on with a deleted frame exactly if there are several endpoints
  and the first of them reports the frame inside `send_data`; `BusMgr.DeletedWhileBroadcast` is such a
  broadcast. The frame is never deleted exactly if no endpoint was handed it: the name is unknown, or there
  are no endpoints.
- `FrameMsg.BuildFrameMsg`, `Slcan.BuildSlcanMsg`: frames of more than eight bytes, which a message can
  announce, are read behind their data; `FrameMsg.PrintData` gives both bounds of the loop.
- `FrameMsg.AttributesRoundTrip`: types from 64 on end in a failed assertion.
- `FrameComparator.LessOrdersChains`: `operator<` orders a family of comparators as `std::map` demands exactly
  if of any two one is at most the other in every field. The program builds only keys for which it is a strict
  total order (`FrameComparator.LessOrdersKeys`), so `FrameComparator.LessIsNoOrder` cannot happen in it.
- `Subscriptions.LeftoverExactly`: a client whose thread has ended is left in the server's list exactly if a
  clean-up pass ran between its signal and the store to `thread_running` after it, and no client has signalled
  since.
- `FirmwareImage.InPlaceIfAscending`: each HEX record lands at its own address exactly if the records ascend
  without overlap; the loader writes at the end of the data so far, not at the record's address.
- `FirmwareImage.ExtendedMeetsFormatExactly`: extended address records of n data bytes are judged by the sum of
  all their bytes exactly if n is 2; the loader always adds up seven.
- `Node.GetRegister`: a reply that claims more than eight data bytes, as a message can, is copied
  from behind the frame's data; up to eight the copy is exact.
- `Flashing.UploadEnds`: an upload whose last page does not fit into the 128 KiB buffer reads behind it; with
  an empty firmware the progress bar divides by zero (`Upload.PayloadsAreAPrefix`).
- `Flashing.SecondAnnouncement`: a bootloader that announces itself again in the middle of a page gets that
  page and all behind it from the wrong place of the firmware; at the beginning of a page, and only there, it
  does no harm. Every upload passes offsets at which it does (`Flashing.HarmIsPossible`).

## Model

| member | source | states |
|---|---|---|
| `SharedMutex.MutualExclusion` | h9d/sharedmutex.cc:15-44 | at every point of every run, while a writer has returned from lock no other writer has and no thread is between lock_shared and unlock_shared |
| `SharedMutex.WakeupsReachTheWriter` | h9d/sharedmutex.cc:19-43 | a writer asleep with the counter at zero is still owed a notify; at most one thread sleeps on lock_main, so notify_one suffices; no reader ever sleeps on lock_all |
| `SharedMutex.CounterNeverGrowsUnderWriter` | h9d/sharedmutex.cc:15-36 | from setting main_lock to clearing it the reader counter does not grow |
| `SharedMutex.NeverStuck` | h9d/sharedmutex.cc:15-44 | while any thread is inside the lock, some thread can take a step that is neither a new call nor a spurious wake-up |
| `SharedMutex.WorkIsBounded` | h9d/sharedmutex.cc:15-44 | in every run the threads' own steps are bounded by the remaining work plus twelve for each call and two for each spurious wake-up |
| `SharedMutex.EveryRequestIsServed` | h9d/sharedmutex.cc:15-44 | without further calls or spurious wake-ups every schedule that cannot go on has served every thread, after at most twelve steps a thread |
| `SharedMutex.WriterIsServed` | h9d/sharedmutex.cc:15-22 | whatever calls arrive, a writer that has set main_lock holds the lock before the threads have taken more than seven steps each and two for each spurious wake-up |
| `SharedMutex.UnlockNotifies` | h9d/sharedmutex.cc:24-28 | a writer does not get from holding the lock to being idle without notifying the readers on lock_all |
| `SharedMutex.StepKeepsInv` | h9d/sharedmutex.cc:15-44 | each step keeps the tie between main_lock, the owners of both mutexes, the counter and the threads' program points |
| `AsyncHandoff.HandOff` | h9d/tcpclientthread.cc:78-94 | in every run a non-empty queue has exactly one thing that will make the worker look at it, at most one event is pending, the assertion before the pop holds, and sent, in-hand and queued messages are those pushed, in order |
| `AsyncHandoff.EveryMessageIsSent` | h9d/tcpclientthread.cc:148-155 | left alone, the threads rest after a bounded number of steps; unless the program has ended, every producer has returned and, unless the worker has left its loop, every pushed message was sent |
| `AsyncHandoff.RunsUntilEnded` | h9d/tcpclientthread.cc:24-46 | in every run the worker is told to stop exactly by the destructor, a peer that is gone when something is sent to it, or one that has closed, and leaves its loop only after that |
| `AsyncHandoff.AllSentUnlessEnded` | h9d/tcpclientthread.cc:78-105 | a run without such a step that has come to rest has its worker waiting and has sent every pushed message, in order |
| `AsyncHandoff.EndedWorkerLeaves` | h9d/tcpclientthread.cc:24-38 | a worker that is told to stop while it is not waiting has left its loop, or ended the program, at rest |
| `AsyncHandoff.CrashExactly` | h9d/tcpclientthread.cc:24-105 | a run that has come to rest has ended the program, by a send on the closed socket, exactly if in some batch the socket event closed the socket while the async event was still to be handled |
| `AsyncHandoff.CrashIsPossible` | h9d/tcpclientthread.cc:26-29 | a run in which that happens |
| `AsyncHandoff.OwnStepsAreBounded` | h9d/tcpclientthread.cc:24-30 | each own step of a producer or of the worker uses up work |
| `AsyncHandoff.NothingSentAfterExit` | h9d/tcpclientthread.cc:24-38 | once the worker has left its loop nothing more is sent |
| `Subscriptions.NoDanglingObserver` | h9d/executoradapter.cc:18-26 | in every run, a client held by a device's observer set exists, has the entry in its memento or is taking it off right now, and has not finished its clean-up |
| `Subscriptions.DeliveryReachesLiveClient` | h9d/device.cc:57-69 | whatever interleaves with a notification, every client it calls is still there |
| `Subscriptions.ObserversAreTheLastAttached` | h9d/devmgr.cc:79-101 | a client is notified of exactly the subscriptions whose last event was its attach: a detach ends them, and so does a new device object under the same id |
| `Subscriptions.AttachAdds` | h9d/devmgr.cc:158-168 | a subscribe adds this client for this event of an existing device and changes nothing else |
| `Subscriptions.DetachRemoves` | h9d/devmgr.cc:170-177 | an unsubscribe removes this client for this event and nothing else |
| `Subscriptions.RepeatedAnnouncement` | h9d/devmgr.cc:81-99 | a device announced as what it is keeps its object and its observers, any other announcement makes a new one without observers, and a second one keeps it unless the type is 5 and the version needs more than 16 bits |
| `Subscriptions.ServesUntilStopped` | h9d/tcpclientthread.cc:24-37 | a client's thread stops serving, and its subscriptions are taken off, only after its peer has closed or the server has shut it down |
| `Subscriptions.MementoIsLastAsked` | h9d/executoradapter.cc:18-26 | in every run a memento holds exactly the subscriptions that the client asked for and has not asked to end |
| `Subscriptions.NotificationReachesObservers` | h9d/device.cc:57-69 | from its begin to its end a notification calls every observer of the event exactly once, and nobody else |
| `Removal.WithoutRemovesAll` | h9d/executoradapter.cc:23-26 | an unsubscribe removes all equal entries of the memento and no other |
| `Subscriptions.LeftoverExactly` | h9d/tcpserver.cc:135-151 | a finished client is left in the list exactly if a clean-up pass ran between its signal and the end of its thread function and no client has signalled since |
| `Subscriptions.LeftoverClientIsPossible` | h9d/tcpclientthread.cc:37-38 | a run in which that happens |
| `H9Socket.Socket.Recv` | protocol/h9socket.cc:122-181 | one call either delivers the first frame of the stream as the C string of its body, or loses nothing and holds exactly the bytes it read; an error is answered exactly if a read has failed; all writes stay inside the buffers |
| `H9Socket.Socket.RecvComplete` | protocol/h9msgsocket.cc:55-65 | ends after at most one call more than bytes read; if no read has failed, with the first message of the stream if it holds one and with the close if not |
| `H9Socket.Socket.RecvMany` | protocol/h9socket.cc:132-180 | for every way the reads are cut, the messages delivered so far followed by those of the remaining stream are the messages of the whole stream; once the stream is used up or its close is reported, all of them have been delivered and only the incomplete frame at its end is left; without a failed read that takes at most one call more than there are bytes |
| `H9Socket.Socket.RecvAll` | h9d/tcpclientthread.cc:41-51 | receiving complete messages until there is none ends; it ends with the close exactly if no read has failed, and then exactly the messages of the stream have been delivered |
| `H9Socket.Socket.UsedUpMeansDelivered` | protocol/h9socket.cc:171-180 | when the peer has sent everything and all is read, the fields hold no complete message |
| `H9Socket.RecvMeaning` | protocol/h9socket.cc:171-180 | what one call does is a step of decoding the whole stream; a close is reported only where the stream holds no further message |
| `H9Socket.DecodeEncoded` | protocol/h9socket.cc:183-205 | a framed message in front of any bytes is decoded as itself exactly if it is non-empty, NUL-free and shorter than 2^32 |
| `H9Socket.RoundTripExactly` | protocol/h9socket.cc:149-205 | a list of framed messages decodes to that list exactly if every message is such |
| `H9Socket.DeliveredIsPrefix` | protocol/h9socket.cc:122-206 | fed with such messages, through any pieces, the receiver has delivered a prefix of the list and holds the rest |
| `H9Socket.ClosedMeansAllDelivered` | protocol/h9socket.cc:122-206 | and when the close is reported, it has delivered exactly the list and no byte is left over |
| `H9Socket.EmptyMessageBlocksTheRest` | protocol/h9socket.cc:158-167 | behind an empty message nothing is delivered any more |
| `H9Socket.Outgoing.Send` | protocol/h9socket.cc:183-206 | success means that the whole body was accepted behind one to four bytes of the header; the frame is whole exactly if as many bytes were accepted as it has; the answer is determined by what the two writes accepted, and is the length and four if both accepted all |
| `Bytes.BE32RoundTrip` | protocol/h9socket.cc:149 | the four header bytes give back the length mod 2^32 |
| `CanId.PackIsInjective` | drivers/slcan.cc:76-85 | frames with five-bit types share an identifier only if all header fields agree |
| `CanId.UnpackPacked` | drivers/slcan.cc:103-116 | the identifier has 29 bits and unpacks to the header it was packed from, the type cut to five bits, whatever flags stand above |
| `CanId.HighBeatsLow` | drivers/socketcan.cc:93-101 | every HIGH identifier is below every LOW one |
| `CanId.SocketCanFlags` | drivers/socketcan.cc:93-103 | the sent identifier has bit 31 set, bits 29 and 30 clear, and the packed identifier below |
| `CanId.SocketCanRoundTrip` | drivers/socketcan.cc:66-108 | a frame sent through socketcan comes back whole but for the type's bits above the fifth |
| `Slcan.BuildSlcanMsg` | drivers/slcan.cc:75-98 | writes the text of the frame, which TextRoundTrip shows to be decodable, and reads behind its data exactly if it is longer than eight bytes |
| `Slcan.TextDenotesFrame` | drivers/slcan.cc:88-97 | the text is a T, eight digits that denote the identifier, one for the length, two for each byte, and a CR |
| `Slcan.ParseSlcanMsg` | drivers/slcan.cc:100-127 | reads any text of ten characters or more as the parsing function does, with the exceptions of stoi and substr and the write behind the data array as outcomes |
| `Slcan.TextRoundTrip` | drivers/slcan.cc:75-127 | the text of a frame parses to the same header, the type cut to five bits, and the same first dlc bytes |
| `Slcan.Port.RecvData` | drivers/slcan.cc:129-147 | the buffer and the calls made after one read are those of feeding its bytes one by one |
| `Slcan.Port.ParseResponse` | drivers/slcan.cc:162-180 | the calls made, and whether an exception ends the program, are those of handling the response |
| `Slcan.OtherResponses` | drivers/slcan.cc:162-180 | a response that begins with CR acknowledges; one that begins with anything but CR and T, and a T of less than ten characters, does nothing |
| `Slcan.FrameTextIsOneResponse` | drivers/slcan.cc:162-180 | the text of a frame is one response, and handling it delivers the frame |
| `Slcan.FeedItem` | drivers/slcan.cc:140-180 | from an empty buffer a frame is delivered, a CR acknowledges and a BELL does nothing, and the buffer is empty again |
| `Slcan.Port.RecvChunks` | drivers/slcan.cc:129-147 | after any list of reads the port is as if fed the joined bytes one by one, and its buffer is what lies behind the last terminator |
| `Slcan.Port.RecvItems` | drivers/slcan.cc:129-180 | of a stream of frames, CR and BELL replies, cut into any reads, the items that have arrived whole are delivered in order, and when all has arrived exactly all, with the buffer empty |
| `Slcan.CutsDoNotMatter` | drivers/slcan.cc:140-146 | feeding a stream in two pieces is feeding it whole |
| `Slcan.BufferIsTail` | drivers/slcan.cc:140-146 | the buffer is always the part of the stream behind the last terminator |
| `Slcan.StreamRoundTrip` | drivers/slcan.cc:75-147 | any list of frames, CR replies and BELL replies is delivered item by item, in order, and leaves the buffer empty |
| `Numbers.StrtolReadsText` | protocol/genericframemsg.h:41-55 | strtol reads back a number written in base 10 or 16, padded or not, in either case |
| `Numbers.StrtolReadsForms` | protocol/genericframemsg.h:81-116 | white space, a sign or none, digits and what follows them are read as the signed number, limited to 64 bits |
| `Numbers.StrtolReadsPrefix` | protocol/genericframemsg.h:116 | and so are digits behind 0x or 0X in base 16 |
| `Numbers.StrtolReadsNothing` | protocol/genericframemsg.h:81-116 | a text without a digit where one is due is no number |
| `Numbers.StoiLimit` | drivers/slcan.cc:103-122 | stoi takes digits exactly if their number is one of a 32-bit int |
| `FrameMsg.PrintData` | protocol/genericframemsg.h:39-57 | the loop over one 24-byte buffer writes two upper-case digits a byte; it reads behind the data exactly if that is shorter than the frame says, and writes behind the buffer exactly from the twelfth byte on |
| `FrameMsg.BuildFrameMsg` | protocol/genericframemsg.h:26-58 | makes the attributes, which AttributesRoundTrip shows to be decodable, of exactly the frames of at most eight bytes |
| `FrameMsg.GetFrame` | protocol/genericframemsg.h:60-126 | reads any attributes as the decoding function does, with the first missing attribute and the failing assertion as outcomes |
| `FrameMsg.AttributesDenote` | protocol/genericframemsg.h:33-57 | the attributes' names, and their texts as the numbers of the frame's fields |
| `FrameMsg.FrameExactly` | protocol/genericframemsg.h:66-123 | a message is a frame exactly if no attribute is missing and the type is below 64; a refused one lacks the attribute named |
| `FrameMsg.AttributesRoundTrip` | protocol/genericframemsg.h:26-126 | the attributes of a frame give back the frame with zeros behind its length, exactly for types below 64 |
| `FrameMsg.GatewayKeepsMeaning` | protocol/genericframemsg.h:26-126 | from a bus driver to a message and on to either bus driver, a frame with a five-bit type keeps its header and its first dlc bytes |
| `SendQueue.HighFirst` | h9bus/driver.h:27-32 | a queue's top is HIGH if any of its frames is; a pushed frame gets to the top exactly if there was none, or if it is HIGH over a LOW one |
| `SendQueue.Push` | h9bus/driver.h:27-36 | a push keeps the other frames, and displaces the top only for a HIGH frame over a LOW one |
| `SendQueue.Pop` | h9bus/driver.cc:22-23 | a pop removes the top and leaves a frame at the top that is LOW only if no HIGH one is left |
| `SendQueue.Driver.SendFrame` | h9bus/driver.cc:55-65 | the queue, wire and reports after a send for deferred and immediate endpoints; pushed frames are reported or queued |
| `SendQueue.Driver.OnFrameSend` | h9bus/driver.cc:20-28 | the top is reported, whatever is on the wire, and the next top goes on the wire |
| `SendQueue.Driver.Acknowledge` | drivers/slcan.cc:162-173 | a bare CR reports the top once if a frame is in flight and changes nothing otherwise; what was pushed stays the sum of reported and queued frames |
| `SendQueue.Driver.WireAgreesUnlessOvertaken` | h9bus/driver.cc:20-28 | in every run the wire carried the reported frames followed by the one in flight exactly if no HIGH frame was pushed while a LOW one was on the wire |
| `SendQueue.HighOvertakesLow` | h9bus/driver.cc:20-65 | the smallest run in which it did not |
| `BusMgr.Manager.SendFrame` | h9bus/busmgr.cc:124-136 | a broadcast is defined exactly if there are not several endpoints the first of which reports at once, and otherwise goes on after the object was deleted; when defined exactly the endpoints meant were handed the object, once each and in order, and it is in the queues of exactly the deferred ones of them; it stays undeleted without being in any queue exactly if no endpoint was handed it |
| `BusMgr.DeletedWhileBroadcast` | h9bus/busmgr.cc:127-130 | a broadcast to two endpoints that deletes its object in the first round |
| `BusMgr.Manager.OnSendFrame` | h9bus/busmgr.cc:31-40 | one more report is counted, and the object is deleted exactly if no queue holds it any more |
| `BusMgr.Manager.Acknowledge` | h9bus/busmgr.cc:31-40 | through an acknowledgement, total minus completed stays the number of queues that hold each live object, no queue holds a deleted one and none is deleted twice |
| `BusMgr.HoldersUpdate` | h9bus/busframe.cc:34-48 | how the number of queues that hold an object changes with one queue |
| `SentConfirmation.ResultsAreAnswers` | h9d/bus.cc:31-49 | in every run a call that returned OK or H9BUS_ERROR was answered by the first message with its own id since it registered, OK exactly by a FRAME and H9BUS_ERROR exactly by an ERROR |
| `SentConfirmation.GivingUpHasACause` | h9d/bus.cc:67-82 | in every run a call returned NOT_CONNECTED only after its send failed, and SEND_TIMEOUT only after a wait that ended before any message with its id had come |
| `SentConfirmation.KeysAreExactlyThePending` | h9d/bus.cc:31-38 | the map's keys are exactly the registered calls neither answered nor withdrawn, so no promise is set twice |
| `SentConfirmation.LateRepliesChangeNothing` | h9d/bus.cc:42-49 | a reply without an id, for an answered or withdrawn call or for none changes nothing |
| `SentConfirmation.IdsKept` | protocol/h9msgsocket.cc:71-78 | each step keeps the ids of running calls distinct and all ids used so far below the next one |
| `SentConfirmation.NextIdIsUnused` | protocol/h9msgsocket.cc:71-78 | in every run the next id belongs to no call that is running or has returned, and to no promise or answer |
| `SharedSocket.IdsDistinctExactly` | protocol/h9msgsocket.cc:71-78 | in every schedule of unlocked allocations the ids are distinct exactly if no two overlap |
| `SharedSocket.MessagesArriveExactly` | protocol/h9socket.cc:183-206 | in every schedule of two-write sends of messages below 16 MiB the receiver gets the messages exactly if no two sends overlap, and then in the order of their headers |
| `FrameComparator.SettersNarrow` | bus/h9framecomparator.cc:29-34 | setting priority, type or sequence number narrows what a comparator matches to the frames with that value |
| `FrameComparator.IdSettersNarrow` | bus/h9framecomparator.cc:34-35 | and so does setting the destination or the source |
| `FrameComparator.DataSettersNarrow` | bus/h9framecomparator.cc:36-47 | and so does setting the data or the first data byte |
| `FrameComparator.AlternateKindWidens` | bus/h9framecomparator.cc:31-32 | an alternate type adds the frames of that type |
| `FrameComparator.KeysMatch` | bus/h9framecomparator.cc:11-27 | a default-constructed comparator matches every frame, one made from a source id the frames from that source |
| `FrameComparator.LessIsNoOrder` | bus/h9framecomparator.cc:51-66 | two comparators each of which is less than the other |
| `FrameComparator.LessOrdersChains` | bus/h9framecomparator.cc:51-66 | operator< is a strict weak order on a family of comparators exactly if of any two one is at most the other in every field |
| `FrameComparator.LessOrdersKeys` | bus/h9framecomparator.cc:51-66 | on default-constructed and source-id comparators operator< is a strict total order |
| `FrameSubject.Subject.Find` | h9d/framesubject.cc:15 | looking a key up by the order alone finds its entry if it is there and its place if it is not |
| `FrameSubject.Subject.Attach` | h9d/framesubject.cc:13-17 | the index stands for the list of attachments with the new one at its end |
| `FrameSubject.Subject.Detach` | h9d/framesubject.cc:19-31 | the index stands for the list without the observer, and no key keeps an empty list |
| `FrameSubject.Subject.Notify` | h9d/framesubject.cc:33-43 | each observer is called exactly as often as it is attached under a matching comparator; one attached once for a node is called exactly for the frames from that node, one attached once for everything for every frame, and others never |
| `FrameSubject.CallsInOrder` | h9d/framesubject.cc:35-41 | the calls are made entry by entry, and within an entry in the order of its list |
| `FrameSubject.AttachToEntry` | h9d/framesubject.cc:15 | appending under an existing key keeps the index equal to the list of attachments |
| `FrameSubject.AttachNewEntry` | h9d/framesubject.cc:15 | so does inserting a new key at its place in the order |
| `FrameSubject.PrunedRefines` | h9d/framesubject.cc:21-29 | so does removing an observer everywhere and erasing the lists that become empty |
| `FrameSubject.CallsAreWanted` | h9d/framesubject.cc:35-41 | walking the matching entries calls each observer as often as the flat list wants it |
| `Node.SeqNums.Next` | h9d/bus.cc:122-126 | the n-th number handed out for a node is n mod 32, though the counter wraps at 256 |
| `Node.ConsecutiveDiffer` | h9d/bus.cc:122-126 | any 32 consecutive numbers of a node are distinct |
| `Node.PromiseList.OnFrameRecv` | h9d/node.cc:17-36 | one pass sets the matching promises and keeps, in order, the entries neither matching nor expired, and drops the expired ones; in every run each promise is set at most once and only by a frame that its request waits for |
| `Node.PromiseList.Add` | h9d/node.cc:38-48 | a request is appended with its deadline under a promise of its own |
| `Node.ForRegisterMatches` | h9d/node.cc:184-192 | a register request matches exactly the frames of its kind from its node with its number that name the register first |
| `Node.ForResetMatches` | h9d/node.cc:62-65 | a reset matches exactly the node's NODE_TURNED_ON with number 0 |
| `Node.RepliesResolve` | h9d/node.cc:20-24 | in any list a frame sets the promise of a register request exactly if it is that node's reply to it |
| `Node.ResolvedByOwnNode` | h9d/node.cc:20-24 | in every run each register request that was resolved was so by its own node's reply |
| `Node.ResolvedExactly` | h9d/node.cc:21-24 | a promise is set exactly with an entry that matches, expired or not |
| `Node.PassIsInOrder` | h9d/node.cc:20-34 | what stays, is set and is dropped keeps the order of the list |
| `Node.KeptExactly` | h9d/node.cc:20-34 | an entry stays exactly if it was there, does not match and has not expired |
| `Node.SharedAnswer` | h9d/node.cc:183-194 | two requests to a node can be answered by one frame exactly if they ask the same kind of reply for the same register and are a multiple of 32 allocations apart |
| `Node.OneFrameOneAnswer` | h9d/node.cc:136-195 | of the register requests in any pending list that come from the last 32 allocations, a frame resolves at most one |
| `Node.ResetsShareAnswers` | h9d/node.cc:61-67 | no frame answers both a reset and a register request, or the resets of two nodes |
| `Node.DroppedExactly` | h9d/node.cc:26-30 | a promise is erased unset exactly with an entry that has expired and does not match |
| `Node.DroppedWhileAwaited` | h9d/node.cc:43 | an entry can be dropped while its caller waits exactly if sending may take more than three seconds |
| `Node.CopyReply` | h9d/node.cc:200-206 | the copy loop takes the reply's bytes behind the register number, as many as fit, and reads behind the frame's data exactly if that is more than seven |
| `Node.GetRegister` | h9d/device.cc:173-185 | an integer register is the big-endian number of the reply's bytes; the read fails exactly for a reply without any, and is undefined exactly for a frame longer than eight bytes |
| `Node.GetRegisterString` | h9d/device.cc:162-171 | the text is the reply's up to a NUL and the terminator stays inside the eight-byte buffer, exactly for frames of at most eight bytes |
| `Node.SetRegFrame` | h9d/bus.cc:128-151 | the frame carries the register and all bytes, or the first of source id, destination id and size that is out of range is refused |
| `Node.RegisterRoundTrip` | h9d/device.cc:196-221 | the bytes that a write sends denote the value mod 2^(8n) for the n bytes that the register's width takes |
| `Node.RegisterHoldsValue` | h9d/device.cc:199-214 | one, two or four bytes are sent, and every value of a register of up to 32 bits is kept |
| `Node.WriteBack` | h9d/device.cc:196-221 | the bytes read from a register, written back as their number, are the same bytes |
| `Node.WriteThenRead` | h9d/device.cc:173-221 | a read whose reply carries the register and bytes of the frame that the write sent gives the value written, mod 2^(8n) |
| `Node.AnnouncedVersion` | h9d/devmgr.cc:35-40 | the version is the big-endian number of an announcement's last six bytes |
| `Node.VersionSplits` | h9d/device.cc:134-144 | the getters give back the three numbers announced, and a version kept in 16 bits equals the announced one exactly if major and minor are zero |
| `IntelHex.Hex2Bin` | h9fwu/h9fwu.cc:28-46 | the byte that two characters denote, with a NUL ending it early and other characters counting as their low four bits |
| `FirmwareImage.DigitReadsBack` | h9fwu/h9fwu.cc:35-40 | hexadecimal digits of either case are read |
| `IntelHex.ReadHeader` | h9fwu/h9fwu.cc:68-83 | size, address and type are the record's first four bytes and the running sum is theirs |
| `IntelHex.ReadData` | h9fwu/h9fwu.cc:87-99 | the record's bytes are written at the end of the data so far and nothing else changes; it passes exactly if all its bytes add up to 0 mod 256 |
| `IntelHex.ReadExtended` | h9fwu/h9fwu.cc:102-118 | the base address and the check of seven bytes |
| `IntelHex.ReadIhex` | h9fwu/h9fwu.cc:48-130 | buffer and length are those of applying the lines' records one after the other |
| `FirmwareImage.LoadOfFile` | h9fwu/h9fwu.cc:65-129 | every file is loaded by writing each record that is read to where the loader moves it; the length is the end of the last one, or zero if that fails its checksum, and the result is open exactly if a line is too short for its record or a record ends behind the buffer |
| `FirmwareImage.LoadOfInvalidFile` | h9fwu/h9fwu.cc:95-117 | the length is zero exactly if a record fails its checksum and the records up to it end inside the buffer, or nothing is loaded |
| `FirmwareImage.InPlaceIfAscending` | h9fwu/h9fwu.cc:85-92 | every record lands at its own address exactly if the records ascend without overlap |
| `FirmwareImage.WriteAllIsLookup` | h9fwu/h9fwu.cc:88-92 | writing segments in turn gives each address the byte of the last segment that covers it |
| `FirmwareImage.LoadedImage` | h9fwu/h9fwu.cc:48-130 | for ascending records inside the buffer the image is the one that the addresses describe, 0xff in the gaps, and the length is the end of the last record |
| `FirmwareImage.DataReadsBack` | h9fwu/h9fwu.cc:70-99 | a written data record is read back with its address and bytes, however its line ends |
| `FirmwareImage.IgnoredLine` | h9fwu/h9fwu.cc:66-124 | a line that is no record, or a record of another type than data and extended address, makes no difference wherever it stands |
| `FirmwareImage.HighAddressEndsFile` | h9fwu/h9fwu.cc:120-122 | an extended address above 64 KiB ends the file, a lower one is where the following records count from |
| `FirmwareImage.EndOfFileText` | h9fwu/h9fwu.cc:82-101 | the end-of-file record of written files is the usual text |
| `FirmwareImage.WrittenFileLoads` | h9fwu/h9fwu.cc:48-130 | loading a written file, with its end-of-file record and perhaps a start address, gives back what was written |
| `FirmwareImage.DamagedRecordFails` | h9fwu/h9fwu.cc:93-99 | a valid data record with one byte changed, other than its size and type, does not pass |
| `FirmwareImage.ExtendedMeetsFormatExactly` | h9fwu/h9fwu.cc:101-118 | all extended address records of n data bytes pass exactly if all their bytes add up to 0 mod 256, if and only if n is 2 |
| `FirmwareImage.OddRecordIsMisjudged` | h9fwu/h9fwu.cc:101-118 | for every other n, a record whose bytes add up to 0 mod 256 and that fails |
| `Upload.Converse` | h9fwu/h9fwu.cc:196-291 | the frames sent, with their numbers, addresses and payloads, and the way the program ends are those of the step function over the received frames |
| `Upload.FramesAreRead` | h9fwu/h9fwu.cc:241-288 | the frames sent are read as the run's commands, with their page numbers and bytes |
| `Upload.PayloadsAreAPrefix` | h9fwu/h9fwu.cc:230-289 | whatever frames arrive, the payloads of PAGE_FILL are the firmware's first bytes in order, QUIT_BOOTLOADER comes last and only behind all of it, and only an empty firmware divides by zero |
| `Upload.PageCountsWrites` | h9fwu/h9fwu.cc:250-271 | while the upload goes on its page is the number of PAGE_WRITED frames from the node, mod 2^16 |
| `Flashing.UploadEnds` | h9fwu/h9fwu.cc:196-291 | against a bootloader that announces itself once and fills page by page, the upload ends with exactly the needed pages written, each with its bytes, if they fit into the buffer, and otherwise runs over its end |
| `Flashing.SecondAnnouncement` | h9fwu/h9fwu.cc:230-274 | after a second announcement at an offset of a page, that page and all behind it are written with the bytes that are so much further on, or the buffer is overrun; the state is that of an undisturbed upload exactly if the offset is 0 |
| `Flashing.HarmIsPossible` | h9fwu/h9fwu.cc:196-289 | every upload comes to each offset of its first page, and a second announcement there leaves the state of an undisturbed upload exactly if the offset is 0 |
| `Flashing.HeardAsCommand` | h9fwu/h9fwu.cc:267-286 | every frame that carries a command is heard by the bootloader as that command |
| `Flashing.OthersAreIgnored` | h9fwu/h9fwu.cc:226-275 | frames from other nodes, and of other types, make no difference |
| `Flashing.OnlySourceAndTypeCount` | h9fwu/h9fwu.cc:226-275 | of a received frame only its source and its type count |
| `Flashing.HeardExplainsUploader` | h9fwu/h9fwu.cc:220-291 | the uploader in such a conversation is its own run on the frames it heard |
| `Flashing.PaddingIsBlank` | h9fwu/h9fwu.cc:49-50 | for every file whose records pass, what lies behind the returned length is 0xff |
| `Flashing.FileReachesFlash` | h9fwu/h9fwu.cc:48-291 | from a valid ascending HEX file to the flash: each address of the needed pages holds the file's byte, or 0xff where the file has none |

## Left out

- Sockets, select, epoll and kqueue, termios, files: a read returns some of the bytes asked for, nothing yet, a close or an error; an event token is set and consumed.
- The receive time-out set with SO_RCVTIMEO, and a realloc that fails: neither is part of `H9Socket`; `ssize_t` is taken to have 64 bits.
- XML trees, their schema and message classes: a message is a map from attribute names to text, or a request id.
- Exceptions thrown by sends and reads end the program in the source where nobody catches them; the model shows them only where a parser throws (`Slcan`) and where a peer is gone (`AsyncHandoff`).
- Reconnecting drivers, flushing a queue and descriptor reuse in `h9bus`: the drivers of `SendQueue` and `BusMgr` stay connected.
- SendQueue.Pop: which of several equal frames `std::priority_queue` moves to the top is left open, and so is the order of the others.
- BusMgr.Manager.SendFrame: the callback into the bus manager is the driver's returned report, so its order relative to the next `send_data` of the same driver is not modelled.
- FrameSubject.Subject.Find: `std::map` is a list of entries in the order of their keys, searched by the order alone; the shape of the tree is not modelled.
- The lock, the hand-off, the subscriptions and the confirmation of sent frames are step relations on values instead of classes, because their subject is the interleaving of threads.
- SharedMutex.NeverStuck: which of the threads that wait for main_lock_mtx gets it is not said, and no thread enters the lock twice.
- Subscriptions.NoDanglingObserver: the store of `true` to `thread_running` at the start of a client thread is taken to come before the first clean-up pass.
- AsyncHandoff.HandOff: sends that throw for another reason than the worker's own close of the socket are not modelled.
- SentConfirmation.IdsKept: message ids are unbounded, so the wrap at 2^64 is not modelled, and they are allocated atomically; what the unlocked counter does is in `SharedSocket`.
- SharedSocket.IdsDistinctExactly: a data race is modelled as loads and stores that interleave; each write of a message is taken to be accepted whole.
- Node.PromiseList.OnFrameRecv: time is an integer that the caller passes; real clocks are not modelled.
- Node.OneFrameOneAnswer: all pending resets of a node wait for the same frame, so one resolves them all.
- Flashing.UploadEnds: the bootloader is not part of the repository; it is taken to ask for eight bytes at a time, to have pages of a multiple of eight bytes and to announce itself once, or a second time as in `Flashing.SecondAnnouncement`.
- IntelHex.ReadIhex: characters behind the NUL of a line come from earlier lines or are uninitialised, so a line shorter than its record has no defined result here.
- The command languages of h9cli, h9send, h9sniffer and h9stat, configuration, logging, statistics and option parsing: plumbing and printing.
- `H9Tuple`, `H9Value` and the antenna switch: stubs; the 16-bit version of device type 5 appears in `Subscriptions` and `Node` because it makes such a device be replaced when it is announced again with a major or minor version.
