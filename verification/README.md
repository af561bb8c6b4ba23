# A verified model of MyTinyRPC

MyTinyRPC is a reactor-style RPC framework in C++. This project models its stateful core in Dafny and
proves what that core guarantees, and, where it does not keep what one would expect of it, exactly when it does.

| files | what they model |
|---|---|
| `Bytes.dfy` | bytes, 32-bit integers, network byte order |
| `TcpBuffer.dfy` | `TcpBuffer`: `BufferSpec` holds the states and laws over runs, `Tcp` the class over an array |
| `TinyPBFrame.dfy` | TinyPB messages and frames, the frame writer |
| `TinyPBDecoder.dfy` | the resynchronising stream parser: what it accepts, and its loops |
| `TinyPBLaws.dfy` | round trips, compositionality, soundness and completeness of the parser |
| `TinyPBLoop.dfy` | when the parser's outer loop ends |
| `Timer.dfy`, `TimerRuns.dfy`, `TimerClass.dfy` | pending events as values, every run of them, the objects and loops |
| `RpcDispatcher.dfy` | method lookup and response filling |
| `TcpConnection.dfy` | receiving, serving, sending, routing; the two ends joined |
| `RpcCall.dfy` | one client call against its timer, and what it comes to end to end |
| `EventLoop.dfy` | task queue and watched descriptors |
| `MsgUtil.dfy` | the message id odometer, and its ids on the wire |
| `AsyncLog.dfy` | the asynchronous log |

Code that changes state is a class whose methods are proved against functions on values (`State()`,
`View()`); the laws are lemmas about those functions and about all runs of them. Threads are interleavings
of atomic steps. A read or write out of bounds, which the parser's code does not exclude, is an explicit
outcome (`Undefined`, `OutOfRange`, `Failed`, `Broken`), never a guess at what memory holds; `Failed` also
stands for accepted windows that end before they start.

Findings, each an exact condition below: a frame survives the parser if and only if its texts fit the fixed
arrays and hold no zero byte (`FrameRoundTripIff`); a frame split over two reads is lost, though the whole
frames before it are not (`SplitFrame`, `UnfinishedEnd`); a
length field that is zero, or negative without reaching far back, makes the parser spin (`LoopReturnsIff`);
reads that exactly fill the free space are overwritten (`AllSurviveIff`); sent responses stay in the
out-buffer, so every byte is sent exactly once if and only if one single write takes them all
(`SentOnceIff`); dispatch errors never reach the caller (`ResponseCarriesIdIff`), whose closure then runs
only by timeout (`CallOutcome`); services declared in a package are not found (`ServiceReachableIff`); a
response that arrives after a good one meets a released channel pointer (`UndefinedIff`; rpc_channel.cc:120
resets what line 98 dereferences, and the callback stays registered); a watched descriptor that is closed
stays in the loop's book-keeping, and every request for it fails, until its deletion is requested
(`CloseBreaksIff`); the id generator counts from its second seed to all nines and then returns that id
forever (`StuckForever`, `SecondSeedSticks`); a log writer that is idle when told to stop first takes one
more vector, and loses all vectors behind it (`FileAtStop`).

Check everything with `dafny verify dfyconfig.toml`.

## Model

| member | source | states |
|---|---|---|
| Bytes.NetIntRoundTrip | tinyrpc/common/util.cc:36-40 | a stored 32-bit integer, negative ones included, is read back unchanged |
| Bytes.IntAtRoundTrip | tinyrpc/common/util.cc:36-40 | four bytes read as an integer are stored again as the same four bytes |
| Bytes.BigEndian | tinyrpc/common/util.cc:36-40 | the four stored bytes are the base 256 digits of the two's complement value, highest first |
| BufferSpec.StepRefinesQueue | tinyrpc/net/tcp/tcp_buffer.cc:14-91 | every operation keeps read index 0 or below a third of the capacity, and what was unread plus what came in equals what went out plus what is unread |
| BufferSpec.RunRefinesQueue | tinyrpc/net/tcp/tcp_buffer.cc:14-91 | over every run of writes, reads, doublings, other resizes that keep the unread bytes, socket reads and forward index moves, the buffer is a first in, first out byte queue |
| BufferSpec.RunCapacity | tinyrpc/net/tcp/tcp_buffer.cc:22-67 | over every run, doubling included, the capacity stays within the initial one or three times the peak of unread bytes |
| BufferSpec.RunCapacityByWrites | tinyrpc/net/tcp/tcp_buffer.cc:22-30 | without doubling, 2.25 times the peak is enough |
| BufferSpec.StepAmortised | tinyrpc/net/tcp/tcp_buffer.cc:22-67 | the bytes one operation copies are paid by released potential, 3 per byte in, 2 per byte out and 2 per compaction call |
| BufferSpec.RunAmortised | tinyrpc/net/tcp/tcp_buffer.cc:22-67 | the same over every run from any valid buffer |
| BufferSpec.FreshRunAmortised | tinyrpc/net/tcp/tcp_buffer.cc:6-67 | from a new buffer, total copying is at most 3·written + 2·consumed + 2·compaction calls |
| Tcp.TcpBuffer.constructor | tinyrpc/net/tcp/tcp_buffer.cc:6-8 | an empty, zero-filled buffer |
| Tcp.TcpBuffer.ReadAble | tinyrpc/net/tcp/tcp_buffer.cc:14-16 | the number of unread bytes |
| Tcp.TcpBuffer.WriteAble | tinyrpc/net/tcp/tcp_buffer.cc:18-20 | the free space behind the write index |
| Tcp.TcpBuffer.WriteToBuffer | tinyrpc/net/tcp/tcp_buffer.cc:22-30 | appends the bytes to the unread ones, growing to floor(1.5·needed) only when needed, and counts the bytes moved |
| Tcp.TcpBuffer.ReadFromBuffer | tinyrpc/net/tcp/tcp_buffer.cc:32-40 | returns the longest available prefix up to the size asked for and leaves the rest; an empty buffer leaves the caller's vector alone |
| Tcp.TcpBuffer.ResizeBuffer | tinyrpc/net/tcp/tcp_buffer.cc:42-51 | keeps the unread bytes that fit the new capacity |
| Tcp.TcpBuffer.AdjustBuffer | tinyrpc/net/tcp/tcp_buffer.cc:53-67 | compaction is invisible to the reader and restores the index bound |
| Tcp.TcpBuffer.MoveReadIndex | tinyrpc/net/tcp/tcp_buffer.cc:69-80 | drops (or with a negative move re-exposes) bytes; refused when the capacity is reached |
| Tcp.TcpBuffer.MoveWriteIndex | tinyrpc/net/tcp/tcp_buffer.cc:81-91 | exposes bytes already stored; refused when the capacity is reached |
| TinyPBFrame.FrameFields | tinyrpc/net/coder/tinypb_coder.cc:146-218 | every field of a frame lies at its documented offset, whatever follows, and the frame is as long as its length field says |
| TinyPBFrame.FrameConstants | tinyrpc/net/coder/tinypb_coder.cc:146-218 | a frame in literal bytes: it starts with 2, ends with checksum 0 0 0 1 and 3, and an empty id is written as the eight digits 12345678 |
| TinyPBFrame.FramePrefixFree | tinyrpc/net/coder/tinypb_coder.cc:146-221 | no frame is a proper prefix of another, and equal frames say the same |
| TinyPBFrame.WriteFrame | tinyrpc/net/coder/tinypb_coder.cc:155-216 | the cursor fills the whole allocation, once, with the frame |
| TinyPBFrame.EncodeTinyPB | tinyrpc/net/coder/tinypb_coder.cc:146-221 | a new array holding exactly the frame; the message comes back with default id and lengths filled in |
| TinyPBFrame.Encode | tinyrpc/net/coder/tinypb_coder.cc:10-24 | appends one frame per message, in order, to the out-buffer |
| TinyPBDecoder.ParseFields | tinyrpc/net/coder/tinypb_coder.cc:70-142 | the running offsets compute the window's message, or drop the window at a failing index check |
| TinyPBDecoder.CStringUpToZero | tinyrpc/net/coder/tinypb_coder.cc:85-135 | a text read from a fixed array is the longest prefix without a zero byte |
| TinyPBDecoder.NextWindow | tinyrpc/net/coder/tinypb_coder.cc:38-67 | the inner loop finds the next window or the end of the bytes |
| TinyPBDecoder.Decode | tinyrpc/net/coder/tinypb_coder.cc:26-144 | drains the buffer, terminates, and appends exactly the stream's messages |
| TinyPBLaws.FrameRoundTripIff | tinyrpc/net/coder/tinypb_coder.cc:85-135 | a frame decodes to its own message exactly when its id (the default one if empty) is shorter than 128 bytes, method and error text are shorter than 512, and none of the three holds a zero byte |
| TinyPBLaws.LongIdLost | tinyrpc/net/coder/tinypb_coder.cc:85-91 | a frame the encoder writes and the parser cannot read: an id of 128 letters fills the array and leaves no zero byte to end the string built from it |
| TinyPBLaws.StreamRoundTrip | tinyrpc/net/coder/tinypb_coder.cc:26-221 | frames and start-free gaps, in any order, decode to exactly the frames' messages, in order, whatever lies before and behind them |
| TinyPBLaws.DecodeStreamRoundTrip | tinyrpc/net/coder/tinypb_coder.cc:26-221 | the same for one whole received buffer |
| TinyPBLaws.FramesRoundTrip | tinyrpc/net/coder/tinypb_coder.cc:10-144 | what `Encode` writes, `Decode` reads back |
| TinyPBLaws.DecodeGap | tinyrpc/net/coder/tinypb_coder.cc:38-62 | bytes without a start byte are skipped |
| TinyPBLaws.DecodeAppend | tinyrpc/net/coder/tinypb_coder.cc:33-143 | settled bytes decode the same whatever follows, and what follows is decoded from its own first byte; dropped windows disturb neither |
| TinyPBLaws.DecodeConcat | tinyrpc/net/coder/tinypb_coder.cc:33-143 | the messages of two streams, one behind the other, are those of the first alone and then those of the second alone |
| TinyPBLaws.DecodeShift | tinyrpc/net/coder/tinypb_coder.cc:33-143 | what decodes both alone and behind other bytes decodes to the same messages |
| TinyPBLaws.SettledConcat | tinyrpc/net/coder/tinypb_coder.cc:33-143 | settled streams are closed under concatenation and decode to the concatenated messages, on the sole condition that the indices fit an int |
| TinyPBLaws.PiecesSettled | tinyrpc/net/coder/tinypb_coder.cc:38-62 | any sequence of whole windows and start-free bytes is settled |
| TinyPBLaws.StreamSettled | tinyrpc/net/coder/tinypb_coder.cc:38-62 | so is any stream of frames and start-free gaps, whatever the messages |
| TinyPBLaws.ParseExtends | tinyrpc/net/coder/tinypb_coder.cc:70-142 | a window whose reads are in bounds parses the same when more bytes follow |
| TinyPBLaws.DecodedFits | tinyrpc/net/coder/tinypb_coder.cc:33-143 | a decoded message is never longer than the bytes it came from |
| TinyPBLaws.SplitFrame | tinyrpc/net/coder/tinypb_coder.cc:26-50 | a frame arriving in two reads is recovered exactly when one of them holds all of it |
| TinyPBLaws.UnfinishedEnd | tinyrpc/net/coder/tinypb_coder.cc:38-52 | an incomplete tail costs nothing: behind settled bytes, start bytes whose announced end lies behind all received bytes, or which are the last byte received, leave what is decoded as it was |
| TinyPBLaws.HeaderOfNext | tinyrpc/net/coder/tinypb_coder.cc:38-52 | whole frames and the first five bytes of the next decode to exactly the whole frames' messages |
| TinyPBLaws.FindLeftmost | tinyrpc/net/coder/tinypb_coder.cc:38-62 | the scan returns the leftmost window with matching start, length and end |
| TinyPBLaws.ScanIff | tinyrpc/net/coder/tinypb_coder.cc:38-67 | in terms of the bytes alone: the scan finds a window, finds nothing, or is out of range exactly when every start byte it passes announces an end behind the bytes or on a byte that is not an end byte, and the one it stops at is a delimited window, the end, or a start byte whose length is cut off or whose end is negative or at least 2^31 - 1 |
| TinyPBLaws.ParsedIff | tinyrpc/net/coder/tinypb_coder.cc:70-142 | a window parses to a message exactly when texts that fit the arrays lie at the offsets the length fields give, and the message is the one they spell |
| TinyPBLaws.DroppedIff | tinyrpc/net/coder/tinypb_coder.cc:70-128 | a window is dropped exactly when it is at most five bytes long or its id or its method, as far as they fit the arrays, reach its last byte too early |
| TinyPBLaws.TraceSound | tinyrpc/net/coder/tinypb_coder.cc:33-143 | accepted windows are delimited, strictly increasing and disjoint, and the messages are those of the windows, in order |
| TinyPBLaws.TraceComplete | tinyrpc/net/coder/tinypb_coder.cc:33-68 | every delimited window starts inside an accepted one, so nothing decodable is passed over |
| TinyPBLoop.LoopReturnsIff | tinyrpc/net/coder/tinypb_coder.cc:33-143 | when one forward pass over the bytes meets no length that is cut off or out of range, no window whose fields overrun, and none that sends the loop back behind windows already taken, the outer loop returns exactly when the pass meets no window that ends before its start either |
| TinyPBLoop.LoopReturnsSoonIff | tinyrpc/net/coder/tinypb_coder.cc:33-143 | on any input, overrunning ones and backward lengths included, the loop returns without going out of bounds exactly when it does so within one round more than there are bytes |
| TinyPBLoop.DecodesIff | tinyrpc/net/coder/tinypb_coder.cc:33-143 | the forward pass ends well exactly on the input the parser can decode |
| TinyPBLoop.DecodedReturns | tinyrpc/net/coder/tinypb_coder.cc:33-68 | hence the loop returns on it |
| TinyPBLoop.TrappedNeverReturns | tinyrpc/net/coder/tinypb_coder.cc:33-68 | after accepting a zero length, or a negative one that does not reach behind the round's first byte, every later round finds the same window |
| TinyPBLoop.SpinningInput | tinyrpc/net/coder/tinypb_coder.cc:33-68 | a family of inputs on which it spins |
| TimerSpec.InsertSorted | tinyrpc/net/timer.cc:34 | insertion keeps the map sorted and goes behind every entry with the same key |
| TimerSpec.LiveAppend | tinyrpc/net/timer.cc:76-85 | collecting the live entries keeps the map's order |
| TimerSpec.AddValid | tinyrpc/net/timer.cc:20-39 | adding an event keeps keys, order and arming right; the kernel timer is set anew exactly when nothing was pending or the event is earlier than the first |
| TimerSpec.RearmValid | tinyrpc/net/timer.cc:106-131 | re-arming sets the kernel timer for the first arrival if that is ahead and otherwise for the reading plus 100 ms; with nothing pending it is left alone |
| TimerSpec.TimespecExact | tinyrpc/net/timer.cc:116-130 | the delay is positive and its seconds and nanoseconds are exact and normalised |
| TimerSpec.OnTimerPartition | tinyrpc/net/timer.cc:71-98 | one scan splits the pending entries into fired, dropped as cancelled and still pending; a repeating one comes back due at exactly its interval after a reading of its own taken during the scan; the map and the arming are left valid |
| TimerRuns.RunSafety | tinyrpc/net/timer.cc:20-104 | over every run: no early firing, one-shot events at most once, repeats at least their interval apart, nothing after cancellation |
| TimerRuns.RunSchedule | tinyrpc/net/timer.cc:60-104 | over every run: an event's first run is due exactly at its creation reading plus its interval, each later one between the interval after the scan that ran it before began and the interval after that scan ended, and so are the entries still pending |
| TimerRuns.NextRunBound | tinyrpc/net/timer.cc:60-104 | with scans within d of the deadline, a repeating event runs again at most d after its interval past the end of the scan of its last run, or after 100 ms past the last arming, whichever is later |
| TimerRuns.NoLostWakeup | tinyrpc/net/timer.cc:20-131 | in every reachable state with pending events the kernel timer is armed, for the first arrival if that was ahead when it was armed and otherwise 100 ms after the arming |
| TimerRuns.NoLostEvent | tinyrpc/net/timer.cc:20-104 | an added event that is neither cancelled nor a finished one-shot is pending |
| TimerRuns.Lateness | tinyrpc/net/timer.cc:60-131 | a scan within d of the deadline runs no task later than d after its arrival or, if the first pending event was overdue at the last arming, d after 100 ms past that arming |
| TimerRuns.OverdueAddition | tinyrpc/net/timer.cc:20-39 | an event already overdue when added runs another 100 ms late, however punctual the scans |
| TimerRuns.StepInv | tinyrpc/net/timer.cc:20-104 | creation, addition, cancellation and scanning all keep the timer's invariant |
| TimerRuns.OnTimerEffect | tinyrpc/net/timer.cc:71-98 | what remains pending after a scan was not due or has just run and repeats, and nothing else disappears |
| Timers.TimeEvent.constructor | tinyrpc/net/time_event.cc:6-9 | arrival is the creation reading plus the interval |
| Timers.TimeEvent.SetCancel | tinyrpc/net/time_event.h:16-18 | cancels whatever its argument |
| Timers.TimeEvent.ResetArriveTime | tinyrpc/net/time_event.cc:11-14 | arrival becomes the next reading plus the interval |
| Timers.Timer.ResetArriveTime | tinyrpc/net/timer.cc:106-136 | computes the specified arming from the first event, through the timespec |
| Timers.Timer.AddTimeEvent | tinyrpc/net/timer.cc:20-39 | computes the specified insertion and keeps validity for an event not pending |
| Timers.Timer.OnTimer | tinyrpc/net/timer.cc:60-104 | the three loops compute the specified scan, run the fired tasks in order, and leave the timer valid whatever the clock reads |
| Timers.Timer.CollectDue | tinyrpc/net/timer.cc:75-86 | removes the due prefix and collects its live entries |
| Timers.Timer.BringBack | tinyrpc/net/timer.cc:89-95 | restarts and re-adds the repeating events in order |
| RpcDispatch.ParseServiceFullName | tinyrpc/net/rpc/rpc_dispatcher.cc:105-121 | fails exactly without a dot; otherwise splits the name at its first dot |
| RpcDispatch.ServiceReachableIff | tinyrpc/net/rpc/rpc_dispatcher.cc:25-46 | the lookup of a registered method's full name finds it exactly when the service's own name has no dot; otherwise the error is "method not found" if the part before the first dot names a service, else "service not found" |
| RpcDispatch.PackagedServiceLost | tinyrpc/net/rpc/rpc_dispatcher.cc:94-97 | the service p.S of package p, registered under its full name, is not found |
| RpcDispatch.UnknownServiceSilent | tinyrpc/net/rpc/rpc_dispatcher.cc:34-40 | an empty registry: the error is noted on the request and the response left as it was |
| RpcDispatch.DispatchErrorIff | tinyrpc/net/rpc/rpc_dispatcher.cc:22-85 | a request not answered has exactly one reason, told in terms of the registry, and its code, the text of that code and the text's length are noted on the request; an answered one has none and stays unchanged |
| RpcDispatch.ResponseCarriesIdIff | tinyrpc/net/rpc/rpc_dispatcher.cc:22-92 | whatever the response held, it takes over the request's id and method exactly when the handler was reached; otherwise it is left alone and carries no error |
| RpcDispatch.ResponseCarriesReply | tinyrpc/net/rpc/rpc_dispatcher.cc:72-85 | the payload of the response is the reply of the registered handler run on the request's payload, with error code 0; the partial bytes if the reply does not serialise; otherwise what it was |
| RpcDispatch.RpcDispatcher.Dispatch | tinyrpc/net/rpc/rpc_dispatcher.cc:22-92 | the response has the request's id and method if the handler was reached and carries the handler's reply, and is otherwise unchanged; the request is unchanged if answered and otherwise carries the code of its failure |
| RpcDispatch.RpcDispatcher.RegisterService | tinyrpc/net/rpc/rpc_dispatcher.cc:94-97 | the service is stored under its name, replacing an earlier one |
| Pipeline.AllSurviveIff | tinyrpc/net/tcp/tcp_connection.cc:41-66 | everything that arrives is kept exactly when it does not fill the free space |
| Pipeline.SurvivingTail | tinyrpc/net/tcp/tcp_connection.cc:41-66 | what is kept is the tail left after whole fillings of the free space |
| Pipeline.NothingSurvives | tinyrpc/net/tcp/tcp_connection.cc:41-66 | bytes that fill the free space a whole number of times are all lost |
| Pipeline.TcpConnection.ReadOnce | tinyrpc/net/tcp/tcp_connection.cc:42-51 | one read, with the doubling before it and the index move after it |
| Pipeline.TcpConnection.ReceiveAll | tinyrpc/net/tcp/tcp_connection.cc:38-66 | the loop appends exactly the surviving bytes |
| Pipeline.SentOnceIff | tinyrpc/net/tcp/tcp_connection.cc:153-183 | for any batches and any write results, the bytes sent are prefixes of the responses, one per write, and each byte is sent exactly once and in order exactly when a single write takes bytes and takes all of them |
| Pipeline.SendingStops | tinyrpc/net/tcp/tcp_connection.cc:153-178 | what the writes would have given behind one that blocks, or behind one that takes everything, does not matter |
| Pipeline.CompleteWritesIff | tinyrpc/net/tcp/tcp_connection.cc:153-183 | when every write takes all it is offered, the client gets exactly the responses if and only if no batch but the last holds bytes |
| Pipeline.ResentInput | tinyrpc/net/tcp/tcp_connection.cc:153-183 | two answers in two rounds: the first is sent twice |
| Pipeline.ShortWriteInput | tinyrpc/net/tcp/tcp_connection.cc:153-176 | two short writes: half the answer is sent twice, the rest never |
| Pipeline.ServeAll | tinyrpc/net/tcp/tcp_connection.cc:38-183 | round after round of arriving bytes, reading, serving and onWrite, the connection sends exactly the bytes those results speak of, for the requests in what reading keeps |
| Pipeline.KeptWhole | tinyrpc/net/tcp/tcp_connection.cc:38-66 | inputs shorter than two thirds of the in-buffer are always kept whole, whatever came in earlier rounds |
| Pipeline.TcpConnection.SendAll | tinyrpc/net/tcp/tcp_connection.cc:152-178 | sends from the same read index each time, leaves the buffer as it was, and stops listening for writing exactly when one write took everything |
| Pipeline.TcpConnection.OnWriteClient | tinyrpc/net/tcp/tcp_connection.cc:134-193 | encodes every queued message, calls each completion once with it, clears the queue |
| Pipeline.TcpConnection.ExcuteServer | tinyrpc/net/tcp/tcp_connection.cc:82-118 | drains the in-buffer and appends the frames of one response per decoded request |
| Pipeline.TcpConnection.ExcuteClient | tinyrpc/net/tcp/tcp_connection.cc:119-131 | calls, in order, the callbacks of the decoded messages with registered ids |
| Pipeline.TcpConnection.PushSendMessage | tinyrpc/net/tcp/tcp_connection.cc:207-209 | appends to the queued messages |
| Pipeline.TcpConnection.PushReadMessage | tinyrpc/net/tcp/tcp_connection.cc:211-213 | registers the callback unless the id is taken |
| Pipeline.RoutedAll | tinyrpc/net/tcp/tcp_connection.cc:124-130 | with all ids registered, each message reaches its own callback, in order |
| Pipeline.RoutedIgnores | tinyrpc/net/tcp/tcp_connection.cc:124-130 | messages with unregistered ids are ignored, the others keep their order and reach their callbacks |
| Pipeline.HeardBackIff | tinyrpc/net/rpc/rpc_dispatcher.cc:28-75 | a caller hears back exactly when its request reached the handler |
| Pipeline.EndToEnd | tinyrpc/net/tcp/tcp_connection.cc:82-118 | any valid requests are answered one by one, in order; id and method are kept and the payload is the handler's reply to that request when the handler was reached, otherwise the answer is the empty message under the default id |
| Pipeline.CallbacksInOrder | tinyrpc/net/tcp/tcp_connection.cc:82-131 | a client with all its ids registered sees exactly its callbacks called, in request order, each with the handler's reply to its own request |
| Pipeline.Exchange | README.md:307-326 | the composition on objects: queue, send, serve, send back, route |
| RpcCall.ClosureRunsExactly | tinyrpc/net/rpc/rpc_channel.cc:57-125 | in every interleaving, with any number of responses, the closure runs exactly once if the call timed out or a response was good, and otherwise never |
| RpcCall.UndefinedIff | tinyrpc/net/rpc/rpc_channel.cc:92-121 | in every interleaving the released channel pointer is dereferenced exactly when a response arrives after a good one |
| RpcCall.SecondResponseUndefined | tinyrpc/net/rpc/rpc_channel.cc:71-121 | every call has such a run |
| CallOutcomes.CallOutcome | tinyrpc/net/rpc/rpc_channel.cc:57-125 | over every run of a client call: if the request did not reach a handler, no callback is called and only the timeout runs the closure, however often the server answers; if it did, the closure runs once if the call timed out or an answer the client can parse was delivered |
| RpcCall.TimeoutStep | tinyrpc/net/rpc/rpc_channel.cc:58-66 | a closure run by the timeout finds the controller cancelled with the timeout error, and no response came before |
| RpcCall.TimeoutOnTime | tinyrpc/net/rpc/rpc_channel.cc:57-68 | over every run the timeout is counted exactly when its timer event ran, which is due exactly at the call's reading plus the timeout and never runs earlier |
| RpcCall.NoTimeoutAfterResponse | tinyrpc/net/rpc/rpc_channel.cc:97-98 | after a response the timeout task never runs again |
| RpcCall.HappenInv | tinyrpc/net/rpc/rpc_channel.cc:57-125 | every callback, the release of the channel included, and every timer step keeps the call's invariant |
| RpcCall.RpcChannel.OnTimeout | tinyrpc/net/rpc/rpc_channel.cc:58-66 | leaves the call cancelled with the timeout error and runs the closure once more exactly if there is one |
| RpcCall.RpcChannel.OnConnect | tinyrpc/net/rpc/rpc_channel.cc:71-85 | goes on to write exactly when connecting succeeded, otherwise the error is recorded; never runs the closure |
| RpcCall.RpcChannel.OnResponse | tinyrpc/net/rpc/rpc_channel.cc:92-121 | cancels the timer event; runs the closure exactly if the response is good and the call not cancelled; a good response, and no other, releases the channel |
| EventLoopSpec.TasksInOrder | tinyrpc/net/eventloop.cc:74-88 | in every interleaving, run tasks, current batch and queue make up the enqueue history, and the user callbacks called are those of the run tasks, in order |
| EventLoopSpec.BatchFirst | tinyrpc/net/eventloop.cc:78-88 | a task enqueued during a batch runs after the whole batch |
| EventLoopSpec.ThreadOrder | tinyrpc/net/eventloop.cc:144-168 | a thread's deferred requests are executed in the order it made them |
| EventLoopSpec.MirrorsKernel | tinyrpc/net/eventloop.cc:9-35 | the believed set equals the kernel's, no epoll_ctl fails, and each mask is that of the last carried-out addition |
| EventLoopSpec.KernelWatches | tinyrpc/net/eventloop.cc:9-35 | told from the steps of the run alone: the kernel watches a descriptor exactly when the last carried-out request for it was an addition, with the events last set on its FdEvent before that |
| EventLoopSpec.CloseBreaksIff | tinyrpc/net/eventloop.cc:9-35 | after a close, over every run: the book-keeping matches the kernel again exactly when the descriptor was not watched or its deletion has been requested, and exactly the requests for it up to then fail |
| EventLoopSpec.WatchedReachable | tinyrpc/net/eventloop.cc:9-22 | a state with a watched descriptor is reached by one request |
| EventLoops.EventLoop.AddTask | tinyrpc/net/eventloop.cc:186-194 | appends to the queue |
| EventLoops.EventLoop.AddEpollEvent | tinyrpc/net/eventloop.cc:144-153 | carried out at once on the loop's thread, after which the kernel watches exactly the FdEvent's own events; queued from any other thread |
| EventLoops.EventLoop.DeleteEpollEvent | tinyrpc/net/eventloop.cc:159-168 | carried out at once on the loop's thread, after which the kernel no longer watches the descriptor; queued from any other thread |
| EventLoops.EventLoop.RunPendingTasks | tinyrpc/net/eventloop.cc:77-88 | runs exactly the swapped-out tasks and their callbacks, in order, keeping the invariant; what tasks and other threads enqueue meanwhile is left pending in order |
| MsgIds.MsgUtil.GenMsgID | tinyrpc/common/msg_util.cc:15-51 | reseeds when empty or at the maximum, each digit then being its random byte modulo 10 (unchanged when reading fails), otherwise counts up in place; one step of the runs below |
| MsgIds.SeedsEqualIff | tinyrpc/common/msg_util.cc:29-33 | two seeds are equal exactly when their random bytes agree modulo 10 |
| MsgIds.EverySeed | tinyrpc/common/msg_util.cc:29-33 | every string of twenty digits is the seed of some bytes |
| MsgIdFrames.IdsOfTwenty | tinyrpc/common/msg_util.cc:15-51 | from a fresh generator every id returned is empty (reading failed) or has twenty digits |
| MsgIdFrames.GeneratedIdRoundTrip | tinyrpc/net/coder/tinypb_coder.cc:85-91 | such ids survive writing and parsing |
| MsgIds.AdvancedIncrements | tinyrpc/common/msg_util.cc:37-47 | counting up keeps length and digits and raises the value by exactly one, and the string in lexicographic order |
| MsgIds.CallsCount | tinyrpc/common/msg_util.cc:15-51 | over every run of calls, as long as no id is all nines, each is one more than the one before |
| MsgIds.CallsIncrease | tinyrpc/common/msg_util.cc:15-51 | so they are distinct and increase as numbers and as strings |
| MsgIds.CallsUntilNines | tinyrpc/common/msg_util.cc:15-51 | an id of value v and length n is followed by all nines exactly 10^n - 1 - v calls later |
| MsgIds.RepeatsIff | tinyrpc/common/msg_util.cc:16-48 | a call returns the previous id exactly when it reseeds and draws the same digits, or counts from all nines while the maximum is a longer string of nines |
| MsgIds.StuckForever | tinyrpc/common/msg_util.cc:37-48 | from all nines with another maximum every later call returns the same id |
| MsgIds.StuckAtNines | tinyrpc/common/msg_util.cc:37-48 | with an id no longer than the maximum, being stuck means being at all nines and not at the maximum |
| MsgIds.StuckReachable | tinyrpc/common/msg_util.cc:15-51 | a run from a fresh generator that gets stuck |
| MsgIds.SecondSeedSticks | tinyrpc/common/msg_util.cc:22-48 | every run that counts from a seed shorter than the maximum to all nines gets stuck |
| AsyncLogSpec.LogConservation | tinyrpc/common/log.cc:43-95 | in every interleaving the file continued by what is buffered is the text of the messages pushed, in push order; it is complete exactly when only empty text is buffered |
| AsyncLogSpec.StepConserves | tinyrpc/common/log.cc:140-219 | every push, drain and writer step keeps this |
| AsyncLogSpec.CatchesUp | tinyrpc/common/log.cc:74-206 | nothing is held back for good: while the writer is not told to stop, the drain and the writer by themselves bring the file up to everything pushed |
| AsyncLogSpec.FileAtStop | tinyrpc/common/log.cc:140-206 | when the writer has stopped, the file holds exactly the vectors it had taken when the flag was set and, if it was waiting then, one more; the rest of the pushed text, all vectors behind them included, is lost; no empty vector is ever queued |
| AsyncLogSpec.WaitsForVector | tinyrpc/common/log.cc:140-146 | a writer waiting at an empty queue neither writes nor stops until another vector is queued, flag or not |
| AsyncLogSpec.NothingAfterStop | tinyrpc/common/log.cc:203-206 | a stopped writer never writes again |
| AsyncLogs.AsyncLogger.WriteBatch | tinyrpc/common/log.cc:150-206 | takes the front vector and appends its text, then tests the stop flag |
| AsyncLogs.Logger.AsyncLoop | tinyrpc/common/log.cc:74-83 | moves the buffer behind the queue unless it is empty |

## Left out

- Sockets, epoll, timerfd, eventfd and files: their results are parameters or small state (the interest set, the armed deadline, the bytes a read or write takes). One monotone clock is assumed, although the code mixes wall time and CLOCK_MONOTONIC.
- Connection states: onRead and onWrite are modelled for a connected socket whose peer has not closed.
- BufferSpec.RunRefinesQueue: runs move the indices forwards only; a negative move, which re-exposes or retracts bytes, is specified for the single call in `MoveReadIndex` and `MoveWriteIndex`.
- TinyPBDecoder.Decode: requires that the input decodes. Besides reads and writes out of bounds and inputs on which the loop never returns, this leaves out accepted windows with a negative length that send the loop back behind windows already taken; for those `LoopReturnsSoonIff` says whether the loop returns, but not with which messages.
- A read callback called with a released channel pointer is an explicit outcome that ends the run, not a guess at what the program does then.
- Locks: each critical section is one atomic step; the second unlock in `ScopeLocker`'s destructor is not modelled.
- Message objects are values: the model does not capture that two lists may share one `TinyPBProtocol` object that encoding updates in place. The checksum field, never read back, is left out.
- 32-bit overflow is modelled for length fields and end indices; buffer capacities and clock arithmetic are unbounded.
- Windows whose fields read or write out of bounds are an explicit failure of the whole decode, not a guess at the bytes found there.
- `deleteTimeEvent`: assigns where it should compare (timer.cc:49) and has no caller. The cancel flag starts false; the header leaves it unset. Each event is added once.
- Calls that share one channel: `m_timer_event` is overwritten by the second call, so the first response cancels the wrong timer. One call per channel is modelled, as the CALLRPC macro makes it.
- `CallMethod`'s early failures (uninitialised channel, request that does not serialise) and exceptions in closures.
- The EPOLLERR branch and the handler functions of `FdEvent`; `listen` and `cancel` appear as arbitrary changes of an event's mask.
- `GenMsgID` reads index -1 before testing it; the model tests first, which gives the same ids.
- The application log buffer (a second copy of the same pipeline), the synchronous log, file rotation and dates.
- Protobuf: parsing, running and serialising a method is one function on bytes, a parameter of the proofs.
- Configuration, addresses, the code generator, thread pools, getters and setters, `StringCoder`: they hold or copy values and have no behaviour of their own to prove.
