# A verified model of MTRpc

MTRpc is an RPC framework: an epoll loop with timers, reference-counted event sources whose handlers run on a
thread pool, a segmented ring buffer per socket, an HTTP header parser and a JSON codec. This project models these
parts in Dafny and proves what they promise each other. `dafny verify dfyconfig.toml` checks all of it.

## What is modelled

**Timers** (`RbShape`, `RbBalance`, `RbSteps`, `RbSuccessor`, `RbTree`, `TimerQueue`, `IoEvent`, `Poller`). The
red-black tree works on nodes with parent links and a shared sentinel, as the source does. A method writes the links;
what the heap then pictures is a tree with one subtree in focus, and lemmas about such trees carry balance and order
from step to step. `TimerQueue.Queue` sees the tree as a queue sorted by deadline, `Poller.Epoller` keeps two of them,
sharing the sentinel, and is proved to hold what two maps from timers to deadlines would.

**Dispatch** (`Dispatch`, `RefCount`, `SocketStream`, `TaskQueue`, `SpinList`). The pending/processing word of an
event is a state machine whose steps are the atomic instructions of any number of threads; `RefCount` puts the
reference count, the timers and the withdrawal on top of it and refines it. The linked list under the task queue is
modelled in place, the queue itself as interleaved posts and batches.

**Ring buffer** (`RingMath`, `RingBuffer`, `RingStream`). Cursors are places on a circle of pieces of any sizes; the
stream is what lies between reader and writer.

**HTTP headers** (`HttpToken`, `HttpParser`, `HttpRoundTrip`, `HttpLaws`, `HttpHeader`, `Numerals`). The parser class
is proved against a function of one character at a time, and the serializer's text against that function; what it
refuses is told exactly.

**JSON** (`JsonValue`, `JsonOrder`, `JsonText`, `JsonLexer`, `JsonTokens`, `JsonReader`, `JsonUtf8`, `JsonRoundTrip`,
`JsonMembers`, `JsonParser`, `JsonLayout`, `JsonStyled`). Reader and both writers are classes; they meet in the sequence
of tokens that a text spells. `JsonOrder`, `JsonTokens`, `JsonUtf8` and `JsonMembers` say what the functions that the
classes are proved against mean.

## What the code does not do

The proofs follow the code where it differs from what one would expect of it. Each point is an exact condition or a
concrete run:

- Two timeouts raised before the handler takes the first are one bit, and the second timer's reference is lost
  (`RefCount.Coalesced`); `RefCount.Conserved` counts all references with such losses, `RefCount.NoneLost` says which
  steps lose some, and by `RefCount.LostForever` a loss keeps the event alive for ever.
- A handler call that returns early keeps the references of the timeouts in its mask (`SocketStream.Stream.OnEvent`).
- The wait for the next timer ends at the earliest deadline exactly when that is near enough for a 32-bit number of
  milliseconds and not hidden behind a read timer too far away (`Poller.WaitTime`); `Poller.WaitFails` has an input for
  each way to fail.
- A null task ends its batch, and what is behind it is dropped (`TaskQueue.InOrder`).
- The ring loses all that is unread when a receive, a reservation or a chunk of output carries the writer onto the
  reader (`RingStream.Run`, `RingBuffer.Ring.Reserve`, `RingBuffer.Ring.NextOut`).
- `isFull` finds a ring with a single free byte full exactly when the reader is not at the start of a piece
  (`RingStream.FullExactly`).
- The free or the unread memory takes one slice more than there are pieces exactly when it begins and ends in one piece,
  goes all the way round, and ends behind the piece's first byte (`RingBuffer.Ring.GetReciveBuffer`,
  `RingBuffer.Ring.GetSendBuffer`). The callers' arrays have room for as many slices as there are pieces.
- A request header split in two is read differently exactly when the split is inside a value that the second part ends:
  the value then has the empty name (`HttpParser.SplitInValue`). For responses this is so as long as no line has an
  empty name, which can hide it (`HttpParser.SplitIndependent`).
- A response's version is not kept, the method comes back with a blank, and the fields come back with a blank behind
  each value exactly when no value is empty or starts with a blank; otherwise blanks left in the buffer can end up in
  the next name (`HttpRoundTrip.RequestRoundTrip`, `HttpRoundTrip.ResponseRoundTrip`).
- Integers near the ends of the 32-bit ranges come back as reals (`JsonRoundTrip.FastRoundTrip`).
- Any token but the array's end separates an array's elements (`JsonRoundTrip.AnySeparator`): the check for a comma in
  json/json_reader.cpp:566-567 can never fail.

## Model

| member | source | states |
|---|---|---|
| RbTree.RbTree.LeftRotate | common/ngx_rbtree.cpp:324-352 | Turns a node and its right child to the left: every link of the two, of the subtree that changes sides and of the parent is as it should be, and no other node changes. |
| RbTree.RbTree.RotateLeft | common/ngx_rbtree.cpp:324-352 | The same as a change of the pictured tree: the subtree in focus is rotated, and the in-order sequence and the set of nodes stay. |
| RbTree.RbTree.RightRotate | common/ngx_rbtree.cpp:354-381 | The mirror image of the left rotation, link by link. |
| RbTree.RbTree.RotateRight | common/ngx_rbtree.cpp:354-381 | The mirror image as a change of the pictured tree, keeping order and nodes. |
| RbTree.RbTree.FindPlace | common/ngx_rbtree.cpp:102-111 | The descent ends at a free place that has every key up to the new one before it and every larger one behind, after at most 2 log2(n + 1) rounds in a red-black tree. |
| RbTree.RbTree.InsertValue | common/ngx_rbtree.cpp:96-118 | The new node hangs at that place as a red leaf, with the sentinel below it, and the rest of the tree is as before. |
| RbTree.RbTree.Rebalance | common/ngx_rbtree.cpp:44-93 | From a tree that is red-black but for one red node that may have a red parent, the loop and the blackening of the root make a red-black tree of the same order. |
| RbTree.RbTree.Insert | common/ngx_rbtree.cpp:23-93 | Inserting a node of any key into any valid tree leaves a valid tree, with the node after every key up to its own and before every larger one, and the other nodes in their order. |
| RbTree.RbTree.DeleteLoop | common/ngx_rbtree.cpp:256-321 | From a subtree that is one black node short, the loop ends at the root or at a red node, with order and nodes kept and the shortage still the only flaw. |
| RbTree.RbTree.Delete | common/ngx_rbtree.cpp:156-321 | Removing any node of any valid tree leaves a valid tree whose order is the old one without that node; the node's links and key are cleared. |
| RbTree.RbTree.First | common/ngx_rbtree.cpp:384-392 | The minimum is the first node in order, or the sentinel for an empty tree, and is found in at most 2 log2(n + 1) rounds. |
| RbBalance.PathBound | common/ngx_rbtree.cpp:102-111 | No path from the root of a red-black tree of n nodes is longer than 2 log2(n + 1), which bounds the rounds of both descents. |
| RbSuccessor.SuccessorBalance | common/ngx_rbtree.cpp:176-245 | Putting the successor in the place of a node with two children leaves a red-black tree if the successor was red, and else exactly one subtree that is a black node short. |
| TimerQueue.Queue.Insert | common/ngx_rbtree.cpp:23-118 | The queue's order gets the node at the one place that keeps it sorted and puts equal deadlines in the order of insertion; its map of deadlines gets one entry. |
| TimerQueue.Queue.DeleteApart | common/ngx_rbtree.cpp:156-321 | Removing a timer takes exactly it out of the order and the map, and leaves the other tree valid although both use one sentinel as scratch space. |
| TimerQueue.Queue.Arm | mio/mio_poller.cpp:210-233 | Setting a timer anew replaces its deadline whether it was armed or not, and tells which by its key. |
| TimerQueue.Queue.Expire | mio/mio_poller.cpp:120-133 | The loop over one tree notifies the owners of exactly the due timers, in the order of the deadlines, removes these and no others, and stops at the earliest that is left. |
| TimerQueue.FiredDue | mio/mio_poller.cpp:120-133 | After such a pass an event was notified if and only if its timer was armed and due, no event twice, and none before one with an earlier deadline. |
| TimerQueue.Queue.FirstKeyEarliest | mio/mio_poller.cpp:120-170 | The key of the leftmost timer is the earliest deadline of all, and zero exactly when there is no timer. |
| IoEvent.IOEvent.RequireRef | mio/mio_event.cpp:38-42 | Takes one reference. |
| IoEvent.IOEvent.ReleaseRef | mio/mio_event.cpp:46-55 | Gives one reference back, and destroys the event when none is left. |
| Poller.WaitTime | mio/mio_poller.cpp:135-176 | The wait is unlimited without timers; with deadlines less than 2^32 seconds away it ends at the earliest one if and only if the distance in milliseconds fits a signed 32-bit number and a later read timer's distance does not turn negative; it is a second when a read timer's distance reads as zero. |
| Poller.WaitFails | mio/mio_poller.cpp:135-176 | A deadline 2147484 seconds away is one second too far for the multiplication, and a write timer due in 10 seconds is missed beside a read timer 2^31 seconds away. |
| Poller.Epoller.ProcessTimeOut | mio/mio_poller.cpp:114-177 | All due write timers, then all due read timers are raised, each once and in order, the others stay, and the wait returned is right for those. |
| Poller.Epoller.SetReadTimeOut | mio/mio_poller.cpp:210-233 | The read timer gets the new deadline, the write timers are untouched, and a reference is taken only when the timer was not armed. |
| Poller.Epoller.SetWriteTimeOut | mio/mio_poller.cpp:235-260 | The same for the write timer. |
| Poller.Epoller.DelReadTimeOut | mio/mio_poller.cpp:263-276 | The read timer is gone, with its reference if it was armed; the event is destroyed exactly when that was the last one; nothing else changes. |
| Poller.Epoller.DelWriteTimeOut | mio/mio_poller.cpp:278-291 | The same for the write timer. |
| Poller.Epoller.DelEvent | mio/mio_poller.cpp:199-208 | Withdrawing an event removes both its timers and releases a reference for each that was armed and one for the registration; the event is destroyed exactly when the last reference was among them. |
| Poller.Epoller.Run | mio/mio_poller.cpp:114-291 | Over every sequence of setting, removing, withdrawing and expiring, at any times, the two trees hold exactly what two maps from timers to deadlines would; every timer's key is its deadline, not zero exactly when it is armed; every event's count and end are those of the operations about it; and an event that begins with one reference for its registration and one for each armed timer is destroyed exactly when its count is zero. |
| Poller.RegisteredBooks | mio/mio_poller.cpp:199-291 | Over every run with nothing about the event after its withdrawal, its count is that of its registration, its armed timers and its timers that have fired, and it is destroyed exactly when that is none. |
| Dispatch.Serialised | mio/mio_event.cpp:82-140 | In every interleaving of any number of threads, at most one thread handles the event or is about to, a posted wrapper included, and the word is not zero exactly while there is one. |
| Dispatch.Delivered | mio/mio_event.cpp:82-140 | In every run, bits that were raised are in the mask of the first handler call that starts afterwards, and until then in the word: none is overwritten or forgotten. |
| Dispatch.HandlerGets | mio/mio_event.cpp:82-98 | In every run, the thread that handles has in its hand exactly the bits raised before its call that no earlier call was passed, and no others but those of the protocol. |
| Dispatch.RaisesAnyTime | mio/mio_event.cpp:105-140 | Any thread can raise any bits at any time; it posts a wrapper exactly when nobody has the word. |
| Dispatch.Deserved | mio/mio_event.cpp:82-98 | A bit passed to the handler was raised after the call before started: none is handled twice. |
| Dispatch.StepProgress | mio/mio_event.cpp:82-140 | Every step but a raise decreases a measure, so that threads cannot retry for ever while no new event comes. |
| Dispatch.QuietDelivered | mio/mio_event.cpp:82-140 | When no step but a raise is possible, the word is zero, no wrapper waits, every thread is idle and every bit raised has been handled: no lost wakeup and no deadlock. |
| Dispatch.Settles | mio/mio_event.cpp:82-140 | From every state that a run can reach, the threads can come to rest without new events, with every bit delivered. |
| RefCount.Conserved | mio/mio_event.cpp:38-140 | In every run, the count equals the holders (registration, armed timers, timeouts raised or being handled, wrappers, others) and the references lost so far, and the event is destroyed exactly when both are none. |
| RefCount.NoUseAfterDelete | mio/mio_event.cpp:46-55 | In every run, once the event is destroyed it is not registered, no timer is armed, no bit waits, every thread is idle, and no step that would touch it is possible. |
| RefCount.DeletedOnce | mio/mio_event.cpp:46-55 | The count never sinks below zero, nothing is released after the destruction, and the destruction is final. |
| RefCount.RunRefines | mio/mio_event.cpp:82-140 | Every run with reference counts is, on the word, a run of the dispatch protocol that ends in the same word, threads and log, so that all its properties carry over. |
| RefCount.LostForever | mio/mio_event.cpp:38-55 | A reference that was lost stays lost, and the event is never destroyed after. |
| RefCount.NoneLost | mio/mio_event.cpp:38-140 | In every run, references are lost if and only if a timer fired whose bit still waited to be handled, or a handler returned without having released the timeouts in its mask. |
| RefCount.Coalesced | mio/mio_poller.cpp:120-133 | A concrete run that loses one: a timer set again fires again before the handler has taken the first timeout. |
| RefCount.DueInMask | mio/mio_event.cpp:82-98 | In every run, references are due to be released by a handler only for timeouts in the mask of the thread that handles. |
| RefCount.DueAtCall | mio/mio_event.cpp:82-98 | When a handler is called, they are due for all the timeouts in its mask. |
| RefCount.TimerSet | mio/mio_poller.cpp:210-260 | Setting a timer arms it, with one reference more exactly when it was not armed. |
| RefCount.TimerRemoved | mio/mio_poller.cpp:199-291 | Removing a timer, also by the withdrawal, disarms it, gives its reference back if it was armed, and destroys the event exactly when that was the last. |
| RefCount.TimerFires | mio/mio_poller.cpp:120-133 | A timer that fires raises its bit and is then disarmed, and its reference is left to the handler. |
| RefCount.PollerFree | mio/mio_poller.cpp:74-177 | While the event is registered, a poller with nothing half done can report any events, set and remove timers, let an armed one fire, and withdraw the event. |
| RefCount.OwnerSteps | mio/mio_event.cpp:38-55 | Whoever holds a reference can take and release references, and the last release destroys the event. |
| RefCount.Ends | mio/mio_event.cpp:38-140 | From every reachable state in which no reference was lost there is a way to the event's destruction, by steps of the poller, the workers and the other owners. |
| SocketStream.Stream.OnEvent | mio/mio_socket_stream.cpp:34-132 | The handler releases one reference for each timeout in its mask unless it returns early, and then none; whether the stream is closed, is to be closed when all is written, and is connected afterwards is stated exactly, the close at once on an error or a failed connect among it. |
| SocketStream.Stream.OnEvents | mio/mio_socket_stream.cpp:308-330 | Over any sequence of handler calls the stream asks to be withdrawn at most once, and never releases more references than there were timeouts. |
| SpinList.List.Push | common/spinlist.h:54-88 | An element is added behind all others; the nodes stay properly linked both ways. |
| SpinList.List.Pop | common/spinlist.h:91-141 | The oldest element is removed and returned; on an empty list nothing is, and the caller's variable keeps its value. |
| SpinList.List.MoveTo | common/spinlist.h:148-156 | All elements go to the other list in their order, and this one is empty. |
| SpinList.List.Merge | common/spinlist.h:158-177 | The other list's elements follow this one's, in order, and the other list is empty. |
| TaskQueue.ProcessPendingTask | mio/mio_poller.cpp:307-322 | The tasks in the list, up to the first null one, are run in the order in which they were posted, and the list is empty. |
| TaskQueue.InOrder | mio/mio_poller.cpp:300-322 | In every interleaving of posts and batches, what was posted is what was run, what is left of the batch and what is queued, in this order, if and only if (between batches) no null task was taken. |
| TaskQueue.LaterBatch | mio/mio_poller.cpp:307-322 | As long as no further batch is taken, however many tasks are posted, only tasks are run of the batches taken by then, and these hold nothing posted after. |
| TaskQueue.PostsAnyTime | mio/mio_poller.cpp:300-304 | A run begins with nothing posted, and any task can be posted at any time, behind all others and without a change to the batch at hand. |
| TaskQueue.NeverStuck | mio/mio_poller.cpp:307-322 | The poller can go on unless every task was taken and none is being run. |
| TaskQueue.Drains | mio/mio_poller.cpp:307-322 | From every reachable state, without new posts, the poller comes to rest with every task taken, and every task run but those behind a null one; every step brings it nearer. |
| RingBuffer.Ring.Plus | mio/mio_buffer.h:116-127 | Moving a cursor on by any number of bytes ends inside a piece, at the right spot of the circle, for pieces of any sizes. |
| RingBuffer.Ring.Minus | mio/mio_buffer.h:88-114 | The difference of two cursors is the distance from one to the other round the circle. |
| RingBuffer.Ring.Less | mio/mio_buffer.h:129-138 | Moving a cursor back ends inside a piece at the right spot, when all pieces are of one size. |
| RingMath.Additive | mio/mio_buffer.h:116-127 | Moving on twice is moving on by the sum: the same cursor is reached. |
| RingMath.Undone | mio/mio_buffer.h:116-138 | Moving a cursor inside a piece on, by up to a whole turn, and back by as much ends at the same cursor. |
| RingMath.Tiling | mio/mio_buffer.cpp:79-184 | The memory to receive into and the memory to send from are disjoint and together are the whole ring. |
| RingBuffer.Ring.GetReciveBuffer | mio/mio_buffer.cpp:79-126 | The slices are the free memory from the writer round to the reader, in order, and their number is exact; none are given only when the writer is right before the reader in one piece. |
| RingBuffer.Ring.GetSendBuffer | mio/mio_buffer.cpp:135-184 | The slices are the memory from the reader round to the given end, in order, and their number is exact: at most one more than the pieces. |
| RingBuffer.Ring.MoveSendPtr | mio/mio_buffer.cpp:186-189 | The first bytes pending are given up, and the others stay. |
| RingBuffer.Ring.MoveRecivePtr | mio/mio_buffer.cpp:129-132 | The bytes behind the writer are added to those pending while a byte stays free; when none does, nothing is pending any more. |
| RingBuffer.Ring.Reserve | mio/mio_buffer.cpp:58-75 | Cutting the writer's piece short to make room leaves the pending bytes as they are, except that all are lost when the next piece starts at the reader; it is refused exactly when the writer is before the reader in one piece. |
| RingMath.TruncationKeeps | mio/mio_buffer.cpp:66-72 | For pieces of any sizes, cutting a piece short at the writer and going to the next changes no pending byte. |
| RingMath.TruncationLoses | mio/mio_buffer.cpp:66-72 | When the next piece starts at the reader, the same step makes everything unread unreachable. |
| RingBuffer.Ring.ByteCount | mio/mio_buffer.cpp:313-315 | The number of bytes handed out since the packet began, as long as it is less than the ring holds. |
| RingBuffer.Ring.Next | mio/mio_buffer.cpp:271-291 | A chunk handed out is a beginning of the pending bytes, up to the end of the piece or the writer, and is given up; it is empty only for a reader left at the end of a piece that was cut short. |
| RingBuffer.Ring.BackUp | mio/mio_buffer.cpp:293-295 | Taking back the end of the last chunk makes exactly these bytes pending again, as the next chunk, with equal pieces. |
| RingBuffer.Ring.Skip | mio/mio_buffer.cpp:297-311 | Skipping gives up exactly that many bytes and counts them. |
| RingBuffer.Ring.NextOut | mio/mio_buffer.cpp:334-357 | A chunk to write to is added to the pending bytes, unless it ends at the reader: then all of them are lost. |
| RingBuffer.Ring.GetBufferUsed | mio/mio_buffer.cpp:202-205 | The number of bytes pending. |
| RingBuffer.Ring.GetBufferLeft | mio/mio_buffer.cpp:192-200 | What is left and what is used are together all there is, with whole pieces. |
| RingStream.Receive | mio/mio_buffer.cpp:79-132 | Takes as many bytes as are free, none from a ring found full; they follow those pending, unless they leave no byte free, which loses all. |
| RingStream.FullExactly | mio/mio_buffer.cpp:207-211 | The test for a full ring holds exactly when one byte is free and the reader is not at the start of a piece. |
| RingStream.Send | mio/mio_buffer.cpp:135-189 | Sends the first pending bytes, as many as asked for, and keeps the others. |
| RingStream.Run | mio/mio_buffer.cpp:58-189 | Over every sequence of receives, sends and reservations, what was received is what was sent followed by what is pending, if and only if no operation carried the writer onto the reader with bytes unread, which is told from the state before the operation. |
| Numerals.DecimalFound | http/rpc_http_header.cpp:51-87 | A number printed in base ten is found again by the C library's readers, whatever other than a digit follows. |
| Numerals.SignedFound | http/rpc_http_header.cpp:51-87 | Blanks in front of a number and its sign are read as the C library does. |
| Numerals.NumbersFit | http/rpc_http_header.cpp:51-87 | A number that does not fit becomes the nearest one that does, and a negative one counts from the top where there is no sign. |
| Numerals.UintToString | json/json_writer.cpp:30-40 | The digits produced from the last on are the number in base ten. |
| HttpHeader.HttpHeader.IsMethodFound | http/rpc_http_header.cpp:90-132 | The class's buffer and answer are those of the model's search for a method at the end of what was read. |
| HttpHeader.HttpHeader.MoveBufTo | http/rpc_http_header.cpp:194-210 | The token without leading blanks is appended to the string; the blanks stay in the buffer. |
| HttpHeader.HttpHeader.MoveBufToNumber | http/rpc_http_header.cpp:212-228 | The number at the start of the token is stored, with sign, blanks and overflow as `sscanf` has them; without one the old value stays. |
| HttpHeader.HttpHeader.ParserHeader | http/rpc_http_header.cpp:241-408 | Both parsers' loops over buffer and position do what the one-character function does, from any state and for any input: verdict, bytes consumed and every field. |
| HttpHeader.HttpHeader.SerializeHeader | http/rpc_http_header.cpp:411-459 | The header is printed into the piece exactly when it is shorter than what is left of it; the piece then holds the whole text and ends behind it, and nothing else of it changes. |
| HttpHeader.HttpHeader.SetContentLength | http/rpc_http_header.cpp:51-67 | The length set is got again if it is less than 2^31, and else less 2^32. |
| HttpHeader.HttpHeader.SetSeq | http/rpc_http_header.cpp:69-87 | The sequence number set is got again. |
| HttpHeader.NumbersRoundTrip | http/rpc_http_header.cpp:51-87 | The sequence number set is read back for all 64-bit values; the content length exactly when it is below 2^31. |
| HttpHeader.ParsedNumbers | http/rpc_http_header.cpp:51-87 | Parsing the text of a header with both numbers gives the sequence number back, and the length exactly when it is less than 2^31. |
| HttpParser.ParseAppend | http/rpc_http_header.cpp:241-408 | Parsing a text in two parts without losing the key at hand is parsing it at once. |
| HttpParser.SplitIndependent | http/rpc_http_header.cpp:241-408 | Wherever the input is split between two calls, verdict, position and header agree with one call over all of it, but for the collected fields; these agree too unless the split is inside a value that the second part ends, and then they do differ if no line has an empty name. |
| HttpParser.SplitInValue | http/rpc_http_header.cpp:241-408 | For requests, where no field has an empty name: two calls and one give the same header if and only if the split is not inside a value that the second part ends. |
| HttpLaws.StepRefuses | http/rpc_http_header.cpp:241-408 | A character is refused exactly when it is no newline behind a carriage return, ends an empty path or an empty name in a request, or finds no room in the token. |
| HttpLaws.FailStuck | http/rpc_http_header.cpp:241-408 | A text that is refused has such a character right behind what was consumed. |
| HttpLaws.StuckFails | http/rpc_http_header.cpp:241-408 | A text with such a character, before the header's end, is refused there. |
| HttpLaws.MethodFound | http/rpc_http_header.cpp:90-132 | Whatever and however much comes before it, a request's method is found with its last character, and not before. |
| HttpLaws.StatusScanned | http/rpc_http_header.cpp:212-228 | The status is its number cut to 32 bits, all ones for one beyond 64 bits, and the old one without a number. |
| HttpRoundTrip.ReadBackIs | http/rpc_http_header.cpp:194-210 | The fields read back are those printed, each value with one blank behind, if and only if no value is empty or starts with a blank. |
| HttpRoundTrip.RequestRoundTrip | http/rpc_http_header.cpp:241-459 | The text of any request whose tokens fit, with anything behind it, is parsed to its exact end, giving back path and version, the method with a blank, and the fields with a blank behind each value exactly when no value is empty or starts with one; what comes back otherwise is stated too. |
| HttpRoundTrip.ResponseRoundTrip | http/rpc_http_header.cpp:475-667 | The same for responses: status, message and fields come back, the version does not. |
| JsonValue.StrictTotalOrder | json/json_value.cpp:564-668 | The order of values is irreflexive, transitive and total, with `operator==` as its equality, over all values, nested ones included. |
| JsonOrder.TypesInOrder | json/json_value.cpp:564-567 | Values of different types are in the order of the type enumeration: null, signed and unsigned integers, reals, strings, truth values, arrays, objects. |
| JsonOrder.ContentsInOrder | json/json_value.cpp:568-606 | Values of one type: numbers by size, false before true, strings by the first character that differs with a proper prefix first, arrays and objects by their size, or else by the first element, or name and value, that differs. |
| JsonText.ValueToQuotedString | json/json_writer.cpp:111-172 | The quoted text is the string with every character escaped that needs it, on the short path without any as on the long one. |
| JsonText.FastWriter.Write | json/json_writer.cpp:197-263 | The compact writer prints the compact text of the value and a newline. |
| JsonStyled.StyledWriter.Write | json/json_writer.cpp:275-480 | The text is that of the layout, line by line: which arrays take one line, where lines break, how deep they are indented; and it has exactly the tokens of the value. |
| JsonStyled.StyledWriter.WriteArrayValue | json/json_writer.cpp:351-402 | An array printed on one line, from texts collected beforehand, or on many, is laid out as it should be and spells its tokens. |
| JsonStyled.StyledWriter.IsMultineArray | json/json_writer.cpp:404-433 | An array takes one line exactly when its elements have no parts of their own, three times their number is below the margin, and so is the length of the line; the texts collected on the way are exactly those of its elements. |
| JsonUtf8.PrintedClean | json/json_writer.cpp:111-172 | No control character is printed in a string. |
| JsonLexer.FastSpelled | json/json_reader.cpp:273-376 | The compact text of a value spells exactly its tokens, whatever separator follows. |
| JsonLexer.QuotedSpelled | json/json_reader.cpp:463-476 | A quoted string is one token: no escaped character ends it early. |
| JsonReader.DecodeNumber | json/json_reader.cpp:581-616 | For every number token, with 32-bit arithmetic that is proved never to wrap: the integer it denotes, as the type the bounds call for, or a real. |
| JsonReader.EscapedDecoded | json/json_reader.cpp:646-701 | Decoding an escaped string gives the string back. |
| JsonUtf8.Utf8Read | json/json_reader.cpp:69-103 | The bytes written for a code point up to 10FFFF are its UTF-8: a reader of UTF-8 that takes shortest forms only gets it back, and exactly what follows. |
| JsonUtf8.EscapeDecoded16 | json/json_reader.cpp:703-756 | Any code point escaped in UTF-16, by one escape or a surrogate pair, with hexadecimal digits in either case, is decoded to its UTF-8. |
| JsonUtf8.EscapesReadBack | json/json_reader.cpp:646-756 | A string of any code points, all escaped, is decoded to bytes that a reader of UTF-8 reads as these code points. |
| JsonUtf8.LetterDecoded | json/json_reader.cpp:670-682 | Each of the eight letters behind a backslash stands for its character. |
| JsonUtf8.OtherDecoded | json/json_reader.cpp:646-701 | Any other letter behind a backslash is refused, and any other character stands for itself. |
| JsonUtf8.EscapeRefused | json/json_reader.cpp:703-756 | An escape without four digits, and a high surrogate without another escape behind it, are refused. |
| JsonRoundTrip.NumberBack | json/json_reader.cpp:581-616 | A printed 32-bit integer from -2147483639 to 4294967289 reads back as itself, of signed type up to 2^31 - 1 and unsigned beyond; outside these bounds nothing but a real can be read. |
| JsonRoundTrip.FastRoundTrip | json/json_reader.cpp:194-578 | Parsing what the compact writer prints gives the value back with nothing left over if and only if its integers are at least -2147483639 and its unsigned ones between 2147483648 and 4294967289. |
| JsonRoundTrip.SameTokensSameValue | json/json_reader.cpp:194-578 | Any text with the tokens of a value, such as the styled writer's, parses as the compact text does, and gives the value back under the same condition. |
| JsonRoundTrip.AnySeparator | json/json_reader.cpp:538-578 | After an element of an array, any token but the array's end is passed over like a comma, and the elements go on behind it. |
| JsonMembers.AnyParsed | json/json_reader.cpp:194-578 | The text of every value without reals, its members in any order and with any names, its integers of any size, is parsed to exactly one result, or refused where the conversion of a real is. |
| JsonMembers.InsertedMember | json/json_reader.cpp:508-508 | Reading a member keeps the names in order, gives the name its value, leaves every other name what it had, and adds a member exactly when the name is new. |
| JsonMembers.ObjectParsed | json/json_reader.cpp:479-535 | An object's printed members, in any order and with any repetitions, are read as an object with its names in order, each with what its last member is read as. |
| JsonMembers.SameObject | json/json_reader.cpp:479-535 | Two such texts whose last members agree are read as the same object. |
| JsonMembers.IntegerText | json/json_writer.cpp:30-64 | Every integer of either type is printed as its decimal digits without superfluous zeros, behind a minus sign if it is negative. |
| JsonMembers.DigitText | json/json_reader.cpp:581-616 | Every text of digits, with a minus sign or none, is read as its integer of the right type, and beyond the bounds is left, as it is, to the conversion of reals. |
| JsonMembers.RealText | json/json_reader.cpp:581-596 | A number's text with a point, an exponent or a sign behind its start is left to the conversion of reals. |
| JsonMembers.OnlyComma | json/json_reader.cpp:520-533 | Behind a member anything but a comma or the object's end is refused. |
| JsonMembers.NameAndColon | json/json_reader.cpp:479-512 | A name that is no string, or has no colon behind it, is refused. |
| JsonMembers.ValueBegins | json/json_reader.cpp:194-242 | Where a value must be, anything that begins none is refused. |
| JsonMembers.CutAtZero | json/json_reader.cpp:646-655 | A string with a zero in it is read up to there. |
| JsonParser.Reader.ReadToken | json/json_reader.cpp:273-376 | The scanner returns the next of the tokens the rest of the text spells, and leaves the others. |
| JsonTokens.BlanksOnly | json/json_reader.cpp:348-359 | Blanks, tabs, carriage returns and newlines are passed over, and no other character is. |
| JsonTokens.NumberToken | json/json_reader.cpp:451-461 | A number token goes on as long as there are digits, points, exponents and signs, and no further. |
| JsonTokens.StringGoesOn | json/json_reader.cpp:463-476 | A string ends at the first quote without a backslash before it, and is not ended by the text's end. |
| JsonTokens.Refused | json/json_reader.cpp:273-374 | The three words are tokens, and any other word, a string without end, and any other character are errors. |
| JsonParser.Reader.DecodeString | json/json_reader.cpp:646-756 | The loop decodes a string as the function does that the laws of `JsonUtf8` are about: escapes by letter and by number, surrogate pairs and UTF-8; it fails where that does. |
| JsonParser.Reader.ParseText | json/json_reader.cpp:194-242 | The recursive reader over tokens returns what the grammar function returns for the text, the same value or failure; what that is for every printed text is stated by `JsonMembers.AnyParsed`. |

## Left out

- JsonText.FastWriter.Write: values that hold a real number; reals are only recognised, not converted or printed.
- JsonStyled.StyledWriter.Write: the same, and comments.
- JsonStyled.StyledWriter.WriteArrayValue: the same.
- JsonLexer.FastSpelled: the same.
- JsonParser.Reader.ReadToken: comments, which the source skips and which are an error here.
- JsonParser.Reader.ParseText: the same, and the conversion of reals, which is a parameter.
- JSON error messages and the reader's recovery after an error; a failed value's position is anywhere.
- JSON arrays with gaps and strings without a buffer: every index below the size has a value.
- json/json_writer.cpp:544-810, the stream writer: it repeats the styled writer over a stream.
- IOBuffer::Reset, `SerializeBody`, `toString` and the protobuf layer above the ring.
- RingBuffer.Ring.Reserve: a writer at the first byte of a piece smaller than what is asked for, which the source leaves
  behind empty; pieces here are never empty. `RingStream.Run` passes over such a reservation.
- RingStream.Run: such a reservation.
- RingBuffer.Ring.Less: moving back over pieces of different sizes, because the source takes each step by the size of
  the piece it leaves and not of the one it enters, and calls it with whole pieces only.
- RingBuffer.Ring.BackUp: the same holds for it.
- RingBuffer.Ring.GetBufferLeft: pieces that were cut short; an empty ring then still counts all of their full size.
- HttpHeader.HttpHeader.ParserHeader: a token that fills the whole buffer, which can be junk before a request's method
  or any token of a response, is read past the buffer's end by the source; the model stops at the end, and a response
  that goes on then counts as failed.
- HttpHeader.HttpHeader.MoveBufTo: the same holds for it.
- HttpHeader.HttpHeader.MoveBufToNumber: the same holds for it.
- HttpParser.Scanned: where the C standard leaves a number that does not fit undefined, it is clamped to 64 bits and
  then cut, as the usual libraries do.
- Poller.WaitTime: signed overflow of the product with 1000 is undefined in the source, and taken to wrap.
- Epoll, sockets and the notifying descriptor: what they report are parameters of the steps.
- An event without a group, which is handled on the raising thread, and events raised after their withdrawal.
- RefCount.NoUseAfterDelete: the tasks that SetReadTimeOut, DelReadTimeOut, their write counterparts and ModEvent post
  to the poller hold no reference, and may run after the withdrawal; here timers are set and removed only before it.
- The bodies of OnConnect, OnReadable and OnWriteable, of ModEvent, and of the handlers a user installs.
- RefCount.Conserved: one poller thread raises the event and sets its timers; references that other code takes are one
  number.
- Dispatch.Serialised: steps are atomic and ordered, as the full barriers of the source's intrinsics make them;
  weaker memory orders are not modelled.
- SpinList: the node cache is never filled in the source, and the lock is taken for granted.
- ngx_rbtree_insert_timer_value and the timer classes in mio/mio_timer.cpp: no tree of the poller uses the first, and
  the second only set timers through the poller.
