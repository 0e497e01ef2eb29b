# Verified models of the Redes2 network programs

Four of the repository's programs have state or parsing worth proving things about. Each is
modelled here in Dafny, in the form it has in C, and its properties are proved for all inputs
and, where it runs against other threads or over a network, for all runs.

| files | program |
|---|---|
| `tftp_client.dfy`, `tftp_transfer.dfy` | the TFTP download client `udp/tftpp.c`, alone and against a server that follows section 2 of RFC 1350 |
| `request_queue.dfy`, `thread_pool.dfy`, `request_handler.dfy` | the request list, the threads and the handler of `socket_pool/pool.c`, `socket_pool/socketPool.h` and `examen/server-pool.c` |
| `dhcp_decoder.dfy`, `dhcp_messages.dfy`, `tftp_decoder.dfy` | the packet decoders `examen2/evaluate.c` and `examen2/etftp.c` |
| `chat_relay.dfy` | the UDP chat `examen/udp-server.c` |
| `bytes.dfy` | bytes, C strings, integers in bytes and printf conversions, shared by the others |

`dafny verify dfyconfig.toml` checks everything.

## How to read it

Code that changes variables, arrays or linked nodes is a method of a class or a method over
arrays, proved equal to a specification function (`Downloader.Download` and `Feed`, `Dhcp` and
`Decoded`, `List.AcceptMessage` and `Registered`, ...). The properties are then lemmas about
those functions. What several threads or machines do together is a machine of labelled steps:
`Enabled` says when a step can happen, `Apply` what it does, and a run is a sequence of steps
(`IsRun`, `After`). A C `char` is stored as a number from 0 to 255 and read through
`SignedChar`, as gcc on x86 reads it. What a specification function computes is also said without
it, byte by byte: the text of %d is the one numeral that reads as the number (`DigitsExact`), a
datagram does to the client what its bytes say (`AnyDatagram`), the client of a run is what the
loop makes of its inputs (`ClientIsFed`), and the decoders' replies are given with the numbers and
formats of the source written out (`EndToEndByNumber`, `TextExactly`).

**The transfer.** The network is the set of all datagrams ever sent: a step may deliver any of
them at any time, any number of times or never, which covers loss, duplication, reordering and
retransmission. Block numbers wrap at 65536 on the wire, so sources have no size limit. The
receive buffer is modelled byte by byte: `recvfrom` overwrites only the front of it, the first
datagram falls on the request that was sent, and `memset` clears 512 bytes of the 516 that a
full block fills. The 600 bytes that `recvfrom` is allowed to write are taken to belong to the
buffer.

**The pool.** Every statement between two accesses to shared state is a step; the mutex has an
owner and a depth, the condition variable a set of waiting threads, and a waiting thread may
wake up for no reason. The mutex is recursive, as declared, or normal. The number of workers and
the list of jobs are parameters: the jobs are 0 to 599 in `pool.c` and the accepted sockets, in
accept order, in the servers. A job also says whether its handler ends: in `pool.c` each does,
while in the servers the handler waits in `read` for its client with the mutex held, and that of
a client that sends nothing and stays connected never ends. The log holds what has been handled;
in `examen/server-pool.c` that is also what has been closed, while the handler of
`socket_pool/socketPool.h` never closes its socket.

## What the proofs found

- The download is all-or-nothing exactly for the sources of the predicate `Intact`: text without
  NUL, at most 127 * 512 bytes, and a last block that nothing in the buffer runs on from
  (`AllOrNothingIffIntact`). Outside it the client still reports success. A longer text is cut at
  65024 bytes, because the block number is compared as one signed byte and is never accepted again
  after 127 (`LongFileIsCut`). Any other text is saved whole, with something behind it
  (`SavedText`): under 512 bytes, what the request left in the buffer, which is the end of the
  name, the end of the mode or nothing (`RequestResidue`); a last block of 508 to 511 bytes after
  full ones, the end of the full block received just before it; any other, nothing. What is saved
  of a source with NULs is given as well (`SavedFile`).
- If the first thing `poll` reports is an event other than POLLIN, the client exits at once and
  reports success with an empty file (`EarlyEventSavesNothing`): the loop tests a `dLength`
  that still counts the request. With such runs included only an empty source asked for under a
  name of two bytes is safe (`AllOrNothingInEveryRunIff`).
- The client acknowledges every block, written or not, so an acknowledgement of the outstanding
  block proves that it was written exactly for sources of fewer than 127 * 512 bytes
  (`AckMeansWrittenIff`): block 128 is acknowledged and lost (`AcknowledgedNotWritten`).
- The comment in `pool.c` that the mutex has to be recursive is right: with a normal mutex no
  request is ever handled (`NothingHandledWithoutRecursion`). With the recursive one, the program
  only gets stuck with its work done if every handler ends (`DrainsExactly`). In the servers one
  silent client is enough to stop every thread, the accepting one included, because the handler
  runs with the mutex held: the requests before that client's are handled and no others (`Drain`).
- The option walk of the DHCP decoder follows a list option by option exactly when the wanted
  option is there and every option before it has a length byte below 128, that is, none is a pad,
  the end option or longer (`FollowsStartsExact`). In any message the walk lands in fewer jumps
  than there are bytes, or leaves the message, or has been somewhere twice and goes on for ever
  (`WalkDecides`), so a caller can tell beforehand whether a message can be read (`CanReadExact`).
  An option of 254 bytes makes it loop for ever, and a pad makes it jump by the code of the next
  option, which is right only for a pad before the end option (`JumpExact`). The cookie is looked
  for from the first byte of the message, not from where the fixed fields end
  (`ScanFindsHeaderEnd`).
- The chat knows a client by its port alone, so every message reaches everyone else exactly
  when no two clients share a port (`RelayIffPortsDiffer`).

## Model

| member | source | states |
|---|---|---|
| Bytes.ReverseThenLoad | examen2/evaluate.c:20-25 | for any string of at most 8 bytes, reversing it and loading it into a zeroed little-endian integer gives its big-endian value, and the signed integer keeps it if and only if there are at most 7 bytes or the top bit is clear |
| Bytes.LittleOfReverse | examen2/etftp.c:7-9 | reversed bytes read little-endian are the bytes read big-endian, for any length |
| Bytes.LoadReversed | examen2/evaluate.c:61-66 | the copy loop and the memcpy of the decoders load the big-endian value of the option, as a signed 64-bit integer |
| Bytes.LongLongExact | examen2/evaluate.c:66 | a word read as signed is the one number between -2^63 and 2^63 that differs from it by a multiple of 2^64 |
| Bytes.PrintResult | examen2/evaluate.c:74-76 | after sprintf and the second write of the terminator, the result buffer holds the printed text |
| Bytes.DecimalReads | examen2/evaluate.c:74 | the text of %d and %lld reads back to the number, negative ones included |
| Bytes.DigitsExact | examen2/evaluate.c:87 | the text of %d of a natural number is the one numeral without leading zeros that reads as the number |
| Bytes.OneMoreDigit | examen2/evaluate.c:87 | a numeral with one digit more reads as ten times as much and that digit |
| Bytes.DecimalExact | examen2/evaluate.c:74 | the text of %lld is the numeral of the number, behind a minus sign exactly when it is negative |
| Bytes.Hex2Exact | examen2/evaluate.c:41 | the text of %02x is two digits of 0 to 9 and a to f, the higher one first |
| Bytes.SplitJoin | examen2/evaluate.c:87 | a text of fields with separators determines its fields when none contains the separator |
| TftpClient.Downloader.ConfigDGramToSend | udp/tftpp.c:139-150 | the request is opcode 1, the name, NUL, "octet", NUL at the front of the buffer, the rest of which is untouched, and bLength is its size |
| TftpClient.RequestFields | udp/tftpp.c:10-150 | the request is opcode 0 1, the name, NUL, the text "octet", NUL, and nothing more |
| TftpClient.Downloader.Start | udp/tftpp.c:44-67 | the state in which the loop is entered: the request still in the buffer, block 1 expected, dLength counting the request, an empty file |
| TftpClient.StartedFields | udp/tftpp.c:44-67 | the loop is entered with block 1 expected, dLength the size of the request, an empty file, and zeros behind the request in the buffer |
| TftpClient.Downloader.HandleDatagram | udp/tftpp.c:84-117 | one datagram: stale bytes kept behind it, ERROR removes the file, the block is written only if its low byte read as signed is the expected number, and every datagram but an ERROR is acknowledged with its own number |
| TftpClient.AnyDatagram | udp/tftpp.c:84-117 | a datagram of any kind and length from anyone: the second byte 5 alone removes the file and is not answered; any other is answered with its third and fourth byte, ends the loop unless it has 516 bytes, and is written, as text up to its first NUL, if its fourth byte read as signed is the expected one; bytes it does not bring are the stale ones |
| TftpClient.TimeoutRemoves | udp/tftpp.c:120-127 | a timeout removes the file and ends the loop, whatever has been received |
| TftpClient.OtherEventTests | udp/tftpp.c:80-129 | an event without data changes nothing if the last datagram had 516 bytes, and otherwise ends the loop with the file as it is |
| TftpClient.Downloader.Turn | udp/tftpp.c:78-129 | one turn of the loop for a datagram, an event without data, or a timeout |
| TftpClient.Downloader.Download | udp/tftpp.c:72-129 | the whole loop leaves the state and sends the acknowledgements of the specification, for any inputs |
| TftpClient.FeedOneMore | udp/tftpp.c:72-129 | the loop seen from its end: one input more is handled, and answered, if it has not exited, and changes nothing if it has |
| TftpClient.ExpectedBlockRange | udp/tftpp.c:98-100 | whatever arrives, the expected block never decreases or passes 128, and at 128 nothing more is written |
| TftpClient.FileStaysNulFree | udp/tftpp.c:104-107 | whatever arrives, no NUL is ever written to the file |
| TftpTransfer.ClientAfterData | udp/tftpp.c:87-117 | what a DATA datagram does to the client, stale bytes included, and that it is answered with its own block number |
| TftpTransfer.ServerStepKeepsInv | udp/tftpp.c:110-117 | a step of a server that follows section 2 of RFC 1350 keeps the lock-step invariant: it only sends the next block when the client has taken the outstanding one or its counter is stuck at 128 |
| TftpTransfer.AckMeansReceived | udp/tftpp.c:98-117 | in lock-step an acknowledgement of the outstanding block means that the client has moved past it, or that its counter is stuck at 128; wrapped numbers cannot confuse the server before that |
| TftpTransfer.ClientTurnKeepsInv | udp/tftpp.c:72-129 | a turn of the client keeps the invariant, whichever datagram in flight it gets |
| TftpTransfer.LockStepRun | udp/tftpp.c:87-117 | in every run the outstanding block is the expected one or the one before, no DATA in flight is ahead of it, and every ACK in flight is for a block already taken, until the counter sticks at 128 |
| TftpTransfer.FilePrefixRun | udp/tftpp.c:98-108 | in every run the file being written is the text of the blocks before the expected one: for a source without NUL, exactly its first 512 * (expected - 1) bytes, so nothing is written twice |
| TftpTransfer.RunOutcome | udp/tftpp.c:90-131 | every finished run, for any source: the file is removed; or saved empty, if and only if the first event was not a datagram or a timeout; or saved as its first 127 blocks cut at their NULs, or as all its blocks with exactly what the request or the full block received just before left behind the last one, and then equal to the source if and only if the source is intact |
| TftpTransfer.ClientIsFed | udp/tftpp.c:72-131 | in every run the client is what the loop of the program makes of the inputs of its turns, and the acknowledgements on the network are exactly the ones that loop sends |
| TftpTransfer.EventsInRun | udp/tftpp.c:80-129 | in every run a timeout removes the file however far the transfer has come, an event without data changes nothing once a datagram has arrived, and a client that has stopped stays as it is |
| TftpTransfer.AnythingCanHappen | udp/tftpp.c:78-85 | while the client is receiving any datagram ever sent may arrive, a timeout or another event may come, the server may fail with any ERROR, and nothing sent is forgotten |
| TftpTransfer.DataFields | udp/tftpp.c:84-108 | a DATA datagram is 0, 3, the block number wrapping at 65536 in network order, and the 512 bytes of its block, fewer in the last one |
| TftpTransfer.SavedFileIsText | udp/tftpp.c:104-115 | for a text, that is the first 127 blocks, or the source followed by the residue of the request or of the full block received just before |
| TftpTransfer.RequestText | udp/tftpp.c:104-107 | what a DATA datagram of fewer than 512 bytes finds behind it in the buffer that held the request, as text: the end of the name, of the mode, or nothing |
| TftpTransfer.SavedWhole | udp/tftpp.c:104-107 | of everything a client may save, the file is the source if and only if the source is intact |
| TftpTransfer.UnreadRun | udp/tftpp.c:80-129 | in every run the client is waiting for its first datagram if and only if it has had no turn, and has saved a file without one if and only if an event came too early |
| TftpTransfer.CanStillFinish | udp/tftpp.c:72-136 | from every reached state, whatever was lost, duplicated or reordered, a client that is still receiving can go on to report success |
| TftpTransfer.SomeRunSaves | udp/tftpp.c:129-136 | every source has a run that ends in success after a datagram |
| TftpTransfer.AllOrNothingIffIntact | udp/tftpp.c:72-136 | all finished runs but those in which an event came before the first datagram leave no file or the whole source, if and only if the source is intact |
| TftpTransfer.AllOrNothingInEveryRunIff | udp/tftpp.c:72-136 | all finished runs without exception leave no file or the whole source, if and only if the source is empty and the name has two bytes |
| TftpTransfer.AckMeansWrittenIff | udp/tftpp.c:98-117 | in every run an acknowledgement of the outstanding block is only sent for a block that was written, if and only if the source has fewer than 65024 bytes |
| TftpTransfer.AcknowledgedNotWritten | udp/tftpp.c:98-117 | every longer source has a run in which block 128 is acknowledged and the client does not count it as taken |
| TftpTransfer.LastBlockAccepted | udp/tftpp.c:104-115 | the last block, taken as expected, completes the file and adds exactly what the datagrams received before left behind it in the buffer |
| TftpTransfer.LongFileIsCut | udp/tftpp.c:88-98 | a text of more than 65024 bytes has a successful run that saves only its first 65024 |
| TftpTransfer.ShortFileText | udp/tftpp.c:104-107 | a text of fewer than 512 bytes whose only block comes first is saved with what the request holds behind it |
| TftpTransfer.ShortFileKeepsRequestResidue | udp/tftpp.c:104-107 | the two-byte file "xy" asked for as "abcdef" is saved as "xyef" |
| TftpTransfer.EarlyEventSavesNothing | udp/tftpp.c:80-129 | an event other than POLLIN before the first datagram ends in success with an empty file, for every source |
| RequestQueue.Queue.constructor | socket_pool/pool.c:18-27 | the list starts empty, both pointers null and the counter 0 |
| RequestQueue.Queue.AddRequest | socket_pool/pool.c:36-73 | appends one request at the end of the list and of the contents, and counts it |
| RequestQueue.Queue.GetRequest | socket_pool/pool.c:84-108 | removes and returns the first request, or returns null and changes nothing exactly when there is none |
| RequestQueue.Queue.WalkEnds | socket_pool/pool.c:26-27 | following next from the front meets every node once, in order, and ends: the list is acyclic |
| RequestQueue.FirstInFirstOut | examen/server-pool.c:138-196 | over any interleaving of the two operations, what was taken and then what is pending is what was added, in order |
| RequestQueue.OneMoreCall | examen/server-pool.c:138-196 | one call more adds behind what is pending, or takes the first of it, or finds it empty |
| RequestQueue.Perform | socket_pool/socketPool.h:116-164 | the linked list driven by any such interleaving agrees with the specification of its contents |
| ThreadPool.StepKeepsInv | socket_pool/pool.c:133-170 | every step of every thread keeps mutual exclusion, the count and order of requests, the wake-up invariant and what may be in the log |
| ThreadPool.WorkerMoves | socket_pool/pool.c:133-170 | in a reached state a worker can move unless it waits on the condition variable, needs the mutex while it is taken, or has a handler that does not end |
| ThreadPool.ProducerMoves | socket_pool/pool.c:49-72 | the producer can move unless it needs the mutex while it is taken or has no more to add; it may wake any waiting thread, and each of them may wake up at any time |
| ThreadPool.LockDiscipline | socket_pool/pool.c:84-108 | in every run one owner at a time, depth 2 inside get_request and 1 outside, pthread_cond_wait only at depth 1 so that it releases the mutex, and no two handlers at once |
| ThreadPool.SectionIsExclusive | socket_pool/pool.c:49-69 | while a thread owns the mutex no other thread's step changes the list, the counter, the log or the owner's place |
| ThreadPool.GetRequestPops | socket_pool/pool.c:84-108 | the statements of get_request together take the first request, lower the counter and give the mutex back at the caller's depth |
| ThreadPool.AddRequestAppends | socket_pool/pool.c:49-69 | the statements of add_request together append the request, whichever branch the counter takes, raise the counter and leave the mutex free |
| ThreadPool.OrderRun | socket_pool/pool.c:117-157 | in every run the requests handled, the one in hand and the queued ones are the first added ones, in order, each once; a request in hand is the next number and only the mutex owner has one |
| ThreadPool.SocketConservation | examen/server-pool.c:94-136 | in every run each accepted socket is in exactly one place, with the producer, queued, in hand or closed, and a step only moves it forward one place; closed sockets stay closed, in accept order |
| ThreadPool.NoLostWakeup | socket_pool/pool.c:49-72 | in every run with a pending request and all workers blocked, the producer is about to unlock and signal, or to signal if the mutex is free; for any number of workers and with spurious wake-ups |
| ThreadPool.StuckIffDrained | socket_pool/pool.c:148-169 | when every handler ends, nothing can move without a spurious wake-up if and only if everything added has been handled and all workers wait |
| ThreadPool.StepUsesWork | socket_pool/pool.c:133-170 | every step uses up at least one unit of a measure that a spurious wake-up raises by 5 |
| ThreadPool.RunLength | socket_pool/pool.c:186-199 | every run, with either mutex, has at most 20 steps per request, 5 per worker and 6 per spurious wake-up |
| ThreadPool.Drain | examen/server-pool.c:94-136 | a run that cannot go on has handled, in order, the requests before the first whose handler never ends, which is in hand; if all end it has handled all, with the mutex free |
| ThreadPool.RunsUntilStuck | socket_pool/pool.c:133-170 | every run can be continued, without spurious wake-ups, until nothing can move |
| ThreadPool.NothingHandledWithoutRecursion | socket_pool/pool.c:10-13 | with a normal mutex no request is taken or handled, in any run |
| ThreadPool.StuckWithWorkLeft | socket_pool/socketPool.h:86-97 | if the mutex is normal or some handler never ends, there is a run that gets stuck with work left, for every number of workers and non-empty list of jobs |
| ThreadPool.DrainsExactly | examen/server-pool.c:94-136 | runs only get stuck drained, if and only if the mutex is recursive and every handler ends, or there are no jobs |
| RequestHandler.UpperCase | examen/server-pool.c:101-104 | the loop over strlen terminates and leaves the upper-case of the text, letter for letter of the alphabet, the same terminator and the bytes behind it unchanged |
| RequestHandler.UpperLetters | examen/server-pool.c:103 | no byte is left in a to z, and a byte that changes was the letter of the same place in the alphabet |
| RequestHandler.Handle | examen/server-pool.c:98-108 | what is sent back has the length of the received text, no byte of it in a to z, and differs from it only in letters, each the capital of the one received |
| DhcpDecoder.FindCookie | examen2/evaluate.c:6-11 | the scan stops at the first cookie of the message |
| DhcpDecoder.FindOption | examen2/evaluate.c:16-32 | the index loop stops where the walk lands, with the number of jumps as measure |
| DhcpDecoder.JumpIs | examen2/evaluate.c:30 | the index jumps over an option shorter than 128 bytes, and back by 254 less its length from a longer one |
| DhcpDecoder.LandsOnce | examen2/evaluate.c:36-50 | a walk lands at one place after one number of jumps |
| DhcpDecoder.LandsSoon | examen2/evaluate.c:16-32 | a walk that lands makes fewer jumps than the message has bytes |
| DhcpDecoder.StillWalking | examen2/evaluate.c:16-32 | a walk that is still inside the message after as many jumps as it has bytes has been at one index twice, and goes on for ever |
| DhcpDecoder.WalkDecides | examen2/evaluate.c:16-32 | following the walk for that many jumps decides whether it lands, and where, or never ends; otherwise it leaves the message |
| DhcpDecoder.CanReadExact | examen2/evaluate.c:1-120 | a message can be read without leaving it, by walks that end, if and only if it passes a test that makes a bounded number of jumps |
| DhcpDecoder.ReadInteger | examen2/evaluate.c:61-66 | an integer option is read as its bytes say |
| DhcpDecoder.PrintHardware | examen2/evaluate.c:40-43 | the text of the hardware type and address of the client identifier |
| DhcpDecoder.HardwareTextIs | examen2/evaluate.c:41 | the hardware text is the type in decimal, a blank, and six pairs of hexadecimal digits with colons between them, in order |
| DhcpDecoder.PrintQuad | examen2/evaluate.c:87-89 | the dotted text of the four bytes of the option |
| DhcpDecoder.QuadTextIs | examen2/evaluate.c:87 | the dotted text is the four bytes in decimal with points between them, in order |
| DhcpDecoder.Answer | examen2/evaluate.c:33-119 | the return value and the text for each message type; nothing is written for the others |
| DhcpDecoder.Dhcp | examen2/evaluate.c:1-120 | the decoder computes the specified reply for every message it can read without leaving it |
| DhcpDecoder.TypeDecides | examen2/evaluate.c:16-119 | in any readable message, in order or not, the cookie 99, 130, 83, 99 is where the scan stops, and there is a reply if and only if the integer where the walk for option 53 lands is 1, 2, 3 or 5 |
| DhcpDecoder.DiscoverReply | examen2/evaluate.c:33-52 | for type 1 the reply is 1 and the hardware text of the bytes where the walk for option 61 lands |
| DhcpDecoder.OfferReply | examen2/evaluate.c:53-78 | for type 2 the reply is 2 and the integer where the walk for option 51 lands, in decimal |
| DhcpDecoder.RequestReply | examen2/evaluate.c:79-98 | for type 3 the reply is 3 and the dotted text of the bytes where the walk for option 54 lands |
| DhcpDecoder.AckReply | examen2/evaluate.c:99-118 | for type 5 the reply is 4 and the dotted text of the bytes where the walk for option 1 lands |
| DhcpDecoder.QuadReads | examen2/evaluate.c:107 | the dotted text determines the four bytes |
| DhcpDecoder.HardwareReads | examen2/evaluate.c:41 | the hardware text determines the type, as a signed char, and the six bytes of the address |
| DhcpMessages.JumpExact | examen2/evaluate.c:30 | one jump goes from an option to the next one if and only if the option has a length byte below 128, or is a pad before the end option |
| DhcpMessages.OffersMeans | examen2/evaluate.c:16-32 | an option is offered if and only if it is in the list and the index can step over every option before the first one with its code |
| DhcpMessages.FollowsStartsExact | examen2/evaluate.c:16-32 | over a serialised list the walk goes from option to option, never into a value, up to the first one with the wanted code, if and only if the list offers it |
| DhcpMessages.WalkVisitsOptions | examen2/evaluate.c:36-50 | when the list offers the option, the walk stops at the start of the first one with its code after as many jumps as there are options before it |
| DhcpMessages.LandsOnFirst | examen2/evaluate.c:36-50 | the decoder finds the first option with the wanted code, with its length and value behind the index |
| DhcpMessages.Length254NeverLands | examen2/evaluate.c:48 | an option of 254 bytes with another code stops the walk for ever |
| DhcpMessages.PadRunsOff | examen2/evaluate.c:48 | a pad sends the index out of any message with too few bytes left |
| DhcpMessages.ScanFindsHeaderEnd | examen2/evaluate.c:6-11 | the scan finds the cookie behind the header if and only if no four earlier bytes look like it |
| DhcpMessages.EndToEnd | examen2/evaluate.c:1-120 | every well-formed message is decoded: 1, 2, 3, 4 and the text of the option for DISCOVER, OFFER, REQUEST, ACK and nothing for other types, and the text reads back to the value of the option |
| DhcpMessages.EndToEndByNumber | examen2/evaluate.c:1-120 | the same with the cookie 99, 130, 83, 99, the options 53, 61, 51, 54 and 1 of RFC 2132 and the four formats written out |
| DhcpMessages.EncodedFields | examen2/evaluate.c:16-32 | a pad is the byte 0, the end option the byte 255, any other option its code, its length and its value |
| DhcpMessages.LeaseTimeExact | examen2/evaluate.c:56-74 | the lease time printed is the number in the option if and only if it has at most 7 bytes or its top bit is clear, and that number less 2^64 otherwise |
| TftpDecoder.Tftp | examen2/etftp.c:1-36 | the decoder computes the specified reply: the name of a request, the decimal block number of an acknowledgement, nothing otherwise |
| TftpDecoder.TextExactly | examen2/etftp.c:1-36 | a readable packet gives a text if and only if it starts with 0 1 or 0 4; that is what stands behind the opcode up to its terminator, or the numeral of the two bytes behind it |
| TftpDecoder.ServerGivesNothing | examen2/etftp.c:35 | every DATA and every ERROR datagram gives nothing |
| TftpDecoder.CopyName | examen2/etftp.c:12-18 | the copy loop leaves the name up to its terminator in the result |
| TftpDecoder.RequestRoundTrip | examen2/etftp.c:10-20 | the decoder returns the name of every request the client can build |
| TftpDecoder.AckRoundTrip | examen2/etftp.c:21-34 | for every block number up to 65535 the text printed reads back to it |
| TftpDecoder.AnsweredBlockIsPrinted | udp/tftpp.c:110-117 | the client's answer to any block up to 65535 is a packet from which the decoder prints that block's number |
| ChatRelay.List.AddToList | examen/udp-server.c:66-76 | puts the node in front of the list and counts it |
| ChatRelay.List.CheckIfAddressIsAdded | examen/udp-server.c:78-101 | true if and only if some listed client has the port |
| ChatRelay.List.SendToOthers | examen/udp-server.c:145-155 | one send to each listed client with another port, in list order |
| ChatRelay.List.AcceptMessage | examen/udp-server.c:121-157 | registers an unknown port in front and sends the message to the others |
| ChatRelay.AloneHearsNothing | examen/udp-server.c:140 | the test that the size is at least 2 changes nothing |
| ChatRelay.Serve | examen/udp-server.c:205-209 | the loop of main, over any messages, leaves the specified list, with size equal to its length, and the specified sends |
| ChatRelay.ListIsFirstArrivals | examen/udp-server.c:131-136 | after any history the list is the first endpoint heard on each port, the latest first, with distinct ports |
| ChatRelay.RecipientsExactly | examen/udp-server.c:145-155 | each message goes exactly once to each other registered client and never to the sender's port |
| ChatRelay.RecipientsLatestFirst | examen/udp-server.c:145-155 | of two recipients the one heard of later is sent to first |
| ChatRelay.RelayIffPortsDiffer | examen/udp-server.c:93-154 | in a history every message reaches everyone else heard so far, if and only if no two endpoints share a port |

## Left out

- The setup of sockets (socket, bind, listen, accept, multicast), sleeps, console output and errno: plumbing; receiving, sending and timing out are steps or parameters.
- Failed calls: malloc, fopen, sendto and recvfrom are taken to succeed.
- Memory outside the arrays: `buff` is taken to own the 600 bytes recvfrom may write, and fputs to stop after the 512 bytes copied.
- TftpClient.Downloader.ConfigDGramToSend: names longer than 503 bytes, which overflow the buffer, are not modelled.
- A request that is duplicated into two server sessions, and the client's replies going to whatever address sent last (udp/tftpp.c:84-85): the model has one server session.
- The end of the process: main of pool.c returns five seconds after the last request, and that of server-pool.c right after the eleventh accept, whether or not the queue is empty; Drain speaks of the threads while the process lives.
- The width of num_requests, size and the index variables of the decoders: they are unbounded here.
- DhcpMessages.WalkVisitsOptions: only sufficient, because a walk that a pad or a long option has thrown off its course may still meet the right byte by chance; the exact condition is that of FollowsStartsExact, for following the options.
- DhcpDecoder.Dhcp: messages whose scan or walk leaves the message, and integer options of more than 8 bytes, are outside what the source can read.
- ChatRelay.List.AcceptMessage: the text that is relayed; the received bytes are printed and sent up to a terminator that recvfrom does not write.
- The text sent by the handler of socket_pool/socketPool.h: a constant greeting.
- RPC/, examen_3_a/, rpcClient.c, worker.c, simple/, fork/, threads/, sxxp/, examen/server.c and the clients: generated code, or network programs that run straight through without state to reason about.
