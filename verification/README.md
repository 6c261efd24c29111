# Verified models of the servers' hardest parts

The repository holds several network servers and a vendored CRC library. This project
models the parts of them where much depends on a few lines, and proves what those lines
are for:

- **The CRC engine** (`thirdparty/boost/boost/crc.hpp`). A divider that works one bit at a
  time, a table-driven one that works a byte at a time, and an "augmented" one that needs
  zero bytes after the message. Registers are sequences of bits, at least as wide as the
  order, and the order is any positive number. The table-driven computers are shown to
  compute the bitwise division, for every order, divisor, start, final mask, reflection
  setting and message.
- **The HTTP server** (`1. Proactor`). The connection object parses requests in place, in a
  fixed buffer, as their bytes arrive. What it makes of a stream is compared with a plain
  parse of the whole stream, whatever the cuts. The benchmark client of the same
  repository prints requests, and what it prints is shown to come out of the parser as it
  went in. Around the connection, the one-shot event set, the main loop and the worker
  pool hand connections to each other; they are a machine whose every interleaving keeps
  each connection in one place.
- **The asynchronous sessions** (`2. AsyncServer`, `3. AsyncServerIOservicepool`). A framed
  message codec, two send queues driven by completions, and a work queue with a condition
  variable that is signalled only when a post finds it empty. Each is a class for the code
  and a machine for the code together with everything the environment may do.

The modules, in the order they build on each other: `Words`, `Division`, `Reflection`,
`Polynomials`, `CrcTables`, `CrcDrivers`, `CrcComputers`; `Options`, `Joining`, `CStrings`,
`HttpRequest`, `HttpResponse`, `Numbers`, `AnswerText`, `HttpConn`, `HeaderText`, `WebBench`,
`RoundTrip`; `WorkerPool`, `Ownership`; `Frames`,
`PartialSend`, `WholeSend`, `LogicQueue`. `dafny verify dfyconfig.toml` checks them all.

## Where the code does less than it says

The code is modelled as it stands. Where a promise does not hold of it, the project gives
an input and says exactly when it does hold:

- Clearing a connection for its next request clears as many bytes from its write buffer on
  as its read buffer has (`1. Proactor/http_conn.cpp:107`), twice what the write buffer
  holds, and so zeroes the descriptor and the first bytes of the read buffer of the
  connection stored next. `HttpConn.Connection.Init` does the same, and
  `HttpConn.Connection.Clobber` says which parses survive it. In the machine of the whole
  server the reset of one connection overwrites the descriptor of the next:
  `Ownership.MoveSafeExact` shows that a move keeps every connection in one place if and
  only if it does not clear one whose neighbour is open, `Ownership.RunSafeExact` the same
  of whole runs, and `Ownership.OverrunHappens` is a run in which a connection is lost that
  way, for good by `Ownership.ForgottenStays`. The other results on a connection are
  about one that this does not happen to.
- A reflecting table-driven computer promises to continue from any value it is given
  (`crc.hpp:2033-2036`). The shift to the right brings bits above the order down into the
  remainder. `CrcDrivers.ReflectedRunExact`: it divides every message correctly if and only
  if no such bit is set, and `CrcDrivers.ReflectedPlainRunExact` the same of the augmented
  driver. For orders of a byte or less the reflection drops those bits, so there any value
  will do, although the comment at `crc.hpp:881-884` says they are kept.
- The comment of `augmented_crc` allows every order (`crc.hpp:2252`); it uses only the
  driver for orders of a byte or more, so `CrcComputers.AugmentedCrc` requires that.
- The server means to wait until the announced body has arrived
  (`1. Proactor/http_conn.cpp:354-363`). It never goes on too early
  (`HttpRequest.NeverEarly`), but a complete body that came in several pieces may still be
  waited for, since each look at an incomplete body moves on past what it scans.
  `HttpRequest.AwaitsExact` says of every body when the request is let through: when some
  piece brings the announced bytes beyond where the scan of everything before it came to
  rest. A body without line ends has to come in one piece
  (`HttpRequest.PlainBodyNeedsOnePiece`); `HttpRequest.SplitBodyIsNotEnough` is one that
  does not, and one split in the same way that is let through, as its first byte stops the
  scan. `HttpConn.Connection.ReceiveRequest` carries this to the connection, from the first
  byte of a request on.
- A request with a malformed line end is not refused but waited for.
  `HttpRequest.NeverAnsweredExact`: nothing that may follow leads to an answer if and only if
  the parse has come to rest at a carriage return or line feed that no longer can be part
  of a line end; `HttpRequest.BareLineFeedsAreNeverAnswered` is such a request, and
  `HttpConn.Connection.StaysSilent` shows the connection in that state.
- Filling the read buffer to its last byte reads as the end of the stream, since the next
  receive has no room; `HttpConn.Connection.Read` says so.
- `write` has a branch for an empty response. `Ownership.EventsAreLive` shows that it is
  never taken.
- The destructor of the work queue sets its flag without the lock.
  `LogicQueue.StopLostExact`: from the moment it signals, some way on leads to a worker that
  sleeps for good, but for new posts and chance wakeups, if and only if the signal falls
  between the worker's test and its wait; `LogicQueue.StopCanBeLost` is such a run.
- A connection turned away by a full pool queue is neither closed nor watched again:
  `Ownership.DroppedForGood`, and `Ownership.DropHappens` is a run in which one is.

## Model

| member | source | states |
|---|---|---|
| Division.DivideLinear | thirdparty/boost/boost/crc.hpp:548-553 | the altered division is linear: the exclusive-or of two runs, in registers and messages, divides to the exclusive-or of their remainders |
| Division.PlainDivideLinear | thirdparty/boost/boost/crc.hpp:672-674 | plain division is linear in the same sense |
| Division.Superposition | thirdparty/boost/boost/crc.hpp:1158-1165 | for any register and any k bits that fit it, k steps of division are one shift by k and the mask of the top k register bits combined with the message bits |
| Division.PlainSuperposition | thirdparty/boost/boost/crc.hpp:1127-1134 | k steps of plain division are one shift that takes in the message bits and the mask of the top k register bits alone |
| Division.AugmentedIsUnaugmented | thirdparty/boost/boost/crc.hpp:2217-2223 | plain division of a message followed by as many zeros as the order is altered division of the message, started from what the zeros alone make of the register |
| Division.CheckStringLeavesZero | thirdparty/boost/boost/crc.hpp:2282-2286 | of all strings put in place of the zeros exactly one leaves remainder zero: the checksum, highest bit first |
| Polynomials.PlainDivideIsRemainder | thirdparty/boost/boost/crc.hpp:672-702 | as polynomials: the register above the bits is a multiple of the divisor plus what plain division leaves |
| Polynomials.RemainderUnique | thirdparty/boost/boost/crc.hpp:672-674 | and that determines both the multiple and the remainder |
| Polynomials.CrcIsRemainder | thirdparty/boost/boost/crc.hpp:548-553 | from an empty register the altered division leaves the remainder of the message times x to the order, by the divisor |
| Reflection.ReflectInvolution | thirdparty/boost/boost/crc.hpp:371-404 | reflecting the low n bits twice changes nothing |
| Reflection.ReflectXor | thirdparty/boost/boost/crc.hpp:371-404 | reflection distributes over exclusive-or |
| Reflection.ReflectUnsigned | thirdparty/boost/boost/crc.hpp:390-404 | the swap loop reverses exactly the low word_length bits and leaves the others |
| Reflection.ReflectOptionally | thirdparty/boost/boost/crc.hpp:488-492 | reverses when asked to |
| Reflection.MakeByteReflectionTable | thirdparty/boost/boost/crc.hpp:415-425 | entry i of the table is byte i reversed, for all 256 |
| Reflection.ReflectByte | thirdparty/boost/boost/crc.hpp:442-448 | the look-up reverses the whole byte |
| Reflection.ReflectSubByte | thirdparty/boost/boost/crc.hpp:462-463 | the shortened look-up reverses the low bits and clears the rest |
| CrcTables.CrcModuloWordUpdate | thirdparty/boost/boost/crc.hpp:555-586 | the bitwise loop on a register of any width divides the given low bits in the given direction, on its low bits, and clears what is above the order |
| CrcTables.AugmentedCrcModuloWordUpdate | thirdparty/boost/boost/crc.hpp:677-702 | the same for plain division; what is above the order is left as it is |
| CrcTables.MessageBit | thirdparty/boost/boost/crc.hpp:560-570 | the bits of a message are divided byte by byte, and within a byte from the highest down or from the lowest up |
| CrcTables.MakePartialXorProductsTable | thirdparty/boost/boost/crc.hpp:976-995 | the table holds at every index, reflected or not, the remainder of dividing that index from an empty register |
| CrcTables.MaskFromPlainDivision | thirdparty/boost/boost/crc.hpp:973-974 | the open question of the comment: plain division of the index followed by zeros gives the same masks |
| CrcDrivers.DirectByte | thirdparty/boost/boost/crc.hpp:1158-1165 | one round of the direct table loop is eight bitwise steps on the low bits, whatever lies above the order |
| CrcDrivers.ReflectedByte | thirdparty/boost/boost/crc.hpp:1251-1259 | one round of the reflected loop is eight bitwise steps on the reversed register over the reversed byte |
| CrcDrivers.DirectPlainByte | thirdparty/boost/boost/crc.hpp:1127-1134 | one round of the direct augmented loop is eight steps of plain division |
| CrcDrivers.ReflectedPlainByte | thirdparty/boost/boost/crc.hpp:1218-1226 | one round of the reflected augmented loop is eight steps of plain division in reverse |
| CrcDrivers.DirectCrcUpdate | thirdparty/boost/boost/crc.hpp:1151-1169 | over any bytes the direct table driver leaves, in the low bits, the bitwise remainder |
| CrcDrivers.ReflectedCrcUpdate | thirdparty/boost/boost/crc.hpp:1244-1263 | the reflected table driver goes through the registers of `ReflectedRun`, from any start |
| CrcDrivers.ReflectedRunDivides | thirdparty/boost/boost/crc.hpp:1232-1263 | from a register with nothing above the order, its reverse is the bitwise remainder of the reversed bytes from the reversed start |
| CrcDrivers.ReflectedRunExact | thirdparty/boost/boost/crc.hpp:2025-2049 | it is so for every message if and only if nothing above the order is set at the start |
| CrcDrivers.ReflectedPlainRunDivides | thirdparty/boost/boost/crc.hpp:1199-1230 | from a register with nothing above the order, the registers of the reflected augmented driver are plain division in reverse |
| CrcDrivers.ReflectedPlainRunExact | thirdparty/boost/boost/crc.hpp:1199-1230 | it is so for every message if and only if nothing above the order is set at the start |
| CrcDrivers.DirectAugmentedCrcUpdate | thirdparty/boost/boost/crc.hpp:1120-1138 | the direct augmented table driver is plain division of the bytes |
| CrcDrivers.ReflectedAugmentedCrcUpdate | thirdparty/boost/boost/crc.hpp:1211-1230 | the reflected augmented table driver goes through the registers of `ReflectedPlainRun`, from any start |
| CrcDrivers.DirectSubByteCrcUpdate | thirdparty/boost/boost/crc.hpp:1359-1372 | for orders below a byte, the direct driver is bitwise division of the bytes |
| CrcDrivers.ReflectedSubByteCrcUpdate | thirdparty/boost/boost/crc.hpp:1446-1461 | for orders below a byte, the reflected driver is bitwise division in reverse, from any register |
| CrcDrivers.DirectSubByteAugmentedCrcUpdate | thirdparty/boost/boost/crc.hpp:1333-1346 | the augmented direct driver below a byte is plain division of the bytes |
| CrcDrivers.ReflectedSubByteAugmentedCrcUpdate | thirdparty/boost/boost/crc.hpp:1417-1432 | the augmented reflected driver below a byte is plain division in reverse |
| CrcDrivers.CrcUpdate | thirdparty/boost/boost/crc.hpp:1506-1520 | whichever driver an order and a reflection setting select, it divides the message |
| CrcComputers.CrcBasic.constructor | thirdparty/boost/boost/crc.hpp:1564-1578 | starts from the initial remainder with the parameters given |
| CrcComputers.CrcBasic.GetInterimRemainder | thirdparty/boost/boost/crc.hpp:1682-1690 | the remainder so far, nothing above the order |
| CrcComputers.CrcBasic.Reset | thirdparty/boost/boost/crc.hpp:1705-1714 | the remainder is the new one |
| CrcComputers.CrcBasic.ProcessBit | thirdparty/boost/boost/crc.hpp:1745-1754 | one division step |
| CrcComputers.CrcBasic.ProcessBits | thirdparty/boost/boost/crc.hpp:1771-1788 | the low bits of a byte are divided from the highest down, whatever the reflection |
| CrcComputers.CrcBasic.ProcessByte | thirdparty/boost/boost/crc.hpp:1801-1810 | eight division steps in the direction asked for |
| CrcComputers.CrcBasic.ProcessBytes | thirdparty/boost/boost/crc.hpp:1836-1884 | the remainder is that of dividing all the bytes |
| CrcComputers.CrcBasic.Checksum | thirdparty/boost/boost/crc.hpp:1898-1907 | the remainder with output reflection and final mask, nothing above the order |
| CrcComputers.OutputBits | thirdparty/boost/boost/crc.hpp:1886-1907 | bit by bit, the checksum is the remainder, turned around or not, against the final mask, with nothing above the order |
| CrcComputers.ReflectQ | thirdparty/boost/boost/crc.hpp:787-888 | reverses the low bits when asked to; up to a byte it drops the bits above, beyond a byte it keeps them |
| CrcComputers.CrcOptimal.constructor | thirdparty/boost/boost/crc.hpp:1932-1942 | stands for the given remainder, and is in order exactly when the value fits |
| CrcComputers.CrcOptimal.GetInterimRemainder | thirdparty/boost/boost/crc.hpp:2010-2022 | the remainder the register stands for, turned back if need be |
| CrcComputers.CrcOptimal.Reset | thirdparty/boost/boost/crc.hpp:2038-2049 | stands for the new remainder, and is in order exactly when the value fits |
| CrcComputers.CrcOptimal.ProcessByte | thirdparty/boost/boost/crc.hpp:2057-2068 | eight division steps |
| CrcComputers.CrcOptimal.ProcessBytes | thirdparty/boost/boost/crc.hpp:2097-2110 | the remainder is that of dividing all the bytes, and the register stays in order |
| CrcComputers.CrcOptimal.Checksum | thirdparty/boost/boost/crc.hpp:2113-2124 | the same output as the bitwise computer gives for the same remainder, though the register is turned only when the reflections differ |
| CrcComputers.Compare | thirdparty/boost/boost/crc.hpp:1836-1907 | the two computers give the same interim remainder and the same checksum, those of bitwise division, over all parameters and messages |
| CrcComputers.ResumeElsewhere | thirdparty/boost/boost/crc.hpp:1669-1690 | input split anywhere, the interim remainder of either computer put into either other one: the checksum of the whole |
| CrcComputers.Crc | thirdparty/boost/boost/crc.hpp:2226-2240 | the function gives the checksum of bitwise division |
| CrcComputers.AugmentedCrc | thirdparty/boost/boost/crc.hpp:2291-2304 | the function gives the remainder of plain division, nothing above the order |
| CrcComputers.BigEndianBits | thirdparty/boost/boost/crc.hpp:2282-2285 | a register's big-endian bytes are its bits from the highest down |
| CrcComputers.CheckBlock | thirdparty/boost/boost/crc.hpp:2277-2289 | the zero-byte extension yields the checksum from any start; the extension by given bytes leaves zero if and only if they are that checksum in big-endian order |
| CrcComputers.AugmentedMatchesCrc | thirdparty/boost/boost/crc.hpp:2277-2281 | from an empty register and without output processing the augmented function over the extended block and the unaugmented one over the block agree |
| HttpRequest.LineStays | 1. Proactor/http_conn.cpp:365-390 | a complete line stays the same line however much follows |
| HttpRequest.AdvanceResumes | 1. Proactor/http_conn.cpp:215-271 | parsing what has come and then going on with the rest is parsing everything in one piece |
| HttpRequest.ChunkingIndependence | 1. Proactor/http_conn.cpp:215-271 | for every stream and every way to cut it, the parse after each chunk ends where the parse of the whole stream does |
| HttpRequest.NeverEarly | 1. Proactor/http_conn.cpp:356-363 | no request is let through before n bytes have come after the place where its body began, whatever line ends the body holds |
| HttpRequest.RestResumes | 1. Proactor/http_conn.cpp:365-390 | going on with a scan when more has come ends where a scan of everything does |
| HttpRequest.AwaitsExact | 1. Proactor/http_conn.cpp:220-221 | for every body and every way to cut it, the request is let through if and only if some piece brings the announced bytes beyond where the scan of everything before it came to rest |
| HttpRequest.PlainBodyNeedsOnePiece | 1. Proactor/http_conn.cpp:220-221 | a body without line ends is let through if and only if one piece brings n bytes of it |
| HttpRequest.SplitBodyIsNotEnough | 1. Proactor/http_conn.cpp:260 | a complete body of two bytes that came one by one is still awaited; one that starts with a line feed is not |
| HttpRequest.NeverAnsweredExact | 1. Proactor/http_conn.cpp:365-390 | a stream still being read is never answered, whatever follows, if and only if the parse rests at a carriage return or line feed that no longer can be part of a line end |
| HttpRequest.BareLineFeedsAreNeverAnswered | 1. Proactor/http_conn.cpp:378-385 | a request with bare line feeds is one |
| HttpRequest.AdvanceClean | 1. Proactor/http_conn.cpp:273-353 | no parse yields a target with blanks or line ends or a host that starts blank or holds line ends |
| HttpConn.ScanIsNextLine | 1. Proactor/http_conn.cpp:365-390 | resuming the scan in the overwritten buffer finds the line end that the stream has from its first unread byte; the byte before the scan is never a carriage return, so the arm for a line feed after one is never taken |
| HttpConn.Connection.constructor | 1. Proactor/http_conn.cpp:92-110 | a new connection is ready for the first byte of a request |
| HttpConn.Connection.Init | 1. Proactor/http_conn.cpp:92-110 | from any state, ready for the first byte of a request and nothing to write; the connection stored next loses its descriptor and the first bytes of its read buffer |
| HttpConn.Connection.Clobber | 1. Proactor/http_conn.cpp:107 | what that does to the next connection, and that its parse stays sound if and only if no byte of the request in hand and no field taken from it lay there |
| HttpConn.Connection.Read | 1. Proactor/http_conn.cpp:123-143 | appends what came, keeps the parse where it stood, and fails if the buffer fills or the stream ends |
| HttpConn.Connection.ParseLine | 1. Proactor/http_conn.cpp:365-390 | the status, position and overwritten bytes of the scan, and the same read as the next line of the stream: no line end inside, terminated in place |
| HttpConn.Connection.ParseRequestLine | 1. Proactor/http_conn.cpp:273-317 | in place, through pointers, finds the target of the line or refuses it, as the parse of the line as text does |
| HttpConn.Connection.ParseHeaders | 1. Proactor/http_conn.cpp:319-353 | in place, adds to the fields what the header line says, and on the blank line dispatches or turns to the body |
| HttpConn.Connection.ParseContent | 1. Proactor/http_conn.cpp:356-363 | lets the request through exactly when enough bytes are there, and changes at most the byte after the body |
| HttpConn.Connection.DoRequest | 1. Proactor/http_conn.cpp:394-421 | the answer is that of the file the target names under the document root, cut to the buffer |
| HttpConn.Connection.HandleLine | 1. Proactor/http_conn.cpp:231-268 | one turn of the switch is one step of the parse of the stream |
| HttpConn.Connection.TurnLine | 1. Proactor/http_conn.cpp:220-269 | one turn of the loop over lines keeps the invariant, gets nearer to the end, and leaves the outcome of the whole stream as it was |
| HttpConn.Connection.TurnBody | 1. Proactor/http_conn.cpp:220-269 | one turn over the body, with the short-circuit of the condition: the first look scans nothing, every later one moves past a whole line or ends the loop |
| HttpConn.Connection.ProcessRead | 1. Proactor/http_conn.cpp:215-271 | terminates, keeps the order of the indices and the invariant, and answers or stops exactly where the parse of all bytes received does, the body included |
| HttpConn.Connection.Take | 1. Proactor/http_conn.cpp:191-205 | read and process_read together: what they answer to the bytes so far, and that all of it is a step of parsing the stream |
| HttpConn.Connection.ReceiveHeaders | 1. Proactor/http_conn.cpp:191-205 | read and process_read over any chunks that fit the buffer: result, target, host, linger and length are those of the joined bytes, and in a body it answers only with all of it there and else stands ready for the rest |
| HttpConn.Connection.AwaitBody | 1. Proactor/http_conn.cpp:356-363 | over any chunks of a body, the request is let through exactly when the rule of `HttpRequest.Awaits` says, and never before its last byte |
| HttpConn.Connection.ReceiveRequest | 1. Proactor/http_conn.cpp:191-205 | from the first byte, body included, over any chunks: the answer comes with the first chunk that settles the request and with no other, never before the last byte announced, and is the one the stream calls for |
| HttpConn.Connection.StaysSilent | 1. Proactor/http_conn.cpp:365-390 | at a malformed line end every later call says that more is needed and the parse stands still |
| HttpConn.Connection.AddResponse | 1. Proactor/http_conn.cpp:437-450 | appends all of the text or none, and fails exactly when it would not leave a byte to spare |
| HttpConn.Connection.ProcessWrite | 1. Proactor/http_conn.cpp:487-535 | from an empty buffer every answer succeeds with the whole text of the response |
| Numbers.Positional | 1. Proactor/http_conn.cpp:342 | of decimal digits each counts ten times the one after it |
| Numbers.AToLExact | 1. Proactor/http_conn.cpp:342 | white space, perhaps a sign, digits and any other text give the number, or the nearest there is room for |
| Numbers.AToLNothing | 1. Proactor/http_conn.cpp:342 | without a digit they give zero |
| Numbers.DigitsReadBack | 1. Proactor/http_conn.cpp:463-465 | a number written out reads back as itself, in digits only, without a zero in front |
| Numbers.NaturalUnique | 1. Proactor/http_conn.cpp:463-465 | and is the only such text |
| AnswerText.ResponseText | 1. Proactor/http_conn.cpp:486-535 | every answer as text: its status and title, the length of what follows in decimal, its type, whether the connection is kept, a blank line, the form |
| HeaderText.CaseExact | 1. Proactor/http_conn.cpp:331-343 | names and values are compared letter by letter but for case |
| HeaderText.LengthIs | 1. Proactor/http_conn.cpp:338-342 | a Content-Length line, in any letter case, with any blanks and any text behind the number, announces that number and changes nothing else |
| HeaderText.HostTaken | 1. Proactor/http_conn.cpp:343-347 | a Host line gives the host behind its blanks and changes nothing else |
| HeaderText.LingerTaken | 1. Proactor/http_conn.cpp:331-337 | a Connection line keeps the connection for the value keep-alive in any letter case, and for no other |
| HeaderText.OtherIgnored | 1. Proactor/http_conn.cpp:348-350 | a line of any other name changes nothing |
| HeaderText.RequestLineExact | 1. Proactor/http_conn.cpp:273-317 | of a verb, a target and a version between blanks comes a request if and only if they are GET, HTTP/1.1 and a target with a path |
| HeaderText.TooFewBlanks | 1. Proactor/http_conn.cpp:275-296 | with fewer blanks there is none |
| HeaderText.OriginForm | 1. Proactor/http_conn.cpp:304-311 | a target that starts with a slash is its own path |
| HeaderText.AbsoluteForm | 1. Proactor/http_conn.cpp:304-311 | one in absolute form is what follows its authority |
| HeaderText.WholeRequest | 1. Proactor/http_conn.cpp:215-271 | a request line, header lines and a blank line as text lead to the body or the answer, with what the lines make of the fields in turn |
| HeaderText.AnnouncedLength | 1. Proactor/http_conn.cpp:338-342 | the last Content-Length line is the one that counts |
| HeaderText.SettledWithBody | 1. Proactor/http_conn.cpp:356-363 | a request in one piece with its body is settled if and only if the announced bytes follow its blank line |
| HeaderText.ReceiveWithBody | 1. Proactor/http_conn.cpp:356-363 | of the connection: for a Content-Length line anywhere among the headers, such a request is answered exactly when that many bytes follow |
| HttpConn.Connection.Process | 1. Proactor/http_conn.cpp:191-205 | asks for more input exactly while the parse of the stream does, else leaves the whole answer to what the stream says (the file's code and size, or a bad request) and asks to write it; never closes a connection whose write buffer was empty |
| WebBench.Bench.BuildRequest | 1. Proactor/webbench-1.5/webbench.c:199-291 | which URLs are refused and why; an accepted one gives a request shorter than its buffer, with the path and host of the URL, or the URL itself for a proxy; and the version each method asks for |
| WebBench.Bench.TakeHost | 1. Proactor/webbench-1.5/webbench.c:246-261 | the host ends at a colon before the first slash or at the slash; the port is what follows the colon, 80 if that is no number, and unchanged without a colon |
| WebBench.DirectSpelled | 1. Proactor/webbench-1.5/webbench.c:212-289 | what is sent straight to a server, spelled out for each method and version |
| WebBench.ProxySpelled | 1. Proactor/webbench-1.5/webbench.c:264-289 | what is sent to a proxy, spelled out |
| RoundTrip.UrlParts | 1. Proactor/webbench-1.5/webbench.c:239-263 | a URL put together from a scheme, a host, a port or none and a path is taken apart into just these |
| RoundTrip.CleanRequestParses | 1. Proactor/webbench-1.5/webbench.c:221-289 | the printed request parses to exactly its path and host, without keep-alive or body |
| RoundTrip.RoundTripExact | 1. Proactor/http_conn.cpp:273-353 | it does so if and only if path and host hold none of the bytes that delimit them |
| RoundTrip.BenchThroughServer | 1. Proactor/webbench-1.5/webbench.c:199-291 | an accepted URL through the builder, cut in any way, through the connection: the file its path names is served, with that path and that host |
| RoundTrip.PartsThroughServer | 1. Proactor/webbench-1.5/webbench.c:199-291 | the same for a URL put together from its parts: its path is served, with its host |
| WorkerPool.ThreadPool.Append | 1. Proactor/threadpool.h:96-109 | queues and posts, or refuses a full queue and changes nothing |
| WorkerPool.ThreadPool.TakeFront | 1. Proactor/threadpool.h:133-141 | the oldest request leaves the queue |
| WorkerPool.StepInv | 1. Proactor/threadpool.h:96-147 | queue length = permits + appenders yet to post + workers yet to fetch, handed out ++ queued = accepted; every step keeps it, no woken worker finds the queue empty, and only a queue one above the limit refuses |
| WorkerPool.RunInv | 1. Proactor/threadpool.h:96-147 | in every run, with any number of threads: that accounting, first in first out, each request handed out once, at most one above the limit, the empty-queue branch not taken |
| WorkerPool.SettledQueueWakes | 1. Proactor/threadpool.h:130-147 | when nobody is half way, a non-empty queue lets every waiting worker go on |
| Ownership.EventLoop.ModifyFd | 1. Proactor/http_conn.cpp:65-70 | arms the descriptor the object holds, if it is registered |
| Ownership.EventLoop.Init | 1. Proactor/http_conn.cpp:92-110 | the connection has nothing to write, and the next object holds descriptor 0 |
| Ownership.EventLoop.CloseConn | 1. Proactor/http_conn.cpp:113-119 | the descriptor the object holds leaves the event set and the count goes down, once |
| Ownership.EventLoop.Write | 1. Proactor/http_conn.cpp:146-187 | each way out re-arms for the right event or asks to close: that after a failure, or when all is sent and the connection not kept |
| Ownership.EventLoop.HandleEvent | 1. Proactor/main.cpp:125-165 | what one delivered event does to the connections and the pool, each branch and outcome: closed and counted out exactly when the event ends the connection, else armed for what is to come |
| Ownership.WorkOn | 1. Proactor/http_conn.cpp:191-205 | of the connection class itself: a refused response needs one that was there before, and an answer from an empty buffer leaves something to write |
| Ownership.DeliverCounts | 1. Proactor/http_conn.cpp:65-70 | a delivery moves each reported connection from the armed ones to the events, once, and reports it writable exactly when it has a response |
| Ownership.MoveSafeExact | 1. Proactor/main.cpp:115-166 | a move of the main thread, the kernel or a worker keeps every open connection in exactly one place, with its descriptor in its object, if and only if it does not clear a connection whose neighbour is open |
| Ownership.RunSafe | 1. Proactor/main.cpp:115-166 | as long as no move did that, each open connection is armed, delivered, queued, worked on or turned away, and only one of them, and the user count is the number of open ones |
| Ownership.RunSafeExact | 1. Proactor/main.cpp:115-166 | and only that long: all states of a run are so if and only if no move of it cleared a connection whose neighbour was open |
| Ownership.OverrunHappens | 1. Proactor/http_conn.cpp:107 | a run in which a reset makes an open connection close descriptor 0 in its place, be counted out, and be nowhere |
| Ownership.ForgottenStays | 1. Proactor/http_conn.cpp:58-70 | such a connection stays open, unwatched and unheld whatever happens |
| Ownership.Exclusive | 1. Proactor/threadpool.h:130-147 | a connection worked on is worked on by one worker, and not queued, armed or reported meanwhile |
| Ownership.QueuedOnce | 1. Proactor/main.cpp:150-153 | no connection is in the queue twice |
| Ownership.WorkersNeverClose | 1. Proactor/http_conn.cpp:199-203 | a worker always starts from an empty write buffer, so its closing branch is not taken |
| Ownership.OnlyMainCloses | 1. Proactor/http_conn.cpp:112-119 | only the main thread changes which connections are open and how many |
| Ownership.EventsAreLive | 1. Proactor/http_conn.cpp:152-157 | events belong to open connections, and one reported writable has a response, so the empty branch of write is not taken |
| Ownership.EndsClosed | 1. Proactor/main.cpp:145-164 | a hang-up, a failed read, a failed write, or a response sent on a connection not kept closes that connection, counts it out, and changes nothing else |
| Ownership.WriteGoesOn | 1. Proactor/http_conn.cpp:165-180 | a write that would block waits for the next chance with its response; one that is done on a kept connection clears it for the next request |
| Ownership.ReadGoesOn | 1. Proactor/main.cpp:150-153 | what was read is queued, unless the queue is one above its limit |
| Ownership.ClientComesIn | 1. Proactor/main.cpp:127-142 | a new client is watched for its request, unless there are 65535 |
| Ownership.WorkerHandsBack | 1. Proactor/http_conn.cpp:191-205 | a worker asks for more of the request, or to write the response it left, and never closes |
| Ownership.DroppedForGood | 1. Proactor/main.cpp:150-153 | a connection refused by the full queue stays open, disarmed and unqueued in the rest of every run |
| Ownership.DropHappens | 1. Proactor/main.cpp:150-153 | a run in which one is refused |
| Ownership.NotForgotten | 1. Proactor/main.cpp:115-166 | from any safe state the threads can, in a number of moves bounded by what there is to do and without the kernel, come to where an open connection that was not refused is armed or closed |
| Frames.NetworkShort | 3. AsyncServerIOservicepool/src/MsgNode.cpp:12-16 | two bytes, the high one first, that make the number modulo 65536 |
| Frames.HostShort | 3. AsyncServerIOservicepool/src/Session.cpp:134-148 | the signed number that two bytes, the high one first, make modulo 65536 |
| Frames.ShortRoundTrip | 3. AsyncServerIOservicepool/src/Session.cpp:134-148 | a signed short through network order and back is itself |
| Frames.SendNode.constructor | 3. AsyncServerIOservicepool/src/MsgNode.cpp:8-18 | the node holds identifier and length, each with its high byte first, then the payload, then a terminator |
| Frames.Session.HandleReadHead | 3. AsyncServerIOservicepool/src/Session.cpp:110-166 | closes exactly on an error, a short read or a number out of 1..2048 in its bytes, high byte first; else awaits the body they announce |
| Frames.Session.HandleReadBody | 3. AsyncServerIOservicepool/src/Session.cpp:168-203 | posts the message and awaits the next head, or closes |
| Frames.Session.Receive | 3. AsyncServerIOservicepool/src/Session.cpp:110-203 | the two handlers in turn post exactly what decoding the stream gives, and close exactly when it is refused |
| Frames.Canonical | 3. AsyncServerIOservicepool/src/Session.cpp:110-203 | what was posted from any stream re-encodes to exactly the bytes taken for it; what follows is incomplete or has a bad head |
| Frames.Exact | 3. AsyncServerIOservicepool/src/MsgNode.cpp:8-18 | frames of any messages, followed by anything, decode to the messages before the first unacceptable one, and if there is none go on with what follows |
| Frames.RoundTripExact | 3. AsyncServerIOservicepool/src/Session.cpp:137-156 | a list of messages makes the trip if and only if all identifiers and lengths are in 1..2048 |
| Frames.Monotone | 3. AsyncServerIOservicepool/src/Session.cpp:110-203 | more bytes only extend what was posted; after a refusal they change nothing |
| PartialSend.Session.WriteToSocketWithQueue | 2. AsyncServer/src/Session.cpp:68-78 | queues the buffer, and starts a write of it only when none is pending |
| PartialSend.Session.WriteCallBackWithQueue | 2. AsyncServer/src/Session.cpp:38-66 | goes on with the front message, or turns to the next, or comes to rest; on an error does nothing |
| PartialSend.CompleteGood | 2. AsyncServer/src/Session.cpp:38-66 | a completion of any size finds a message in front and keeps: pending, queue non-empty and exactly one write outstanding go together |
| PartialSend.WireIsPrefix | 2. AsyncServer/src/Session.cpp:38-78 | the bytes on the wire are the first bytes of the buffers in order, and all of them once the queue is empty |
| PartialSend.RunGood | 2. AsyncServer/src/Session.cpp:38-78 | so in every state of every run, however the socket splits the writes and whatever fails |
| PartialSend.Progress | 2. AsyncServer/src/Session.cpp:45-65 | each completion that does not stall lowers the bytes left or the messages queued; one that stalls repeats the write |
| PartialSend.Drains | 2. AsyncServer/src/Session.cpp:45-65 | the number of such completions is bounded by what is left, and while anything is queued one is to come |
| PartialSend.NothingAfterFailure | 2. AsyncServer/src/Session.cpp:40-44 | after an error nothing more is started or sent |
| WholeSend.Session.Send | 3. AsyncServerIOservicepool/src/Session.cpp:35-67 | queues the frame unless the queue is over its limit, and starts a write only when it was empty; the length is what is left of it in a short, and one that makes a node of negative size throws and queues nothing |
| WholeSend.Session.HandleWrite | 3. AsyncServerIOservicepool/src/Session.cpp:78-103 | pops the frame written and starts the next; on an error closes |
| WholeSend.SubmitGood | 3. AsyncServerIOservicepool/src/Session.cpp:35-67 | accepted = completed ++ queued, at most one write outstanding, queue at most one above the limit; a message is taken exactly below it |
| WholeSend.CompleteGood | 3. AsyncServerIOservicepool/src/Session.cpp:78-103 | a completion always finds a frame to pop and keeps all that |
| WholeSend.RunGood | 3. AsyncServerIOservicepool/src/Session.cpp:35-103 | so in every state of every run |
| WholeSend.NothingAfterFailure | 3. AsyncServerIOservicepool/src/Session.cpp:91-102 | after one failed completion no further write is ever started |
| WholeSend.PeerPosts | 3. AsyncServerIOservicepool/src/Session.cpp:35-203 | from the sending session to the reading one: at any moment the peer has posted a prefix of the accepted messages, none past the first it refuses, and all before that once the queue has drained |
| LogicQueue.LogicSystem.PostMsgToQue | 3. AsyncServerIOservicepool/src/logicsystem.cpp:106-115 | appends, and signals exactly when the queue was empty |
| LogicQueue.LogicSystem.DealMsg | 3. AsyncServerIOservicepool/src/logicsystem.cpp:38-97 | alone, dispatches everything queued in order, then waits, or exits if stopped |
| LogicQueue.StepGood | 3. AsyncServerIOservicepool/src/logicsystem.cpp:38-115 | every step keeps: dispatched ++ queued = posted, and a worker asleep with something queued only while a poster is about to signal |
| LogicQueue.RunGood | 3. AsyncServerIOservicepool/src/logicsystem.cpp:38-115 | so in every run, with any posters and stray wakeups; dispatched is always a prefix of posted |
| LogicQueue.FrontIsThere | 3. AsyncServerIOservicepool/src/logicsystem.cpp:78-79 | the unchecked pop never meets an empty queue |
| LogicQueue.SignalsExactly | 3. AsyncServerIOservicepool/src/logicsystem.cpp:110-114 | the machine signals for the post that found the queue empty, and for no other |
| LogicQueue.NoLostWakeup | 3. AsyncServerIOservicepool/src/logicsystem.cpp:44-47 | with a message queued and no poster at work, the worker goes on without a stray wakeup |
| LogicQueue.WorkerSteps | 3. AsyncServerIOservicepool/src/logicsystem.cpp:40-80 | each of its steps dispatches the front message or gets nearer to it |
| LogicQueue.ExitIsClean | 3. AsyncServerIOservicepool/src/logicsystem.cpp:50-76 | at exit it is stopped, the queue is empty and everything posted before was dispatched |
| LogicQueue.ExitIsReached | 3. AsyncServerIOservicepool/src/logicsystem.cpp:50-76 | once stopped and awake the worker comes to exit by its own steps, with everything posted so far dispatched |
| LogicQueue.ExitIsFinal | 3. AsyncServerIOservicepool/src/logicsystem.cpp:75 | after that nothing is dispatched |
| LogicQueue.StopHeardInTime | 3. AsyncServerIOservicepool/src/logicsystem.cpp:99-104 | a stop signalled while the worker is not between test and wait keeps it from ever sleeping again |
| LogicQueue.StopLostExact | 3. AsyncServerIOservicepool/src/logicsystem.cpp:99-104 | at the end of any run in which the destructor is about to signal, some way on from its signal leads to a worker asleep until someone posts or chance wakes it, if and only if the worker is between test and wait |
| LogicQueue.StopCanBeLost | 3. AsyncServerIOservicepool/src/logicsystem.cpp:99-104 | a run to such a worker |

## Left out

- Sending the response: how many bytes `write` sends, the two-part buffer and its positions; only the event it re-arms for and whether the connection is closed are kept.
- Files: `stat`, `open` and `mmap` are one function from a path to what is there, given to the model; unmapping is left out.
- The system calls: sockets, `recv`, `accept` and the event set are steps of the environment with the outcomes they can have. `accept` is taken to succeed.
- The insides of mutexes, semaphores and condition variables: they are the steps their contracts allow.
- HttpConn.Connection.Init: how many bytes of the next connection's read buffer are cleared follows from the field sizes of x86-64 Linux; the part of the object behind the write buffer, all set again before it is used, and the memory behind the last connection of the array are not modelled.
- Ownership.RunSafe: an object whose descriptor was overwritten does to descriptor 0 what it was to do to its own, and what it reads is left open; what that does to a file or socket other than a connection on descriptor 0 is not modelled.
- A descriptor is taken to be an index of the array of connections.
- HttpConn.Connection.ParseContent: the store of a terminator outside the buffer is not modelled, nor is what a negative announced length makes of the fields; machine integers are taken as unbounded except where the code converts a number it has read.
- HttpConn.Connection.AddHeaders: the headers are stated only when they all fit; the source ignores which of them did not, as the model does.
- CrcComputers.Compare: requires an initial remainder that fits the order for reflecting computers beyond a byte, which is the exact condition of `ReflectedRunExact`.
- CrcComputers.AugmentedCrc: orders below a byte, which the function's only driver does not serve.
- The default arguments, getters and block and function-call forms of the CRC computers: easy members.
- Frames.SendNode.constructor: payload lengths that are negative as a short, or too long for a short with the head added; `WholeSend.Session.Send` models the conversion and the exception they end in, except for the lengths of -5 to -1, for which the constructor writes outside its array.
- PartialSend.Session.WriteToSocketWithQueue: the first write is started from the caller's string and not from the queued copy, so the string has to outlive that write; the model has no such lifetimes. The lengths are unbounded, where the source holds them in an `int`.
- The queued nodes of the framed session are the bytes they hold; that they are shared objects is not modelled.
- LogicQueue.ExitIsReached: a worker that missed the stop is not covered, as `StopLostExact` shows it cannot be.
- The threads of the pool are never stopped: `threadpool` detaches them, and its destructor's flag is not modelled.
- The callbacks a message is dispatched to, with their JSON, and the exceptions they may throw.
- `WriteToSocket`, the `WriteAll` pair and the reads of `2. AsyncServer`; `4. CoroutineAsyncServer`, `5` and `6`; the pool of contexts, the singletons and the session map; webbench's forking, timing and sockets.
