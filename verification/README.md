# Models of the hand-off, parsers, framing and index structures

Dafny models of the parts of this repository in which several functions have to agree:
the hand-off of jobs between threads in redis-proxy, the binary log parser of ebinlog,
the message framing of redis-proxy and uRedis, the heap list and the event loop, the
keyword trie of redis-ckw and the packed sorted set of vector_udf.  Code that updates
state in place is modelled by classes, methods and loops.  Each of these is proved
against a function or predicate, and the properties below are proved about that.

`dafny verify dfyconfig.toml` checks everything.

| file | what it models |
|---|---|
| `Bytes.dfy`, `Options.dfy` | octets, powers, concatenation; missing values |
| `HandOff.dfy` | `redis-proxy/redis.c`: one event-loop thread, any number of workers, as interleaved atomic steps |
| `HandOffPaths.dfy`, `HandOffProgress.dfy` | what goes through the two lists and the pipe along any interleaving; why the server comes to rest |
| `HandOffQueries.dfy` | what the answers of the classification do to a client, and a command that arrives in pieces |
| `HandOffThreads.dfy`, `HandOffServer.dfy` | the handlers and the worker's round as methods on the server's state, the other threads free to move between any two statements |
| `DecimalFormat.dfy`, `BinDecimal.dfy`, `DecimalMeaning.dfy`, `DecimalRefusal.dfy` | MySQL's binary DECIMAL: the format, `bin2decimal`, what the decoder's words denote, and what it refuses |
| `LittleEndian.dfy`, `TableMap.dfy`, `RowImage.dfy` | integers, table map events and row images of the binary log |
| `RowParser.dfy`, `RowRestart.dfy`, `RowLogParser.dfy` | event framing, positions and labels; restarting; the parser and listener objects |
| `RowStream.dfy`, `RowTransaction.dfy` | the bytes that the server sends for its events; from the bytes of a transaction to its rows |
| `Ascii.dfy`, `Resp.dfy`, `RespAccepted.dfy`, `RespCommands.dfy`, `RespVerdicts.dfy`, `RespReader.dfy` | decimal text; the Redis serialization protocol; which bytes pass for a reply, which for a command, and which are refused or waited for; the cursor loops and the exchange with the server |
| `UdpReply.dfy`, `UdpOrder.dfy`, `UdpExchange.dfy` | the UDP reply from builder to decoder; the order in which its fragments are joined; its loops |
| `AdList.dfy`, `TimeEvents.dfy` | the linked list and its iterator; timers |
| `FileEvents.dfy`, `FileDispatch.dfy` | file events, their handlers and the kernel's interest set; which handlers are called for what the poll reports |
| `Keywords.dfy`, `KeywordOffset.dfy` | the keyword trie and the offsets it reports |
| `SortedSet.dfy`, `SortedSetRange.dfy` | the packed sorted set; the text of a range, read back |

## Where the code falls short of what it promises

Each of these is stated with the exact condition under which the promise holds.

- A descriptor that cannot be registered leaves its client alive in no place of the
  server (`HandOff.OnePlacePerClient`, `HandOff.LostIffLosingStep`), whether for writing
  or, unchecked, for reading again (`HandOff.RefusalLosesTheClient`).
- `bin2decimal` refuses exactly the bytes that are no encoding if and only if all groups
  fit nine words, the integer part is made of full groups and the fraction ends with a
  full group or one of two or four digits (`DecimalRefusal.RefusesExactlyIff`).  Else a
  leading group ten times too large passes (`DecimalRefusal.TenInOneDigit`), or a last one
  whose product wraps (`DecimalRefusal.FortyThreeTenths`), or one that is skipped.
- A null column decodes like the integer 0: two rows decode alike if and only if they
  agree up to that (`RowImage.DecodeAlikeIff`).
- The rows behind a rotate event carry the name it gives if and only if no name before it
  was longer (`RowParser.RotateNamesTheLog`, `RowParser.ShorterName`), and the first name is
  read back if and only if the memory behind it holds a NUL (`RowLogParser.CopiedIsNameIff`).
- A status, error or integer line is refused if and only if it has a line end or a NUL
  in it (`Resp.LineCompleteIff`), a multi-bulk reply for a count outside 0 to 1024, the null
  reply among them (`RespReader.CountOutOfRange`, `RespReader.NullMultiIsRefused`), and
  a command for anything behind it (`Resp.RequestExpected`, `RespReader.PipeliningIsRefused`).
- More bytes pass for a reply than the encodings of replies.  Those taken are exactly those
  of `RespAccepted.CompleteIff`; of them the replies are exactly the lines, the bulks with
  a properly written length, and the properly written counts with as many such bulks behind
  them (`RespAccepted.TakenIsReplyIff`).  `RespAccepted.SeparatorUnseen` and
  `RespAccepted.LengthLeadsBack` are taken and are no replies.
- Likewise for commands: those taken are exactly those of `RespCommands.RequestCompleteIff`,
  and of them the commands are exactly the properly written counts, not 0, with as many
  such bulks (`RespCommands.TakenIsCommandIff`, `RespCommands.CommandsUnseen`).
- The reply builder refuses some replies that would fit, and loses the line feed of a nil
  that ends at the last byte of the buffer (`UdpReply.RefusedAlthoughItFits`,
  `UdpReply.BuildIsReplyIff`, `UdpReply.RoundTripIff`).
- The client joins datagrams in order of their first arrivals; the result is the reply if
  and only if each payload lies where the reply has it (`UdpOrder.CollectIsReplyIff`).  If
  the last fragment arrives last this means that the k-th arrival carries the k-th payload
  (`UdpOrder.LastComesLastIff`); if it arrives early it does not (`UdpOrder.SwappedAndWhole`).
- If callbacks answer by their event and delete nothing, a pass over the timers ends if and
  only if every event due at its start answers "no more" or a positive delay
  (`TimeEvents.PassEndsIff`); the loop sleeps for the right time if and only if the timer
  is not overdue by a broken number of seconds (`TimeEvents.SleepIsExactIff`).
- The pass writes to a timer that has been freed if and only if a callback deletes its own
  event and does not answer "no more" (`TimeEvents.EventLoop.FireEvent`).
- Registering an empty mask, closing a registered descriptor, or a change that the kernel
  fails to make takes the table out of step with the kernel, and nothing else does
  (`FileEvents.StepKeepsIff`, `FileEvents.ClosedTooEarly`, `FileEvents.RemovalFailed`).
- The offset reported for a text is that of a keyword if and only if the scan from there
  never falls back to the root (`Keywords.StraightIff`); it is for every text if and only
  if there is no keyword, or every byte leads on or ends a keyword at every node reached
  without an end mark (`KeywordOffset.ExactOnAllTextsIff`, `KeywordOffset.OneByteKeyword`).
- A stored member is gone after `zrem` if and only if fewer than 2048 entries are stored
  (`SortedSet.ZremRemovesIff`); sets do fill up (`SortedSet.SetsFillUp`).
- `zadd` leaves the members in order of their scores, whatever the sort does with ties and
  inconsistent answers, if and only if no two scores then stored are 2^31 or more apart
  (`SortedSet.AllAscendIff`, `SortedSet.NextAddAscendsIff`), because only those are compared
  by size (`SortedSet.CmpIsOrderIff`).  Two members further apart always end up reversed
  (`SortedSet.AlwaysReversed`), two exactly that far apart in either order
  (`SortedSet.EitherOrder`).

Where code and comments disagree the code is followed: `uRedis/uRedis.php:40-44` asks for
datagrams in sequence number order, line 193 joins them in order of arrival;
`redis-ckw/ckwlib.c:11` is read as incrementing the counter, and the third argument at
line 40 is dropped.  `redis-proxy/redis.c:518` says that the mutex is held on entry, but
the function takes it itself.

## Model

| member | source | states |
|---|---|---|
| HandOff.MutualExclusion | redis-proxy/redis.c:557-603 | in no reachable state are two threads between taking and releasing the mutex |
| HandOff.PopFindsAJob | redis-proxy/redis.c:387-398 | in every interleaving the processed list is as long as pipe bytes, pushes without their byte and a byte in hand together, so the assertion before the pop holds |
| HandOff.OnePlacePerClient | redis-proxy/redis.c:217-230 | no client is in two places; every live client is in exactly one if and only if no registration has failed; server.clients counts the live ones |
| HandOff.LostIffLosingStep | redis-proxy/redis.c:404-515 | a client is lost exactly when its registration for writing, or again for reading, fails |
| HandOff.RefusalLosesTheClient | redis-proxy/redis.c:395-516 | any run that reaches a registration, for writing or again for reading, extends by a refusal to a state where the client is alive, counted and nowhere |
| HandOff.FreedOnlyByItsOwner | redis-proxy/redis.c:455-472 | a client is freed only by the event loop while registered there, in no list and held by no worker |
| HandOff.NoLostWakeUp | redis-proxy/redis.c:519-555 | while a worker sleeps, queued jobs are bounded by workers on their way and a signal still due; if all sleep the list is empty or the signal for its one job is due |
| HandOff.NeverStuck | redis-proxy/redis.c:565-603 | while a client is between request and reply, some thread can take a step of its own |
| HandOffProgress.OwnStepDescends | redis-proxy/redis.c:377-603 | every step the server takes on its own brings one measure down |
| HandOffProgress.RunComesToRest | redis-proxy/redis.c:377-603 | from every reachable state there are at most that many own steps, in any order, and when none is left every client that was live and not lost is registered, for writing unless it was registered for reading before |
| HandOffProgress.EndExists | redis-proxy/redis.c:377-603 | and such an end exists |
| HandOff.RepliesExactlyOnce | redis-proxy/redis.c:474-516 | each request gets one reply; bytes sent are a prefix of the replies, and all of them once the client is readable again |
| HandOff.ClientsCounted | redis-proxy/redis.c:200-230 | every step keeps server.clients equal to the number of live clients and within maxclients |
| HandOff.RunInv | redis-proxy/redis.c:283-301 | the inductive invariant of mutex, pipe, ownership, wake-ups, replies and descriptors holds in every state of every run |
| HandOff.PipeKept | redis-proxy/redis.c:592-600 | every step keeps the account between processed list, pipe and owed bytes |
| HandOff.OwnerKept | redis-proxy/redis.c:500-516 | every step keeps each client in at most one place, none after it is freed |
| HandOff.PipeFits | redis-proxy/redis.c:592-600 | the bytes in the pipe and those still owed to it are never more than the live clients, whose descriptors are below AE_SETSIZE |
| HandOff.PipeHasRoom | redis-proxy/redis.c:600-600 | in every reachable state a worker about to write its byte finds fewer than 10240 in the pipe, so the assertion on the write holds |
| HandOff.SendConserves | redis-proxy/redis.c:474-498 | the send step, complete or partial, leaves what was sent and what is still to be sent, together, as they are |
| HandOffPaths.PathKeepsInv | redis-proxy/redis.c:377-412 | whatever path of steps leads from a state with the invariant, it still holds |
| HandOffPaths.PathAccounts | redis-proxy/redis.c:387-603 | along every interleaving both lists are first in first out, no byte is lost, and the event loop pops one client for each byte read but the one in hand |
| HandOffPaths.RunAccounts | redis-proxy/redis.c:387-603 | in every reachable state: pushed is popped and still listed, queued is taken and still listed, read is popped and in hand |
| HandOffPaths.DrainTakesInOrder | redis-proxy/redis.c:377-406 | one call of the pipe handler, workers moving freely, reads one byte per client popped, pops the oldest first, those pushed meanwhile after those there, registers each or loses the refused one, and ends at a refusal or an empty pipe |
| HandOffQueries.QueryDecides | redis-proxy/redis.c:283-301 | what -1, -2, 0 and 1 do to the client, the readers and the event loop, and that nothing else changes |
| HandOffQueries.BytesDecide | redis-proxy/redis.c:283-301 | of all bytes exactly those that are wrong or ask to quit free the client, exactly the incomplete ones leave it a reader, and exactly commands get it queued |
| HandOffQueries.AcceptDecides | redis-proxy/redis.c:200-230 | a new client has read nothing and is a reader; one too many leaves no trace |
| HandOffQueries.SendDecides | redis-proxy/redis.c:474-516 | after the last byte the client is a reader that has read nothing, or lost; before it, a writer |
| HandOffQueries.StaysReadable | redis-proxy/redis.c:242-301 | along any path on which every answer to it is 0, a client that does not hang up stays a live reader, and has read the sum of its reads |
| HandOffQueries.QueuedPerCommand | redis-proxy/redis.c:297-300 | along any path a client is queued once for each answer 1 |
| HandOffQueries.CommandInPieces | redis-proxy/redis.c:242-301 | a command cut in any pieces, read while everything else goes on: until the last piece its client stays a live reader and is not queued, and with the last piece it is queued, once |
| HandOffThreads.HolderMoves | redis-proxy/redis.c:557-603 | whoever has the mutex can always move, and releases it after at most two statements |
| HandOffThreads.OthersLeaveMain | redis-proxy/redis.c:377-406 | workers change neither the registrations nor where the event loop stands, and no number of their steps changes how many jobs are in flight |
| HandOffThreads.OthersLeaveWorker | redis-proxy/redis.c:565-603 | no step of another thread moves a worker that is awake |
| HandOffServer.RedisServer.AwaitMutex | redis-proxy/redis.c:557-559 | the mutex comes free, by steps of the other threads alone |
| HandOffServer.RedisServer.AcceptHandler | redis-proxy/redis.c:200-215 | the accept step: a descriptor becomes a client if and only if it can be registered and the clients are fewer than the limit |
| HandOffServer.RedisServer.ReadQueryFromClient | redis-proxy/redis.c:242-301 | the query step: -1 and -2 free the client, 0 leaves it a reader that has read so many bytes more, 1 takes it from the readers to be queued |
| HandOffServer.RedisServer.QueueIOJob | redis-proxy/redis.c:519-528 | whatever the workers do in between, the call queues this client, once, begins no other handler, and keeps the invariant |
| HandOffServer.RedisServer.SendReplyToClient | redis-proxy/redis.c:474-498 | the send step: the next bytes are sent, and the client stays a writer if and only if some are left |
| HandOffServer.RedisServer.CompleteOne | redis-proxy/redis.c:387-406 | whatever the workers do in between, one byte is read, one client popped and registered; the assertion before the pop is proved |
| HandOffServer.RedisServer.VmThreadedIOCompletedJob | redis-proxy/redis.c:377-412 | although workers may write more bytes meanwhile, the loop terminates, and it is a drain in the sense of DrainTakesInOrder with the answers given |
| HandOffServer.RedisServer.WorkerRound | redis-proxy/redis.c:572-601 | whatever the other threads do in between, a round ends asleep with nothing done, or has taken one job, run its command, pushed that client and written one byte, for which the pipe has room |
| DecimalFormat.TwoDigitsToAByte | ebinlog/BinlogTypes.h:203-203 | a group takes a byte for every two digits, but four for nine |
| DecimalFormat.EncodeRoundTrip | ebinlog/BinlogTypes.h:203-217 | reading the format gives back the number encoded, of either sign |
| DecimalFormat.ValueRoundTrip | ebinlog/BinlogTypes.h:203-217 | every encoding but that of negative zero is the encoding of its value |
| DecimalFormat.EncodingsSortLikeValues | ebinlog/BinlogTypes.h:280-290 | byte-wise order of encodings is order of values, strict but for the two zeros |
| BinDecimal.BinSizeIsFormatSize | ebinlog/BinlogTypes.h:210-217 | decimal_bin_size is the number of bytes of the format |
| BinDecimal.KorrUndoesMask | ebinlog/BinlogTypes.h:185-198 | the signed reads followed by the exclusive-or are the unsigned value of the complemented bytes |
| BinDecimal.FixedIsKept | ebinlog/BinlogTypes.h:149-168 | the counts after FIX_INTG_FRAC_ERROR are those of the groups that fit nine words, and the offset skips the others |
| BinDecimal.WordCount | ebinlog/BinlogTypes.h:308-347 | intg and frac round up to exactly the number of words stored, after stripping |
| BinDecimal.MyDecimal.BinToDecimal | ebinlog/BinlogTypes.h:274-372 | error code, sign, intg, frac and words are those of the specification, the bad-number path included |
| BinDecimal.MyDecimal.IntGroup | ebinlog/BinlogTypes.h:312-341 | one integer group is checked and stored, or dropped while zero and leading |
| BinDecimal.MyDecimal.FracGroup | ebinlog/BinlogTypes.h:342-364 | one fraction group is scaled to a whole word, checked and stored |
| DecimalMeaning.DecodeInvertsEncoding | ebinlog/BinlogTypes.h:274-372 | for every encoding the words denote the number: exactly, cut to nine words, or modulo 10^81, as the error code says |
| DecimalMeaning.EncodingNumber | ebinlog/BinlogTypes.h:308-364 | when nine words suffice the decoder reports no error and denotes exactly the value of the encoding |
| DecimalMeaning.DecimalRoundTrip | ebinlog/BinlogTypes.h:274-372 | decoding the encoding of n gives n, for every sign, precision and scale that fit |
| DecimalMeaning.DecodeIsMonotone | ebinlog/BinlogTypes.h:280-364 | byte-wise smaller encodings decode to smaller numbers |
| DecimalRefusal.RefusesExactlyIff | ebinlog/BinlogTypes.h:288-364 | for every precision and scale: the decoder refuses exactly the bytes that are no encoding if and only if all groups fit nine words, the integer part is full groups and the last fraction group has 9, 2 or 4 digits |
| DecimalRefusal.ExactGroup | ebinlog/BinlogTypes.h:308-364 | the range check of those groups passes exactly the values with that many digits |
| DecimalRefusal.InexactGroupFails | ebinlog/BinlogTypes.h:308-364 | every other kept group gives bytes that are decoded without error and are no encoding |
| DecimalRefusal.DroppedGroupFails | ebinlog/BinlogTypes.h:296-306 | and so does a group beyond nine words, whose bytes are skipped |
| DecimalRefusal.TenInOneDigit | ebinlog/BinlogTypes.h:312-323 | DECIMAL(1,0) takes the byte 138 for 10 |
| DecimalRefusal.FortyThreeTenths | ebinlog/BinlogTypes.h:349-364 | DECIMAL(1,1) takes the byte 171, which would be 43 tenths |
| LittleEndian.Sint3KorrIsSigned | ebinlog/BinlogTypes.h:59-66 | the hand-made sign extension is two's complement of three bytes |
| LittleEndian.SignedRoundTrip | ebinlog/BinlogTypes.h:58-78 | a signed number of k bytes is read back |
| LittleEndian.PacketIntRoundTrip | ebinlog/BinlogTypes.h:106-132 | any length an int can hold is read back in MySQL's encoding of it, and the position moves by its size |
| TableMap.CMyTableMap.Process | ebinlog/BinlogTable.h:29-67 | the object holds the table its event describes |
| TableMap.CMyTableMap.DecodeMetaData | ebinlog/BinlogTable.h:69-121 | the running offset finds the metadata of every column |
| TableMap.CMyTableMap.DecodeDataType | ebinlog/BinlogTable.h:123-146 | ENUM and SET are told from STRING by the metadata |
| TableMap.CMyTableMap.DecodeNullAble | ebinlog/BinlogTable.h:148-156 | the nullable flags are the bits of the bitmap |
| TableMap.TableMapRoundTrip | ebinlog/BinlogTable.h:29-156 | parsing an encoded table map gives back id, names, real types, metadata and nullability, for columns of every metadata form |
| TableMap.MetasRoundTrip | ebinlog/BinlogTable.h:69-121 | the metadata of each column is read back across columns of different metadata sizes |
| TableMap.PackBits | ebinlog/BinlogTable.h:148-156 | bit i of a packed bitmap is flag i |
| RowImage.RowRoundTrip | ebinlog/BinlogRow.h:235-264 | a row image decodes to its row, null as 0, and takes exactly its bytes |
| RowImage.ItemRoundTrip | ebinlog/BinlogRow.h:286-321 | integers of 1 to 8 bytes, timestamps, varchars, variable strings and blobs decode to their value and length |
| RowImage.ChangesRoundTrip | ebinlog/BinlogRow.h:171-233 | concatenated images of inserts, deletes or updates decode in order and use up all bytes |
| RowImage.RowsEventRoundTrip | ebinlog/BinlogRow.h:124-140 | an encoded table map and the rows event behind it give back the logged changes and the end flag |
| RowImage.DecodeAlikeIff | ebinlog/BinlogRow.h:235-264 | two row images decode alike if and only if their rows agree at every place up to a null against a zero |
| RowImage.BytesTellApart | ebinlog/BinlogRow.h:235-264 | although the bytes of any two different rows differ |
| RowParser.FramesCarryOver | ebinlog/BinlogRow.h:143-169 | later bytes leave the complete events as they are and join the unconsumed tail |
| RowParser.FramesFrom | ebinlog/BinlogRow.h:143-169 | bytes from an event's offset on frame into the events from there on, with the same tail |
| RowParser.ChunkingDoesNotMatter | ebinlog/BinlogListener.py:22-35 | any cut of the stream gives the rows, state and tail of the uncut stream |
| RowParser.ProcessConcat | ebinlog/BinlogRow.h:51-63 | processing a concatenation is processing its parts, tail carried over |
| RowParser.RunPointsAt | ebinlog/BinlogRow.h:95-123 | table position and running position always add up to the offset of the next event |
| RowParser.TablePosIsTheOffset | ebinlog/BinlogRow.h:95-123 | after any table map the table position is its offset in the current file, across rotate events |
| RowParser.RotateNamesTheLog | ebinlog/BinlogRow.h:114-123 | after any run, the rows behind a rotate event are labelled with the name it gives if and only if there are none or no name before it was longer |
| RowParser.LogLength | ebinlog/BinlogRow.h:114-123 | the length of the log name is that of the longest name so far |
| RowParser.ShorterName | ebinlog/BinlogRow.h:114-123 | from b.10 to b.9 the name becomes b.90 |
| RowRestart.RestartIsExact | ebinlog/BinlogRow.h:40-141 | a fresh parser started at any row's label, fed what the server may send first (rotate events naming the log, and in the middle of a file a format description and other events without rows) and the file from there, emits that row and all later ones with the same labels, also for a file that ends with its rotate event |
| RowRestart.EveryRowResumes | ebinlog/BinlogRow.h:93-113 | every row's label points at the table map it belongs to, from which the run resumes |
| RowRestart.RunResumed | ebinlog/BinlogRow.h:206-231 | a start index takes away exactly the rows below it, and only before the next table map |
| RowRestart.GroupLabels | ebinlog/BinlogRow.h:206-231 | rows behind one table map carry its position and consecutive indices |
| RowRestart.NoRowsBeforeTable | ebinlog/BinlogRow.h:171-179 | no row is emitted before the first table map |
| RowLogParser.CMyRowLogParser.Init | ebinlog/BinlogRow.h:40-49 | whatever the memory held, the fields are set, the name is copied over what was there, and the log name is the C string of that; on an object in use this is the initial state with its table, and the tail of a longer name |
| RowLogParser.CopiedIsNameIff | ebinlog/BinlogRow.h:38-41 | a name copied over unset memory is read back if and only if the memory behind it holds a NUL |
| RowLogParser.CMyRowLogParser.GetEvent | ebinlog/BinlogRow.h:143-169 | an event is taken exactly when as many bytes are there as it claims, and all positions move by that, be it fewer than a header; an event in the server's encoding is taken as it is, and no beginning of one |
| RowLogParser.CMyRowLogParser.ProcessTableMap | ebinlog/BinlogRow.h:95-113 | fields and table after a table map are those of the specification |
| RowLogParser.CMyRowLogParser.ProcessRotate | ebinlog/BinlogRow.h:114-123 | copying into the name buffer leaves the C string of the specification |
| RowLogParser.CMyRowLogParser.ProcessRows | ebinlog/BinlogRow.h:124-140 | a rows event adds the rows of the specification |
| RowLogParser.CMyRowLogParser.ProcessRowEvent | ebinlog/BinlogRow.h:93-141 | every event has the effect of the specification |
| RowLogParser.CMyRowLogParser.DecodeEvent | ebinlog/BinlogRow.h:171-233 | the loop over the body appends its labelled rows from the start index on and counts all |
| RowLogParser.CMyRowLogParser.DecodeOneRow | ebinlog/BinlogRow.h:235-264 | the loop over the columns decodes the row and its length |
| RowLogParser.CMyRowLogParser.Process | ebinlog/BinlogRow.h:51-91 | one call terminates and leaves state, rows and consumed bytes of the specification |
| RowLogParser.BinlogListener.GetEvent | ebinlog/BinlogListener.py:22-35 | the listener returns at the first packet that completes a row, at -1 with nothing, and fails when the connection is lost; until then all payloads are fed with the tail carried over |
| RowStream.WholeEvent | ebinlog/BinlogRow.h:143-169 | in front of any bytes, an encoded event (19 bytes of time, type, server, length, next position and flags, then the body) is framed with its type, length and body |
| RowStream.PartOfEvent | ebinlog/BinlogRow.h:153-162 | no proper beginning of an encoded event is |
| RowStream.StreamFrames | ebinlog/BinlogRow.h:51-91 | any encoded events and the beginning of one more: exactly these events are framed, and that beginning is left |
| RowTransaction.StreamRuns | ebinlog/BinlogRow.h:51-141 | any encoded events, cut in any way, have the effect of these events, and no byte is left |
| RowTransaction.PacketsRun | ebinlog/BinlogListener.py:22-35 | also when each comes in a packet of its own behind a status byte |
| RowTransaction.TransactionArrives | ebinlog/BinlogRow.h:51-264 | rotate event, other events, table map and rows events, encoded and cut in any way: each logged change comes out once and in order, labelled with log name, offset of the table map in the file and its number |
| Ascii.AtoiOfDec | redis-proxy/echo.c:68-68 | a printed number is read back, whatever follows it that is no digit |
| Ascii.AtoiSigned | redis-proxy/echo.c:68-68 | blanks before it are skipped and a sign is heeded |
| Resp.RequestExpected | redis-proxy/echo.c:45-104 | bytes that agree with a command are incomplete, complete or wrong as they are shorter, equal or longer |
| Resp.BulksExpected | redis-proxy/echo.c:75-102 | the loop over the bulks tells prefix, whole and excess apart from any position |
| Resp.MultiExpected | redis-proxy/echo.c:211-266 | likewise for multi-bulk replies of 0 to 1024 bulks or nils |
| Resp.BulkExpected | redis-proxy/echo.c:174-206 | likewise for bulk and nil replies |
| Resp.LineCompleteIff | redis-proxy/echo.c:123-172 | a line reply is complete if and only if its text holds no line end and no NUL, and wrong otherwise |
| Resp.ReplyExpected | redis-proxy/echo.c:268-287 | every proper prefix of every reply is incomplete and the whole complete |
| RespReader.ProcessRequestBuffer | redis-proxy/echo.c:45-104 | the cursor routine computes the classification, undefined cases included |
| RespReader.ProcessResponseBuffer | redis-proxy/echo.c:123-287 | likewise for replies |
| RespReader.SkipBulks | redis-proxy/echo.c:237-264 | the loop with its counted-down argc computes the recursion |
| RespReader.RequestFiresOnce | redis-proxy/echo.c:45-104 | a command of 1 to 1024 arguments of any bytes, in any pieces, fires once, with the last piece |
| RespReader.ReplyFiresOnce | redis-proxy/echo.c:374-414 | likewise for every kind of reply |
| RespReader.PipeliningIsRefused | redis-proxy/echo.c:98-102 | two commands back to back are wrong |
| RespReader.CountOutOfRange | redis-proxy/echo.c:227-230 | a multi-bulk count outside 0 to 1024 is wrong |
| RespReader.NullMultiIsRefused | redis-proxy/echo.c:227-230 | the null multi-bulk reply is wrong |
| RespAccepted.CompleteIff | redis-proxy/echo.c:123-287 | bytes are taken for a complete reply if and only if they are a clean line, a loose bulk, or a count whose walk from length to length ends at the last byte |
| RespAccepted.ForwardIff | redis-proxy/echo.c:211-266 | without a length below -2, a multi-bulk reply is taken if and only if it is a count and that many loose bulks |
| RespAccepted.LooseIsReplyIff | redis-proxy/echo.c:211-266 | of these, the encodings of replies are those with a properly written count and proper bulks |
| RespAccepted.BulkIsReplyIff | redis-proxy/echo.c:174-206 | likewise for single bulks: the numeral decides |
| RespAccepted.TurningBackIsNoReply | redis-proxy/echo.c:237-264 | a count whose walk meets a length below -2 is no reply |
| RespAccepted.TakenIsReplyIff | redis-proxy/echo.c:123-287 | of all bytes taken for a complete reply, the encodings of replies are exactly the lines, the loose bulks with a proper numeral, and the proper counts with as many proper bulks |
| RespAccepted.SeparatorUnseen | redis-proxy/echo.c:248-252 | two bulks with XX where a line end should be are taken, and are no reply |
| RespAccepted.LengthLeadsBack | redis-proxy/echo.c:248-258 | a length of -14 leads back into the data of an earlier bulk, and the whole is taken, and is no reply |
| RespCommands.RequestCompleteIff | redis-proxy/echo.c:45-104 | bytes are taken for a full and valid command if and only if they end in CRLF and are a line of the old protocol other than quit and exit, or a count from 1 whose walk from length to length ends at the last byte |
| RespCommands.SameLoop | redis-proxy/echo.c:45-104 | an array is taken for a command just when it is taken for a reply and its count is not 0 |
| RespCommands.TakenIsCommandIff | redis-proxy/echo.c:45-104 | of all bytes taken, the encodings of commands are exactly the proper counts with as many proper bulks, at least one |
| RespCommands.CommandsUnseen | redis-proxy/echo.c:87-97 | a missing line end and a length of -14 both pass, and neither is a command |
| RespVerdicts.ArrayVerdicts | redis-proxy/echo.c:66-104 | an array that ends in CRLF is waited for if and only if its count is right and its bulks reach beyond the bytes received, and refused if and only if its count is wrong, a bulk does not begin where it should, or bytes are left over; for requests and for replies |
| RespVerdicts.OtherVerdicts | redis-proxy/echo.c:45-206 | anything else that does not end in CRLF is waited for unless no reply begins like it; a line that ends in CRLF is never waited for, and a bulk as long as its length says |
| RespCommands.QuitAndExitIff | redis-proxy/echo.c:49-57 | "quit" makes the proxy drop the client and "exit" ends it, in letters of either case, and nothing else does |
| RespReader.WriteLoopIs | redis-proxy/echo.c:330-353 | in terms of the reports: the write loop ends well exactly when all is written before a break or a late report, and asks for another attempt exactly when the connection breaks before |
| RespReader.ReadLoopIs | redis-proxy/echo.c:370-414 | the read loop ends with the first piece by which there is a verdict; without one it asks for another attempt exactly when the connection breaks |
| RespReader.ExchangeIff | redis-proxy/echo.c:307-436 | for any server: the answer is that of the first attempt, or, if and only if its connection breaks, that of the second, or the connection error if there is none |
| RespReader.SecondAttemptAnswers | redis-proxy/echo.c:354-425 | if the first connection breaks, before all is written or before the reply is whole, and the second attempt hears a whole reply, that is the answer |
| RespReader.LoopHears | redis-proxy/echo.c:370-434 | of a reply heard in part the read loop never makes an answer, and of one heard as a whole it makes exactly that |
| RespReader.AnswerIsOneReply | redis-proxy/echo.c:307-436 | if in each attempt a prefix of some reply is heard before the connection breaks, stalls or runs late, the client gets one of those replies, whole and alone, or the connection error |
| RespReader.AnswerIsTaken | redis-proxy/echo.c:307-436 | whatever else the server sends, the answer is bytes that are taken for a reply |
| RespReader.ReplyReachesClient | redis-proxy/echo.c:370-414 | a reply arriving in any pieces is the answer, and nothing behind it is read |
| RespReader.RedisClient.SendRequest | redis-proxy/echo.c:330-353 | the write loop ends well exactly when its reports say that all is written, and as broken exactly when the connection breaks before |
| RespReader.RedisClient.ReceiveReply | redis-proxy/echo.c:374-414 | the read loop ends with the first verdict and the bytes up to it, or, without one, as broken exactly when the connection breaks |
| RespReader.RedisClient.RedisCommandProc | redis-proxy/echo.c:307-436 | the buffer ends as the answer of the first attempt, or of the second if the connection of the first breaks, or as the connection error if these have none |
| AdList.List.AddNodeHead | redis-proxy/adlist.c:79-97 | the list is well linked and has the value in front of the old ones |
| AdList.List.AddNodeTail | redis-proxy/adlist.c:105-123 | the list is well linked and has the value behind the old ones |
| AdList.List.DelNode | redis-proxy/adlist.c:129-142 | the list is well linked and has lost exactly that node, which is freed, its value handed to the free hook |
| AdList.List.Release | redis-proxy/adlist.c:57-70 | every node is freed and every value handed to the free hook once, in order |
| AdList.ExecuteAll | redis-proxy/adlist.c:79-142 | any mix of insertions and deletions does to the heap list what it does to a sequence |
| AdList.ListIter.Next | redis-proxy/adlist.c:191-202 | in both directions each call returns the first of the remaining nodes and leaves the others |
| AdList.RemovalAndIterator | redis-proxy/adlist.c:177-202 | deleting a node passed leaves what remains to visit; deleting one ahead takes just that away |
| AdList.DelNodeUnder | redis-proxy/adlist.c:129-202 | deleting any node under a running iterator: its next call uses a freed node if and only if that node is its next |
| AdList.Sweep | redis-proxy/adlist.c:178-190 | traversal with deletion of the current node visits each value once in order and keeps the right ones |
| AdList.Dup | redis-proxy/adlist.c:212-244 | null exactly if the hook fails on a value; otherwise a fresh list of the copied values, the original unmodified |
| AdList.FirstMatch | redis-proxy/adlist.c:260-275 | nothing before the index matches, and what is there does |
| AdList.SearchKey | redis-proxy/adlist.c:255-276 | the node at the first match, by the hook or else by equality, or null if nothing matches |
| AdList.Index | redis-proxy/adlist.c:283-295 | the node at the index, negative ones from the tail, null out of range |
| TimeEvents.AfterIsLater | redis-server/ae.c:117-129 | the carry keeps the time that many milliseconds later, and normal |
| TimeEvents.StillDueIff | redis-server/ae.c:214-238 | a rescheduled timer is still due on the same clock if and only if the delay is not positive |
| TimeEvents.FireKeeps | redis-server/ae.c:218-241 | firing takes the event and those its callback deletes out of the due ones, and adds none |
| TimeEvents.PassIsSafe | redis-server/ae.c:199-247 | in a pass no event fires twice, before it was due, or after its deletion |
| TimeEvents.PassIsComplete | redis-server/ae.c:199-247 | every event due at the start fires unless a callback deletes it |
| TimeEvents.CreatedDoNotFire | redis-server/ae.c:204-213 | events created in the pass do not fire in it |
| TimeEvents.FireTimes | redis-server/ae.c:218-241 | behind one event: its timer is due so long after now as its callback answered, all others when they were before, and new ones after their delay |
| TimeEvents.PassTimes | redis-server/ae.c:199-247 | behind a pass: an event that fired and is still there is due its callback's answer after now, one that did not keeps its time, a new one has its delay; those gone are those deleted and those that answered "no more" |
| TimeEvents.PassEndsIff | redis-server/ae.c:199-247 | for any list of timers whose callbacks answer by their event and delete nothing, a pass ends if and only if every event due at its start answers "no more" or a positive delay |
| TimeEvents.EventLoop.CreateTimeEvent | redis-server/ae.c:131-148 | a new id, in front of the list, due so many milliseconds after now |
| TimeEvents.EventLoop.DeleteTimeEvent | redis-server/ae.c:150-170 | the node of that id is linked around and its event finalized; found exactly if it was there |
| TimeEvents.EventLoop.SearchNearestTimer | redis-server/ae.c:183-196 | the first of the earliest timers, none exactly for an empty list |
| TimeEvents.EventLoop.FireEvent | redis-server/ae.c:218-241 | calls the callback and reschedules or deletes the event, with the effect of the specification, unless it writes to its node after that is freed; it does so if and only if the callback deletes its own event and does not answer "no more"; every timer is then due when it should be |
| TimeEvents.HeldIsFreedIff | redis-server/ae.c:220-238 | behind a callback the node that the pass holds is freed if and only if the callback deleted its event |
| TimeEvents.EventLoop.ProcessTimeEvents | redis-server/ae.c:199-247 | the pass with its restarts terminates, fires in turn, and leaves nothing due; which timers are left, and when each is due |
| TimeEvents.SleepIsExactIff | redis-server/ae.c:284-296 | the timeout is the time left, or zero, if and only if the timer is not overdue by a broken number of seconds |
| FileEvents.StepKeepsIff | redis-server/ae.c:73-106 | an operation keeps table, kernel and maxfd in step if and only if the caller may do it |
| FileEvents.RunKeeps | redis-server/ae.c:73-106 | over any run of such operations the interest set is the table and maxfd the largest descriptor or -1 |
| FileEvents.NothingRefused | redis-server/ae_epoll.c:35-70 | in step, a request fails only if the kernel fails for a reason of its own or the descriptor is out of range |
| FileEvents.ClosedTooEarly | redis-server/ae_epoll.c:40-50 | a descriptor closed while registered cannot be registered again until it is deleted |
| FileEvents.RemovalFailed | redis-server/ae_epoll.c:53-70 | a removal that fails keeps the descriptor from being registered until it is closed |
| FileEvents.RegisteredIff | redis-server/ae.c:73-106 | over any run: a direction is registered if and only if a successful registration named it and no deletion since |
| FileEvents.HandlersOfRun | redis-server/ae.c:81-84 | over any run: a registered direction has the handler of the last successful registration that names it, and the data of the last one at all |
| FileDispatch.CallsAreRight | redis-server/ae.c:311-332 | whatever handlers register, delete or close meanwhile, each call goes to the handler, with the data, registered at its time for a direction that is then registered |
| FileDispatch.CalledIsLastRegistered | redis-server/ae.c:311-332 | which is that of the last successful registration, before the pass or in it |
| FileDispatch.EachCalledOnce | redis-server/ae.c:318-328 | if its descriptor is left alone, each fired and registered direction has its handler called, no handler twice, and nothing else is called |
| FileDispatch.ProcessFileEvents | redis-server/ae.c:311-332 | the loop over the fired descriptors makes these calls |
| FileEvents.EventLoop.CreateFileEvent | redis-server/ae.c:73-88 | table, maxfd and interest set after registration, unchanged on failure; the handler is set for the directions named and kept for the other |
| FileEvents.EventLoop.DeleteFileEvent | redis-server/ae.c:90-106 | table, maxfd found by the downward search, and interest set after deletion |
| FileEvents.EventLoop.ApiAddEvent | redis-server/ae_epoll.c:35-51 | addition or change with the merged mask |
| FileEvents.EventLoop.ApiDelEvent | redis-server/ae_epoll.c:53-70 | change or removal with the mask that is left |
| UdpReply.HeaderRoundTrip | uRedis/udp.c:11-31 | the header is read back, and refused exactly if a field does not fit 16 bits |
| UdpReply.HeaderInNetworkOrder | uRedis/udp.c:11-31 | the header is the three fields in network byte order and two zero bytes |
| UdpReply.HeaderUnique | uRedis/uRedis.php:48-71 | a header is the encoding of what it decodes to |
| UdpReply.BuildIsReplyIff | uRedis/udp.c:96-129 | the builder leaves the multi-bulk reply if and only if all guards pass and no nil ends at the last byte |
| UdpReply.BuildFromLength | uRedis/udp.c:109-128 | the length never exceeds the buffer |
| UdpReply.ShortReplyIsBuilt | uRedis/udp.c:117-121 | replies up to 65532 bytes pass the guards |
| UdpReply.RefusedAlthoughItFits | uRedis/udp.c:117-121 | a longer one that ends in a value of fewer than ten bytes is refused although it fits |
| UdpReply.FragmentsJoin | uRedis/udp.c:131-139 | the payloads in order are the reply, the empty last one included |
| UdpReply.ArrivedInOrder | uRedis/uRedis.php:166-193 | with repetitions and foreign datagrams between in-order first arrivals, the client joins the reply |
| UdpOrder.CollectIsReplyIff | uRedis/uRedis.php:166-193 | for any arrival the client joins the payloads in order of first arrivals, which is the reply if and only if each lies where the reply has it |
| UdpOrder.LastComesLastIff | uRedis/uRedis.php:186-193 | if the last fragment arrives last: if and only if the k-th arrival carries the k-th payload |
| UdpOrder.InOrderIff | uRedis/uRedis.php:186-193 | and if no payload comes twice: if and only if the arrivals are in order of the numbers |
| UdpOrder.SwappedAndWhole | uRedis/uRedis.php:186-193 | two fragments of 1017 equal bytes, swapped, are joined to the reply |
| UdpOrder.CollectEndsIff | uRedis/uRedis.php:166-192 | the client gets an answer if and only if every fragment arrives |
| UdpReply.CountDecides | uRedis/uRedis.php:73-123 | of a count and some bulks behind it, an error if the count is 0 or there are fewer bulks, and else as many values as it says |
| UdpReply.DecodeInvertsReply | uRedis/uRedis.php:73-123 | decoding a multi-bulk reply gives its values, whatever their bytes |
| UdpReply.ReplyRoundTrip | uRedis/udp.c:96-147 | values looked up come back from builder, fragmenter, delivery, join and decoder |
| UdpReply.RoundTripIff | uRedis/uRedis.php:166-209 | they come back if and only if all guards pass and no nil ends at the last byte |
| UdpReply.LostLineFeed | uRedis/udp.c:110-116 | in the latter case the client reports an error |
| UdpReply.RefusedReply | uRedis/uRedis.php:194-198 | when a guard stops the builder, the client reports an error |
| UdpExchange.BuildReply | uRedis/udp.c:96-129 | the loop over the moving length leaves the specified reply in the buffer |
| UdpExchange.SendReply | uRedis/udp.c:131-145 | the fragment loop sends the specified datagrams |
| UdpExchange.DecodeResponse | uRedis/uRedis.php:73-123 | the cursor loop computes the decoder |
| UdpExchange.Mget | uRedis/uRedis.php:166-209 | the receive loop and the choice behind it compute what the client receives |
| Keywords.GrowRepresents | redis-ckw/ckwlib.c:7-13 | a new node keeps the tree and hides or adds no keyword |
| Keywords.MarkRepresents | redis-ckw/ckwlib.c:19-19 | the end mark adds exactly the keyword |
| Keywords.HitIsSound | redis-ckw/ckwlib.c:23-34 | a scan that falls back to the root hits only if the text holds a keyword |
| Keywords.HitIsComplete | redis-ckw/ckwlib.c:23-34 | a scan that has followed part of a keyword in the text hits |
| Keywords.StraightIff | redis-ckw/ckwlib.c:23-34 | a keyword lies at a position if and only if the scan from there hits without falling back to the root |
| KeywordOffset.ExactOnAllTextsIff | redis-ckw/ckwlib.c:36-48 | the offset is that of a keyword for every text if and only if there is no keyword, or every byte but NUL leads on or ends a keyword at every node reached without an end mark |
| KeywordOffset.GapMisleads | redis-ckw/ckwlib.c:36-48 | wherever a byte does not, some text is reported at an offset where no keyword lies |
| KeywordOffset.OneByteKeyword | redis-ckw/ckwlib.c:36-48 | with the one keyword b, the text ab is reported at 0 |
| Keywords.Trie.SetNodes | redis-ckw/ckwlib.c:3-21 | inserts the keyword, or fails only when no node is left and keeps the keywords |
| Keywords.Trie.GetNodes | redis-ckw/ckwlib.c:23-34 | computes the scan |
| Keywords.Trie.CheckKeywords | redis-ckw/ckwlib.c:36-48 | -1 if and only if no keyword is in the text, otherwise an offset no later than any occurrence, which is one if and only if the scan from there is straight |
| SortedSet.CmpIsOrderIff | vector_udf/vector.c:30-33 | the comparison tells the order of two scores if and only if they differ by less than 2^31 |
| SortedSet.NearIsConsistent | vector_udf/vector.c:30-33 | within that range the comparison is one that qsort may use, and its order is that of the scores |
| SortedSet.AscendingIffNear | vector_udf/vector.c:30-33 | data that is sorted by a consistent comparison ascends if and only if no two scores are 2^31 or more apart |
| SortedSet.ZaddAscendsIff | vector_udf/vector.c:73-109 | so does what zadd leaves, if and only if the scores stored with the new one are that near |
| SortedSet.AllAscendIff | vector_udf/vector.c:73-109 | on any packed data every result that the sort may leave ascends if and only if those scores are that near |
| SortedSet.ZremKeepsOrder | vector_udf/vector.c:247-267 | zrem keeps the entries that stay in the order they had |
| SortedSet.NextAddAscendsIff | vector_udf/vector.c:73-109 | after any run, the next zadd is sure to leave the members in score order if and only if the scores of the map with the new one are near |
| SortedSet.StepAgrees | vector_udf/vector.c:73-109 | one operation does to the packed data what it does to a map, refusals included |
| SortedSet.RunAgrees | vector_udf/vector.c:73-109 | any run keeps whole objects, at most 2048, distinct members, agreement with a map, and zcard its size |
| SortedSet.RunAscends | vector_udf/vector.c:107-107 | after any run the members are in score order if the scores stored behind its last addition are near, whatever was added, overwritten or removed before |
| SortedSet.OneRangeSuffices | vector_udf/vector.c:107-107 | which they are if all scores added lie within 2^31 |
| SortedSet.AlwaysReversed | vector_udf/vector.c:30-33 | adding 0 and then 2^31 + 1 leaves them reversed, whatever the sort does |
| SortedSet.EitherOrder | vector_udf/vector.c:30-33 | adding 0 and then 2^31 may leave them in either order |
| SortedSet.ZremRemovesIff | vector_udf/vector.c:247-267 | after any run, a stored member is gone after zrem if and only if fewer than 2048 entries are stored |
| SortedSet.ZaddStoresIff | vector_udf/vector.c:73-109 | and a new member is stored by zadd if and only if fewer than 2048 entries are |
| SortedSet.FullStaysFull | vector_udf/vector.c:73-267 | once a run has filled the set, no operation changes its members |
| SortedSet.SetsFillUp | vector_udf/vector.c:73-267 | 2048 additions are a run to a full set from which nothing can be removed |
| SortedSet.MalformedIsKept | vector_udf/vector.c:73-267 | data that is no set comes back from zadd and zrem as it is, up to 16384 bytes |
| SortedSet.BlobRoundTrip | vector_udf/vector.c:22-26 | packing and unpacking objects is the identity |
| SortedSet.RangeFits | vector_udf/vector.c:121-131 | the text of any permitted range fits its buffer |
| SortedSetRange.RangeRoundTrip | vector_udf/vector.c:145-179 | the text of a range, read as nested lists of numbers, gives member and score of the entries from start up to stop or the last, in order |
| SortedSet.Zadd | vector_udf/vector.c:73-109 | the array loop leaves one of the results the specification allows |
| SortedSet.Zrem | vector_udf/vector.c:247-267 | the copying loop leaves the specified data |
| SortedSet.Zrange | vector_udf/vector.c:145-179 | the text loop prints the entries of the range, null for data that is no set |
| SortedSet.Qsort | vector_udf/vector.c:107-107 | stands for the library's sort: a permutation, sorted if the comparison is consistent |

## Left out

Weaker than the code or its promise:

- HandOff.Next: the pipe is taken to hold 10240 bytes, the number of descriptors that the event loop has a place for; `HandOff.PipeFits` shows that it never needs to hold more.
- HandOffProgress.RunComesToRest: own steps come to an end however they are chosen; that a thread which can move does move is the scheduler's business.
- HandOffServer.RedisServer.AwaitMutex: while this thread waits, the holder is moved on until it releases; who gets a free mutex next is not fixed.
- HandOff.DoQuery: the answer of the classification is an input of the step, because the function is loaded from a plug-in; `HandOffQueries` puts in the one of `redis-proxy/echo.c`.
- RowParser.Frames: an event that claims fewer than 19 bytes is malformed here; the code takes it (`RowLogParser.CMyRowLogParser.GetEvent`), would loop on length 0 and compute a body of negative length on 1 to 18.
- RowParser.Apply: none where the code would read or copy out of bounds, for log names with a NUL or of 128 bytes and more, and for column types other than integers, timestamps, varchars and blobs.
- RowParser.Label: log, position and index as a record; the printed form with `%d` is not modelled.
- RowParser.State: the item index does not wrap at 2^32.
- RowStream.EventBytes: one event a packet; the checksums of later servers, and events split at 16 MB, are not modelled.
- RowLogParser.CMyRowLogParser.Init: over memory that is not zero behind the names copied so far, the name is given as the C string found there, and the object is not promised to be Valid, which its other methods ask for; `RowLogParser.CopiedIsNameIff` says when the first name is read back all the same.
- RowRestart.RestartIsExact: the file fits 32-bit positions, and in the first run the server names the log in a rotate event before the file, as it does; without one an empty rows event before any table map would shift the first labels.
- RowImage.Changes: for a table without columns and a body that is not empty the code does not terminate; none here.
- BinDecimal.Wrap32: signed overflow is taken to wrap around.
- Resp.ClassifyRequest: undefined where C is: a search that meets a NUL, a length line of more than ten bytes or beyond int, a cursor moved out of the buffer; the byte behind the data is taken to be NUL.
- RespReader.ReadLoop: the clock and the poll are inputs; a timeout ends the list of reports.
- AdList.List.DelNode: freeing is recorded, not carried out; `len` does not wrap.
- TimeEvents.EventLoop.ProcessTimeEvents: the clock is frozen; callbacks change timers only by creating and deleting; that a finalizer is called is recorded, what it does is not modelled.
- TimeEvents.Polite: what a pass does after writing to a freed node (`TimeEvents.EventLoop.FireEvent` says when it would) is not modelled, nor one that a delay of zero or less keeps from ending (`TimeEvents.PassEndsIff` says when).
- UdpReply.AreValues: values longer than 16384 bytes, for which the code copies bytes behind its value buffer, are excluded.
- UdpReply.DecodeVals: `intval` is read like `atoi`; a negative length other than -1 has no modelled result.
- Keywords.Trie.constructor: the array has one node more than MAX_NODE, because index MAX_NODE is handed out.
- SortedSet.Qsort: the library's sort is known by its contract only; the body is a stand-in.

Not modelled:

- Sockets, files, memory mapping, signals, logging, `dlopen` and command lines everywhere; malloc failure.
- `redis-server/redis.c`, which appends to its job list without the lock and keeps clients readable while queued.
- The three other copies of `ae.c`; the poll itself, whose report is an input of `FileDispatch.ProcessFileEvents`.
- Printing of decimals, floats, dates, BIT, ENUM, SET and YEAR columns, and reference counting of Python objects.
- Parsing of the UDP request and the key lookup; the values looked up are the input.
- myreplicator, icq, dump_innodb, mysqlhandler, repl, sock4a, tcpipe, fat, redis-uuid, count_log_by_ip_range, mybalancer, asyncell, http, curl-cpp and lesson: thin layers over code that is not here, or easy members only.
