# Engines of the ESP32 ports: a Dafny model

Ports of programs to an ESP32 loader contain a number of hand-written engines. This project models
the ones below and proves what they are for. Each `.dfy` file is one engine, or a part of one that is
of use by itself.

| file | engine |
|---|---|
| `RangeStream.dfy`, `ChunkedCoding.dfy` | the video player's HTTP range stream: a ring that caches a resource over connections that come and go |
| `HttpFeed.dfy`, `HttpHead.dfy`, `HeaderText.dfy` | the NetSurf fetcher's incremental response parser, and what it makes of any response |
| `KeepPool.dfy`, `FetchStep.dfy` | the fetcher's connections: the keep-alive pool, the TLS session limit, when a request is sent again, and a fetch from its request to its response |
| `DnsJobs.dfy` | the fetcher's lookup table, shared with the lookup task |
| `SpscQueue.dfy`, `PlayerPipeline.dfy`, `PlayerProgress.dfy`, `PlayerTasks.dfy`, `PlayerClock.dfy` | the video player's queues, its three tasks and the seek protocol, what becomes of packets and pictures, the tasks on the real rings, and its clock |
| `SoundMixer.dfy` | the sound backend's 16.16 resampler over queues of chunks |
| `Iconv.dfy`, `EncodingForms.dfy` | character conversion, and the encodings' own definitions |
| `ReadAhead.dfy` | file reads through a read-ahead buffer |
| `PngFilter.dfy` | undoing PNG filters, unpacking samples |
| `Yuv.dfy` | YUV to RGB565 through tables |
| `FontLayout.dfy` | text widths, positions and line breaks |
| `ConsoleLog.dfy` | console text as rationed log lines |
| `Basics.dfy` | octets, small helpers |

Code that changes state step by step is a class with methods, proved against functions of its
contents; what those functions promise is proved as lemmas. Environment that the code only reacts to
(servers and what they send, time-outs, the clock, the abort flag, the order of the tasks' steps) is an
arbitrary choice or a parameter, with the assumptions stated where they are made:

* the body of a server's 200 answer is a piece of the resource from its start, and that of a 206 one from
  the offset it names, or that was asked for (`RangeStream.IsHonest`); everything else about an answer is
  arbitrary. Where it matters that reads get on, servers also send all they announce
  (`RangeStream.IsFaithful`, for streams that are `faithful`);
* a transport may fail or fall silent at any time, unless it is said not to (`RangeStream.Stream.smooth`,
  with the number of times it has nothing ready in `stalls`); `breaks` counts how often it did;
* clocks do not go back;
* the loader does not hand out a handle that is still open;
* tasks interleave in atomic steps (the fences of the sources are taken to achieve that).

Some properties one might expect do not hold of the code, and the model says exactly when they do:

* the read-ahead layer is not a plain cursor after a large read: `ReadAhead.Diverging` is a run that
  shows it, `ReadAhead.SafeIffNothingBypassed` the exact condition, `ReadAhead.File.Session` the runs
  for which it is one and the repair that makes it one for all;
* a failed seek loses the position there if and only if anything in the buffer was left unread
  (`ReadAhead.File.Lseek`); `ReadAhead.LosingPlace` is a run;
* the frame slot rings are not first-in first-out across a wrap-around of their 32-bit counters, while
  the packet rings are (`SpscQueue.FifoAcrossWrapIff`, `SpscQueue.SlotRingOverwrites`);
* surrogates from UTF-32 are written as UTF-8 and UTF-16 but not read back (`Iconv.DecodeOfEncode`,
  `Iconv.ThereAndBack`; `Iconv.SurrogateDoesNotReturn` is an input);
* after a seek the clock may be set by a picture from before it, if and only if the seek came between the
  picture's check and the setting (`PlayerPipeline.ClockIsCurrentIff`); `PlayerPipeline.ClockFromOldPicture`
  is a run.

`dafny verify dfyconfig.toml` checks everything.

## Model

| member | source | states |
|---|---|---|
| RangeStream.Stream.Session | ports/video/papp_io.c:622-678 | over any run of reads, seeks and prefetches, on however many connections, each operation starts where the one before left the position, and every byte handed out is the resource's at the offset it was asked at; with servers that send what they announce and a transport that only pauses, no operation fails or comes up short: a read hands out something wherever the resource has something, a seek works, and a prefetch that waits brings more |
| RangeStream.Stream.Do | ports/video/papp_io.c:757-813 | one operation of such a run |
| RangeStream.Stream.constructor | ports/video/papp_io.c:691-718 | a new stream is at 0, with no connection and nothing in the ring |
| RangeStream.Stream.Read | ports/video/papp_io.c:622-678 | the bytes handed out are `resource[pos..pos+n]` and the position moves by n; a position in the ring is served from the ring, without touching the connection; 0 only at or past the known size; with servers that send what they announce and a transport that only pauses it hands out something if and only if the position is within the resource; the rest of the caller's buffer is untouched; the invariant (ring agrees with the resource, a live connection continues the ring or the size blocks it) is kept |
| RangeStream.Stream.Locate | ports/video/papp_io.c:627-647 | a position in the ring, or not too far ahead of a connection that continues it, needs nothing; otherwise a stream that is not seekable fails behind its ring or reads on, and a seekable one starts the ring anew at a new answer's label, which must not be past the position |
| RangeStream.Stream.FillTo | ports/video/papp_io.c:648-667 | fills until the position is in the ring; after a resume at a wrong offset the size is cut at the ring's end, so that connection is never read |
| RangeStream.Stream.Find | ports/video/papp_io.c:627-667 | the position is in the ring afterwards, or known to be past the end, or it failed; with servers that send what they announce and a transport that only pauses, the first if it is within the resource and the second if not |
| RangeStream.Stream.Resume | ports/video/papp_io.c:649-662 | at the end of a body that did not reach the position a new connection goes on from there, unless the resource ends there |
| RangeStream.Stream.CopyFromRing | ports/video/papp_io.c:668-677 | the two copies around the ring's edge give the resource's bytes at the position |
| RangeStream.Stream.RingFill | ports/video/papp_io.c:600-620 | adds exactly what it reports at the ring's end, drops only what no longer fits, and keeps the ring equal to the resource on its range |
| RangeStream.Stream.FillOnce | ports/video/papp_io.c:604-617 | one read of the body, up to the ring's edge, written at the ring's end |
| RangeStream.RingTakes | ports/video/papp_io.c:604-616 | writing received bytes at the ring's end replaces only offsets that leave the ring |
| RangeStream.RingPiece | ports/video/papp_io.c:669-675 | up to the edge and then from the ring's start is the resource's piece at the position |
| RangeStream.Stream.BodyRead | ports/video/papp_io.c:489-594 | what it hands out is exactly the next bytes of the body, whatever the segmentation; what has been received is handed out before anything else; the end is reported only when nothing of the body is left, and a failure only when nothing received is left; it fails only if the transport failed or was silent for too long, or the abort flag is set |
| RangeStream.Stream.ReadBody | ports/video/papp_io.c:489-594 | reads of any sizes hand out the body's bytes in order; if none asks for nothing, there is one more of them than the body has bytes, and none fails, all of the body is handed out and its end reported; one fails only if the transport failed or was silent for too long meanwhile, or the abort flag is set, so pauses are waited out |
| RangeStream.Stream.ReadChunkedBody | ports/video/papp_io.c:537-591 | on any well-formed chunked body such reads hand out its payload, all of it and then its end (waiting out pauses as above), and nothing after it |
| RangeStream.Stream.Ended | ports/video/papp_io.c:493-499 | nothing of the body is left: closed, or as much as Content-Length said was taken |
| RangeStream.Stream.Refill | ports/video/papp_io.c:500-522 | receiving, waiting, a close and a failure leave the body still to come as it is, or end it |
| RangeStream.Stream.Deliver | ports/video/papp_io.c:523-550 | body bytes that have arrived are copied out and the body still to come is the rest |
| RangeStream.Stream.TakePlain | ports/video/papp_io.c:524-536 | at most Content-Length bytes of a plain body are taken, in order |
| RangeStream.Stream.TakeChunkData | ports/video/papp_io.c:537-550 | at most the rest of the chunk is taken, in order |
| RangeStream.Stream.TakeFraming | ports/video/papp_io.c:551-592 | a byte of framing leaves the payload still to come as it is; the end is the empty line after the last chunk |
| RangeStream.BodyTake | ports/video/papp_io.c:523-550 | taking the next bytes of a body leaves the rest of it |
| RangeStream.Stream.Request | ports/video/papp_io.c:323-485 | on 200, 206 and 416 the connection's body is a piece of the resource at the offset the connection is taken to be at, and size and seekability are what the answer tells; otherwise there is no connection; a server that sends what it announces answers with all of the resource from there on |
| RangeStream.Stream.Ask | ports/video/papp_io.c:343-443 | what comes back: an answer whose body, as its own framing says, is a piece of the resource at 0 (200) or at the offset it names or was asked for (206); there always is one with all of it |
| RangeStream.FramedIsHonest | ports/video/papp_io.c:444-481 | however a body that is a piece of the resource is framed (to the close, by length, or chunked with any chunks, extensions and trailers), what is read of the connection is such a piece, so the assumption is one about servers and not about this code |
| RangeStream.FramedIsRead | ports/video/papp_io.c:489-594 | and if all of it was sent, all of it is read |
| RangeStream.SizeToldIsTrue | ports/video/papp_io.c:444-481 | if what an answer says of the size is true, the size known afterwards is the resource's, or is past its end |
| RangeStream.Stream.Adopt | ports/video/papp_io.c:444-481 | what is known of size and seekability after 206, 200 and 416 answers, and the body still to come is the resource's from the offset the connection is taken to be at: 0 after a 200, the start of the range after a 206, or what was asked for if the answer names none |
| RangeStream.Stream.TakeOver | ports/video/papp_io.c:445-481 | the offset, size, framing and seekability each status gives; the offset is where the body is a piece of the resource |
| RangeStream.Stream.Open | ports/video/papp_io.c:691-755 | a new stream's first request starts the ring where its body belongs, and with a server that sends what it announces opening does not fail |
| RangeStream.Stream.Seek | ports/video/papp_io.c:770-787 | a seek fails for a negative target or one behind the ring of a stream that is not seekable, and otherwise only moves the position |
| RangeStream.Stream.Prefetch | ports/video/papp_io.c:798-813 | tops the ring up without losing what is within KEEP_BEHIND of the position, and never from a connection that does not continue the ring; where there is room and something to come on a transport that only pauses, it adds to the ring |
| ChunkedCoding.DecodeInvertsEncode | ports/video/papp_io.c:537-591 | decoding an encoded body (any chunk split, size digits, extensions and trailers) gives the payload whatever follows, and the end is seen at the last byte and not before (section 7.1 of RFC 9112) |
| ChunkedCoding.RunSplits | ports/video/papp_io.c:551-592 | decoding in two runs is decoding in one |
| ChunkedCoding.RunTake | ports/video/papp_io.c:537-550 | data of a chunk may be taken in pieces |
| ChunkedCoding.RunSizeLine | ports/video/papp_io.c:554-568 | a size in any case, with leading zeros and extensions, is read as the number it denotes |
| ChunkedCoding.RunChunk | ports/video/papp_io.c:537-574 | one chunk decodes to its data |
| ChunkedCoding.RunChunks | ports/video/papp_io.c:537-574 | chunks decode to their data in order |
| ChunkedCoding.RunTrailers | ports/video/papp_io.c:575-588 | trailer fields are skipped |
| HttpFeed.Fetch.FeedSegments | ports/netsurf/papp_http.c:1162-1187 | receiving a response in any segments does what its bytes, one at a time, say; a response that ends in its body at the very last byte leaves its connection to be kept exactly if it is not to be closed and is not a proxy's |
| HttpFeed.Fetch.constructor | ports/netsurf/papp_http.c:1442-1482 | a new fetch expects a status line |
| HttpFeed.Fetch.Resume | ports/netsurf/papp_http.c:1162-1164 | a fetch between two segments of a response, on its connection |
| HttpFeed.Fetch.Feed | ports/netsurf/papp_http.c:1162-1187 | header lines, body bytes and ending after a segment are those of its bytes one at a time; the connection is kept if and only if the response is over without error, was not to be closed, is not a proxy's and left nothing trailing; then it was complete exactly at the segment's last byte, and a body that is complete exactly there leaves nothing trailing |
| HttpFeed.SegmentationIrrelevant | ports/netsurf/papp_http.c:1162-1187 | two fetches that receive the same bytes in different segments end up with the same header lines, body and ending |
| HttpHead.ResponseDelivered | ports/netsurf/papp_http.c:910-1187 | for every response, described by its version, three digits, fields by name and value and body (chunked in any way, of the announced length, or up to the close), NetSurf gets all header lines and then exactly the body, the fetch is finished at the last byte where the head says which that is, and the connection is to be closed exactly if the version and the Connection fields say so |
| HttpHead.NotBeforeTheEnd | ports/netsurf/papp_http.c:1088-1159 | and it is not finished before that last byte, but in the middle of the body |
| HttpHead.Receive | ports/netsurf/papp_http.c:1162-1223 | on the fetcher itself, in any segments, with the server's close where the head does not say how long the body is; the connection is kept exactly if the response ends by itself, does not ask for a close and is not a proxy's |
| HttpHead.HeadDecides | ports/netsurf/papp_http.c:910-1051 | what a head tells, whatever fields are in it: a redirect, 304, 401 or an error where asked for ends the fetch, and 204 or an empty body finishes it |
| HttpHead.BodyDecides | ports/netsurf/papp_http.c:940-963 | otherwise a body follows: chunked if the last Transfer-Encoding says so, else of the length the last Content-Length names, else up to the close |
| HttpHead.TakeHead | ports/netsurf/papp_http.c:967-1051 | all of a head does what its status and each of its fields, by name, say |
| HttpHead.ValueByName | ports/netsurf/papp_http.c:880-894 | a field's value is found by its name, in any case of its letters, and by no other name |
| HttpHead.DecimalReads | ports/netsurf/papp_http.c:1018-1018 | decimal digits are read as their number, as far as 64 bits go |
| HttpHead.InterimIsSkipped | ports/netsurf/papp_http.c:988-991 | an interim (1xx) head changes nothing that the real one does not set again, but for the fields it has |
| HttpHead.NotHttp | ports/netsurf/papp_http.c:969-979 | an answer that is not HTTP ends the fetch |
| HttpHead.BadCode | ports/netsurf/papp_http.c:974-979 | so does a status code below 100 |
| HttpHead.FoldIsSkipped | ports/netsurf/papp_http.c:996-998 | a line that continues the field before it is passed over |
| HttpFeed.TakeAllSplits | ports/netsurf/papp_http.c:1162-1187 | the bytewise meaning of a response can be cut anywhere |
| HttpFeed.Fetch.BodyBytes | ports/netsurf/papp_http.c:1088-1159 | transfer decoding of a segment is that of its bytes, for all three kinds of body |
| HttpFeed.Fetch.LengthBytes | ports/netsurf/papp_http.c:1093-1105 | a body of known length is handed on up to its length, and finished there |
| HttpFeed.Fetch.ChunkedBytes | ports/netsurf/papp_http.c:1106-1153 | the chunk loop hands on chunk data in pieces and reads framing lines bytewise, with the same result as byte by byte |
| HttpFeed.TakeData | ports/netsurf/papp_http.c:1088-1120 | a piece of body data handed on at once is its bytes handed on one by one |
| HttpFeed.Fetch.OnHeadLine | ports/netsurf/papp_http.c:967-1051 | what a complete line of the head does to the response, and exactly when it releases or keeps the connection |
| HttpFeed.Fetch.BodyDone | ports/netsurf/papp_http.c:896-906 | when a finished response's connection is kept: not closing, nothing trailing, a framed body, no proxy |
| HttpFeed.Fetch.Finish | ports/netsurf/papp_http.c:576-615 | a fetch that is over holds no connection |
| HttpFeed.Fetch.ClosedByServer | ports/netsurf/papp_http.c:1206-1223 | a close by the server finishes a body (without keeping the connection) and fails anything earlier |
| HttpFeed.ChunkedBodyDelivered | ports/netsurf/papp_http.c:1106-1153 | on well-formed chunked bodies with 32-bit sizes the payload is delivered whole and the fetch finishes at the body's last byte: the same payload as the range stream's decoder |
| HttpFeed.TakeSizeLine | ports/netsurf/papp_http.c:1132-1144 | a size line, as strtoul reads it, starts the chunk or the trailer |
| HttpFeed.TakeChunk | ports/netsurf/papp_http.c:1106-1146 | one chunk is delivered |
| HttpFeed.TakeTrailers | ports/netsurf/papp_http.c:1147-1151 | trailer lines are skipped |
| HeaderText.ParseHexReads | ports/netsurf/papp_http.c:1133-1138 | strtoul to base 16 reads a size up to what cannot belong to it |
| HeaderText.LowerIsByLetters | ports/netsurf/papp_http.c:880-894 | comparing without case takes capitals for the small letters and everything else for itself |
| KeepPool.Fetcher.Session | ports/netsurf/papp_http.c:1484-1572 | over any run of fetches beginning, polls and aborts: every open handle has exactly one owner (a fetch or a pool slot); every connection a fetch has was opened to that fetch's own transport, port and host name, and every kept one to the server it is kept for; the TLS count equals the open TLS handles and never exceeds TLS_MAX; of every fetch that ever began, under way or gone, a request was restarted at most KEEP_MAX times plus once per connection put into the pool meanwhile, went out on at most one connection more, and a POST on at most one connection ever; a kept connection's last response ended where its framing says; every event has the effect it names on which fetches are under way, and the fetches that began are counted |
| KeepPool.Fetcher.Serve | ports/netsurf/papp_http.c:1442-1572 | one such event keeps the invariant: a new fetch is listed with nothing done yet and no other changes, an aborted one is gone, and with a tick every fetch takes the step the world's answers make it take and is gone exactly if it is over then |
| KeepPool.Fetcher.ServeAll | ports/netsurf/papp_http.c:1442-1572 | any events, one after another |
| KeepPool.Fetcher.constructor | ports/netsurf/papp_http.c:455-461 | the pool starts empty and nothing is open |
| KeepPool.Fetcher.RetryFresh | ports/netsurf/papp_http.c:1191-1204 | a request is started over if and only if it was on a kept connection and no byte of an answer had arrived; never a POST |
| KeepPool.Fetcher.RetryOrFinish | ports/netsurf/papp_http.c:1371-1407 | a lost connection starts the fetch over where that is allowed and otherwise ends it; no other fetch changes |
| KeepPool.Fetcher.KeepTake | ports/netsurf/papp_http.c:507-516 | a kept connection is taken exactly if one was kept for the same transport, port and host name (up to case); it leaves the pool for that fetch |
| KeepPool.ServesIfSuits | ports/netsurf/papp_http.c:507-512 | the pool's test is that the kept connection goes to the fetch's own server |
| KeepPool.Fetcher.TakeSlot | ports/netsurf/papp_http.c:510-513 | the slot's connection becomes the fetch's, which goes on to send on it |
| KeepPool.Fetcher.KeepPut | ports/netsurf/papp_http.c:485-505 | after a complete response a connection goes into a free slot or replaces the oldest, which is closed; the fetch holds it no more |
| KeepPool.Fetcher.Evict | ports/netsurf/papp_http.c:497-499 | the connection in the slot, if there is one, is closed |
| KeepPool.Fetcher.Deposit | ports/netsurf/papp_http.c:500-504 | the free slot holds the connection, its server and the time; the fetch holds it no more |
| KeepPool.Fetcher.KeepSlot | ports/netsurf/papp_http.c:487-496 | the slot is free, or the oldest of a full pool |
| KeepPool.Fetcher.KeepClose | ports/netsurf/papp_http.c:463-467 | closing a slot's connection frees its handle and its TLS session |
| KeepPool.Fetcher.DropKeptTls | ports/netsurf/papp_http.c:470-483 | the oldest kept TLS connection is closed, if there is any, which makes room for a session |
| KeepPool.Fetcher.KeepCheck | ports/netsurf/papp_http.c:520-531 | exactly the kept connections that are older than the limit or readable are closed |
| KeepPool.Fetcher.CloseConn | ports/netsurf/papp_http.c:552-558 | a fetch's connection, if it has one, is closed, and the counts follow |
| KeepPool.Fetcher.StepResolve | ports/netsurf/papp_http.c:1245-1312 | a kept connection to the server is taken if there is one (never for a POST or through a proxy); otherwise the fetch goes on with its server's address, waits for it, or ends without network, without an address, or too late; no other fetch changes |
| KeepPool.Fetcher.StepAddress | ports/netsurf/papp_http.c:1262-1312 | without a kept connection the fetch goes on with its server's address, waits for it, or ends without network, without an address, or too late |
| KeepPool.Fetcher.StepConnect | ports/netsurf/papp_http.c:1317-1350 | a new TLS session is opened only below TLS_MAX, after dropping a kept one if need be; there is room for one unless fetches have them all; without room the fetch waits for its deadline |
| KeepPool.Fetcher.OpenConn | ports/netsurf/papp_http.c:398-410 | a connection opened is one nobody held, the fetch's own, and to its server; where the loader gives none the fetch waits for its deadline |
| KeepPool.Fetcher.StepConnecting | ports/netsurf/papp_http.c:1352-1369 | a connection that is ready is sent on, one that failed ends the fetch, and the wait for it ends at its deadline |
| KeepPool.Fetcher.StepSend | ports/netsurf/papp_http.c:1371-1393 | all of the request sent, the fetch waits for the answer; a lost connection ends it or starts it over, the last only on a kept one without an answer; and the wait ends at its deadline |
| KeepPool.Fetcher.SendBytes | ports/netsurf/papp_http.c:1372-1384 | bytes go out in order on the fetch's own connection, as many as it takes before it takes none or is lost; it is counted when its first byte does |
| KeepPool.Fetcher.StepReceive | ports/netsurf/papp_http.c:1395-1421 | what arrives in one poll, up to its limit, is taken in order until the response is over or the connection lost or closed; with nothing at all past the deadline the fetch is over; a connection enters the pool only where the fetch is over, and never a proxy's |
| KeepPool.Fetcher.ReceiveOnce | ports/netsurf/papp_http.c:1398-1416 | what one receive makes of the fetch |
| KeepPool.Fetcher.TakeSegment | ports/netsurf/papp_http.c:1162-1187 | a received segment does to the fetch's response what its bytes say (HttpFeed); if the response is over so is the fetch, and its connection is put into the pool if and only if the response ended where its framing says, exactly at the segment's last byte, on a connection that stays open and is not a proxy's; a body that ends there leaves it to the pool unless it is to be closed or a proxy's |
| KeepPool.Fetcher.ResponseTaken | ports/netsurf/papp_http.c:896-906 | a finished response's connection is put into the pool or closed, and the fetch is over |
| KeepPool.Fetcher.Aborted | ports/netsurf/papp_http.c:1176-1178 | a fetch that NetSurf aborts while it is told of something is over at once |
| KeepPool.Fetcher.Step | ports/netsurf/papp_http.c:1237-1421 | one step of one fetch is, with what the world answers and what the pool and the TLS limit allow, the step FetchStep describes; it keeps every invariant, changes no other fetch and puts at most one connection into the pool |
| KeepPool.Fetcher.Deliver | ports/netsurf/papp_http.c:1237-1421 | on the fetcher itself: any fetch that begins or starts over has its response, header lines and body, after one step in which its server can be reached, takes the request and sends any response whose head says where it ends |
| FetchStep.ResponseFetched | ports/netsurf/papp_http.c:1237-1421 | the same for any number of polls and any segments, on a kept connection or a new one; a response that ends with the close is delivered with it |
| FetchStep.LostIsTriedAgain | ports/netsurf/papp_http.c:1191-1204 | a kept connection that turns out lost or closed before a byte of the answer leaves the fetch as it was when it began, one restart later, so that the above holds of its next step |
| FetchStep.PollsAreBytes | ports/netsurf/papp_http.c:1395-1421 | what several polls bring, in any segments, does what the same bytes at once do |
| FetchStep.LateEnds | ports/netsurf/papp_http.c:1245-1421 | no fetch waits for ever: in every state a step with nothing answered and the deadlines past ends it |
| FetchStep.IdleKeeps | ports/netsurf/papp_http.c:1245-1421 | and before its deadlines such a step leaves a waiting fetch as it is |
| KeepPool.Fetcher.ClosedByServer | ports/netsurf/papp_http.c:1206-1223 | a close starts the fetch over where that is allowed, and otherwise ends it with what came of a body |
| KeepPool.Fetcher.StepAll | ports/netsurf/papp_http.c:1545-1556 | every fetch takes one step |
| KeepPool.Fetcher.ReleaseOver | ports/netsurf/papp_http.c:1559-1570 | exactly the fetches that are over are released, the others stay as they are |
| KeepPool.Fetcher.MakeRoom | ports/netsurf/papp_http.c:398-404 | there is room for a TLS session unless fetches have them all |
| KeepPool.Fetcher.Finish | ports/netsurf/papp_http.c:576-615 | a fetch's end closes its connection |
| KeepPool.Fetcher.Release | ports/netsurf/papp_http.c:1491-1496 | a released fetch owns no handle, and what it had done is on record |
| KeepPool.Fetcher.AbortFetch | ports/netsurf/papp_http.c:1498-1532 | an aborted fetch leaves the list and owns no handle |
| KeepPool.Fetcher.Poll | ports/netsurf/papp_http.c:1534-1572 | with a tick every fetch takes exactly one step, and exactly those that are over then are released |
| KeepPool.Fetcher.Setup | ports/netsurf/papp_http.c:1442-1482 | a new fetch owns nothing and starts its counts |
| DnsJobs.Table.Run | ports/netsurf/papp_http.c:227-357 | under any interleaving of the main task's and the lookup task's actions the table stays consistent (slots of waiting fetches distinct and apart from abandoned ones), no slot ever becomes free but by collecting or reaping its finished lookup, and no host changes in a slot that is taken; it ends as the actions one after the other say, every address given to a fetch is one the resolver gave for that fetch's own host, and a fetch that waits and is not abandoned is given its answer or waits on with its lookup no less far |
| DnsJobs.Table.Do | ports/netsurf/papp_http.c:227-357 | one action of either task, where it is possible, does what it says and keeps the table consistent; a slot that becomes free held a finished lookup and is the one collected or reaped; no action but its being abandoned sets a lookup back, and the action whose turn it is brings it on |
| DnsJobs.Table.OnlyFinishedFreed | ports/netsurf/papp_http.c:299-357 | what an action frees is a finished lookup, collected or reaped, and it changes the host only of a free slot |
| DnsJobs.Table.TurnsAdvance | ports/netsurf/papp_http.c:227-357 | that, for every action and every waiting fetch |
| DnsJobs.LookupIsGiven | ports/netsurf/papp_http.c:227-349 | from the start of a lookup to its answer: the fetch gets the first free slot, and it alone is given what the resolver said, whereupon the table is as it was |
| DnsJobs.AnswerComes | ports/netsurf/papp_http.c:227-349 | whatever the two tasks are in the middle of, at most twelve more actions of theirs give a waiting fetch its answer |
| DnsJobs.Table.WaitingIsWaits | ports/netsurf/papp_http.c:339-349 | every fetch that waits in a consistent table is such a fetch |
| DnsJobs.Table.DoMain | ports/netsurf/papp_http.c:299-357 | the main task's actions |
| DnsJobs.Table.DoWorker | ports/netsurf/papp_http.c:227-241 | the lookup task's actions |
| DnsJobs.Table.constructor | ports/netsurf/papp_http.c:216-219 | the table starts free |
| DnsJobs.Table.DnsStart | ports/netsurf/papp_http.c:326-335 | takes the first free slot for the fetch's host, and fails only if all are taken |
| DnsJobs.Table.DnsPublish | ports/netsurf/papp_http.c:331-332 | the job becomes visible to the lookup task, and the fetch waits for it |
| DnsJobs.Table.DnsCheck | ports/netsurf/papp_http.c:339-346 | whether the fetch's lookup is finished, and with what |
| DnsJobs.Table.DnsCollect | ports/netsurf/papp_http.c:347-348 | the slot is given back and the result is what the resolver said of the fetch's host |
| DnsJobs.Table.DnsAbandon | ports/netsurf/papp_http.c:351-357 | the slot of an abandoned lookup stays taken |
| DnsJobs.Table.DnsReapMark | ports/netsurf/papp_http.c:303-304 | only a finished lookup nobody waits for is reaped |
| DnsJobs.Table.DnsReapFree | ports/netsurf/papp_http.c:305-305 | and its slot is then free |
| DnsJobs.Table.WorkerSee | ports/netsurf/papp_http.c:234-235 | the lookup task takes up a queued job |
| DnsJobs.Table.WorkerAnswer | ports/netsurf/papp_http.c:236-237 | the resolver answers for the host the job had |
| DnsJobs.Table.WorkerStoreOk | ports/netsurf/papp_http.c:237-237 | stores the first half of the answer in the job looked up |
| DnsJobs.Table.WorkerStoreIp | ports/netsurf/papp_http.c:238-238 | stores the second half |
| DnsJobs.Table.WorkerDone | ports/netsurf/papp_http.c:239-239 | publishes the finished job |
| DnsJobs.Cache.Lookup | ports/netsurf/papp_http.c:269-280 | an address was remembered for that name, up to case, within the time to live; none only if no entry qualifies |
| DnsJobs.Cache.Remember | ports/netsurf/papp_http.c:282-296 | replaces the entry that expires first; long names are not remembered |
| DnsJobs.Cache.constructor | ports/netsurf/papp_http.c:221-225 | starts empty |
| PlayerPipeline.ChosenIsCurrent | ports/video/papp_player.c:1411-1417 | in every interleaving, a picture that passes the main task's check was decoded from packets read under the serial then in force: nothing from before a completed seek is chosen |
| PlayerPipeline.DecodedIsCurrent | ports/video/papp_player.c:713-728 | a packet given to the decoder is of the video task's serial, and of the current one |
| PlayerPipeline.ReadyIsTruthful | ports/video/papp_player.c:768-773 | every ready picture carries the serial of the packets it was decoded from |
| PlayerPipeline.SlotsSafe | ports/video/papp_player.c:756-778 | in every reachable state each frame slot is in exactly one place and pushing an index cannot fail; a slot the video task has, whether it empties, fills or hands it on, is in neither queue (so not the second ready one either), not held back and not the main task's |
| PlayerPipeline.ClockIsCurrentIff | ports/video/papp_player.c:1413-1429 | the picture by which the main task may set the clock of the serial in force is of that serial's input if and only if the serial has not moved on since the picture was checked, whatever the other tasks did meanwhile |
| PlayerPipeline.ClockFromOldPicture | ports/video/papp_player.c:1413-1429 | the run: a picture is checked, a seek moves the serial on, and the clock of the new serial would be set by the old picture |
| PlayerPipeline.ChosenStays | ports/video/papp_player.c:1413-1446 | whatever the other tasks do, a chosen picture stays as it was chosen |
| PlayerProgress.OnlyLateIsSkipped | ports/video/papp_player.c:1418-1446 | in every run: a chosen picture goes back unshown if and only if it is late and another one of the same serial waits behind it, is left for later if and only if the main task waits, and is shown otherwise |
| PlayerProgress.CheckedBySerial | ports/video/papp_player.c:1411-1417 | in every run: a picture at the front is chosen if and only if it is of the serial in force, and otherwise goes back |
| PlayerProgress.DecodedBySerial | ports/video/papp_player.c:720-728 | in every run: a packet reaches the decoder if and only if it is of the serial in force |
| PlayerProgress.OnePictureIsShown | ports/video/papp_player.c:567-783 | at the end of any run after which nothing is under way, one more packet becomes one picture, of its input, in a slot that was free or held back, and is shown |
| PlayerProgress.FirstPictureIsShown | ports/video/papp_player.c:567-783 | so it is from the very start |
| PlayerProgress.SeekQuiets | ports/video/papp_player.c:498-526 | with any number of packets and pictures queued, a seek leaves the player, at the new serial, with nothing of the old input in the decoder, in the queues or shown, and all its slots, so that the above holds again |
| PlayerProgress.SeekDrains | ports/video/papp_player.c:708-728 | after a seek the video task gives the decoder nothing of what was queued before, and empties it at the marker |
| PlayerProgress.SeekDrops | ports/video/papp_player.c:1411-1417 | after a seek the pictures that were ready go back unshown, in order |
| PlayerProgress.HeldSlotIsUsed | ports/video/papp_player.c:746-767 | a slot the video task has when a seek comes is emptied, held back, and used for its next picture |
| PlayerProgress.LateCostsNothing | ports/video/papp_player.c:746-750 | a late picture costs no slot |
| PlayerProgress.EndArrives | ports/video/papp_player.c:567-592 | the end of the input reaches the video task |
| PlayerPipeline.InvHolds | ports/video/papp_player.c:498-526 | the invariant holds after every run of steps |
| PlayerPipeline.InvStays | ports/video/papp_player.c:498-526 | and every step of every task keeps it |
| PlayerPipeline.PlacesKept | ports/video/papp_player.c:756-778 | every step only moves slot indices |
| PlayerPipeline.SlotsStayOk | ports/video/papp_player.c:1408-1447 | conservation of the slots is kept by every step |
| PlayerPipeline.QueuesNeverFull | ports/video/papp_player.c:124-134 | conservation leaves room for every push |
| PlayerPipeline.NoSlotShared | ports/video/papp_player.c:759-778 | the slot in the video task's hands is in no queue and not in the main task's hands |
| PlayerPipeline.DemuxStaysOk | ports/video/papp_player.c:514-526 | flush markers and serials in the packet queue stay in step with the input |
| PlayerPipeline.DecoderStaysOk | ports/video/papp_player.c:713-737 | what the decoder holds is of the video task's serial |
| PlayerPipeline.PicturesStayOk | ports/video/papp_player.c:755-778 | ready and shown pictures stay truthful |
| PlayerTasks.Player.Play | ports/video/papp_player.c:586-783 | any interleaving of the tasks' steps, run on the real rings and slots, ends in the state the pipeline's run gives (so all of the above holds of it), as long as fewer than 2^32 slots are handed on in either direction (counting the first four), however many steps there are; each ring's counter is how many were |
| PlayerTasks.Player.Do | ports/video/papp_player.c:586-783 | each step on the rings is the pipeline's step on their contents |
| PlayerTasks.Player.constructor | ports/video/papp_player.c:1196-1208 | the player starts with every slot free |
| PlayerTasks.Player.HandOn | ports/video/papp_player.c:124-134 | a slot goes last into a queue that has room |
| PlayerTasks.Player.FillFree | ports/video/papp_player.c:1201-1208 | the free queue starts with all slot indices |
| PlayerTasks.Player.SeekInput | ports/video/papp_player.c:498-513 | a seek moves the input before the serial |
| PlayerTasks.Player.BumpSerial | ports/video/papp_player.c:514-518 | the serial moves on |
| PlayerTasks.Player.PushFlush | ports/video/papp_player.c:519-522 | the flush marker carries the new serial, and waits for room |
| PlayerTasks.Player.ReadPacket | ports/video/papp_player.c:567-592 | packets and end markers carry the serial in force when they are read |
| PlayerTasks.Player.PushPacket | ports/video/papp_player.c:574-592 | a packet waits for room and is then queued last |
| PlayerTasks.Player.VideoStart | ports/video/papp_player.c:703-703 | the video task starts with the serial in force |
| PlayerTasks.Player.VideoPop | ports/video/papp_player.c:708-719 | a flush marker empties the decoder and sets the task's serial |
| PlayerTasks.Player.VideoCheck | ports/video/papp_player.c:720-728 | packets of another serial are dropped |
| PlayerTasks.Player.VideoReceive | ports/video/papp_player.c:729-737 | a picture comes from one of the packets in the decoder |
| PlayerTasks.Player.VideoLate | ports/video/papp_player.c:746-760 | a late picture is dropped, and a slot held back is used first |
| PlayerTasks.Player.VideoPopSlot | ports/video/papp_player.c:761-764 | takes the oldest free slot |
| PlayerTasks.Player.VideoGiveUp | ports/video/papp_player.c:761-764 | stops waiting for a slot after a seek |
| PlayerTasks.Player.VideoKeepOrFill | ports/video/papp_player.c:765-777 | after a seek the slot is held back, without a picture |
| PlayerTasks.Player.VideoFill | ports/video/papp_player.c:768-772 | the slot gets the picture and the task's serial; it is not one the main task looks at |
| PlayerTasks.Player.VideoPushReady | ports/video/papp_player.c:773-773 | the push has room (its result is not looked at) |
| PlayerTasks.Player.MainPeek | ports/video/papp_player.c:1411-1412 | looks at the oldest ready picture |
| PlayerTasks.Player.MainCheck | ports/video/papp_player.c:1413-1417 | a picture of another serial is dropped; one that passes is labelled and read under the current serial |
| PlayerTasks.Player.MainDecide | ports/video/papp_player.c:1418-1443 | waits, shows, or skips the picture at the front, the last only with another one of the current serial right behind it |
| PlayerTasks.Player.NextIsCurrent | ports/video/papp_player.c:1433-1436 | whether the second ready slot has a picture of the current serial |
| PlayerTasks.Player.MainConverted | ports/video/papp_player.c:1444-1446 | the picture was converted |
| PlayerTasks.Player.MainPushFree | ports/video/papp_player.c:1447-1447 | the push has room (its result is not looked at) |
| SpscQueue.FifoAcrossWrapIff | ports/video/papp_player.c:87-116 | whatever the counters and the contents, pushing to a ring that is not full appends, if and only if its capacity divides 2^32 |
| SpscQueue.PlacesApartIff | ports/video/papp_player.c:87-116 | a ring whose counters wrap at 2^32 keeps distinct places for what waits if and only if its capacity divides 2^32 |
| SpscQueue.OverwritesOldest | ports/video/papp_player.c:87-100 | just after the wrap a ring of any other capacity writes over the oldest of what it holds |
| SpscQueue.SlotRingOverwrites | ports/video/papp_player.c:124-134 | with both counters of a slot ring at 2^32 - 1, two pushes leave the second element twice |
| SpscQueue.CapacitiesAcrossWrap | ports/video/papp_player.c:38-40 | the packet rings (512 and 1024) may wrap; the slot rings (5) and the sound chunk rings (3) may not |
| SpscQueue.HeldPush | ports/video/papp_player.c:87-100 | writing at the head and moving it appends to what waits |
| SpscQueue.HeldPop | ports/video/papp_player.c:102-116 | moving the tail drops the oldest |
| SpscQueue.PacketQueue.Push | ports/video/papp_player.c:87-100 | refused exactly when full, otherwise last in the queue; the byte count follows modulo 2^32 |
| SpscQueue.PacketQueue.Pop | ports/video/papp_player.c:102-116 | takes the oldest, or nothing from an empty queue |
| SpscQueue.PacketQueue.Count | ports/video/papp_player.c:84-84 | how many wait |
| SpscQueue.PacketQueue.CountBytes | ports/video/papp_player.c:85-85 | the bytes that wait, modulo 2^32 |
| SpscQueue.PacketQueue.constructor | ports/video/papp_player.c:75-82 | starts empty |
| SpscQueue.IndexQueue.Push | ports/video/papp_player.c:124-134 | for any counters: refused exactly with more than NSLOTS waiting, otherwise written at the head, which moves on modulo 2^32; and so, short of the wrap, last in the queue |
| SpscQueue.IndexQueue.Peek | ports/video/papp_player.c:136-144 | the oldest, left where it is |
| SpscQueue.IndexQueue.Second | ports/video/papp_player.c:1433-1435 | the one behind the oldest, if more than one waits |
| SpscQueue.IndexQueue.Drop | ports/video/papp_player.c:146-150 | drops the oldest |
| SpscQueue.IndexQueue.Pop | ports/video/papp_player.c:152-159 | takes the oldest |
| SpscQueue.IndexQueue.constructor | ports/video/papp_player.c:118-122 | starts empty |
| PlayerClock.Clock.Set | ports/video/papp_player.c:244-254 | sets the clock under the current serial only; a call under an older one changes nothing |
| PlayerClock.Clock.Get | ports/video/papp_player.c:256-268 | the reading, or none while the clock is void |
| PlayerClock.Clock.Pause | ports/video/papp_player.c:270-280 | changing from running to paused or back, which is all the player asks for, the reading does not jump; paused it stands still, running it follows the system clock |
| PlayerClock.Clock.NewSerial | ports/video/papp_player.c:514-518 | after a seek the clock is void at every time |
| PlayerClock.Clock.constructor | ports/video/papp_player.c:1185-1196 | starts void |
| SoundMixer.MixedIsResampled | ports/redalert/papp_sound.cpp:84-105 | for chunks of one rate, output frame k is the frame at (pos + k * step) / 65536 of all the queued audio, whatever the chunk sizes, empty ones included |
| SoundMixer.ResampledAt | ports/redalert/papp_sound.cpp:94-100 | which frame output frame k is, and exactly when there is one |
| SoundMixer.MixedSplits | ports/redalert/papp_sound.cpp:80-105 | however a request is split into calls the frames are the same |
| SoundMixer.MixedAppend | ports/redalert/papp_sound.cpp:80-105 | chunks queued meanwhile do not change what comes before them |
| SoundMixer.PiecesAreOne | ports/redalert/papp_sound.cpp:80-105 | over any run of requests and newly queued chunks, even one that ran dry in between, what comes out, put together, is what one request on all the chunks gives |
| SoundMixer.HeardAt | ports/redalert/papp_sound.cpp:84-105 | so at one rate frame k of the whole run is the frame at (pos + k * step) / 65536 of all the audio there was |
| SoundMixer.FramesOfPcm | ports/redalert/papp_sound.cpp:70-77 | the frames read out of a chunk are those its bytes encode (left before right, two bytes little-endian in two's complement or one byte offset by 128, mono on both sides), for both widths and both channel counts, all of them, whatever incomplete frame follows |
| SoundMixer.PcmAt | ports/redalert/papp_sound.cpp:70-77 | where frame k of encoded audio is among its bytes |
| SoundMixer.MixedDry | ports/redalert/papp_sound.cpp:84-103 | a request that runs dry has used up its chunks, and what is queued later goes on from there |
| SoundMixer.Voice.Session | ports/redalert/papp_sound.cpp:80-105 | a run of such calls on a voice: each request adds the frames the run gives it, scaled by the volume, to silence |
| SoundMixer.ScaledFits | ports/redalert/papp_sound.cpp:96-97 | sample times volume fits 32 bits, reaching the least value at exactly one point; the contribution fits 16 bits and is the volume's fraction of the sample, rounded down, and at full volume the sample itself |
| SoundMixer.PositionFitsIff | ports/redalert/papp_sound.cpp:94-98 | the position never wraps if and only if the step is at most 2^32 less a full chunk |
| SoundMixer.RatesFit | ports/redalert/papp_sound.cpp:92-93 | rates below 65536 Hz give such a step for every output rate of at least 2 Hz |
| SoundMixer.Voice.MixVoice | ports/redalert/papp_sound.cpp:80-105 | adds exactly those frames, scaled by the volume, to the accumulator and nothing else; leaves exactly the rest queued; stops a voice that ran dry |
| SoundMixer.Voice.MixChunk | ports/redalert/papp_sound.cpp:89-103 | the inner loop plays the current chunk until it ends or the request is met |
| SoundMixer.Voice.NextChunk | ports/redalert/papp_sound.cpp:100-103 | a finished chunk is dropped, and the fraction of a frame carried over |
| SoundMixer.Voice.BufferData | ports/redalert/papp_sound.cpp:304-319 | queues at most CHUNK_MAX bytes with the voice's format if there is room, and otherwise nothing |
| SoundMixer.Voice.FreeCount | ports/redalert/papp_sound.cpp:296-302 | how many chunks there is room for |
| SoundMixer.Voice.StartSample | ports/redalert/papp_sound.cpp:321-326 | plays if anything is queued |
| SoundMixer.Voice.StopSample | ports/redalert/papp_sound.cpp:328-335 | drops the queue and the position |
| SoundMixer.Voice.constructor | ports/redalert/papp_sound.cpp:262-289 | a new voice's format, and nothing queued |
| SoundMixer.SampleAt | ports/redalert/papp_sound.cpp:70-77 | a sample is within 16 bits |
| SoundMixer.FrameAt | ports/redalert/papp_sound.cpp:70-77 | mono plays on both sides |
| Iconv.Run | ports/netsurf/papp_iconv.c:297-356 | the loop takes, writes and counts what the conversion function says, moves the pointers by it, and touches nothing else of the output buffer |
| Iconv.OneCharacter | ports/netsurf/papp_iconv.c:314-345 | one turn of the loop: decode, replace under //TRANSLIT, encode, or why it stops |
| Iconv.PiecesAreWhole | ports/netsurf/papp_iconv.c:297-356 | converting in pieces, whatever the pieces and the room in each call, writes what one call on everything would: what is missing is the conversion of what is pending |
| Iconv.CallContinues | ports/netsurf/papp_iconv.c:313-355 | however a call ended, continuing from where it left the pointers does the rest of the whole conversion |
| Iconv.OneCallIsWhole | ports/netsurf/papp_iconv.c:297-356 | one call does everything if and only if the output fits |
| Iconv.DecodeIsStable | ports/netsurf/papp_iconv.c:98-186 | an answer other than "incomplete" stands whatever comes later |
| Iconv.EncodeRoom | ports/netsurf/papp_iconv.c:188-295 | room decides only whether the bytes fit, not which they are nor whether there are any |
| Iconv.StepRoom | ports/netsurf/papp_iconv.c:314-345 | a step with some room is the step with all the room, if its bytes fit |
| Iconv.DecodeOfEncode | ports/netsurf/papp_iconv.c:98-295 | decoding what was encoded gives the character back, whatever follows, except for exactly the surrogates in UTF-8 and UTF-16 |
| Iconv.EncodeOfDecode | ports/netsurf/papp_iconv.c:98-295 | encoding what was decoded gives the same bytes back, in all eight encodings (shortest form: section 3 of RFC 3629; section 2 of RFC 2781) |
| Iconv.RepresentableIffDecoded | ports/netsurf/papp_iconv.c:188-295 | a character is unrepresentable exactly if no bytes decode to it |
| Iconv.ThereAndBack | ports/netsurf/papp_iconv.c:297-356 | a text converted without loss converts back to the same bytes if and only if no surrogates were written as UTF-8 or UTF-16 |
| Iconv.SurrogateDoesNotReturn | ports/netsurf/papp_iconv.c:98-295 | an input: U+D800 in UTF-32 is written as three bytes of UTF-8, which do not convert back |
| Iconv.HighDistinct | ports/netsurf/papp_iconv.c:25-30 | no two entries of the Windows-1252 table are the same |
| EncodingForms.EncodesByForm | ports/netsurf/papp_iconv.c:188-295 | encoding a character gives exactly its form in that encoding, as the standards define it by arithmetic (section 3 of RFC 3629, section 2 of RFC 2781, byte order from the most or least significant byte), and none if it has none |
| EncodingForms.DecodesByForm | ports/netsurf/papp_iconv.c:98-186 | decoding gives exactly the character whose form the bytes begin with, the surrogates apart |
| EncodingForms.BeginningIsIncomplete | ports/netsurf/papp_iconv.c:98-186 | the beginning of a form is incomplete |
| EncodingForms.TextConverts | ports/netsurf/papp_iconv.c:297-356 | a text converts character by character into the forms of its characters, with a question mark, counted, for each that has none where that is asked for |
| Iconv.Put | ports/netsurf/papp_iconv.c:331-349 | the bytes are written at the pointer and nothing else changes |
| ReadAhead.File.Session | ports/redalert/papp_syscalls.c:339-424 | a run of reads and seeks is the plain cursor's run up to the first operation that is not safe, a read from a bypassed window or a failing seek with something unread; with the repaired bypass it is the plain cursor's whole run as long as no seek fails |
| ReadAhead.SafeIffNothingBypassed | ports/redalert/papp_syscalls.c:362-366 | the buffer hands out the right bytes, for every file with that buffer, if and only if no large read went past it since it was filled or it is used up |
| ReadAhead.Diverging | ports/redalert/papp_syscalls.c:339-424 | the diverging run: read 1, read the rest of 64 KiB, seek back 1, read 1 gives a byte of the old window |
| ReadAhead.LosingPlace | ports/redalert/papp_syscalls.c:339-424 | the run that loses its place: read 1, seek to -1 (which fails), read 1 gives the byte past the read-ahead |
| ReadAhead.RestIsFile | ports/redalert/papp_syscalls.c:350-375 | while nothing went past the buffer, the rest of it and then the file is the file from the cursor on |
| ReadAhead.File.Read | ports/redalert/papp_syscalls.c:339-375 | hands out the next bytes of what is ahead, all there are up to the count, and moves the cursor by them |
| ReadAhead.File.ReadCached | ports/redalert/papp_syscalls.c:350-373 | the read loop, with its effect on the buffer's and the loader's positions |
| ReadAhead.File.ReadSome | ports/redalert/papp_syscalls.c:352-371 | one turn of the loop: from the buffer, past it, or a read-ahead |
| ReadAhead.File.ReadDirect | ports/redalert/papp_syscalls.c:348-349 | without a buffer the loader's read |
| ReadAhead.File.Bypass | ports/redalert/papp_syscalls.c:362-366 | a large read takes the file's next bytes and leaves the buffer as it is |
| ReadAhead.File.Refill | ports/redalert/papp_syscalls.c:367-371 | a read-ahead leaves what is ahead as it is; an empty one means the end of the file |
| ReadAhead.File.TakeBuffered | ports/redalert/papp_syscalls.c:352-361 | takes from the buffer |
| ReadAhead.File.Lseek | ports/redalert/papp_syscalls.c:399-424 | a seek inside the window keeps the buffer; any other drops it, and if it then fails the position becomes the loader's: a failed seek keeps the position if and only if nothing in the buffer was left unread |
| ReadAhead.File.LoaderSeek | ports/redalert/papp_syscalls.c:419-423 | the loader's own seek |
| ReadAhead.File.LoaderRead | ports/redalert/papp_syscalls.c:364-367 | the loader's own read |
| ReadAhead.File.Do | ports/redalert/papp_syscalls.c:339-424 | a safe operation is the plain cursor's |
| ReadAhead.File.IsSafe | ports/redalert/papp_syscalls.c:407-418 | whether an operation is safe, from the positions alone |
| ReadAhead.File.constructor | ports/redalert/papp_syscalls.c:297-323 | a file starts at 0 with an empty buffer |
| PngFilter.FilteringIsUndone | ports/netsurf/gen_netsurf.py:360-383 | for any rows, any filter for each and any bytes per pixel, the rows come back (sections 9.2 and 9.4 of the PNG specification) |
| PngFilter.PngIsDecoded | ports/netsurf/gen_netsurf.py:360-383 | whatever the rows, encoded as section 9 of the PNG specification says with any of its five filter types for each row (by type, with its number), decoding gives the rows |
| PngFilter.PngBytesAre | ports/netsurf/gen_netsurf.py:364-383 | the bytes of such an image are what this model's filter gives |
| PngFilter.PredictionIs | ports/netsurf/gen_netsurf.py:368-381 | the predictions by number are those of the specification's types: none, left, up, the average rounded down, Paeth |
| PngFilter.UnfilterImage | ports/netsurf/gen_netsurf.py:360-383 | the rows are those whose filtering gives the data, with each row's own filter; none if and only if the data ends before the image does, except within the last bpp bytes of a last row without a filter, which comes back as short as it is |
| PngFilter.Unfilter | ports/netsurf/gen_netsurf.py:364-381 | in place, left to right: filtering the result gives the row that came in; a row too short for its filter fails, and exactly those without a filter that lack at most bpp bytes pass |
| PngFilter.UnfilterByte | ports/netsurf/gen_netsurf.py:368-381 | adds the prediction of filters 1 to 4 (others predict nothing) modulo 256 |
| PngFilter.PaethIsNearest | ports/netsurf/gen_netsurf.py:378-381 | the Paeth predictor is the neighbour nearest to a + b - c, the first of a, b, c on a tie |
| PngFilter.FilteredIsInjective | ports/netsurf/gen_netsurf.py:364-381 | a row is determined by its filtered bytes and the row above |
| PngFilter.EncodedIsInjective | ports/netsurf/gen_netsurf.py:360-383 | an image is determined by its filtered data |
| PngFilter.Samples | ports/netsurf/gen_netsurf.py:385-396 | 8 bits as they are, the high byte of 16, and for 1, 2 and 4 bits the samples whose packing gives the row |
| PngFilter.PackingIsUndone | ports/netsurf/gen_netsurf.py:385-396 | whatever the samples of 1, 2 or 4 bits, unpacking gives back what was packed |
| PngFilter.ByteSamples | ports/netsurf/gen_netsurf.py:390-396 | a byte's samples, the top one first |
| PngFilter.SampleOfPacked | ports/netsurf/gen_netsurf.py:390-396 | sample k of a packed byte is the k-th |
| PngFilter.PackedIsInjective | ports/netsurf/gen_netsurf.py:390-396 | packed samples determine the samples |
| Yuv.Converter.ToRgb565 | ports/video/papp_yuv.c:68-109 | for pictures of any size, every output pixel is the clamped and packed fixed-point formula of luma (x0 + ox * step, y0 + oy * step) and the chroma at those coordinates shifted by the subsampling, whichever path its row took; nothing else of the output changes |
| Yuv.Converter.Row | ports/video/papp_yuv.c:83-107 | one row, on the grey, shared or per-pixel path |
| Yuv.Converter.RowShared | ports/video/papp_yuv.c:49-66 | pairs that share a chroma sample, and perhaps one more, give the same pixels as one by one |
| Yuv.Converter.RowOwn | ports/video/papp_yuv.c:100-107 | the per-pixel path |
| Yuv.Converter.RowGray | ports/video/papp_yuv.c:86-93 | grey is the same formula with neutral chroma |
| Yuv.Converter.Pack | ports/video/papp_yuv.c:40-44 | clamp and pack through the tables, for indices inside them |
| Yuv.Converter.PackPair | ports/video/papp_yuv.c:55-60 | two pixels of one chroma sample |
| Yuv.Converter.PackSamples | ports/video/papp_yuv.c:104-106 | a pixel of its own samples |
| Yuv.Converter.PackGray | ports/video/papp_yuv.c:89-90 | a grey pixel |
| Yuv.Converter.InitTabs | ports/video/papp_yuv.c:28-38 | every table entry is the clamped value's bits of the word |
| Yuv.Converter.constructor | ports/video/papp_yuv.c:25-26 | the tables are not ready at first |
| Yuv.ChannelsInTable | ports/video/papp_yuv.c:15-26 | no channel of any pixel falls outside the tables for any of the four coefficient sets |
| Yuv.PixelIsItu | ports/video/papp_yuv.c:15-44 | for both standards and both ranges, the fields of a pixel are those of a colour within one and a half levels of the one whose luma and chroma, by the weights and scales of BT.601 and BT.709, are the samples |
| Yuv.ChannelsAreItu | ports/video/papp_yuv.c:15-21 | so are the fixed-point channels before clamping |
| Yuv.SamplesOfPixel | ports/video/papp_yuv.c:77-105 | an output pixel's samples: luma at its row and column, chroma at half the row and column (4:2:0), half the column (4:2:2), the same place (4:4:4), or neutral (grey) |
| Yuv.OrIsRgb565 | ports/video/papp_yuv.c:43-43 | the or of the three fields is their sum, since they do not overlap |
| Yuv.FieldsOf | ports/video/papp_yuv.c:33-35 | the word fits 16 bits and each channel's bits can be taken from it |
| Yuv.SamplesOf | ports/video/papp_yuv.c:83-105 | the row pointers and column offsets address the samples at the shifted coordinates |
| Yuv.PlacesAreProducts | ports/video/papp_yuv.c:77-98 | the coordinates are x0 + ox * step and y0 + oy * step, and a sample's place row * stride + column |
| Yuv.ShiftOfEven | ports/video/papp_yuv.c:77-104 | an even corner makes chroma offsets add up |
| FontLayout.FontSplit | ports/netsurf/papp_font.c:530-555 | the break is the last space, not the first character, at or before the first character that ends past x; else the first space after it; else the end; with the width before it |
| FontLayout.BreakIsOne | ports/netsurf/papp_font.c:523-529 | there is exactly one such break |
| FontLayout.BreaksHere | ports/netsurf/papp_font.c:538-552 | where the loop stops is that break |
| FontLayout.FontPosition | ports/netsurf/papp_font.c:498-521 | a character boundary, with its width, as near to x as any |
| FontLayout.NearestOfTwo | ports/netsurf/papp_font.c:504-518 | the nearer of the two boundaries around x is the nearest of all |
| FontLayout.FontWidth | ports/netsurf/papp_font.c:485-495 | the sum of the advances |
| FontLayout.WidthOfParts | ports/netsurf/papp_font.c:485-495 | text measured in two parts measures the same |
| ConsoleLog.Console.Session | ports/tulip/papp_mphal.c:49-92 | any calls on a new console: the lines are those of all the text at once, each is logged or counted once, and no window of lines exceeds the rate |
| ConsoleLog.AtMostTheRate | ports/tulip/papp_mphal.c:49-71 | for any clock that does not go back, between two times at most 60 lines and one per 100000 us are logged, whatever came before |
| ConsoleLog.WindowRate | ports/tulip/papp_mphal.c:49-71 | the same of the log itself |
| ConsoleLog.TokensPay | ports/tulip/papp_mphal.c:54-65 | what is logged is paid for by a full bucket and the time since |
| ConsoleLog.BurstIsLogged | ports/tulip/papp_mphal.c:49-71 | after a long enough pause up to 60 lines at once are all logged |
| ConsoleLog.EachLineOnce | ports/tulip/papp_mphal.c:61-70 | every line handed in is logged, in order, or counted as dropped exactly once |
| ConsoleLog.CallsDoNotMatter | ports/tulip/papp_mphal.c:73-92 | the lines do not depend on how the text is split across calls |
| ConsoleLog.CutIsPieces | ports/tulip/papp_mphal.c:73-92 | the lines are what newlines separate, carriage returns dropped, in pieces of at most 199 characters |
| ConsoleLog.SegmentsAreText | ports/tulip/papp_mphal.c:77-91 | no text is lost: put back together the segments are the text without carriage returns |
| ConsoleLog.Console.LogLine | ports/tulip/papp_mphal.c:49-71 | logs or counts one line, and keeps the log equal to what the handed lines say |
| ConsoleLog.Console.Spend | ports/tulip/papp_mphal.c:54-65 | refills, caps and spends the tokens |
| ConsoleLog.Console.LogConsole | ports/tulip/papp_mphal.c:73-92 | hands on exactly the lines the text completes and keeps the rest |
| ConsoleLog.Console.constructor | ports/tulip/papp_mphal.c:51-53 | starts with a full bucket and an empty line |

## Left out

- RangeStream: local files behind the same interface, host names, redirects and URL parsing, and the header parsing of `http_request`; an answer is a record of its status, range, framing and body.
- RangeStream: a failure to allocate the request text, which leaves the new connection open.
- RangeStream.Stream.Read: termination is proved for an abort flag that is set after some number of polls; without it a server that keeps ending bodies early keeps the loop going. Chunk sizes and lengths are unbounded integers.
- HttpFeed.Fetch.Feed: decompression, the hand-over of media links, the authentication realm, cookies and dates, and aborts from inside NetSurf's callbacks.
- HttpFeed: the response part of a fetch is one record held in a field, updated as a value.
- KeepPool: the fetches are a map of records and the list a sequence of keys, not linked nodes; a fetch that is aborted in the middle of a segment keeps the response it had before it.
- KeepPool: host names cut to 255 characters in the pool.
- FetchStep: which deadlines have passed is part of the world's answers, not computed from the clock; links handed over to the video player end before the first step and are not modelled.
- FetchStep.ResponseFetched: for a server that is reached within one step; the waits before that are `FetchStep.IdleKeeps`.
- DnsJobs: starting and stopping the lookup task, and host names cut to 255 characters.
- PlayerPipeline: opening, stopping, the audio task, the overlay, failed seeks, and the timing decisions of the frame loop (an arbitrary choice of wait, show or skip).
- PlayerTasks: each task's loop is cut into its atomic steps; where a task is, and what it has in hand, is a field instead of a program counter and locals.
- PlayerTasks.Player.Play: fewer than 2^32 slots handed on in either direction, since the slot rings may not wrap around.
- PlayerClock: the lock; each method is what a task does while it holds it.
- SoundMixer.Voice.MixVoice: the chunk counters are unbounded (a ring of 3 may not wrap around 2^32), and accumulator sums are not bounded; the mixer task's pacing and clamping, and the spinlock.
- Iconv: names of encodings and the descriptor's allocation; the count of replaced characters is stated for calls that do not fail, since the others do not return it.
- ReadAhead: files opened for writing share the descriptor table but not the buffer; paths, `fstat` and the heap list. The loader is taken to read fully up to the end of the file and to seek anywhere within it.
- PngFilter: chunks, inflation and the expansion of samples to RGBA.
- Yuv.Converter.ToRgb565: 16-bit words are natural numbers (`Yuv.FieldsOf` bounds them).
- FontLayout: glyphs; a text is a sequence of decoded characters with their byte lengths and non-negative advances.
- ConsoleLog: the screen; the dropped count is unbounded.
- Drawing, menus, overlays, input mapping, build and listing scripts, and the near copies of these engines in the other ports.
