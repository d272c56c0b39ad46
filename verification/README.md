# Verified model of socket_server

A Dafny model of the five parts of socket_server that work on bytes and keep state, with proofs of what
they promise.

* **Uploads over HTTP** (`Multipart`, `BodyReader`, `Upload`, `BufferLevel`). The body of a multipart upload is read
  through a bounded buffer, in whatever pieces the connection delivers, and its file parts go straight to
  disk. The specification is a parser that has the whole body at once.
* **Rewriting packets** (`InternetChecksum`, `PacketRewrite`). Addresses and ports of a captured frame are
  replaced and the checksums recomputed.
* **Replaying captures** (`FlowTable`, `Replayer`, `ReplayCache`). Each packet gets a direction, is rewritten for it,
  sent, counted and paced.
* **Capturing** (`Capture`, `Vlan`, `PcapFile`). A kernel queue, a receiving thread and a stopping thread
  interleave; tags are put back, records are written, and the file is sorted by time.
* **The TCP protocol** (`Protocol`) and **flow orientation** (`FlowOrientation`).
* `Frames` says by the positions of their bytes which frames are replayed, rewritten, sent and extracted, and as
  what; `Agreement` that replay and extraction read them alike.

Code that changes fields or runs loops is modelled as classes and methods; each method is proved against a
function or a predicate, and the promises are lemmas about these. The two capture threads are a state
machine whose steps may happen in any order.

What the model takes from outside: `rfile` and `recv` return any nonempty part of what is there, or fail; every
disk operation, every flush, every send and every dispatched command may fail; time is a real number that does not go backwards, and a sleep
is not shorter than asked; JSON, gzip, `realpath` (which may refuse a name), header decoding and the two header
patterns are arbitrary functions. Paths and addresses are kept as the bytes received. A host is little-endian.

## Where the code does not do what its documentation or a standard says

* The upload buffer does not stay within "one chunk plus the delimiter" (`socket_server/http_file.py:30`). For a
  delimiter `d` that bound holds for every body up to 2 * 262144 + |d| - 16384 bytes, and with short reads up to
  262144 + 2 * |d| bytes (`Upload.ParseMultipartStream`, `BodyReader.DocLimit`), but not for bodies one byte
  longer (`BufferLevel.FullReadsExceed`, `BufferLevel.ShortReadsExceed`).
* A boundary containing a carriage return can make the scan miss a delimiter line. `Multipart.ScanExact` says
  for exactly which ones, `Multipart.BoundaryMissed` gives one. The header parser in front of the service does
  not deliver such a boundary.
* When the final flush of an upload fails in `close`, the upload is still reported as stored
  (`socket_server/http_file.py:339-345`). The response is the same, and the file is short exactly when the flush
  was (`Upload.DoPost`); `Upload.FlushLoses` is an upload answered with its full size of which nothing is stored.
* A path without a file part ends in an uncaught `TypeError` (`socket_server/http_file.py:359`), and a path that
  `realpath` refuses, when it comes behind the file, in an uncaught `ValueError` (`socket_server/http_file.py:350`)
  that leaves the temporary or `.part` file behind. `Upload.DoPost` says exactly when; `Upload.PostPathOnly` and
  `Upload.PostUnusablePath` are such requests.
* An upload with several file parts lands them one behind the other, and is answered with the length of the last
  one (`socket_server/http_file.py:182`): `Upload.PostFiles`.
* `checksum` folds twice; that is right up to 131076 bytes and not beyond: `InternetChecksum.ChecksumRange`.
* `checksum` lengthens an odd byte array it is given (`socket_server/replayer.py:310-311`), so an odd ICMP or
  ICMPv6 message goes out with one more byte than its IP header says: `PacketRewrite.IcmpLength`, and one such
  ping is `PacketRewrite.OddEchoGrows`.
* A UDP checksum that comes out as zero is written as zero, which RFC 768 reserves: `PacketRewrite.UdpZeroField`
  says when, `PacketRewrite.ZeroUdpFrame` gives a frame.
* The ICMPv6 checksum leaves out the pseudo-header: `PacketRewrite.Icmp6Frame` says which messages verify all the
  same, `PacketRewrite.Icmp6EchoRefused` gives one that does not.
* Ethernet padding is summed into the TCP and UDP checksums: `PacketRewrite.PaddedFrame` says which padded frames
  verify all the same; with zero padding none does (`PacketRewrite.ZeroPaddingRefused`,
  `PacketRewrite.PaddedUdpRefused`).
* Retagging a tagged frame drops the inner type: `Replayer.TagThenStrip`, `Frames.SentAsIs`.
* Forced addresses and ports do not reach a tagged packet, whose tag is taken for the beginning of its IP header
  (`socket_server/replayer.py:334-335`), unless the first four bits of the tag are 4 or 6:
  `Frames.TaggedNotRewritten`.
* Hints that match neither direction do not fall back to the other rules as the comments announce
  (`socket_server/replayer.py:243-247`): `FlowTable.HintFallback` says for which flows this shows,
  `FlowTable.HintFallbackMissing` gives a request and its answer.
* `reset_stats` does not empty the flow table. The flow count of a run is that of its own flows exactly when none
  of them was in the table before (`Replayer.Replayer.ReplayFiles`); replaying the same files again counts none
  (`Replayer.ReplayTwice`).
* A frame that went out but could not be written to the cache is not counted as sent
  (`socket_server/replayer.py:674-688`). The packet counters of a run cover all that went out if and only if
  nothing was cached or every frame that went out could be written (`Replayer.Replayer.ReplayFiles`);
  `Replayer.ReplayUncached` is a run with one frame on the wire and none counted.
* The cache is written big-endian (`socket_server/replayer.py:848`) and read in the byte order of the host
  (`socket_server/replayer.py:723`). `ReplayCache.CacheReadBack` says which cache files can be replayed; of frames
  of ordinary size there may be only one in it (`ReplayCache.OrdinaryCache`).
* A rewrite does not look at the fragment field of the IP header. `PacketRewrite.DataKept` says exactly when the
  data of a frame survive, `PacketRewrite.FragmentOverwritten` gives a later fragment whose data do not, and
  `PacketRewrite.ReassembledVerifies` which reassembled datagrams a receiver accepts.
* Sorting a pcap replaces every original length by the captured one: `PcapFile.RecordBytesKept`.
* `stop` returns True also when packets from before the stop are missing. `Capture.StopComplete` says exactly when
  they are, `Capture.DrainErrorLoses` gives a run.
* An exception from a dispatched command ends the connection (`socket_server/protocol.py:120-138`), and frames
  behind it are not processed: `Protocol.AllHandled` says when all are, `Protocol.DispatchLoses` gives two frames.
* A file of length 0 can be uploaded over TCP only with an empty content frame: `Protocol.ZeroLength`.
* Two frames in one `recv` result are both lost: `Protocol.SharedChunkLost`.
* Record lengths are read as little-endian by the flow extraction whatever the file says
  (`socket_server/pcap_flow.py:58`). `FlowOrientation.LittleReadsBig` says which big-endian files are read right
  all the same; in one below 64 KiB that begins with a packet of ordinary length no flow is found
  (`FlowOrientation.BigEndianLost`, `FlowOrientation.BigEndianFlowLost`).

## Model

| member | source | states |
|---|---|---|
| Multipart.CrFreeNoBorder | socket_server/http_file.py:119-127 | a boundary without CR gives a delimiter that cannot overlap itself |
| Multipart.ScanExact | socket_server/http_file.py:78-90 | skipping behind a rejected delimiter finds the first delimiter line of every buffer if and only if wherever the delimiter overlaps itself the overlap reads as a delimiter line |
| Multipart.BoundaryMissed | socket_server/http_file.py:78-90 | a boundary with a carriage return, and a buffer in which its delimiter line is missed |
| Multipart.ValueSurvives | socket_server/http_file.py:78-85 | an encoded value is cut exactly at its end if and only if the value with its CRLF contains no delimiter line |
| Multipart.GoodValueBytes | socket_server/http_file.py:78-90 | a value contains no delimiter line if and only if, with its CRLF, it has no CRLF, two dashes and boundary followed by two dashes, CRLF or LF |
| Multipart.GoodHeaderBytes | socket_server/http_file.py:54-60 | a header block ends where it seems to if and only if it has at most 16381 bytes and no blank line begins before its end |
| Multipart.EncodeBytes | tests/test_http_file.py:19-34 | the bytes of an encoded form: boundary line, header block, blank line and value for each field, then the closing line |
| Multipart.RoundTrip | tests/test_http_file.py:19-34 | parsing an encoded body gives back all its fields, in whatever order |
| Multipart.Epilogue | socket_server/http_file.py:153-158 | behind the two dashes of the closing line a body may end or go on with anything |
| Multipart.TruncatedRefused | socket_server/http_file.py:54-98 | a body that ends anywhere before those dashes is refused |
| Multipart.Collected | socket_server/http_file.py:163-187 | whatever the fields and their order, the last path, length and file name are kept, every file part is appended, and the file is opened with the path known then |
| Multipart.RefusedExactly | socket_server/http_file.py:101-186 | a form is refused exactly for a path above 4096 bytes, or one that is not usable when the first file part needs it |
| Multipart.UploadRoundTrip | tests/test_http_file.py:100-117 | path and file come back byte for byte in either order; the file is opened with the path exactly when the path came first, and only then can an unusable path be refused |
| BodyReader.BodyReader.Fill | socket_server/http_file.py:40-48 | reads until enough is buffered, the body ends or a read fails; loses nothing, never takes more than Content-Length, keeps the buffer within its bounds, and buffers exactly as much as the sizes of the reads determine |
| BodyReader.BodyReader.Take | socket_server/http_file.py:50-52 | removes a prefix of what is pending |
| BodyReader.BodyReader.ReadHeaders | socket_server/http_file.py:54-67 | returns the bytes before the first blank line of the body; fails only without one, for a block above 16381 bytes, or on a failing read; reads nothing when the block is buffered |
| BodyReader.Sink.Accept | socket_server/http_file.py:101-116 | collects in order up to the cap, refuses exactly what exceeds it, and keeps the file equal to what was accepted |
| BodyReader.BodyReader.EndValue | socket_server/http_file.py:79-85 | at a delimiter line the sink has the value and the rest of the body is pending |
| BodyReader.BodyReader.SkipHit | socket_server/http_file.py:86-90 | a delimiter that is content is handed on whole, and no delimiter line is skipped with it |
| BodyReader.BodyReader.KeepTail | socket_server/http_file.py:92-98 | handing on all but the tail keeps every possible beginning of a delimiter line; no progress means the body has ended |
| BodyReader.BodyReader.StreamValue | socket_server/http_file.py:69-98 | for every chunking the value ends at the first delimiter line of the whole body; refused only when there is none or the cap is exceeded; fails only with the disk or a read |
| BodyReader.BodyReader.StreamOnce | socket_server/http_file.py:77-98 | one round ends the value at a delimiter line that is buffered, hands a false hit on, or keeps the tail and reads more |
| BodyReader.BoundsInBytes | socket_server/http_file.py:28-33 | the bounds of the buffer in bytes |
| BodyReader.Handle.Close | socket_server/http_file.py:339-345 | of what was written the file gets what the flush brings to the disk, and a short flush is the only failure |
| Upload.Landing.OpenFile | socket_server/http_file.py:308-324 | opens one file per request: `.part` beside the destination when the path is known, else a fresh temporary file; a ValueError exactly for a known path that is not usable |
| Upload.Landing.Discard | socket_server/http_file.py:217-232 | removes the landing file and touches no other file |
| Upload.NextHead | socket_server/http_file.py:153-162 | tells closing dashes, a header block, a malformed body and a failing read apart as the whole body does |
| Upload.ReadField | socket_server/http_file.py:163-185 | one field is read as the whole-buffer parser reads it, the path under its cap |
| Upload.ReadFile | socket_server/http_file.py:169-183 | a file part is appended to the open file and counted |
| Upload.StreamFile | socket_server/http_file.py:177-182 | the value of a file part is appended to the open file, up to the first delimiter line of the body |
| Upload.ParseParts | socket_server/http_file.py:153-187 | the loop over the parts agrees with the whole-buffer parser and terminates |
| Upload.ParseMultipartStream | socket_server/http_file.py:130-187 | for every chunking the result, the bytes written and success or failure are those of the whole-buffer parser (a header block above 16381 bytes may be refused); an OSError only from the disk or a read; at most Content-Length bytes are read; the buffer is bounded, as the docstring says for bodies up to `DocLimit` |
| BufferLevel.FullReadsExceed | socket_server/http_file.py:28-33 | a body one byte longer than that limit, with which the buffer exceeds the docstring's bound when no read is short |
| BufferLevel.ShortReadsExceed | socket_server/http_file.py:28-33 | the same for the limit with short reads |
| Upload.DoPost | socket_server/http_file.py:290-372 | on success the destination holds the concatenated file parts, short exactly when the final flush was, the landing file is gone and nothing else changed; otherwise only the landing file may have changed, and unless removing it failed it is gone exactly when no exception went through; unless a disk operation or a read fails the whole-buffer parse decides the response, the exceptions included, whatever the flush does |
| Upload.Settle | socket_server/http_file.py:346-364 | after a successful parse path and opened file decide the response unless the disk fails, and what the flush brought to the disk has landed, is discarded, or is left behind by an exception accordingly |
| Upload.PostForm | tests/test_http_file.py:232-286 | for every encoded form and chunking, unless a disk operation fails, the fields decide the response, and with the flush what is on disk; after a bad request the landing file is gone and nothing else has changed |
| Upload.PostEncoded | tests/test_http_file.py:232-286 | end to end: an encoded upload is answered with its full size for every content, chunking and field order and lands byte for byte under its path if and only if the flush brings all of it to the disk, unless another disk operation failed |
| Upload.PostFiles | socket_server/http_file.py:169-183 | any number of file parts between any other fields land one behind the other under the last path, and the answer has the length of the last one |
| Upload.FalseHitLands | socket_server/http_file.py:74-90 | an upload whose content is CRLF, two dashes, the boundary and more lands whole |
| Upload.PostNoPath | socket_server/http_file.py:346-349 | a form without a path, or with empty ones only, is answered as a bad request unless a disk operation fails, and the disk is as it was |
| Upload.PostLongPath | socket_server/http_file.py:106-112 | a path above 4096 bytes is a bad request, before the file and behind it, and nothing lands |
| Upload.PostTruncated | socket_server/http_file.py:54-98 | a form cut short before its closing dashes is a bad request, and nothing lands |
| Upload.FlushLoses | socket_server/http_file.py:339-372 | an upload of one byte answered as stored whose file is empty |
| Upload.PostPathOnly | socket_server/http_file.py:350-359 | a form with a path and no file ends in an exception and changes no file |
| Upload.PostUnusablePath | socket_server/http_file.py:350 | a form with an unusable path behind its file ends in an exception and leaves the temporary or `.part` file behind, with the content |
| InternetChecksum.OnesSumIsResidue | socket_server/replayer.py:309-315 | the one's-complement sum is the plain sum modulo 65535 |
| InternetChecksum.ChecksumInPlace | socket_server/replayer.py:309-315 | the checksum, and that an odd byte array comes back one zero byte longer |
| InternetChecksum.ChecksumCorrect | socket_server/replayer.py:309-315 | up to 131076 bytes the result is the complement of the one's-complement sum |
| InternetChecksum.ChecksumRange | socket_server/replayer.py:309-315 | correct on all inputs up to n bytes if and only if n is at most 131076 |
| InternetChecksum.ThirdFoldNeeded | socket_server/replayer.py:313-314 | an input of 131077 bytes on which two folds are wrong |
| InternetChecksum.FieldVerifies | socket_server/replayer.py:376-391 | exactly which field values make a message verify |
| PacketRewrite.BuildModifiedPacket | socket_server/replayer.py:331-569 | computes the rewritten frame, unchanged when a byte is missing or a value does not fit; the zero byte that odd ICMP messages and odd cut-off headers gain included |
| PacketRewrite.BuildV4 | socket_server/replayer.py:346-406 | the in-place steps for IPv4 give the rewritten frame |
| PacketRewrite.BuildV6 | socket_server/replayer.py:409-465 | the in-place steps for IPv6 give the rewritten frame |
| PacketRewrite.RewriteVerifies | socket_server/replayer.py:346-465 | the header checksum verifies, and so does the checksum of the segment in the frame behind the standards' pseudo-header (for an unfragmented packet, the transport checksum); the parsers read back exactly the chosen five-tuple |
| PacketRewrite.RewriteTouches | socket_server/replayer.py:346-465 | length and every byte outside addresses, header checksum, the first four bytes of the segment and its checksum field are unchanged (for an unfragmented packet these are ports and checksum) |
| PacketRewrite.DataKept | socket_server/replayer.py:346-391 | the user data of a frame are unchanged if and only if it is no later fragment, or already has the bytes of the new ports and checksum at their places |
| PacketRewrite.FragmentOverwritten | socket_server/replayer.py:364-391 | a later UDP fragment whose data are overwritten |
| PacketRewrite.ReassembledVerifies | socket_server/replayer.py:380-391 | a datagram with a rewritten first fragment is accepted exactly when length and sum of the rest make a multiple of 65535 |
| PacketRewrite.RewriteReversed | socket_server/replayer.py:571-631 | rewriting the reversed frame to the exchanged target is reversing the rewritten frame |
| PacketRewrite.IcmpLength | socket_server/replayer.py:396-402 | a rewritten ICMP or ICMPv6 frame keeps its length if and only if the message is even and has a checksum field; else an odd one grows by one byte |
| PacketRewrite.IcmpRewritten | socket_server/replayer.py:396-402 | apart from that zero byte only addresses and checksums change, and the message verifies with and without it |
| PacketRewrite.OddEchoGrows | socket_server/replayer.py:309-311 | an echo request with one byte of data goes out one byte longer |
| PacketRewrite.UdpZeroField | socket_server/replayer.py:387-391 | the UDP field is zero exactly when the rest sums to 65535, and 65535 would verify too |
| PacketRewrite.ZeroUdpFrame | socket_server/replayer.py:387-391 | a frame and a target for which the rewritten field is zero |
| PacketRewrite.Icmp6Verifies | socket_server/replayer.py:456-461 | the ICMPv6 checksum verifies as RFC 4443 wants exactly when the pseudo-header sums to a multiple of 65535 |
| PacketRewrite.Icmp6Frame | socket_server/replayer.py:456-461 | a rewritten ICMPv6 frame is accepted exactly when addresses, length and protocol number sum to a multiple of 65535 |
| PacketRewrite.Icmp6EchoRefused | socket_server/replayer.py:456-461 | an echo request from ::1 to ::2 that is not accepted |
| PacketRewrite.PaddedVerifies | socket_server/replayer.py:381-391 | a padded segment verifies at its true length exactly when padding and its length sum to a multiple of 65535 |
| PacketRewrite.PaddedFrame | socket_server/replayer.py:381-391 | the same for a rewritten frame whose header declares the shorter length |
| PacketRewrite.ZeroPaddingRefused | socket_server/replayer.py:381-391 | a frame padded with zeros is never accepted after the rewrite |
| PacketRewrite.PaddedUdpRefused | socket_server/replayer.py:381-391 | the shortest Ethernet frame with a UDP datagram is not accepted, whatever it is rewritten to |
| FlowTable.RunKeys | socket_server/replayer.py:229-292 | the table holds exactly the five-tuples seen |
| FlowTable.RunDirections | socket_server/replayer.py:229-292 | without hints a key is downlink exactly when its reverse was seen first and its own first packet is no bare SYN; with hints exactly when they say so |
| FlowTable.FirstSideUplink | socket_server/replayer.py:253-268 | the side seen first is uplink |
| FlowTable.RunStable | socket_server/replayer.py:230-232 | a direction never changes once given |
| FlowTable.HintFallback | socket_server/replayer.py:240-268 | with hints a key gets the direction the comments announce if and only if the hint matches it, its first packet is a bare SYN, or its reverse was not seen before |
| FlowTable.HintFallbackMissing | socket_server/replayer.py:243-247 | a request and its answer outside the hint, both sent as uplink |
| FlowTable.FlowsAdd | socket_server/replayer.py:278-285 | a new key is a new flow exactly when its reverse is new |
| FlowTable.FlowsAdded | socket_server/replayer.py:278-285 | a run adds as many flows as it has exactly when none of them was there before |
| Replayer.ReplayedDirections | socket_server/replayer.py:755-759 | the same for a replay of any number of files |
| Replayer.RecordDirection | socket_server/replayer.py:229-292 | by the records of a file: without hints a flow's first packet is downlink exactly when one of the other side came earlier and it is no bare SYN |
| Replayer.ForcesApplied | socket_server/replayer.py:605-631 | parsed again, a rewritten frame has the forced client as source going up and as destination coming down |
| Replayer.ModifiedReversed | socket_server/replayer.py:571-634 | both directions of a flow are rewritten symmetrically |
| Replayer.TagThenStrip | socket_server/replayer.py:294-307 | tagging is undone by stripping exactly for untagged frames |
| Replayer.WindowPaced | socket_server/replayer.py:746-752 | in every window of consecutive packets the bits are at most rate times elapsed time |
| Replayer.NextFileMatches | socket_server/replayer.py:784-789 | attempts that match file by file match over the whole run |
| Replayer.CountersComplete | socket_server/replayer.py:665-696 | every attempt is a counted frame or a failure, and the counted frames are all that went out if and only if nothing was cached or every frame that went out could be written to the cache |
| Replayer.BytesCounted | socket_server/replayer.py:690-696 | frames are counted for their own direction, with 60 bytes at least and with those of their packet when they are more |
| Replayer.WireMatches | socket_server/replayer.py:665-688 | the wire carries what should be sent with exactly the refused frames left out |
| Replayer.ReplayTwice | socket_server/replayer.py:164-174 | replaying the same files again on the same replayer reports no flows |
| Replayer.ReplayUncached | socket_server/replayer.py:674-696 | a run with one frame on the wire and no frame counted |
| Replayer.Replayer.ResetStats | socket_server/replayer.py:164-174 | all counters are zero, the flow table stays |
| Replayer.Replayer.GetDirection | socket_server/replayer.py:229-292 | the table learns exactly this key, the others keep their direction and their noted target; the flow count grows with the number of unordered flows |
| Replayer.Replayer.ModifyPacket | socket_server/replayer.py:571-634 | the frame rewritten for its direction; only the noted target of its own flow changes |
| Replayer.Replayer.SendPacket | socket_server/replayer.py:658-696 | the rewritten, tagged frame is handed to the socket, or nothing at all exactly when the tag does not fit |
| Replayer.Replayer.Transmit | socket_server/replayer.py:674-696 | the counters stay exactly those of the frames that went out and could be cached |
| Replayer.Replayer.Pace | socket_server/replayer.py:763-768 | enough time has passed since the last mark, and nothing is waited beyond that |
| Replayer.Replayer.PaceTotal | socket_server/replayer.py:791-795 | the run so far has taken long enough for its bytes, and nothing is waited beyond that |
| Replayer.Replayer.ReplayRecord | socket_server/replayer.py:727-770 | one record is skipped, or learned, sent, counted and paced; the attempt is exactly what the record stands for in its flow's direction (by position: `Frames`) |
| Replayer.Replayer.ReplayFile | socket_server/replayer.py:698-773 | the attempts are exactly the file's replayed records, in order, each rewritten and tagged by the direction its flow had at that point; the count is their number, every gap is long enough, the table has learned the whole file |
| Replayer.Replayer.ReplayFiles | socket_server/replayer.py:775-816 | the attempts are exactly the replayed records of all files in order, and the wire has all but the refused ones; total packets are all attempts, counted frames and failures; the counters cover the wire if and only if caching is off or never failed; the duration is at least what the rate asks for; the flow count is that of the run exactly when none of its flows was known |
| ReplayCache.CacheReadBack | socket_server/replayer.py:719-725 | replaying a cache file reads back its frames if and only if every length reads the same in both byte orders, or is the last and reads as a larger one |
| ReplayCache.OrdinaryCache | socket_server/replayer.py:841-855 | frames below 64 KiB are read back if and only if there is at most one |
| ReplayCache.RecordsRead | socket_server/replayer.py:719-728 | of a little-endian file the records are read with both lengths, of one cut short what there is, and a cut-off header ends the reading |
| Frames.ReplayedFrames | socket_server/replayer.py:727-741 | the frames replayed are those of type 0x0800 or 0x86DD, plain or behind one 0x8100 tag, with a complete fixed IPv4 or IPv6 header |
| Frames.ReplayedAs | socket_server/replayer.py:176-227 | their key by position: hardware addresses, addresses, TCP and UDP ports, protocol; a bare SYN is flag bit 2 without bit 16 |
| Frames.OtherSide | socket_server/replayer.py:255-262 | two frames are the two sides of a flow exactly when hardware addresses, addresses and ports are exchanged and the protocol class is the same |
| Frames.Aimed | socket_server/replayer.py:587-631 | with anything forced every such frame has a target, and which: going up the forced source on the source side, coming down on the destination side; an empty address or port 0 leaves the frame's own |
| Frames.NotAimed | socket_server/replayer.py:580-594 | nothing is changed exactly when nothing is forced or there is no IP packet |
| Frames.SentAsIs | socket_server/replayer.py:658-672 | with nothing forced a packet goes out byte for byte, with the tag of its direction in front of the type, or not at all when that does not fit |
| Frames.SentForced | socket_server/replayer.py:658-672 | with forces of its version an untagged packet goes out rewritten to that target, with the tag of its direction |
| Frames.WellExactly | socket_server/replayer.py:346-465 | the frames and targets the rewrite results hold for: complete IPv4 or IPv6 headers, a TCP segment of at least 18 or UDP of at least 8 bytes, below 65536, and all four fields of that version |
| Frames.WellIcmpExactly | socket_server/replayer.py:396-461 | the same for ICMP and ICMPv6 |
| Frames.ForcesFit | socket_server/replayer.py:602-631 | forces of its version give every TCP or UDP packet such a target |
| Frames.TransportRewritten | socket_server/replayer.py:346-465 | by position: the rewritten frame has the target's addresses and ports, both checksums verify, every other byte is unchanged |
| Frames.IcmpByPosition | socket_server/replayer.py:396-461 | by position: the addresses, the checksums and the zero byte of an odd message are all that changes, and the message verifies |
| Frames.OtherRewritten | socket_server/replayer.py:362-406 | by position: of any other protocol only addresses and header checksum change, of SCTP also the ports that are given, and its checksum is left |
| Frames.NotRewritten | socket_server/replayer.py:362-387 | a port above 65535 or an IPv4 segment of 65536 bytes is an exception, and the frame goes out as it came |
| Frames.OpenExactly | socket_server/replayer.py:337-346 | the rewrites left open are those from one IP version to the other; addresses of both versions change nothing |
| Frames.TaggedNotRewritten | socket_server/replayer.py:331-346 | forced fields do not reach a tagged packet unless the first four bits of its tag read as an IP version |
| Frames.ExtractedFrames | socket_server/pcap_flow.py:63-105 | the frames that belong to a flow: ICMP of either version, or TCP, UDP or SCTP with both ports, in a complete IPv4 or IPv6 header, plain or behind one tag |
| Frames.ExtractedAs | socket_server/pcap_flow.py:70-143 | their endpoints and protocol by position; ICMP has ports 0; the client a TCP segment names: SYN its sender, SYN and ACK its receiver, else a request its sender and a response its receiver |
| Frames.RequestText | socket_server/pcap_flow.py:8-13 | the request methods and the beginning of a response, as text |
| Frames.OnePacketFile | socket_server/pcap_flow.py:48-161 | a file of one packet gives its one flow, with the client first that the packet names or else its sender |
| Frames.PingReported | socket_server/pcap_flow.py:97-110 | a file of one ping gives one ICMP flow with ports 0 |
| Agreement.SamePacket | socket_server/replayer.py:727-758 | of a packet whose version fits its type the replayer and the flow extraction find the same addresses, ports and SYN, and both skip an incomplete header |
| PcapFile.ParseOfRaw | socket_server/capture.py:656-668 | reading back records that were written gives those records and the incomplete tail |
| PcapFile.RawOfParse | socket_server/capture.py:656-668 | a file is its complete records and an incomplete tail |
| PcapFile.MagicBytes | socket_server/capture.py:636-651 | the byte order of a file by the first four bytes, microseconds and nanoseconds |
| PcapFile.RawBytes | socket_server/capture.py:672-678 | a record byte by byte, in either order |
| PcapFile.NotSorted | socket_server/capture.py:634-654 | a file with a short header or another magic number is left alone |
| PcapFile.SortCorrect | socket_server/capture.py:670-671 | the order is by timestamp, and equal timestamps keep their order |
| PcapFile.SortUnique | socket_server/capture.py:670-671 | there is only one such order |
| PcapFile.SortedFileParses | socket_server/capture.py:624-684 | the sorted file parses to the stable sort of the complete records; only a truncated tail is dropped |
| PcapFile.SortedFileIdempotent | socket_server/capture.py:624-684 | sorting twice is sorting once |
| PcapFile.RecordBytesKept | socket_server/capture.py:662-678 | the records keep all their bytes exactly when none was cut short on capture |
| PcapFile.SortPcapByTimestamp | socket_server/capture.py:633-681 | the loops compute the sorted file |
| PcapFile.ReadRecords | socket_server/capture.py:656-668 | the reading loop collects the complete records |
| Vlan.RestoreInverts | socket_server/capture.py:298-337 | restoring inverts stripping exactly when the auxiliary data announces the tag and gives or implies its protocol |
| Vlan.RestoreFromKernel | socket_server/capture.py:307-337 | decoded from the bytes of the kernel's structure, among other control messages, every tagged frame comes back whole, TCI 0 included |
| Vlan.RestoreDecides | socket_server/capture.py:307-337 | by the kernel's fields: without TCI and status bit 0x10, or below 12 bytes, the frame is unchanged; else it gets a tag with that TCI, of protocol 0x8100 when TPID and bit 0x40 are not set |
| Vlan.RestoreWithout | socket_server/capture.py:307-319 | without auxiliary data, or with short ones, the frame is unchanged |
| Vlan.KernelBytes | socket_server/capture.py:307-322 | the bytes of the kernel's structure the model decodes |
| Capture.PcapWriter.WritePacket | socket_server/capture.py:339-349 | appends one nanosecond record and counts it |
| Capture.SavePacket | socket_server/capture.py:231-234 | a packet is appended as the record it stands for unless the record header has no room for it |
| Capture.RecordedAsOnTheWire | socket_server/capture.py:298-347 | a frame delivered without its tag is recorded as it was on the wire, with its length and time |
| Capture.RecordedAsDelivered | socket_server/capture.py:298-347 | so is a frame that had no tag |
| Capture.HeaderBytes | socket_server/capture.py:200-204 | the 24 bytes every capture file begins with |
| Capture.StepKeeps | socket_server/capture.py:206-257 | every step of receiving, writing, stopping and draining keeps the invariant |
| Capture.NothingLost | socket_server/capture.py:206-257 | at every moment of every run, written, held and queued packets are the accepted ones in order, and an undamaged file parses to the written ones |
| Capture.StopComplete | socket_server/capture.py:367-395 | if the file was not damaged and `stop` returned True, it holds a prefix of the accepted packets once each and in order, and every packet queued before the stop if and only if no step left one behind: a failing read while draining, a skipped drain, or a stop after the thread had gone |
| Capture.StrandedExact | socket_server/capture.py:236-257 | such a step has happened exactly when the thread is gone, the flag is set and a packet from before is not written |
| Capture.ReadsComplete | socket_server/capture.py:206-257 | as long as no read fails no step leaves a packet behind |
| Capture.DrainErrorLoses | socket_server/capture.py:240-254 | a run in which `stop` returns True and a packet is missing |
| Capture.DrainsUnlessBroken | socket_server/capture.py:206-257 | a stopped thread drains the queue exactly when neither the interface was gone nor a write had failed in the main loop |
| Capture.LeavesLoop | socket_server/capture.py:217-246 | a read that fails or gives no data ends the loop it is in |
| Capture.StopAnswers | socket_server/capture.py:367-395 | `stop` answers True exactly when the thread has gone; then nothing more is accepted, and the file loses at most what a failing flush leaves unwritten |
| Capture.NeverStuck | socket_server/capture.py:215-257 | until it has exited, the thread can take a step |
| Capture.StoppedThreadExits | socket_server/capture.py:236-254 | once stopped and without further traffic, the thread exits within a bounded number of steps |
| Capture.OrderIsTime | socket_server/capture.py:339-347 | the order of the records is the order of the timestamps |
| Capture.SortedCapture | socket_server/capture.py:473-475 | sorting a capture whose file was not damaged keeps every byte of every record |
| Protocol.RestRecovered | socket_server/protocol.py:46-62 | the rest of a frame comes out exactly when a chunk ends where the frame does |
| Protocol.FrameRecovered | socket_server/protocol.py:35-62 | a frame's body comes out if and only if the first chunk holds the length field and some chunk ends where the frame does |
| Protocol.FramesProcessed | socket_server/protocol.py:33-75 | for every such split of any sequence of frames the bodies are processed in order until one ends the connection |
| Protocol.AllHandled | socket_server/protocol.py:65-138 | all bodies are processed if and only if none before the last asks for something that raises an exception; those not processed have no effect |
| Protocol.DispatchLoses | socket_server/protocol.py:120-138 | of two frames the second is processed exactly when the command dispatched for the first raises no exception |
| Protocol.ContentCollected | socket_server/protocol.py:95-109 | in binary mode content is collected, answered once, and nothing is dispatched; empty frames change nothing |
| Protocol.UploadRuns | socket_server/protocol.py:76-119 | an upload of at least one byte gives four answers and one write of the collected content |
| Protocol.UploadOverTcp | socket_server/protocol.py:28-119 | the same from the wire, for every split of the frames |
| Protocol.ZeroLength | socket_server/protocol.py:95-109 | an upload of no bytes is stored if and only if at least one empty content frame is sent; without one the connection ends and nothing is written |
| Protocol.SharedChunkLost | socket_server/protocol.py:46-62 | a frame and whatever shares its last chunk change nothing |
| Protocol.ShortChunkEnds | socket_server/protocol.py:37-41 | a frame whose first chunk is shorter than its length field ends the connection, and nothing behind it has an effect |
| Protocol.EndsExactly | socket_server/protocol.py:65-138 | which bodies end the connection, and that such a body is not answered and writes nothing |
| Protocol.StoredAsSent | socket_server/protocol.py:110-117 | what is stored is the content byte for byte, except that "^$" stores an empty file |
| Protocol.Texts | socket_server/protocol.py:76-119 | the answers and that mark, as text |
| Protocol.WireBytes | socket_server/protocol.py:42-104 | length field, command number and file length byte by byte, signs included |
| Protocol.Handler.OnBody | socket_server/protocol.py:65-120 | one body changes the fields and has the effects of the specification |
| Protocol.Handler.Handle | socket_server/protocol.py:28-139 | what the connection does is what the received chunks determine; all input is consumed unless an exception ends the connection, a first chunk is too short, or the peer resets it |
| FlowOrientation.RestoreKeepsPacket | socket_server/pcap_flow.py:63-89 | restoring a tag keeps flow and signal exactly unless another 0x8100 tag is inside |
| FlowOrientation.SameKey | socket_server/pcap_flow.py:112-114 | two packets share a key exactly when they run between the same endpoints over the same protocol |
| FlowOrientation.ClientIsEndpoint | socket_server/pcap_flow.py:147-153 | the client is one of the first packet's endpoints, so a result is exactly the two endpoints, client first |
| FlowOrientation.ClientFound | socket_server/pcap_flow.py:127-153 | with at least one signal and all naming the client, the result has it first, whichever packet was captured first |
| FlowOrientation.ConversationOriented | socket_server/pcap_flow.py:127-161 | a captured conversation is reported once, client first, whichever side was captured first and whatever was captured in between, once one side has sent what tells it apart and neither has sent what the other sends |
| FlowOrientation.OfInterleaved | socket_server/pcap_flow.py:112-145 | packets of other flows change nothing for a flow |
| FlowOrientation.KeysInOrder | socket_server/pcap_flow.py:116-126 | the flows begun in a prefix of the packets come first, in the same order |
| FlowOrientation.SummaryAppend | socket_server/pcap_flow.py:127-145 | the first signal of a flow decides, later ones change nothing |
| FlowOrientation.Table.Add | socket_server/pcap_flow.py:116-145 | after each packet the dictionary is the summary of all flows in order of appearance |
| FlowOrientation.Table.Results | socket_server/pcap_flow.py:147-161 | the results are those of the declarative form |
| FlowOrientation.ExtractFile | socket_server/pcap_flow.py:48-161 | one pass over a file gives one result per flow, in order of appearance, turned by its first signal |
| FlowOrientation.LittleReadsBig | socket_server/pcap_flow.py:52-61 | the packets read from big-endian records are the right ones if and only if every length is a palindrome and nothing that looks complete is left |
| FlowOrientation.ByteOrderHarmless | socket_server/pcap_flow.py:52-61 | the flows of such a file, and of every little-endian one, are those its header announces |
| FlowOrientation.BigEndianLost | socket_server/pcap_flow.py:52-61 | in a big-endian file below 64 KiB that begins with a packet of ordinary length no flow is found |
| FlowOrientation.BigEndianFlowLost | socket_server/pcap_flow.py:52-61 | a file with one UDP packet whose flow is lost |
| FlowOrientation.ExtractFlows | socket_server/pcap_flow.py:15-165 | the same for all files |
| FlowOrientation.FilesInOrder | socket_server/pcap_flow.py:46-161 | the results of the files come in their order |

## Left out

- Upload.ParseMultipartStream: does not say which of the messages a ValueError carries, because for a truncated body that depends on the chunking.
- Upload.DoPost: directories, the cross-disk branch of `shutil.move` and the text of the answers; a file's content before its close is not observable in the model; `size` is that of the last file part, as in the source.
- PacketRewrite.BuildModifiedPacket: what the branches that change the IP version build is left open, because they leave the Ethernet type of the old version in place.
- PacketRewrite.RewriteVerifies: SCTP, whose checksum the source does not recompute, and VLAN-tagged frames, whose tag the source reads as an IP version.
- Replayer.Replayer.ReplayFile: takes the records of a file; a missing file, a short global header and a cut-off record header end the source's run with an exception.
- Replayer.Replayer.SendPacket: cache files that cannot be created, a separate one per direction, and a record of which only a part is written; the content of a complete one is in `ReplayCache`.
- Replayer.Replayer.ModifyPacket: the cached `ip_version` and the time of a flow's first packet, which nothing reads.
- PcapFile.SortPcapByTimestamp: writing to `.sorted` and replacing the file; the model gives the content.
- Capture.StopComplete: setting up the socket, its filter and its timestamps; decoding the timestamp from the control messages.
- Protocol.Handler.Handle: failing sends and their retry, and what a dispatched command answers; whether it raises an exception is modelled.
- FlowOrientation.ExtractFlows: finding the files and their names; keys are ordered by address bytes, not text, which no result depends on.
- GET downloads, HTTP and TCP servers, process and upgrade handling, configuration, probing, and the unused statistics and buffer classes.
