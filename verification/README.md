# Link cloud storage SDK: a verified model

The repository records audio and video on a device, cuts the recording into
MPEG transport stream slices, and uploads the slices over HTTP. This project
models that pipeline in Dafny and proves what it promises.

| layer | modules |
|---|---|
| packets and tables | `MpegTs` (packetiser), `TsDemux` (a receiver written from ISO/IEC 13818-1), `Crc`, `Psi` |
| slices | `TsMux` (multiplexer), `AppendQueue` (slice buffer), `SliceRuns` and `StreamRuns` (all runs of frames), `LateBuffer` (tables that found no buffer), `StreamContents` (what a receiver gets, told from the frames pushed) |
| slice lifecycle | `TsMuxUploader`, `SliceCuts` and `SliceLog` (where slices begin and end), `SliceSpans` (what the ends report), `TsUploader`, `SessionAccounts` and `SessionTotals` (durations and sessions), `SessionUploads` and `SessionNumbers` (which slices go up, when sessions open, how slices are numbered), `SessionId` (session names), `Pipeline` (from the producer's frames to the sessions), `SlicePool` and `SliceHandover` (buffers and slices shared by three threads), `CircleQueue` (command ring) |
| HTTP | `HttpTrans` (buffered socket), `HttpResp`, `ChunkedCoding` and `HexDigits` (bodies received), `HttpReq` and `QUpload` (bodies sent), `FormReader` (a multipart reader) |
| text and hashes | `CJson` and `CJsonText`, `JsonGrammar` and `JsonAccepted` (texts written apart from parser and printer), `Base64` and `Base64Texts`, `Kmp`, `Digest` with `Sha1` and `Md5` |
| shared | `Bytes` |

Code that changes fields in place is a class whose methods are tied to a
specification function on values; what the code promises is proved about that
function over all inputs and all runs. The receiver, the chunk coding, the
multipart form and its reader, the JSON grammar, the bounded queue, the bitwise CRC, the padded hash and the
ledger of a session are independent definitions that the code is measured
against. `dafny verify dfyconfig.toml` checks everything.

Where the code does not do what a reader would expect, the project states the
exact condition and, where it helps, a failing run:

- A first video frame too short to fill its packet corrupts its own PES (`TsDemux.FrameRoundTripExact`).
- The PMT length is right only with both streams (`Psi.PmtIntactExact`).
- A slice starts without a keyframe after `LINK_NO_MEMORY` or a keyframe that was not sent (`SliceCuts.StepKeeps`, `SliceCuts.KeylessAfterNoMemory`, `SliceCuts.KeylessAfterLate`).
- A slice's stream duration is short when its first timestamp is 0 (`SliceCuts.DurationExactly`, `SliceSpans.LogReported`).
- A slice is entered in two sessions when meta data is set between its end and its upload (`SessionTotals.EnteredOnceExactly`, `SessionTotals.OthersOpenExactly`, `SessionTotals.EnteredTwice`).
- `nAccSessionDuration` of a session opened between two slices starts from the length of the uploaded slice before it (`SessionAccounts.CarriedExactly`, `SessionAccounts.CarriedOver`); the audio and video durations start from zero.
- A slice reference is lost for good when the callback queue is full or the slice is empty (`SlicePool.LossIsExact`, `SlicePool.LossLastsForever`).
- A chunked body that ends inside its final line end is accepted; any earlier cut is not (`ChunkedCoding.CutExactly`).
- A declared length is exceeded when more than the body was already buffered (`HttpResp.Resp.FinishContentLength`).
- An interrupted write drops the rest of its block (`HttpReq.SendBody`).
- Content-Length is left out when the first of the three parts is empty (`HttpReq.DeclaredLength`), and then no body is sent (`HttpReq.BodyPhase`).
- An in-memory upload whose form is longer than 1636 bytes is written past the end of its buffer (`QUpload.UploadBuffer`, `QUpload.LongToken`).
- Base64 text whose last line is full gets a line end behind it in a buffer that is longer than predicted, past the end of one that is longer by one byte (`Base64.Encode`).
- When all pool slots are taken while PAT and PMT are pushed, and one is freed before the frame, the slice is stored without them and its keyframes are indexed up to 376 bytes behind their place (`LateBuffer.IndexExactly`, `LateBuffer.TablesLostRun`).
- An empty keyframe is indexed with no bytes (`SliceRuns.EmptyKeyframe`).
- SHA-1 miscounts a piece of 2^29 bytes or more unless the low word overflows (`Sha1.CountGrows`); MD5 forgets the length of a message from 2^38 bytes on (`Md5.LengthExactly`).

## Model

| member | source | states |
|---|---|---|
| TsDemux.FrameRoundTrip | libtsuploader/mpegts.c:254-324 | a receiver written from ISO/IEC 13818-1 sections 2.4.3.2-2.4.3.6 gets back from the packets of any non-empty frame the stream id, the PTS modulo 2^33, the PCR base, and delimiter plus frame bytes, with one unit start and counters in step; a frame with a PCR must fill its first packet |
| TsDemux.FrameRoundTripExact | libtsuploader/mpegts.c:270-317 | the payload is the PES header and the frame exactly when a frame with a PCR fills its first packet |
| TsDemux.FrameParses | libtsuploader/mpegts.c:254-324 | what the receiver collects without that condition: the misplaced stuffing and nothing else comes between header and frame |
| TsDemux.PacketParses | libtsuploader/mpegts.c:254-324 | every packet of every layout, the ones a byte short of full included, parses to its PID, counter, unit start, PCR and exactly its share of the PES |
| TsDemux.PtsRoundTrip | libtsuploader/mpegts.c:185-252 | the 33 low bits of a timestamp survive the split into five bytes with marker bits |
| TsDemux.PcrRoundTrip | libtsuploader/mpegts.c:113-138 | the PCR base survives its adaptation field |
| TsDemux.PesRoundTrip | libtsuploader/mpegts.c:185-252 | the PES header parses to stream id, PTS and the bytes behind it |
| MpegTs.Pes.GetPesData | libtsuploader/mpegts.c:254-324 | draining a PES: each call fills all 188 bytes with the packet of the current position and advances by its share; zero exactly when the frame is used up |
| MpegTs.Pes.WriteHead | libtsuploader/mpegts.c:263-293 | the start of a packet, with the PES header written at once or held back exactly when the frame is shorter than its packet |
| MpegTs.Pes.WritePadded | libtsuploader/mpegts.c:300-317 | the padded packet of the last bytes: how much it takes and what it is |
| MpegTs.Pes.WritePesHeader | libtsuploader/mpegts.c:185-252 | the bytes of header and delimiter, and nothing else in the buffer, change |
| MpegTs.PacketCounter | libtsuploader/mpegts.c:332-335 | or-ing the counter into a finished packet gives the packet numbered from the start |
| Crc.TableStepIsDivision | libtsuploader/mpegts.c:5-62 | one table step equals eight steps of bit-at-a-time division, for every register and byte |
| Crc.TableIsDivision | libtsuploader/mpegts.c:5-51 | each of the 256 table entries is eight division steps of its index |
| Crc.Crc32 | libtsuploader/mpegts.c:53-62 | the loop computes the bitwise CRC of the buffer |
| Crc.ResidueIsZero | libtsuploader/mpegts.c:440-445 | a section followed by its own CRC has CRC zero |
| Psi.WritePat | libtsuploader/mpegts.c:411-448 | the PAT packet up to its stuffing |
| Psi.WritePmt | libtsuploader/mpegts.c:451-528 | the PMT packet up to the length the function returns |
| Psi.PatIsIntact | libtsuploader/mpegts.c:411-448 | the PAT parses as one intact section, length and CRC right, that maps program 1 to the PMT |
| Psi.PmtIsIntact | libtsuploader/mpegts.c:451-528 | with both streams the PMT parses as one intact section of program 1 that announces both PIDs, and the clock on the video PID |
| Psi.PmtIntactExact | libtsuploader/mpegts.c:491-527 | the reported PMT length covers the section exactly when audio and video are both present |
| TsMux.Muxer.GetPidCounter | libtsuploader/tsmux.c:32-49 | returns the counter of the PID and advances it modulo 16, no other |
| TsMux.Muxer.Output | libtsuploader/tsuploader.c:583-602 | one packet to the buffer: LINK_NO_MEMORY and nothing stored as long as none can be had, then whole or refused with zero |
| TsMux.Muxer.WriteTable | libtsuploader/tsmux.c:51-101 | PAT and PMT once a slice; whether they found a buffer is not asked, and the position counts both |
| TsMux.Muxer.SendStep | libtsuploader/tsmux.c:155-173 | one round of the packet loop keeps the relation between position, length and packets sent |
| TsMux.Muxer.MakeTsPacket | libtsuploader/tsmux.c:148-185 | all packets of the frame go out, and the index grows exactly when a keyframe was stored whole; without a buffer the frame is given up at its first packet with LINK_NO_MEMORY |
| TsMux.Muxer.MuxAudio | libtsuploader/tsmux.c:187-202 | refines the slice transition of an audio frame, result included |
| TsMux.Muxer.MuxVideo | libtsuploader/tsmux.c:204-220 | refines the slice transition of a video frame, result included |
| AppendQueue.AppendBuffer.Push | libtsuploader/queue.c:30-52 | a packet is appended whole or refused with zero and nothing changed |
| SliceRuns.RunKeepsPrefix | libtsuploader/tsmux.c:148-220 | after any frames, and however late the buffer came, it holds a whole number of packets and a prefix of those it was offered |
| SliceRuns.RunEmits | libtsuploader/tsmux.c:148-220 | each push offers exactly the packets of its frame to the buffer, or loses the first one and gives up |
| SliceRuns.IndexIsExact | libtsuploader/tsmux.c:148-185 | for non-empty frames the keyframe index is the first ten keyframes that lie wholly in the buffer, also when the buffer fills up in the middle of the run, each at its place plus the bytes of the tables that found no buffer |
| SliceRuns.EntriesAre | libtsuploader/tsmux.c:148-185 | the entries of a list of keyframes are those of the first ten that fit, in order, with timestamp modulo 2^33, place and length |
| SliceRuns.EntryIsExact | libtsuploader/tsmux.c:148-185 | in every run, empty frames included, each entry has timestamp and length of the keyframe whose push added it; that keyframe lies wholly in the buffer, as far before the offset of its entry as tables were lost |
| SliceRuns.EmptyKeyframe | libtsuploader/tsmux.c:155-183 | an empty keyframe is indexed at the current position with length zero, and changes nothing else |
| LateBuffer.EntryExactly | libtsuploader/tsmux.c:51-101 | an entry with a length names exactly the stored packets of its keyframe if and only if the PAT found a buffer |
| LateBuffer.IndexExactly | libtsuploader/tsmux.c:51-101 | all entries with a length do if and only if the PAT found a buffer, or there are none |
| LateBuffer.PrefixExactly | libtsuploader/tsmux.c:51-101 | the stored bytes are a prefix of all packets sent if and only if the PAT found a buffer, or nothing is stored |
| LateBuffer.TablesLostRun | libtsuploader/tsmux.c:75-99 | a run in which a slot is freed after the PAT or both tables were refused: the push of the keyframe succeeds, the keyframe lies at 188 or 0 and is indexed at 376 |
| LateBuffer.PacketsDiffer | libtsuploader/tsmux.c:32-49 | no two packets of a slice less than sixteen apart are equal, whatever their PIDs |
| LateBuffer.ResultTellsBuffer | libtsuploader/tsmux.c:187-220 | a frame whose push succeeds has found a buffer; one whose push fails leaves nothing stored |
| SliceRuns.RangeIsExact | libtsuploader/tsuploader.c:1255-1268 | the byte range of a keyframe that lies within the stored slice is exactly its packets |
| StreamRuns.StreamIsSeparate | libtsuploader/tsmux.c:32-49 | whatever the interleaving, the packets of a PID are those of its own frames that found a buffer, numbered in a circle of 16 without a gap, from the number of packets lost before on |
| StreamRuns.StreamRoundTrip | libtsuploader/tsmux.c:148-220 | the receiver of one PID gets every frame's PES in order |
| StreamRuns.RunRoundTrip | libtsuploader/tsmux.c:148-220 | both together for the packets the buffer was offered, for any run whose first video frame there fills its packet if it carries the PCR |
| StreamRuns.StoredRoundTrip | libtsuploader/tsmux.c:148-220 | the same for the bytes stored and uploaded, also when the buffer was full in the middle of a frame: cut into packets they parse with unbroken counters, and give every frame of the stream that lies in them whole, in order, then at most a part of one more |
| StreamRuns.PrefixRoundTrip | libtsuploader/queue.c:30-52 | the packets of one PID cut off anywhere |
| StreamRuns.PcrOnce | libtsuploader/tsmux.c:204-216 | only the first video frame of a slice carries a PCR |
| StreamContents.UnitsAreEvents | libtsuploader/tsmux.c:187-220 | what a receiver gets from the stored bytes, told from the frames pushed: the k-th unit of a PID is the k-th non-empty frame of that stream whose push did not fail, with PTS 90 * ms modulo 2^33, stream id 0xE0, 0xC0 for AAC or 0xBD for G.711, and its data, behind a start code and an access unit delimiter for video; only the last may be cut, when the buffer was full |
| StreamContents.StreamsAreAnnounced | libtsuploader/mpegts.c:64-112 | tables and units agree: the stream id on the audio PID is in 0xC0..0xDF exactly when type 0x0f is announced and 0xBD exactly when 0x06 is; the delimiter on the video PID has NAL type 9 under 0x1b and 35 under 0x24 |
| StreamContents.StartsWithTables | libtsuploader/tsmux.c:51-101 | a slice that had its buffer at once starts with a PAT that maps to the PID of the second packet, a PMT that announces the two streams on their PIDs with the types of the formats |
| StreamContents.LawIsAnnounced | libtsuploader/mpegts.c:491-527 | a G.711 stream is announced with a descriptor of its law and sample rate |
| StreamContents.PcrExactly | libtsuploader/tsmux.c:204-216 | of the stored packets only the first on the video PID can have a PCR, the time of its frame, and it has one exactly when the first video frame pushed was sent |
| SlicePool.StepKeepsInv | libtsuploader/tsuploader.c:604-676 | every action of producer, uploader and callback worker keeps the invariant on counts, slots and cache number; which slices are dropped is stated by `SliceHandover.DroppedExactly` |
| SlicePool.NoUseAfterFree | libtsuploader/queue.c:374-425 | in every interleaving whatever a thread or queue refers to is allocated, in a slot marked used |
| SlicePool.QueuedSlicesAreAllocated | libtsuploader/tsuploader.c:902-918 | a worker that pops a slice finds its buffer |
| SlicePool.CountCoversHolders | libtsuploader/queue.c:374-425 | a reference count is never below the number of holders, and equals it exactly when no reference of that buffer was lost |
| SlicePool.LossIsExact | libtsuploader/tsuploader.c:655-668 | a reference is lost in exactly two ways: a full callback queue, or an empty slice at the callback worker |
| SlicePool.LosslessCountsExact | libtsuploader/tsuploader.c:655-668 | with pushes that succeed and slices that are not empty every count is its number of holders |
| SlicePool.LossLastsForever | libtsuploader/tsuploader.c:151-170 | a lost reference keeps its pool slot in use in every continuation |
| SlicePool.SlotHasOneOwner | libtsuploader/tsuploader.c:122-170 | a pool slot is marked used exactly while one buffer owns it |
| SlicePool.CacheNumberIsPending | libtsuploader/tsuploader.c:544-548 | nTsCacheNum is the number of uploads queued or in progress, between 0 and the limit, except between a push and its counting |
| SlicePool.FreedBetweenPushes | libtsuploader/tsuploader.c:583-594 | with all slots taken a push finds no buffer, and the next one does once the callback worker has freed a slot |
| SlicePool.FreeSlot | libtsuploader/tsuploader.c:122-149 | the first slot not in use, none only if all are |
| SliceHandover.DroppedExactly | libtsuploader/tsuploader.c:604-676 | over every interleaving, recorded from the queues and the pending uploads alone: a slice handed over is dropped if and only if MAX_CACHE uploads were pending when it was announced or the command queue was full at its end or its upload; otherwise its end and, directly behind it, its upload are pushed |
| SliceHandover.UploadsInOrder | libtsuploader/tsuploader.c:902-966 | uploads accepted are those the worker has taken, then those queued, in order; each is counted up once and down once, and nTsCacheNum is the difference |
| SliceHandover.CallbacksInOrder | libtsuploader/tsuploader.c:655-668 | every slice handed over is offered to the callback worker, dropped or not, which gets in order those there was room for |
| SliceHandover.HandOverEnds | libtsuploader/tsuploader.c:604-676 | from every reachable state with a slice the nine actions of the producer come to their end, and the slice is decided on and passed on |
| SliceHandover.ProducerGoesOn | libtsuploader/tsuploader.c:604-676 | where each action takes the producer, and that no action of another thread moves it |
| SliceHandover.WorkersGoOn | libtsuploader/tsuploader.c:902-966 | the same for the two workers |
| SliceHandover.WorkersEnd | libtsuploader/tsuploader.c:902-966 | from every reachable state a worker finishes the slice it holds |
| SliceHandover.AppendGrows | libtsuploader/tsuploader.c:583-602 | a push finds the current buffer, or a new one exactly when a slot is free, and its bytes are counted there |
| CJson.RoundTrip | deps/cJSON/cJSON.c:286-301 | parse_value after print_value gives back every tree of int numbers, NUL-free strings and named members, at any depth, formatted or not, whatever follows that does not extend a number |
| CJson.PrintThenParse | deps/cJSON/cJSON.c:256-268 | cJSON_Parse after cJSON_Print or cJSON_PrintUnformatted |
| CJson.StringRoundTrip | deps/cJSON/cJSON.c:147-240 | every NUL-free byte string survives escaping |
| CJson.NumberRoundTrip | deps/cJSON/cJSON.c:100-143 | every int survives its decimal form, whatever follows that does not extend a number |
| CJson.ItemsRoundTrip | deps/cJSON/cJSON.c:304-380 | the items of an array |
| CJson.MembersRoundTrip | deps/cJSON/cJSON.c:383-474 | the members of an object, through indentation and line ends |
| JsonGrammar.TextParses | deps/cJSON/cJSON.c:271-474 | every text of the JSON grammar, written down apart from parser and printer, with any white space, short escapes and code units in digits of either case, parses to what it means, whatever follows that does not extend a number |
| JsonGrammar.PrintedIsText | deps/cJSON/cJSON.c:207-474 | every printed text, formatted or not, is a text of that grammar for its tree |
| JsonGrammar.StringMeans | deps/cJSON/cJSON.c:147-204 | the bytes a string decodes to are, spelling by spelling, the ones it means: a UTF-8 reader gives every code unit back that is no surrogate and not zero |
| JsonGrammar.StringParses | deps/cJSON/cJSON.c:147-204 | a quoted string in any spelling parses to those bytes |
| JsonGrammar.Utf8Reads | deps/cJSON/cJSON.c:184-190 | a reader written from RFC 3629 gets back from the bytes of a code unit the code unit |
| JsonAccepted.ValueTaken | deps/cJSON/cJSON.c:271-474 | what parse_value takes is a text of the value it gives and ends where that text ends: by a grammar written down apart, with the liberties the code takes, which are control characters as white space or as they are in a string, any character behind a backslash, numbers with a zero in front or no digits, and at the very end of the text a string left open |
| JsonAccepted.ParsedIsText | deps/cJSON/cJSON.c:256-264 | cJSON_Parse takes nothing but white space, such a text, and whatever follows |
| JsonAccepted.CharTaken | deps/cJSON/cJSON.c:157-200 | each character taken in a string is plain, escaped or a code unit, and stands for the bytes stored |
| CJsonText.PrintStringPtr | deps/cJSON/cJSON.c:207-240 | the two passes: the text fits the length counted before it is written |
| CJsonText.CountChars | deps/cJSON/cJSON.c:152-152 | the skipping loop counts an escape as one |
| CJsonText.CharFits | deps/cJSON/cJSON.c:147-204 | no decoded character needs more room than was counted for it |
| CJsonText.CopyChars | deps/cJSON/cJSON.c:157-200 | the decoding loop stays within the counted length and computes the string |
| CJsonText.ComposeArray | deps/cJSON/cJSON.c:332-380 | the array text is composed within the length computed first |
| CJsonText.ComposeObject | deps/cJSON/cJSON.c:419-474 | the object text is composed within the length computed first |
| CJsonText.ItemsFit | deps/cJSON/cJSON.c:348-353 | the entries of an array are never longer than their counted length |
| CJsonText.MembersFit | deps/cJSON/cJSON.c:437-444 | the members of an object are never longer than their counted length |
| CJsonText.PrintValueText | deps/cJSON/cJSON.c:286-301 | the printer in buffers computes the specified text |
| CJsonText.PrintArrayText | deps/cJSON/cJSON.c:332-380 | the array printer, entries first |
| CJsonText.PrintObjectText | deps/cJSON/cJSON.c:419-474 | the object printer, names and entries first |
| CJsonText.ParseValueText | deps/cJSON/cJSON.c:271-283 | the dispatching parser computes the specified parse |
| CJsonText.ParseArrayText | deps/cJSON/cJSON.c:304-329 | the loop over items builds the list the specification gives, or fails where it fails |
| CJsonText.ParseObjectText | deps/cJSON/cJSON.c:383-416 | the loop over members |
| HttpTrans.Conn.ReadIntoBuf | libghttp/http_trans.c:605-700 | one read moves bytes from the stream to the buffer and loses none; done, unfinished, end and error are told apart |
| HttpTrans.Conn.WriteBuf | libghttp/http_trans.c:708-786 | one write sends the next bytes and says how many are left; an interrupted one sends nothing and counts as done, as does one that takes nothing after an interruption |
| HttpTrans.Conn.BufClip | libghttp/http_trans.c:801-815 | drops exactly the first bytes |
| HttpTrans.Conn.BufReset | libghttp/http_trans.c:788-799 | an empty buffer |
| HttpTrans.Conn.BufHasPatt | libghttp/http_trans.c:817-831 | finds the first occurrence of the pattern, if any |
| HttpTrans.Conn.AppendDataToBuf | libghttp/http_trans.c:590-603 | the data is appended, the buffer grown if needed |
| HttpTrans.FindPattExtends | libghttp/http_trans.c:817-831 | more bytes at the end do not move the first occurrence |
| HttpResp.ReadChunkSize | libghttp/http_resp.c:511-533 | the two loops compute the hexadecimal size of a header line, -1 without a digit |
| HttpResp.ReadChunk | libghttp/http_resp.c:481-567 | one call keeps what the stream still decodes to, whatever the socket split, or has the last header consumed, or reports a stream that cannot be decoded |
| HttpResp.Resp.ReadBodyChunked | libghttp/http_resp.c:569-627 | done means the body is the decoded content and the rest of the stream is untouched; unfinished means body and stream still decode to the same; an error means a failed socket or a stream that does not decode |
| HttpResp.Resp.FinishChunked | libghttp/ghttp.c:443-550 | any number of re-entries ends with the decoded content or an error for a reason |
| ChunkedCoding.ChunkedRoundTrip | libghttp/http_resp.c:481-627 | every body coded as RFC 7230 section 4.1 has it, sizes spelled by place in the two digit alphabets, extensions included, decodes to the concatenated chunk data |
| ChunkedCoding.HeaderSize | libghttp/http_resp.c:511-533 | a header line with a number in base 16, in characters of 0123456789abcdef or 0123456789ABCDEF by their place, leading zeros allowed, and any extension, is read as that number |
| HexDigits.TextSpells | libghttp/http_resp.c:526-532 | the digits of a number written by an encoder in either alphabet, behind any zeros, spell that number |
| ChunkedCoding.CutExactly | libghttp/http_resp.c:603-617 | a coded body cut short decodes exactly when the cut leaves the header of the last chunk whole: never inside a chunk |
| ChunkedCoding.DecodeExtends | libghttp/http_resp.c:481-627 | what is decoded stays decoded when more bytes arrive |
| HttpResp.Resp.FlushResponseBody | libghttp/http_resp.c:629-650 | the buffer becomes the body and the old body counts as flushed; shown and unread bytes together stay the same |
| HttpResp.Resp.ReadBodyContentLength | libghttp/http_resp.c:652-688 | flushed, body and buffered lengths add up to the bytes received; done means exactly the declared length was shown, or what had arrived beyond it before |
| HttpResp.Resp.FinishContentLength | libghttp/http_resp.c:645-688 | with flushes at any points the bodies shown concatenate to the front of the stream, of the declared length exactly when no more than that was buffered at the start |
| HttpReq.DeclaredLength | libghttp/http_req.c:96-107 | the Content-Length header is set exactly when the first part is not empty, and names the bytes of all three |
| HttpReq.SendBlock | libghttp/http_req.c:284-305 | one block goes out whole unless a write failed, took nothing or was interrupted |
| HttpReq.SendBody | libghttp/http_req.c:256-309 | the connection's buffer fields are restored on every exit; success put body, body1 and body2 on the wire once each in order exactly when no write was interrupted; otherwise a prefix went out as long as none was |
| HttpReq.BodyPhase | libghttp/http_req.c:230-309 | without a Content-Length header there is no body phase: success then means the wire has the three parts only if they are empty; with one it is the above |
| HttpReq.RestoreConn | libghttp/http_req.c:122-128 | the saved fields come back |
| QUpload.FormBuffer.Concat | libghttp/qupload.c:49-53 | the bytes are appended; a write past the end of the buffer is noticed by the model, not by the code |
| QUpload.FormBuffer.AddFormField | libghttp/qupload.c:67-127 | the length it adds is the number of bytes it writes, and those are the field's |
| QUpload.BuildForm | libghttp/qupload.c:181-256 | no write leaves the buffer exactly when the whole form is no longer than it; then it holds the form, and the file's bytes belong where the function says |
| QUpload.FormLength | libghttp/qupload.c:196-256 | the length of a form, argument by argument |
| QUpload.LongToken | libghttp/qupload.c:181-181 | with the 40 bytes of boundary the code makes, a token of 1404 bytes alone takes 1637 bytes of the 1636 |
| QUpload.FormIsMultipart | libghttp/qupload.c:196-256 | the assembled form is a multipart body as RFC 2046 section 5.1.1 has it |
| QUpload.BufferModeIsFileMode | libghttp/qupload.c:240-276 | the three parts of an in-memory upload in a row are the single-buffer form with the file in place |
| FormReader.FormReads | libghttp/qupload.c:67-127 | a multipart reader written apart from the writer gets every field of a form back with name, value and type, as long as no name breaks its line and no value holds the delimiter |
| FormReader.ArgumentsRead | libghttp/qupload.c:196-256 | that reader finds in an upload form the token under "token", then the key, if there is one, under "key", each meta and magic pair under its name, and the file with its type under "file" |
| QUpload.UploadBuffer | libghttp/qupload.c:158-278 | an in-memory upload stays inside its 1636 bytes exactly when its arguments add up to no more; then the request is the multipart form with the file in place, its Content-Length parses to the number of its bytes, and a successful body phase put exactly those on the wire exactly when no write was interrupted |
| SliceCuts.StepKeeps | libtsuploader/tsmuxuploader.c:490-658 | every call keeps the invariant; a keyframe counted for a slice stays in one exactly when the call is not one of the named breaking calls |
| SliceCuts.EveryRun | libtsuploader/tsmuxuploader.c:223-257 | over every run of frames with non-negative timestamps, pauses, flushes and reconfigurations: starts and ends alternate, each end reports its slice, whose streams ascend in time, and every keyframe added to a slice is no further past its first frame than the slice length in force at that keyframe |
| SliceCuts.StepSpaced | libtsuploader/tsmuxuploader.c:519-531 | a keyframe that a call adds to a slice is within the slice length in force |
| SliceCuts.RunKeyFirst | libtsuploader/tsmuxuploader.c:547-658 | without a breaking call every slice starts with a video keyframe |
| SliceCuts.BrokenStartsWithAudio | libtsuploader/tsmuxuploader.c:618-658 | after a breaking call the next audio frame starts a slice without a keyframe |
| SliceCuts.KeylessAfterNoMemory | libtsuploader/tsmuxuploader.c:610-613 | a run in which a slice starts without the keyframe for which there was no buffer |
| SliceCuts.KeylessAfterLate | libtsuploader/tsmuxuploader.c:371-374 | a run in which a keyframe that does not advance is counted for the slice it was to start |
| SliceCuts.NegativeStartsAgain | libtsuploader/tsmuxuploader.c:387-390 | a timestamp below zero leaves its slice open and unmarked, so it is started again |
| SliceCuts.ForcedStart | libtsuploader/tsmuxuploader.c:515-541 | a slice start asked for on a keyframe always begins a slice, on any other frame it never does |
| SliceCuts.DurationExactly | libtsuploader/tsmuxuploader.c:391-403 | the duration an end reports for a stream is the true one except when its first timestamp is 0 and its last is not |
| SliceCuts.CheckSwitchKeeps | libtsuploader/tsmuxuploader.c:490-545 | the check ends a slice exactly when the cut condition says, and leaves none that is too long for the keyframe; the condition itself is stated on the calls by `SliceLog.LengthCutsExactly` and `SliceLog.EndCauses` |
| SliceLog.LogExactly | libtsuploader/tsmuxuploader.c:490-658 | over every run of frames, pauses, flushes and reconfigurations, what a call adds to the log is a function of the calls and the log before it, stated without the fields of the producer |
| SliceLog.LengthCutsExactly | libtsuploader/tsmuxuploader.c:518-521 | a keyframe with unchanged parameter sets, no slice asked for and memory left, ends a slice if and only if it is more than the slice length in force past the first frame of the slice |
| SliceLog.EndCauses | libtsuploader/tsmuxuploader.c:223-257 | every end comes from a pause, a flush, a keyframe that is too late, that changes the parameter sets or that was asked to start a slice, or a frame muxed without memory, each with a slice under way |
| SliceLog.FramesExactly | libtsuploader/tsmuxuploader.c:299-408 | a frame is in the log exactly when the call muxed it with success: not paused, a keyframe counted, its timestamp ahead; its frame comes behind all else the call adds |
| TsMuxUploader.Uploader.Video | libtsuploader/tsmuxuploader.c:547-616 | PushVideo as a transition of the specified state, branch by branch |
| TsMuxUploader.Uploader.Audio | libtsuploader/tsmuxuploader.c:618-658 | PushAudio as a transition of the specified state |
| TsMuxUploader.Uploader.PushFrame | libtsuploader/tsmuxuploader.c:299-408 | push: dropped, failed, or reported and counted into its slice |
| TsMuxUploader.Uploader.SwitchAtKeyframe | libtsuploader/tsmuxuploader.c:490-545 | checkSwitch as a transition of the specified state |
| TsMuxUploader.Uploader.EndSlice | libtsuploader/tsmuxuploader.c:232-257 | switchTs: an end report with the durations of the slice, if one is under way, and all times reset |
| TsMuxUploader.Uploader.PauseUpload | libtsuploader/tsmuxuploader.c:1412-1429 | pausing ends the slice |
| TsMuxUploader.Uploader.FlushUploader | libtsuploader/tsmuxuploader.c:1480-1493 | flushing ends the slice |
| SessionAccounts.AccountsAreExact | libtsuploader/tsuploader.c:726-840 | for every order of commands in which each end has its upload or drop before the next start: once settled, accumulated durations are those of the slices uploaded in the session, and total minus accumulated those lost, also when a session begins between end and upload; nLastTsDuration is the length of the slice settled last |
| SessionAccounts.StepKeepsBooks | libtsuploader/tsuploader.c:770-864 | each command keeps the books, with a slice under way or not |
| SessionAccounts.CarriedExactly | libtsuploader/tsuploader.c:743-750 | after every settled run nAccSessionDuration is the length of the slices uploaded in the session exactly when the session was opened while a slice was under way, as the first one, or after a slice that was lost or had no length |
| SessionUploads.UploadedExactly | libtsuploader/tsuploader.c:385-389 | over every ordered run a slice is settled as uploaded, and its durations stay accumulated, if and only if it has bytes, was accepted, and the plan set last is 1, or is 0 with meta data still held: set by some command before, not replaced, not used up as one-shot, not forgotten at a start after a clear; otherwise it is lost and taken out |
| SessionUploads.OpensByCommands | libtsuploader/tsuploader.c:1027-1066 | which commands open a session, told from the commands before: session commands, the first change of meta data during a slice, forced starts, and starts that come too late |
| SessionUploads.RunFlags | libtsuploader/tsuploader.c:1027-1066 | over every run plan, meta data, one-shot and force flags are what the commands before say |
| SessionNumbers.ReasonExactly | libtsuploader/tsmuxuploader.c:856-940 | the end reason kept: 3 when forced, else 1 for a session too long, 2 for a pause too long |
| SessionNumbers.SlicesAreNumbered | libtsuploader/tsuploader.c:795-803 | slices of a session are numbered one by one, accepted or not |
| SessionNumbers.CountsFromOne | libtsuploader/tsuploader.c:484-521 | the k-th slice of a session that opened with its first gets number k |
| SessionNumbers.StartReports | libtsuploader/tsuploader.c:770-806 | over every run a start that opens a session adds its end and start to what is to be reported; any other adds a new slice when nothing else was |
| SessionAccounts.CarriedOver | libtsuploader/tsuploader.c:743-750 | from any settled state: a slice uploaded before a forced session counts a second time in it |
| SessionAccounts.StartWhilePending | libtsuploader/tsuploader.c:770-771 | a start between an end and its upload loses the slice from the session it opens, unless the slice had no duration |
| SessionAccounts.RotationExactly | libtsuploader/tsmuxuploader.c:901-913 | a slice begins a new session exactly when it starts too long after the session or after the last check |
| SessionAccounts.StepInTime | libtsuploader/tsmuxuploader.c:856-940 | after every command nSegmentId_ is the session start, the name is that of the start, a session end has a reason, and a slice starts in time |
| SessionAccounts.RotationInTime | libtsuploader/tsmuxuploader.c:856-940 | over every run: no slice starts later in its session than session duration plus previous slice length, nor later than timeout plus that length after the last check |
| SessionTotals.ConsecutiveStarts | libtsuploader/tsmuxuploader.c:901-913 | two starts in a row without a session closed in between or by the second are closer than timeout plus slice length |
| SessionTotals.StepConserves | libtsuploader/tsuploader.c:726-864 | a command adds what it brings to the total fields of all sessions, and the slice under way once more when it opens a session; to the accumulated fields the same, less what it finds lost |
| SessionTotals.RunConserves | libtsuploader/tsuploader.c:726-864 | over every ordered run nTotalSessionAudio/VideoDuration of all sessions, as each was when it closed or is now, add up to the durations the commands brought, plus those of a slice once for every session opened while it was under way; the accumulated fields to the same less what was lost |
| SessionTotals.RunEntersOnceExactly | libtsuploader/tsuploader.c:743-750 | the total fields of all sessions add up to the durations brought exactly when no session was opened while a slice with a duration was under way |
| SessionTotals.EnteredOnceExactly | libtsuploader/tsuploader.c:743-750 | one slice, with any commands between its end and its upload, is entered once and once more for every session opened in between: so once if and only if none is opened or it has no duration |
| SessionTotals.OpensExactly | libtsuploader/tsmuxuploader.c:856-940 | a command closes a session exactly when it is a session command, a change of meta data that forces one, or a start that was asked to or comes too late |
| SessionTotals.OthersOpenExactly | libtsuploader/tsuploader.c:1027-1064 | among commands of other threads only meta data set before any is cleared opens a session, and only with a slice in the session and nothing forced before |
| SessionTotals.OnceUnlessMetaIsSet | libtsuploader/tsuploader.c:1027-1064 | the same as a condition on the state before the end: with any commands of other threads in between, the slice is entered once if and only if it has no duration, a session was forced before, no slice of the session is counted, or none of them sets meta data before one clears it |
| SessionTotals.EnteredTwice | libtsuploader/tsuploader.c:743-750 | from any settled state with a slice in its session: meta data set between the end of a slice and its upload leaves the slice in the total and accumulated duration of both sessions |
| SessionTotals.FirstSliceTwice | libtsuploader/tsuploader.c:1036-1043 | a run from the start of the worker in which the first slice is entered twice |
| SessionAccounts.ForcedAtSliceStart | libtsuploader/tsuploader.c:1036-1043 | meta data set while a slice is under way moves that slice, durations included, to a session that starts with it |
| Pipeline.ReportsAreOrdered | libtsuploader/tsuploader.c:604-718 | the reports of the producer, pushed as commands and merged in any way with those of other threads, reach the worker in the order its books need, and announce what the ends say |
| SliceSpans.EndsSaySlices | libtsuploader/tsmuxuploader.c:232-257 | in every well-cut log the ends say, taken together, the durations of the frames of their slices, measured from the first positive timestamp |
| SliceSpans.LogReported | libtsuploader/tsmuxuploader.c:391-403 | those never exceed the true lengths of the streams, and are them exactly when no stream of a slice starts at timestamp 0 and goes on |
| Pipeline.DurationsArrive | libtsuploader/tsuploader.c:604-718 | end to end: for every run of the producer, every fate of its slices and every merge with other commands, the total fields of all sessions add up to the durations of the frames of the slices, plus a slice once more per session opened over it; exactly the reported ones iff no session was opened over a slice with a duration, and the true ones iff no stream goes on from timestamp 0 |
| TsUploader.Uploader.LinkUpdateSessionId | libtsuploader/tsuploader.c:726-754 | a new session takes over the slice under way |
| TsUploader.Uploader.NewSession | libtsuploader/tsmuxuploader.c:820-854 | handNewSession: session, segment id and last check move together |
| TsUploader.Uploader.Check | libtsuploader/tsmuxuploader.c:856-940 | updateSegmentId as a transition of the specified state |
| TsUploader.Uploader.HandleTsStartTimeReport | libtsuploader/tsuploader.c:770-806 | a start: forced session, then the session check |
| TsUploader.Uploader.HandleTsEndTimeReport | libtsuploader/tsuploader.c:820-840 | an end adds its durations to accumulated, total and gap |
| TsUploader.Uploader.RestoreDuration | libtsuploader/tsuploader.c:808-818 | a lost slice is taken out of accumulated and gap |
| TsUploader.Uploader.UploadBuffer | libtsuploader/tsuploader.c:327-550 | an upload settles the slice under way and closes its scopes; when it goes out is stated on the commands by `SessionUploads.UploadedExactly` |
| TsUploader.Uploader.HandleSetMeta | libtsuploader/tsuploader.c:1027-1050 | meta data forces a session now, at the next start, or not again |
| TsUploader.Uploader.HandleClrMeta | libtsuploader/tsuploader.c:1051-1064 | clearing meta data forces a session at the next start |
| TsUploader.Uploader.Handle | libtsuploader/tsuploader.c:970-1072 | one pass of the worker loop is one step of the specification |
| SessionId.NameRoundTrip | libtsuploader/tsuploader.c:726-734 | a session name with its pads put back decodes to the start of the session in milliseconds |
| SessionId.NamesDiffer | libtsuploader/tsuploader.c:726-734 | sessions that start in different milliseconds have different names |
| SessionId.MakeName | libtsuploader/tsuploader.c:726-734 | the name of every 64-bit nanosecond count fits its buffer, and the loop cuts off exactly the pads |
| CircleQueue.Ring.Push | libtsuploader/queue.c:54-124 | the ring over the byte buffer takes, refuses or overwrites as the bounded queue does |
| CircleQueue.Ring.Pop | libtsuploader/queue.c:171-245 | the ring gives the first bytes of the oldest item and keeps the rest in place |
| CircleQueue.Ring.constructor | libtsuploader/queue.c:297-358 | an empty ring of the asked size |
| CircleQueue.Ring.StopPush | libtsuploader/queue.c:261-277 | only reading is left |
| CircleQueue.RunIsFifo | libtsuploader/queue.c:54-245 | over every run without overwriting: bytes read, then bytes stored, are the bytes accepted in order, and push minus pop statistics are the bytes stored |
| CircleQueue.StepIsFifo | libtsuploader/queue.c:54-245 | the same for one operation, reading in parts included |
| CircleQueue.OverwriteDropsOldest | libtsuploader/queue.c:64-124 | a full ring drops exactly its oldest item if and only if it still takes items, timed out or not; it then answers every later pop with an error, and its statistics are off exactly when the item had bytes |
| CircleQueue.FillsUp | libtsuploader/queue.c:54-124 | an open queue of fixed length takes as many items as there is room for, in order, and answers Q_OVERFLOW from then on |
| CircleQueue.DrainsDown | libtsuploader/queue.c:171-245 | pops with room give all items, in order; one more ends at once when the queue is stopped, else by timing out |
| CircleQueue.ClosedExactly | libtsuploader/queue.c:54-124 | a queue that was stopped, or timed out for good, takes nothing and counts what it drops |
| Kmp.Matcher.Init | libtsuploader/kmp.c:5-41 | the table holds the longest proper border of every prefix; -1 and -2 for patterns too short and too long |
| Kmp.Matcher.FindPatternIndex | libtsuploader/kmp.c:43-64 | the first occurrence; -1 exactly for a text shorter than the pattern, -2 when there is none |
| Kmp.NextCandidate | libtsuploader/kmp.c:31-33 | falling back along the table misses no border |
| Kmp.CandidateFits | libtsuploader/kmp.c:27-30 | a matching byte makes the longest border one longer |
| Kmp.Mismatch | libtsuploader/kmp.c:54-60 | a shift by the table skips no occurrence |
| Sha1.Context.Update | deps/hmac_sha1/hmac_sha1.c:345-364 | the message grows by the data however it is split; the 64-bit count stays right exactly when the piece is below 2^29 bytes or the low word overflows |
| Sha1.CountGrows | deps/hmac_sha1/hmac_sha1.c:350-353 | the two counter lines: the low word always, the high word exactly then |
| Sha1.Context.Final | deps/hmac_sha1/hmac_sha1.c:372-401 | the padding loop ends, and the digest is that of the padded message of FIPS 180-1 section 4 when the count is right |
| Sha1.HashPieces | deps/hmac_sha1/hmac_sha1.c:345-401 | any split into pieces below 2^29 bytes hashes like the message in one piece |
| Sha1.PaddingSays | deps/hmac_sha1/hmac_sha1.c:372-401 | the last eight bytes of the padded message are its bits counted, most significant byte first |
| Sha1.InitCounts | deps/hmac_sha1/hmac_sha1.c:327-336 | the initial words are those of FIPS 180-1 section 7 |
| Sha1.HmacSha1 | deps/hmac_sha1/hmac_sha1.c:23-81 | the keyed hash of RFC 2104 section 2 for every key and data whose lengths are counted right, as all below 2^29 bytes are; -1 and an untouched buffer for one shorter than a digest |
| Digest.FoldAppend | deps/hmac_sha1/hmac_sha1.c:345-364 | compressing block by block over two calls is compressing over both |
| Digest.WordOfBytes | deps/hmac_sha1/hmac_sha1.c:393-396 | the stored bytes of a word determine it, in either order |
| Digest.PaddedReads | deps/hmac_sha1/hmac_sha1.c:372-401 | the padded message is the message, a one bit, the fewest zeros, and the length, in whole blocks |
| Md5.Context.Write | demo/ota/md5.c:227-255 | the message grows by the input however it is split |
| Md5.Context.Final | demo/ota/md5.c:269-332 | the padding ends, and the digest is that of the padded message of RFC 1321 with the length the block count remembers |
| Md5.LengthWordsAre | demo/ota/md5.c:277-292 | the length words are the bit count of the message modulo 2^38 bytes |
| Md5.LengthExactly | demo/ota/md5.c:277-292 | that is the true length exactly when the block count turned over a multiple of 2^23 times, as for every message under 2^38 bytes |
| Md5.HashPieces | demo/ota/md5.c:227-332 | any split of a message under 2^38 bytes hashes like the message in one piece |
| Md5.PaddingSays | demo/ota/md5.c:269-332 | the last eight bytes of the padded message are its bits counted, least significant byte first |
| Md5.InitCounts | demo/ota/md5.c:50-60 | the initial words are those of RFC 1321 section 3.3 |
| Base64.Encode | deps/b64/b64.c:120-251 | a buffer of exactly the predicted size is filled to its last byte with the wrapped text, a shorter one is refused untouched, and in a longer one a line end follows the text exactly when the last line is full |
| Base64.DecodeText | deps/b64/b64.c:256-439 | the decoding loop computes the specified bytes, or names the first character that stops it |
| Base64.Base64RoundTrip | deps/b64/urlsafe_b64.c:120-439 | in both alphabets, for every line length and strictness, decoding undoes encoding |
| Base64.TotalIsLength | deps/b64/b64.c:131-141 | the predicted length is the length of the wrapped text |
| Base64.WrapLine | deps/b64/b64.c:210-216 | lines of exactly the line length with a line end between them and none at the end |
| Base64.IndexOfChar | deps/b64/urlsafe_b64.c:268-300 | the decoding table inverts the alphabet |
| Base64.CharactersAre | deps/b64/urlsafe_b64.c:129-129 | the encoding tables are the two alphabets of RFC 4648, by place |
| Base64Texts.EncodedDigits | deps/b64/b64.c:144-216 | each character of the encoded text: the digit of base 64, in the characters of RFC 4648 by place, of the 24 bits of its group at its place, or a pad exactly behind the last byte |
| Base64Texts.BadExactly | deps/b64/b64.c:363-407 | the decoder reports the first character that is no digit, pad or line end and that the flags, for white space and for others, say to stop at; a text without pads is decoded exactly when it has none |
| Base64Texts.KeptDecodes | deps/b64/b64.c:363-407 | what is skipped makes no difference |
| Base64Texts.EncodesBack | deps/b64/b64.c:409-435 | encoding undoes decoding of whole groups of digits |

## Left out

- Sockets, TLS, DNS, files, clocks, sleeps and logging: sizes and outcomes of reads and writes, times, and upload results are inputs.
- Integer widths: lengths and times are unbounded integers except the 32-bit hash counters; a chunk size from 2^31 on, or a form length above INT_MAX, overflows in the code. `SessionId.MakeName` takes times of 63 bits.
- TsMux.Muxer.Output: the only negative result is LINK_NO_MEMORY, and after how many pushes there is a buffer is an input (`SlicePool.FreedBetweenPushes` shows how a slot comes free in between); other errors of creating a queue are not modelled. After a push that failed the producer starts a new slice, which is a new run with an empty buffer (`LateBuffer.ResultTellsBuffer`).
- SliceRuns.IndexIsExact: frames are not empty; `SliceRuns.EntryIsExact` has no such condition. Empty frames, and with them `SliceRuns.EmptyKeyframe`, only come from callers below LinkPushVideo and LinkPushAudio, which refuse them (libtsuploader/tsuploaderapi.c:145, 155).
- Psi.WritePmt: private-data descriptors only as the code writes them for G.711 audio; the SDT is never sent and not modelled.
- MpegTs.Pes.WritePesHeader: an audio frame that does not fit the 16-bit PES length field, which the code asserts away.
- SlicePool.StepKeepsInv: handing over a slice without a buffer, where the code would follow a NULL queue, is no action: an end is only reported once a push of the slice has succeeded, and a non-empty frame that succeeds has its buffer (`LateBuffer.ResultTellsBuffer`). The critical sections of the three threads are transitions on a value, not methods on objects; queues are at their full capacity of commands but command contents other than the slice are dropped; the quit path and the destruction of the uploader are not modelled.
- SlicePool.CacheNumberIsPending: the limit is two slices, the value the code sets.
- CJson.RoundTrip: fractions, exponents, surrogate pairs, `\u` escapes of fewer than four digits and a backslash at the very end of a text make the modelled parser give up (`None`) where the code goes on; out of memory, a NULL name or string, and an array without items on a platform whose `malloc(0)` is NULL are not modelled.
- JsonGrammar.TextParses: numbers are integers and code units are neither zero nor surrogates, as for `CJson.RoundTrip`.
- JsonAccepted.ValueTaken: says what is taken, not that every text with one of those liberties is; that all texts without them are is `JsonGrammar.TextParses`.
- FormReader.ArgumentsRead: arguments that hold a quote or line end in a name, or the delimiter in a value, are left to `QUpload.FormIsMultipart`, which has no such condition; the writer neither escapes nor checks them.
- CJsonText.ParseArrayText: the list is built by appending to a sequence and linked at the end; the code links each node as it goes.
- HttpResp.Resp.ReadBodyChunked: a flush in the middle of a chunked body, which throws away coded bytes, is not modelled; the line end after the last chunk is left in the buffer as in the code.
- HttpResp.Resp.FinishContentLength: bodies without a declared length, read until the peer closes, and the parsing of response headers are not modelled.
- HttpReq.SendBody: the block handed to the socket is a copy, where the code points into the caller's buffer; request line and headers, the time budget, and the asynchronous mode, which sends no body, are not modelled.
- QUpload.BuildForm: nothing is said of what happens once a write has left the buffer; the boundary's random part, reading the file, and the response are inputs or left out.
- TsMuxUploader.Uploader.Video: the comparison of parameter sets is an input, as are the muxer's results; picture capture, the wait for a missing muxer context and the ADTS header are left out.
- SliceCuts.EveryRun: timestamps are non-negative; `SliceCuts.NegativeStartsAgain` says what happens below zero.
- TsUploader.Uploader.UploadBuffer: the copy of the closing session the code keeps for its report, which differs from the closed session of the model in its number of slices, its end time and its cover, the reports to the segment manager, pictures, and an uploader created without session callbacks are not modelled.
- Pipeline.ReportsAreOrdered: no push to the command queue is refused; an end whose upload is refused by a full queue is not modelled. Commands that are not the producer's change meta data, the plan or the configuration.
- SessionAccounts.AccountsAreExact: no start comes between an end and its upload, because the producer pushes both under one lock; `SessionAccounts.StartWhilePending` says what would happen.
- CircleQueue.Ring.Push: the growing policies are not modelled (the code marks the one as unused and possibly wrong); the statistics of an overwrite, written after the lock is released, are part of the push.
- CircleQueue.Ring.Pop: how a wait on an empty queue ends is an input; an item pushed during the wait is a push before the pop.
- Base64.Encode: line lengths are multiples of four, and the memory behind a buffer that the extra line end overruns belongs to the array.
- Sha1.HmacSha1: what the digest is when a length is miscounted is said of each part only (`Sha1.Context.Final`), not of the whole.
- Bit fields of ADTS headers, BCD and date parsing, MQTT, configuration and token requests, and the growth of the slice buffer: easy or outside the pipeline.
