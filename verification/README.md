# Verified model of the LZO codecs, checksums, message queues and tables

This project models the parts of the QNX libraries in which a wrong branch, a swapped byte or a lost link would
silently corrupt data, and proves what those parts are for.

**The LZO compressors and decompressors.** A block is the code of a stream of tokens, literal runs and matches
(`Tokens.dfy`); `Expand` says what a stream stands for, with byte-by-byte overlapping copies (`Window.dfy`). Each
format has a file with its legal streams, `Encode`, one decoding `Step` and `Decode`, and the proof that decoding
inverts encoding in whatever context. The compressors and decompressors are methods that move `ip` and `op`
through buffers, patch bytes already written and update the dictionary; the compressors are proved to write the
code of a legal stream for their input, the decompressors to compute `Decode`. `RoundTrips.dfy` puts the two ends
together. The files with `Codes` in their names say in plain numbers what the bytes of a block stand for; those with
`Parse` in their names say which of the legal streams a compressor writes. LZO1, LZO1A and LZO1F take their hash
function as a parameter, for they check what they find. The 999 compressors run on the match finder of the source,
whose search trusts its hash for one byte it never compares; it is proved right to do so.

- `Lzo1Format`, `Lzo1Codes`, `Lzo1Decoder`, `Lzo1Parse`, `Lzo1Compressor`: LZO1 and LZO1A with RBITS = 5 and LBITS = 8, CLEVEL 1. Markers of
  LZO1A mean different things behind a short literal run, and R1 matches are made by clearing bits of a marker
  that is already in the output.
- `Lzo1fFormat`, `Lzo1fCodes`, `Lzo1fDecoder`, `Lzo1fParse`, `Lzo1fCompressor`: LZO1F-1, whose work memory is never
  cleared.
- `SwdHash`, `SwdRing`, `Swd`: the match finder of LZO1X-999, LZO1Y-999 and LZO2A-999, a ring buffer with hash chains
  that are never cleaned up, only counted. What it reports is a match, and the nearest of its length; it reports one
  if there is one; it has tried the latest positions with the same hash, as many as the chain limit allows; and it is
  a longest one if no limit has ended a search.
- `Lzo1xFormat`, `Lzo1xCodes`, `Lzo1xRoundTrip`, `Lzo1xUnique`, `Lzo1xEmitter`, `Lzo1xParse`, `Lzo1xCompressor`,
  `Lzo1xMachine`, `Lzo1xDecoder`: LZO1X-999 and LZO1Y-999 with a preset dictionary, the exact cost prediction, the
  uniqueness of the token stream, the lazy search with all its parameters, and the decoder with all its overrun tests
  and return codes. Lengths are unbounded in the format and 32 bits wide in the decoder; `Lzo1xMachine` says exactly
  when that makes a difference.
- `BitStream`, `BitIo`, `ZeroWidth`, `Lzo2aFormat`, `Lzo2aCodes`, `Lzo2aRoundTrip`, `Lzo2aParse`, `Lzo2aCodec`:
  LZO2A-999, whose bits and bytes share one stream with bytes reserved ahead of time.

**Checksums and digests.** `Adler32` and `Crc32` prove the fast loops equal to the definitions of RFC 1950 and
RFC 1952, `Md5` proves that any way of feeding a message in chunks gives the digest of RFC 1321 of the whole
message. The 64 steps of the MD5 block transform are a parameter; the same function stands in the definition.

**Queues and tables.** `AsyncSend` and `AsyncReceive` model the asynchronous message library: the send ring moved by
sender, kernel and collector, and the linked receive buffers. `Table` is the record table of mig4nto with its
sorted insertion and its scan cursor, `SelectiveReceive` the selective receive built on it, and `MqList` the
descriptor list of the POSIX message queues. Their state is in classes with the fields of the C structures; each
method is tied to a function on plain values, and the laws over whole runs are lemmas about those functions.

Where the code does less than its documentation says, the model follows the code:

- `lzo1x_decompress_dict_safe` is the decompressor with overrun testing, but its length counter has 32 bits: a length
  code of 2^32 and more wraps around. No block that the format accepts and no block of up to 16843009 bytes is affected
  (`Lzo1xMachine.AcceptedAgrees`, `Lzo1xMachine.ShortAgrees`); the exact condition is `Lzo1xMachine.DecodeExact`, and
  `Lzo1xMachine.WrappedRunAccepted` is a family of damaged blocks that come out with LZO_E_OK.
- `asyncmsg_putv` publishes its slot before it fills it, and the kernel does not wait for the mutex: a verdict on a slot
  that the kernel reaches in between is lost (`AsyncSend.VerdictsExact`, `AsyncSend.LateFillLosesVerdict`).
- `asyncmsg_connect_detach` compares raw ring indices, so it reports EBADF for exactly the unprocessed messages
  only if nothing has wrapped (`AsyncSend.TagsExact` gives the condition, `AsyncSend.WrappedDetachMisreports` a run).
- Deleting exactly the record that is next makes a scan return the one before it again
  (`Table.DeleteExact`, `Table.DeleteNextRepeats`); so does adding in front of the cursor (`Table.AddExact`).
- `S_RESET` is documented to return the first record and `S_NEXT` the one after the previous one, but the first
  `S_NEXT` behind a reset returns the first record again; the callers rely on that
  (`Table.RecordTable.GetNextRecord`).
- `putbits(0, 0)` on a byte boundary reserves a byte that the reader never fetches (`ZeroWidth.ReadsBackExactly`,
  `ZeroWidth.StrayByteIsRead`).
- The block loop of `MD5Update` wraps around for chunks just below 2^32 bytes (`Md5.ChunkOkExact`, `Md5.GuardWraps`).

`hide` statements at the head of a body keep definitions out of proofs that do not need them.

## Model

| member | source | states |
|---|---|---|
| Window.CopyAt | trunk/lib/lzo/lzo_util.h:112-118 | an overlapping copy is periodic: every copied byte equals the one a match distance before it |
| Window.CopySplit | trunk/lib/lzo/lzo_util.h:112-118 | copying a + b bytes is copying a bytes and then b more, so a copy may be split anywhere |
| Window.CopyReproduces | trunk/lib/lzo/lzo_util.h:116-118 | where the data repeats itself at a distance, the overlapping copy reproduces the data: why a match stands for its bytes |
| Window.CopyDisjoint | trunk/lib/lzo/lzo_util.h:60-64 | if source and destination do not overlap, the byte loop and one memcpy give the same result |
| Window.CopyLiterals | trunk/lib/lzo/lzo_util.h:60-114 | literals are appended at the output cursor and nothing behind them changes |
| Window.CopyMatch | trunk/lib/lzo/lzo_util.h:116-118 | the in-place loop appends exactly the overlapping copy |
| LengthCode.ReadExtReads | trunk/lib/lzo/lzo1x_9x.c:303-313 | the format's length code, in unbounded numbers: reading what the encoder writes gives the length back and stops right behind it |
| LengthCode.ReadExtValue | trunk/lib/lzo/lzo1x_d.ch:102-112 | a length code stands for 255 times the number of its zero bytes plus the byte behind them |
| LengthCode.PutExt | trunk/lib/lzo/lzo1x_9x.c:303-313 | the emitting loop writes exactly that length code |
| LengthCode.GetExt | trunk/lib/lzo/lzo1f_d.ch:69-75 | the reading loop stops where the length code ends and holds its length modulo 2^32, as its 32-bit counter does |
| Lzo1Format.StepReadsHeader | trunk/lib/lzo/lzo1a.c:160-191 | the decoder reads back the count of every run marker: short, extended, and the eight long forms |
| Lzo1Format.StepReadsR1 | trunk/lib/lzo/lzo1a.c:193-209 | directly behind a short literal run a marker below 32 is a three-byte match with one literal |
| Lzo1Format.StepReadsToken | trunk/lib/lzo/lzo1a.c:158-246 | one round of the decoder inverts the code of any legal token in its context, whatever follows |
| Lzo1Format.DecodeReaches | trunk/lib/lzo/lzo1.c:223-283 | reading the code of a legal token stream, with anything behind it, arrives at the end of that code with the stream's expansion and context |
| Lzo1Format.DecodeEncode | trunk/lib/lzo/lzo1a.c:158-253 | every legal LZO1 or LZO1A token stream decodes to what it stands for and the block is consumed exactly |
| Lzo1Decoder.DecompressLzo1 | trunk/lib/lzo/lzo1.c:206-284 | the in-place loop computes the decoding of the block and returns LZO_E_OK, for every block that stays inside its buffers |
| Lzo1Decoder.DecompressLzo1a | trunk/lib/lzo/lzo1a.c:131-253 | the same for LZO1A, where the meaning of a marker depends on whether a short run came before it |
| Lzo1Compressor.StoreRunLzo1 | trunk/lib/lzo/lzo1.c:291-331 | any number of literals is split into the runs of Lzo1Parse.Stored, largest first, at one byte of overhead in 32 and one more |
| Lzo1Compressor.StoreRunLzo1a | trunk/lib/lzo/lzo1a_cr.ch:39-109 | the same for the store_run of LZO1A |
| Lzo1Compressor.ExtendMatch | trunk/lib/lzo/lzo1.c:431-528 | the coded match agrees byte for byte over its whole length and is as long as the format and the input allow |
| Lzo1Compressor.FoldTokens | trunk/lib/lzo/lzo1a.c:351-372 | clearing the length bits of the last marker and appending one byte is again the code of a legal stream, with one more literal |
| Lzo1Compressor.FoldLiteral | trunk/lib/lzo/lzo1a.c:351-372 | patching op[-2] in place extends the coded prefix of the input by one byte, so R1 matches may follow each other in chains |
| Lzo1Compressor.CodeMatch | trunk/lib/lzo/lzo1.c:459-545 | coding a match keeps the output the code of a legal stream for a longer prefix of the input; each match saves a byte |
| Lzo1Compressor.FindLzo1 | trunk/lib/lzo/lzo1.c:383-405 | with a cleared dictionary the check finds only earlier input positions that agree on three bytes, whatever the hash; the answer and the new slot are those of Lzo1Parse.Lookup |
| Lzo1Compressor.FindLzo1a | trunk/lib/lzo/lzo1a.c:309-330 | the non-deterministic check accepts only earlier input positions, whatever the slot holds; the answer and the new slot are those of Lzo1Parse.Lookup |
| Lzo1Compressor.CompressLzo1 | trunk/lib/lzo/lzo1.c:343-642 | for every input and every hash: the block decodes to the input, has at most n + n/32 + 1 bytes, none for no input, and is the code of exactly the tokens of Lzo1Parse.Parsed |
| Lzo1Compressor.CompressLzo1a | trunk/lib/lzo/lzo1a.c:265-673 | the same for LZO1A, chains of R1 matches included |
| Lzo1Parse.LookupIs | trunk/lib/lzo/lzo1.c:383-405 | what is looked up is the last position entered under the hash of these three bytes, taken if it is within reach and agrees with them; the slot then holds this position |
| Lzo1Parse.MatchLenIs | trunk/lib/lzo/lzo1.c:431-528 | the length of a match is the only one, up to 264, that agrees over all its bytes and ends at a difference or a limit |
| Lzo1Parse.RepeatsAreMatched | trunk/lib/lzo/lzo1.c:383-458 | where the slot of the hash holds a position that agrees for three bytes, the next token is a match with it |
| Lzo1Parse.ConstantData | trunk/lib/lzo/lzo1.c:343-642 | of one byte over and over only the first and the last few bytes are literals, however long the data |
| Lzo1Codes.ReadsRun | trunk/lib/lzo/lzo1.c:225-256 | in plain numbers, each run marker is read as its count: one byte up to 31, two up to 279, and eight codes for 280 and the powers of two from 512 on |
| Lzo1Codes.ReadsMatch | trunk/lib/lzo/lzo1.c:257-276 | in plain numbers, two bytes are read as a match of 3 to 8 bytes and three as one of 9 to 264, from 1 to 8192 back |
| Lzo1Codes.ReadsR1 | trunk/lib/lzo/lzo1a.c:193-209 | in plain numbers, behind a short run LZO1A reads three bytes as a match of three and one literal |
| Lzo1Codes.LegalIs | trunk/lib/lzo/lzo1.c:291-331 | which tokens have a code, and where |
| Lzo1fFormat.StepReadsToken | trunk/lib/lzo/lzo1f_d.ch:59-173 | one round of the decoder inverts the code of any legal LZO1F token, literals folded into the match before them included |
| Lzo1fFormat.DecodeEncode | trunk/lib/lzo/lzo1f_d.ch:59-206 | every legal stream with the end code decodes to what it stands for, and the end code is met only at the end of the block |
| Lzo1fDecoder.Decompress | trunk/lib/lzo/lzo1f_d.ch:32-206 | the in-place loops compute the decoding of the block, and the return code says whether the end code ended it; no length of a block that fits its buffer wraps around |
| Lzo1fCompressor.Find | trunk/lib/lzo/lzo1f_1.c:91-149 | for any content of the work memory, an accepted candidate has offset 1 to 0x3fff, starts inside the input before ip, and agrees on the bytes a match needs; the answer and the slot used are those of Lzo1fParse.Lookup |
| Lzo1fCompressor.ExtendMatch | trunk/lib/lzo/lzo1f_1.c:178-214 | the match agrees over its whole length and is as long as the input allows |
| Lzo1fCompressor.FoldTokens | trunk/lib/lzo/lzo1f_1.c:156-157 | adding a count into the two low bits of the byte before last is again the code of a legal stream |
| Lzo1fCompressor.CodeLiterals | trunk/lib/lzo/lzo1f_1.c:150-174 | pending literals, folded or explicit, extend the coded prefix of the input |
| Lzo1fCompressor.Compress | trunk/lib/lzo/lzo1f_1.c:58-310 | for every input and every initial work memory the block decodes to the input, ends exactly with the end code, has at most n + n/32 + 4 bytes, and is the code of exactly the tokens of Lzo1fParse.Parsed |
| Lzo1fParse.LookupIs | trunk/lib/lzo/lzo1f_1.c:91-149 | the first of the two slots of the hash is taken if its entry is in reach and near or agreeing on the fourth byte, else the second is tried; a match needs three equal bytes, and the slot then holds this position |
| Lzo1fParse.RepeatIsMatched | trunk/lib/lzo/lzo1f_1.c:91-214 | of one byte over and over, any entry within reach leads to one match up to the end |
| Lzo1fParse.ConstantData | trunk/lib/lzo/lzo1f_1.c:58-310 | of such data at most two bytes are literals, whatever the work memory held |
| Lzo1fCodes.WritesMatch | trunk/lib/lzo/lzo1f_1.c:178-233 | the code of every match in plain numbers |
| Lzo1fCodes.ReadsNear | trunk/lib/lzo/lzo1f_d.ch:107-116 | in plain numbers, which two bytes are read as which match of 3 to 8 bytes from 1 to 2048 back |
| Lzo1fCodes.ReadsBehindRun | trunk/lib/lzo/lzo1f_d.ch:96-104 | behind literals, a marker below 32 is a match of three bytes from 2049 to 4096 back |
| Lzo1fCodes.ReadsFar | trunk/lib/lzo/lzo1f_d.ch:117-142 | a marker from 224 on is a match from up to 16383 back, or the end code for 0 |
| Lzo1xRoundTrip.StepReadsRun | trunk/lib/lzo/lzo1x_d.ch:86-145 | explicit and first literal runs are read back with their count and the right context |
| Lzo1xRoundTrip.StepReadsMatch | trunk/lib/lzo/lzo1x_d.ch:148-400 | M1, M2, the three-byte form behind a run, M3 and M4 matches, in LZO1X and LZO1Y, are read back with offset, length and folded literals; none is read as the end code |
| Lzo1xRoundTrip.DecodeReaches | trunk/lib/lzo/lzo1x_d.ch:86-403 | reading the code of a legal stream arrives at its expansion, with only the number of literals that came last as context |
| Lzo1xRoundTrip.DecodeEncode | trunk/lib/lzo/lzo1x_9x.c:771-779 | every legal stream with the end code decodes to what it stands for, for every preset dictionary and with just enough room; the end code is met at the end and not before |
| Lzo1xUnique.SameToken | trunk/lib/lzo/lzo1x_9x.c:120-319 | in one context, the bytes at one place are the code of at most one token |
| Lzo1xUnique.EndIsNoToken | trunk/lib/lzo/lzo1x_9x.c:771-779 | where the end code stands no token's code can stand |
| Lzo1xUnique.UniqueTokens | trunk/lib/lzo/lzo1x_9x.c:120-341 | a closed block is the code of one legal token stream only |
| Lzo1xCodes.ThreeBehindRun | trunk/lib/lzo/lzo1x_d.ch:148-191 | behind a run, every offset up to 3072 in LZO1X and 2048 in LZO1Y is read from exactly one pair of bytes as a match of three bytes without literals, the first 2048 or 1024 from a marker of 64 on and the others from one below 16; no other offset is |
| Lzo1xCodes.ReadsOnce | trunk/lib/lzo/lzo1x_d.ch:148-349 | a pair of bytes cannot stand for two offsets or two lengths |
| Lzo1xCodes.ReadsBehindRun | trunk/lib/lzo/lzo1x_d.ch:148-176 | in plain numbers, the offset of a match of three bytes behind a run: 2049 in LZO1X and 1025 in LZO1Y, plus a quarter of the marker, plus four times the next byte |
| Lzo1xCodes.ReadsBehindFew | trunk/lib/lzo/lzo1x_d.ch:324-349 | behind one to three literals the same marker is a match of two bytes from 1 to 1024 back |
| Lzo1xCodes.ReadsNear | trunk/lib/lzo/lzo1x_d.ch:183-235 | a marker from 64 on is a match of 3 to 8 bytes from 1 to 2048 back, or in LZO1Y of 3 to 14 bytes from 1 to 1024 back |
| Lzo1xCodes.ReadsMiddle | trunk/lib/lzo/lzo1x_d.ch:236-273 | a marker from 32 on is a match of any length from 1 to 16384 back |
| Lzo1xCodes.ReadsFar | trunk/lib/lzo/lzo1x_d.ch:274-323 | a marker from 16 to 31 is a match of any length from 16385 to 49151 back |
| Lzo1xCodes.ReadsEnd | trunk/lib/lzo/lzo1x_d.ch:274-302 | 16384 back is the end code |
| Lzo1xCodes.ReadsFirstRun | trunk/lib/lzo/lzo1x_d.ch:86-94 | a first marker from 18 on is a run of itself less 17 |
| Lzo1xCodes.ReadsRun | trunk/lib/lzo/lzo1x_d.ch:86-145 | runs of four and more, with or without a length code |
| Lzo1xCodes.CodableIs | trunk/lib/lzo/lzo1x_9x.c:348-386 | which matches have a code, in plain numbers |
| Lzo1xCodes.WritesMatch | trunk/lib/lzo/lzo1x_9x.c:120-276 | the code of every match in plain numbers, which is the shortest form that can hold it |
| Lzo1xDecoder.CopyDict | trunk/lib/lzo/lzo1x_d3.c:86-94 | whatever the split into dictionary part, wrap to the start of the output, block copy and byte loop, the result is the overlapping copy from the window dict ++ out |
| Lzo1xDecoder.CopyDictDict | trunk/lib/lzo/lzo1x_d3.c:69-84 | the same for a source that starts in the dictionary and may run over into the output |
| Lzo1xDecoder.ReadMarker | trunk/lib/lzo/lzo1x_d.ch:86-403 | one pass through the labels of the C loop, counting in 32 bits, computes one step of Lzo1xMachine, error codes included |
| Lzo1xDecoder.Decompress | trunk/lib/lzo/lzo1x_d.ch:33-434 | for every block, damaged or not, that does not lead the C code out of its buffers: return code and output buffer are what Lzo1xMachine says, which is the format's result under the conditions of the rows below |
| Lzo1xDecoder.ReadRun | trunk/lib/lzo/lzo1x_d.ch:114-145 | a run whose counter is t: the room tests on wrapped sums, and the copy loop that does not wrap |
| Lzo1xMachine.LiteralsExact | trunk/lib/lzo/lzo1x_d.ch:102-145 | a run of v + 3 literals is read as what it is if and only if v + 4 is below 2^32, or the wrapped sum exceeds the room as well |
| Lzo1xMachine.MatchExact | trunk/lib/lzo/lzo1x_d.ch:352-396 | a match is copied with its length if and only if that is below 2^32; otherwise only a lack of room for the wrapped length gives the same answer |
| Lzo1xMachine.StepExact | trunk/lib/lzo/lzo1x_d.ch:86-403 | one step of the C code is one step of the format if and only if the counter fits at this marker |
| Lzo1xMachine.OpenLengthValue | trunk/lib/lzo/lzo1x_d.ch:235-249 | the length that must fit is 255 for every zero byte, a base for the marker, and the byte behind the zeros |
| Lzo1xMachine.AcceptedAgrees | trunk/lib/lzo/lzo1x_d.ch:33-434 | every block the format accepts, however long, is decoded to the format's result |
| Lzo1xMachine.ShortAgrees | trunk/lib/lzo/lzo1x_d.ch:33-434 | every block of up to 16843009 bytes, damaged or not, gives the format's result and error code |
| Lzo1xMachine.ShortIsTight | trunk/lib/lzo/lzo1x_d.ch:102-114 | a block of 16843010 bytes that gets the wrong error code |
| Lzo1xMachine.WrappedRunAccepted | trunk/lib/lzo/lzo1x_d.ch:102-145 | the marker of 2^32 + n literals, n literals and the end code come out as the n literals with LZO_E_OK, where the format has no room for the run |
| Lzo1xMachine.DecodeExact | trunk/lib/lzo/lzo1x_d.ch:33-434 | for every block: the result is the format's if and only if the counter fits where the format stops, or an idle match there is followed by the same lack of room |
| Lzo1xEmitter.LenOfCodedMatch | trunk/lib/lzo/lzo1x_9x.c:348-386 | the prediction is exact for LZO1X and LZO1Y and unbounded lengths: the number of bytes code_match writes behind that many literals, and -1 exactly if the match cannot be coded there |
| Lzo1xEmitter.Encoder.CodeMatch | trunk/lib/lzo/lzo1x_9x.c:120-276 | exactly the code of the match is appended, as many bytes as predicted, and match_bytes grows by its length |
| Lzo1xEmitter.Encoder.StoreRun | trunk/lib/lzo/lzo1x_9x.c:279-319 | a first run, an explicit run, or a count patched into the two low bits of op[-2]: the output stays the code of a legal stream that now covers these literals |
| Lzo1xEmitter.Encoder.CodeRun | trunk/lib/lzo/lzo1x_9x.c:322-341 | r1_lit is the number of literals before the next match, which is its context |
| Lzo1xEmitter.FoldTokens | trunk/lib/lzo/lzo1x_9x.c:287-296 | or-ing a count of one to three into op[-2] is again the code of a legal stream |
| Lzo1xCompressor.BetterMatch | trunk/lib/lzo/lzo1x_9x.c:465-525 | what is chosen is Lzo1xParse.Nearer: a match with at most two bytes less, from a nearer class |
| Lzo1xCompressor.SearchAhead | trunk/lib/lzo/lzo1x_9x.c:684-752 | the search goes exactly as far as Lzo1xParse.Ahead says: no position before the last was worth its match, and the last one is exactly if the loop is lazy |
| Lzo1xCompressor.CompressLoop | trunk/lib/lzo/lzo1x_9x.c:603-768 | with the match finder of lzo_swd.ch: the tokens written follow from the finder's reports round by round, as Lzo1xParse.Follows says |
| Lzo1xCompressor.Compress | trunk/lib/lzo/lzo1x_9x.c:534-798 | for every input, dictionary and tuning the block decodes to the input with LZO_E_OK in any large enough buffer, lit_bytes + match_bytes is the input length, and the block is the code of the tokens that the finder's reports decide on |
| Lzo1xParse.NearerPays | trunk/lib/lzo/lzo1x_9x.c:465-525 | every byte of length that better_match gives up saves a byte of code, behind any literals |
| Lzo1xParse.LiteralsAreJustified | trunk/lib/lzo/lzo1x_9x.c:603-652 | the loop passes a byte over as a literal only where no two bytes repeat in the window, where two repeat but have no code, at the start, or where three repeat too far back and more than three literals wait |
| Lzo1xParse.ConstantData | trunk/lib/lzo/lzo1x_9x.c:534-798 | of one byte over and over at most three bytes are literals, for all data lengths, dictionaries and parameters |
| Lzo1xCompressor.Settle | trunk/lib/lzo/lzo1x_9x.c:565-597 | the defaults for parameters that are 0 or negative |
| Lzo1xCompressor.LazyGain | trunk/lib/lzo/lzo1x_9x.c:389-425 | min_gain is Lzo1xParse.MinGain |
| SwdHash.ThirdByteTold | trunk/lib/lzo/lzo_swd.ch:478-493 | the search compares two bytes and skips the third; two bytes and equal HEAD3 values make the third equal |
| SwdHash.HashTells | trunk/lib/lzo/lzo_swd.ch:64-65 | HEAD3 tells apart any two arguments that are less than 256 apart |
| SwdHash.Head3Is | trunk/lib/lzo/lzo_swd.ch:62-70 | HEAD3 in plain numbers, for bytes that do not overlap where they are mixed |
| SwdRing.ReadOn | trunk/lib/lzo/lzo_swd.ch:470-499 | reading on from any slot needs no wrap-around: the copy of the ring's beginning behind its end holds what is needed |
| SwdRing.StoredHolds | trunk/lib/lzo/lzo_swd.ch:358-363 | storing the next byte, in the first F slots twice, keeps the last n bytes and the look-ahead in the ring |
| SwdRing.StoredKeyed | trunk/lib/lzo/lzo_swd.ch:398-407 | no byte is overwritten that the hash of a position still in the chains depends on, so removing a position finds the key it was entered under |
| SwdRing.EnterChained | trunk/lib/lzo/lzo_swd.ch:428-433 | heads, links and counts after entering a position are those of the longer list |
| SwdRing.RemoveChained | trunk/lib/lzo/lzo_swd.ch:398-400 | counting down alone removes the oldest position from its chain |
| SwdRing.ChainOn | trunk/lib/lzo/lzo_swd.ch:465-465 | following a chain for as many steps as its count says meets exactly the positions with this key, latest first |
| Swd.Finder.constructor | trunk/lib/lzo/lzo_swd.ch:220-312 | the finder stands at the start of the input with the last n bytes of the dictionary entered, whatever the memory held |
| Swd.Finder.GetByte | trunk/lib/lzo/lzo_swd.ch:343-370 | ring, chains and pointers stand one position on, also past the end of the input |
| Swd.Finder.Accept | trunk/lib/lzo/lzo_swd.ch:417-443 | positions are entered without a search |
| Swd.Finder.Try | trunk/lib/lzo/lzo_swd.ch:465-528 | the best match so far stays a match; the candidate has no longer one; the search ends here exactly if the match is as long as the look-ahead, nice enough, or longer than best3 says |
| Swd.Finder.EarlierAreShorter | trunk/lib/lzo/lzo_swd.ch:524-525 | why the search may stop at a candidate that agrees for longer than best3 says its own matches did |
| Swd.Finder.Search | trunk/lib/lzo/lzo_swd.ch:451-531 | every position passed over is no better, the search tries no more candidates than the limit, and stops before the limit only where nothing is left or the match ends it |
| Swd.Finder.Search2 | trunk/lib/lzo/lzo_swd.ch:541-568 | two equal bytes are found exactly if they stand somewhere in the window |
| Swd.Finder.FindBest | trunk/lib/lzo/lzo_swd.ch:578-635 | the position is entered, what is found is a match, and the position n bytes back is removed only then |
| Swd.Finder.FindMatch | trunk/lib/lzo/lzo_mchw.ch:149-221 | what is reported is a match within n, and the nearest of its length, also for each best_off; a match is reported whenever the window has one; no position among the latest max_chain with the hash of these three bytes agrees for more, unless the search ended at a later one, for a length from nice_length on or above its best3; and a longest one is reported if no limit ever ended a search |
| Swd.LatestIsTried | trunk/lib/lzo/lzo_swd.ch:451-531 | for every chain limit and every nice_length: if the latest position with the same HEAD3 value agrees for len bytes, three or more, the match found has at least len |
| Swd.ReportedLength | trunk/lib/lzo/lzo_swd.ch:606-610 | the same for what find_match reports, at any later time |
| Swd.Finder.LimitChain | trunk/lib/lzo/lzo1x_9x.c:688-692 | the chain limit may change before any search |
| BitStream.PutJoin | trunk/lib/lzo/lzo2a_9x.c:64-72 | writing an item now or leaving it to the future makes no difference to the final stream, reserved byte included |
| BitStream.PutUses | trunk/lib/lzo/lzo2a_9x.c:64-72 | every item adds exactly its own width; reserved bytes waste nothing |
| BitStream.FacingBits | trunk/lib/lzo/config2a.h:131-143 | NEEDBITS, MASKBITS, DUMPBITS return the bits that were put, and the reader again stands where the writer stood |
| BitStream.FacingByte | trunk/lib/lzo/lzo2a_9x.c:64-64 | a byte between bits is read back in its place |
| BitStream.ReplayAll | trunk/lib/lzo/lzo2a_9x.c:309-319 | everything written comes back in order, bits and bytes interleaved, and the last byte is read last |
| Lzo2aCodes.BitsMakeByte | trunk/lib/lzo/lzo2a_9x.c:64-72 | eight bits make a byte with the first of them lowest |
| Lzo2aCodes.ByteBetweenBits | trunk/lib/lzo/lzo2a_9x.c:64-72 | a byte put between bits comes behind the byte that is being filled |
| ZeroWidth.ReadsBackExactly | trunk/lib/lzo/lzo2a_9x.c:66-70 | with widths from 0 to 7 the stream reads back and is used up if and only if no put of width zero comes while no bits are pending |
| ZeroWidth.StrayByteIsRead | trunk/lib/lzo/lzo2a_9x.c:66-70 | a put of width zero in front of one byte: the reader takes the stray zero byte for it |
| BitIo.BitWriter.PutBits | trunk/lib/lzo/lzo2a_9x.c:66-70 | the macro with its reserved byte in the buffer does what the specification of the writer says |
| BitIo.BitWriter.Flush | trunk/lib/lzo/lzo2a_9x.c:309-319 | the pending bits end up in the byte that was reserved for them |
| BitIo.BitReader.GetBits | trunk/lib/lzo/config2a.h:131-143 | the reader macros do what the specification of the reader says |
| Lzo2aRoundTrip.StepReadsToken | trunk/lib/lzo/lzo2a_d.ch:75-163 | a literal, a near and a far match are read back whatever bits are pending before them |
| Lzo2aRoundTrip.DecodeEncode | trunk/lib/lzo/lzo2a_d.ch:75-183 | every legal token stream with the end code, flushed, decodes to what it stands for and is used up |
| Lzo2aCodec.WriteMatch | trunk/lib/lzo/lzo2a_9x.c:235-293 | a match appends exactly its items and costs at most nine bits a byte it stands for |
| Lzo2aCodec.CompressLoop | trunk/lib/lzo/lzo2a_9x.c:127-299 | with the match finder of lzo_swd.ch the items written are those of a legal stream for the input, and every token is the one that the finder's reports decide on (Lzo2aParse.Decided) |
| Lzo2aCodec.Compress | trunk/lib/lzo/lzo2a_9x.c:86-350 | for every input and chain limit the block decodes to the input, ends with the end code, takes at most nine bits an input byte and 25 more, and is the code of the tokens decided on |
| Lzo2aParse.LiteralsAreJustified | trunk/lib/lzo/lzo2a_9x.c:127-299 | a literal is written only where no two bytes repeat in the window, where two repeat too far back for a code, or where the next position has a longer match |
| Lzo2aCodes.WritesNear | trunk/lib/lzo/lzo2a_9x.c:235-243 | a near match, of 2 to 5 bytes from 1 to 256 back, in plain numbers |
| Lzo2aCodes.WritesFar | trunk/lib/lzo/lzo2a_9x.c:264-293 | any other match in plain numbers |
| Lzo2aCodes.LegalIs | trunk/lib/lzo/lzo2a_9x.c:127-180 | which tokens have a code, in plain numbers |
| Lzo2aCodec.Decompress | trunk/lib/lzo/lzo2a_d.ch:41-183 | the in-place loop computes the decoding of the block, and the return code says whether the end code ended it |
| RoundTrips.Lzo1 | trunk/lib/lzo/lzo1.c:206-642 | compress, then decompress what was produced into a buffer of the original size: the input comes back with LZO_E_OK |
| RoundTrips.Lzo1a | trunk/lib/lzo/lzo1a.c:131-673 | the same for LZO1A |
| RoundTrips.Lzo1f | trunk/lib/lzo/lzo1f_1.c:58-310 | the same for LZO1F, with work memory that holds anything |
| RoundTrips.Lzo1x | trunk/lib/lzo/lzo1x_d3.c:99-106 | the same for LZO1X-999 and LZO1Y-999 with a preset dictionary, with their own match finder and all its settings |
| RoundTrips.Lzo2a | trunk/lib/lzo/lzo2a_9x.c:343-350 | the same for LZO2A-999 |
| Md5.DecodeEncodeWords | trunk/lib/misc/md5c.c:105-136 | Decode inverts Encode on all word sequences |
| Md5.Encode | trunk/lib/misc/md5c.c:105-119 | the loop writes each word lowest byte first |
| Md5.DecodeWordsAt | trunk/lib/misc/md5c.c:121-136 | each word is read from four bytes, the lowest first, in plain numbers |
| Md5.EncodeWordsAt | trunk/lib/misc/md5c.c:105-119 | each word is written as four bytes, the lowest first, in plain numbers |
| Md5.PaddedMessage | trunk/lib/misc/md5c.c:266-275 | what is digested: the message, a byte 0x80, as few zeros as make a whole block, and the length in bits, its low word first, as sections 3.1 and 3.2 of RFC 1321 have it |
| Md5.DigestUnmixed | trunk/lib/misc/md5c.c:188-202 | section 3.3 of RFC 1321: if the blocks are not mixed in, the digest of every message is 01 23 45 67 89 ab cd ef fe dc ba 98 76 54 32 10 |
| Md5.FoldAppend | trunk/lib/misc/md5c.c:238-239 | folding the blocks of a concatenation is folding the second part from the state after the first |
| Md5.ChunkOkExact | trunk/lib/misc/md5c.c:231-240 | the guard i + 63 < inputLen stops at the last whole block if and only if that place is at most 2^32 - 64; chunks of up to 2^32 - 64 bytes always qualify |
| Md5.GuardWraps | trunk/lib/misc/md5c.c:238-239 | with idx > 0 bytes in the buffer a chunk of 2^32 - idx bytes makes the guard wrap around; an empty buffer takes every chunk |
| Md5.Context.AddBits | trunk/lib/misc/md5c.c:223-227 | the two counters hold the message length in bits modulo 2^64, carry included |
| Md5.Context.AbsorbBlocks | trunk/lib/misc/md5c.c:231-241 | the buffered block and the blocks taken straight from the chunk are the blocks of the whole message so far |
| Md5.Context.Update | trunk/lib/misc/md5c.c:209-249 | after any chunk the context holds the fold of the whole blocks of everything fed in, the rest, and the length |
| Md5.Context.Final | trunk/lib/misc/md5c.c:255-282 | the result is the digest of sections 3.1 to 3.5 of RFC 1321, with the length from before the padding; the context is cleared |
| Md5.DigestOfChunks | trunk/lib/misc/md5c.c:188-282 | for every way of cutting a message into chunks of at most 2^32 - 64 bytes the result is the digest of the whole message |
| Adler32.Adler32 | trunk/lib/lzo/lzo_util.c:188-217 | with the modulo put off to the end of each block, and no 32-bit sum ever overflowing, the result is that of the per-byte sums of section 2.2 of RFC 1950; 1 for a null buffer |
| Adler32.RawCongruent | trunk/lib/lzo/lzo_util.c:196-214 | putting the modulo off does not change what it gives in the end |
| Adler32.BlockLengthExact | trunk/lib/lzo/lzo_util.c:178-180 | from any 16-bit sums no block of up to 5552 bytes overflows 32 bits, and every greater length has a block that does |
| Adler32.AdlerAppend | trunk/lib/lzo/lzo_util.c:188-217 | hashing x and then y is hashing x ++ y |
| Crc32Table.FeedBitsAtOnce | trunk/lib/lzo/lzo_crc.c:98-101 | feeding bits one at a time is adding all of them at once and shifting |
| Crc32Table.EntryIs | trunk/lib/lzo/lzo_crc.c:42-95 | all 256 constants of the table are what eight shifts make of their index |
| Crc32.TableStep | trunk/lib/lzo/lzo_crc.c:98-101 | one lookup does what eight single-bit steps of section 8 of RFC 1952 do |
| Crc32.Crc32 | trunk/lib/lzo/lzo_crc.c:111-133 | the unrolled table loop equals the bit-at-a-time check for every buffer and start; 0 for a null buffer |
| Crc32.CrcAppend | trunk/lib/lzo/lzo_crc.c:112-133 | checking x and then y is checking x ++ y |
| Crc32.OneByteDetected | trunk/lib/lzo/lzo_crc.c:112-133 | changing any one byte of any buffer changes the checksum |
| Crc32.Residue | trunk/lib/lzo/lzo_crc.c:112-133 | a buffer followed by its own checksum, lowest byte first, always checks to 0x2144df1c |
| AsyncSend.RunConserves | trunk/lib/asyncmsg/asyncmsg_put.c:53-81 | over every interleaving of the single steps, with the kernel between the two halves of a put: accepted messages are those called back, then those waiting, then those pending, in put order, each with the kernel's verdict on it unless the kernel overtook its put |
| AsyncSend.VerdictsExact | trunk/lib/asyncmsg/asyncmsg_put.c:71-78 | every callback carries the kernel's verdict if and only if the kernel never refused a slot that was published and not yet filled |
| AsyncSend.SeenExact | trunk/lib/asyncmsg/asyncmsg_put.c:71-78 | the kernel saw every message as it was put if and only if each such slot still held the same message from before |
| AsyncSend.SplitPutExact | trunk/lib/asyncmsg/asyncmsg_put.c:71-78 | one put with any kernel steps in its middle: the verdict survives if and only if they do not reach the slot, or the step that does has no fault to report |
| AsyncSend.LateFillLosesVerdict | trunk/lib/asyncmsg/asyncmsg_put.c:72-74 | the run in which err = 0 wipes the kernel's EFAULT |
| AsyncSend.CallsAreCallbacks | trunk/lib/asyncmsg/asyncmsg_connect_attach.c:60-73 | the calls of all collections of a run, one after the other, are the callbacks of the messages in order |
| AsyncSend.ExactlyOnce | trunk/lib/asyncmsg/asyncmsg_connect_detach.c:49-65 | a run that ends with a detach calls back every accepted message that has somebody to call exactly once, in put order, with its own buffer and handle, at its own callback or else the connection's; with a default these are all |
| AsyncSend.EveryMessage | trunk/lib/asyncmsg/asyncmsg_connect_detach.c:49-65 | what was called back and what a detach calls back are the accepted messages; at most sendq_size - 1 are ever outstanding |
| AsyncSend.TagsExact | trunk/lib/asyncmsg/asyncmsg_connect_detach.c:50-56 | detach reports EBADF for exactly the unprocessed messages if and only if free <= head and head <= tail or tail is 0 |
| AsyncSend.TaggedWraps | trunk/lib/asyncmsg/asyncmsg_connect_detach.c:50-56 | the comparison of two 32-bit indices in plain numbers |
| AsyncSend.WrappedDetachMisreports | trunk/lib/asyncmsg/asyncmsg_connect_detach.c:53-56 | a run on three slots after which the raw comparison reports an unprocessed message as delivered |
| AsyncSend.OneCallEach | trunk/lib/asyncmsg/asyncmsg_connect_attach.c:63-70 | the calls are those of the messages that have somebody to call, one each and in their order, with their own buffer, handle and verdict; each goes to the message's own callback, and to the connection's only if it has none |
| AsyncSend.Connection.constructor | trunk/lib/asyncmsg/asyncmsg_connect_attach.c:136-150 | a new connection has an empty ring |
| AsyncSend.Connection.Publish | trunk/lib/asyncmsg/asyncmsg_put.c:53-72 | the slot at tail joins the pending ones with whatever it held, exactly if one slot stays empty |
| AsyncSend.Connection.Fill | trunk/lib/asyncmsg/asyncmsg_put.c:74-80 | the published slot gets the message and error 0, whether it is still pending or the kernel has been there; num_curmsg is right again, and MsgSendAsync is triggered by it |
| AsyncSend.Connection.PutTrigger | trunk/lib/asyncmsg/asyncmsg_put.c:24-40 | num_curmsg counts the message only now and is again the number of pending ones; MsgSendAsync is called exactly if trigger_num_msg is reached, else the timer runs |
| AsyncSend.Connection.Put | trunk/lib/asyncmsg/asyncmsg_put.c:53-81 | the two halves with nothing in between: the message is appended to the pending ones exactly if one slot stays empty; MsgSendAsync is triggered exactly if trigger_num_msg is reached |
| AsyncSend.Connection.Process | trunk/services/system/ker/nano_asyncmsg.c:430-440 | the kernel's step moves the first pending message to the waiting ones, with EFAULT for a bad address |
| AsyncSend.Connection.Collect | trunk/lib/asyncmsg/asyncmsg_connect_attach.c:60-73 | the collector calls back exactly the processed messages and leaves the pending ones |
| AsyncSend.Connection.Detach | trunk/lib/asyncmsg/asyncmsg_connect_detach.c:49-65 | the drain loop calls back everything outstanding |
| AsyncReceive.Channel.Refill | trunk/lib/asyncmsg/asyncmsg_get.c:37-67 | the free list grows by new buffers only, up to the limit or the allocator's failure |
| AsyncReceive.Channel.Get | trunk/lib/asyncmsg/asyncmsg_get.c:24-114 | exactly `used` buffers come back as a null-terminated list of their own, and with the free list they are exactly the old and the new buffers, none twice |
| AsyncReceive.Channel.Lend | trunk/lib/asyncmsg/asyncmsg_get.c:80-113 | taking the whole list, receiving, and giving back what was not used |
| AsyncReceive.Channel.GiveBack | trunk/lib/asyncmsg/asyncmsg_get.c:91-109 | the unused tail is a free list again |
| AsyncReceive.Channel.Destroy | trunk/lib/asyncmsg/asyncmsg_channel_destroy.c:40-69 | each remaining buffer is freed exactly once, in list order, one by one or in one batch |
| AsyncReceive.LinkedTake | trunk/lib/asyncmsg/asyncmsg_get.c:106-107 | cutting the link behind the used buffers makes them a null-terminated list |
| AsyncReceive.LinkedDrop | trunk/lib/asyncmsg/asyncmsg_get.c:92-104 | what is behind them is a list of its own that shares no buffer with them |
| Table.RunStaysSorted | trunk/lib/mig4nto/_table.c:201-248 | over any run of adds and deletes a sorted table stays sorted |
| Table.SlotIsPlace | trunk/lib/mig4nto/_table.c:121-146 | Bfind's slot is where a record must go: behind everything less, before everything else |
| Table.Bsearch | trunk/lib/mig4nto/_table.c:286-289 | in a sorted table a record that compares equal is found exactly if there is one |
| Table.Lfind | trunk/lib/mig4nto/_table.c:68-86 | the first record that compares equal, or none exactly if there is none |
| Table.ScanVisitsAll | trunk/lib/mig4nto/_table.c:441-465 | whichever of the returned records are deleted at once, a forward scan visits every record once, in order |
| Table.DeleteExact | trunk/lib/mig4nto/_table.c:300-309 | a deletion neither skips nor repeats a record of a running scan if and only if the deleted record is not the next one, or the scan has not begun; if it is, the record before it comes again |
| Table.DeleteNextRepeats | trunk/lib/mig4nto/_table.c:300-309 | a table of two in which the first record comes twice |
| Table.AddExact | trunk/lib/mig4nto/_table.c:201-248 | an insertion makes a scan repeat a record if and only if it goes in before the cursor |
| Table.RecordTable.AddRecord | trunk/lib/mig4nto/_table.c:201-248 | a record goes into its place in a sorted table, else to the end |
| Table.RecordTable.DeleteRecord | trunk/lib/mig4nto/_table.c:271-337 | exactly one matching record goes, by key or by number, and the cursor follows the C rule |
| Table.RecordTable.GetRecord | trunk/lib/mig4nto/_table.c:366-402 | a record is returned exactly if one compares equal; in an unsorted table it is the first |
| Table.RecordTable.GetNextRecord | trunk/lib/mig4nto/_table.c:441-480 | what rewinding, stepping either way and repeating the last lookup return, and where they leave the cursor |
| Table.RecordTable.ScanAndDelete | trunk/services/mig4nto/mig4nto-procmgr/name.c:89-105 | the scan loop of the library's callers sees every record once, in order, and leaves those it does not delete |
| SelectiveReceive.RunConserves | trunk/lib/mig4nto/ipc_funcs.c:388-553 | over every run of receives and replies: per sender, arrived is delivered followed by queued, counting 1 + proxy_count for pulses; messages delivered are open or replied to |
| SelectiveReceive.RepliedOnce | trunk/lib/mig4nto/ipc_funcs.c:616-638 | if no receive id arrives twice, none is replied to twice |
| SelectiveReceive.ReceiveKeeps | trunk/lib/mig4nto/ipc_funcs.c:506-553 | one Receive call loses, duplicates and reorders nothing |
| SelectiveReceive.EnqueueAdds | trunk/lib/mig4nto/ipc_funcs.c:388-421 | queueing adds exactly one arrival of its sender, at the end, also when a pulse only counts up |
| SelectiveReceive.DequeueTakes | trunk/lib/mig4nto/ipc_funcs.c:439-492 | taking from a sender's first record takes that sender's oldest arrival |
| SelectiveReceive.Receiver.PutQueuedMsg | trunk/lib/mig4nto/ipc_funcs.c:388-421 | the table operations do what the specification of the queue says |
| SelectiveReceive.Receiver.GetQueuedMsg | trunk/lib/mig4nto/ipc_funcs.c:439-492 | from the queue: the first record of the process asked for, or the first of all for 0 |
| SelectiveReceive.Receiver.Receivemx | trunk/lib/mig4nto/ipc_funcs.c:506-553 | queue first, then wait and queue what comes from others: the answer and the new state are those of Receive, which the next rows describe |
| SelectiveReceive.ReceiveFrom | trunk/lib/mig4nto/ipc_funcs.c:439-553 | a call for a process hands out the first element of what is queued and what comes from that process, and nothing exactly if there is none; what remains of that is all but the first |
| SelectiveReceive.ReceiveFromAny | trunk/lib/mig4nto/ipc_funcs.c:439-553 | a call for 0 hands out the oldest record of the queue, or else the first expected arrival |
| SelectiveReceive.ReceiveRecords | trunk/lib/mig4nto/ipc_funcs.c:506-553 | exactly the answer is added to what is delivered and what is open, and exactly the arrivals used to what has arrived |
| SelectiveReceive.EnqueueOrder | trunk/lib/mig4nto/ipc_funcs.c:388-421 | a new record goes to the end of the queue and the others keep their places; there is none exactly for an unexpected pulse or one whose sender is queued |
| SelectiveReceive.Receiver.GetRcvidFromPid | trunk/lib/mig4nto/ipc_funcs.c:616-638 | a receive id is found exactly if the process waits for a reply; a reply closes one message |
| MqList.RunMostRecentFirst | trunk/lib/mq/mq.c:67-160 | over every run of inserts, lookups and deletes from the empty list, the id of an insert being the library's choice: no open id is given out again, and the list holds exactly the open ids, each once, ordered by last insert or lookup |
| MqList.PickNearest | trunk/lib/mq/mq.c:127-143 | the id chosen is the nearest free one behind the last, cyclically |
| MqList.FirstIds | trunk/lib/mq/mq.c:127-143 | the ids of a library that only opens are 0x716D0001, 0x716D0002 and so on, the latest first in the list |
| MqList.PickFailsExactly | trunk/lib/mq/mq.c:127-143 | insertion fails if and only if all 65536 ids are in use |
| MqList.FullExactly | trunk/lib/mq/mq.c:127-143 | all ids are in use exactly when 65536 descriptors are open |
| MqList.Control.MqMatch | trunk/lib/mq/mq.c:67-76 | the descriptor with the id, and the link that leads to it |
| MqList.Control.MqLookup | trunk/lib/mq/mq.c:84-100 | a copy is returned exactly if the id is open; it moves to the front and the others keep their order |
| MqList.Control.MqModify | trunk/lib/mq/mq.c:107-121 | the descriptor itself is returned exactly if the id is open, and the order stays |
| MqList.Control.MqInsert | trunk/lib/mq/mq.c:127-143 | the new descriptor gets the next free id, cyclically over 16 bits, and the front place; false exactly if there is none |
| MqList.Control.MqDelete | trunk/lib/mq/mq.c:148-160 | exactly the descriptor with the id is taken out |

## Left out

- Lzo1Decoder.DecompressLzo1: takes only blocks that keep the C code, which has no tests, inside its buffers.
- Lzo1Decoder.DecompressLzo1a: takes only blocks that keep the C code, which has no tests, inside its buffers.
- Lzo1fDecoder.Decompress: models lzo1f_decompress, the version without overrun tests, on blocks that keep it inside its buffers.
- Lzo1xDecoder.Decompress: a block on which even the safe C code reads or writes outside its buffers has no defined result.
- Lzo1xMachine.MachineDecode: block length and buffer size are 32-bit lengths, as lzo_uint is; a system on which it is wider is not modelled.
- Lzo2aCodec.Decompress: models the version without overrun tests, on blocks that keep it inside its buffers.
- Swd.Finder.FindMatch: the 16-bit entries of head3, succ3 and llen3 are numbers; with n + 2F below 65535 nothing is lost.
- Md5.DigestOfChunks: the 64 steps of MD5Transform are a parameter, the same in code and definition.
- AsyncSend.Connection.Put: waiting on a full queue is a repeated call; condition variables, timers and MsgSendAsync are only whether they are called.
- AsyncSend.Connection.Fill: the stores into the slot and the increment of num_curmsg are one step against the kernel.
- AsyncReceive.Channel.Get: one receiver at a time; the kernel fills buffers but does not touch their links.
- SelectiveReceive.Receiver.Receivemx: message contents, failing calls and proxies of the proxy manager; an exhausted inbox and a negative pid both end without an answer.
- SelectiveReceive.RepliedOnce: counts replies through get_rcvid_from_pid; MsgReplyv itself is the kernel's.
- Alignment-dependent copy loops (LZO_UNALIGNED_OK_4): they copy the same bytes several at a time.
- Pointers: positions are numbers, and a dictionary slot holds a position or any other number.
- Statistics counters other than lit_bytes and match_bytes, progress callbacks, and query modes.
- lzo1x_999_compress_level: its nine settings are among the parameters, all of which are covered.
- LZO1Z, LZO1B, LZO1C, LZO1F-999, the compression levels above 1 and the LZO1X optimizer: the same arguments again.
- The other message, name, proxy and device calls of mig4nto and asyncmsg, and everything that needs hardware.
