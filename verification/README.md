# Micromegas telemetry: a verified model

Micromegas records telemetry events into byte queues, compresses the blocks with LZ4, ships them, and later parses
them, rebuilds call trees and answers queries. This project models that logic in Dafny 4.11 and proves what it is for.
`dafny verify dfyconfig.toml` checks everything.

* **LZ4 blocks** (`Lz4Format`, `Lz4Copy`, `Lz4Decoder`, `Lz4Emit`, `Lz4Greedy`, `Lz4Encoder`, `Lz4HcChains`,
  `Lz4HcEncoder`, `Lz4HcMatch`, `Lz4HcOptimal`, `Lz4RoundTrip`). `Lz4Format` has the block format: what sequences
  stand for, their bytes, a bytewise decoder, and the end-of-block conditions ("strict" blocks). The C functions are
  methods over arrays that are proved against it: the decoder with its fast loop, shortcut, wild copies and offset
  tables; the fast compressor in its unlimited, limited and fill-output modes; the optimal parser with its match
  finder and the in-place reversal. The hash is any function. The theorems are the round trips of `Lz4RoundTrip`, and
  what is compressed: `Lz4Greedy` has the parse of the fast compressor as a function of input and table, and its laws
  (equal bytes, nothing that repeats); `Lz4HcChains` shows that chains, chain swaps and pattern analysis pass over no
  longer match, and `Lz4HcOptimal` states every price change of the optimal parser.
* **LZ4 frames** (`Lz4FrameFormat`, `Lz4Frames`, `Lz4FrameHistory`, `Lz4FrameDecoder`, `Lz4FrameWriter`,
  `Lz4FrameStreaming`, `Lz4FrameBlocks`). A machine that takes one byte at a time says what a stream of bytes means;
  `Lz4Frames` says the same of a frame in parts, and the two agree. `Lz4FrameDecoder.Dctx` is the streaming decoder
  with its stages, buffers and dictionary pointer; it follows the machine whatever the sizes of its input and output
  pieces. Block decoding, block compression and xxHash are any functions; the only thing asked of the compressor is
  that the decoder undoes it. `Lz4FrameBlocks` shows that the LZ4 block codec does, for independent blocks.
* **Call trees** (`CallTree`, `CallTreeLimit`, `CallTreeBuilder`) and **their rows** (`SpanRows`, `SpanTable`). The
  stack machine against the nested view of a trace through a window; the tree against its tables.
* **Transit** (`TransitQueue`, `TransitParser`, `TransitEvents`, `TransitLayout`, `TransitDependencies`,
  `TransitRoundTrip`, `TransitStream`). From pushed events, through the dependencies that are extracted from them, to
  parsed objects.
* **Recording** (`Recording`), **level filters** (`LevelFilter`, `FilterCache`) and **early stops** (`EarlyStop`).
  Concurrent protocols are state machines over single steps, and the theorems are about every schedule.

`Basics` and `Bytes` hold what several modules share.

Things that hold only under a condition are proved with that condition, in both directions where it could be found:

* The bound of a frame covers the worst frame exactly when the number of full blocks fits 32 bits
  (`Lz4FrameWriter.FrameBoundCovers`): lz4frame.c keeps that number in an `unsigned`.
* Resetting a frame decoder does not clear the remaining content size. A size that was left makes the next frame fail
  exactly when that frame announces no size (`Lz4Frames.StaleSize`). Its documentation offers it for abandoning one
  frame and starting another; the model follows the code.
* The block decoder is proved between two specifications: what it accepts is what the bytewise decoder makes of the
  block, and it accepts every strict block that fits. Which other blocks it accepts is not stated.
* The search over configured names finds the longest prefix exactly when no name is empty or all names have the filter
  of the empty one (`FilterCache.SearchIsLongestIff`), because the sort key of an empty name is 0 and not the
  greatest.
* Metrics and thread-event queries stop for good at the first event after the range. `EarlyStop.StopIsRightIff` says
  when that is right; `EarlyStop.BlocksOutOfOrder` shows that log entries, which go on with the next block, differ.
* The parser and the process agree on where objects stand exactly when no object of an empty type was pushed
  (`TransitQueue.ParserFraming`).
* The parent column of the rows of `append_call_tree` uses 0 both for the root and for event number 0
  (`SpanTable.ParentZeroIsAmbiguous`, `SpanRows.TopParentIsClear`).
* Without set_full, a block that is swapped unasked is full up to the padding, and no block exceeds its capacity if no
  event exceeds the padding. Both hold in Unreal and for one thread; with two threads the Rust recorder breaks both,
  because it releases the lock between the push that fills a block and the flush (`Recording.FilledIff`,
  `Recording.BoundedIff`).
* Rust delivers blocks in the order of their offsets; Unreal calls the sink after the unlock, and does so exactly for
  streams of at most one thread (`Recording.InOrderIff`).
* The call tree of a well-nested trace is its view through the window exactly when the limit stops no event of the
  window, if events have different numbers (`CallTreeLimit.CallTreeIsClipIff`). The limit counts spans that begin in
  the window and roots that are invented; room for the visible spans and one root is enough
  (`CallTree.LimitSuffices`). It bounds the begin events that have a node (`CallTreeLimit.BegunWithinLimit`) and not
  the nodes (`CallTreeLimit.EndsPassTheLimit`).
* Cached filters are right exactly when the word starts in generation 0 or already holds the right filter
  (`FilterCache.CachedIsLongestIff`).
* Types of members are found by name exactly when no two share one (`TransitLayout.AllSecondaryFound`).

Nothing was executed.

## Model

| member | source | states |
|---|---|---|
| Lz4Format.BlockRoundTrip | unreal/MicromegasTelemetrySink/ThirdParty/lz4/lz4.c:865-1257 | For all sequences whose offsets point inside what precedes them and any last literals that respect the end-of-block distances: the block bytes decode to the replayed sequences followed by the literals, and keep the end-of-block conditions. |
| Lz4Format.SequencesReadBack | unreal/MicromegasTelemetrySink/ThirdParty/lz4/lz4.c:1037-1152 | Written sequences are consumed one by one by the bytewise decoder, from any first sequence to any last, and stay strict if what follows is. |
| Lz4Format.StrictDecodes | unreal/MicromegasTelemetrySink/ThirdParty/lz4/lz4.c:2011-2078 | A block that keeps the end-of-block conditions for `total` bytes always decodes, to exactly `total` bytes. |
| Lz4Format.StrictLeavesInput | unreal/MicromegasTelemetrySink/ThirdParty/lz4/lz4.c:2017-2063 | In a strict block, while five or more bytes of content are still to come, a token and five more bytes of input are left: the decoder's last-sequence test never misjudges one. |
| Lz4Format.CopyMatchIsPeriodic | unreal/MicromegasTelemetrySink/ThirdParty/lz4/lz4.c:2129-2175 | The bytewise overlapping copy of a match, for any offset (0 gives zeros) and length, repeats what stands `offset` bytes back and keeps the prefix. |
| Lz4Format.PeriodicIsCopyMatch | unreal/MicromegasTelemetrySink/ThirdParty/lz4/lz4.c:2129-2175 | The other direction: whatever extends the output periodically is that bytewise copy, so any fast copy need only show periodicity. |
| Lz4Format.ReadLengthReadsLengthBytes | unreal/MicromegasTelemetrySink/ThirdParty/lz4/lz4.c:1733-1755 | The length bytes that are written for any length below 2^32 are read back as that length, and the reader stops right after them. |
| Lz4Format.ShortStepIs | unreal/MicromegasTelemetrySink/ThirdParty/lz4/lz4.c:1956-2009 | A token without length bytes, in literal numbers: its nibbles are the literals and the match but for 4, and the offset is two bytes, the low one first. |
| Lz4Format.StrictMatchIs | unreal/MicromegasTelemetrySink/ThirdParty/lz4/lz4.c:2017-2063 | The end-of-block conditions of a match in literal numbers: an offset inside the output, 12 bytes from its start and 5 from its end to the end of the content. |
| Lz4Copy.WildCopy8 | unreal/MicromegasTelemetrySink/ThirdParty/lz4/lz4.c:408-415 | Copies literals 8 bytes at a time, past the end if need be: the range asked for is right and nothing below the start changes. |
| Lz4Copy.WildCopy32 | unreal/MicromegasTelemetrySink/ThirdParty/lz4/lz4.c:464-472 | Copies literals twice 16 bytes at a time, past the end if need be: the range asked for is right and nothing below the start changes. |
| Lz4Copy.JumpBack | unreal/MicromegasTelemetrySink/ThirdParty/lz4/lz4.c:417-418 | In a periodic buffer any multiple of the period back finds the same byte, for any period and multiple. |
| Lz4Copy.CopyExtendsPeriod | unreal/MicromegasTelemetrySink/ThirdParty/lz4/lz4.c:417-418 | A block copy from a multiple of the offset back, no longer than that distance, extends the repetition of the offset. |
| Lz4Copy.PeriodsAfterFour | unreal/MicromegasTelemetrySink/ThirdParty/lz4/lz4.c:417-418 | For offsets 1 to 7 the inc32table step leaves a distance that is a positive multiple of the offset. |
| Lz4Copy.PeriodsAfterEight | unreal/MicromegasTelemetrySink/ThirdParty/lz4/lz4.c:417-418 | After dec64table as well, the distance is a positive multiple of the offset (and Lz4Copy.DistanceAfterEight: at least 8). |
| Lz4Copy.DistanceAfterEight | unreal/MicromegasTelemetrySink/ThirdParty/lz4/lz4.c:417-418 | The distance after the first eight bytes is at least 8, and is what the two tables give. |
| Lz4Copy.WildCopy8Match | unreal/MicromegasTelemetrySink/ThirdParty/lz4/lz4.c:2166-2174 | Wild copies of 8 bytes from a multiple of the offset back extend the match, and nothing below changes. |
| Lz4Copy.WildCopy32Match | unreal/MicromegasTelemetrySink/ThirdParty/lz4/lz4.c:464-472 | Wild copies of 32 bytes equal the bytewise overlapping copy for every offset from 16 on. |
| Lz4Copy.FirstEight | unreal/MicromegasTelemetrySink/ThirdParty/lz4/lz4.c:2148-2161 | The first eight bytes of a match are right for every offset, 0 included, and the source that remains is at least 8 bytes back, at a multiple of the offset. |
| Lz4Copy.MemcpyUsingOffsetBase | unreal/MicromegasTelemetrySink/ThirdParty/lz4/lz4.c:438-459 | The whole match is the bytewise copy for any offset; nothing below the destination changes. |
| Lz4Copy.FillPattern | unreal/MicromegasTelemetrySink/ThirdParty/lz4/lz4.c:496-507 | Repeating an 8-byte pattern for offsets 1, 2 and 4 gives the bytewise copy. |
| Lz4Copy.MemcpyUsingOffset | unreal/MicromegasTelemetrySink/ThirdParty/lz4/lz4.c:477-508 | Every branch of the offset switch gives the bytewise copy of the match. |
| Lz4Decoder.ReadVariableLength | unreal/MicromegasTelemetrySink/ThirdParty/lz4/lz4.c:1733-1755 | Which of its three outcomes occurs, and in each how the 32-bit sum relates to the length the format means, up to a stop in the middle of a length. |
| Lz4Decoder.ReadLiteralLength | unreal/MicromegasTelemetrySink/ThirdParty/lz4/lz4.c:2002-2009 | A literal length that is accepted is the one the format means; one that is refused belongs to no well-formed token. |
| Lz4Decoder.LiteralCopy | unreal/MicromegasTelemetrySink/ThirdParty/lz4/lz4.c:2011-2078 | At safe_literal_copy the decoder stays on the run of the bytewise decoder: it copies and goes on, ends exactly at the end of the input, or rejects only what is not strict. |
| Lz4Decoder.StrictLeavesRoom | unreal/MicromegasTelemetrySink/ThirdParty/lz4/lz4.c:2017-2063 | What the parsing restrictions leave after the literals of a sequence that is not the last: 8 bytes of input and 12 of output. |
| Lz4Decoder.LengthRejected | unreal/MicromegasTelemetrySink/ThirdParty/lz4/lz4.c:2087-2093 | A match length that runs up to the last five bytes of input belongs to no strict block. |
| Lz4Decoder.MatchLength | unreal/MicromegasTelemetrySink/ThirdParty/lz4/lz4.c:2087-2094 | At _copy_match: the length read is the format's, or the block is not strict. |
| Lz4Decoder.CopyMatchCarefully | unreal/MicromegasTelemetrySink/ThirdParty/lz4/lz4.c:2148-2176 | Near the end of the output the match is copied as bytes would be, and refused exactly when it would reach the last five bytes. |
| Lz4Decoder.MatchCopy | unreal/MicromegasTelemetrySink/ThirdParty/lz4/lz4.c:2096-2176 | At safe_match_copy the decoder stays on the run of the bytewise decoder, offset check included. |
| Lz4Decoder.CopyEighteen | unreal/MicromegasTelemetrySink/ThirdParty/lz4/lz4.c:1988-1992 | Three fixed-size copies from 8 or more bytes back cover every match of up to 18 bytes. |
| Lz4Decoder.ShortcutLiterals | unreal/MicromegasTelemetrySink/ThirdParty/lz4/lz4.c:1970-1982 | The first stage of the shortcut: 16 bytes copied for up to 14 literals, and the offset, keep to the bytewise run. |
| Lz4Decoder.ShortMatch | unreal/MicromegasTelemetrySink/ThirdParty/lz4/lz4.c:1984-1995 | The second stage of the shortcut leads to the next token of the bytewise run. |
| Lz4Decoder.SafeToken | unreal/MicromegasTelemetrySink/ThirdParty/lz4/lz4.c:1956-2009 | The top of the careful loop keeps to the bytewise run and always makes progress. |
| Lz4Decoder.SafeDecode | unreal/MicromegasTelemetrySink/ThirdParty/lz4/lz4.c:1951-2189 | The careful loop, entered at any of its labels, ends with the bytewise result or with an error that no strict block gets. |
| Lz4Decoder.FastLiterals | unreal/MicromegasTelemetrySink/ThirdParty/lz4/lz4.c:1827-1872 | Literals and offset of the fast loop keep to the bytewise run, and it leaves for the careful loop with the right state. |
| Lz4Decoder.FastMatch | unreal/MicromegasTelemetrySink/ThirdParty/lz4/lz4.c:1939-1949 | A match far enough from the end of the output equals the bytewise copy. |
| Lz4Decoder.FastMatchLength | unreal/MicromegasTelemetrySink/ThirdParty/lz4/lz4.c:1874-1949 | The match half of the fast loop keeps to the bytewise run. |
| Lz4Decoder.FastDecode | unreal/MicromegasTelemetrySink/ThirdParty/lz4/lz4.c:1817-1950 | The whole fast loop hands a correct state to the careful loop. |
| Lz4Decoder.DecompressSafe | unreal/MicromegasTelemetrySink/ThirdParty/lz4/lz4.c:1763-2202 | For every input and capacity: a result that is not negative is the length of the bytewise decoder's output, which is what was written; and every block that is strict for a size that fits is decoded to that size. |
| Lz4Decoder.EmptyOutput | unreal/MicromegasTelemetrySink/ThirdParty/lz4/lz4.c:1805-1813 | The only strict block of no content is the single byte 0, which is what the special case accepts. |
| Lz4Emit.CommonBytes | unreal/MicromegasTelemetrySink/ThirdParty/lz4/lz4.c:515-611 | How many of eight bytes agree before the first that does not. |
| Lz4Emit.Count | unreal/MicromegasTelemetrySink/ThirdParty/lz4/lz4.c:615-639 | The length of the longest common run up to the limit: all of it agrees, and the next byte does not unless the limit is reached. |
| Lz4Emit.EncodeLiterals | unreal/MicromegasTelemetrySink/ThirdParty/lz4/lz4.c:1037-1062 | Writes exactly the bytes of a token with its literals, whatever lies behind, and keeps what lies before. |
| Lz4Emit.WriteMatchExt | unreal/MicromegasTelemetrySink/ThirdParty/lz4/lz4.c:1139-1149 | 4-byte stores of 255 that run ahead leave exactly the extension bytes of the length. |
| Lz4Emit.WriteMatchCode | unreal/MicromegasTelemetrySink/ThirdParty/lz4/lz4.c:1139-1152 | Completes a sequence: the token and length bytes then read as literals followed by the match. |
| Lz4Greedy.SlotIs | unreal/MicromegasTelemetrySink/ThirdParty/lz4/lz4.c:704-735 | Which bytes a hash takes and how many slots there are: four bytes and 8192 slots with 16-bit indexes, eight bytes and 4096 slots with 32-bit ones. |
| Lz4Greedy.FirstMatchIsFirst | unreal/MicromegasTelemetrySink/ThirdParty/lz4/lz4.c:971-1031 | The search as a function: it finds the first position it probes whose slot holds a usable index (of this input, within 65535 bytes with 32-bit indexes, four bytes equal), and nothing only if every position it probes up to the limit fails that. |
| Lz4Greedy.LongestIsCommonRun | unreal/MicromegasTelemetrySink/ThirdParty/lz4/lz4.c:615-639 | A run that agrees, and ends at the limit or before a byte that differs, is the common run: there is only one length for a match. |
| Lz4Greedy.SizeIsLength | unreal/MicromegasTelemetrySink/ThirdParty/lz4/lz4.c:1037-1152 | Sizes by arithmetic are the lengths of the bytes written, and the span of sequences is the length of what they replay. |
| Lz4Greedy.TakenAtMatch | unreal/MicromegasTelemetrySink/ThirdParty/lz4/lz4.c:1037-1138 | A match that fits is taken as it is; when the output is to be filled, literals that do not fit end the block. |
| Lz4Greedy.TakenCutAtMatch | unreal/MicromegasTelemetrySink/ThirdParty/lz4/lz4.c:1113-1138 | A match that does not fit an output to be filled is cut to exactly the length for which there is room, and nothing follows. |
| Lz4Greedy.FillTakesAll | unreal/MicromegasTelemetrySink/ThirdParty/lz4/lz4.c:1037-1138 | With nine bytes to spare, filling the output takes all sequences. |
| Lz4Greedy.EqualBytes | unreal/MicromegasTelemetrySink/ThirdParty/lz4/lz4.c:936-1219 | A law of the compressor: 13 or more equal bytes, for any hash, table, index type and acceleration, are one literal, one match with offset 1, and five last literals, in 10 + (n + 230) / 255 bytes. |
| Lz4Greedy.EqualSearch | unreal/MicromegasTelemetrySink/ThirdParty/lz4/lz4.c:971-1031 | In equal bytes the first search finds the match of the second byte with the first. |
| Lz4Greedy.NoRepeatIsLiterals | unreal/MicromegasTelemetrySink/ThirdParty/lz4/lz4.c:936-1257 | The other law: when no four bytes come twice within reach, the block is one run of literals. |
| Lz4Encoder.Stream.constructor | unreal/MicromegasTelemetrySink/ThirdParty/lz4/lz4.c:1460-1468 | A fresh context is ready and its table holds no position: every slot is 0. |
| Lz4Encoder.Stream.PrepareTable | unreal/MicromegasTelemetrySink/ThirdParty/lz4/lz4.c:818-857 | For every next input: no index that stays in the table can be taken for a position of that input, 16-bit indexes cannot overflow, and the table and the offset are exactly those that the reset conditions and the 64 KB gap give. |
| Lz4Encoder.Stream.Put | unreal/MicromegasTelemetrySink/ThirdParty/lz4/lz4.c:749-759 | Adding a position changes one slot and keeps the table's invariant. |
| Lz4Encoder.Stream.Candidate | unreal/MicromegasTelemetrySink/ThirdParty/lz4/lz4.c:975-1028 | For any hash: a candidate is accepted if and only if the index that stood in the slot belongs to this input, is at most 65535 bytes back (with 32-bit indexes), and its four bytes agree; the slot then holds the position. With 16-bit indexes the distance is never tested: the 64 KB limit on the input is what bounds it. |
| Lz4Encoder.Stream.ClearPositions | unreal/MicromegasTelemetrySink/ThirdParty/lz4/lz4.c:1121-1133 | After a match has been shortened, no index points past the position where the input was left. |
| Lz4Encoder.Stream.FindMatch | unreal/MicromegasTelemetrySink/ThirdParty/lz4/lz4.c:971-1031 | The search gives exactly what the function FirstMatch gives for the old table, table included: the first usable candidate among the positions that it probes, at least 12 bytes before the end; nothing only if each of them fails (Lz4Greedy.FirstMatchIsFirst). |
| Lz4Encoder.Stream.MatchLength | unreal/MicromegasTelemetrySink/ThirdParty/lz4/lz4.c:1091-1138 | The length is the whole common run up to the last five bytes if that fits; otherwise it is cut to exactly the room in fill mode, the table being cleaned up, and refused in limited mode. |
| Lz4Encoder.CatchUp | unreal/MicromegasTelemetrySink/ThirdParty/lz4/lz4.c:1033-1035 | Backward extension gives a true match with the same offset, as far back as the bytes agree. |
| Lz4Encoder.ReplayMatch | unreal/MicromegasTelemetrySink/ThirdParty/lz4/lz4.c:1033-1156 | A match found in the input, appended to sequences that replay its beginning, replays up to the end of the match, and says what block size that asks for. |
| Lz4Encoder.ProgressAfter | unreal/MicromegasTelemetrySink/ThirdParty/lz4/lz4.c:1064-1156 | A written sequence keeps the invariant of the compressor: bytes, replay, end-of-block distances and room. |
| Lz4Encoder.FittingRun | unreal/MicromegasTelemetrySink/ThirdParty/lz4/lz4.c:1226-1230 | The trimmed last run is the longest that fits in the room that is left, to within one byte of the output. |
| Lz4Encoder.StartSequence | unreal/MicromegasTelemetrySink/ThirdParty/lz4/lz4.c:1037-1062 | Literals of the next sequence, with the room tests that guard them. |
| Lz4Encoder.AppendMatch | unreal/MicromegasTelemetrySink/ThirdParty/lz4/lz4.c:1080-1156 | Offset and length bytes complete exactly the sequence of these literals, this offset and this length, and keep the invariant. |
| Lz4Encoder.NextMatch | unreal/MicromegasTelemetrySink/ThirdParty/lz4/lz4.c:1064-1156 | From _next_match on: the sequence that is completed is the next one of the parse, cut if the output is to be filled and it does not fit; it is dropped, or the call fails, only where the parse does not fit; the table stays sound in each case. |
| Lz4Encoder.NextPosition | unreal/MicromegasTelemetrySink/ThirdParty/lz4/lz4.c:1158-1214 | After a match: two positions are hashed, and a match at the next byte is followed at once if, and only if, its slot is usable. |
| Lz4Encoder.MatchRun | unreal/MicromegasTelemetrySink/ThirdParty/lz4/lz4.c:1037-1214 | A match and those that follow it without literals: the sequences written are those of the parse, up to the next search. |
| Lz4Encoder.EncodeFrom | unreal/MicromegasTelemetrySink/ThirdParty/lz4/lz4.c:1033-1214 | From a match that was found: it is extended backwards as far as the bytes agree, and what is written is the rest of the parse up to the next search, or says that the parse does not fit. |
| Lz4Encoder.CompressSequences | unreal/MicromegasTelemetrySink/ThirdParty/lz4/lz4.c:936-1219 | For every input, hash, table, mode and acceleration, the main loop ends with exactly the sequences of the parse that the old table determines, as many as fit when the output is to be filled; it fails only if they and the least that follows do not fit. |
| Lz4Encoder.LastLiterals | unreal/MicromegasTelemetrySink/ThirdParty/lz4/lz4.c:1221-1257 | The block that results decodes to the part of the input that was consumed and is strict for it. Without a room to fill its size is that of the sequences and all last literals, or 0 exactly when that does not fit; otherwise as many last literals as fit are taken. |
| Lz4Encoder.CompressValidated | unreal/MicromegasTelemetrySink/ThirdParty/lz4/lz4.c:865-1257 | The whole compressor: a result above 0 is a strict block for the input consumed, and what stands in dst is a function of input, table and mode: the block of the parse if it fits, else nothing; or, to fill the output, the sequences and literals that fit. |
| Lz4Encoder.CompressGeneric | unreal/MicromegasTelemetrySink/ThirdParty/lz4/lz4.c:1263-1298 | Adds the empty input and inputs that are too large; says exactly when the result is 0 without a limit and when the output is filled. |
| Lz4Encoder.CompressFastReset | unreal/MicromegasTelemetrySink/ThirdParty/lz4/lz4.c:1333-1368 | A context that was used before, on any inputs: the result is the block of the parse that its table determines, returned if and only if it fits. 13 or more equal bytes give exactly 10 + (n + 230) / 255 bytes if that fits, for any hash, table and acceleration; the worst case is n + n/255 + 2. |
| Lz4Encoder.CompressFast | unreal/MicromegasTelemetrySink/ThirdParty/lz4/lz4.c:1371-1387 | With a fresh context: the block of the parse from an empty table, returned if and only if it fits, with the same laws: 10 + (n + 230) / 255 bytes for equal bytes, never 0 when the bound fits, and then at most n + n/255 + 2. |
| Lz4Encoder.CompressDestSize | unreal/MicromegasTelemetrySink/ThirdParty/lz4/lz4.c:1399-1432 | Never exceeds the target; the block stands for exactly the bytes counted as consumed; 0 only for an oversized input or an empty target; unless the whole input went in, at most one byte of the target is left; and the whole input goes in when its block and three bytes fit. |
| Lz4RoundTrip.Decompress | unreal/MicromegasTelemetrySink/ThirdParty/lz4/lz4.c:2196-2202 | A compressed block decompresses to its content if there is room, and is refused if there is not. |
| Lz4RoundTrip.RoundTrip | unreal/MicromegasTelemetrySink/ThirdParty/lz4/lz4.c:1371-2202 | Round trip for every input, hash, capacity and acceleration: whenever the compressor succeeds the decoder gives back exactly the input; with the bound it always succeeds. |
| Lz4RoundTrip.RoundTripDestSize | unreal/MicromegasTelemetrySink/ThirdParty/lz4/lz4.c:1399-1432 | Round trip of destSize: exactly the consumed part of the input comes back. |
| Lz4RoundTrip.RoundTripTwice | unreal/MicromegasTelemetrySink/ThirdParty/lz4/lz4.c:1333-1368 | Two inputs through one context that is not cleared: the second comes back too. |
| Lz4HcEncoder.EncodeSequence | unreal/MicromegasTelemetrySink/ThirdParty/lz4/lz4hc.c:463-544 | A match of the input becomes exactly that sequence, with its size by arithmetic; a refusal happens only with a limit, and only if the sequence and the last literals do not fit. |
| Lz4HcChains.ChainOne | unreal/MicromegasTelemetrySink/ThirdParty/lz4/lz4hc.c:118-136 | Hashing and chaining one more position keeps: heads are the last position of their hash, and a link passes over no position with the same hash. |
| Lz4HcChains.LinkPassesOver | unreal/MicromegasTelemetrySink/ThirdParty/lz4/lz4hc.c:408-411 | What a link at any place of a match passes over agrees in fewer bytes than reach that place: following it loses no longer match. |
| Lz4HcChains.RunOfOneByte | unreal/MicromegasTelemetrySink/ThirdParty/lz4/lz4hc.c:353-378 | The length of a match between two runs of one byte is the shorter of the runs. |
| Lz4HcChains.Followed | unreal/MicromegasTelemetrySink/ThirdParty/lz4/lz4hc.c:408-411 | Following a link keeps: every position above the next candidate has been beaten. |
| Lz4HcChains.Swapped | unreal/MicromegasTelemetrySink/ThirdParty/lz4/lz4hc.c:314-335 | Following the chain of another place inside the best match keeps the same: what is passed over has no longer match. |
| Lz4HcChains.EndsTogether | unreal/MicromegasTelemetrySink/ThirdParty/lz4/lz4hc.c:372-377 | Inside a long run of one byte, moving to the position where both runs end together loses no longer match. |
| Lz4HcChains.FromTheBeginning | unreal/MicromegasTelemetrySink/ThirdParty/lz4/lz4hc.c:383-399 | Nor does moving to the beginning of that run, once the match it gives has been taken. |
| Lz4HcMatch.CountPattern | unreal/MicromegasTelemetrySink/ThirdParty/lz4/lz4hc.c:171-199 | How often one byte is repeated forward, exactly. |
| Lz4HcMatch.ReverseCountPattern | unreal/MicromegasTelemetrySink/ThirdParty/lz4/lz4hc.c:204-219 | How often one byte is repeated backward, exactly. |
| Lz4HcMatch.HcContext.constructor | unreal/MicromegasTelemetrySink/ThirdParty/lz4/lz4hc.c:94-98 | A fresh context is ready. |
| Lz4HcMatch.HcContext.Init | unreal/MicromegasTelemetrySink/ThirdParty/lz4/lz4hc.c:100-114 | Indexes go on after a gap of 64 KB, or start again after 1 GB: no old index can point into the new block, and the chains are right for any input. |
| Lz4HcMatch.HcContext.Insert | unreal/MicromegasTelemetrySink/ThirdParty/lz4/lz4hc.c:118-136 | Positions are hashed and chained up to the one given, and no further: heads and links are then right for all of them. |
| Lz4HcMatch.HcContext.TryCandidate | unreal/MicromegasTelemetrySink/ThirdParty/lz4/lz4hc.c:278-294 | The whole common run at a candidate is taken if, and only if, it has four bytes or more and is longer than the best. |
| Lz4HcMatch.HcContext.Attempt | unreal/MicromegasTelemetrySink/ThirdParty/lz4/lz4hc.c:278-312 | An attempt beats its candidate: after it no match at that position is longer than the best. |
| Lz4HcMatch.HcContext.BestChain | unreal/MicromegasTelemetrySink/ThirdParty/lz4/lz4hc.c:314-330 | Chain swap yields the distance of the position it chooses, which is inside the match and goes back at least as far as the first one, or stays where it was. |
| Lz4HcMatch.HcContext.SwapChain | unreal/MicromegasTelemetrySink/ThirdParty/lz4/lz4hc.c:314-335 | A swap of chains moves to a position before, above which all have been beaten. |
| Lz4HcMatch.HcContext.AnalysePattern | unreal/MicromegasTelemetrySink/ThirdParty/lz4/lz4hc.c:349-404 | Pattern analysis moves the search to a position that is never below the lowest one; every position that it passes over has been beaten, and a length that it derives without comparing is that of a true match. |
| Lz4HcMatch.HcContext.AtRepeat | unreal/MicromegasTelemetrySink/ThirdParty/lz4/lz4hc.c:337-406 | Whether a repeated pattern is there is found out once; where it is used, all that is passed over has been beaten. |
| Lz4HcMatch.HcContext.Advance | unreal/MicromegasTelemetrySink/ThirdParty/lz4/lz4hc.c:337-411 | The next candidate, behind a repeated pattern or along the chain: a position before this one, and everything between has been beaten. |
| Lz4HcMatch.HcContext.Search | unreal/MicromegasTelemetrySink/ThirdParty/lz4/lz4hc.c:272-411 | The search returns a true match that is longer than asked, or none. With as many attempts as there are positions within reach, no match within reach is longer; with any attempt at all, none at the first candidate is. |
| Lz4HcMatch.HcContext.InsertAndGetWiderMatch | unreal/MicromegasTelemetrySink/ThirdParty/lz4/lz4hc.c:234-443 | Inserts the positions before it, then returns a true match longer than asked, or none; the longest one within reach if there are attempts enough. |
| Lz4HcMatch.HcContext.FindLongerMatch | unreal/MicromegasTelemetrySink/ThirdParty/lz4/lz4hc.c:1297-1317 | A match of length 0, or a true match of 4 bytes or more that leaves the last five bytes and is longer than asked, unless it was cut to 18 bytes to favour decompression speed; with attempts enough the longest within reach. |
| Lz4HcOptimal.PricesAreSizes | unreal/MicromegasTelemetrySink/ThirdParty/lz4/lz4hc.c:1266-1289 | A price is a size: that of a sequence is the number of bytes it is written in. |
| Lz4HcOptimal.BackPathIsGood | unreal/MicromegasTelemetrySink/ThirdParty/lz4/lz4hc.c:1520-1537 | The backward path from any position leads to 0, has exactly that length, and each of its steps is a literal or part of a true match at its place. |
| Lz4HcOptimal.Reverse | unreal/MicromegasTelemetrySink/ThirdParty/lz4/lz4hc.c:1520-1537 | The in-place reversal: the backward path to `cur` and the elected step become a forward path from 0. |
| Lz4HcOptimal.SetInitialPrices | unreal/MicromegasTelemetrySink/ThirdParty/lz4/lz4hc.c:1382-1416 | The first prices are exactly those of literals, of the parts of the first match, and of three literals behind it, and describe only steps that stand for the input. |
| Lz4HcOptimal.TrailingLiterals | unreal/MicromegasTelemetrySink/ThirdParty/lz4/lz4hc.c:1408-1416 | Adds exactly three literals behind the last position and changes nothing else. |
| Lz4HcOptimal.LiteralsBefore | unreal/MicromegasTelemetrySink/ThirdParty/lz4/lz4hc.c:1454-1467 | Up to three literals behind a position replace its neighbours exactly where they are cheaper; every entry stays a step that stands for the input. |
| Lz4HcOptimal.MatchPrices | unreal/MicromegasTelemetrySink/ThirdParty/lz4/lz4hc.c:1469-1511 | A match and its parts replace entries exactly where they are as cheap, or cheaper when decompression speed is favoured, or reach beyond the stretch; the last position moves only with the whole match; three literals follow. |
| Lz4HcOptimal.OptimiseAt | unreal/MicromegasTelemetrySink/ThirdParty/lz4/lz4hc.c:1418-1513 | One position of a stretch: it is searched unless the next one costs no more; what is found ends the stretch if it is long enough, and changes the prices exactly as above otherwise. |
| Lz4HcOptimal.Optimise | unreal/MicromegasTelemetrySink/ThirdParty/lz4/lz4hc.c:1382-1516 | Every position is looked at in order until the stretch or the input ends or a long match is found, with the longest match there if there are attempts enough and with exactly the price changes above; what is elected is a path of true steps that leaves the end-of-block distances. |
| Lz4HcOptimal.LongNextIsElected | unreal/MicromegasTelemetrySink/ThirdParty/lz4/lz4hc.c:1434-1452 | The parse is not greedy: if the longest match one byte later is long enough, it is elected, and the byte before it stays a literal. |
| Lz4HcOptimal.ElectedPath | unreal/MicromegasTelemetrySink/ThirdParty/lz4/lz4hc.c:1515-1537 | The elected path reaches the last position and stays five bytes before the end. |
| Lz4HcOptimal.EncodePath | unreal/MicromegasTelemetrySink/ThirdParty/lz4/lz4hc.c:1540-1554 | Encoding the forward path appends exactly its matches, each with the literals since the one before, or stops at the first that does not fit. |
| Lz4HcOptimal.DestOverflow | unreal/MicromegasTelemetrySink/ThirdParty/lz4/lz4hc.c:1593-1615 | The sequence that overflows is shortened or dropped, and the invariant holds for what is left. |
| Lz4HcOptimal.EncodeElected | unreal/MicromegasTelemetrySink/ThirdParty/lz4/lz4hc.c:1518-1554 | Reversal and encoding together append exactly the sequences of the elected path, or stop at the first that does not fit. |
| Lz4HcOptimal.MatchesAreSequences | unreal/MicromegasTelemetrySink/ThirdParty/lz4/lz4hc.c:1540-1554 | A path with a match in it has a sequence. |
| Lz4HcOptimal.PathHasMatch | unreal/MicromegasTelemetrySink/ThirdParty/lz4/lz4hc.c:1454-1537 | A path that passes position 4 has a match in it: literals never replace the first one there. |
| Lz4HcOptimal.EncodeOptimised | unreal/MicromegasTelemetrySink/ThirdParty/lz4/lz4hc.c:1382-1554 | From a first match on at least one sequence is appended; a match up to the last literals is taken as it is without full update; a long match one byte later is taken instead. |
| Lz4HcOptimal.EncodeFound | unreal/MicromegasTelemetrySink/ThirdParty/lz4/lz4hc.c:1364-1554 | A first match that is long enough is encoded at once, as exactly that sequence; any other opens a stretch. |
| Lz4HcOptimal.OptimalSequences | unreal/MicromegasTelemetrySink/ThirdParty/lz4/lz4hc.c:1360-1555 | For any hash, number of searches and lengths, the main loop ends with sequences that replay a prefix of the input. If every search is thorough and there is no sequence, no four bytes come twice within reach; and the first long match is taken rather than a shorter one a byte before. |
| Lz4HcOptimal.CompressOptimal | unreal/MicromegasTelemetrySink/ThirdParty/lz4/lz4hc.c:1320-1615 | The optimal compressor gives a strict block for what it consumed, within the room given; 0 for equal bytes only if 10 + (n + 230) / 255 bytes do not fit, and otherwise that size; an output to be filled is filled to within one byte unless all went in. |
| Lz4HcOptimal.CompressGenericHc | unreal/MicromegasTelemetrySink/ThirdParty/lz4/lz4hc.c:796-857 | At every optimal level a result above 0 is the block of the sequences for what was consumed, with the same laws by level; which sizes it refuses, when it cannot fail, and that a failure leaves a context that can be used again. |
| Lz4HcOptimal.CompressHcFastReset | unreal/MicromegasTelemetrySink/ThirdParty/lz4/lz4hc.c:935-945 | A context that was used before still gives a block for the whole input. Inputs no longer than the attempts of the level (96, 512, 16384) are left as literals only if no four bytes come twice; equal bytes take exactly 10 + (n + 230) / 255 bytes; and a match longer than 64, 128 or 4095 bytes is taken rather than a shorter one a byte before. |
| Lz4HcOptimal.CompressHcDestSize | unreal/MicromegasTelemetrySink/ThirdParty/lz4/lz4hc.c:972-979 | destSize at an optimal level: 0 only for an oversized input or an empty target, a block for what was consumed, and at most one byte of the target left unless all went in. |
| Lz4RoundTrip.RoundTripHc | unreal/MicromegasTelemetrySink/ThirdParty/lz4/lz4hc.c:954-969 | High-compression round trip at every optimal level. |
| Lz4RoundTrip.RoundTripHcDestSize | unreal/MicromegasTelemetrySink/ThirdParty/lz4/lz4hc.c:972-979 | High-compression destSize round trip. |
| Lz4FrameFormat.RunAppend | unreal/MicromegasTelemetrySink/ThirdParty/lz4/lz4frame.c:1405-1900 | Taking bytes one at a time, the format has no memory of how they were cut: a run over two pieces is the run over their concatenation. |
| Lz4FrameFormat.DecodeHeader | unreal/MicromegasTelemetrySink/ThirdParty/lz4/lz4frame.c:1134-1226 | What a decoded header announces about its own size, and that a block size and a 64-bit content size come out. |
| Lz4FrameFormat.HeaderIs | unreal/MicromegasTelemetrySink/ThirdParty/lz4/lz4frame.c:1134-1226 | Byte by byte, which headers are read, put off, skipped and refused: magic number 04 22 4D 18, or 5x 2A 4D 18 to skip; version 1; reserved bits 0; a block size id of 4 to 7; the checksum byte. |
| Lz4FrameFormat.HeaderInfoIs | unreal/MicromegasTelemetrySink/ThirdParty/lz4/lz4frame.c:1168-1221 | What each flag bit and each block size byte of a header that is read says, in literal numbers. |
| Lz4FrameFormat.ChecksumByteChanged | unreal/MicromegasTelemetrySink/ThirdParty/lz4/lz4frame.c:1202-1208 | A header whose checksum byte is changed to any other value is refused. |
| Lz4FrameFormat.BlockHeaderIs | unreal/MicromegasTelemetrySink/ThirdParty/lz4/lz4frame.c:1523-1553 | The four bytes before a block, byte by byte: zeros end the frame, the highest bit marks a raw block, and a size above the frame's is refused. |
| Lz4FrameFormat.Last64Is | unreal/MicromegasTelemetrySink/ThirdParty/lz4/lz4frame.c:1316-1383 | The history that counts is the last 65536 bytes. |
| Lz4FrameFormat.HeaderPrefix | unreal/MicromegasTelemetrySink/ThirdParty/lz4/lz4frame.c:1134-1226 | A header is decided by its own first bytes, whatever follows: good, bad, incomplete and skippable headers agree on every long enough prefix. |
| Lz4FrameFormat.RunHeader | unreal/MicromegasTelemetrySink/ThirdParty/lz4/lz4frame.c:1438-1468 | The shortcut for 19 bytes of input and the byte-by-byte collection of the header agree. |
| Lz4FrameFormat.RunRaw | unreal/MicromegasTelemetrySink/ThirdParty/lz4/lz4frame.c:1555-1593 | Any part of an uncompressed block can be taken at once. |
| Lz4FrameFormat.RunSkip | unreal/MicromegasTelemetrySink/ThirdParty/lz4/lz4frame.c:1851-1861 | So can any part of a skippable frame. |
| Lz4FrameFormat.RunCollect | unreal/MicromegasTelemetrySink/ThirdParty/lz4/lz4frame.c:1452-1463 | So can any part of what is being collected. |
| Lz4Frames.RunBlock | unreal/MicromegasTelemetrySink/ThirdParty/lz4/lz4frame.c:1496-1765 | A block of a frame is decoded to what its parts say against the history, or fails, checksums and sizes included. |
| Lz4Frames.RunBlocks | unreal/MicromegasTelemetrySink/ThirdParty/lz4/lz4frame.c:1496-1765 | Any number of blocks, linked or not, run to the content that their parts say, or fail where they do. |
| Lz4Frames.RunEnd | unreal/MicromegasTelemetrySink/ThirdParty/lz4/lz4frame.c:1767-1814 | The end mark succeeds if and only if the announced size is used up and the content checksum agrees. |
| Lz4Frames.FrameDecodes | unreal/MicromegasTelemetrySink/ThirdParty/lz4/lz4frame.c:1405-1900 | The bytes of any frame, good or bad, run to what the frame means by a definition on its parts; after a good one the decoder is ready for the next. |
| Lz4Frames.StreamDecodes | unreal/MicromegasTelemetrySink/ThirdParty/lz4/lz4frame.c:1405-1900 | The bytes of any number of frames, one after the other, run to the contents that they mean, or fail if one is bad. |
| Lz4Frames.SkippableDecodes | unreal/MicromegasTelemetrySink/ThirdParty/lz4/lz4frame.c:1816-1861 | A skippable frame, with any of its sixteen magic numbers and any payload of the size it announces, leaves the decoder exactly as it was. |
| Lz4Frames.StaleSize | unreal/MicromegasTelemetrySink/ThirdParty/lz4/lz4frame.c:1118-1123 | LZ4F_resetDecompressionContext does not clear the remaining size. A left-over size makes the next good frame fail if and only if that frame announces no size. |
| Lz4Frames.StaleAfterHeader | unreal/MicromegasTelemetrySink/ThirdParty/lz4/lz4frame.c:1118-1123 | The input that shows it: a reset right after a header with a content size leaves that size. |
| Lz4FrameHistory.HistoryMoved | unreal/MicromegasTelemetrySink/ThirdParty/lz4/lz4frame.c:1873-1884 | History copied in front of a waiting block continues into it: the last 64 KB are still the last 64 KB of all output. |
| Lz4FrameHistory.KeepEnough | unreal/MicromegasTelemetrySink/ThirdParty/lz4/lz4frame.c:1316-1383 | How many bytes of old history must be kept so that the last 64 KB stay right. |
| Lz4FrameDecoder.Dctx.constructor | unreal/MicromegasTelemetrySink/ThirdParty/lz4/lz4frame.c:1090-1101 | A new context is consistent: nothing taken, nothing delivered. |
| Lz4FrameDecoder.Dctx.UpdateDict | unreal/MicromegasTelemetrySink/ThirdParty/lz4/lz4frame.c:1316-1383 | In each of its cases: afterwards the dictionary ends with the last 64 KB of the output, is still inside a buffer that stays valid, and the block that waits in tmpOut is untouched. |
| Lz4FrameDecoder.Dctx.PreserveHistory | unreal/MicromegasTelemetrySink/ThirdParty/lz4/lz4frame.c:1865-1895 | When the call returns and dst belongs to the caller again, the dictionary lies in the context's own buffer and the decoder's state means what it meant. |
| Lz4FrameDecoder.Dctx.DoGetFrameHeader | unreal/MicromegasTelemetrySink/ThirdParty/lz4/lz4frame.c:1438-1450 | With 19 bytes at hand the header is decoded in place, with fewer it is collected; either way the context does the machine's steps over the bytes it takes, or fails where the machine fails, and makes progress. |
| Lz4FrameDecoder.Dctx.DoStoreFrameHeader | unreal/MicromegasTelemetrySink/ThirdParty/lz4/lz4frame.c:1452-1467 | Collects a header that comes in any pieces; the target grows once the flags are known, and the header that results is the machine's. |
| Lz4FrameDecoder.Dctx.AllocateBuffers | unreal/MicromegasTelemetrySink/ThirdParty/lz4/lz4frame.c:1472-1486 | Buffers that are too small are allocated again; they then suffice for the frame. |
| Lz4FrameDecoder.Dctx.DoInit | unreal/MicromegasTelemetrySink/ThirdParty/lz4/lz4frame.c:1469-1494 | Opens the frame with buffers, counters and checksum state that stand for the machine at its first block. |
| Lz4FrameDecoder.Dctx.DoGetBlockHeader | unreal/MicromegasTelemetrySink/ThirdParty/lz4/lz4frame.c:1496-1553 | A block header taken whole: end mark, raw block, compressed block, or a size that is refused exactly when the machine refuses it. |
| Lz4FrameDecoder.Dctx.DoStoreBlockHeader | unreal/MicromegasTelemetrySink/ThirdParty/lz4/lz4frame.c:1506-1553 | A block header that comes in pieces leads to the block, the end mark or the refusal that the machine reaches. |
| Lz4FrameDecoder.Dctx.DoCopyDirect | unreal/MicromegasTelemetrySink/ThirdParty/lz4/lz4frame.c:1555-1593 | As much of a raw block as input and room allow goes to dst; hash, remaining size and history follow it as in the machine. |
| Lz4FrameDecoder.Dctx.DoGetBlockChecksum | unreal/MicromegasTelemetrySink/ThirdParty/lz4/lz4frame.c:1596-1629 | The checksum of a raw block, whole or in pieces; a wrong one fails exactly where the machine fails. |
| Lz4FrameDecoder.Dctx.DoGetCBlock | unreal/MicromegasTelemetrySink/ThirdParty/lz4/lz4frame.c:1631-1640 | A compressed block that is whole in the input is decoded from there, any other is collected. |
| Lz4FrameDecoder.Dctx.DoStoreCBlock | unreal/MicromegasTelemetrySink/ThirdParty/lz4/lz4frame.c:1643-1658 | A compressed block that comes in any pieces is decoded once it is all there. |
| Lz4FrameDecoder.Dctx.DecodeCBlock | unreal/MicromegasTelemetrySink/ThirdParty/lz4/lz4frame.c:1660-1743 | A block that is all there is checked and decoded against the true history, into dst or into tmpOut. |
| Lz4FrameDecoder.Dctx.DecodeChecked | unreal/MicromegasTelemetrySink/ThirdParty/lz4/lz4frame.c:1675-1743 | Decoding into dst or tmpOut gives what the block decoder makes of the block and the last 64 KB. |
| Lz4FrameDecoder.Dctx.PlaceTmpOut | unreal/MicromegasTelemetrySink/ThirdParty/lz4/lz4frame.c:1706-1718 | A place for the block in tmpOutBuffer that overlaps no history still needed. |
| Lz4FrameDecoder.Dctx.DoFlushOut | unreal/MicromegasTelemetrySink/ThirdParty/lz4/lz4frame.c:1745-1765 | As much of a waiting block as there is room for is delivered; the history, and what still waits, stay right. |
| Lz4FrameDecoder.Dctx.DoGetSuffix | unreal/MicromegasTelemetrySink/ThirdParty/lz4/lz4frame.c:1767-1814 | At the end mark: a size that is not used up fails, a frame without checksum is finished, and a checksum is compared or collected. |
| Lz4FrameDecoder.Dctx.DoStoreSuffix | unreal/MicromegasTelemetrySink/ThirdParty/lz4/lz4frame.c:1784-1814 | A content checksum that comes in pieces finishes the frame or fails as in the machine. |
| Lz4FrameDecoder.Dctx.DoGetSFrameSize | unreal/MicromegasTelemetrySink/ThirdParty/lz4/lz4frame.c:1816-1849 | The size of a skippable frame taken whole. |
| Lz4FrameDecoder.Dctx.DoStoreSFrameSize | unreal/MicromegasTelemetrySink/ThirdParty/lz4/lz4frame.c:1827-1849 | The size of a skippable frame that comes in pieces, after its magic number. |
| Lz4FrameDecoder.Dctx.DoSkipSkippable | unreal/MicromegasTelemetrySink/ThirdParty/lz4/lz4frame.c:1851-1861 | Any part of a skippable frame is passed over and nothing is delivered; at its end the context is ready for a frame. |
| Lz4FrameDecoder.Dctx.Decompress | unreal/MicromegasTelemetrySink/ThirdParty/lz4/lz4frame.c:1405-1920 | For any input and any room: an error is a failure of the byte-at-a-time machine on all bytes so far; otherwise the context stands for exactly the bytes it took, what was written is added to what was delivered, and the call stops only with its input used up, dst full or a frame finished (hint 0). |
| Lz4FrameDecoder.Dctx.Reset | unreal/MicromegasTelemetrySink/ThirdParty/lz4/lz4frame.c:1118-1123 | A context can be reset at any time, also after an error; what remains of an announced size stays. |
| Lz4FrameDecoder.Dctx.DeliveredIsOutput | unreal/MicromegasTelemetrySink/ThirdParty/lz4/lz4frame.c:1405-1900 | What has been delivered and what waits in tmpOut are together the output of the machine. |
| Lz4FrameStreaming.SplitIndependent | unreal/MicromegasTelemetrySink/ThirdParty/lz4/lz4frame.c:1405-1900 | Two contexts that took the same bytes, cut in any way and into any buffers, delivered the same, but for what still waits to be flushed. |
| Lz4FrameStreaming.FrameDelivered | unreal/MicromegasTelemetrySink/ThirdParty/lz4/lz4frame.c:1405-1900 | Once the bytes of a whole frame have been taken the frame was good and exactly its content has been delivered. |
| Lz4FrameStreaming.StreamDelivered | unreal/MicromegasTelemetrySink/ThirdParty/lz4/lz4frame.c:1405-1900 | Once the bytes of a stream of frames have been taken and nothing waits, all frames were good and exactly their contents have been delivered. |
| Lz4FrameStreaming.RunGrows | unreal/MicromegasTelemetrySink/ThirdParty/lz4/lz4frame.c:1405-1900 | Output is never taken back. |
| Lz4FrameStreaming.DecodeInPieces | unreal/MicromegasTelemetrySink/ThirdParty/lz4/lz4frame.c:1405-1900 | A caller that presents again what was not consumed follows the machine over the whole stream. |
| Lz4FrameStreaming.DecodeFrames | unreal/MicromegasTelemetrySink/ThirdParty/lz4/lz4frame.c:1405-1900 | Good frames in any pieces: no error, the output is a prefix of their meaning, and all of it at the end. A bad frame that has been taken is an error. |
| Lz4FrameStreaming.RoundTrip | unreal/MicromegasTelemetrySink/ThirdParty/lz4/lz4frame.c:373-471 | Frame round trip for any block compressor that its decoder undoes: compressed with the room of the bound, decompressed in any pieces, the source comes back; the compressor succeeds if and only if the bound fits. |
| Lz4FrameBlocks.CompressBlock | unreal/MicromegasTelemetrySink/ThirdParty/lz4/lz4frame.c:778-788 | A block of a frame, compressed by a context that may have been used before, is nothing or a strict LZ4 block for the input that fits; equal bytes are always compressed where their block fits, and to its size. |
| Lz4FrameBlocks.CompressBlockHc | unreal/MicromegasTelemetrySink/ThirdParty/lz4/lz4frame.c:798-805 | The high-compression block compressor promises the same, at the optimal levels. |
| Lz4FrameBlocks.DecompressBlock | unreal/MicromegasTelemetrySink/ThirdParty/lz4/lz4.c:2196-2202 | What the block decoder answers a frame decoder: the bytewise content, and no refusal of a strict block that fits. |
| Lz4FrameBlocks.EncodedDecodes | unreal/MicromegasTelemetrySink/ThirdParty/lz4/lz4frame.c:1675-1735 | Any block compressor and any block decoder that keep these promises fit together. |
| Lz4FrameBlocks.Lz4IsSound | unreal/MicromegasTelemetrySink/ThirdParty/lz4/lz4frame.c:752-775 | The LZ4 block codec meets all that frames of independent blocks ask of a compressor, whatever the tables of its contexts hold. |
| Lz4FrameBlocks.FrameRoundTrip | unreal/MicromegasTelemetrySink/ThirdParty/lz4/lz4frame.c:373-471 | Frame round trip with the LZ4 block codec, for sources in one block and for blocks that are not linked. |
| Lz4FrameBlocks.CompressEqualBytes | unreal/MicromegasTelemetrySink/ThirdParty/lz4/lz4frame.c:373-471 | A law of the whole frame compressor, with the preferences that InsertBlockRequest.cpp passes: 13 to 65536 equal bytes become a frame of exactly 25 + (n + 230) / 255 bytes. |
| Lz4FrameWriter.GetBlockSize | unreal/MicromegasTelemetrySink/ThirdParty/lz4/lz4frame.c:278-287 | Every id gives one of the four block sizes, at least 64 KB. |
| Lz4FrameWriter.FrameBoundCovers | unreal/MicromegasTelemetrySink/ThirdParty/lz4/lz4frame.c:324-361 | The bound of a frame is exactly the size of the worst frame (all blocks raw), which is given in literal numbers, if and only if the number of full blocks fits 32 bits, and otherwise less. |
| Lz4FrameWriter.UpdateBoundCovers | unreal/MicromegasTelemetrySink/ThirdParty/lz4/lz4frame.c:324-349 | The bound of an update covers every block it can make, and the end of the frame. |
| Lz4FrameWriter.OptimalBound | unreal/MicromegasTelemetrySink/ThirdParty/lz4/lz4frame.c:304-316 | A smaller block size that still takes everything in one block leaves the bound as it is. |
| Lz4FrameWriter.OptimalBSID | unreal/MicromegasTelemetrySink/ThirdParty/lz4/lz4frame.c:304-316 | The smallest block size, up to the requested one, that takes everything in one block. |
| Lz4FrameWriter.HeaderReads | unreal/MicromegasTelemetrySink/ThirdParty/lz4/lz4frame.c:646-712 | The decoder reads from every header exactly the preferences it was written from, content size included; HeaderBytes says which bytes those are. |
| Lz4FrameWriter.HeaderBytes | unreal/MicromegasTelemetrySink/ThirdParty/lz4/lz4frame.c:679-712 | The bytes of a header in literal numbers: 04 22 4D 18, the flags bit by bit, the block size id, the content size, the dictionary id, and the second byte of the hash of what precedes. |
| Lz4FrameWriter.DefaultHeader | unreal/MicromegasTelemetrySink/ThirdParty/lz4/lz4frame.c:679-712 | The seven bytes of the header without options. |
| Lz4FrameWriter.MakeBlock | unreal/MicromegasTelemetrySink/ThirdParty/lz4/lz4frame.c:752-775 | Whatever the tables of the compressor hold, the block is what the compressor gave for the source and its history, and raw exactly if it gave nothing; it decodes to its source, and is never longer than raw. |
| Lz4FrameWriter.MorePieces | unreal/MicromegasTelemetrySink/ThirdParty/lz4/lz4frame.c:858-911 | The blocks of a frame are those of its pieces, each made with what comes before as history, in order. |
| Lz4FrameWriter.OneMoreBlock | unreal/MicromegasTelemetrySink/ThirdParty/lz4/lz4frame.c:858-911 | A block that is appended adds its content to the frame and changes nothing before. |
| Lz4FrameWriter.Cctx.constructor | unreal/MicromegasTelemetrySink/ThirdParty/lz4/lz4frame.c:536-548 | A new context is valid and closed. |
| Lz4FrameWriter.Cctx.Begin | unreal/MicromegasTelemetrySink/ThirdParty/lz4/lz4frame.c:608-712 | Writes the header, which starts 04 22 4D 18, if and only if 19 bytes are free, and starts the frame. |
| Lz4FrameWriter.Cctx.AddBlock | unreal/MicromegasTelemetrySink/ThirdParty/lz4/lz4frame.c:858-911 | A block for one more piece of the input is written, and the frame still means the input taken. |
| Lz4FrameWriter.Cctx.CompressParts | unreal/MicromegasTelemetrySink/ThirdParty/lz4/lz4frame.c:878-943 | Buffered input first, then full blocks, then the rest: nothing is lost, doubled or reordered, and only a last piece may be shorter than a block. |
| Lz4FrameWriter.Cctx.Update | unreal/MicromegasTelemetrySink/ThirdParty/lz4/lz4frame.c:845-948 | Succeeds exactly when a frame is open and the bound fits; blocks and buffer then stand for all input so far, within the bound, and every new piece but a last one is a full block. |
| Lz4FrameWriter.Cctx.Flush | unreal/MicromegasTelemetrySink/ThirdParty/lz4/lz4frame.c:959-995 | Buffered input becomes a block; says exactly when it succeeds and leaves all unchanged otherwise. |
| Lz4FrameWriter.Cctx.End | unreal/MicromegasTelemetrySink/ThirdParty/lz4/lz4frame.c:1007-1043 | The finished frame is well shaped and means the whole input, its blocks are those of its pieces, and an announced size that is wrong is refused. |
| Lz4FrameWriter.Cctx.Close | unreal/MicromegasTelemetrySink/ThirdParty/lz4/lz4frame.c:1031-1042 | Closing succeeds if and only if the announced size was right. |
| Lz4FrameWriter.Cctx.WriteEnd | unreal/MicromegasTelemetrySink/ThirdParty/lz4/lz4frame.c:1017-1029 | The end mark and the checksum of all the content. |
| Lz4FrameWriter.Cctx.IsFrame | unreal/MicromegasTelemetrySink/ThirdParty/lz4/lz4frame.c:1007-1043 | What has been emitted, with an end, is the bytes of a frame that means the content. |
| Lz4FrameWriter.Cctx.FramePreferences | unreal/MicromegasTelemetrySink/ThirdParty/lz4/lz4frame.c:380-398 | The preferences of a one-step frame: auto-flush, a right size, and the same bound. |
| Lz4FrameWriter.DefaultFrame | unreal/MicromegasTelemetrySink/ThirdParty/lz4/lz4frame.c:380-398 | What the default preferences become: 64 KB blocks, linked exactly when there is more than one, nothing else. |
| Lz4FrameWriter.Cctx.CompressFrame | unreal/MicromegasTelemetrySink/ThirdParty/lz4/lz4frame.c:373-419 | Succeeds if and only if the bound fits, never writes more than the bound, and the frame means the source. It starts 04 22 4D 18, and with default preferences with the seven bytes given; its blocks are those that the compressor makes of the source, cut into full blocks and a last one. |
| CallTree.CallTreeIsClip | rust/analytics/src/call_tree.rs:39-219 | For every well-nested trace in time order, cut to any window and into any blocks that cover it, if the limit stops no event of the window: no mismatch, and the tree is the nested view of the trace through the window. A node for each span with an endpoint inside, clipped, under its nearest visible ancestor. |
| CallTree.LimitSuffices | rust/analytics/src/call_tree.rs:89-187 | The limit counts spans, and roots that are invented: it stops nothing if it has room for the visible spans and one root. |
| CallTreeLimit.CallTreeIsClipIff | rust/analytics/src/call_tree.rs:39-219 | When the events have different numbers, the tree is that view if and only if the limit stops no event of the window. |
| CallTreeLimit.BlocksRefuse | rust/analytics/src/call_tree.rs:114-219 | The first event that the limit stops is a begin event, and its number is missing in the tree of all blocks, also of those that go on after the stop. |
| CallTreeLimit.BegunWithinLimit | rust/analytics/src/call_tree.rs:114-219 | Whatever the events, balanced or not, with different numbers: no more than `limit` begin events have a node in the tree, and with no limit above 0 there is no tree. |
| CallTreeLimit.EndsPassTheLimit | rust/analytics/src/call_tree.rs:145-187 | The limit does not bound the nodes: two end events without a begin in the window have nodes under a root, also with a limit of 1. |
| CallTree.FeedForest | rust/analytics/src/call_tree.rs:114-187 | The stack machine fed a whole trace, with nothing refused, closes and leaves open exactly what the window shows of it, from any state; and each visible span adds at most 1 to what counts against the limit. |
| CallTree.ForestFits | rust/analytics/src/call_tree.rs:114-187 | A limit with room for the visible spans refuses none of the events of a trace, from any state. |
| CallTree.FeedEnd | rust/analytics/src/call_tree.rs:145-187 | An end event in each of its four positions (own begin on top, begin before the window, outside the window, foreign root). |
| CallTree.ClipIsClosedAndOpen | rust/analytics/src/call_tree.rs:69-87 | The view through the window is what was closed, then what is still open, nested by finish(). |
| CallTree.FeedOutside | rust/analytics/src/call_tree.rs:114-187 | Events outside the window change nothing. |
| CallTree.RunBlocksIsFeed | rust/analytics/src/call_tree.rs:207-217 | Blocks that stop early lose nothing as long as the limit stops no event of the window. |
| CallTree.FlattenSorted | rust/analytics/src/call_tree.rs:192-219 | Events of a well-nested trace are in time order, so the early stop is sound. |
| CallTree.FinishNests | rust/analytics/src/call_tree.rs:69-87 | finish() puts what is open under what is closed, under the thread's root exactly when that was invented. |
| CallTreeBuilder.StepKeepsInv | rust/analytics/src/call_tree.rs:89-187 | Every event in time order, balanced or not, keeps: children inside parents, siblings apart and in order, the invented root only at the bottom; and the stack is empty only before the first event inside the window that is not refused. |
| CallTreeBuilder.CallTreeIsTiled | rust/analytics/src/call_tree.rs:39-219 | Whatever the events, a tree that comes out lies in the window and every node inside its parent after its elder siblings. |
| CallTreeBuilder.FinishIsTiled | rust/analytics/src/call_tree.rs:69-87 | Nesting what is open keeps that. |
| CallTreeBuilder.RunBlocksKeepsInv | rust/analytics/src/call_tree.rs:192-219 | The invariant over all blocks, also after a block has stopped early. |
| CallTreeBuilder.Builder.constructor | rust/analytics/src/call_tree.rs:40-66 | An empty builder that knows the thread's scope. |
| CallTreeBuilder.Builder.RecordScopeDesc | rust/analytics/src/call_tree.rs:106-110 | A hash that is not described yet is described by this scope, as it is; every other description stays. |
| CallTreeBuilder.Builder.AddChildToTop | rust/analytics/src/call_tree.rs:89-104 | The object does what the stack machine does, root invention and count included. |
| CallTreeBuilder.Builder.OnBeginThreadScope | rust/analytics/src/call_tree.rs:114-143 | The object does the machine's step for a begin event, records its scope exactly if it is seen in the window while there is room, and keeps the scopes of all its nodes. |
| CallTreeBuilder.Builder.OnEndThreadScope | rust/analytics/src/call_tree.rs:145-187 | The object does the machine's step for an end event, relabelling of the root and mismatch included, and records its scope exactly if it is seen in the window. |
| CallTreeBuilder.Builder.Finish | rust/analytics/src/call_tree.rs:69-87 | The loop that pops the stack gives the nested whole, and every scope of the tree is described. |
| CallTreeBuilder.NestPop | rust/analytics/src/call_tree.rs:69-87 | Moving the last open span under the one below does not change the nested whole. |
| CallTreeBuilder.ParseThreadBlock | rust/analytics/src/thread_block_processor.rs:49-105 | The loop over one block is the machine run over its events, each numbered from the block's offset, until it stops; the scopes it adds are those of the events it has recorded. |
| CallTreeBuilder.TilingIsDistinct | rust/analytics/src/thread_block_processor.rs:49-105 | Events of blocks whose objects are numbered one after the other have different numbers. |
| CallTreeBuilder.CallTreeIsFrom | rust/analytics/src/call_tree.rs:39-219 | Every node of any tree has the number and the hash of one of its events, or is the thread's invented root. |
| CallTreeBuilder.DescribedByFirst | rust/analytics/src/call_tree.rs:106-110 | A hash is described by the first scope that was recorded with it, and by nothing else. |
| CallTreeBuilder.ScopesAre | rust/analytics/src/call_tree.rs:106-187 | The scopes of a tree: the thread's own, and of every other hash the first that was recorded with it; with hashes that tell scopes apart, every event's own. |
| CallTreeBuilder.NodesHaveTheirScopes | rust/analytics/src/call_tree.rs:69-187 | With such hashes every node is described by the scope of its own event. |
| CallTreeBuilder.MakeCallTree | rust/analytics/src/call_tree.rs:192-219 | The whole loop equals the machine. For a well-nested trace its result is the nested view if the limit stops no event, as it does not if it has room for the visible spans and a root; and only then, for blocks that follow each other. Every scope is the thread's or that of the first event recorded with its hash; with hashes that tell scopes apart every node is described by the scope of its own event. |
| SpanRows.SpanRowGroup.MakeRowsImpl | rust/analytics-srv/src/lakehouse/span_table.rs:110-134 | The recursion appends the numbered preorder of the tree and returns the next free id. |
| SpanRows.SpanRowGroup.MakeRows | rust/analytics-srv/src/lakehouse/span_table.rs:136-144 | Appends a row for the root with parent 0 and depth 0, then the numbered preorder of what is below it; a root with hash 0 has no row of its own. |
| SpanRows.NumberedRows | rust/analytics-srv/src/lakehouse/span_table.rs:110-134 | Ids are consecutive and every parent's id is smaller than its children's. |
| SpanRows.FromRows | rust/analytics-srv/src/lakehouse/span_table.rs:262-287 | The tables that from_rows builds hold the last row of each id, the children of each parent in order, and the roots. |
| SpanRows.PreorderRepresents | rust/analytics-srv/src/lakehouse/span_table.rs:262-287 | Inside any larger table whose other rows do not hang below it, a forest is held exactly. |
| SpanRows.RowsRoundTrip | rust/analytics-srv/src/lakehouse/span_table.rs:262-287 | Rows of any forest with distinct ids give back the same ordered children relation. |
| SpanRows.RepresentsOnlyOne | rust/analytics-srv/src/lakehouse/span_table.rs:262-287 | The tables determine the forest. |
| SpanRows.TreeRoundTrip | rust/analytics-srv/src/lakehouse/span_table.rs:136-287 | make_rows_from_tree then from_rows gives the tree back, and no other tree has those tables. |
| SpanRows.TopParentIsClear | rust/analytics-srv/src/lakehouse/span_table.rs:262-287 | The parent column tells the top nodes from others exactly when no node with children has the id that stands for no parent. |
| SpanRows.PreorderSteps | rust/analytics-srv/src/lakehouse/span_table.rs:110-134 | Depth rises by at most one from one row to the next. |
| SpanRows.Lod0 | rust/analytics-srv/src/lakehouse/span_table.rs:174-197 | Never indexes past its tracks, and track d holds the rows of depth d in order: the tracks partition the rows. |
| SpanTable.SpanRecordBuilder.ForEachNode | rust/analytics/src/span_table.rs:170-185 | The recursive walk with its closure appends the described preorder of the tree, or fails where a scope is missing. |
| SpanTable.SpanRecordBuilder.AppendCallTree | rust/analytics/src/span_table.rs:87-114 | Fails if and only if some node's scope is unknown; otherwise record i is row i of the preorder with the scope of its hash, and earlier records stay. |
| SpanTable.KnownIsDescribed | rust/analytics/src/span_table.rs:87-114 | Every row can be described exactly when every node is known. |
| SpanTable.ParentZeroIsAmbiguous | rust/analytics/src/span_table.rs:87-114 | Event numbers start at 0, which is also the root's parent: a tree whose parent column is ambiguous. SpanRows.TopParentIsClear says exactly when it is not. |
| TransitQueue.Queue.constructor | rust/transit/derive/src/declare_queue.rs:77-82 | An empty queue. |
| TransitQueue.Queue.Push | rust/transit/derive/src/declare_queue.rs:165-189 | Push appends the byte of the type index, four bytes of size for a dynamic value, and the value. |
| TransitQueue.QueueIterator.Next | rust/transit/src/heterogeneous_queue.rs:39-47 | Yields the objects in the order in which they were pushed, then None. |
| TransitQueue.NextReadsBack | rust/transit/derive/src/declare_queue.rs:13-44 | What stands at an object's offset is read as that object, and the next offset is that of the next object. |
| TransitQueue.FramesReadBack | rust/transit/src/parser.rs:472-502 | A reader that has the right sizes meets every object where it stands and ends at the end of the buffer. |
| TransitQueue.InProcessFraming | rust/transit/src/heterogeneous_queue.rs:17-47 | The process reads back what it pushed, for every sequence of pushes. |
| TransitQueue.ParserFraming | rust/transit/src/parser.rs:462-503 | The analytics parser finds the same boundaries if and only if no object of an empty type was pushed, since metadata of size 0 means a dynamic size. |
| TransitParser.ParseObjectBuffer | rust/transit/src/parser.rs:462-503 | Objects go to the consumer one by one, in order, until it stops or fails. |
| TransitParser.ReadDependencies | rust/transit/src/parser.rs:140-201 | The loop builds the map that its recursive meaning gives, with the assertion on duplicates. |
| TransitEvents.PodParses | rust/transit/src/parser.rs:348-458 | Memory that holds the fields of a value, over any layout, is parsed to exactly those fields, each with its typed value. |
| TransitEvents.MembersParse | rust/transit/src/parser.rs:355-452 | Member by member: each number is its typed value, a reference is looked up, a nested string id is the string it points to. |
| TransitEvents.NumbersParse | rust/transit/src/parser.rs:380-420 | By name of the type, in literal numbers: two's complement of i in a member of type i64 or int64 is parsed to i, for every i of 64 bits; likewise u8, u32, u64 and f64 with their aliases; a member of the wrong size is an error. |
| TransitEvents.ExpectedMembersAt | rust/transit/src/parser.rs:355-452 | What is expected of each member: its own name and the value of its own field. |
| TransitEvents.LogStringParses | rust/transit/src/parser.rs:203-234 | A LogStringEvent is parsed to its time, message and the description it points to. |
| TransitEvents.InteropParses | rust/transit/src/parser.rs:269-306 | A LogStringInteropEvent is parsed to its time, level, target and message. |
| TransitEvents.EventParses | rust/transit/src/parser.rs:308-458 | Every kind of event is parsed to the value that a reader should see. |
| TransitLayout.PodImage | rust/transit/src/parser.rs:348-458 | Any fields that fit a layout without overlaps have a memory image, whatever the padding; so the parser's hypotheses can always be met. |
| TransitLayout.ExtractSecondary | rust/telemetry-sink/src/stream_info.rs:7-15 | The recursion collects all types below. |
| TransitLayout.FlattenMetadata | rust/telemetry-sink/src/stream_info.rs:17-28 | The types of the queue keep their indexes; what follows is exactly the types of their members. |
| TransitLayout.AllSecondaryFound | rust/telemetry-sink/src/stream_info.rs:7-28 | Every type below the types of a queue is found, itself, under its name if and only if no two of them share a name. |
| TransitDependencies.DependenciesAreWellFormed | rust/tracing/src/spans/block.rs:30-164 | For every list of events: ids are pairwise distinct, each record comes after the strings it points to, and the ids are exactly those reachable from the events. |
| TransitDependencies.RecordKeeps | rust/tracing/src/spans/block.rs:30-97 | Recording one item adds exactly the item and what it points to, each once. |
| TransitDependencies.RecordAllKeeps | rust/tracing/src/logs/block.rs:57-88 | Recording the references of any list of events adds exactly what they reach, each once, strings first. |
| TransitRoundTrip.DependenciesReadBack | rust/transit/src/parser.rs:140-201 | The dependency buffer of any well-formed list is read back to the map that was meant, and the assertion on duplicates never fires. |
| TransitRoundTrip.RecordParses | rust/transit/src/parser.rs:157-193 | A metadata record is resolved against the strings read before it. |
| TransitRoundTrip.RecordIs | rust/transit/src/parser.rs:157-193 | What a record becomes: its id, then the texts of its strings in their order, then its two numbers. |
| TransitRoundTrip.ObjectsParse | rust/transit/src/parser.rs:462-503 | One value per event, in order. |
| TransitRoundTrip.EndToEnd | rust/transit/src/parser.rs:140-503 | For any reader whose metadata describes the queue: reading the extracted dependencies and parsing the objects gives one value per event in order, fields equal, every reference resolved to the item it names and never to None. |
| TransitStream.ReaderAgrees | rust/telemetry-sink/src/stream_info.rs:7-49 | Whatever order the map gives, a reader with the flattened metadata knows the queue's types and StringId as the process does. |
| TransitStream.Transmit | rust/transit/src/parser.rs:140-503 | The whole way as one run: flatten_metadata of both queues, extract(), read_dependencies and parse_object_buffer hand the consumer the values of the events, in order and with every reference resolved, until it stops. IntendedField says what those values are. |
| TransitStream.IntendedField | rust/transit/src/parser.rs:348-458 | What the consumer gets of event k and member j, in the event's own terms: the number itself with its sign, or the item that the reference names, under the name of the member. |
| TransitRoundTrip.EventReferences | rust/tracing/src/logs/block.rs:60-87 | The memory of an event holds exactly the references that extract() follows. |
| TransitRoundTrip.Extractor.RecordItem | rust/tracing/src/metrics/block.rs:16-54 | Marking, pushing strings, pushing the record: the queue of dependencies and the set of ids stay in step. |
| TransitRoundTrip.Extractor.PushStrings | rust/tracing/src/spans/block.rs:36-62 | Strings that are already there are not pushed again. |
| TransitRoundTrip.Extractor.Extract | rust/tracing/src/spans/block.rs:100-164 | extract() over a whole queue yields the bytes of exactly those dependencies, in that order. |
| LevelFilter.PackReads | rust/tracing/src/logs/events.rs:46-86 | What is packed in the word is 65536 times the generation, plus the filter or 15, and is read back: generation, unset value and filter. |
| LevelFilter.Rising | rust/tracing/src/logs/events.rs:60-86 | Later values of the word have strictly greater generations. |
| LevelFilter.StepInv | rust/tracing/src/logs/events.rs:60-86 | Every load and exchange of any call, also with stale reads, keeps the invariant; an exchange that succeeds strictly raises the generation. |
| LevelFilter.RunInv | rust/tracing/src/logs/events.rs:60-86 | The invariant over every interleaving of any number of calls; the word's history only grows. |
| LevelFilter.WrittenOnce | rust/tracing/src/logs/events.rs:60-86 | Each generation is written at most once, and each call writes at most once. |
| LevelFilter.FinalIsGreatest | rust/tracing/src/logs/events.rs:60-86 | When all calls have returned, the stored generation is the greatest of the first and the requested ones, and its word is one of those. |
| LevelFilter.HistoryBound | rust/tracing/src/logs/events.rs:60-86 | Never more values than calls, and the first. |
| LevelFilter.StepDecreases | rust/tracing/src/logs/events.rs:60-86 | Every step brings the end nearer: an exchange fails only because the word has a later value. |
| LevelFilter.AllCallsReturn | rust/tracing/src/logs/events.rs:60-86 | No schedule has more than n(n + 2) steps: every retry loop ends. |
| LevelFilter.NobodyWaits | rust/tracing/src/logs/events.rs:60-86 | A call that has not returned can always step. |
| FilterCache.FindMaxMatch | rust/telemetry-sink/src/composite_event_sink.rs:59-69 | The loop returns the filter of the first entry whose name is a prefix of the target, and None only if there is none. |
| FilterCache.LongestIsLongest | rust/telemetry-sink/src/composite_event_sink.rs:59-69 | The reference: the longest configured prefix, or none. |
| FilterCache.LongestFilterIs | rust/telemetry-sink/src/composite_event_sink.rs:59-69 | The filter that is asked for: that of the longest name that is a prefix of the target, or None. |
| FilterCache.InsertMatch | rust/telemetry-sink/src/composite_event_sink.rs:34-35 | How one more entry changes the first match of the sorted list. |
| FilterCache.SearchIsLongest | rust/telemetry-sink/src/composite_event_sink.rs:34-69 | Without an empty name, the search over the sorted names is the longest prefix, for every target and order of entries. |
| FilterCache.EmptyNameWins | rust/telemetry-sink/src/composite_event_sink.rs:34-35 | An empty name gets the smallest key (the negation of 0), comes first and matches every target. |
| FilterCache.SearchIsLongestIff | rust/telemetry-sink/src/composite_event_sink.rs:34-69 | The search is right for every target if and only if no name is empty or every name has the filter of the empty one. |
| FilterCache.CachedIsLongest | rust/telemetry-sink/src/composite_event_sink.rs:43-56 | In every interleaving of lookups, each answer is the filter of the longest configured name that is a prefix of the target, or None, provided no name is empty and the word starts in generation 0. |
| FilterCache.RunStuck | rust/telemetry-sink/src/composite_event_sink.rs:43-56 | If the word starts in the cache's generation or later, it is never written and every answer is what it holds. |
| FilterCache.CachedIsLongestIff | rust/telemetry-sink/src/composite_event_sink.rs:43-56 | Every answer in every interleaving is the filter of the longest prefix if and only if the word starts in generation 0 or already holds that filter. |
| EarlyStop.MetricsRows | rust/analytics/src/query_metrics.rs:58-96 | The loop returns the first rows of the range that come before the first measure after it; over measures in time order that is filter, then take. |
| EarlyStop.ThreadEventsRecordBuilder.ProcessEvent | rust/analytics/src/thread_events_table.rs:111-141 | One event: append, go on or stop, as one step of the scan. |
| EarlyStop.ThreadRows | rust/analytics/src/query_thread_events.rs:61-92 | Thread events, numbered from their blocks' offsets: the first rows of the range before the first event after it; over events in time order that is filter, then take. |
| EarlyStop.LogRows | rust/analytics/src/query_log_entries.rs:58-90 | For log entries each block only needs to be in time order itself: the next block is always looked at. |
| EarlyStop.StopIsRightIff | rust/analytics/src/query_metrics.rs:68-96 | Leaving at the first event after the range is right if and only if there are enough rows before it or none after it. |
| EarlyStop.MetricsFilterThenTake | rust/analytics/src/query_metrics.rs:68-96 | Over events in time order, the metrics loop is filter, then take. |
| EarlyStop.ThreadFilterThenTake | rust/analytics/src/thread_events_table.rs:111-141 | Over events in time order, the thread-event loop is filter, then take. |
| EarlyStop.LogFilterThenTake | rust/analytics/src/query_log_entries.rs:66-90 | Over blocks that are each in time order, the log loop is filter, then take, whatever the order of the blocks. |
| EarlyStop.MetricsScanIs | rust/analytics/src/query_metrics.rs:68-96 | With no assumption on the order: what the metrics loop returns. |
| EarlyStop.ThreadScanIs | rust/analytics/src/thread_events_table.rs:111-141 | With no assumption on the order: what the thread events loop returns. |
| EarlyStop.LogScanIs | rust/analytics/src/query_log_entries.rs:66-90 | With no assumption on the order: what the log entries loop takes from a block. |
| EarlyStop.BlocksOutOfOrder | rust/analytics/src/query_metrics.rs:68-96 | Blocks out of order: a row that log entries have and the other two loops miss. |
| Recording.StepConserved | rust/tracing/src/dispatch.rs:405-546 | Every push, swap and delivery keeps: swapped blocks and the current one tile the numbers of the events pushed, without a gap. |
| Recording.StepSwap | unreal/MicromegasTracing/Private/Dispatch.cpp:76-133 | A swap under the lock puts the block in exactly one place. |
| Recording.StepDeliver | unreal/MicromegasTracing/Private/Dispatch.cpp:76-133 | A delivery after the unlock delivers exactly that block. |
| Recording.StepInv | rust/tracing/src/dispatch.rs:405-546 | The whole invariant, in both the Rust and the Unreal protocol. |
| Recording.RunInv | rust/tracing/src/dispatch.rs:405-546 | The invariant over every interleaving of any number of threads. |
| Recording.NumberedByOffset | rust/analytics/src/thread_block_processor.rs:56-103 | The number that a reader gives an event, offset plus index, is its place among all events pushed. |
| Recording.OffsetsRise | rust/tracing/src/event/stream.rs:72-79 | Later blocks start where earlier ones end or after: no number is used twice. |
| Recording.DeliveredIsRecorded | rust/tracing/src/dispatch.rs:405-546 | In every interleaving a delivered block is not empty, each of its events is the one that was pushed at its number, and no block is delivered twice. |
| Recording.NothingIsLost | rust/tracing/src/dispatch.rs:433-546 | When nothing is on its way and the current block is empty, the blocks delivered are all events pushed; in Rust in the order of their offsets. |
| Recording.InOrderIff | unreal/MicromegasTracing/Private/Dispatch.cpp:76-133 | Blocks come to the sink in the order of their offsets in every interleaving if and only if the recorder is the Rust one or at most one thread uses the stream. |
| Recording.UnrealOutOfOrder | unreal/MicromegasTracing/Private/Dispatch.cpp:76-133 | In Unreal, where the sink is called after the unlock, two threads can deliver blocks in the wrong order, whatever the sizes of blocks and events. |
| Recording.RunAlone | unreal/MicromegasTracing/Private/Dispatch.cpp:76-133 | With one thread each block is delivered before the next one is swapped. |
| Recording.ThresholdIs | rust/tracing/src/event/stream.rs:72-79 | The threshold and the padding are together the capacity. |
| Recording.RunFilling | rust/tracing/src/dispatch.rs:405-546 | Where pushes and flushes of different threads do not interleave, every block that is swapped unasked holds more than the capacity less the padding, in Unreal at least that much. |
| Recording.RunSized | rust/tracing/src/dispatch.rs:405-546 | There, too, no block takes more than the capacity if no event is larger than the padding. |
| Recording.FilledIff | rust/tracing/src/dispatch.rs:405-546 | That an unasked swap leaves at most the padding unused holds in every interleaving if and only if the recorder is Unreal's, or at most one thread uses the stream, or the padding is all of the capacity. |
| Recording.RustFlushesEarly | rust/tracing/src/dispatch.rs:405-546 | The interleaving that shows it: in Rust the lock is released between a push that fills the block and the flush, so that two threads flush one after the other and the second takes a block with one event in it. |
| Recording.BoundedIff | rust/tracing/src/dispatch.rs:405-546 | That no block takes more than the capacity when no event is larger than the padding holds in every interleaving if and only if the recorder is Unreal's, or at most one thread uses the stream, or there is no padding. |
| Recording.RustOverfills | rust/tracing/src/dispatch.rs:405-546 | The interleaving that shows it: in Rust a second thread pushes into a block that is full already, before the first has flushed it. |
| Recording.ThreadStream.constructor | rust/tracing/src/event/stream.rs:38-62 | A new stream is empty and full only above the capacity less the largest object. |
| Recording.ThreadStream.SetFull | rust/tracing/src/event/stream.rs:68-70 | Whatever event comes next makes the block full, so OnThreadEvent delivers it at once. |
| Recording.ThreadStream.ReplaceBlock | rust/tracing/src/event/stream.rs:72-79 | The old block is handed over with all its events, the new one is current, and the threshold is the capacity less the largest object again. |
| Recording.EmptyIsFullIff | rust/tracing/src/dispatch.rs:538-543 | The assertion after a swap cannot fail: an empty block is never full in Rust, and in Unreal only if the threshold is 0. |
| Recording.ThreadStream.Flush | rust/tracing/src/dispatch.rs:531-546 | An empty block is never delivered; any other goes to the sink whole, the next one starts at its end, and the threshold is reset. |
| Recording.ThreadStream.OnThreadEvent | rust/tracing/src/dispatch.rs:278-291 | An event goes into the current block, which is delivered exactly if it then exceeds the threshold; the threshold is the capacity less the largest object unless set_full was called. So without set_full a block that is delivered unasked holds more than that, and no block exceeds the buffer if no event exceeds the largest object. |

## Left out

Blocks:

- External dictionaries, prefix mode, dictionary contexts, streaming block compression, partial decoding, decompression without an input size, and the deprecated entry points of lz4.c and lz4hc.c.
- Tables of pointers (`byPtr`), 32-bit and big-endian variants: 8-byte words and little-endian order are assumed.
- High-compression levels below 10 (`LZ4HC_compress_hashChain`): the optimal parser, its match finder and its encoder are modelled.
- The order of two stores: the offset of a match is written after its length has been counted and not before; the room tests are the same.
- Lz4Decoder.DecompressSafe: takes inputs below 2 GB, as its C `int` does, and does not say what a negative result is, since it only marks where the error was found.
- Lz4HcMatch.HcContext.Search: with fewer attempts than positions within reach, only the first candidate is known to be beaten: how far a limited search comes is not stated.
- Lz4HcMatch.HcContext.BestChain: that the chosen chain goes back farthest is not stated, since the growing step skips positions; no choice loses a match (Lz4HcMatch.HcContext.SwapChain).
- Lz4HcOptimal.Optimise: every price change is stated, but not that the elected path is the cheapest: the source promises a good parse and not an optimum, and early exits cut the search.
- Lz4HcOptimal.CompressHcFastReset: at level 12 the size of equal bytes is stated from 4102 bytes on, where the match is taken at once.

Frames:

- Lz4FrameDecoder.Dctx.Decompress: the header, tmpIn and tmpOutBuffer are sequences of fixed length and dst is a sequence that grows; the `stableDst` option, allocation failures and `LZ4F_getFrameInfo` are not modelled. The contract says when the hint is 0 and not its other values, which are advice.
- Lz4FrameDecoder.Dctx.UseDictionary: the same user dictionary is given to every call of a stream and does not end where dst begins.
- Lz4FrameWriter.Cctx.CompressFrame: the number of full blocks fits 32 bits; FrameBoundCovers says that the bound is too small for all other sources.
- Lz4FrameWriter.Cctx.Update: where the dictionary is saved inside tmpBuff (`LZ4F_localSaveDict`) and prepared dictionaries (`CDict`) are not modelled; the history of a block is the content before it.
- Lz4FrameBlocks.FrameRoundTrip: frames of several linked blocks need a block codec with history, which is not modelled; for them Lz4FrameStreaming.RoundTrip takes any compressor that the decoder undoes.
- xxHash, its collisions and its state: a checksum is a function of the bytes.

Call trees and rows:

- Conversion of ticks to time is any function that keeps the order of the events.
- Time values are integers; the floating-point milliseconds of rows are not modelled.
- CallTree.CallTreeIsClip: asks that no span has the hash of the thread's root. When the limit stops an event, CallTreeIsClipIff says that the tree is wrong, and not what it is.
- CallTree.LimitSuffices: one way only, since whether a root has to be invented before the last span begins depends on the trace. CallTreeIsClipIff has the exact condition.
- SpanRows.SpanRowGroup.MakeRowsImpl: nodes have a hash that is not 0, which the code asserts.
- Parquet and Arrow columns, and the levels of detail above the first.

Transit:

- TransitStream.Transmit: an address names one item for the life of a block; string ids are addresses; memory between members may hold anything.
- TransitRoundTrip.Extractor.Extract: plain types do not use the names of the custom log events.
- TransitParser.ReadDependencies: `StaticStringDependency` and version 3 of the interop event are not part of this model.
- TransitParser.ParseObjectBuffer: the nesting of plain types is bounded by the number of types, so that metadata of a type that contains itself is an error and not an endless recursion. Reads outside the buffer, which the code does not check, are errors.
- Strings are bytes: UTF-8 decoding and its failure are not modelled.
- CBOR, LZ4 wrapping of payloads, UUIDs, HTTP, SQL and blob storage.

Recording and filters:

- Dispatch set-up, shutdown, sinks and their back-pressure; allocation of new blocks.
- FilterCache.CachedIsLongest: one target and one generation, as CompositeSink uses them; the global maximum level is not modelled.
- LevelFilter.StepInv: all accesses are to one atomic word, read in coherence order; other memory is not modelled.
- EarlyStop.MetricsRows: record builders append ids; columns and parse errors are not modelled.
