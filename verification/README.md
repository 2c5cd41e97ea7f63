# Verified models of the codecs and the IDL preprocessor

This project models, in Dafny, the parts of the repository that transform data by rule and can be wrong in
interesting ways, and proves what those parts are for.

* **Snappy** (`external/snappy-c/src/snappy.c`), modules `Snappy*`. `SnappyFormat` defines what a compressed
  stream means by the format. The compressor (hash-driven match finder, emitters, block loop) and the decompressor (tag table,
  scratch buffer across fragments, three copy paths) are imperative methods over arrays and objects, proved
  against it and against the slightly larger set of streams the decompressor takes (`SnappyAccepted`). `SnappyUncompress.RoundTrip` puts both together: any input below 2^31 bytes, any cut of
  it into fragments, any family of hash functions into the table, any cut of the compressed stream.
* **LZF** (`external/lzf/src/lzf_c.c`, `lzf_d.c`, `lzf.c`), modules `Lzf*`. The compressor with its patched run
  headers and untrusted hash table, the decompressor with its order of checks, and the block container with its
  over-reading header.
* **The IDL preprocessor** (`src/cpp/code`), modules `Cpp*`: conditionals, the expression parser and evaluator,
  the macro table, macro definition and expansion, argument splitting, and the output stage with line markers.

Conventions. Bytes are integers from 0 to 255 (`Bytes.byte`); shifts and masks on disjoint bit fields are written
as arithmetic. Machine integers are unbounded except where width matters, and there it is written out: 32-bit
lengths and offsets in Snappy, the 64-bit pointer difference in LZF, the 64-bit word of the macro hash, 32-bit
two's complement in preprocessor expressions. Mutable buffers are arrays, mutable objects are classes, and input
and output streams are sequences. The macro table's chains are linked nodes with a ghost sequence beside them; the
conditional stack is a sequence held in a field.

Where the code and its comments differ, the code is modelled: LZF literal runs are 1 to 32 bytes and offsets reach
8192 (its format comment says 33 and 4096). What the Snappy decompressor takes beyond the format, because it computes
lengths in 32 bits, is kept apart: `SnappyFormat` is the format, which the compressor is proved against,
`SnappyAccepted` what the decompressor reads, and a theorem says where the two differ.

## Findings stated as theorems

* `SnappyVarint.ReadersAgree`: the two readers of the length preamble agree except exactly when a fifth byte is
  between 16 and 127 (`SnappyVarint.ReadersDisagreeExample`).
* `CppAmpersand.AmpersandExact`: a single `&` swallows the character behind it whatever it is. For all operands, the
  printed expression is read back if and only if a blank stands there; `1&12` is read as `1& 2`
  (`CppExprPrint.AmpersandLosesDigit`).
* `CppEval.ExecIsUntrapped` and `CppEval.ExecReachesValue`: the evaluator computes both operands of `&&` and of the
  or-operator. It has a result if and only if no division or shift anywhere in the expression, skipped or not, has
  operands it is undefined for, and then the result is the C value (`CppEval.SkippedDivision` is the example
  `0&&1/0`).
* `CppComma.CommaCondition`: a condition with commas comes to 0 whatever its operands are; that is its meaning if and
  only if all operands are defined and the last is 0 (`CppComma.CommaExample` is `#if 1,2`). `CppEval.ExecOfAnyTree`
  says the same of commas anywhere in a tree: each counts as 0.
* `LzfContainer.AcceptanceIsRight`: the container's test for a compressed block is right if and only if the block
  announces at least one byte or holds none; a block that announces nothing is accepted whatever it contains
  (`LzfContainer.MalformedBlockAccepted` is such a stream).
* `CppMacro.FaithfulIsAscii`: a stored body expands to the body with its formals replaced, for all arguments, if and
  only if the body is ASCII (`CppMacro.HighCharacterExample`).
* `CppCommentText.StarExact` and `CppCommentText.StripExact`: the stripping of comments from an expanded macro goes
  wrong where a star follows a comment's end and where a comment's text begins with a slash. In every text without
  such slashes exactly the comments are removed if and only if no star follows one; in every text with one kind of
  fault at most, if and only if it has neither. `x/*a*/*y` is lost whole (`CppComments.StarBehindComment`), `x/*/a*/y`
  comes out as `xa*/y` (`CppCommentText.SlashInComment`), and two faults of different kinds can undo each other
  (`CppCommentText.FaultsCancel`). `CppCommentText.CommentDisappears` is the case of one comment between two texts.
* `CppBody.CommentStays`: a comment in a macro's body is left alone, for every macro, if and only if no slash stands
  right before its end; behind `/*a/*/` formals are no longer replaced (`CppBody.HiddenEnd`).
* `CppArguments.RemarkExact` and `CppArguments.StarExact`: in the arguments of a call a comment is passed over if and
  only if its text does not begin with a slash, or what follows the slash would be passed over anyway, and a star is
  just a star if and only if no slash is before it, not even that of a comment's end. A comma in `/*/,*/` ends the
  argument (`CppArguments.SlashedRemark`); in `/**/*,b)` no end is found (`CppArguments.StarBehindRemark`).
* `SnappyAccepted.StreamsAgree`: the decompressor and the format agree on a stream if and only if it is not oversized
  or is refused anyway, where oversized means a length preamble or a literal length that does not fit 32 bits. A
  literal of 2^32 bytes is read as an empty one (`SnappyAccepted.HugeLiteralExample`).
* `CppInput.PushesStayInRow` and `CppInput.NothingLost`: pushed-back text stays in its row if and only if it fits, and
  none of it is lost if and only if it fits the row and one place more; the check comes one push too late, and the
  store between lands behind the row (`CppInput.FullRowExample`).
* `SnappyUncompress.EmptyFragmentInFront` and `SnappyUncompress.EmptyFragmentBehind`: an empty fragment in front of a
  stream is taken for its end, so a stream that decompresses is refused; behind a stream with a long last element it
  hides whatever follows. Without empty fragments in front of others the cut makes no difference.

## Model

| member | source | states |
|---|---|---|
| Copying.CopyFromRepeats | external/snappy-c/src/snappy.c:375-394 | a copy keeps the output before it and every copied byte repeats the one `offset` places before it |
| Copying.CopyFromUnique | external/snappy-c/src/snappy.c:375-394 | that property determines the copy: nothing else extends the output so |
| Copying.CopyFromSplit | external/snappy-c/src/snappy.c:621-644 | a copy of a+b bytes is a copy of a followed by one of b at the same offset |
| Copying.IncrementalCopy | external/snappy-c/src/snappy.c:388-394 | the bytewise loop makes the copy of the format even when source and destination overlap, and touches nothing behind it |
| Copying.MatchIsCopy | external/snappy-c/src/snappy.c:931-938 | input that repeats what stands `offset` before it is what a copy element reproduces |
| SnappyCopy.IncrementalCopyFastPath | external/snappy-c/src/snappy.c:396-445 | pattern doubling gives the same first bytes as the bytewise loop for every offset and length, and stores at most ten bytes past the end |
| SnappyCopy.WidenPattern | external/snappy-c/src/snappy.c:434-438 | the first loop leaves the pointers a whole number of periods, at least eight bytes, apart over repeating bytes |
| SnappyCopy.Copy16 | external/snappy-c/src/snappy.c:455-459 | two eight-byte moves make the same copy for offsets of eight up and at most sixteen bytes |
| SnappyFormat.DecodeExtends | external/snappy-c/src/snappy.c:1100-1189 | decoding only extends the output produced so far |
| SnappyFormat.DecodeAppend | external/snappy-c/src/snappy.c:1125-1188 | a complete element stream can be followed by another, which goes on from its output |
| SnappyAccepted.ReadExtends | external/snappy-c/src/snappy.c:1100-1189 | with the decompressor's literal lengths too, decoding only extends the output |
| SnappyAccepted.TagsAgree | external/snappy-c/src/snappy.c:1134-1149 | elements without a literal of 2^32 bytes mean to the decompressor what they mean in the format |
| SnappyAccepted.HugeIsLong | external/snappy-c/src/snappy.c:1143-1149 | with one, what they mean in the format is longer than any preamble can announce |
| SnappyAccepted.StreamsAgree | external/snappy-c/src/snappy.c:1065-1189 | decompressor and format agree on a stream if and only if it is not oversized or refused anyway |
| SnappyAccepted.DecodeIsRead | external/snappy-c/src/snappy.c:1065-1189 | every stream of the format is taken, with the same output |
| SnappyAccepted.HugeLiteralExample | external/snappy-c/src/snappy.c:1146-1147 | six bytes that hold a literal cut short and are taken for an empty output |
| SnappyElements.CopyWithOneByte | external/snappy-c/src/snappy.c:1168-1187 | the two bytes of a copy with an eleven-bit offset, for every length and offset, valid or not |
| SnappyElements.CopyWithTwoBytes | external/snappy-c/src/snappy.c:1168-1187 | the three bytes of a copy with a sixteen-bit offset |
| SnappyElements.CopyWithFourBytes | external/snappy-c/src/snappy.c:1168-1187 | the five bytes of a copy with a thirty-two-bit offset, a form the compressor never writes |
| SnappyElements.ShortLiteral | external/snappy-c/src/snappy.c:1134-1166 | a literal with its length in the tag |
| SnappyElements.LongLiteral | external/snappy-c/src/snappy.c:1143-1149 | a literal with its length in one to four bytes, more than needed included |
| SnappyElements.FourByteOffsetExample | external/snappy-c/src/snappy.c:1168-1187 | a whole stream with a four-byte offset |
| SnappyVarint.EncodeIsGroups | external/snappy-c/src/snappy.c:208-236 | the five-way encoder writes the seven-bit groups of the value, least significant first |
| SnappyVarint.VarintRoundTrip | external/snappy-c/src/snappy.c:208-236 | both readers get every 32-bit value back from its encoding, with any bytes behind it, and use up exactly the encoding |
| SnappyVarint.ParseWithLimit | external/snappy-c/src/snappy.c:159-201 | the unrolled reader accepts exactly the groups whose value fits 32 bits |
| SnappyVarint.ParsedIsRead | external/snappy-c/src/snappy.c:1065-1092 | whatever the length query accepts, the decompressor reads with the same value and the same end |
| SnappyVarint.ReadersAgree | external/snappy-c/src/snappy.c:1065-1092 | the two preamble readers agree if and only if there is no fifth byte from 16 to 127 |
| SnappyVarint.ReadersDisagreeExample | external/snappy-c/src/snappy.c:159-201 | an input on which they differ |
| SnappyMatch.FindLsbSetNonZero | external/snappy-c/src/snappy.c:127-148 | the halving search finds the lowest set bit |
| SnappyMatch.LowestBitCountsBytes | external/snappy-c/src/snappy.c:742-747 | the lowest set bit of the exclusive or, divided by eight, counts the equal low bytes |
| SnappyMatch.FirstDifferingByte | external/snappy-c/src/snappy.c:742-747 | equal low bytes of two loaded words are equal leading bytes in memory, and the next byte differs |
| SnappyMatch.EqualLeadingBytes | external/snappy-c/src/snappy.c:742-747 | the first position where two words differ |
| SnappyMatch.FindMatchLength | external/snappy-c/src/snappy.c:702-759 | the 64-bit form returns the longest common prefix of any two places, in one buffer or two, before the limit |
| SnappyMatch.FindMatchLength32 | external/snappy-c/src/snappy.c:761-785 | so does the 32-bit form |
| SnappyMatch.MatchLengthUnique | external/snappy-c/src/snappy.c:702-714 | there is only one such length, so the two forms agree |
| SnappyEmit.LiteralDecodes | external/snappy-c/src/snappy.c:554-598 | an emitted literal decodes to its bytes, for every length |
| SnappyEmit.EmitLiteral | external/snappy-c/src/snappy.c:554-598 | the element is written as defined; stores reach at most sixteen bytes behind the tag on the fast path |
| SnappyEmit.CopyElementDecodes | external/snappy-c/src/snappy.c:600-619 | both encodings of a copy of 4 to 64 bytes decode to that copy |
| SnappyEmit.CopyElementsDecode | external/snappy-c/src/snappy.c:621-644 | the pieces of a long copy together decode to the whole copy |
| SnappyEmit.CopyElementsSize | external/snappy-c/src/snappy.c:528-533 | a copy costs at most three bytes for every four it produces |
| SnappyEmit.EmitCopyLessThan64 | external/snappy-c/src/snappy.c:600-619 | one copy element is stored in the encoding its offset and length ask for |
| SnappyEmit.EmitCopy | external/snappy-c/src/snappy.c:621-644 | a copy of any length is split so that at least four bytes remain for the last piece |
| SnappyFragment.GetU32AtOffset | external/snappy-c/src/snappy.c:788-799 | shifting a 64-bit load gives the 32-bit load at the offset |
| SnappyFragment.FindCandidate | external/snappy-c/src/snappy.c:884-903 | a reported candidate lies before the position and agrees with it in four bytes, whatever the hash |
| SnappyFragment.CopyRun | external/snappy-c/src/snappy.c:926-965 | each copy extends the encoding of the block and repays the allowance its literal used |
| SnappyFragment.LiteralFits | external/snappy-c/src/snappy.c:905-911 | the fast path's overshoot still lies in the block's room |
| SnappyFragment.CompressFragment | external/snappy-c/src/snappy.c:815-975 | what is written for a block decodes, behind any earlier output, to that output and the block; all stores lie in n + n/65 + 3 bytes |
| SnappySource.OrderlyIsSeen | external/snappy-c/src/snappy.c:254-276 | without an empty fragment before others, what the source shows is the concatenation |
| SnappySource.Source.Peek | external/snappy-c/src/snappy.c:254-265 | a peek shows a prefix of what is seen, empty only where nothing more is |
| SnappySource.Source.Skip | external/snappy-c/src/snappy.c:267-276 | on every list of fragments skipping loses and repeats no byte that is seen, except that skipping nothing at an empty fragment shows what lies behind it |
| SnappyCompress.HashBytesInTable | external/snappy-c/src/snappy.c:501-517 | the multiplicative hash of the source is one of the functions into the table the proofs allow |
| SnappyCompress.GetHashTable | external/snappy-c/src/snappy.c:677-700 | the table size is a power of two of at least 256, at most the maximum, and its entries are cleared |
| SnappyCompress.Gather | external/snappy-c/src/snappy.c:1325-1341 | a block that spans fragments is collected whole and in order |
| SnappyCompress.CompressBlock | external/snappy-c/src/snappy.c:1309-1367 | one more block behind the stream so far |
| SnappyCompress.BlockFits | external/snappy-c/src/snappy.c:519-544 | summed over all blocks, stores stay below 32 + n + n/6 |
| SnappyCompress.Compress | external/snappy-c/src/snappy.c:1288-1372 | the whole output decodes to the input and no store goes past the maximum compressed length |
| SnappyTable.CharTableIsEntry | external/snappy-c/src/snappy.c:988-1034 | every one of the 256 table entries packs the length, offset and extra bytes the format gives its tag |
| SnappyTable.EntryFields | external/snappy-c/src/snappy.c:988-1000 | masking and shifting an entry yields those three fields |
| SnappyWriter.Writer.AppendFromSelf | external/snappy-c/src/snappy.c:447-473 | succeeds if and only if the offset is valid and the output fits, by whichever copy path, and stores only inside the announced length |
| SnappyWriter.Writer.Append | external/snappy-c/src/snappy.c:475-484 | all literal bytes or none |
| SnappyWriter.Writer.TryFastAppend | external/snappy-c/src/snappy.c:486-499 | when it applies, it appends the same bytes |
| SnappyDecompress.Decompressor.RefillTag | external/snappy-c/src/snappy.c:1193-1263 | afterwards a whole tag stands in the window or in the scratch bytes, or the input has ended properly, and the pending bytes are unchanged |
| SnappyDecompress.Decompressor.FillScratch | external/snappy-c/src/snappy.c:1232-1247 | tag bytes from several fragments are stitched together in order |
| SnappyDecompress.Decompressor.AppendLiteral | external/snappy-c/src/snappy.c:1150-1166 | a literal that spans fragments is appended whole, or the stream ends too early |
| SnappyDecompress.Decompressor.DecodeCopy | external/snappy-c/src/snappy.c:1169-1187 | one copy element: the rest of the stream decodes from the output with the copy, or the stream is refused |
| SnappyDecompress.Decompressor.DecodeLiteralElement | external/snappy-c/src/snappy.c:1135-1168 | one literal element, fast or slow path, has the meaning the format gives it |
| SnappyDecompress.Decompressor.DecompressAllTags | external/snappy-c/src/snappy.c:1100-1189 | ends at the announced length if and only if the pending bytes decode to exactly that length, and then the output is their decoding |
| SnappyUncompress.ReadUncompressedLength | external/snappy-c/src/snappy.c:1065-1092 | the length and the position behind it, on every fragmented input |
| SnappyUncompress.InternalUncompress | external/snappy-c/src/snappy.c:1265-1286 | succeeds if and only if what is seen of the fragments is a stream the decompressor takes that announces no more than the maximum |
| SnappyUncompress.Uncompress | external/snappy-c/src/snappy.c:1437-1450 | for orderly fragments the result depends only on their concatenation, and unless that is oversized it succeeds if and only if the format decodes it |
| SnappyUncompress.EmptyFragmentInFront | external/snappy-c/src/snappy.c:254-276 | every stream that decompresses is refused with an empty fragment in front |
| SnappyUncompress.EmptyFragmentBehind | external/snappy-c/src/snappy.c:1193-1212 | a stream with a last element of five bytes or more decompresses whatever stands behind an empty fragment |
| SnappyUncompress.RoundTrip | external/snappy-c/src/snappy.c:1265-1372 | decompressing what was compressed succeeds and yields the input |
| LzfFormat.WithinIsDecode | external/lzf/src/lzf_d.c:64-183 | the bounded decoder succeeds if and only if the stream is well formed and its output fits, with that output |
| LzfFormat.InvalidStays | external/lzf/src/lzf_d.c:64-183 | a malformed stream stays malformed in every larger buffer |
| LzfFormat.RoomIsEnough | external/lzf/src/lzf_d.c:64-183 | with 264 bytes of room for every byte of the stream the decoder succeeds if and only if the stream is well formed, and otherwise calls it malformed, never too big |
| LzfFormat.DecodeAppend | external/lzf/src/lzf_d.c:64-181 | a complete stream can be followed by another |
| LzfFormat.LiteralRunDecodes | external/lzf/src/lzf_c.c:262-268 | a run with its header decodes to its bytes |
| LzfFormat.BackReferenceDecodes | external/lzf/src/lzf_c.c:206-219 | both forms of a back reference decode to the copy they were made for |
| LzfDecompress.PutLiterals | external/lzf/src/lzf_d.c:68-102 | a literal run is copied, or refused with the error of the first failing check |
| LzfDecompress.ReadReference | external/lzf/src/lzf_d.c:103-131 | length and source of a back reference, or the error of an input cut short |
| LzfDecompress.CopyReference | external/lzf/src/lzf_d.c:145-178 | block copy and bytewise copy both make the format's copy |
| LzfDecompress.PutReference | external/lzf/src/lzf_d.c:103-179 | a back reference is carried out, or refused with the error of the first failing check |
| LzfDecompress.Decompress | external/lzf/src/lzf_d.c:55-184 | on every input it ends as the bounded decoder does: same output, same error; nothing is stored past the output length |
| LzfDecompress.EmptyInputFails | external/lzf/src/lzf_d.c:64-66 | an empty input fails whatever byte is read in its place |
| LzfDecompress.OutputGrows | external/lzf/src/lzf_d.c:183-183 | a successful result is never 0, so 0 means failure |
| LzfCompress.SixteenSteps | external/lzf/src/lzf_c.c:176-197 | the unrolled steps stop at the first difference |
| LzfCompress.MatchLength | external/lzf/src/lzf_c.c:163-204 | every byte of the reported match agrees, and the search ends at a difference or at its bound |
| LzfCompress.Candidate | external/lzf/src/lzf_c.c:144-160 | whatever the hash table holds, a candidate is accepted if and only if it lies before the position, in reach, and agrees in three bytes; the position is entered in the slot of its own three bytes |
| LzfCompress.NextIsSlot | external/lzf/src/lzf_c.c:47-57 | the slot of a position depends on its three bytes alone, however the hash was rolled to it |
| LzfCompress.Acceptable | external/lzf/src/lzf_c.c:144-160 | the source's unsigned comparison and three byte tests accept exactly the earlier positions in reach that agree in three bytes |
| LzfCompress.Rehash | external/lzf/src/lzf_c.c:228-243 | the last two positions of a match are entered in the slots where later positions with the same three bytes look, and the hash goes on as if rolled through the match |
| LzfCompress.Turn | external/lzf/src/lzf_c.c:140-270 | one turn of the main loop keeps the encoding of the input so far, or stops only when the output is short of in + in/32 + 4 bytes |
| LzfCompress.TakeMatch | external/lzf/src/lzf_c.c:161-223 | a match is put in full or refused, and refused only when the output is short of in + in/32 + 4 bytes |
| LzfCompress.CloseRun | external/lzf/src/lzf_c.c:264-268 | patching the header slot turns the open run into an element |
| LzfCompress.AppendReference | external/lzf/src/lzf_c.c:206-221 | the back reference of a match extends the encoding by the matched bytes |
| LzfCompress.PutLiteral | external/lzf/src/lzf_c.c:256-269 | one byte joins the run, and a full run is closed and a new one opened |
| LzfCompress.StopRun | external/lzf/src/lzf_c.c:286-287 | the run is closed, and an empty one is undone |
| LzfCompress.PutMatch | external/lzf/src/lzf_c.c:167-223 | run closed, reference put, new run open; the size stays within 33 bytes for 32 |
| LzfCompress.Finish | external/lzf/src/lzf_c.c:272-289 | the last bytes fit once three places are left, and the size of the whole is bounded |
| LzfCompress.Compress | external/lzf/src/lzf_c.c:98-290 | for every initial hash table: a result n decodes to the input, n is at most the input and one byte per 32 begun and at most the output length, stores stay inside, and with in + in/32 + 4 bytes of room it never refuses |
| LzfCompress.RoundTrip | external/lzf/src/lzf_c.c:98-290 | what was compressed comes back from the decompressor, into any buffer that holds it |
| LzfContainer.PutBlock | external/lzf/src/lzf.c:187-209 | a block is compressed or stored so that it stands for its bytes |
| LzfContainer.BlockStep | external/lzf/src/lzf.c:250-304 | a written block adds its data and reading goes on right behind it |
| LzfContainer.BlocksOfStream | external/lzf/src/lzf.c:161-168 | any sequence of written blocks reads back as its data |
| LzfContainer.CompressStream | external/lzf/src/lzf.c:176-216 | for every stream and block size the written blocks read back as the stream |
| LzfContainer.ReadHeader | external/lzf/src/lzf.c:231-240 | seven header bytes, less at the end, with the carried bytes in front |
| LzfContainer.ReadBody | external/lzf/src/lzf.c:271-287 | a block's bytes are collected from the over-read header and the stream, and surplus goes back to the front |
| LzfContainer.ExpandsIff | external/lzf/src/lzf.c:296-300 | comparing the decoder's result with the announced size accepts exactly the blocks that announce nothing or decode to what they announce |
| LzfContainer.StreamEnds | external/lzf/src/lzf.c:242-243 | reading ends well at the end of the stream or at a zero byte, whatever follows |
| LzfContainer.StreamRefused | external/lzf/src/lzf.c:245-269 | a short header, a wrong magic number and an unknown type are errors |
| LzfContainer.BlockCutShort | external/lzf/src/lzf.c:257-287 | a block cut anywhere is an error, and what came before it stays written |
| LzfContainer.AcceptanceIsRight | external/lzf/src/lzf.c:296-300 | that test is right if and only if the block announces something or is empty |
| LzfContainer.NothingAnnounced | external/lzf/src/lzf.c:294-304 | a compressed block that announces nothing is passed over whatever it holds |
| LzfContainer.MalformedBlockAccepted | external/lzf/src/lzf.c:294-304 | a stream with a malformed block that is accepted |
| LzfContainer.UncompressStream | external/lzf/src/lzf.c:218-312 | on every stream, valid or not, the same verdict and the same output as the format |
| LzfContainer.RoundTrip | external/lzf/src/lzf.c:176-312 | the container gives back every stream, for every block size |
| CppConditional.Preprocessor.DoIf | src/cpp/code/if.c:38-111 | the machine's step for an if, skipped, malformed or evaluated |
| CppConditional.Preprocessor.DoIfdef | src/cpp/code/if.c:113-187 | the step for ifdef; a missing name counts as undefined |
| CppConditional.Preprocessor.DoIfndef | src/cpp/code/if.c:189-263 | the step for ifndef; a missing name counts as undefined |
| CppConditional.Preprocessor.DoElse | src/cpp/code/if.c:265-336 | the step for else |
| CppConditional.Preprocessor.DoElif | src/cpp/code/if.c:361-464 | the step for elif, a stray one turned into an if |
| CppConditional.Preprocessor.DoEndif | src/cpp/code/if.c:466-526 | the step for endif |
| CppConditional.Preprocessor.MaybePrint | src/cpp/code/if.c:571-583 | text is printed when no conditional hides it; line ends always |
| CppConditional.Preprocessor.Handle | src/cpp/code/sharp.c:25-56 | each directive or character of text is one step of the machine |
| CppConditional.Preprocessor.Process | src/cpp/code/preprocess.c:97-298 | the object driven over any text is in the state of the machine's run |
| CppConditional.Preprocess | src/cpp/code/if.c:38-583 | the object driven over well-nested text prints its meaning |
| CppDirective.ReadCondition | src/cpp/code/expr.c:1066-1114 | reading the tree, passing the rest of the line and evaluating give the condition's value and end |
| CppDirective.IfDirective | src/cpp/code/if.c:38-111 | an if from its text: skipped with its line, without parentheses, or decided by its condition |
| CppDirective.ElifDirective | src/cpp/code/if.c:361-464 | an elif from its text |
| CppDirective.PrintedCondition | src/cpp/code/if.c:76-103 | a printed condition decides as the expression means, and the line is used up |
| CppDirective.PrintedConditionInParentheses | src/cpp/code/if.c:76-103 | so does the form in parentheses |
| CppDirective.LineIsPassed | src/cpp/code/if.c:63-72 | the line of a skipped directive is passed with all lines joined to it, and no more |
| CppDirective.ParenthesisMissing | src/cpp/code/if.c:76-94 | without its parenthesis the `@` form has no condition, and only white space is used up |
| CppConditional.StrayDirectives | src/cpp/code/if.c:265-526 | outside every conditional an elif opens one, and else and endif do nothing |
| CppConditional.NothingBehindElse | src/cpp/code/if.c:288-296 | alternatives behind an else show nothing |
| CppConditional.RunKeepsInvariant | src/cpp/code/if.c:566-569 | on every run only the top conditional can be other than true, and nothing is skipped unless it is |
| CppConditional.RunKeepsOrder | src/cpp/code/if.c:288-296 | while a conditional is open it only goes from false to true to done |
| CppConditional.StepIsPlain | src/cpp/code/if.c:53-75 | counting skipped conditionals does what stacking them would do |
| CppConditional.RunIsPlain | src/cpp/code/if.c:38-526 | over every run, well nested or not, state and output are those of the plain stack machine |
| CppConditional.RunIsMeaning | src/cpp/code/if.c:38-583 | for every well-nested text and every state the machine prints exactly the parts the conditionals select and returns to that state |
| CppConditional.WholeRun | src/cpp/code/if.c:38-583 | from the start the output is the text's meaning and every conditional is closed |
| CppExprReader.Reader.GetNonBlank | src/cpp/code/io.c:327-385 | the next character that is not blank, in a comment or a joined line end |
| CppExprReader.Reader.ReadIdent | src/cpp/code/io.c:452-471 | the longest identifier, or the input unchanged behind white space |
| CppExprReader.Reader.ReadNumber | src/cpp/code/expr.c:262-314 | decimal, octal and hexadecimal numbers by the digit loop |
| CppExprReader.Reader.ReadQuoted | src/cpp/code/expr.c:315-338 | a character constant packs its characters eight bits each |
| CppExprReader.Reader.ReadOperator | src/cpp/code/expr.c:504-1003 | the operator of a level, or everything read ahead put back |
| CppExprReader.Reader.ReadRest | src/cpp/code/expr.c:503-1003 | the loop of a level takes its operators and operands as the parser does |
| CppExprReader.Reader.ReadLevel | src/cpp/code/expr.c:490-1004 | the loops of the ten binary levels compute the parser's result and leave its rest |
| CppExprReader.Reader.ReadDefined | src/cpp/code/expr.c:415-462 | `defined` in both forms, or the input rewound |
| CppExprReader.Reader.ReadUnary | src/cpp/code/expr.c:377-488 | the unary level refines the parser |
| CppExprReader.Reader.ReadPrimary | src/cpp/code/expr.c:222-375 | parentheses, numbers, constants and errors refine the parser |
| CppExprReader.Reader.ReadExpr | src/cpp/code/expr.c:1006-1041 | the comma loop refines the parser, wrong characters included |
| CppExprPrint.OperatorFound | src/cpp/code/expr.c:504-1003 | a printed operator is taken by its own level and by none above |
| CppExprPrint.NumberReads | src/cpp/code/expr.c:262-314 | every 31-bit number is read back from its decimal digits |
| CppExprPrint.PrintReads | src/cpp/code/expr.c:377-1004 | at every level a tree printed with minimal parentheses is read back and reading goes on right behind it |
| CppExprPrint.ExprReads | src/cpp/code/expr.c:222-1041 | the whole expression is read back, up to the line end or parenthesis that ends it |
| CppExprPrint.AmpersandReads | src/cpp/code/expr.c:772-786 | whatever stands behind a single ampersand is read as a blank would be |
| CppExprPrint.AmpersandLosesDigit | src/cpp/code/expr.c:772-786 | an expression that is therefore not read as the tree it spells |
| CppLexemes.Alphabet | src/cpp/code/is.c:24-37 | the characters of identifiers and white space, listed |
| CppLexemes.HexadecimalReads | src/cpp/code/expr.c:262-314 | hexadecimal digits in either case are read as the number they stand for, in 32 bits |
| CppLexemes.OctalReads | src/cpp/code/expr.c:262-314 | so are octal digits behind a 0 |
| CppLexemes.DecimalFiguresRead | src/cpp/code/expr.c:262-314 | so are decimal digits, however many |
| CppLexemes.ConstantReads | src/cpp/code/expr.c:148-338 | a character constant of any length, with escapes and octal codes, is the number its characters make; an open one ends with its line |
| CppLexemes.OneDigitCode | src/cpp/code/expr.c:170-196 | an octal code of one digit |
| CppLexemes.TwoDigitCode | src/cpp/code/expr.c:170-196 | an octal code of two digits |
| CppLexemes.DefinedWord | src/cpp/code/expr.c:415-462 | `defined name` with any white space between |
| CppLexemes.FillersAreSkipped | src/cpp/code/io.c:327-385 | any number of blanks, comments and joined lines is passed over |
| CppLexemes.FillersMakeNoDifference | src/cpp/code/io.c:327-385 | in front of an expression, an operand or an operator they change nothing |
| CppLexemes.WordIsZero | src/cpp/code/expr.c:339-375 | a word that is not a macro counts as 0 |
| CppLexemes.StrayCharacter | src/cpp/code/expr.c:339-375 | so does a character that begins no operand |
| CppLexemes.ParenthesisSupplied | src/cpp/code/expr.c:234-258 | a missing parenthesis is supplied at the end of the line |
| CppLexemes.LineEndBeforeOperand | src/cpp/code/expr.c:339-375 | in the `@` form an operand may stand on the next line |
| CppOperators.OperatorOnText | src/cpp/code/expr.c:70-110 | each of the eighteen operators, as it is spelled between two numbers, from the text to its value |
| CppOperators.Binding | src/cpp/code/expr.c:490-1004 | without parentheses operators bind as C groups them, equal ones from the left |
| CppSpine.PlugReads | src/cpp/code/expr.c:377-1004 | the operators behind a first operand are built onto whatever operand is read in its place |
| CppSpine.HighReads | src/cpp/code/expr.c:490-1004 | a level takes the operators of its own and higher levels and leaves exactly the others |
| CppSpine.LevelsEndBehind | src/cpp/code/expr.c:490-1004 | whatever stands in front, the lower levels take what was left and end right behind the printed expression |
| CppAmpersand.UnaryLost | src/cpp/code/expr.c:772-786 | without its unary operator the right operand is another tree |
| CppAmpersand.DefinedLost | src/cpp/code/expr.c:772-786 | without its first letter `defined` is a name, and reading ends behind its parenthesis |
| CppAmpersand.ParenthesisLost | src/cpp/code/expr.c:772-786 | without the opening parenthesis reading ends at the closing one |
| CppAmpersand.DigitLost | src/cpp/code/expr.c:772-786 | without its first digit a number is another one |
| CppAmpersand.OperandLost | src/cpp/code/expr.c:772-786 | without its first operand the right side is another tree |
| CppAmpersand.FirstCharacterMatters | src/cpp/code/expr.c:772-786 | for every right operand the loss of its first character changes the tree or the end |
| CppAmpersand.AmpersandExact | src/cpp/code/expr.c:772-786 | for all operands: read back if and only if a blank stands behind the ampersand |
| CppArithmetic.Sums | src/cpp/code/expr.c:81-105 | a sum is exact when it fits and wraps to 32 bits when not |
| CppArithmetic.Differences | src/cpp/code/expr.c:81-105 | so is a difference, left less right |
| CppArithmetic.SumUndoesDifference | src/cpp/code/expr.c:81-105 | adding takes back what was subtracted |
| CppArithmetic.Products | src/cpp/code/expr.c:102-105 | a product is exact when it fits and wraps when not |
| CppArithmetic.QuotientAndRemainder | src/cpp/code/expr.c:102-105 | the division equation, a remainder smaller than the divisor with the sign of the dividend, and exactly when there is a result |
| CppArithmetic.Comparisons | src/cpp/code/expr.c:102-105 | the six comparisons and the two logical operators are 0 or 1 and each other's complements |
| CppArithmetic.LeftShift | src/cpp/code/expr.c:102-105 | multiplication by a power of two in 32 bits, defined for 0 to 31 |
| CppArithmetic.RightShift | src/cpp/code/expr.c:102-105 | division by a power of two rounded down |
| CppArithmetic.BitIsQuotient | src/cpp/code/expr.c:102-105 | a bit is the lowest of the quotient by its power of two |
| CppArithmetic.BitOperators | src/cpp/code/expr.c:102-105 | and, or and exclusive or bit by bit, the sign included |
| CppArithmetic.UnaryOperators | src/cpp/code/expr.c:81-98 | minus, complement and not |
| CppArithmetic.ExecFits | src/cpp/code/expr.c:70-110 | whatever is evaluated is a 32-bit int |
| CppEval.ExecIsValue | src/cpp/code/expr.c:70-110 | what the evaluator computes is the C value, with short-circuit operators |
| CppEval.ExecIsUntrapped | src/cpp/code/expr.c:70-110 | it has a result if and only if no division or shift in the whole expression has operands it is undefined for |
| CppEval.ExecReachesValue | src/cpp/code/expr.c:70-110 | it agrees with the C value if and only if that is so or the expression has no value |
| CppEval.SkippedDivision | src/cpp/code/expr.c:102-105 | an expression with a value on which the evaluator divides by zero |
| CppEval.ExecZeroesCommas | src/cpp/code/expr.c:72-105 | commas anywhere in a tree are evaluated as 0 |
| CppEval.ExecOfAnyTree | src/cpp/code/expr.c:70-110 | what the evaluator makes of every tree: the C value with 0 in place of its commas, when nothing in it is undefined |
| CppComma.ChainReads | src/cpp/code/expr.c:1006-1041 | operands joined by commas are read as the left-leaning tree, up to the end of the condition |
| CppComma.CommaCondition | src/cpp/code/expr.c:1066-1114 | a condition with commas comes to 0, right if and only if every operand is defined and the last is 0 |
| CppComma.CommaExample | src/cpp/code/expr.c:72-105 | `#if 1,2` is taken as false |
| CppEval.EvalPrinted | src/cpp/code/expr.c:1066-1114 | a printed condition evaluates to its tree's result and the line, or the parenthesis, is used up |
| CppEval.JunkIsPassed | src/cpp/code/expr.c:1085-1094 | whatever follows the expression is passed, up to the end of the line or the parenthesis |
| CppEval.ConditionIsValue | src/cpp/code/expr.c:1066-1114 | from text to value: the condition comes to what the expression means if and only if no operator in it is undefined or the expression has no meaning |
| CppBuckets.Buckets.Search | src/cpp/code/symtbl.c:153-162 | walking the links finds the first node of a name and the link that leads to it |
| CppBuckets.Buckets.Insert | src/cpp/code/symtbl.c:124-131 | a new node in front of its chain; every chain still follows its links and shares no node |
| CppBuckets.Buckets.Relink | src/cpp/code/symtbl.c:85-87 | a node from elsewhere is linked in front of a chain, its old link overwritten |
| CppBuckets.Buckets.Replace | src/cpp/code/symtbl.c:115-120 | a definition is replaced inside its node |
| CppBuckets.Buckets.LinkPast | src/cpp/code/symtbl.c:162-165 | the head or the link before leads past the node, and no other chain changes |
| CppBuckets.Buckets.Unlink | src/cpp/code/symtbl.c:162-170 | the chain without that node, the others untouched |
| CppSymbols.InsertOk | src/cpp/code/symtbl.c:124-131 | a new definition at the front of its bucket keeps the table in step with the map |
| CppSymbols.ReplaceOk | src/cpp/code/symtbl.c:108-121 | so does replacing one in place |
| CppSymbols.RemoveOk | src/cpp/code/symtbl.c:162-170 | so does unlinking one |
| CppSymbols.SymbolTable.constructor | src/cpp/code/symtbl.c:44-56 | an empty table for the empty map |
| CppSymbols.SymbolTable.ComputeHash | src/cpp/code/symtbl.c:32-42 | the folded hash, in a 64-bit word |
| CppSymbols.SymbolTable.FindDef | src/cpp/code/symtbl.c:178-192 | looking a name up is looking it up in the map |
| CppSymbols.SymbolTable.Find | src/cpp/code/symtbl.c:151-162 | the node of a name is found if and only if the map has the name, and holds its definition |
| CppSymbols.SymbolTable.Add | src/cpp/code/symtbl.c:122-137 | the map with one more name, and a larger table when it gets too full |
| CppSymbols.SymbolTable.Overwrite | src/cpp/code/symtbl.c:108-121 | the map with the name's definition replaced |
| CppSymbols.SymbolTable.Define | src/cpp/code/symtbl.c:93-143 | the map with the definition added or replaced, the warning exactly when a different one was there, the load kept |
| CppSymbols.SymbolTable.Undef | src/cpp/code/symtbl.c:145-176 | the map without the name |
| CppSymbols.SymbolTable.MoveChain | src/cpp/code/symtbl.c:82-88 | with the next node saved before its link is overwritten, every node of a chain is relinked and none is lost |
| CppSymbols.SymbolTable.MoveAll | src/cpp/code/symtbl.c:76-89 | relinking every chain loses and repeats no definition and makes no new node |
| CppSymbols.SymbolTable.RehashUp | src/cpp/code/symtbl.c:58-91 | a larger table for the same map, and at most twice as many entries as buckets unless the last size is reached |
| CppSymbols.SymbolTable.FilterChain | src/cpp/code/symtbl.c:214-230 | one chain loses exactly its predefined macros while it is walked |
| CppSymbols.SymbolTable.UndefPredefs | src/cpp/code/symtbl.c:206-232 | exactly the predefined macros are gone |
| CppSymbols.AllPredefsGone | src/cpp/code/symtbl.c:206-232 | a table whose chains hold no predefined macro represents the map without them |
| CppOutput.Output.OutputLineAndFile | src/cpp/code/io.c:476-497 | a marker puts the reader where the text goes on; blanks written before it stay before it |
| CppOutput.Output.OutAt | src/cpp/code/io.c:499-513 | after any run, moving to another place keeps every visible character where it was put, behind the blanks put before it |
| CppOutput.Output.FlushLines | src/cpp/code/io.c:547-551 | the line ends held back are written without moving a visible character |
| CppOutput.Output.FlushWhite | src/cpp/code/io.c:552-565 | the blanks held back are written behind them, all of them |
| CppOutput.Output.OutputC | src/cpp/code/io.c:515-569 | over every run of calls the reader who follows markers and line ends finds exactly the visible characters put, each at its file and line and behind the blanks put before it; where the place was changed among those, the earlier ones may stand before the marker, and only blanks before a line end can be missing |
| CppInput.Input.Get | src/cpp/code/io.c:144-228 | the next character of the pushed-back text and then of the file, with the line count kept |
| CppInput.Input.Push | src/cpp/code/io.c:250-273 | the character stands in front of the input, with the line count kept; what was pushed before is lost once the row has been overrun |
| CppInput.PushesStayInRow | src/cpp/code/io.c:250-257 | a run of pushes stores only inside the row if and only if it fits |
| CppInput.NothingLost | src/cpp/code/io.c:250-257 | pushing a text loses nothing if and only if it fits the row and one place more |
| CppInput.FullRowExample | src/cpp/code/io.c:250-257 | a run that fills the row and then stores behind it |
| CppActuals.SplitOfJoin | src/cpp/code/expand.c:88-172 | balanced arguments joined by commas are split into the same arguments |
| CppActuals.JoinOfSplit | src/cpp/code/expand.c:88-172 | whatever is split was joined from balanced arguments |
| CppActuals.ActualsOfCall | src/cpp/code/expand.c:39-184 | a call with as many arguments as formals gets exactly those, and reading goes on behind it |
| CppActuals.ActualsOfAnyCall | src/cpp/code/expand.c:156-183 | too few arguments are filled up with empty ones, too many are cut |
| CppActuals.ActualsOfNoCall | src/cpp/code/expand.c:56-76 | without a parenthesis all arguments are empty and only white space is used up |
| CppActuals.ActualsOfNone | src/cpp/code/expand.c:77-87 | a macro with an empty parameter list takes nothing from between the parentheses |
| CppArguments.ItemsPass | src/cpp/code/expand.c:102-154 | the scanner stands behind any text of the argument grammar as before it: plain and escaped characters, quotes, comments, nested parentheses with commas |
| CppArguments.ArgumentIsBalanced | src/cpp/code/expand.c:102-154 | text of that grammar is one argument |
| CppArguments.ArgumentsSplit | src/cpp/code/expand.c:88-172 | any list of such arguments is split into just these |
| CppArguments.NestedCallExample | src/cpp/code/expand.c:133-151 | the comma in `g(a,b)` separates nothing |
| CppArguments.RemarkExact | src/cpp/code/expand.c:102-108 | exactly which comments are passed over |
| CppArguments.StarExact | src/cpp/code/expand.c:124-127 | exactly when a star is just a star |
| CppArguments.SlashedRemark | src/cpp/code/expand.c:102-108 | a comma in a comment that ends the argument |
| CppArguments.StarBehindRemark | src/cpp/code/expand.c:124-127 | a star behind a comment that hides the end of the call |
| CppActuals.Advance | src/cpp/code/expand.c:102-154 | the scanner's variables after a character |
| CppActuals.ReadArg | src/cpp/code/expand.c:91-155 | one argument up to the comma or parenthesis that ends it |
| CppActuals.Gather | src/cpp/code/expand.c:88-172 | all arguments up to the closing parenthesis, the first n kept |
| CppActuals.Pad | src/cpp/code/expand.c:173-183 | missing arguments are empty |
| CppActuals.ReadActuals | src/cpp/code/expand.c:39-184 | the actuals and the input behind the call in every case, a missing parenthesis and too few or too many arguments included; at most one character is put back |
| CppMacro.ExpandEncode | src/cpp/code/define.c:299-350 | for every ASCII body, expanding its encoding is substituting all formals at once; comments are left alone |
| CppMacro.FaithfulIsAscii | src/cpp/code/define.c:299-350 | that holds for all arguments if and only if the body is ASCII |
| CppMacro.HighCharacterExample | src/cpp/code/define.c:299-350 | a body whose one character is taken for a formal |
| CppBody.FormalIsFirst | src/cpp/code/define.c:310-317 | the first formal of a name is found, and none if and only if there is none |
| CppBody.FormalReplaced | src/cpp/code/define.c:304-321 | a word that is a formal gives way to its argument |
| CppBody.WordStays | src/cpp/code/define.c:322-329 | any other word stays |
| CppBody.CharacterStays | src/cpp/code/define.c:345-348 | so does any other character that opens no comment |
| CppBody.CommentStays | src/cpp/code/define.c:331-344 | exactly which comments are left alone |
| CppBody.HiddenEnd | src/cpp/code/define.c:331-344 | a formal behind a comment that is not replaced |
| CppBody.SquareExample | src/cpp/code/define.c:304-350 | `x*x` with 3 for `x` is `3*3` |
| CppDefine.EncodeBody | src/cpp/code/define.c:299-350 | the in-place rewrite turns the buffer into the encoding of the body it held |
| CppDefine.RewriteWord | src/cpp/code/define.c:304-330 | an identifier becomes its code or is moved down unchanged |
| CppDefine.RewriteOther | src/cpp/code/define.c:331-348 | everything else is moved down, comment marks as pairs |
| CppExpand.ExpandText | src/cpp/code/expand.c:229-246 | every code is replaced by its actual |
| CppComments.StripNothing | src/cpp/code/expand.c:260-285 | text in which no comment begins is left as it is |
| CppComments.StripOneComment | src/cpp/code/expand.c:260-285 | a comment whose text does not begin with a slash is dropped; when comments are kept, only an empty one is |
| CppComments.StripMixed | src/cpp/code/expand.c:260-285 | text with any number of such comments is left with its other parts, and those comments that are kept, when none is followed by a star |
| CppCommentText.StripAddsNoMore | src/cpp/code/expand.c:264-285 | from any state of the loop no more comes out than the text without its comments, when none begins with a slash |
| CppCommentText.StarExact | src/cpp/code/expand.c:260-285 | every text in which no comment begins with a slash: exactly its comments go if and only if no star follows one |
| CppCommentText.StripSlashed | src/cpp/code/expand.c:279-283 | the slash closes the comment, and the rest of it comes out with its end |
| CppCommentText.StripExact | src/cpp/code/expand.c:260-285 | every text with one kind of fault at most: exactly its comments go if and only if it has none |
| CppCommentText.CommentDisappears | src/cpp/code/expand.c:260-285 | between two texts a comment is stripped without trace if and only if it does not begin with a slash and no star follows it |
| CppCommentText.SlashInComment | src/cpp/code/expand.c:279-283 | a text whose comment comes out in part |
| CppCommentText.FaultsCancel | src/cpp/code/expand.c:260-285 | a text in which a star and a slash undo each other |
| CppCommentText.OpeningInside | src/cpp/code/expand.c:260-285 | a slashed comment with another opening in it that is removed all the same |
| CppCommentText.KeptWhole | src/cpp/code/expand.c:260-285 | when comments are kept, a text without empty ones is left as it is |
| CppComments.StarBehindComment | src/cpp/code/expand.c:260-285 | a text that is lost whole |
| CppComments.StripComments | src/cpp/code/expand.c:260-287 | the loop computes the stripping function |
| CppExpand.PasteNothing | src/cpp/code/expand.c:297-309 | text without `##` is pushed back whole |
| CppExpand.PasteJoins | src/cpp/code/expand.c:297-309 | `##` joins what stands on its two sides |
| CppExpand.PushBackwards | src/cpp/code/expand.c:297-309 | the loop pushes the pasted text, its end first, onto what is held |
| CppExpand.PushText | src/cpp/code/expand.c:297-309 | the pasted text stands in front of the whole input, in reading order, if and only if there is room for it |
| CppExpand.ExpansionSubstitutes | src/cpp/code/expand.c:186-309 | without comments and `##` in it, the expansion is the body with all formals replaced |
| CppExpand.ExpandDef | src/cpp/code/expand.c:186-320 | the call gives way to its expansion pushed onto what is held; with room for it, the expansion stands in front of what follows the call and the line count still adds up |
| CppCall.CallIsFound | src/cpp/code/expand.c:39-184 | a written call of any kind of macro is found, with its arguments and what follows it |
| CppCall.SpacedCallIsFound | src/cpp/code/expand.c:56-57 | so is a call with white space before its parenthesis |
| CppCall.CallDelivers | src/cpp/code/expand.c:186-309 | its expansion is the body with all formals replaced at once |
| CppCall.DefineAndCall | src/cpp/code/expand.c:186-309 | from the definition over the call to what is read, for macros without parameters, with empty parentheses and with arguments: the body with every formal replaced by its argument, and the input right behind the call |

## Left out

- Snappy's scattered output sink, big-endian branches, environment setup and debug checks: configuration that adds no property.
- Snappy's error exits of `compress`: they stand for allocation failure and for sinks too small, and cannot be reached with the buffers the model passes.
- LZF's other build configurations (other hash functions, cleared tables, pointer slots, strict alignment): the default one is modelled.
- LzfContainer.CompressStream: reading and writing cannot fail; the header is put in front of the block's bytes instead of into the buffer before them.
- Command line, file naming and messages of the `lzf` tool: input and output only.
- SnappyUncompress.InternalUncompress: says nothing of an empty fragment behind several others or behind a stream whose last element is shorter than five bytes; there the outcome depends on whether that element was stitched together.
- CppConditional.Preprocessor.DoIf: takes the value of the condition as a parameter, which CppDirective reads from the text; flushing output lines is not modelled, nor the mode that only lists include dependencies.
- CppConditional.Preprocessor.Process: takes the directives and characters as they are recognised; recognising them in the text is not modelled.
- CppExprReader.Reader.GetNonBlank: does not expand macros; identifiers outside `defined` are read as they stand. At the end of the input an open comment or character constant ends, where the source would not return.
- CppExprReader.Reader.ReadDefined: rewinds to a saved position instead of the source's mark and recover accounting.
- CppEval.Exec: overflow wraps around; division by zero, the overflowing division and shifts outside 0 to 31 have no result. Freeing the nodes is not modelled.
- CppBuckets.Buckets.Unlink: the pointer to a link is modelled as the node before it; freeing nodes is not modelled.
- CppOutput.Output: line markers are enabled; a marker is one event rather than its text.
- CppInput.Input: one file without includes, no input marks; the row of a file and the one place behind it are an array of their own.
- CppDefine.EncodeBody: the reading of the body and of the formals from the input is not modelled; more than 128 formals are cut by the caller.
- CppActuals.ReadActuals: a call that is never closed has no result, where the source would not return.
- CppComments.StripMixed: leaves out comments that begin with a slash; CppCommentText.StripExact covers them when comments are dropped, and CppCommentText.KeptWhole when they are kept and none is empty.
- CppCommentText.StripExact: does not decide texts with both kinds of fault, or with another opening inside a slashed comment; there the faults may undo each other.
- CppArguments.ArgumentsSplit: leaves out comments that begin with a slash and stars right behind a slash, for which CppArguments.RemarkExact and CppArguments.StarExact give the exact conditions.
- CppOutput.Output.OutputC: says nothing of blanks in front of a line end, some of which the source drops.
- The growable character buffer `accum.c`: strings stand for it.
- Include search, predefined macros, `@while`, `line`, `pragma` and the debug dumps of the preprocessor.
- The kernel headers, language mappings, demos and documentation of the repository.
