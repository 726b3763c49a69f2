# RTEMS toolkit: models and proofs

This project models the algorithmic core of the RTEMS toolkit and proves what it is there for. It follows the C, C++
and Python code, branch by branch; `dafny verify dfyconfig.toml` checks all of it.

* **Compression of RAP files.** FastLZ at its two levels and the framed stream above it. `Lz77`, `FastLzFormat`,
  `FastLzHash` and `FastLzCompress` give the meaning of tokens, the format and the compressor as functions;
  `FastLzCompressor`, `FastLzDecompressor` and `FastLz` are the programs on arrays, with cursors, a table of positions
  and the literal count patched back. `FastLzDecode` and `FastLzRoundTrip` hold the laws, `FastLzReach` says how far
  the decoder reads, `FastLzMatches` what is found and what tokens mean, bit by bit. `RldImage` and `Compression` are
  the image and the stream class, `StreamFormat` its specification, `StreamRoundTrip` and `BlockSizes` its laws.
* **Unicode converters.** `ConvertUtf` holds the six loops, `Transcoding` their specification, one character at a
  time, `Unicode` the encoding forms of RFC 3629 (sections 3 and 4) and RFC 2781 (sections 2.1 and 2.2), and
  `TranscodingLaws` the laws; `CharacterLaws` says what becomes of every source, character by character,
  `RestartCodes` says when a restarted call returns another code.
* **INI files**, as `rld::config` uses them: case sensitive, several values per key, multi-line values, no quotes, no
  keys without a value. `IniText` is the reader as functions on strings; `IniLines` and `IniReader` are the reader
  that cuts up and squeezes its buffer in place. `IniSyntax` is the syntax in literal characters. `IniPrint` is the
  text of an entry and `IniDocument` that of a whole file. `IniEntries`, `IniListing` and `IniStore` are the store:
  ordered containers, load numbers, and the store as a document. `IniFile` loads, with strings left in the buffer the
  first time and copied later, `IniLoading` compares the two, `IniSaving` saves, and `IniStays` and `IniExact` say
  which values and which documents come back.
* **Source lines of addresses.** `LineTable` builds a unit's table from its line program and looks addresses up in
  one unit and in all; `StableSort` is the library's stable sort, which the INI writer's list sort shares.
* **Macros.** `MacroText` is text with references and the string library on it, `Macros` the tables and the expansion.

Findings, each with its lemma:

* The stream's I/O buffer and its 16-bit block header are right for exactly the sizes 10 to 63549
  (`BlockSizes.WorkingSizes`); the constructor accepts every size up to 65535, and with size 0 a write puts out empty
  blocks without end (`BlockSizes.SizeZero`).
* `isLegalUTF8` has no lower limit for the second byte behind the lead bytes ED and F4, so it accepts sequences that
  RFC 3629 does not (`Unicode.LegalExactly`); all that it accepts still decodes to a scalar value.
* When a conversion from UTF-32 is restarted, the report of a value above 10FFFF can get lost, exactly if its target can
  be made to end between the last such value and the end (`RestartCodes.RestartCodeExactly`). To UTF-8 any value behind
  it is enough (`RestartCodes.ForgetsUtf8`); to UTF-16, in strict mode, two are needed, or one above FFFF. Nothing else
  depends on how the target was cut (`TranscodingLaws.RestartIsOneCall`).
* A first load leaves strings in its buffer, and a multi-line value whose body ends at once is then cut off by what is
  read later: `k=<<<T`, `T`, `foo=bar` gives `k` the value `T`, line feed, `foo` (`IniLoading.FirstLoadCutsOff`). It is
  right exactly if nothing behind such a value changes the text (`IniLoading.FirstLoadExactly`).
* Which INI values, keys and section names survive writing and reading is an exact condition
  (`IniPrint.ValueExactly`, `IniPrint.EntryExactly`, `IniPrint.SectionExactly`). A first load gives back a few values
  more, by chance of its buffer (`IniStays.FirstEntryExactly`, `IniExact.FirstLoadKeepsMore`). What whole documents come
  back is exact for both kinds of load (`IniExact.DocumentExactly`).
* As long as a unit has taken no row, a sequence is lost exactly if it starts at address zero or an odd number of
  one-row sequences at address zero stands directly in front of it (`LineTable.SwallowedExactly`,
  `LineTable.FirstComesThrough`); `LineTable.RowsLost` has rows that are lost.
* The header of FastLZ says that decompression never goes beyond memory. The code does read past the block
  (`FastLzReach.BlocksThatReach`): at level 1 two bytes, at level 2 up to the first byte that is not 255 and the one
  behind it, and two more if that one is 255, for blocks of three bytes or more; exactly these must be readable
  (`FastLzReach.ReachExactly`).

## Model

| member | source | states |
|---|---|---|
| Lz77.CopyBack | rtemstoolkit/fastlz.c:478-525 | copying a match gives the output it started from and then, at every place, the byte `d` places back, also when source and target overlap |
| Lz77.CopyBackUnique | rtemstoolkit/fastlz.c:478-525 | any output that satisfies that equation is the one `CopyBack` gives, so a copy may be done in any way that satisfies it |
| FastLzDecompressor.FillRun | rtemstoolkit/fastlz.c:478-487 | filling with the last byte is a match of distance 1 |
| FastLzDecompressor.CopyBytes | rtemstoolkit/fastlz.c:488-498 | the byte loop copies the match, for every distance from 1 |
| FastLzDecompressor.MoveWords | rtemstoolkit/fastlz.c:508-520 | copying 16 bits at a time, four words a turn and then the rest, keeps the match equation when the distance is at least 2 |
| FastLzDecompressor.CopyWords | rtemstoolkit/fastlz.c:495-520 | three bytes, an odd byte and then words copy the whole match when the distance is at least 2 |
| FastLzDecompressor.CopyMatch | rtemstoolkit/fastlz.c:478-525 | whichever of the three copy forms is taken, the whole match is copied and nothing else is written |
| FastLzDecompressor.ParseMatch | rtemstoolkit/fastlz.c:431-463 | a match head is read as the format says, at both levels |
| FastLzDecompressor.CopyLiterals | rtemstoolkit/fastlz.c:537-539 | a run of literals goes behind the output |
| FastLzDecompressor.Decompress | rtemstoolkit/fastlz.c:420-549 | for any block whose bytes can be read the decoder ends, writes only the first `maxout` bytes, and gives the number of bytes and the bytes of the format's meaning, or zero if the block is damaged or does not fit |
| FastLzFormat.Decode | rtemstoolkit/fastlz.c:420-549 | a decoded block has at least one and at most `maxout` bytes |
| FastLzReach.DecodeStays | rtemstoolkit/fastlz.c:420-549 | if what lies behind a block is as `Behind` asks, no block of that length makes the decoder read past it |
| FastLzReach.ReachExactly | rtemstoolkit/fastlz.c:420-549 | for every length, every bytes behind and an output of at least half the length: no block of that length makes the decoder leave its memory if and only if two bytes lie behind a level 1 block of three or more, and behind such a level 2 block a first byte that is not 255, one more, and two more if that one is 255; blocks of one and two bytes need nothing, an empty one its first byte |
| FastLzReach.Level1Reach | rtemstoolkit/fastlz.c:420-549 | by number: memory of k bytes behind a level 1 block of three or more is enough for all blocks if and only if k is at least 2 |
| FastLzReach.BlocksThatReach | rtemstoolkit/fastlz.c:420-549 | a block of each level that makes the decoder read behind what is there |
| FastLzDecode.DecodeLocal | rtemstoolkit/fastlz.c:420-549 | bytes behind what the decoder reads do not change what it gives |
| FastLzDecode.ReadMatch1Inverts | rtemstoolkit/fastlz.c:347-368 | a level 1 match token is read back as its length and distance |
| FastLzDecode.ReadNear2Inverts | rtemstoolkit/fastlz.c:307-323 | a near level 2 token is read back, with its chain of 255s, and is never mistaken for a far one |
| FastLzDecode.ReadFar2Inverts | rtemstoolkit/fastlz.c:324-346 | a far level 2 token is read back through the escape |
| FastLzDecode.ReadMatchInverts | rtemstoolkit/fastlz.c:306-369 | a match token of either level is read back, and the decoder stands behind it |
| FastLzDecode.DecodeTokens | rtemstoolkit/fastlz.c:420-549 | the bytes of any well-formed list of tokens, with any level marker in the first, decode to what the tokens stand for |
| FastLzFormat.MatchSaves | rtemstoolkit/fastlz.c:306-369 | every match token is shorter than what it stands for |
| FastLzCompress.CandidateEncodable | rtemstoolkit/fastlz.c:239-256 | what the search finds has a token: distance and length are in the range of the level |
| FastLzCompress.Step | rtemstoolkit/fastlz.c:206-391 | every turn of the main loop goes on and keeps all hash slots strictly in front of the scan position |
| FastLzHash.HashValues | rtemstoolkit/fastlz.c:102 | the slots of six byte triples, which fix the hash bit by bit |
| FastLzMatches.StepLevel1 | rtemstoolkit/fastlz.c:217-300 | if the table's position for the bytes at hand is less than 8192 back and has the same three bytes, a match of that distance is written up to the first difference or as far as it may reach, and a literal if not; which slots are set |
| FastLzMatches.StepLevel2 | rtemstoolkit/fastlz.c:217-300 | the same at level 2: a run of the byte in front first, else three equal bytes up to 8190 back or five from 8191 to 73724 |
| FastLzMatches.RunAtLevel1 | rtemstoolkit/fastlz.c:166-418 | any run of at least 15 equal bytes becomes two literals, the match 2 back and three literals |
| FastLzMatches.RunAtLevel2 | rtemstoolkit/fastlz.c:166-418 | and at level 2 two literals, the match 1 back and three literals |
| FastLzMatches.RunsAreShort | rtemstoolkit/fastlz.c:130-138 | the exact compressed size of a run of any length, at most ten bytes and three for each 262 below 65536 bytes |
| FastLzMatches.LiteralMeans | rtemstoolkit/fastlz.c:533-543 | a first byte below 32 says how many literals follow, less one |
| FastLzMatches.MatchMeans1 | rtemstoolkit/fastlz.c:431-463 | the bits of a level 1 match token as length and distance, and when it is an error |
| FastLzMatches.MatchMeans2 | rtemstoolkit/fastlz.c:431-463 | the bits of a level 2 match token, with its length bytes of 255 and its far distance of 16 bits |
| FastLzRoundTrip.MatchIsTrue | rtemstoolkit/fastlz.c:217-289 | the bytes of a found match, run or not, equal the bytes at its distance back, up to where the comparison ended, whatever the hash slots hold |
| FastLzRoundTrip.CloseRunKeeps | rtemstoolkit/fastlz.c:291-300 | patching the literal count in front of a match, or dropping an unused one, gives complete tokens for all input in front of the match |
| FastLzRoundTrip.PushLiteralKeeps | rtemstoolkit/fastlz.c:382-390 | a literal, also the 32nd of its run, keeps the output a token list for the input so far |
| FastLzRoundTrip.SplitKeeps | rtemstoolkit/fastlz.c:349-368 | a level 1 match longer than 262 is split into tokens that together stand for it and are shorter than it |
| FastLzRoundTrip.MatchKeeps | rtemstoolkit/fastlz.c:306-369 | writing a match at either level keeps the output a token list for the input so far |
| FastLzRoundTrip.StepKeeps | rtemstoolkit/fastlz.c:206-391 | the loop invariant: what has been written, with the open literal run, stands for the input in front of the scan position and is no longer than allowed |
| FastLzRoundTrip.TailKeeps | rtemstoolkit/fastlz.c:393-410 | the left-over literals complete the token list |
| FastLzRoundTrip.MarkStream | rtemstoolkit/fastlz.c:412-415 | the level 2 marker leaves the first token's literal count as it is |
| FastLzRoundTrip.CompressIsTokens | rtemstoolkit/fastlz.c:166-418 | compressed data is a marked well-formed token list that stands for exactly the input |
| FastLzRoundTrip.RoundTrip | rtemstoolkit/fastlz.c:166-418 | decoding at its level gives back every input of at least one byte, for every sufficient `maxout` |
| FastLzRoundTrip.AnnouncedLevel | rtemstoolkit/fastlz.c:140-150 | the first three bits tell the level that the data was compressed with |
| FastLzRoundTrip.SizeBound | rtemstoolkit/fastlz.c:166-418 | compressed data has at most one byte more for each 32 bytes begun |
| FastLzCompressor.WriteChain | rtemstoolkit/fastlz.c:317-320 | the loop writes the chain of 255s |
| FastLzCompressor.WriteMatch1 | rtemstoolkit/fastlz.c:349-368 | the level 1 writer writes the split tokens and nothing else |
| FastLzCompressor.WriteNear2 | rtemstoolkit/fastlz.c:308-323 | the near level 2 writer writes the token |
| FastLzCompressor.WriteFar2 | rtemstoolkit/fastlz.c:324-346 | the far level 2 writer writes the token with its escape |
| FastLzCompressor.EndLiterals | rtemstoolkit/fastlz.c:291-297 | the count is patched back, or the unused one dropped |
| FastLzCompressor.AddLiteral | rtemstoolkit/fastlz.c:382-390 | a literal is written, and a new count after the 32nd |
| FastLzCompressor.ExtendRun | rtemstoolkit/fastlz.c:267-273 | the run loop ends where the run does or the bound is |
| FastLzCompressor.ExtendMatch | rtemstoolkit/fastlz.c:274-289 | eight comparisons without a bound and the bounded loop end one behind the first difference, or at the bound |
| FastLzCompressor.FindMatch | rtemstoolkit/fastlz.c:217-256 | the candidate of the specification, and the table with the position entered |
| FastLzCompressor.HashBoundary | rtemstoolkit/fastlz.c:371-375 | the two positions at the end of a match are entered; the byte behind the input that the second hash may read changes only which slot is set, and no output |
| FastLzCompressor.MatchPass | rtemstoolkit/fastlz.c:291-378 | one match from the patched count to the next open literal count |
| FastLzCompressor.LoopPass | rtemstoolkit/fastlz.c:206-391 | a turn of the loop is a step of the specification and writes inside n + ceil(n/32) + 1 bytes |
| FastLzCompressor.WriteTail | rtemstoolkit/fastlz.c:393-410 | the left-over loop writes the end of the specification |
| FastLzCompressor.CompressBlock | rtemstoolkit/fastlz.c:166-418 | the whole compressor, on arrays with cursors and a table of positions, writes what the specification says, and inside n + ceil(n/32) + 1 bytes |
| FastLz.CompressWithLevel | rtemstoolkit/fastlz.c:154-162 | levels 1 and 2 compress, any other writes nothing and returns zero |
| FastLz.CompressArray | rtemstoolkit/fastlz.c:130-138 | inputs below 65536 bytes are compressed at level 1, others at level 2 |
| FastLz.DecompressArray | rtemstoolkit/fastlz.c:140-152 | the marker chooses the decoder; an unknown level gives zero |
| FastLz.LevelByFirst | rtemstoolkit/fastlz.c:140-152 | a first byte below 32 is level 1, below 64 level 2, and any other decodes to nothing |
| FastLz.BlockRoundTrip | rtemstoolkit/fastlz.c:140-152 | every non-empty input comes back from either level through the marker |
| FastLz.BlockRoundTripInBuffer | rtemstoolkit/fastlz.c:130-152 | the same with anything behind the block in the buffer |
| FastLz.DocumentedBufferSuffices | rtemstoolkit/fastlz.h:47-48 | a buffer of the documented size, five percent more and at least 66 bytes, is enough |
| BlockSizes.WorstCase | rtemstoolkit/rld-compression.cpp:61-62 | data without repeats takes the full n + ceil(n/32) bytes: the bound is reached |
| BlockSizes.VariedNoRepeats | rtemstoolkit/rld-compression.cpp:61-62 | there is data without repeats of every length |
| BlockSizes.SmallBlockGrows | rtemstoolkit/rld-compression.cpp:61-62 | every block below ten bytes grows by one and does not fit the I/O buffer |
| BlockSizes.WorkingSizes | rtemstoolkit/rld-compression.cpp:58-62 | of the sizes the constructor accepts exactly 10 to 63549 work: then, and only then, every block that is put out fits the I/O buffer, and its size fits the 16-bit header and is not the zero that reads as an error |
| BlockSizes.SizeZero | rtemstoolkit/rld-compression.cpp:234-263 | with size 0 every turn finds the buffer full: it takes nothing in and puts out one more empty block, which is an error to read |
| RldImage.Image.Read | rtemstoolkit/rld-files.cpp:359-376 | as much as is ahead is read, up to the size asked for |
| RldImage.Image.Write | rtemstoolkit/rld-files.cpp:379-394 | bytes go over what is ahead, and past the end |
| Compression.Compressor.constructor | rtemstoolkit/rld-compression.cpp:44-63 | an empty buffer, and an I/O buffer of `size + size / 10` bytes |
| Compression.Compressor.PutBlock | rtemstoolkit/rld-compression.cpp:234-263 | a full buffer, or a forced non-empty one, becomes a header and a compressed block in the image, and the counters say so |
| Compression.Compressor.Write | rtemstoolkit/rld-compression.cpp:72-98 | the new buffer, image and counters for any data; less than a block stays buffered |
| Compression.Compressor.WriteImage | rtemstoolkit/rld-compression.cpp:100-125 | the same for bytes of another image |
| Compression.Compressor.Flush | rtemstoolkit/rld-compression.cpp:210-214 | what is buffered goes out as a short block |
| Compression.Compressor.GetBlock | rtemstoolkit/rld-compression.cpp:265-300 | one block is fetched if nothing is buffered, with the two errors, and the end of the image where the header is missing |
| Compression.Compressor.Read | rtemstoolkit/rld-compression.cpp:127-162 | the bytes handed out, their number, the new state and the error of the specification, for any image |
| Compression.Compressor.ReadImage | rtemstoolkit/rld-compression.cpp:175-208 | the same, into another image |
| Compression.Compressor.ReadImageAt | rtemstoolkit/rld-compression.cpp:164-173 | the same from a place in the other image |
| Compression.WriteWord | rtemstoolkit/rld-compression.h:163-175 | a word goes out as its bytes, most significant first |
| Compression.ReadWord | rtemstoolkit/rld-compression.h:180-193 | a word is put together from its bytes, or the error of a short read |
| StreamRoundTrip.FrameBytes | rtemstoolkit/rld-compression.cpp:245-255 | in the image stand the compressed size in two bytes, the high one first, and the compressed block |
| StreamRoundTrip.InputTakes | rtemstoolkit/rld-compression.cpp:270-290 | the size is taken from two bytes, the high one first, then that many bytes are taken and decoded, and the rest stays ahead |
| StreamRoundTrip.InputFaults | rtemstoolkit/rld-compression.cpp:272-288 | the image's end, a size of zero and a block that is cut |
| StreamFormat.WordByteAt | rtemstoolkit/rld-compression.h:163-175 | each byte of a word by its place, the first being the most significant |
| StreamFormat.WordRoundTrip | rtemstoolkit/rld-compression.h:163-193 | bytes made from a word give the word |
| StreamFormat.BytesRoundTrip | rtemstoolkit/rld-compression.h:163-193 | the word made from bytes gives the bytes |
| StreamRoundTrip.FramesAppend | rtemstoolkit/rld-compression.cpp:72-98 | framing is compositional: what two pieces leave in the image and in the buffer is what their concatenation leaves |
| StreamRoundTrip.WriteAllShape | rtemstoolkit/rld-compression.cpp:72-98 | after any writes the image holds the full blocks of the concatenation, the buffer the remainder, and the counters the bytes accepted and written |
| StreamRoundTrip.SplitOfWritesIrrelevant | rtemstoolkit/rld-compression.cpp:72-98 | image, buffer and counters depend on the concatenation of the data only, not on how the writes were split |
| StreamRoundTrip.WrittenShape | rtemstoolkit/rld-compression.cpp:210-263 | after the flush the counters are the number of bytes written and the size of the image, which holds one frame for each block |
| StreamRoundTrip.InputFrame | rtemstoolkit/rld-compression.cpp:265-300 | a frame that was written is fetched without an error and gives the block |
| StreamRoundTrip.ReadHolds | rtemstoolkit/rld-compression.cpp:127-162 | one read on a written image gives the next bytes, as many as asked for if there are so many, and leaves an image that holds the rest |
| StreamRoundTrip.StreamRoundTrip | rtemstoolkit/rld-compression.cpp:127-162 | for every working size, any writes, a flush and then any reads give back the data slice by slice and then nothing, without an error |
| StreamRoundTrip.ChunksComeBack | rtemstoolkit/rld-compression.cpp:127-162 | reads of the sizes that were written give back exactly what was written |
| StreamRoundTrip.WordsRoundTrip | rtemstoolkit/rld-compression.h:163-193 | words of any widths come back as they were written |
| Unicode.LegalExactly | rtemstoolkit/ConvertUTF.c:295-318 | what `isLegalUTF8` accepts is exactly the well-formed sequences of RFC 3629 section 4 and, for lead bytes ED and F4 alone, those whose second byte is below 80 |
| Unicode.LegalIsScalar | rtemstoolkit/ConvertUTF.c:295-318 | all that it accepts decodes to a Unicode scalar value, without wrap-around |
| Unicode.RfcIsEncoding | rtemstoolkit/ConvertUTF.c:295-318 | a well-formed sequence is the encoding of the value it decodes to |
| Unicode.EncodingIsRfc | rtemstoolkit/ConvertUTF.c:214-280 | the encoding of a scalar value is a well-formed sequence that decodes to it |
| TranscodingLaws.Transcodes | rtemstoolkit/ConvertUTF.c:61-521 | each of the six converters turns the encoding of any scalar values into their other encoding, takes all input and reports `conversionOK`, in both modes, given room |
| TranscodingLaws.ThereAndBack | rtemstoolkit/ConvertUTF.c:61-521 | converting there and back is the identity, for every pair of forms and modes |
| TranscodingLaws.StrictExactly | rtemstoolkit/ConvertUTF.c:61-163 | from UTF-16 or UTF-32 the strict mode reports `conversionOK` if and only if the input encodes scalar values |
| TranscodingLaws.Utf8ModesAgree | rtemstoolkit/ConvertUTF.c:336-405 | from UTF-8 strict and lenient mode give the same result on every input |
| CharacterLaws.EncodingExactly | rtemstoolkit/ConvertUTF.c:61-521 | exactly the scalar values have an encoding in each form, one each, with the value that RFC 3629 and RFC 2781 give its bits |
| CharacterLaws.PiecesOf | rtemstoolkit/ConvertUTF.c:61-521 | every source, in both modes, is made of pieces that are converted, up to its end or to where the converter stops |
| CharacterLaws.ConvertExactly | rtemstoolkit/ConvertUTF.c:61-521 | what all six converters do with every source: for each piece its image is written, in literal numbers, also for lone surrogates, values above 10FFFF and cut or malformed sequences; where they stop, and with which code |
| CharacterLaws.Utf8Exactly | rtemstoolkit/ConvertUTF.c:336-405 | from UTF-8, in both modes, a call ends well if and only if the source is a concatenation of sequences that are well-formed or of the loose kind; else it stops in front of the first that is neither, exhausted if the lead byte calls for more bytes than are left and illegal otherwise |
| TranscodingLaws.RoomSuffices | rtemstoolkit/ConvertUTF.c:61-521 | a target of one, two, three or four units for each source unit, depending on the forms, is never exhausted |
| TranscodingLaws.TerminatedSuffices | rtemstoolkit/SimpleIni.h:3165-3205 | a terminated wide string needs one byte beyond what its characters need |
| TranscodingLaws.StoreEstimates | rtemstoolkit/SimpleIni.h:3048-3141 | the buffer estimates suffice: n wide units for n bytes, and 6n+1 bytes for n wide units and their terminator |
| TranscodingLaws.RestartIsOneCall | rtemstoolkit/ConvertUTF.c:61-521 | successive calls with targets of any sizes, restarted where they were exhausted, take the same input and give the same output as one call; the final code is the last call's, and is tied to the one call's by the reports made in passing |
| TranscodingLaws.ReportsOnlyTooLarge | rtemstoolkit/ConvertUTF.c:61-106 | values are reported while the conversion goes on only from UTF-32 and only above 10FFFF |
| TranscodingLaws.ReportCanBeForgotten | rtemstoolkit/ConvertUTF.c:409-459 | an input for which restarting ends with `conversionOK` although one call reports the illegal value |
| RestartCodes.RestartCodeExactly | rtemstoolkit/ConvertUTF.c:61-521 | for every source: restarting through all choices of targets that get to the end returns the one call's code, if and only if the source is not UTF-32 with a value above 10FFFF whose report can be cut off from the end; where strict mode stops at a surrogate none can |
| RestartCodes.ForgetsUtf8 | rtemstoolkit/ConvertUTF.c:409-459 | to UTF-8 that is: some value is above 10FFFF, the last one is not, and strict mode finds no surrogate |
| RestartCodes.ExhaustedAfter | rtemstoolkit/ConvertUTF.c:79-95 | to UTF-16 an oversized value needs a free unit and takes none: a target can end behind it only if two values, or one above FFFF, are still to come |
| RestartCodes.RestartChangesNothing | rtemstoolkit/ConvertUTF.c:110-405 | from UTF-8 and UTF-16 restarting takes the same input, gives the same output and returns the same code as one call |
| TranscodingLaws.CodeLaw | rtemstoolkit/ConvertUTF.c:61-106 | how a code set during the loop shows in the final code |
| TranscodingLaws.Progress | rtemstoolkit/ConvertUTF.c:61-521 | a target that holds the longest character makes every call take input |
| TranscodingLaws.RestartEnds | rtemstoolkit/ConvertUTF.c:61-521 | with such targets restarting ends |
| ConvertUtf.IsLegal | rtemstoolkit/ConvertUTF.c:295-318 | the fall-through switch is the predicate the laws are about |
| ConvertUtf.IsLegalSequence | rtemstoolkit/ConvertUTF.c:326-332 | the length comes from the lead byte; a sequence that is cut off is not legal |
| ConvertUtf.GatherBytes | rtemstoolkit/ConvertUTF.c:356-364 | the drop-through sum and the offset table give the decoded value |
| ConvertUtf.PutBytes | rtemstoolkit/ConvertUTF.c:269-274 | the drop-through writes give the bytes of the encoding |
| ConvertUtf.ConvertUTF32toUTF16 | rtemstoolkit/ConvertUTF.c:61-106 | the loop on arrays takes, writes and returns what the specification says, in both modes and for every target |
| ConvertUtf.ConvertUTF16toUTF32 | rtemstoolkit/ConvertUTF.c:110-163 | the same |
| ConvertUtf.ConvertUTF16toUTF8 | rtemstoolkit/ConvertUTF.c:214-280 | the same |
| ConvertUtf.ConvertUTF8toUTF16 | rtemstoolkit/ConvertUTF.c:336-405 | the same |
| ConvertUtf.ConvertUTF32toUTF8 | rtemstoolkit/ConvertUTF.c:409-459 | the same |
| ConvertUtf.ConvertUTF8toUTF32 | rtemstoolkit/ConvertUTF.c:463-521 | the same |
| IniLines.StringsEqual | rtemstoolkit/SimpleIni.h:1940-1942 | a string in the buffer is compared to its end |
| IniLines.MoveLine | rtemstoolkit/SimpleIni.h:1919-1928 | a line is moved down over text already read and ended by a zero; nothing else changes |
| IniLines.TagHere | rtemstoolkit/SimpleIni.h:1933-1945 | the end tag is recognised with spaces behind it, unless the line has been moved; if it is not there the buffer is as before |
| IniLines.NextLine | rtemstoolkit/SimpleIni.h:1955-1958 | one more line is squeezed: the place written to never passes the place read from, and the text ahead is intact |
| IniLines.LoadMultiLine | rtemstoolkit/SimpleIni.h:1854-1982 | in place, the value is the lines in front of the first end-tag line joined by single line feeds, for any mix of LF, CR and CRLF, and the cursor stands behind the tag's line; a body that its first line ends, with no space behind the tag, gives all of the text ahead, until a zero is put into it; nothing in front of the character before the body is written |
| IniLines.LoadComment | rtemstoolkit/SimpleIni.h:1854-1982 | in place, a comment becomes its lines joined by single line feeds, with an empty line for each blank one between them, and the cursor stands behind it |
| IniReader.ReadValueAt | rtemstoolkit/SimpleIni.h:1703-1741 | a single-line value without the spaces around it, or the multi-line body its tag starts, stands in the buffer: ended by a zero, or running on into the text ahead if its body ended at once |
| IniReader.HeaderAtBracket | rtemstoolkit/SimpleIni.h:1633-1669 | a section name without the spaces around it stands ended by a zero in the buffer, or the line is passed over |
| IniReader.FindEntryAt | rtemstoolkit/SimpleIni.h:1605-1756 | for any text the next section or entry is found, over comments, blank lines and lines that are neither; its strings stand in the buffer and the text behind it is intact; the place where the text started shows what `Shown` says, and the section name is, behind a header that its line does not close, the text from there up to the next zero |
| IniText.ReadBody | rtemstoolkit/SimpleIni.h:1854-1982 | reading a body does not go past the text, and without a tag it takes all of it |
| IniText.FindEntry | rtemstoolkit/SimpleIni.h:1605-1756 | every entry takes at least one character of the text |
| IniSyntax.SpaceSkipped | rtemstoolkit/SimpleIni.h:1621-1625 | a space, tab, carriage return or line feed in front changes nothing |
| IniSyntax.CommentSkipped | rtemstoolkit/SimpleIni.h:1626-1631 | a line that starts with `;` or `#` is passed over, whatever breaks it |
| IniSyntax.OtherLineSkipped | rtemstoolkit/SimpleIni.h:1672-1694 | so is a line that is neither comment nor header and has no equals sign, or starts with one |
| IniSyntax.EntryFound | rtemstoolkit/SimpleIni.h:1672-1721 | an entry on one line is found without the spaces and tabs behind its key and around its value |
| IniSyntax.SectionFound | rtemstoolkit/SimpleIni.h:1633-1669 | a header is found without the spaces around its name, and the rest of its line is passed over |
| IniSyntax.LinesFound | rtemstoolkit/SimpleIni.h:1723-1731 | between `<<<` with a tag and that tag on a line, the lines of a value come back joined by line feeds, whatever breaks each of them |
| IniSyntax.TagWithBlanks | rtemstoolkit/SimpleIni.h:1933-1945 | blanks behind the end tag do not matter, unless a break of two characters came before |
| IniSyntax.WrittenForm | rtemstoolkit/SimpleIni.h:2646-2678 | what is written for an entry: on one line, or between `<<<END_OF_TEXT` and `END_OF_TEXT` if its value has a line break or spaces at its ends |
| IniPrint.OutputIsBroken | rtemstoolkit/SimpleIni.h:2690-2714 | writing a value line by line writes it and a line feed |
| IniPrint.ValueExactly | rtemstoolkit/SimpleIni.h:2652-2678 | for every following text, a written value is read back with that text left if and only if it is on one line and does not start with `<<<`, or is on several and has no carriage return and no line that is `END_OF_TEXT` up to spaces behind it |
| IniPrint.EntryExactly | rtemstoolkit/SimpleIni.h:2646-2678 | whatever follows it, an entry is read back as it was if and only if its value survives and its key is not empty, starts with neither a space, a comment sign nor a bracket, does not end with a space and has no equals sign or line break |
| IniPrint.SectionExactly | rtemstoolkit/SimpleIni.h:2607-2616 | whatever follows it, a section header is read back if and only if its name is in one piece on one line without spaces at its ends and has no closing bracket |
| IniPrint.FoundIsParseable | rtemstoolkit/SimpleIni.h:1605-1756 | all keys and section names that reading gives can be written and read again |
| IniPrint.PairReads | rtemstoolkit/SimpleIni.h:2646-2678 | a written entry is the next entry found, and what follows it is what is left |
| IniPrint.HeaderReads | rtemstoolkit/SimpleIni.h:2607-2616 | a written section header is the next section found |
| IniDocument.DocumentReads | rtemstoolkit/SimpleIni.h:2601-2683 | the text of a document holds its sections and entries in order, no header that its line does not close and no value that runs on |
| IniDocument.RoundTrip | rtemstoolkit/SimpleIni.h:1524-1556 | loading what was written gives the same sections in order, the same keys in order and the same list of values for each key |
| IniOrder.LatestComesLast | rtemstoolkit/SimpleIni.h:350-357 | wherever the latest entry stands, sorting by load order puts it last |
| IniEntries.RangeOf | rtemstoolkit/SimpleIni.h:360-364 | in the ordered containers the entries of a name are a contiguous range, in the order they were added |
| IniEntries.PickedPlaced | rtemstoolkit/SimpleIni.h:2108-2116 | inserting behind the entries of its name adds to that name's values and to no other's |
| IniEntries.FirstOrder | rtemstoolkit/SimpleIni.h:2068-2077 | the loop that looks for the smallest load number finds that of the first value |
| IniEntries.EraseValues | rtemstoolkit/SimpleIni.h:2755-2775 | the loop erases exactly the values of the key that equal the given one, or all, and tells whether there was one |
| IniEntries.PickedWithout | rtemstoolkit/SimpleIni.h:2755-2775 | what is left of every key after that |
| IniEntries.WithoutOk | rtemstoolkit/SimpleIni.h:2755-2775 | erasing keeps the order of names and of load numbers |
| IniEntries.AddToSection | rtemstoolkit/SimpleIni.h:2061-2119 | the new list of values of every key of a section: added, replaced at the smallest earlier load number, or updated where it was |
| IniStore.Store.AddEntry | rtemstoolkit/SimpleIni.h:2013-2120 | the new values of every key of every section, the new load numbers and the result; with several values per key and no forced replacement the store as a document changes as adding to a document does |
| IniStore.Store.DeleteValue | rtemstoolkit/SimpleIni.h:2730-2799 | the new values of every key of every section, which sections are left, and the result |
| IniStore.Store.GetAllValues | rtemstoolkit/SimpleIni.h:2355-2386 | all values of a key, oldest first, or none |
| IniStore.Store.GetAllKeys | rtemstoolkit/SimpleIni.h:2453-2480 | every key of a section once, with the load number of its first value |
| IniStore.Store.GetAllSections | rtemstoolkit/SimpleIni.h:2440-2448 | all sections |
| IniStore.UpdateIsSimple | rtemstoolkit/SimpleIni.h:2013-2120 | what one update makes of the values of its key is what it makes of a list of strings |
| IniStore.Run | rtemstoolkit/SimpleIni.h:2013-2120 | after any run of additions and deletions the store holds for every key the list that a simple key-to-list store holds |
| IniListing.OneFirst | rtemstoolkit/SimpleIni.h:2453-2480 | a key that has values is listed once, any other not at all |
| IniListing.FirstsPlaced | rtemstoolkit/SimpleIni.h:2453-2480 | a value of a key that is there leaves the list of keys as it is; a new key comes last in load order |
| IniListing.KeysOfPlaced | rtemstoolkit/SimpleIni.h:2108-2118 | a section's keys in load order, with their values, change as adding to a document says |
| IniListing.ListedPlaced | rtemstoolkit/SimpleIni.h:2034-2055 | a new section comes last |
| IniListing.ListedChanged | rtemstoolkit/SimpleIni.h:2061-2118 | changing one section's keys changes that section of the document and no other |
| IniFile.FileCommentDoesNotMatter | rtemstoolkit/SimpleIni.h:1578-1600 | whether the first lines of comment are taken for the file's own or not, the same entries follow |
| IniFile.FindFileComment | rtemstoolkit/SimpleIni.h:1578-1600 | a comment that the text starts with is taken if the store has none, and the text behind it is intact |
| IniFile.LoadCopies | rtemstoolkit/SimpleIni.h:1524-1556 | a later load of any text adds its entries, in order and with the values as they are when found, to what the store held |
| IniFile.LoadPlaces | rtemstoolkit/SimpleIni.h:1524-1556 | on a first load, which copies no strings, each place shows in the end what `Loadings` says, for any text |
| IniFile.AddPlaces | rtemstoolkit/SimpleIni.h:1541-1553 | what the places show is what is added |
| IniFile.LoadData | rtemstoolkit/SimpleIni.h:1479-1556 | loading any text adds its entries to what the store held: of a later load the values when they are found, of a first one what the buffer shows of them in the end, each in the section its header or, where that is not closed, the text from it on names |
| IniLoading.CommentTextKept | rtemstoolkit/SimpleIni.h:1854-1982 | loading a comment leaves it as it was exactly if its lines end with single line feeds, blank lines in it are empty and the text ends with it |
| IniLoading.ShownExactly | rtemstoolkit/SimpleIni.h:1605-1756 | looking for an entry leaves the text as it was exactly if it has no closed header, no line with a key and at most a comment that stays as it is |
| IniLoading.FirstLoadExactly | rtemstoolkit/SimpleIni.h:1518-1556 | a first load gives what a later one of the same text would if and only if behind every multi-line value that its first body line ends, with no space behind the tag, the text stays as it is |
| IniLoading.FirstLoadCutsOff | rtemstoolkit/SimpleIni.h:1518-1556 | a text of three lines whose value a first load cuts off at the key that follows |
| IniLoading.LoadingIsBuilding | rtemstoolkit/SimpleIni.h:1524-1556 | for a text without open headers, and with values kept in place or copied, a load is adding its items to a document |
| IniStays.ShownBefore | rtemstoolkit/SimpleIni.h:1605-1756 | a text with the end tag's line written behind it is cut at its own end, once the next entry has been looked for, if and only if it is passed over up to a comment that ends it and stays as it is |
| IniStays.StaysExactly | rtemstoolkit/SimpleIni.h:1723-1731 | a written value whose first line is the end tag is in the end what was written if and only if a comment ends it in that way |
| IniStays.ValueLost | rtemstoolkit/SimpleIni.h:1703-1741 | any other value that cannot be written is read as another one, or not found, unless it is one line that starts with `<<<` and the text behind it does too |
| IniStays.FirstEntryExactly | rtemstoolkit/SimpleIni.h:1518-1556 | on a first load an entry comes back, whatever follows it, if and only if its key can be written and its value can be or stays |
| IniStays.OpenNameBreaks | rtemstoolkit/SimpleIni.h:1633-1669 | the section name that an open header gives to an entry holds a line break |
| IniExact.PairMatches | rtemstoolkit/SimpleIni.h:1541-1553 | a written entry is loaded as it was and what follows it as on its own, or the list of what is loaded parts from the items there |
| IniExact.DocumentExactly | rtemstoolkit/SimpleIni.h:1479-1556 | a document comes back from a first load, and from one that copies strings, if and only if its names can be read, a nameless section has keys and its values survive such a load; for all documents of section names without line breaks, with no section that has both a value on one line that starts with `<<<` and a key that does |
| IniExact.ComesBackCopied | rtemstoolkit/SimpleIni.h:1479-1556 | for loads that copy strings that is what can be written |
| IniExact.FirstLoadKeepsMore | rtemstoolkit/SimpleIni.h:1518-1556 | a document with a value that cannot be written and that a first load nevertheless gives back |
| IniSaving.SaveKeys | rtemstoolkit/SimpleIni.h:2618-2680 | one section's keys and values are written in load order |
| IniSaving.PrintSnoc | rtemstoolkit/SimpleIni.h:2601-2616 | a section follows two line breaks and its name in brackets, which the nameless one lacks |
| IniSaving.Save | rtemstoolkit/SimpleIni.h:2541-2685 | the store is written as its document, with the nameless section moved to the front |
| IniSaving.SaveAndLoad | rtemstoolkit/SimpleIni.h:2541-2685 | saving a store and loading the text into a fresh one gives the same document, with the nameless section in front, if all of it can be written, and for documents as in `IniExact.DocumentExactly` exactly if it comes back from a first load |
| StableSort.SortOrders | rtemstoolkit/rld-dwarf.cpp:1729-1732 | the sort orders its entries and keeps all of them |
| StableSort.SortStable | rtemstoolkit/rld-dwarf.cpp:1729-1732 | entries of the same address stay in the order they came |
| StableSort.OnlyOneStableSort | rtemstoolkit/rld-dwarf.cpp:1729-1732 | these two properties leave only one result |
| LineTable.BuildLines | rtemstoolkit/rld-dwarf.cpp:1683-1732 | the loop over the line program and the sort give the stable sort of the rows the scan takes |
| LineTable.KeptBySequence | rtemstoolkit/rld-dwarf.cpp:1684-1727 | for every program made of sequences: each adds its rows within the unit's bounds, one that starts at zero moved to where the last row taken is; but as long as that is nowhere, those that start at zero and those directly behind an odd number of one-row sequences at zero add nothing |
| LineTable.SwallowedExactly | rtemstoolkit/rld-dwarf.cpp:1691-1703 | a sequence that does not start at zero and has rows in the unit adds them or nothing, and nothing if and only if no row has been taken, or the last one at location zero, and directly in front stands an odd number of one-row sequences at zero |
| LineTable.FirstComesThrough | rtemstoolkit/rld-dwarf.cpp:1691-1703 | behind sequences that all start at zero the first that does not comes through if and only if they do not end with an odd number of one-row ones |
| LineTable.RowsLost | rtemstoolkit/rld-dwarf.cpp:1691-1703 | a program whose rows are lost behind one such sequence and come through behind two |
| LineTable.OneRowSwallowsNext | rtemstoolkit/rld-dwarf.cpp:1691-1703 | whatever follows, a sequence of a single row at zero in front of all others takes away the sequence behind it, wherever that one starts |
| LineTable.BelowIs | rtemstoolkit/rld-dwarf.cpp:1890-1901 | the row for an address between rows is the last, in program order, of those closest below it |
| LineTable.SourceAtSorted | rtemstoolkit/rld-dwarf.cpp:1729-1732 | sorting does not change which row an address belongs to |
| LineTable.SourceExactly | rtemstoolkit/rld-dwarf.cpp:1884-1905 | an address in the unit belongs to the first row taken at it or, between rows, to the last of those closest below, if that has a file and a line, and to no other |
| LineTable.MovedRow | rtemstoolkit/rld-dwarf.cpp:1703-1716 | a row is moved by its base in 64 bits, and kept from the lower bound to the upper one |
| LineTable.BestUnit | rtemstoolkit/rld-dwarf.cpp:2177-2195 | over all units the answer is that of the last whose row ends no sequence or, if all rows do, of the last that has one |
| LineTable.CompilationUnit.constructor | rtemstoolkit/rld-dwarf.cpp:1683-1732 | a unit holds the stable sort of the rows taken |
| LineTable.CompilationUnit.GetSource | rtemstoolkit/rld-dwarf.cpp:1884-1905 | the first row at the address in program order, or else the last of those closest below if there is a row behind; nothing outside the bounds or if that row is not valid |
| LineTable.BestSnoc | rtemstoolkit/rld-dwarf.cpp:2184-2194 | how one more unit's row changes the choice |
| LineTable.GetSource | rtemstoolkit/rld-dwarf.cpp:2164-2205 | over all units, the last row that does not end a sequence, or else the last; found if and only if some unit has one |
| MacroText.TextOfTokens | rtemstoolkit/macros.py:498-504 | taking text apart at its references loses nothing |
| MacroText.FindAllTokens | rtemstoolkit/macros.py:498 | the matches of the pattern are the references, in order |
| MacroText.FindsReference | rtemstoolkit/macros.py:92 | `%{`, a name without a closing brace and `}` are found, and the search goes on behind |
| MacroText.FindsNothing | rtemstoolkit/macros.py:92 | without one of these three characters nothing is found |
| MacroText.TokensOfText | rtemstoolkit/macros.py:498 | well-delimited pieces are what their text is taken apart into |
| MacroText.ReplaceIsSubst | rtemstoolkit/macros.py:504 | replacing a reference in the text puts the pieces of its value in all its places, and does nothing else |
| MacroText.SubstDelimited | rtemstoolkit/macros.py:504 | the text stays well delimited |
| Macros.Get | rtemstoolkit/macros.py:441-451 | the macro from the first read map that has it, or else from the global one |
| Macros.FirstMapWins | rtemstoolkit/macros.py:446-448 | the first read map that has a key decides |
| Macros.GlobalIsLast | rtemstoolkit/macros.py:449-451 | a key that no read map has is that of the map `global`, or none |
| Macros.NamesAreOne | rtemstoolkit/macros.py:273-276 | capital letters do not matter in a name, nor whether it is written as a reference |
| Macros.Expand | rtemstoolkit/macros.py:487-506 | the loop over passes and the loop over the references found are the specification's expansion, for any table |
| Macros.WhatComesOut | rtemstoolkit/macros.py:487-506 | whatever the table, a text that comes out has no reference left, and a reference reported as undefined is undefined |
| Macros.FirstUndefined | rtemstoolkit/macros.py:498-503 | of several undefined references the first one found is reported |
| Macros.FullSubst | rtemstoolkit/macros.py:504 | replacing a reference by its value does not change what the text stands for |
| Macros.PassRanked | rtemstoolkit/macros.py:498-505 | a pass keeps what the text stands for, and the greatest rank in it goes down |
| Macros.ExpandIsFull | rtemstoolkit/macros.py:487-506 | if no macro refers to itself, all are defined and well delimited and the text refers less than 1000 deep, the expansion ends without an error and is the full recursive substitution |
| Macros.ChainLimit | rtemstoolkit/macros.py:492-496 | a chain of references expands if and only if it is less than 1000 long |

## Left out

- FastLzDecompressor.Decompress: asks that the bytes the decoder reads exist, which the C code does not check; `FastLzReach.ReachExactly` says which bytes these are. The build choice `FASTLZ_STRICT_ALIGN` is the parameter `words`.
- FastLzCompressor.CompressBlock: lengths are unbounded numbers, so 32-bit overflow of lengths and cursors is not modelled; all bounds on bytes of tokens are exact. The byte behind the input that a hash may read is the parameter `beyond`, which no output depends on.
- Compression.Compressor.Write: asks for a size of at least 10, below which the C++ code writes past its I/O buffer; for size 0, for which it does not end, see `BlockSizes.SizeZero`. The same holds for WriteImage, Flush and WriteWord.
- Compression.Compressor.WriteImage: the input image holds the bytes that are asked for; the code ignores a short read there.
- Compression.Compressor.Read: asks that no block of the image is larger than the I/O buffer or makes the decoder read past it, which the code does not check; `StreamRoundTrip.InputFrame` shows it for written images. The same holds for ReadImage, ReadImageAt and ReadWord.
- RldImage.Image.Seek: places behind the end of an image are not modelled, so `Compression.Compressor.ReadImageAt` asks for an offset inside the output image.
- The stream's uncompressed mode, the flush in its destructor and the verbose output.
- Input and output errors of images: a write takes all bytes, and a read gives what is ahead.
- ConvertUtf.ConvertUTF8toUTF32: the tables of trailing bytes, offsets and marks are given by their ranges, as are those of the other converters; target and source are different arrays.
- IniFile.LoadPlaces: entries are added when the text is over, the code adds each one when it is found; by then only its value can still change, which has no part in where it goes.
- IniLines.LoadComment: comments are loaded in place, but stores and documents do not keep them.
- IniSaving.Save: stores and documents hold no comments, so none are written. Line breaks are written as single line feeds, which `SI_NEWLINE_A` is except on Windows, where it is two characters.
- IniStore.Store.AddEntry: names and values are strings without zeros, ordered by character code, as values and not as pointers into the loaded data; a missing value is passed as an empty one. The library's find is taken to give the first entry of a name.
- IniSaving.SaveAndLoad: texts that hold a zero are not modelled. What is said of a store whose document is outside `IniExact.Arranged` is only that it comes back if it can be written.
- IniExact.DocumentExactly: leaves out section names with a line break, and sections that have both a value on one line that starts with `<<<`, which takes in the lines behind it, and a key that starts so. `IniPrint.SectionExactly` and `IniPrint.EntryExactly` say that each such name or value is lost where it stands; what is read in its place is not followed further.
- IniFile.LoadData: the document it gives is stated for stores with several values per key, the ones `rld::config` uses; for others `IniStore.Store.AddEntry` says what each entry does.
- Quoted values, keys without values, byte order marks, ignoring case, numeric and boolean getters, and conversion by locale, ICU or Windows in the INI reader.
- LineTable.CompilationUnit.constructor: the unit's bounds are given; how they are computed from ranges, and the reading of DWARF by its library, are left out. Addresses are 64 bits wide and wrap around.
- Macros.Get: lower case is that of the letters A to Z.
- Macros.ExpandIsFull: asks for ranks and well-delimited values of all macros of the table, also of those the text does not reach.
- Loading, defining and undefining macros, and locking read maps: they change dictionaries and have little to state.
- The layout of RAP files, relocation, the linkers' main programs, `rld-buffer` (whose reading and writing of words use opposite byte orders for the same flag), the configuration language of `config.py`, packages, options, paths, mail and git: mostly input and output, and nothing harder than what is here.
