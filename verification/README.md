# Verified models of the JPEG coding machinery in ext/libjpeg

The IJG library in `ext/libjpeg` codes images by the methods of ITU-T T.81 | ISO/IEC 10918-1.
This project models the parts of it that are hardest to get right, and proves that what is
coded comes back: the arithmetic and the Huffman entropy coders with their tables, bytes,
markers and suspensions, progressive refinement, and the controllers that feed them.

Errors that end a run (`ERREXIT`) are failure results. Bytes and blocks are sequences. The
DCT, the source and destination managers and the application are parameters: an arbitrary
function, the numbers of bytes that arrive, the room there is for output.

- **Arithmetic coder** (`CodingInterval`, `ArithmeticEncoder`, `ArithmeticDecoder`,
  `ArithmeticRoundTrip`). Both coders are proved against exact interval arithmetic. The
  encoder's registers, stacked 0xFF bytes, pending zeros and buffered byte denote exactly the
  low end of the interval; the segment it finishes is the shortest one that decodes. The
  decoder's bits are those of the interval that holds the code, on any input.
- **Restart markers** (`RestartSegments`, `RestartMarkers`). How a scan is cut into segments,
  and where a decoder goes on at a marker: the next marker, expected or not, decides by
  `jpeg_resync_to_restart`. All entropy coders below share this.
- **Arithmetic scans** (`ArithmeticBlock`, `ArithmeticMcu*`, `ArithmeticSegments`,
  `ArithmeticScan*`). The decisions of an MCU are a trace that the encoder codes and the
  decoder follows. A sequential MCU comes back if and only if no DC difference of its segment
  up to it exceeds 2^15 in magnitude, the limit of `jdarith.c:550`.
- **Progressive arithmetic scans** (`ScanScript`, `PointTransform`, `ArithmeticBand*`,
  `ProgressiveScan`, `ProgressiveRun`). `validate_script` accepts exactly the valid scripts.
  Coding and decoding all scans of one leaves every coefficient with the bits of the last scan
  that covers it, and no decoder warns on the way.
- **Huffman tables** (`OptimalCode`, `HuffmanTree`, `HuffmanLengths`, `HuffmanGeneration`,
  `HuffmanTables`). The merge loop finds a code of least cost, which is legal after length
  limiting and keeps its lengths if none exceeds 16, since the pseudo-symbol has a longest code.
  Whether a code needs more than 32 bits is a function of the counts, and takes at least
  9,227,465 counted symbols. Encoding and decoding tables are inverse, and the lookahead table
  refines bit-by-bit decoding on any bits.
- **Bits** (`Segment`, `BitPacker`, `BitReader`, `HuffmanFields`). Fields packed with stuffing
  and a flush of ones are read back; the reader suspends only for lack of input, and a restart
  that is broken off comes to the same end as one that is not.
- **Sequential Huffman scans** (`BlockCoding`, `BlockScan`, `BlockEncoder`,
  `BlockStatistics`, `OptimizedTables`, `BlockDecoder`, `BlockRoundTrip`). Statistics, optimised
  tables, output with restart markers, and input cut into chunks: every MCU comes back.
- **Progressive AC refinement** (`AcRefine*`). Runs of ends of band, buffered correction bits,
  zero runs, restarts, and a decoder that suspends, undoes and repeats. The symbols of a scan
  are a function of its blocks; the statistics pass counts exactly these, and the output pass
  fails if and only if one of them has no code.
- **Context rows** (`ContextRows`, `RowGroups`). The two lists of row pointers of `jdmainct.c`,
  and that all components of an image have the same number of row groups.
- **Coefficient controllers** (`FrameGeometry`, `CoefControllers`, `FramePaths`). Three ways to
  send the same MCUs, padding included, for any image size and sampling factors. The MCUs of a
  scan visit every block once, so that every frame with an accepted script is a progressive run
  of the kind above.
- **Passes** (`PassSequence`). Statistics and output passes up to the end of the file, each run
  with the parameters of its own scan.

Two places where the code does less than its comments say:

- `jdmainct.c` announces that rows above and below each row group are the image's neighbours
  or copies of its edge rows. That holds if and only if there is one iMCU row or the last iMCU
  row holds at least as many real rows as a row group. Otherwise the postponed row group is
  shown with padding below it (`ContextRows.PaddingIsSeen` gives an image of five rows). No
  upsampler of this library asks for context rows (`jdsample.c:308` and `jdmerge.c:379` set
  `need_context_rows` to FALSE), so such an image needs another upsampler to show it.
- `jdarith.c` cannot read DC differences beyond 2^15, which `jcarith.c` writes without
  complaint. The DC coefficients 0x7FFF and -0x8000 in two MCUs one after the other are enough
  (`ArithmeticScan.TooFarApart`); coefficients of 15 bits never produce any
  (`ArithmeticScan.SmallRecoverable`).

`dfyconfig.toml` lists all files for `dafny verify`.

## Model

| member | source | states |
|---|---|---|
| ProbabilityTable.Qe | ext/libjpeg/jaricom.c:29-152 | every row of the packed table holds an estimate with 0 < Qe <= 0x5b12 |
| ProbabilityTable.NextLpsByte | ext/libjpeg/jaricom.c:29-152 | the packed next-state byte after the less probable symbol stays in the table |
| ProbabilityTable.AfterMps | ext/libjpeg/jcarith.c:247-259 | coding the more probable symbol moves to a valid state and keeps its sense |
| CodingInterval.DecodeInvertsEncode | ext/libjpeg/jcarith.c:229-310 | a code lies in the interval of a trace exactly if it lay in the starting interval and decoding it on the same bins gives the trace back |
| CodingInterval.StepChoosesDecision | ext/libjpeg/jdarith.c:156-181 | the two subintervals of a decision partition the interval, conditional exchange included |
| ArithmeticEncoder.NoCarryIntoEmptyBuffer | ext/libjpeg/jcarith.c:265-277 | no carry can occur while no byte is buffered |
| ArithmeticEncoder.CarryStep | ext/libjpeg/jcarith.c:268-283 | a carry through the buffered byte, stacked 0xFF bytes and pending zeros denotes the same number |
| ArithmeticEncoder.ByteMovedKeepsState | ext/libjpeg/jcarith.c:261-310 | moving a byte out of the register leaves the exact low end of the interval unchanged |
| ArithmeticEncoder.Encoder.Encode | ext/libjpeg/jcarith.c:219-311 | one decision: registers and bytes together denote exactly the narrowed, renormalized interval |
| ArithmeticEncoder.Encoder.Finish | ext/libjpeg/jcarith.c:133-192 | the finished segment is stuffed, never ends in a zero byte, lies in the interval, and no shorter data does |
| ArithmeticEncoder.Shortest | ext/libjpeg/jcarith.c:133-192 | termination is optimal: every code in the final interval is at least as long |
| ArithmeticEncoder.Encoder.Restart | ext/libjpeg/jcarith.c:319-353 | the segment is closed and followed by its restart marker, and the registers start over |
| ArithmeticDecoder.Decoder.NextData | ext/libjpeg/jdarith.c:117-137 | the next data byte: stuffing removed, fill bytes skipped, zeros from the first marker on |
| ArithmeticDecoder.Decoder.InsertData | ext/libjpeg/jdarith.c:138-143 | a byte enters below the code register; the start-up count ends with the second byte |
| ArithmeticDecoder.Decoder.Renorm | ext/libjpeg/jdarith.c:113-146 | renormalization keeps the exact interval although its base is cut at a floating position |
| ArithmeticDecoder.CompareRegisters | ext/libjpeg/jdarith.c:157-160 | the register comparison decides as the exact interval does |
| ArithmeticDecoder.Decoder.Decode | ext/libjpeg/jdarith.c:106-182 | on any input the decoded bit is the one whose subinterval holds the code, and the state is that of an encoder of this bit |
| ArithmeticDecoder.Decoder.Restart | ext/libjpeg/jdarith.c:190-222 | whatever has been read ahead, the registers start over on the segment that the marker behind the current one leads to, or on an empty one if that marker is left |
| ArithmeticDecoder.Decoder.ReadRestartMarker | ext/libjpeg/jdmarker.c:1159-1280 | a restart ends where Resync says, on any input |
| ArithmeticRoundTrip.CodeAndDecode | ext/libjpeg/jdarith.c:106-182 | round trip: any finite sequence of decisions on any bins is decoded exactly from the bytes written |
| Segment.UnstuffInvertsStuff | ext/libjpeg/jcarith.c:116-192 | a reader takes a stuffed segment apart into its data and stops right behind its marker |
| ArithmeticBlock.DcWithin | ext/libjpeg/jcarith.c:719-764 | bins for DC differences of up to 17 bits stay in their table of 64 |
| ArithmeticBlock.AcWithin | ext/libjpeg/jcarith.c:776-822 | bins for AC coefficients of 16 bits stay in their table of 256 |
| ArithmeticMcuEncoder.EncodeDc | ext/libjpeg/jcarith.c:719-764 | codes exactly the decisions of a DC difference and establishes the next category |
| ArithmeticMcuEncoder.EncodeAc | ext/libjpeg/jcarith.c:768-822 | codes exactly the decisions of the AC coefficients up to the last nonzero one |
| ArithmeticMcuDecoder.DecodeDc | ext/libjpeg/jdarith.c:535-572 | reads a coded difference back; gives up exactly if its magnitude exceeds 2^15 |
| ArithmeticMcuDecoder.DecodeAc | ext/libjpeg/jdarith.c:578-623 | reads all coded AC coefficients of a block back |
| ArithmeticSegments.PiecesChain | ext/libjpeg/jcarith.c:319-353 | the segments of a scan, with restart markers numbered modulo eight, are found one after the other, each coding its MCUs |
| ArithmeticSegments.SegmentEncoder.Begin | ext/libjpeg/jcarith.c:696-705 | a restart marker is written exactly before each MCU that starts a segment |
| ArithmeticSegments.SegmentEncoder.Finish | ext/libjpeg/jcarith.c:133-192 | whatever marker follows, the output is a chain of segments that code the traces of the MCUs |
| ArithmeticSegments.SegmentDecoder.Begin | ext/libjpeg/jdarith.c:513-520 | on what the encoder wrote the decoder restarts at the same MCUs; behind a restart an overflow is forgotten |
| ArithmeticScanCoder.EncodeScan | ext/libjpeg/jcarith.c:686-825 | a sequential scan with restarts is written as the traces of its MCUs |
| ArithmeticScanCoder.ScanDecoder.DecodeMcu | ext/libjpeg/jdarith.c:503-627 | an MCU is recovered with predictions and categories equal to those of the encoder, or an overflow is met, exactly if a difference is too large |
| ArithmeticScanCoder.CodeAndDecode | ext/libjpeg/jdarith.c:503-627 | round trip of sequential scans: an MCU comes back if and only if no DC difference of its segment up to it exceeds 2^15 |
| ArithmeticScanCoder.AllVisible | ext/libjpeg/jdarith.c:503-627 | with 64 coefficients in the scan nothing of an MCU is lost |
| ArithmeticScan.TooFarApart | ext/libjpeg/jdarith.c:547-556 | two MCUs with DC coefficients 0x7FFF and -0x8000: the first comes back, the second does not |
| ArithmeticScan.SmallRecoverable | ext/libjpeg/jcarith.c:686-825 | DC coefficients of 15 bits never overflow |
| ScanScript.Validator.ValidateScript | ext/libjpeg/jcmaster.c:358-482 | a script is accepted if and only if it is valid, and the error names the first bad scan; the table then holds what was sent |
| ScanScript.BitsAreLastSent | ext/libjpeg/jcmaster.c:442-458 | the table of bit positions records the last scan that covered each coefficient, -1 if there is none |
| ScanScript.FirstOrRefinement | ext/libjpeg/jcmaster.c:442-458 | an accepted scan sends each of its coefficients for the first time, or refines all of them by one bit |
| ScanScript.StartPass | ext/libjpeg/jdarith.c:641-679 | a decoder refuses exactly the illegal scans, and warns exactly if a scan is not the one expected |
| ScanScript.AcceptedScansAreExpected | ext/libjpeg/jdarith.c:641-679 | a decoder never refuses a scan of an accepted script and never warns about it |
| PointTransform.NextDcBit | ext/libjpeg/jdarith.c:398-423 | one more bit of a two's-complement DC value |
| ArithmeticBandDecoder.OneBitMore | ext/libjpeg/jdarith.c:467-484 | how a coefficient shows before and after its next bit: zero, newly nonzero, or corrected |
| ArithmeticBandDecoder.LastsAgree | ext/libjpeg/jcarith.c:618-644 | encoder and decoder compute the previous end of block from different values but rule out the same end-of-block decisions |
| ArithmeticBand.EncodeBandFirst | ext/libjpeg/jcarith.c:453-547 | codes exactly the decisions of a first scan of a band |
| ArithmeticBand.EncodeBandRefine | ext/libjpeg/jcarith.c:590-677 | codes exactly the decisions of a refinement of a band |
| ArithmeticBandDecoder.DecodeBandFirst | ext/libjpeg/jdarith.c:321-390 | brings a blank band of a block to the precision of the scan |
| ArithmeticBandDecoder.DecodeBandRefine | ext/libjpeg/jdarith.c:431-495 | brings a band from one bit of precision to the next, in place |
| ArithmeticScanCoder.ScanEncoder.EncodeMcuDcFirst | ext/libjpeg/jcarith.c:362-444 | codes the shifted DC coefficients of an MCU |
| ArithmeticScanCoder.ScanDecoder.DecodeMcuDcFirst | ext/libjpeg/jdarith.c:242-313 | writes exactly the DC coefficients at the precision of the scan, or reports an overflow |
| ProgressiveScan.DecodeDcRefine | ext/libjpeg/jdarith.c:398-423 | adds exactly the coded bit to each DC coefficient and changes nothing else |
| ProgressiveScan.EncodeProgressive | ext/libjpeg/jcarith.c:834-909 | each kind of scan is written as the traces of its MCUs |
| ProgressiveScan.BitImproves | ext/libjpeg/jdarith.c:398-423 | a refined DC coefficient is at the new precision if it was at the old one |
| ProgressiveRun.CodeAndDecode | ext/libjpeg/jcmaster.c:358-482 | successive approximation over a whole script: no error, no warning, and success if and only if all DC differences of first scans can be read; then every block is at the precision of the last scans |
| ProgressiveRun.DecodedValue | ext/libjpeg/jdarith.c:242-495 | every coefficient ends as the bits completed by the last scan that covers it, 0 if there is none |
| ProgressiveRun.CompleteIsExact | ext/libjpeg/jcmaster.c:442-458 | a component whose coefficients are all sent down to bit 0 comes back exactly |
| ProgressiveRun.SmallRunFits | ext/libjpeg/jcarith.c:362-444 | with DC coefficients of 15 bits the whole run succeeds |
| HuffmanTree.FindLeast | ext/libjpeg/jchuff.c:1282-1302 | finds the least nonzero count, the larger symbol in case of ties |
| HuffmanTree.ForestJoin | ext/libjpeg/jchuff.c:1308-1326 | merging keeps a complete code on every branch chained through others[] |
| HuffmanTree.BuildTree | ext/libjpeg/jchuff.c:1270-1327 | the merge loop ends with a complete code of the merging cost, in which no code is longer than that of the pseudo-symbol; long codewords need Fibonacci-many counts |
| HuffmanTree.LeadsJoin | ext/libjpeg/jchuff.c:1270-1276 | merging keeps the pseudo-symbol deepest in its tree, and every tree as deep behind that tree in the order of the search |
| OptimalCode.MergeCostIsLeast | ext/libjpeg/jchuff.c:1276-1327 | no code that satisfies the Kraft inequality costs less than merging |
| OptimalCode.NoPrefixCodeIsCheaper | ext/libjpeg/jchuff.c:1276-1327 | no prefix-free assignment of words costs less than merging |
| HuffmanLengths.CountLengths | ext/libjpeg/jchuff.c:1329-1339 | lengths are counted, or the error is reported exactly if one exceeds 32 |
| HuffmanLengths.ShorterWordExists | ext/libjpeg/jchuff.c:1353-1358 | the search for a shorter codeword succeeds, and long codewords come in pairs |
| HuffmanLengths.AdjustKeepsCode | ext/libjpeg/jchuff.c:1358-1361 | an adjustment keeps the number of symbols and the Kraft sum |
| HuffmanLengths.LimitLengths | ext/libjpeg/jchuff.c:1352-1363 | limiting terminates with all lengths at most 16, same symbols, Kraft sum 1, and changes nothing if none is longer |
| HuffmanGeneration.RemovePseudo | ext/libjpeg/jchuff.c:1365-1368 | a longest codeword is given up, which leaves room below the all-ones code |
| HuffmanGeneration.TableIsLegal | ext/libjpeg/jchuff.c:1370-1386 | the finished lists make a legal table with each used symbol once |
| HuffmanGeneration.GenOptimalTable | ext/libjpeg/jchuff.c:1256-1389 | cost minimal over all codes; error if and only if a length exceeds 32, which is a function of the counts and never happens below 9,227,465 symbols; legal table of exactly the counted symbols, with these lengths if none exceeds 16 |
| HuffmanGeneration.LengthIsSize | ext/libjpeg/jchuff.c:1365-1383 | with the pseudo-symbol given up, each listed symbol gets a code of its own size |
| HuffmanGeneration.ListedSorted | ext/libjpeg/jchuff.c:1370-1383 | symbols are listed by increasing code size |
| HuffmanGeneration.ManySymbols | ext/libjpeg/jchuff.c:1334-1335 | the count below which the length error cannot occur |
| HuffmanTables.CodesArePrefixFree | ext/libjpeg/jchuff.c:203-221 | no canonical code is a prefix of another |
| HuffmanTables.MakeCDerivedTbl | ext/libjpeg/jchuff.c:161-246 | accepts exactly the legal tables and encodes every symbol by its canonical code |
| HuffmanTables.MakeDDerivedTbl | ext/libjpeg/jdhuff.c:323-439 | accepts exactly the tables with legal counts; all decoding and lookahead entries are right |
| HuffmanTables.DecodeInvertsCode | ext/libjpeg/jdhuff.c:592-627 | a code followed by any bits decodes to its symbol and takes up its length |
| HuffmanTables.LookaheadRefines | ext/libjpeg/jdhuff.c:168-188 | on any bits, garbage included, lookahead decoding gives the symbol and length of bit-serial decoding |
| BitPacker.BitWriter.EmitBits | ext/libjpeg/jchuff.c:346-383 | appends one field; a field of no bits is refused |
| BitPacker.BitWriter.Flush | ext/libjpeg/jchuff.c:386-404 | the stuffed output carries exactly the fields emitted, filled up with at most seven bits |
| BitReader.Reader.Fill | ext/libjpeg/jdhuff.c:465-562 | loads without losing bits, pads behind a marker, and suspends without a trace only if bytes are missing |
| BitReader.Reader.NextMarker | ext/libjpeg/jdmarker.c:911-954 | finds the next marker, or suspends with the bytes passed thrown away but the marker still ahead |
| BitReader.Reader.ResyncToRestart | ext/libjpeg/jdmarker.c:1238-1280 | takes, skips or leaves markers until the decision is made; a suspension does not change where it ends |
| BitReader.Reader.ReadRestartMarker | ext/libjpeg/jdmarker.c:1159-1185 | swallows the expected marker or resynchronizes, however often it was broken off |
| BitReader.Reader.ProcessRestart | ext/libjpeg/jdhuff.c:636-668 | the next segment is read from an empty bit buffer; the out-of-data flag stays only if it was set and a marker blocks the way |
| RestartMarkers.ExpectedMarker | ext/libjpeg/jdmarker.c:1167-1171 | the expected marker is swallowed, whatever the recovery rules say |
| RestartMarkers.NextPiece | ext/libjpeg/jdmarker.c:1159-1185 | behind each segment of a coded scan a decoder finds the next one |
| RestartSegments.PieceRead | ext/libjpeg/jchuff.c:489-540 | a reader at the start of a segment gets its data and the marker behind it |
| RestartSegments.PieceIsSegment | ext/libjpeg/jchuff.c:1056-1063 | the countdown cuts a scan exactly at the multiples of the restart interval |
| BitReader.Reader.ReadBits | ext/libjpeg/jdhuff.c:135-148 | reads exactly the next bits of the data |
| BitReader.Reader.HuffDecode | ext/libjpeg/jdhuff.c:168-188 | decodes the symbol at the position, by lookahead or bit by bit, with suspension |
| BlockCoding.ExtendInverts | ext/libjpeg/jdhuff.c:573-584 | sign extension inverts the extra bits of a coefficient |
| BlockCoding.BlockInverts | ext/libjpeg/jdhuff.c:1187-1302 | decoding the fields of a block gives the block back and ends right behind them |
| BlockCoding.DecodeBlockTwice | ext/libjpeg/jdhuff.c:1187-1302 | decoding again into a partly decoded block gives the same block |
| BlockScan.SpanInverts | ext/libjpeg/jdhuff.c:1187-1302 | all MCUs of a segment come back, with all predictions |
| BlockRoundTrip.ScanInverts | ext/libjpeg/jdhuff.c:1187-1302 | all MCUs of a scan with restarts come back, each from the segment that codes it |
| BlockScan.McuTwice | ext/libjpeg/jdhuff.c:1187-1302 | an MCU broken off by suspension may be decoded again over what is already there |
| BlockEncoder.SequentialEncoder.EncodeOneBlock | ext/libjpeg/jchuff.c:916-1008 | writes exactly the tokens of a block; fails exactly if one has no code or a coefficient is out of range |
| BlockEncoder.SequentialEncoder.EmitRestart | ext/libjpeg/jchuff.c:490-507 | the segment is closed with all its tokens, its marker written, and predictions start over |
| BlockEncoder.SequentialEncoder.EncodeMcu | ext/libjpeg/jchuff.c:1016-1066 | writes the restart marker that is due and the blocks of an MCU; fails exactly if a block cannot be coded with the predictions of its segment |
| BlockEncoder.SequentialEncoder.Finish | ext/libjpeg/jchuff.c:1073-1105 | the output is the segments of the scan, which carry all its tokens |
| BlockStatistics.HtestOneBlock | ext/libjpeg/jchuff.c:1122-1190 | counts exactly the tokens that the output pass emits for a block |
| BlockStatistics.TallyCounts | ext/libjpeg/jchuff.c:1122-1190 | the counts are the multiset of symbols |
| BlockStatistics.StatisticsGatherer.GatherMcu | ext/libjpeg/jchuff.c:1197-1225 | counts the tokens of the scan so far, with predictions reset at restarts; fails exactly if a coefficient is out of range |
| BlockDecoder.SequentialDecoder.DecodeBlocks | ext/libjpeg/jdhuff.c:1187-1302 | decodes an MCU of a segment in place or suspends with the state restored, only for lack of input |
| BlockDecoder.SequentialDecoder.ProcessRestart | ext/libjpeg/jdhuff.c:636-668 | goes on where the restart marker leads with all predictions zero, or suspends and loses nothing |
| BlockDecoder.SequentialDecoder.DecodeMcu | ext/libjpeg/jdhuff.c:1187-1302 | on any input and with any restarts, decodes the MCU that decoding without suspensions gives, or suspends before its segment has arrived |
| BlockRoundTrip.DecodeScan | ext/libjpeg/jdhuff.c:1187-1302 | the cutting of the input into chunks has no influence on any MCU of a scan, well formed or not |
| OptimizedTables.OptimizeTable | ext/libjpeg/jchuff.c:1397-1436 | the table generated from the counts has a code for every symbol counted, unless a code would need more than 32 bits |
| BlockRoundTrip.TwoPass | ext/libjpeg/jchuff.c:1397-1436 | after optimisation the output pass never meets a symbol without a code; it fails exactly for a coefficient out of range or counts that need a code of more than 32 bits |
| BlockRoundTrip.CodeAndDecode | ext/libjpeg/jdhuff.c:1187-1302 | round trip of two-pass coding with restarts, however the input is cut into chunks; failures exactly for coefficients out of range or codes beyond 32 bits |
| AcRefinement.CorrectTwice | ext/libjpeg/jdhuff.c:984-993 | applying a correction bit again changes nothing |
| AcRefinement.StepTwice | ext/libjpeg/jdhuff.c:904-1050 | a refinement that was broken off may be repeated on the half-changed block |
| AcRefineDecoder.Undo | ext/libjpeg/jdhuff.c:1044-1047 | undoing new coefficients leaves a block that differs from the original only by corrections |
| AcRefineDecoder.RefineDecoder.DecodeBlock | ext/libjpeg/jdhuff.c:904-1050 | refines a block of a segment as without suspension, or suspends with new coefficients undone |
| AcRefineDecoder.RefineDecoder.ProcessRestart | ext/libjpeg/jdhuff.c:636-668 | goes on where the restart marker leads without a run of ends of band, or suspends and loses nothing |
| AcRefineDecoder.RefineDecoder.DecodeMcu | ext/libjpeg/jdhuff.c:904-1050 | on any input and with any restarts, refines a block as without suspension, or suspends before its segment has arrived |
| AcRefineDecoder.RefineDecoder.DecodeScan | ext/libjpeg/jdhuff.c:904-1050 | however the input arrives, all blocks of a scan with restarts are refined as with all input available |
| AcRefineSymbols.PrePass | ext/libjpeg/jchuff.c:814-831 | absolute values after the point transform and the last newly nonzero coefficient |
| AcRefineSymbols.SymbolsUntilEob | ext/libjpeg/jchuff.c:834-883 | codes are written exactly up to the last newly nonzero coefficient; the rest of the band is left to an end of band |
| AcRefineSymbols.ScanHasSymbols | ext/libjpeg/jchuff.c:885-894 | no block goes without a trace: it has a code of its own or counts in a run |
| AcRefineRuns.RunRead | ext/libjpeg/jchuff.c:459-482 | a run of ends of band is read back from its symbol and bits |
| AcRefineRuns.WriteRun | ext/libjpeg/jchuff.c:459-482 | writing the pending run with its correction bits keeps the promise about all blocks coded |
| AcRefineEncoder.RefineEncoder.EmitEobrun | ext/libjpeg/jchuff.c:459-482 | writes the run and exactly the buffered bits, and empties both; fails exactly if the run has no code |
| AcRefineEncoder.RefineEncoder.EncodeBlock | ext/libjpeg/jchuff.c:786-894 | writes exactly the symbols of the block, forced runs included; fails exactly if one has no code; between blocks the run is below 0x7FFF and at most 937 bits wait |
| AcRefineEncoder.RefineEncoder.EmitRestart | ext/libjpeg/jchuff.c:511-540 | the pending run is written, the segment closed so that it decodes to all its blocks, and its marker written |
| AcRefineEncoder.RefineEncoder.EncodeMcu | ext/libjpeg/jchuff.c:786-910 | one more block of a scan with restarts; fails exactly if one of the symbols so far has no code |
| AcRefineEncoder.RefineEncoder.Finish | ext/libjpeg/jchuff.c:1073-1105 | the segments of the finished scan decode to all blocks; it fails exactly if a symbol of the scan has no code |
| AcRefineStatistics.RefineGatherer.GatherMcu | ext/libjpeg/jchuff.c:786-910 | the statistics pass goes through the same runs and codes as the output pass |
| AcRefineStatistics.RefineGatherer.Finish | ext/libjpeg/jchuff.c:1397-1410 | the counts are those of exactly the symbols that the output pass writes |
| AcRefineRoundTrip.EncodeScan | ext/libjpeg/jchuff.c:786-910 | a scan is coded if and only if each of its symbols has a code |
| AcRefineRoundTrip.ReadyAt | ext/libjpeg/jdhuff.c:904-1050 | each block is decoded in the segment that codes it, with the run of ends of band that belongs there |
| AcRefineRoundTrip.CodeAndDecode | ext/libjpeg/jdhuff.c:904-1050 | round trip of refinement scans with a given table, across runs, zero runs, buffered bits, restarts and suspensions; fails exactly if the table is not legal or lacks a symbol of the scan |
| AcRefineRoundTrip.TwoPass | ext/libjpeg/jchuff.c:1397-1436 | round trip with the table generated from the statistics pass: the output pass never meets a symbol without a code, and failure is exactly a code of more than 32 bits |
| AcRefineRoundTrip.SharpenedIsNarrow | ext/libjpeg/jdhuff.c:978-1000 | 16-bit coefficients stay 16-bit coefficients at every precision |
| ContextRows.MainController.MakeFunnyPointers | ext/libjpeg/jdmainct.c:195-234 | sets up the two lists of row pointers |
| ContextRows.MainController.SetWraparoundPointers | ext/libjpeg/jdmainct.c:238-262 | the wraparound entries of both lists |
| ContextRows.MainController.SetBottomPointers | ext/libjpeg/jdmainct.c:266-299 | the last row is duplicated below the image |
| ContextRows.MainController.ProcessData | ext/libjpeg/jdmainct.c:385-447 | keeps the order of row groups and their context for any progress of input and output, and makes progress if they do |
| ContextRows.ShowImage | ext/libjpeg/jdmainct.c:385-447 | every real row group is presented exactly once, in order, with the rows that Presented says |
| ContextRows.NearestRowsAreTrue | ext/libjpeg/jdmainct.c:53-60 | the rows next to a row group and its own real rows are always the true ones |
| RowGroups.GroupsOfImage | ext/libjpeg/jdmaster.c:139-150 | rounding up twice comes to the iMCU rows and row groups of the image, whatever the component |
| RowGroups.SameGroups | ext/libjpeg/jdmainct.c:285-290 | the number of row groups left is the same for each component |
| ContextRows.ContextIsTrueIff | ext/libjpeg/jdmainct.c:266-299 | all contexts are the true neighbouring rows if and only if there is one iMCU row or the last one holds at least a row group's rows |
| ContextRows.PaddingIsSeen | ext/libjpeg/jdmainct.c:421-434 | a five-row image in which a group is shown with padding below it |
| FrameGeometry.BlocksMakeMcus | ext/libjpeg/jcmaster.c:326-332 | the blocks of a component, grouped by its sampling factor, are as many MCUs as the image has |
| FrameGeometry.SetupFits | ext/libjpeg/jcmaster.c:572-643 | rows and columns of a component end in the last MCU where per_scan_setup says |
| FrameGeometry.RowIsReal | ext/libjpeg/jccoefct.c:179-180 | the test on the last iMCU row finds exactly the real rows |
| FrameGeometry.ColumnIsReal | ext/libjpeg/jccoefct.c:173-174 | the block count of the last column finds exactly the real columns |
| FrameGeometry.PaddingRepeats | ext/libjpeg/jccoefct.c:185-200 | every block of padding repeats the DC coefficient of the block before it in the MCU |
| CoefControllers.CoefController.StartIMcuRow | ext/libjpeg/jccoefct.c:73-94 | MCU rows of the current iMCU row |
| CoefControllers.CoefController.RowByDct | ext/libjpeg/jccoefct.c:173-203 | a row of an MCU from the DCT, padded |
| CoefControllers.CoefController.FillComponent | ext/libjpeg/jccoefct.c:261-325 | the strip of a component in the padded array |
| CoefControllers.CoefController.RowFromWhole | ext/libjpeg/jccoefct.c:373-384 | a row of an MCU from the padded array |
| CoefControllers.CoefController.RowFromArray | ext/libjpeg/jctrans.c:302-328 | a row of an MCU from an unpadded array, with dummy blocks whose AC entries stay zero |
| CoefControllers.CoefController.SendMcus | ext/libjpeg/jccoefct.c:155-222 | the counters always name the next MCU of the scan; a call stops only at the end of the iMCU row or for lack of room |
| CoefControllers.SinglePass | ext/libjpeg/jccoefct.c:144-222 | the single-pass controller sends the whole scan as soon as there is room for it |
| CoefControllers.MultiPass | ext/libjpeg/jccoefct.c:249-400 | the first pass and every later pass send their whole scans |
| CoefControllers.Transcoding | ext/libjpeg/jctrans.c:272-345 | the transcoder sends the whole scan |
| CoefControllers.ThreeWays | ext/libjpeg/jccoefct.c:144-400 | the three controllers send the same MCUs, dummy blocks included, under any suspensions |
| FramePaths.RealIsVisited | ext/libjpeg/jcmaster.c:572-643 | every real block of a component of a scan is in one of the MCUs counted |
| FramePaths.OneMcu | ext/libjpeg/jcmaster.c:572-643 | no block is in two MCUs of a scan |
| FramePaths.FrameRunIsValid | ext/libjpeg/jcmaster.c:572-643 | any frame and any script accepted for it make a progressive run as ProgressiveRun needs it |
| FramePaths.ControllersSendThem | ext/libjpeg/jccoefct.c:346-400 | the MCUs that the controllers send are the blocks on the path of the scan |
| PassSequence.CompMaster.PrepareForPass | ext/libjpeg/jcmaster.c:665-744 | skips needless statistics passes, runs each pass with the parameters of its own scan, and marks the last pass exactly on the output of the last scan |
| PassSequence.CompMaster.FinishPass | ext/libjpeg/jcmaster.c:767-799 | advances to the next pass; fewer passes remain |
| PassSequence.CompMaster.Compress | ext/libjpeg/jcapimin.c:155-183 | the finishing loop terminates and outputs every scan in order |
| PassSequence.EachScanOnce | ext/libjpeg/jcmaster.c:665-799 | every scan is output exactly once, right behind its header |

## Left out

- AcRefineRoundTrip.CodeAndDecode: coefficients are integers of any size, and the cast to 16 bits is not applied; on 16-bit blocks it would change nothing (`AcRefineRoundTrip.SharpenedIsNarrow`).
- ArithmeticScanCoder.CodeAndDecode: blocks in which an overflow is met, and those after it up to the next restart, are reported but their contents are not described.
- ArithmeticSegments.SegmentDecoder.Begin: states what happens on an input with the restart markers where the encoder put them; what other markers lead to is the contract of `ArithmeticDecoder.Decoder.Restart`.
- ProgressiveRun.CodeAndDecode: the run stops at the first scan in which an overflow is met; what later scans make of it is not described.
- BitPacker.BitWriter.EmitBits: the output buffer never fills up (`dump_buffer_s`).
- BlockEncoder.SequentialEncoder.EncodeMcu: the output never suspends, so no MCU is begun twice.
- ContextRows.ShowImage: rows of one component; all components use the same lists with their own group heights, and the same number of row groups (`RowGroups.SameGroups`).
- ContextRows.MainController.SetBottomPointers: one component, for the same reason.
- CoefControllers.ThreeWays: the DCT of a row of blocks is an arbitrary function of component and sample position; downsampling and the preprocessor are not modelled.
- HuffmanGeneration.GenOptimalTable: at least one symbol is counted, the counts add up to at most 10^9, and at most 254 symbols occur; outside of that the search sentinel and the byte counters of the original are not modelled.
- The other scans of progressive Huffman mode (`encode_mcu_DC_first`, `encode_mcu_AC_first`, `encode_mcu_DC_refine` and their decoders): same codes, runs and restarts as the ones modelled, without corrections.
- Reduced-size decoding (`decode_mcu_sub`), and restart recovery by a source manager of its own.
- Resetting only the statistics areas and predictions that a scan uses: all are reset here, and the scan does not look at the others.
- Reduced block sizes in scripts (`reduce_script`), DCT scaling, dimension limits and the 32-bit width of counters.
- Decompression's own coefficient controllers, upsampling, colour conversion, quantization and dithering.
- Markers other than RSTn, memory management, virtual arrays, and the Inviwo application around the library.
