# Compression in the CD test bench, verified

The test bench of the CD core carries the programs that unpack disk images: LZMA, DEFLATE with its zip directory, and
the CHD container with its Huffman codes, its map and the error correction of CD sectors. This project models their
hard parts in Dafny and proves that the two ends of each fit together, that fast tables agree with what they stand
for, and that buffers edited in place hold what they should.

- **LZMA.** The range encoder propagates carries through pending bytes and is exact; the decoder normalises lazily.
  One symbol is an automaton over bits (LzmaSyntax), which every routine of both sides follows. The encoder object
  (LzmaEncoder) writes the encoding of any valid parse. The decoder object (LzmaDecoder) works on a circular
  dictionary, looks ahead without adapting, keeps input that is short of a symbol for the next call, and refines a
  reference that decodes all at once (LzmaStream, LzmaPieces). LzmaRoundTrip and LzmaWhole put the two together. What
  both ends must agree on with other coders is stated by itself: how probabilities adapt (Adaptation), which bits
  spell a packet, which of them share a probability, and what a state stands for (LzmaFormat). LzmaBackward turns the
  parser's cells into the list of packets in place.
- **Match finder.** Binary search trees over suffixes, threaded through a cyclic array and cut off by age. SuffixTrees
  has the trees as values, CyclicTrees the walk in the array, MatchForest the whole state and its invariant,
  MatchNormalize the renumbering of positions, MatchWindow the buffer that slides along the stream, and MatchFinder
  the object on it. MatchLongest shows that nothing is missed as long as cutValue does not stop the search; MatchShort
  and MatchFront say which pairs are reported, the short ones and the others.
- **DEFLATE.** From counts to code sizes: radix sort, the in-place minimum-redundancy pass with its Fibonacci bound,
  and the limit on lengths (DeflateSort, DeflateJoins, DeflateRedundancy, DeflateLimit, DeflateOptimize). That no code
  is shorter in total than that of the minimum-redundancy pass is shown by an exchange argument (CodeCosts,
  DeflateJoinCosts), how ties fall by finer weights (DeflateTies), and both are carried over to the alphabet
  (DeflateBest). Canonical codes and the two rules that determine them (CodeOrder, DeflateCanonical), the inflater's
  lookup table with its overflow tree, packed code sizes, and a message through both ends (DeflateCodes, DeflateTrie,
  DeflateTable, DeflateLengths, DeflateWhole). The sorted index of a zip directory and its binary search (ZipIndex).
- **CHD.** The bit reader, Huffman codes with a flat table, the compressed map of version 5, hunks that refer to other
  hunks or to parts of a parent (BitStream, ChdHuffman, ChdCanonical, ChdMap, ChdHunks), and a writer's side of the
  map, which is read back (ChdMapWriter). The Reed-Solomon product code of a sector, and which bytes it covers (CdEcc,
  CdSector, CdPlaces; ECMA-130, Annex A).
- **Small ones in place.** Heap sort with a shortcut on the first level and a special end (HeapSort), and the delta
  filter (Delta).

Methods follow the source's loops and fields and are proved against functions on values; the main results are lemmas
about those functions. Where the source works on words, wrap-around and truncation are written out. `dafny verify
dfyconfig.toml` checks everything.

Two things in the source are narrower than they look. The check of CHD code lengths leaves length 1 out, so it accepts
lengths that over-fill the code space (ChdHuffman.AcceptedAndOverFull; FitsIsKraft says exactly which). The number of
units in a hunk is kept in one byte, so references into a parent go wrong exactly when there are 256 or more
(ChdHunks.UnitsFit).

## Model

| member | source | states |
|---|---|---|
| RangeEncoder.RangeEnc.ShiftLow | rtl/tb/mister_main/lib/lzma/LzmaEnc.c:588-618 | with the carry resolved into the cached byte and the pending run of 255s, the exact number written so far is 256 times what it was; the cached byte never gets a carry it cannot hold |
| RangeEncoder.RangeEnc.EncodeBit | rtl/tb/mister_main/lib/lzma/LzmaEnc.c:629-664 | coding a bit narrows the exact interval as the interval arithmetic does, and returns the adapted probability |
| RangeEncoder.RangeEnc.EncodeDirect | rtl/tb/mister_main/lib/lzma/LzmaEnc.c:2472-2479 | a direct bit takes one half of the interval |
| RangeEncoder.RangeEnc.FlushData | rtl/tb/mister_main/lib/lzma/LzmaEnc.c:620-625 | the flushed bytes are the base-256 digits of the exact low end of the interval, one byte for each shift and five more, and the first byte is 0 |
| RangeEncoder.BranchFreeIsBranching | rtl/tb/mister_main/lib/lzma/LzmaEnc.c:637-664 | the branch-free update with masks and an arithmetic shift gives the same range, low end and probability as the branching one |
| RangeEncoder.CodeBitNormal | rtl/tb/mister_main/lib/lzma/LzmaEnc.c:627-645 | coding under any reachable probability leaves a normalised interval |
| BitModel.SplitBounds | rtl/tb/mister_main/lib/lzma/LzmaDec.c:22-24 | for every reachable probability (31 to 2017) both parts of a normalised range keep at least 2^16, so one shift normalises them |
| Adaptation.TowardsTheBit | rtl/tb/mister_main/lib/lzma/LzmaDec.c:22-24 | a zero raises the probability of a zero until 2017 and a one lowers it until 31, where they stay |
| Adaptation.AThirtySecond | rtl/tb/mister_main/lib/lzma/LzmaEnc.c:637-664 | each step is a thirty-second of what is left to that end of the scale, rounded down |
| Adaptation.NoSmallerPart | rtl/tb/mister_main/lib/lzma/LzmaEnc.c:637-664 | so the bit just coded gets no smaller a part of the same range the next time |
| Adaptation.FreshIsEven | rtl/tb/mister_main/lib/lzma/LzmaDec.c:22-24 | a fresh probability divides the range evenly |
| Adaptation.Ends | rtl/tb/mister_main/lib/lzma/LzmaDec.c:22-24 | from any probability, repeated zeros go up by at least one each until 2017, and repeated ones down until 31 |
| Adaptation.EndsReached | rtl/tb/mister_main/lib/lzma/LzmaDec.c:22-24 | from a fresh probability zeros do reach 2017 and ones 31 |
| Adaptation.ReachedIsProb | rtl/tb/mister_main/lib/lzma/LzmaDec.c:22-24 | the probabilities that adaptation reaches are just those from 31 to 2017 |
| RangeEncoder.ZeroBelowOne | rtl/tb/mister_main/lib/lzma/LzmaEnc.c:629-664 | a zero has the lower part of the interval and a one the rest, with nothing lost between; the share of the zero is its probability of 2048 parts, rounded down |
| RangeEncoder.HalvesEqual | rtl/tb/mister_main/lib/lzma/LzmaEnc.c:2472-2479 | a direct bit has one of two parts of equal size, the upper one behind the lower |
| RangeDecoder.BitIsReadBack | rtl/tb/mister_main/lib/lzma/LzmaDec.c:20-26 | any number in the interval of a coded bit is decoded as that bit, and leads to the registers of the narrowed interval |
| RangeDecoder.DirectIsReadBack | rtl/tb/mister_main/lib/lzma/LzmaDec.c:463-510 | the same for direct bits |
| LzmaSyntax.StepOk | rtl/tb/mister_main/lib/lzma/LzmaDec.c:239-512 | every bit leads the automaton of one symbol on to a state of smaller rank, so a symbol ends |
| LzmaSyntax.IdxBound | rtl/tb/mister_main/lib/lzma/LzmaDec.c:133-158 | every probability that a symbol consults lies in the decoder's table, in the block of the literal coder at the latest |
| LzmaSyntax.ReadOnce | rtl/tb/mister_main/lib/lzma/LzmaDec.c:660-850 | within one symbol no probability is consulted twice, which is why looking ahead may leave them as they are |
| LzmaState.TablesAreArithmetic | rtl/tb/mister_main/lib/lzma/LzmaEnc.c:522-525 | the encoder's tables of next states agree with the decoder's arithmetic on states |
| LzmaState.OffsetIsIndex | rtl/tb/mister_main/lib/lzma/LzmaEnc.c:1114-1115 | the encoder's masked and shifted offset of the literal coder is 768 times the number of the coder chosen by position and previous byte |
| LzmaState.ApplyOk | rtl/tb/mister_main/lib/lzma/LzmaDec.c:514-566 | every accepted packet keeps the state below 12 and all four recent distances within the history and the dictionary, and adds to the history |
| LzmaState.CopyBytes | rtl/tb/mister_main/lib/lzma/LzmaDec.c:536-563 | every byte of an overlapping copy equals the byte `dist` before it in the result |
| LzmaPositions.OffsetOfContext | rtl/tb/mister_main/lib/lzma/LzmaDec.c:256-262 | with a 32-bit position the decoder still finds the literal coder of the unbounded position |
| LzmaPositions.IndexOfContext | rtl/tb/mister_main/lib/lzma/LzmaDec.c:688-695 | so does the look-ahead, which computes it with another formula |
| LzmaLayout.LayoutRoundTrip | rtl/tb/mister_main/lib/lzma/LzmaEnc.c:271-291 | the decoder's flat probability table and the encoder's structure correspond one to one on every index in use, though some trees are laid out in mirrored or transposed order |
| LzmaPackets.SlotBounds | rtl/tb/mister_main/lib/lzma/LzmaEnc.c:2429-2459 | slots are below 64; just the distances below 4 have no footer, and just those below 128 a footer without direct bits |
| LzmaFormat.PacketBits | rtl/tb/mister_main/lib/lzma/LzmaEnc.c:2330-2499 | whatever the context, the bits that are written for a packet are those of the format: which kind, the literal or the length in its range, the slot, and the footer with its lowest four bits last and reversed |
| LzmaFormat.SameProbability | rtl/tb/mister_main/lib/lzma/LzmaDec.c:133-158 | two bits, of any symbols in any contexts, use the same probability if and only if they are the same bit of the same kind of choice and agree in what that kind depends on: state, position, length, slot, and the bits before |
| LzmaFormat.SamePosState | rtl/tb/mister_main/lib/lzma/LzmaDec.c:239-244 | the position counts as far as its pb lowest bits go |
| LzmaFormat.SameCoder | rtl/tb/mister_main/lib/lzma/LzmaEnc.c:1114-1115 | literals share a coder if and only if their positions agree in the lp lowest bits and the bytes before them in the lc highest ones |
| LzmaFormat.MatchByteIs | rtl/tb/mister_main/lib/lzma/LzmaDec.c:264-270 | a literal after a match is compared with the byte that a short repetition would bring |
| LzmaFormat.RepsMove | rtl/tb/mister_main/lib/lzma/LzmaDec.c:340-395 | a repetition moves its distance to the front and the others keep their order; a match puts a new one before them |
| LzmaFormat.StateTells | rtl/tb/mister_main/lib/lzma/LzmaEnc.c:522-525 | in every parse the state says what came last: which packet that was not a literal, if at most two literals have come since, and whether it stood after a literal |
| LzmaPosSlot.FastPosInit | rtl/tb/mister_main/lib/lzma/LzmaEnc.c:123-143 | the table that is filled in runs of doubling length holds the slot of each of its indices |
| LzmaPosSlot.GetPosSlot | rtl/tb/mister_main/lib/lzma/LzmaEnc.c:152-162 | one look-up, of the distance itself or of its upper bits, gives the slot of every distance the dictionary allows |
| LzmaSpelling.PacketFollows | rtl/tb/mister_main/lib/lzma/LzmaEnc.c:2330-2499 | the operations the encoder performs for a packet lead the decoder's automaton to just that packet |
| LzmaWriter.FollowedIsRead | rtl/tb/mister_main/lib/lzma/LzmaDec.c:239-568 | from any number in the final interval, the decoder reads the packet whose operations were coded, and both sides keep corresponding probabilities |
| LzmaCoding.PacketOpsOk | rtl/tb/mister_main/lib/lzma/LzmaEnc.c:2330-2499 | every operation of an accepted packet uses a probability that exists |
| LzmaCoding.EncodesOnce | rtl/tb/mister_main/lib/lzma/LzmaEnc.c:2278-2499 | a parse has one encoding |
| LzmaEncoder.LzmaEnc.LitEncode | rtl/tb/mister_main/lib/lzma/LzmaEnc.c:692-707 | performs the operations of a literal in order |
| LzmaEncoder.LzmaEnc.LitEncodeMatched | rtl/tb/mister_main/lib/lzma/LzmaEnc.c:709-729 | performs those of a literal after a match, with the offset mask that ends at the first difference |
| LzmaEncoder.LzmaEnc.ReverseEncode | rtl/tb/mister_main/lib/lzma/LzmaEnc.c:803-816 | performs those of a reverse tree |
| LzmaEncoder.LzmaEnc.LenEncode | rtl/tb/mister_main/lib/lzma/LzmaEnc.c:831-862 | performs those of a length in its low, middle or high tree |
| LzmaEncoder.LzmaEnc.DirectEncode | rtl/tb/mister_main/lib/lzma/LzmaEnc.c:2472-2479 | the direct bits taken from the top of a 32-bit word, which stop at its end pattern and nowhere before |
| LzmaEncoder.LzmaEnc.PutWhich | rtl/tb/mister_main/lib/lzma/LzmaEnc.c:2347-2405 | codes which recent distance is meant and moves it to the front |
| LzmaEncoder.LzmaEnc.PutFooter | rtl/tb/mister_main/lib/lzma/LzmaEnc.c:2452-2492 | performs those of the footer of a distance, for short and long distances |
| LzmaEncoder.LzmaEnc.WriteEndMarker | rtl/tb/mister_main/lib/lzma/LzmaEnc.c:1995-2054 | the marker written as ones throughout is a match of length 2 at distance 2^32 - 1 |
| LzmaEncoder.LzmaEnc.CodeOne | rtl/tb/mister_main/lib/lzma/LzmaEnc.c:2296-2499 | one round codes the packet in the context of the history and brings state, distances and position to where the packet leads |
| LzmaEncoder.LzmaEnc.EncodeStream | rtl/tb/mister_main/lib/lzma/LzmaEnc.c:2262-2499 | for every parse of the data that the parser may choose, the bytes written are its encoding |
| LzmaReader.ProbeIsRead | rtl/tb/mister_main/lib/lzma/LzmaDec.c:660-850 | reading a symbol without adapting anything completes exactly when real reading does, with the same packet and registers |
| LzmaReader.ReadExtended | rtl/tb/mister_main/lib/lzma/LzmaDec.c:660-850 | more input changes nothing for a symbol that was already complete |
| LzmaRoundTrip.RoundTrip | rtl/tb/mister_main/lib/lzma/LzmaDec.c:239-568 | for every parse, all properties and with or without end marker, the encoding decodes in enough room to exactly the bytes of the parse, with nothing left over, and the right status |
| LzmaRoundTrip.RoundTripWithTrailer | rtl/tb/mister_main/lib/lzma/LzmaDec.c:918-1019 | bytes after the stream change nothing and are left over |
| LzmaStream.ResumeChunks | rtl/tb/mister_main/lib/lzma/LzmaDec.c:875-1019 | decoding a first piece of the input and then the rest is decoding it at once |
| LzmaPieces.ResumeInParts | rtl/tb/mister_main/lib/lzma/LzmaDec.c:1022-1060 | so is decoding into a first part of the room and then into the rest |
| LzmaPieces.FullIsFull | rtl/tb/mister_main/lib/lzma/LzmaDec.c:918-940 | decoding stops for want of room only when the room is used up |
| LzmaBudget.TwentyBytesSuffice | rtl/tb/mister_main/lib/lzma/LzmaDec.h:48-51 | from normalised registers and reachable probabilities, 20 bytes hold any symbol |
| LzmaBudget.DistancesFit | rtl/tb/mister_main/lib/lzma/LzmaDec.c:414-512 | no input whatever makes the decoder form a distance of more than 32 bits |
| LzmaProgress.FirstIsRep | rtl/tb/mister_main/lib/lzma/LzmaDec.c:617-634 | before the first byte, the code tells a repetition by one comparison, with exactly the constant kBadRepCode |
| LzmaDictionary.Dictionary.ByteAt | rtl/tb/mister_main/lib/lzma/LzmaDec.c:264-270 | looking back in the circular buffer finds the byte of the unbounded history |
| LzmaDictionary.Dictionary.CopyRem | rtl/tb/mister_main/lib/lzma/LzmaDec.c:588-612 | the circular copy of what remains of a match appends to the history the bytes that lie `rep0` back, overlapping or not |
| LzmaDictionary.Dictionary.CopyMatch | rtl/tb/mister_main/lib/lzma/LzmaDec.c:536-563 | so do the straight copy and the wrapping one |
| LzmaBitReader.BitReader.Distance | rtl/tb/mister_main/lib/lzma/LzmaDec.c:437-512 | reverse trees, direct bits and align bits read the distance that belongs to the slot |
| LzmaTryDummy.Prober.MatchOrRep | rtl/tb/mister_main/lib/lzma/LzmaDec.c:729-845 | looking ahead over a match or repetition finds what reading it would find |
| LzmaDecoder.LzmaDec.TryDummy | rtl/tb/mister_main/lib/lzma/LzmaDec.c:660-850 | the look-ahead says of every input whether it holds the next symbol, and of which class it is |
| LzmaDecoder.LzmaDec.OneSymbol | rtl/tb/mister_main/lib/lzma/LzmaDec.c:239-568 | one turn of the decoding loop reads the next symbol and does to history, state and distances what the packet means, or reports bad data, as far as there is room |
| LzmaDecoder.LzmaDec.WriteRem | rtl/tb/mister_main/lib/lzma/LzmaDec.c:588-612 | finishes a match that was cut off, without reading |
| LzmaDecoder.LzmaDec.DecodeReal2 | rtl/tb/mister_main/lib/lzma/LzmaDec.c:624-650 | rounds up to the point where the dictionary is full first, and beyond; they stay on the way of the reference, and read not beyond the input |
| LzmaDecoder.LzmaDec.FromSource | rtl/tb/mister_main/lib/lzma/LzmaDec.c:942-985 | decoding from the caller's input, with the 20 bytes kept back or one symbol looked at first |
| LzmaDecoder.LzmaDec.FromTemp | rtl/tb/mister_main/lib/lzma/LzmaDec.c:986-1016 | decoding a symbol that began in an earlier call, from the buffer that is filled up with new input |
| LzmaDecoder.LzmaDec.TakeFromTemp | rtl/tb/mister_main/lib/lzma/LzmaDec.c:999-1013 | the symbol is taken from the buffer and what it did not need is given back; the two internal errors cannot occur |
| LzmaDecoder.LzmaDec.RunningCarries | rtl/tb/mister_main/lib/lzma/LzmaDec.c:853-866 | a decoder in the middle of a stream or at its end meets what going on with another stream asks for |
| LzmaDecoder.LzmaDec.InitDicAndState | rtl/tb/mister_main/lib/lzma/LzmaDec.c:853-866 | a new stream may go on with the dictionary and with the state of the last one |
| LzmaDecoder.LzmaDec.DecodeToDic | rtl/tb/mister_main/lib/lzma/LzmaDec.c:875-1019 | on whatever was put aside and is new, and in whatever room, the call ends as the reference does: same bytes, same status, same input taken |
| LzmaDecoder.LzmaDec.DecodeToBuf | rtl/tb/mister_main/lib/lzma/LzmaDec.c:1022-1060 | the pieces through the circular dictionary together are one call with all of the output |
| LzmaWhole.DecodeChunks | rtl/tb/mister_main/lib/lzma/LzmaDec.c:875-1019 | a decoder that is handed the encoding of a parse in any chunks ends with the bytes of the parse |
| LzmaWhole.EncodeAndDecode | rtl/tb/mister_main/lib/lzma/LzmaEnc.c:2262-2499 | from the encoder object through any cutting of its output to the decoder object, the data comes back |
| LzmaBackward.Optimum.Backward | rtl/tb/mister_main/lib/lzma/LzmaEnc.c:1066-1110 | for every chain of cells, the first packet is returned and the others stand in order in the same cells; no cell is overwritten before it is read |
| LzmaBackward.ForwardCovers | rtl/tb/mister_main/lib/lzma/LzmaEnc.c:1066-1110 | the packets of a chain, with cells of two and three packets expanded, cover exactly the bytes up to its end |
| LzmaBackward.Optimum.TakeAll | rtl/tb/mister_main/lib/lzma/LzmaEnc.c:2304-2316 | taken one after the other until none is left, the packets are those of the chain |
| LzmaBackward.NotedIsAfter | rtl/tb/mister_main/lib/lzma/LzmaEnc.c:1395-1470 | the state and distances that the parser notes in each cell, with constants in place of the steps within a cell, are those the coder will have after the packets that lead there |
| SuffixTrees.SplitKeeps | rtl/tb/mister_main/lib/lzma/LzFind.c:465-520 | splitting an ordered tree at a suffix gives two ordered trees, below and above it, of nodes that were there |
| CyclicTrees.PrefixSkipped | rtl/tb/mister_main/lib/lzma/LzFind.c:476-500 | wherever the walk is, at least the smaller of the two lengths is shared with the node it meets, so skipping that many bytes finds the true common length |
| CyclicTrees.WalkSplits | rtl/tb/mister_main/lib/lzma/LzFind.c:465-520 | the walk through the cyclic array splits the tree it holds at the current suffix, cut off by age and number of steps, and touches no other tree's slots |
| CyclicTrees.FoundAreMatches | rtl/tb/mister_main/lib/lzma/LzFind.c:465-520 | what it reports are the nodes on its way with longer and longer matches |
| MatchHashes.Hash2Forces | rtl/tb/mister_main/lib/lzma/LzHash.h:22-26 | equal two-byte hashes and an equal first byte force the second |
| MatchHashes.Hash3Forces | rtl/tb/mister_main/lib/lzma/LzHash.h:22-27 | equal three-byte hashes and an equal first byte force the other two |
| MatchHashes.Hash4Forces | rtl/tb/mister_main/lib/lzma/LzHash.h:22-27 | equal main hashes, for any number of buckets from 2^16 on, and an equal first and fourth byte force the two between |
| MatchHashes.CrcIs | rtl/tb/mister_main/lib/lzma/LzFind.c:145-157 | the table is that of the CRC polynomial: the entry of 128 is the polynomial, halving a number divides its entry once more, and the entry of an exclusive or is that of the entries |
| MatchForest.PlainStepKeeps | rtl/tb/mister_main/lib/lzma/LzFind.c:665-720 | a step keeps the invariant: one ordered tree for each bucket, children older than parents, no slot in two trees, and hash heads that are positions of their hash |
| MatchRuns.StepKeeps | rtl/tb/mister_main/lib/lzma/LzFind.c:572-579 | so does a step with renumbering of 32-bit positions |
| MatchRuns.RunsReport | rtl/tb/mister_main/lib/lzma/LzFind.c:665-720 | in every run every answer is true: each pair is a match of that length inside the window, and lengths strictly increase |
| MatchRuns.EveryAnswerIsTrue | rtl/tb/mister_main/lib/lzma/LzFind.c:665-720 | from the start on, for every text, window and number of buckets |
| MatchAnswers.AnswersAreTrue | rtl/tb/mister_main/lib/lzma/LzFind.c:665-720 | the same of one answer, with the matches found by the two small hash tables |
| MatchAnswers.LongestIsReported | rtl/tb/mister_main/lib/lzma/LzFind.c:465-520 | unless the number of steps stops the walk, no node of the tree has a longer match |
| MatchNormalize.NormalizedIsAlike | rtl/tb/mister_main/lib/lzma/LzFind.c:345-369 | after normalization every reference keeps whether it is in the window, and its distance if it is |
| MatchNormalize.RunsAlike | rtl/tb/mister_main/lib/lzma/LzFind.c:345-387 | runs with and without normalization give the same answers |
| MatchNormalize.NormalizeChangesNothing | rtl/tb/mister_main/lib/lzma/LzFind.c:345-369 | normalizing at any moment changes no later answer |
| MatchLongest.SplitLoses | rtl/tb/mister_main/lib/lzma/LzFind.c:465-520 | with enough steps to spend, entering n loses no node from the tree but those that agree with n up to the length limit |
| MatchLongest.StepCovers | rtl/tb/mister_main/lib/lzma/LzFind.c:665-720 | if cutValue is not below the history size, every step keeps each position of the window covered by a node of its bucket that is no older and agrees up to the length limit |
| MatchLongest.LongestInWindow | rtl/tb/mister_main/lib/lzma/LzFind.c:665-720 | then no position in the window, in any bucket, has a longer match than the last one reported, matches of at most 3 bytes apart |
| MatchLongest.NothingIsMissed | rtl/tb/mister_main/lib/lzma/LzFind.c:665-720 | this holds at every position of every run from the start |
| MatchShort.StepFresh | rtl/tb/mister_main/lib/lzma/LzFind.c:665-720 | every step keeps that each slot of the two small hash tables holds the latest entered position of that hash, as far as it is in the window |
| MatchShort.ShortOnes | rtl/tb/mister_main/lib/lzma/LzFind.c:697-712 | if the latest position in the window with the two-byte or the three-byte hash of n begins with the same byte, it is reported, with at least two or three bytes; and pairs of two or three bytes are of such positions only |
| MatchShort.EveryShortMatch | rtl/tb/mister_main/lib/lzma/LzFind.c:665-720 | this holds at every position of every run from the start, whatever the cutValue |
| MatchFront.MatchesLead | rtl/tb/mister_main/lib/lzma/LzFind.c:465-520 | with enough steps, the walk reports a node if and only if it shares more than all younger nodes, and more than was found before |
| MatchFront.FrontHere | rtl/tb/mister_main/lib/lzma/LzFind.c:665-720 | if cutValue is not below the history size, a position in the window is reported with all the bytes it shares, if these are more than 3, if and only if no nearer position shares as many |
| MatchFront.EveryFront | rtl/tb/mister_main/lib/lzma/LzFind.c:665-720 | this holds at every position of every run from the start |
| MatchWindow.Slider.ReadBlock | rtl/tb/mister_main/lib/lzma/LzFind.c:58-96 | whatever pieces the stream delivers, the buffer holds a part of the text around the current place, and more than keepSizeAfter bytes are ahead or the stream has ended |
| MatchWindow.Slider.MoveBlock | rtl/tb/mister_main/lib/lzma/LzFind.c:98-104 | moving the block within the same buffer keeps all that is ahead and keepSizeBefore bytes behind |
| MatchWindow.Slider.CheckAndMoveAndRead | rtl/tb/mister_main/lib/lzma/LzFind.c:106-127 | a move makes room just when there would be too little, so that reading always succeeds |
| MatchWindow.Slider.At | rtl/tb/mister_main/lib/lzma/LzFind.c:465-520 | a byte at any distance that the window keeps is that of the text |
| MatchWhole.AllAnswers | rtl/tb/mister_main/lib/lzma/LzFind.c:178-382 | a match finder run over a stream in any pieces gives each position true, ever longer matches within the history, the short ones of the latest positions of their hashes, and, if cutValue is not below the history size, of the positions that share more than 3 bytes just those that share more than all nearer ones, with a longest one last |
| MatchFinder.Finder.GetMatchesSpec1 | rtl/tb/mister_main/lib/lzma/LzFind.c:465-520 | the loop over two places and two lengths leaves the array as the walk does and reports what it finds |
| MatchFinder.Finder.SkipMatchesSpec | rtl/tb/mister_main/lib/lzma/LzFind.c:522-570 | the loop without reports leaves the same array |
| MatchFinder.Finder.SetLimits | rtl/tb/mister_main/lib/lzma/LzFind.c:271-298 | the limits up to the next check are such that the length limit stays right in between, although only a part of the text has been read |
| MatchFinder.Finder.Normalize | rtl/tb/mister_main/lib/lzma/LzFind.c:345-371 | all references and positions are lowered together |
| MatchFinder.Finder.MovePos | rtl/tb/mister_main/lib/lzma/LzFind.c:373-382 | one position further, with renumbering, moving and reading when they are due: afterwards enough is ahead again, or the stream has ended |
| MatchFinder.Finder.constructor | rtl/tb/mister_main/lib/lzma/LzFind.c:178-342 | a new match finder, with a window of the size the source computes and read as far as it goes, is in the state of no positions, and its text is what the stream holds |
| MatchFinder.Finder.GetMatches | rtl/tb/mister_main/lib/lzma/LzFind.c:665-721 | the answer of the specification and its next state, also where the early exit calls the skipping walk; what MatchShort, MatchFront and MatchLongest say holds of this answer |
| MatchFinder.Finder.Skip | rtl/tb/mister_main/lib/lzma/LzFind.c:991-1008 | skipping n positions leaves hash tables, tree and positions exactly as n calls of GetMatches |
| HeapSort.Sort | rtl/tb/mister_main/lib/lzma/Sort.c:17-61 | in ascending order, and the same values |
| HeapSort.Shortcut | rtl/tb/mister_main/lib/lzma/Sort.c:43-50 | moving the greater child of the root up without comparing opens a hole in a heap |
| HeapSort.FinishTail | rtl/tb/mister_main/lib/lzma/Sort.c:51-61 | the last two or three values are put in order directly |
| Delta.Encode | rtl/tb/mister_main/lib/lzma/Delta.c:22-43 | each byte becomes its difference to the byte `delta` before it, and the state becomes the last `delta` plain bytes, oldest first |
| Delta.Decode | rtl/tb/mister_main/lib/lzma/Delta.c:45-64 | the same with sums |
| Delta.DecodeEncode | rtl/tb/mister_main/lib/lzma/Delta.c:22-64 | decoding undoes encoding |
| Delta.EncodedIs | rtl/tb/mister_main/lib/lzma/Delta.c:22-43 | an encoded byte and the plain byte `delta` before it add up to the plain byte, modulo 256 |
| Delta.DecodedIs | rtl/tb/mister_main/lib/lzma/Delta.c:45-64 | a decoded byte is the sum of its code and the decoded byte `delta` before it, modulo 256 |
| Delta.EncodeDecode | rtl/tb/mister_main/lib/lzma/Delta.c:22-64 | and encoding undoes decoding |
| Delta.EncodedInPieces | rtl/tb/mister_main/lib/lzma/Delta.c:22-43 | however the data is split across calls, the bytes are the same |
| Delta.DecodedInPieces | rtl/tb/mister_main/lib/lzma/Delta.c:45-64 | the same for decoding |
| DeflateSort.RadixSort | rtl/tb/mister_main/lib/miniz/miniz.c:732-763 | two stable passes, or one where all high bytes are 0, give the records in ascending order of their keys, each in one place, and records of one key in their old order |
| DeflateSort.PassSorts | rtl/tb/mister_main/lib/miniz/miniz.c:746-761 | a stable pass on top of an order by the lower bytes is an order by one byte more |
| DeflateSort.SameElements | rtl/tb/mister_main/lib/miniz/miniz.c:732-763 | records that were put in other places are the same multiset |
| DeflateJoins.JoinedOk | rtl/tb/mister_main/lib/miniz/miniz.c:776-796 | joining the two smallest keeps both queues in order, the sum of the weights, and weights that grow with the height like Fibonacci numbers |
| DeflateJoins.AllJoined | rtl/tb/mister_main/lib/miniz/miniz.c:776-796 | after n - 1 joins one root is left, and with weights of less than 2^16 together it is at most 22 high |
| CodeCosts.JoinLosesNothing | rtl/tb/mister_main/lib/miniz/miniz.c:776-796 | the exchange argument: any feasible code for the weights gives one for the weights with the two smallest joined that is shorter in total by at least the joined weight |
| DeflateJoinCosts.BoundedStep | rtl/tb/mister_main/lib/miniz/miniz.c:778-796 | so each turn of the loop keeps that every code for the leaves costs at least what has been joined and some code for what is pending |
| DeflateJoinCosts.TreeIsOptimal | rtl/tb/mister_main/lib/miniz/miniz.c:776-799 | when one root is left, the leaves of the tree that the parents describe have depths that no code for the weights betters |
| DeflateTies.FinerStep | rtl/tb/mister_main/lib/miniz/miniz.c:776-796 | that a leaf is joined before an inner node of the same weight is choosing by finer weights, in which every leaf counts one more than a multiple |
| DeflateTies.CheapestIsFlattest | rtl/tb/mister_main/lib/miniz/miniz.c:776-799 | a code that is cheapest for the finer weights is, of the codes that are shortest in total, one with the least sum of lengths |
| DeflateJoinCosts.LevelTally | rtl/tb/mister_main/lib/miniz/miniz.c:804-822 | on each level of that tree, leaves and inner nodes together are twice the inner nodes of the level above, so the loop that only counts inner nodes gives out the depths of the leaves |
| DeflateRedundancy.DepthMono | rtl/tb/mister_main/lib/miniz/miniz.c:797-799 | the depths that replace the parents in the same array do not increase from one node to the next |
| DeflateRedundancy.NextLevel | rtl/tb/mister_main/lib/miniz/miniz.c:804-822 | a level has at most twice as many inner nodes as the one above, and some until none are left, so the counts in the last loop never run out |
| DeflateRedundancy.LeavesAssigned | rtl/tb/mister_main/lib/miniz/miniz.c:811-818 | filling as many places from the back as there are leaves on a level gives each leaf its own depth, the heavier the smaller |
| DeflateRedundancy.LeavesShallow | rtl/tb/mister_main/lib/miniz/miniz.c:776-799 | a length of l takes a total weight of at least the Fibonacci number of l + 2 |
| DeflateRedundancy.MinimumRedundancy | rtl/tb/mister_main/lib/miniz/miniz.c:766-823 | for positive weights in ascending order, of less than 2^16 together, the array ends as code lengths of 1 to 22, the longest first, whose Kraft sum is exactly 1, and no other code for these weights is shorter in total, nor, of those as short, has one less bits in all its codes; a single symbol gets length 1 |
| DeflateLimit.FoldedUnits | rtl/tb/mister_main/lib/miniz/miniz.c:832-835 | with all longer codes counted at the limit, the code space is over-filled by no more units than there are codes at the limit |
| DeflateLimit.SomeShorter | rtl/tb/mister_main/lib/miniz/miniz.c:836-845 | while too much is taken, there is a shorter code to lengthen |
| DeflateLimit.NothingToLimit | rtl/tb/mister_main/lib/miniz/miniz.c:826-848 | when no length is above the limit, folding changes nothing and the loop has nothing to do |
| DeflateLimit.KeptHasRoom | rtl/tb/mister_main/lib/miniz/miniz.c:836-845 | if all codes of up to a length stay, there was room for the rest |
| DeflateLimit.RoomIsKept | rtl/tb/mister_main/lib/miniz/miniz.c:836-845 | and if there is room, the code that is lengthened next is a longer one |
| DeflateLimit.EnforceMaxCodeSize | rtl/tb/mister_main/lib/miniz/miniz.c:826-848 | the loop ends, with as many codes as before, none longer than the limit, and a code space that is filled exactly; the codes of up to some length all stay if and only if there is room for the rest behind them, so no more are lengthened than must be |
| DeflateBest.BestOfAll | rtl/tb/mister_main/lib/miniz/miniz.c:872-900 | lengths that are best for the sorted weights, given back to the symbols, are best for the alphabet: no lengths within the Kraft bound, counted over the symbols that occur, make the text shorter |
| DeflateBest.FlattestOfAll | rtl/tb/mister_main/lib/miniz/miniz.c:872-900 | the least sum of lengths is carried over in the same way |
| DeflateBest.SameLengths | rtl/tb/mister_main/lib/miniz/miniz.c:875-887 | handing out lengths by how many there are of each gives the sorted symbols the very lengths that were counted |
| DeflateOptimize.OptimizeHuffmanTable | rtl/tb/mister_main/lib/miniz/miniz.c:850-904 | for all counts of less than 2^16 together, and not more symbols than the limit allows: just the symbols that occur get codes, more frequent ones none that are longer, nor, of equally frequent ones, later ones, the inflater accepts the code sizes, and the codes are the canonical ones, bit-reversed; if two or more occur, and all together less often than the Fibonacci number of limit + 3, no code for the symbols that occur is shorter in total, and none as short has a smaller sum of lengths |
| DeflateTable.AssignCodes | rtl/tb/mister_main/lib/miniz/miniz.c:887-903 | the codes are numbered through from the shortest on, as DeflateCanonical.OnlyTheCodes says, and reversed |
| DeflateCodes.ReachIsKraft | rtl/tb/mister_main/lib/miniz/miniz.c:887-889 | how far the codes of a size reach is the part of the code space that they and the shorter ones take |
| DeflateCodes.PrefixFree | rtl/tb/mister_main/lib/miniz/miniz.c:887-903 | no code begins with another, for all sizes that fit the code space; section 3.2.2 of RFC 1951 |
| DeflateCanonical.OnlyTheCodes | rtl/tb/mister_main/lib/miniz/miniz.c:887-903 | numbers for the symbols are these codes if and only if they meet the rules of section 3.2.2 of RFC 1951: the first of all is 0, each next one of a length is one more, and the first of the next length is one more with zeros added |
| DeflateCanonical.PathValue | rtl/tb/mister_main/lib/miniz/miniz.c:887-903 | the bits of a code are those of its number, the highest first |
| DeflateCanonical.CodesInOrder | rtl/tb/mister_main/lib/miniz/miniz.c:887-903 | every shorter code is before every longer one in the lexicographic order, and of one length the earlier symbol's is before the later one's |
| DeflateTable.Table.CheckSizes | rtl/tb/mister_main/lib/miniz/miniz.c:2514-2530 | the check lets sizes through if they fill the code space or only one symbol has a code, and never refuses such sizes |
| DeflateTable.NodesFew | rtl/tb/mister_main/lib/miniz/miniz.c:2531-2571 | the tree never has more pairs than symbols, or 15, so it fits its array |
| DeflateTable.Table.Build | rtl/tb/mister_main/lib/miniz/miniz.c:2531-2571 | after all symbols the lookup table and the tree hold each code, of which DeflateCanonical says the order, where its bits lead |
| DeflateTable.Table.Decode | rtl/tb/mister_main/lib/miniz/miniz.c:2347-2379 | whatever bits follow, the symbol is the one whose code comes, of which there is only one, and its code size is consumed |
| DeflateTable.CodeComes | rtl/tb/mister_main/lib/miniz/miniz.c:887-903 | a code comes exactly if the low bits of the buffer are the number the deflater writes |
| DeflateTable.SomethingComes | rtl/tb/mister_main/lib/miniz/miniz.c:2347-2379 | when the code space is filled, some code comes whatever the bits |
| DeflateLengths.Pack | rtl/tb/mister_main/lib/miniz/miniz.c:990-1029 | the packed code sizes stand for the sizes, with repeats and zeros never pending together, and are the packing of each run by itself: 138 zeros, or 6 repetitions, at a time, and what is left as one count or, up to two, as it is |
| DeflateLengths.RunIs | rtl/tb/mister_main/lib/miniz/miniz.c:2573-2600 | 16 stands for 3 to 6 more of the last size, 17 for 3 to 10 zeros and 18 for 11 to 138, one for each count |
| DeflateLengths.LastRunIs | rtl/tb/mister_main/lib/miniz/miniz.c:990-1029 | the runs are of equal sizes and as long as they can be |
| DeflateLengths.Unpack | rtl/tb/mister_main/lib/miniz/miniz.c:2573-2600 | unpacking gives the sizes that stand there, and refuses a run that goes beyond and a repetition of nothing |
| DeflateLengths.AllTaken | rtl/tb/mister_main/lib/miniz/miniz.c:2573-2600 | what stands for as many sizes as are wanted is taken as these sizes |
| DeflateLengths.PackAndUnpack | rtl/tb/mister_main/lib/miniz/miniz.c:921-965 | every sequence of sizes from 0 to 15 comes back; section 3.2.7 of RFC 1951 |
| DeflateWhole.EncodeAndDecode | rtl/tb/mister_main/lib/miniz/miniz.c:906-920 | a message of symbols that occur, written with the codes that are made from the counts and followed by any bits, is read back by the table built from the packed sizes |
| ZipIndex.SortByFilename | rtl/tb/mister_main/lib/miniz/miniz.c:3442-3492 | the index is put in ascending order of the names with case folded, and still holds the same files |
| ZipIndex.GoesUp | rtl/tb/mister_main/lib/miniz/miniz.c:3459-3470 | sinking one level keeps the heap but for one place |
| ZipIndex.LowerIs | rtl/tb/mister_main/lib/miniz/miniz.c:3102 | just the 26 capitals are folded, each to its small letter |
| ZipIndex.BeforeIs | rtl/tb/mister_main/lib/miniz/miniz.c:3413-3430 | the order of names is that of the dictionary: the lower byte where they first differ decides, or else the shorter is before |
| ZipIndex.FilenameLess | rtl/tb/mister_main/lib/miniz/miniz.c:3413-3430 | the comparison is the lexicographic order of folded names, shorter ones first |
| ZipIndex.FilenameCompare | rtl/tb/mister_main/lib/miniz/miniz.c:4246-4263 | the other comparison has the sign of the same order, and is 0 just for names equal but for case |
| ZipIndex.SortedIsIndexed | rtl/tb/mister_main/lib/miniz/miniz.c:3680-3683 | an index that starts as 0, 1, 2, ... and is sorted is one that the search may be used on: it has every file |
| ZipIndex.BinarySearch | rtl/tb/mister_main/lib/miniz/miniz.c:4265-4301 | on a sorted index of all files it finds a file just if there is one of that name |
| ZipIndex.BaseNameIs | rtl/tb/mister_main/lib/miniz/miniz.c:4354-4365 | without its path, a name is the part that has no slash, backslash or colon and is all of it or stands behind one |
| ZipIndex.LocateFile | rtl/tb/mister_main/lib/miniz/miniz.c:4312-4372 | by the index or by a scan, with comments, paths and case as asked for, a file is found if and only if one matches, by the scan the first; the scan, and only it, refuses names and comments too long for a directory |
| CdEcc.NoShortCycle | rtl/tb/mister_main/lib/libchdr/libchdr_cdrom.c:327-340 | multiplying by the generator up to 44 times never leads back, for any byte but 0 |
| CdEcc.TwiceIs | rtl/tb/mister_main/lib/libchdr/libchdr_cdrom.c:99-118 | the table doubles modulo the polynomial 0x11d |
| CdEcc.ErrorAt | rtl/tb/mister_main/lib/libchdr/libchdr_cdrom.c:327-340 | a change of the byte that is k places from the end adds it to the one sum, and doubled k times to the other |
| CdEcc.ParityCompletes | rtl/tb/mister_main/lib/libchdr/libchdr_cdrom.c:327-340 | the two parity bytes are the only ones that complete a row to a word that satisfies both equations |
| CdEcc.TwoErrorsDetected | rtl/tb/mister_main/lib/libchdr/libchdr_cdrom.c:353-374 | in words of up to 45 bytes any change of one or two bytes breaks an equation |
| CdSector.ComputeBytes | rtl/tb/mister_main/lib/libchdr/libchdr_cdrom.c:307-340 | accumulated in place in the sector that is being read, the two bytes become the parity of the row |
| CdSector.PWordIs | rtl/tb/mister_main/lib/libchdr/libchdr_cdrom.c:353-364 | a column holds if and only if the 26 bytes 86 apart, the two parity bytes last, are a code word |
| CdSector.QWordIs | rtl/tb/mister_main/lib/libchdr/libchdr_cdrom.c:366-374 | a diagonal holds if and only if its 43 bytes and the two that stand 52 apart behind them are one |
| CdPlaces.OneColumn | rtl/tb/mister_main/lib/libchdr/libchdr_cdrom.c:142-147 | each byte before the P bytes is in one column, at one place |
| CdPlaces.DiagonalSteps | rtl/tb/mister_main/lib/libchdr/libchdr_cdrom.c:239-244 | the 52 diagonals begin in the first two bytes of every row and step by 88 bytes, round and round |
| CdPlaces.OneDiagonal | rtl/tb/mister_main/lib/libchdr/libchdr_cdrom.c:239-244 | each byte before the Q bytes is in one diagonal, at one place, which is computed from its row and column |
| CdPlaces.DiagonalBreaks | rtl/tb/mister_main/lib/libchdr/libchdr_cdrom.c:366-374 | any one byte that counts and is before the Q bytes, if it is changed, breaks its own diagonal |
| CdPlaces.OthersIgnored | rtl/tb/mister_main/lib/libchdr/libchdr_cdrom.c:307-312 | the sync bytes and, in mode 2, the header do not matter |
| CdSector.Verify | rtl/tb/mister_main/lib/libchdr/libchdr_cdrom.c:353-374 | succeeds exactly if all 86 columns and 52 diagonals hold |
| CdSector.Generate | rtl/tb/mister_main/lib/libchdr/libchdr_cdrom.c:387-397 | afterwards all of them hold, though the diagonals run over the parity of the columns; the data stays |
| CdSector.ParityIsUnique | rtl/tb/mister_main/lib/libchdr/libchdr_cdrom.c:387-397 | no other parity bytes are consistent with the same data |
| CdSector.ChangesDetected | rtl/tb/mister_main/lib/libchdr/libchdr_cdrom.c:353-374 | one or two changed bytes anywhere in a sector make it inconsistent |
| CdSector.Clear | rtl/tb/mister_main/lib/libchdr/libchdr_cdrom.c:409-413 | the parity bytes are 0 and the data stays |
| BitStream.Reader.Peek | rtl/tb/mister_main/lib/libchdr/libchdr_bitstream.c:44-65 | up to 25 bits agree with the flat sequence of bits, which goes on with zeros; nothing is consumed |
| BitStream.Reader.Read | rtl/tb/mister_main/lib/libchdr/libchdr_bitstream.c:84-89 | the same bits, which are then consumed |
| BitStream.Reader.Overflow | rtl/tb/mister_main/lib/libchdr/libchdr_bitstream.c:19 | overflow is reported if and only if more bits have been consumed than there are |
| BitStream.Reader.ReadOffset | rtl/tb/mister_main/lib/libchdr/libchdr_bitstream.c:97-108 | the number of bytes that have been begun |
| BitStream.Reader.Flush | rtl/tb/mister_main/lib/libchdr/libchdr_bitstream.c:115-124 | on to the next byte |
| BitStream.FlatInByte | rtl/tb/mister_main/lib/libchdr/libchdr_bitstream.c:44-65 | the first n bits of a byte are its n highest |
| ChdHuffman.Decoder.AssignCanonicalCodes | rtl/tb/mister_main/lib/libchdr/libchdr_huffman.c:484-518 | fails exactly if a length is too great or the codes of some length above 1 do not come in pairs; else the codes are the canonical ones |
| ChdHuffman.FitsIsKraft | rtl/tb/mister_main/lib/libchdr/libchdr_huffman.c:484-518 | accepted lengths fit the table exactly if their Kraft sum is at most 1, since the check leaves length 1 out |
| ChdHuffman.AcceptedAndOverFull | rtl/tb/mister_main/lib/libchdr/libchdr_huffman.c:484-518 | three codes of length 1 are accepted and do not fit |
| ChdHuffman.PrefixFree | rtl/tb/mister_main/lib/libchdr/libchdr_huffman.c:484-518 | no code begins with another |
| ChdCanonical.OnlyTheCodes | rtl/tb/mister_main/lib/libchdr/libchdr_huffman.c:484-518 | for all accepted lengths, numbers are these codes if and only if the first of the greatest length is 0, each next one of a length is one more, and the first of the next smaller length is one more without the bits that are dropped |
| ChdHuffman.WidthHolds | rtl/tb/mister_main/lib/libchdr/libchdr_huffman.c:187-193 | a length takes as few bits as hold the greatest, but at least 3 |
| ChdHuffman.Apart | rtl/tb/mister_main/lib/libchdr/libchdr_huffman.c:526-550 | the parts of the table that belong to two symbols do not meet |
| ChdHuffman.Decoder.BuildLookupTable | rtl/tb/mister_main/lib/libchdr/libchdr_huffman.c:526-550 | each symbol is in all of its part |
| ChdHuffman.Decoder.ImportTreeRle | rtl/tb/mister_main/lib/libchdr/libchdr_huffman.c:181-240 | reads the run-length coded lengths, or reports which of them is wrong, and builds codes and table |
| ChdHuffman.LengthsReadBack | rtl/tb/mister_main/lib/libchdr/libchdr_huffman.c:181-228 | lengths written in that form are read back |
| ChdHuffman.Decoder.DecodeOne | rtl/tb/mister_main/lib/libchdr/libchdr_huffman.c:162-173 | at any bit position, the symbol whose code comes is returned, which is the only one, and its length is consumed |
| ChdHuffman.SomeCodeComes | rtl/tb/mister_main/lib/libchdr/libchdr_huffman.c:162-173 | with a Kraft sum of 1 some code comes whatever the bits |
| ChdMap.ReadTypes | rtl/tb/mister_main/lib/libchdr/libchdr_chd.c:1609-1625 | the first byte of each entry is its type, with short and long runs expanded |
| ChdMap.TypesPlain | rtl/tb/mister_main/lib/libchdr/libchdr_chd.c:1609-1625 | no run code is left as a type |
| ChdMap.PutUint24 | rtl/tb/mister_main/lib/libchdr/libchdr_chd.c:1402-1408 | the three lowest digits to base 256, most significant first, and nothing else is written |
| ChdMap.PutUint48 | rtl/tb/mister_main/lib/libchdr/libchdr_chd.c:1364-1373 | the same of six |
| ChdMap.DigitsRead | rtl/tb/mister_main/lib/libchdr/libchdr_chd.c:1353-1357 | digits read back are the number, up to their width |
| ChdMap.FillMap | rtl/tb/mister_main/lib/libchdr/libchdr_chd.c:1627-1694 | every entry reads back as the type, length, offset and checksum that the loop finds for it; ChdMapWriter.EntriesReadBack says which these are |
| ChdMap.DecompressMap | rtl/tb/mister_main/lib/libchdr/libchdr_chd.c:1538-1700 | from the bits to the map: code, types, entries; ChdMapWriter.MapReadBack says which map it is |
| ChdMap.BaseTypes | rtl/tb/mister_main/lib/libchdr/libchdr_chd.c:1627-1684 | an entry has a base type exactly if its type in the bits was a valid one |
| ChdMap.HunksTile | rtl/tb/mister_main/lib/libchdr/libchdr_chd.c:1627-1694 | stored hunks lie one behind the other from the first offset on, in the order of the map, with no gap |
| ChdMap.References | rtl/tb/mister_main/lib/libchdr/libchdr_chd.c:1652-1683 | the short forms mean the last reference of their kind in the map, or the one after it |
| ChdMapWriter.EntriesReadBack | rtl/tb/mister_main/lib/libchdr/libchdr_chd.c:1627-1694 | a map filled from fields that a writer has laid out in the order of the hunks - length and checksum, or a checksum, or a reference, or nothing - says of each hunk what the writer said |
| ChdMapWriter.TypesReadBack | rtl/tb/mister_main/lib/libchdr/libchdr_chd.c:1609-1625 | however types are listed, singly or in short and long runs, they are read back |
| ChdMapWriter.MapReadBack | rtl/tb/mister_main/lib/libchdr/libchdr_chd.c:1538-1700 | a map that DecompressMap has filled from code lengths, listed types and fields says of each hunk what the writer said |
| ChdMapWriter.EntryLayout | rtl/tb/mister_main/lib/libchdr/libchdr_chd.c:1686-1693 | an entry is the type, the length in three bytes, the offset in six and the checksum in two, most significant bytes first |
| ChdHunks.ReadIntoMemory | rtl/tb/mister_main/lib/libchdr/libchdr_chd.c:2726-2908 | the buffer holds what the specification of reading says, or its error is returned; references within the file need not go back, only not in circles, and reading ends |
| ChdHunks.StoredIsRead | rtl/tb/mister_main/lib/libchdr/libchdr_chd.c:2799-2870 | a stored hunk is read as the bytes in the file at the entry's offset, of the entry's length, or as what the codec of its type makes of them |
| ChdHunks.BlockIs | rtl/tb/mister_main/lib/libchdr/libchdr_chd.c:2774-2779 | in the map of an uncompressed file, four bytes for each hunk, the most significant first, count in hunks of the file |
| ChdHunks.ReadIsContent | rtl/tb/mister_main/lib/libchdr/libchdr_chd.c:2796-2908 | reading gives the contents of the disk that the maps of the file and of its parents describe, hunk by hunk |
| ChdHunks.ParentContent | rtl/tb/mister_main/lib/libchdr/libchdr_chd.c:2874-2904 | a part of the parent that begins inside a hunk, read from two hunks, is the flat slice of the parent's disk |
| ChdHunks.OneDisk | rtl/tb/mister_main/lib/libchdr/libchdr_chd.c:2796-2908 | a map describes one disk at most |
| ChdHunks.UnitsFit | rtl/tb/mister_main/lib/libchdr/libchdr_chd.c:2877-2884 | with the number of units in one byte, every unit is found in its place if and only if a hunk has less than 256 |
| ChdHunks.EarlierIsRanked | rtl/tb/mister_main/lib/libchdr/libchdr_chd.c:2871-2872 | references to earlier hunks do not go round in circles |

## Left out

- RangeEncoder.RangeEnc: the output buffer and its flushing to a stream (LzmaEnc.c:576-586) are one sequence of bytes; write errors and the run-out of the 64-bit byte count are not modelled.
- LzmaEncoder.LzmaEnc.EncodeStream: the parser (GetOptimum, GetOptimumFast and the price tables, LzmaEnc.c:733-1040 and 1118-1985) is replaced by any valid parse of the data, and 4 GiB blocks of the position counter are not distinguished; bitwise operations are given by arithmetic.
- LzmaPosSlot.GetPosSlot: kNumLogBits is 11 or 13, for a size_t of 4 or 8 bytes; the variant with a bit scan instruction is not modelled.
- LzmaDecoder.LzmaDec: the buffer for input that is put aside is a sequence instead of a fixed array of 20 bytes; after bad data only the status, the bytes produced and the input taken are promised.
- LzmaBackward: of a parser's cell, price and match-finder data are left out, and chains are taken as given, with the cells that GetOptimum can form.
- MatchFinder.Finder: the stream does not fail, and the mode where the whole text is in memory (directInput) is left out; of streamPos only its distance from pos is kept, which is all that is used of it; hash tables and tree are arrays of their own instead of parts of one allocation; the tree array starts as zeros, where the source leaves it as it is and never follows what it has not set. The variants with hash chains, with trees for two, three or five bytes, and the multithreaded one are not modelled.
- MatchHashes: the CRC table is computed by need, bit by bit.
- HeapSort.Sort: HeapSortRef is not modelled; 32-bit and 64-bit words are natural numbers.
- DeflateOptimize.OptimizeHuffmanTable: the branch for static tables is left out; the sort's records have arrays of exactly their number, and their keys are handed to the minimum-redundancy pass in an array of their own. That the total of the counts of a block is below 2^16 is a requirement here.
- DeflateLimit.EnforceMaxCodeSize: what limiting adds to the total length, when it changes something, is not bounded.
- DeflateLengths: how often each symbol of the packed form occurs, and the trimming of both alphabets before packing, are left out.
- DeflateTable.Table.Decode: the bit buffer is a number that holds enough bits; refilling it byte by byte at the end of the input (miniz.c:2312-2340) is not modelled. TINFL_FAST_LOOKUP_BITS and the size of the tree array, from miniz.h, are parameters; miniz.h is not part of this model.
- ZipIndex: the directory is a sequence of names and comments instead of offsets into its bytes; names are not cut off at a zero byte.
- CdSector: the tables of offsets are given by their closed forms, and the tables for multiplication by the polynomial.
- ChdHuffman.Decoder.BuildLookupTable: it is required that the lengths fit the table, since the source writes beyond it if they do not (AcceptedAndOverFull); the packing of a table entry is an unbounded number. Building a tree from a histogram and the Huffman-coded form of a tree are left out.
- ChdMap.DecompressMap: the checksum of the map, allocation failures and the uncompressed map are left out; the code of the types is required to be complete, and field widths to be at most the 25 bits that the reader delivers at once.
- ChdHunks.ReadIntoMemory: maps of versions below 5, checksums of hunks, the cache and checks for null pointers are left out; codecs are any functions that give a whole hunk or fail; blocks of an uncompressed file are required to lie in the file, since the source does not look at how much it has read. Entries of no base type are excluded, as BaseTypes allows.
- File reading and writing, the zip writer, zlib wrappers, the inflater's and the deflater's outer loops, FLAC, zstd, CUE sheets, and the test bench around them are not modelled.
