# Verification of the coreboot universal payload shim

The shim takes a payload out of the firmware image, decompresses it with LZMA, loads it as an ELF image, and hands over
a list of hand-off blocks (HOBs) that describes the machine. This project models the parts of it that compute, and proves
what they are relied on for.

**LZMA decoder** (`RangeCoder`, `SymbolCode`, `SymbolRun`, `Lz77`, `LzmaSpec`, `LzmaDriver`, `Streaming`, `OutputLimits`,
`Deliveries`, `LzmaRounds`, `BitReader`, `SymbolReader`, `LookAhead`, `LzmaDecoder`, `LzmaOneCall`; and the encoder `SymbolCoder`,
`SymbolQuestions`, `RangeEncoder`, `TextCoder`). One symbol is a path through a grammar of points (`SymbolCode.Pc`), each asking one bit of a range coder. `LzmaSpec.Fetch` decodes a symbol, `Apply` gives
it its LZ77 meaning over a flat history, `LzmaDriver.Drive` repeats both until something stops it, and `LzmaDriver.Call` is
one call of the decoder: what it returns, what it used, and the state it leaves. This specification has one canonical
state: the coder renormalised after each symbol. Everything about cutting input and output into calls is proved of `Call`.
The class `LzmaDec` has the fields of `CLzmaDec` and the loops of the code: adapting probabilities and a circular dictionary
written in place, late renormalisation, limits checked in batches, the unchecked fast loop, and the buffer of an incomplete
symbol. Its `DecodeToDic` and `DecodeToBuf` are proved to do what `Call` says. What all this is for is said by an encoder that
the repository does not have: it writes any text, cut into bytes and copies, as a stream, with its own account of answers,
probabilities, states and distances, and `TextCoder.DecodedText` shows that decoding the stream gives the text back, `UnfoundedRefused`
and `EndDemanded` what is refused.

**Match finder** (`LzHash`, `MatchText`, `SearchTree`, `SonTree`, `SonSplit`, `SonMoves`, `SonChain`, `FinderState`,
`FinderIndex`, `FinderReports`, `FinderTwins`, `FinderRuns`, `FinderBudget`, `ChainIndex`, `NewestHeads`, `LzFind`). `SearchTree` is the binary search tree as a
value: split by content at the current place, newest place on top. `SonTree` defines the loops over the link array as
functions, `SonSplit` proves that they are the split and the search of the tree that the array represents, and `SonMoves` what
insertion, moving on and renormalisation do to that tree. `FinderState.Step` is one step of a finder of any of the four kinds,
`FinderReports.Report` all its reports; `FinderRuns`, `FinderBudget` for budgets that run out, `ChainIndex` for the hash chains,
and `NewestHeads` for the short hashes speak of whole runs from a fresh finder. The class `MatchFinder` has the code's loops over two arrays and is proved to do `Step` and `Report`.

**Hand-off blocks and pages** (`Memory`, `HobMemory`, `HobHeap`, `HobRuns`, `HobLib`, `HobBytes`, `Destination`, `Alignment`). One byte
array is the memory; table fields are little-endian loads and stores in it. Two allocators grow towards each other in one region, and
the page allocator records itself through the other one. `HobRuns` makes each a step of one state and proves what runs keep.

**ELF loader** (`ElfFile`, `ElfEncoder`, `ElfLoaded`, `ElfLib`). `ElfFile` reads the headers of a file as a byte sequence (what
`ElfEncoder` writes in the order of the file format is read back), folds the window of
its segments, defines the byte at every address after loading, and collects the fixups its relocation tables ask for.
`ElfLoaded` says what a well-formed file leaves in memory. The class `ElfImage` parses, loads and relocates in place.

**Primitives** (`BaseMemory`, `BaseDivision`, `Primitives`). `CopyMem` and `ZeroMem` with their word sizes, and the 64-bit
division by estimate and correction.

Addresses, sizes and pointers are 32-bit; numbers are unbounded in the model and every wrap-around is written out.

## Where the code differs from what it says

- `div64_u64` does not always divide: its correction step assumes that one less than the estimate is never too large
  (`BaseDivision.DivisionExact`, `DivisionCanFail`). It does divide in the ranges of `DivisionSafe`.
- `AllocatePages` promises null when memory does not suffice. A request that, with its record, exceeds the top itself makes the
  64-bit difference wrap around and is granted (`HobHeap.AllocationCheckExact`, `HobRuns.AllocationCanCorrupt`). It also lowers an
  unaligned top before it checks, and then may leave the top below the bottom (`HobHeap.TrimmedHeap`, `HobRuns.TrimCanCorrupt`).
  `HobRuns.RequestExact` says for which requests it does what it promises.
- With no loadable segment the size of an ELF image is two; a comment in `ParseElfImage` says it is zero (`ElfFile.NothingToLoad`).
- `IsElfFormat` says that it checks the signature; it looks at the second byte twice and never at the fourth, and so is right
  exactly for the files whose fourth byte is right (`ElfFile.LastMarkIgnored`).
- A dynamic image without a relocation table is said to be fine; the comparison for it never holds. Instead `RelocateElf32Dynamic`
  looks for a section at the address 0xFFFFFFFF, with the size that the last size entry says or zero, and reports the image as
  unsupported exactly when there is none (`ElfFile.UnrelocatedExact`, `NoRelocationsUnsupported`). `LoadElf32Image` drops that
  report and returns success (`ElfLib.ElfImage.LoadElf32Image`).
- A payload is meant to lie, aligned, in the pages allocated for its size and its alignment. It does exactly when the alignment is
  not zero and the sum of both does not wrap around in 32 bits (`Destination.DestinationExact`, `PayloadPlaced`). With an alignment
  of zero its destination is the null address, and for a sum that wraps around the pages are too few (`DestinationLost`,
  `WrappedSumNeverFits`).
- `CreateHob` returns a block for every length that fits. For a length of zero, or one above 0xFFF8, which it rounds to zero, nothing
  is added and the block is the end mark itself (`HobRuns.CreateNothing`); a block of the kind of the end mark, with a length,
  leaves no list (`HobRuns.CreateExact`).

## Model

| member | source | states |
|---|---|---|
| RangeCoder.NormalizeOnce | CorebootUplShimPkg/Library/LzmaCustomDecompressLib/Sdk/C/LzmaDec.c:20 | In the invariant one shift by eight bits always brings the range back to 2^24 or more without leaving 32 bits, doing it again changes nothing, and it keeps code below range; it starves only when a byte is needed and none is left |
| RangeCoder.ProbBandClosed | CorebootUplShimPkg/Library/LzmaCustomDecompressLib/Sdk/C/LzmaDec.c:22-24 | Both updates keep a probability between 31 and 2017, move by a thirty-second of the way that is left, and stand still only at these two ends |
| RangeCoder.ModelBitInvariant | CorebootUplShimPkg/Library/LzmaCustomDecompressLib/Sdk/C/LzmaDec.c:22-30 | A modelled bit keeps the coder invariant, shrinks the renormalised range by a factor of at most 67, and keeps code below range |
| RangeCoder.DirectStepIsCompare | CorebootUplShimPkg/Library/LzmaCustomDecompressLib/Sdk/C/LzmaDec.c:447-469 | The branch-free direct-bit step is compare-and-subtract exactly when code is less than range plus 2^31 |
| RangeCoder.DirectBitInvariant | CorebootUplShimPkg/Library/LzmaCustomDecompressLib/Sdk/C/LzmaDec.c:447-469 | Given code below range, the direct bit is the comparison, the code its reduction, and code reaches range exactly when the range was odd and code one below it |
| SymbolRun.RunExtend | CorebootUplShimPkg/Library/LzmaCustomDecompressLib/Sdk/C/LzmaDec.c:219-553 | Bytes behind those a symbol needs change neither the symbol nor the state it leaves |
| SymbolRun.RunPrefix | CorebootUplShimPkg/Library/LzmaCustomDecompressLib/Sdk/C/LzmaDec.c:950-993 | If a symbol is incomplete without some bytes, then with them it is still incomplete or uses at least one of them |
| SymbolRun.RunNormalized | CorebootUplShimPkg/Library/LzmaCustomDecompressLib/Sdk/C/LzmaDec.c:191-204 | Renormalising before a symbol or inside its first bit gives the same symbol, bytes and state |
| SymbolRun.SlotsDistinct | CorebootUplShimPkg/Library/LzmaCustomDecompressLib/Sdk/C/LzmaDec.c:219-553 | On no path through the symbol grammar is a probability slot touched twice |
| SymbolRun.PeekAgrees | CorebootUplShimPkg/Library/LzmaCustomDecompressLib/Sdk/C/LzmaDec.c:638-809 | Decoding one symbol with probabilities that do not adapt gives the same symbol from the same bytes as adapting decoding, or starves exactly when that does |
| SymbolRun.TwentyBytes | CorebootUplShimPkg/Library/LzmaCustomDecompressLib/Sdk/C/LzmaDec.h:51-54 | From a normalised coder, twenty bytes always suffice for any symbol and the renormalisation after it |
| SymbolCoder.GrammarIsCoder | CorebootUplShimPkg/Library/LzmaCustomDecompressLib/Sdk/C/LzmaDec.c:219-487 | For every context, answers lead through the symbol grammar to a symbol, not a step too early, exactly when they are the answers of its move: those of a byte, of one of the four repetitions, or of a copy, computed from its length in bytes and its distance alone |
| SymbolCoder.MoveSpells | CorebootUplShimPkg/Library/LzmaCustomDecompressLib/Sdk/C/LzmaDec.c:219-487 | The answers of every byte, repetition and copy lead to its symbol |
| SymbolQuestions.MoveAsks | CorebootUplShimPkg/Library/LzmaCustomDecompressLib/Sdk/C/LzmaDec.c:219-487 | Along the answers of a move the grammar asks of just the probabilities that its state, its position, its literal table and the expected byte choose, listed by number |
| RangeEncoder.PutAllFound | CorebootUplShimPkg/Library/LzmaCustomDecompressLib/Sdk/C/LzmaDec.c:20-48 | Answers put into a stream from its end to its beginning, by arithmetic of its own, are decoded again, and the decoder goes on with what follows |
| RangeEncoder.MoveFound | CorebootUplShimPkg/Library/LzmaCustomDecompressLib/Sdk/C/LzmaDec.c:191-204 | From every table of probabilities, every setting and every move there are bytes from which the decoder reads its symbol and is then where the encoder says |
| TextCoder.FetchRead | CorebootUplShimPkg/Library/LzmaCustomDecompressLib/Sdk/C/LzmaDec.c:219-553 | From every place of the writer the decoder fetches the symbol of the move that was written there, end marks included |
| TextCoder.StateFollows | CorebootUplShimPkg/Library/LzmaCustomDecompressLib/Sdk/C/LzmaDec.c:488-510 | The state number says of the last four moves which was the last that was no byte, how long ago, and of which sort: zero after three bytes, below seven exactly after a byte |
| TextCoder.MoveApplied | CorebootUplShimPkg/Library/LzmaCustomDecompressLib/Sdk/C/LzmaDec.c:488-536 | A move that fits below the limit appends exactly as many bytes as it is long, each the one that is its reach before it; the reach moves to the front of the last four distances |
| TextCoder.TextReplayed | CorebootUplShimPkg/Library/LzmaCustomDecompressLib/Sdk/C/LzmaDec.c:557-629 | For every text and every cutting of it into bytes and true copies of 2 to 273 bytes, the replay of the symbols of the pieces is the text |
| TextCoder.DecodedText | CorebootUplShimPkg/Library/LzmaCustomDecompressLib/Sdk/C/LzmaDec.c:841-1002 | Decoding gives the text back: for all properties, every text and every cutting of it, a call on its stream with room for it returns the text, uses the whole stream, and says that it may end here |
| TextCoder.DecodedMarkedText | CorebootUplShimPkg/Library/LzmaCustomDecompressLib/Sdk/C/LzmaDec.c:841-1002 | With an end mark of any length behind it, a call with room for more returns the text and says that it has finished |
| TextCoder.UnfoundedRefused | CorebootUplShimPkg/Library/LzmaCustomDecompressLib/Sdk/C/LzmaDec.c:841-1002 | A stream that goes on with a copy from before the text or from further than the dictionary, or begins with a repetition, is refused |
| TextCoder.EndDemanded | CorebootUplShimPkg/Library/LzmaCustomDecompressLib/Sdk/C/LzmaDec.c:895-990 | At the end of the room, and asked to finish there, the decoder accepts the end just with its code at zero or before an end mark, and says which |
| TextCoder.FirstByteZero | CorebootUplShimPkg/Library/LzmaCustomDecompressLib/Sdk/C/LzmaDec.c:855-869 | A stream whose first byte is not zero is refused at once; else the decoder waits for five bytes |
| TextCoder.DecodedBeginning | CorebootUplShimPkg/Library/LzmaCustomDecompressLib/Sdk/C/LzmaDec.c:841-1002 | With less room a call returns just the beginning of the text there is room for |
| TextCoder.DecodedPrefix | CorebootUplShimPkg/Library/LzmaCustomDecompressLib/Sdk/C/LzmaDec.c:841-1002 | From a beginning of the stream a call returns a beginning of the text |
| TextCoder.BytewiseCuts | CorebootUplShimPkg/Library/LzmaCustomDecompressLib/Sdk/C/LzmaDec.c:841-1002 | Every text has a cutting, so every text has a stream that decodes to it |
| LookAhead.MaskedSubtract | CorebootUplShimPkg/Library/LzmaCustomDecompressLib/Sdk/C/LzmaDec.c:784-789 | The direct-bit form of the look-ahead decoder makes the same step as that of the decoder |
| BitReader.GetBit | CorebootUplShimPkg/Library/LzmaCustomDecompressLib/Sdk/C/LzmaDec.c:22-30 | One modelled bit in place: the answer, the probability array, the registers and the input position are those of the specified symbol |
| BitReader.GetDirectBit | CorebootUplShimPkg/Library/LzmaCustomDecompressLib/Sdk/C/LzmaDec.c:447-469 | One direct bit in place: it is shifted into the distance, and the registers and input position are those of the specified symbol |
| SymbolReader.DecodeLiteral | CorebootUplShimPkg/Library/LzmaCustomDecompressLib/Sdk/C/LzmaDec.c:262-275 | The literal loop leaves the byte, registers and probabilities of the specified symbol |
| SymbolReader.DecodeMatchedLiteral | CorebootUplShimPkg/Library/LzmaCustomDecompressLib/Sdk/C/LzmaDec.c:276-310 | The matched-literal loop, likewise |
| SymbolReader.DecodeLen | CorebootUplShimPkg/Library/LzmaCustomDecompressLib/Sdk/C/LzmaDec.c:381-424 | The length decoder, likewise |
| SymbolReader.DecodeDistance | CorebootUplShimPkg/Library/LzmaCustomDecompressLib/Sdk/C/LzmaDec.c:426-487 | Slot, reversed low bits, direct bits and alignment bits, likewise |
| Lz77.CopyMatchAt | CorebootUplShimPkg/Library/LzmaCustomDecompressLib/Sdk/C/LzmaDec.c:500-534 | Every byte a match appends is the byte that is its distance before it, also when the match overlaps itself |
| Lz77.CopyMatchSplit | CorebootUplShimPkg/Library/LzmaCustomDecompressLib/Sdk/C/LzmaDec.c:557-588 | A match appended in two parts is the match appended at once |
| LzmaSpec.FusedLiteralIndex | CorebootUplShimPkg/Library/LzmaCustomDecompressLib/Sdk/C/LzmaDec.c:231-260 | The fused mask of lc and lp indexes the same literal probabilities as the plain formula that the look-ahead uses |
| LzmaSpec.FetchKeeps | CorebootUplShimPkg/Library/LzmaCustomDecompressLib/Sdk/C/LzmaDec.c:219-553 | A decoded symbol is well formed, and leaves a normalised coder, a table of the same size and a suffix of the input |
| LzmaSpec.ApplyKeeps | CorebootUplShimPkg/Library/LzmaCustomDecompressLib/Sdk/C/LzmaDec.c:488-536 | An applied symbol keeps the invariant, outputs at least a byte, never passes the limit, and leaves a remainder only at the limit; only the end mark ends the stream |
| LzmaSpec.WriteRemKeeps | CorebootUplShimPkg/Library/LzmaCustomDecompressLib/Sdk/C/LzmaDec.c:557-588 | Finishing a cut match keeps the invariant, never passes the limit, and stops early only at it |
| LzmaSpec.BadRepIsExact | CorebootUplShimPkg/Library/LzmaCustomDecompressLib/Sdk/C/LzmaDec.c:590-592 | Right after initialisation the first symbol is a repetition exactly when the code is not below the threshold |
| LzmaDriver.FetchPrefix | CorebootUplShimPkg/Library/LzmaCustomDecompressLib/Sdk/C/LzmaDec.c:950-993 | A symbol that the buffered bytes do not complete uses more than the buffered bytes, so at most the look-ahead is given back |
| LzmaDriver.CallKeeps | CorebootUplShimPkg/Library/LzmaCustomDecompressLib/Sdk/C/LzmaDec.c:841-1002 | Every call keeps the decoder valid, uses no more than it was given, and outputs nothing beyond its limit |
| LzmaDriver.StatusMeans | CorebootUplShimPkg/Library/LzmaCustomDecompressLib/Sdk/C/LzmaDec.c:841-1002 | What the status of a call says of the state it leaves: an end mark, a full output that may be the whole or is not known to be, or an input that is used up |
| Streaming.DriveExtend | CorebootUplShimPkg/Library/LzmaCustomDecompressLib/Sdk/C/LzmaDec.c:896-996 | Input that arrives later continues the decoding exactly where all of it at once would be |
| Streaming.CallSplit | CorebootUplShimPkg/Library/LzmaCustomDecompressLib/Sdk/C/LzmaDec.c:841-1002 | A call on a beginning of the input followed by one on what it left over and the rest is one call on all of it |
| Streaming.StreamingEquivalence | CorebootUplShimPkg/Library/LzmaCustomDecompressLib/Sdk/C/LzmaDec.c:841-1002 | For every cutting of every input into successive calls, unused bytes presented again, the output, the position, the bytes used, probabilities, distances, buffered bytes and status are those of one call |
| OutputLimits.WriteMatchCut | CorebootUplShimPkg/Library/LzmaCustomDecompressLib/Sdk/C/LzmaDec.c:500-588 | A match cut at a limit and finished up to a later one is the match cut at the later one |
| OutputLimits.CallLimits | CorebootUplShimPkg/Library/LzmaCustomDecompressLib/Sdk/C/LzmaDec.c:841-1002 | A call that stops at an earlier output limit followed by one up to a later limit is one call up to the later limit |
| OutputLimits.ScheduleEquivalence | CorebootUplShimPkg/Library/LzmaCustomDecompressLib/Sdk/C/LzmaDec.c:841-1002 | Calls that are cut both in their input and in their output, in any order, are one call on all input up to the last limit |
| OutputLimits.DriveReplays | CorebootUplShimPkg/Library/LzmaCustomDecompressLib/Sdk/C/LzmaDec.c:557-629 | What has been output, a cut match counted as complete, is the limit-free LZ77 replay of the decoded symbols |
| OutputLimits.CallReplays | CorebootUplShimPkg/Library/LzmaCustomDecompressLib/Sdk/C/LzmaDec.c:841-1002 | From a fresh start the output of a call is the beginning of the replay of its symbols, and all of it unless the limit cut it |
| OutputLimits.CallGrows | CorebootUplShimPkg/Library/LzmaCustomDecompressLib/Sdk/C/LzmaDec.c:841-1002 | No call takes back what was output |
| OutputLimits.CallShort | CorebootUplShimPkg/Library/LzmaCustomDecompressLib/Sdk/C/LzmaDec.c:1022-1052 | A call that returns before its limit would return the same, and use nothing more, under any later limit |
| Deliveries.DeliveriesReplay | CorebootUplShimPkg/Library/LzmaCustomDecompressLib/Sdk/C/LzmaDec.c:1004-1053 | The bytes delivered by any sequence of calls without an error, whatever input and room each is given, are the beginning of the limit-free replay of the symbols they decode, and all of it unless a match is cut |
| Deliveries.DeliveriesAreOneCall | CorebootUplShimPkg/Library/LzmaCustomDecompressLib/Sdk/C/LzmaDec.c:1004-1053 | Such a sequence and a call after it are one call on all the input; an error in the sequence is the error of that one call |
| LzmaRounds.StepOn | CorebootUplShimPkg/Library/LzmaCustomDecompressLib/Sdk/C/LzmaDec.c:942-993 | A symbol decoded on part of the input is a step of the decoding of all of it |
| LzmaRounds.ClosedAdvance | CorebootUplShimPkg/Library/LzmaCustomDecompressLib/Sdk/C/LzmaDec.c:896-920 | The decoding stops at once after the end mark and where the output limit says so, with the status the code returns |
| LzmaDecoder.LzmaDec.CopyAround | CorebootUplShimPkg/Library/LzmaCustomDecompressLib/Sdk/C/LzmaDec.c:522-529 | Copying byte by byte around the end of the circular buffer appends the match to the flat history |
| LzmaDecoder.LzmaDec.CopyStraight | CorebootUplShimPkg/Library/LzmaCustomDecompressLib/Sdk/C/LzmaDec.c:512-521 | Copying from a source that does not reach the end of the buffer, likewise |
| LzmaDecoder.LzmaDec.WriteRemainder | CorebootUplShimPkg/Library/LzmaCustomDecompressLib/Sdk/C/LzmaDec.c:557-588 | The rest of a cut match is appended up to the limit, and the cached counters follow |
| LzmaDecoder.LzmaDec.TryDummy | CorebootUplShimPkg/Library/LzmaCustomDecompressLib/Sdk/C/LzmaDec.c:638-809 | The read-only decoder starves exactly when the next symbol, or the renormalisation after it, lacks input; otherwise it returns that symbol’s class |
| LzmaDecoder.LzmaDec.DecodeSymbol | CorebootUplShimPkg/Library/LzmaCustomDecompressLib/Sdk/C/LzmaDec.c:219-553 | One symbol decoded and applied in place is the specified symbol applied to the specified state, the circular buffer mirroring the flat history; it fails exactly when the specification rejects |
| LzmaDecoder.LzmaDec.DecodeReal | CorebootUplShimPkg/Library/LzmaCustomDecompressLib/Sdk/C/LzmaDec.c:209-553 | The symbol loop, with its late renormalisation and its early limits, continues the specified decoding and never reads beyond its input |
| LzmaDecoder.LzmaDec.DecodeReal2 | CorebootUplShimPkg/Library/LzmaCustomDecompressLib/Sdk/C/LzmaDec.c:597-629 | Batches cut where the dictionary fills up continue the specified decoding |
| LzmaDecoder.LzmaDec.TempRound | CorebootUplShimPkg/Library/LzmaCustomDecompressLib/Sdk/C/LzmaDec.c:931-995 | The round over the buffered bytes takes just the bytes of the symbol from the input; neither internal-error return is reached |
| LzmaDecoder.LzmaDec.DecodeToDic | CorebootUplShimPkg/Library/LzmaCustomDecompressLib/Sdk/C/LzmaDec.c:841-1002 | The whole call: result, bytes used, status and new state are those of the specified call, and no internal error is returned |
| LzmaDecoder.LzmaDec.DecodeToBuf | CorebootUplShimPkg/Library/LzmaCustomDecompressLib/Sdk/C/LzmaDec.c:1004-1053 | The bytes delivered, the bytes used, the status and the state are those of one call over an unbounded history; nothing else of the destination is written |
| LzmaDecoder.LzmaDec.InitDicAndState | CorebootUplShimPkg/Library/LzmaCustomDecompressLib/Sdk/C/LzmaDec.c:811-830 | Every field after the call; with either flag the result is a fresh decoder, over an empty history or the kept one |
| LzmaDecoder.LzmaDec.Init | CorebootUplShimPkg/Library/LzmaCustomDecompressLib/Sdk/C/LzmaDec.c:832-839 | Initialisation from position zero leaves a fresh decoder |
| LzmaDecoder.LzmaDec.Allocate | CorebootUplShimPkg/Library/LzmaCustomDecompressLib/Sdk/C/LzmaDec.c:1159-1200 | A newly allocated decoder is fresh, and its buffer is at least the dictionary size |
| LzmaDecoder.AllocSize | CorebootUplShimPkg/Library/LzmaCustomDecompressLib/Sdk/C/LzmaDec.c:1173-1186 | The buffer size is the next multiple of 4 KiB, 1 MiB or 4 MiB that is not below the dictionary size, or that size where the multiple is beyond 32 bits |
| LzmaOneCall.PropsDecodeExact | CorebootUplShimPkg/Library/LzmaCustomDecompressLib/Sdk/C/LzmaDec.c:1085-1118 | Properties are accepted exactly when there are five bytes and the first is below 225, and that byte is composed of the parts it is split into |
| LzmaOneCall.HeaderRead | CorebootUplShimPkg/Library/LzmaCustomDecompressLib/Sdk/C/LzmaDec.c:1085-1118 | For all properties and dictionary sizes the header composed of them is read back, a dictionary below 4096 bytes as one of 4096 |
| LzmaOneCall.HeaderOf | CorebootUplShimPkg/Library/LzmaCustomDecompressLib/Sdk/C/LzmaDec.c:1085-1118 | Every header that is accepted is of this form |
| LzmaOneCall.LzmaDecode | CorebootUplShimPkg/Library/LzmaCustomDecompressLib/Sdk/C/LzmaDec.c:1202-1239 | One-call decoding returns the specified result, and the destination begins with all output |
| LzmaOneCall.DistanceSafety | CorebootUplShimPkg/Library/LzmaCustomDecompressLib/Sdk/C/LzmaDec.c:489-498 | In every state a call returns, each of the four distances is at least one and at most the bytes output or one, and never above the dictionary size |
| LzmaOneCall.OneCallFlat | CorebootUplShimPkg/Library/LzmaCustomDecompressLib/Sdk/C/LzmaDec.c:1202-1239 | From the start of a single call to its end, at every symbol every remembered distance is in reach, what the symbol reads has been output, and neither the literal nor the copying takes a branch that wraps around the buffer |
| LzHash.Head2Determines | CorebootUplShimPkg/Library/LzmaCustomDecompressLib/Sdk/C/LzHash.h:17-27 | Whatever the table, after the same first byte the two-byte hash is equal exactly when the second byte is |
| LzHash.Head3Determines | CorebootUplShimPkg/Library/LzmaCustomDecompressLib/Sdk/C/LzHash.h:17-27 | After the same first byte the three-byte hash is equal exactly when the second and third bytes are |
| MatchText.Sandwich | CorebootUplShimPkg/Library/LzmaCustomDecompressLib/Sdk/C/LzFind.c:634-639 | What lies between two places in content order agrees with the current place at least as far as both do, which is what skipping the shorter of the two lengths relies on |
| SearchTree.SplitSorted | CorebootUplShimPkg/Library/LzmaCustomDecompressLib/Sdk/C/LzFind.c:615-680 | Splitting a tree at the current place keeps both parts ordered by content and by age, on their sides, and adds nothing |
| SearchTree.SplitComplete | CorebootUplShimPkg/Library/LzmaCustomDecompressLib/Sdk/C/LzFind.c:615-680 | While the visit budget lasts, only a place that the current one repeats in full is lost |
| SearchTree.SplitExact | CorebootUplShimPkg/Library/LzmaCustomDecompressLib/Sdk/C/LzFind.c:615-680 | Whatever the budget, a split loses just the places that the walk does not enter, and one that it meets and that the current place repeats in full |
| SearchTree.WalkOlder | CorebootUplShimPkg/Library/LzmaCustomDecompressLib/Sdk/C/LzFind.c:615-680 | Whatever the walk does not enter when its budget runs out is older than all that it has met |
| SearchTree.SearchTruthful | CorebootUplShimPkg/Library/LzmaCustomDecompressLib/Sdk/C/LzFind.c:615-680 | Every report of the tree search is the exact common prefix with a node, and lengths increase |
| SearchTree.SearchComplete | CorebootUplShimPkg/Library/LzmaCustomDecompressLib/Sdk/C/LzFind.c:615-680 | While the visit budget lasts, no node agrees further than the last report or the initial length |
| SearchTree.SearchReaches | CorebootUplShimPkg/Library/LzmaCustomDecompressLib/Sdk/C/LzFind.c:615-680 | Whatever the budget, only places that the walk does not enter can agree further than the last report or the initial length |
| SonTree.SlotIsResidue | CorebootUplShimPkg/Library/LzmaCustomDecompressLib/Sdk/C/LzFind.c:642 | The slot arithmetic addresses the slot of the referenced place, its number modulo the window size |
| SonSplit.LoopSplits | CorebootUplShimPkg/Library/LzmaCustomDecompressLib/Sdk/C/LzFind.c:615-680 | The loop over the link array is the split of the tree, and its reports are those of the tree search |
| SonMoves.InsertRep | CorebootUplShimPkg/Library/LzmaCustomDecompressLib/Sdk/C/LzFind.c:615-738 | After an insertion the array holds the new tree under the current place, and trees of other places are untouched |
| SonMoves.RepLater | CorebootUplShimPkg/Library/LzmaCustomDecompressLib/Sdk/C/LzFind.c:740-743 | Moving on forgets just the place whose slot is used next |
| SonMoves.NormKeeps | CorebootUplShimPkg/Library/LzmaCustomDecompressLib/Sdk/C/LzFind.c:476-506 | Renormalisation keeps the distance and place of every reference into the window, and keeps every other one outside |
| SonMoves.RepNorm | CorebootUplShimPkg/Library/LzmaCustomDecompressLib/Sdk/C/LzFind.c:476-506 | The renormalised array holds the same tree |
| SonChain.ChainTruthful | CorebootUplShimPkg/Library/LzmaCustomDecompressLib/Sdk/C/LzFind.c:533-613 | Every report along a hash chain is the exact common prefix with a place in the window, and lengths increase |
| FinderState.CheckLimitsPlaces | CorebootUplShimPkg/Library/LzmaCustomDecompressLib/Sdk/C/LzFind.c:373-408 | Checking limits brings positions back into their ranges, wraps the cyclic position, and keeps all distances |
| FinderState.MovePosIs | CorebootUplShimPkg/Library/LzmaCustomDecompressLib/Sdk/C/LzFind.c:740-753 | Moving on is one place further in the window, with all references renormalised when positions run out |
| FinderState.StepValid | CorebootUplShimPkg/Library/LzmaCustomDecompressLib/Sdk/C/LzFind.c:509-527 | Every step keeps the finder’s invariant and moves on by one place |
| FinderIndex.StepIndexed | CorebootUplShimPkg/Library/LzmaCustomDecompressLib/Sdk/C/LzFind.c:779-909 | One step of a tree finder keeps the index: under every hash head an ordered tree of places with that hash |
| FinderIndex.StepComplete | CorebootUplShimPkg/Library/LzmaCustomDecompressLib/Sdk/C/LzFind.c:779-909 | A step within its visit budget loses no place of the window |
| FinderReports.CandidateAgrees | CorebootUplShimPkg/Library/LzmaCustomDecompressLib/Sdk/C/LzFind.c:852-890 | A candidate accepted after comparing one byte agrees in all bytes of its hash |
| FinderReports.ReportIsTrue | CorebootUplShimPkg/Library/LzmaCustomDecompressLib/Sdk/C/LzFind.c:779-909 | Every report is a true match inside the window, with strictly increasing lengths up to the limit |
| FinderReports.ReportIsLongest | CorebootUplShimPkg/Library/LzmaCustomDecompressLib/Sdk/C/LzFind.c:779-909 | The last report is as long as the agreement with any earlier place in the window, if that covers the hashed bytes |
| FinderTwins.TwinReports | CorebootUplShimPkg/Library/LzmaCustomDecompressLib/Sdk/C/LzFind.c:468-527 | Finders that differ only in the numbering of positions report the same |
| FinderTwins.TwinSteps | CorebootUplShimPkg/Library/LzmaCustomDecompressLib/Sdk/C/LzFind.c:468-527 | They stay such finders after a step |
| FinderRuns.RunSound | CorebootUplShimPkg/Library/LzmaCustomDecompressLib/Sdk/C/LzFind.c:779-1051 | Over any run the finder stays valid and its index true |
| FinderRuns.EveryReportTrue | CorebootUplShimPkg/Library/LzmaCustomDecompressLib/Sdk/C/LzFind.c:779-1051 | At every place of every text each of the four finders reports only true matches |
| NewestHeads.StepLatest | CorebootUplShimPkg/Library/LzmaCustomDecompressLib/Sdk/C/LzFind.c:779-909 | Every step keeps that each entry of the hash table refers to the newest place of the window that has it as a head |
| NewestHeads.EveryReportShort | CorebootUplShimPkg/Library/LzmaCustomDecompressLib/Sdk/C/LzFind.c:811-909 | At every place of every text, and for every budget, the newest earlier place with the same hash of two bytes is reported with at least two bytes if it begins with the same byte, and with four hashed bytes likewise for three |
| NewestHeads.EveryReportCounted | CorebootUplShimPkg/Library/LzmaCustomDecompressLib/Sdk/C/LzFind.c:534-909 | And there is nothing else: every match with fewer bytes than the main hash covers is one of these places, and there are no more matches than short hashes and visits |
| FinderRuns.EveryReportLongest | CorebootUplShimPkg/Library/LzmaCustomDecompressLib/Sdk/C/LzFind.c:615-680 | While no search has run out of its budget, at every place of every text the last report is as long as the best agreement with any earlier place in the window |
| FinderRuns.FullSearchIsNaive | CorebootUplShimPkg/Library/LzmaCustomDecompressLib/Sdk/C/LzFind.c:615-680 | With a budget of as many visits as the window has places, every report of a run is true, and the last is as long as the best agreement with any earlier place in the window that covers the hashed bytes |
| FinderRuns.LargeCutSuffices | CorebootUplShimPkg/Library/LzmaCustomDecompressLib/Sdk/C/LzFind.c:615-680 | With a budget of as many visits as the window has places no search runs out of it |
| ChainIndex.StepWhole | CorebootUplShimPkg/Library/LzmaCustomDecompressLib/Sdk/C/LzFind.c:987-1051 | No step of the chain finder loses a place: every head and every place of the window is linked to the newest one before it with the same head |
| ChainIndex.ChainFinds | CorebootUplShimPkg/Library/LzmaCustomDecompressLib/Sdk/C/LzFind.c:533-613 | A walk along a chain reports an agreement no shorter than that of any place for which it has visits enough |
| ChainIndex.EveryChainReportCovers | CorebootUplShimPkg/Library/LzmaCustomDecompressLib/Sdk/C/LzFind.c:533-613 | For every budget and every text: the last report of the chain finder is as long as the agreement with any earlier place in the window that covers the hashed bytes, if no more places from there on have its head than there are visits |
| ChainIndex.FullChainIsNaive | CorebootUplShimPkg/Library/LzmaCustomDecompressLib/Sdk/C/LzFind.c:533-613 | With as many visits as the window has places the chain finder is the naive search, too |
| FinderBudget.StepLoses | CorebootUplShimPkg/Library/LzmaCustomDecompressLib/Sdk/C/LzFind.c:615-738 | One step of a tree finder, whatever its budget, loses of the searched tree just the places that leave the window, that the current place repeats, or that the search does not come to, and these are older than all it meets |
| FinderBudget.EveryReportBest | CorebootUplShimPkg/Library/LzmaCustomDecompressLib/Sdk/C/LzFind.c:615-680 | At every place of every text and for every budget, the reports of a tree finder are true and the last one is as long as the agreement with any place of the tree that the search comes to |
| FinderRuns.RenumberedTwin | CorebootUplShimPkg/Library/LzmaCustomDecompressLib/Sdk/C/LzFind.c:476-506 | A renormalised finder differs from the original only in the numbering |
| FinderRuns.RenumberingInvisible | CorebootUplShimPkg/Library/LzmaCustomDecompressLib/Sdk/C/LzFind.c:476-527 | Wherever positions are renumbered in a run, all later reports are the same |
| LzFind.GetMatchesSpec1 | CorebootUplShimPkg/Library/LzmaCustomDecompressLib/Sdk/C/LzFind.c:615-680 | The insertion loop in place leaves the specified links and reports the specified matches |
| LzFind.SkipMatchesSpec | CorebootUplShimPkg/Library/LzmaCustomDecompressLib/Sdk/C/LzFind.c:682-738 | Skipping leaves the very links that searching leaves, for every initial length |
| LzFind.HcGetMatchesSpec | CorebootUplShimPkg/Library/LzmaCustomDecompressLib/Sdk/C/LzFind.c:533-613 | The chain walk in place leaves the specified links and reports the specified matches |
| LzFind.MatchFinder.CheckAllLimits | CorebootUplShimPkg/Library/LzmaCustomDecompressLib/Sdk/C/LzFind.c:509-527 | Limits are checked in place as specified |
| LzFind.MatchFinder.Renormalize | CorebootUplShimPkg/Library/LzmaCustomDecompressLib/Sdk/C/LzFind.c:476-506 | All references are lowered in place, down to zero for those that would go below |
| LzFind.MatchFinder.Bt2GetMatches | CorebootUplShimPkg/Library/LzmaCustomDecompressLib/Sdk/C/LzFind.c:779-793 | One search with two hashed bytes: the specified step and the specified reports |
| LzFind.MatchFinder.Bt3GetMatches | CorebootUplShimPkg/Library/LzmaCustomDecompressLib/Sdk/C/LzFind.c:811-850 | With three hashed bytes, likewise |
| LzFind.MatchFinder.Bt4GetMatches | CorebootUplShimPkg/Library/LzmaCustomDecompressLib/Sdk/C/LzFind.c:852-909 | With four hashed bytes, likewise |
| LzFind.MatchFinder.Hc4GetMatches | CorebootUplShimPkg/Library/LzmaCustomDecompressLib/Sdk/C/LzFind.c:987-1051 | Along hash chains, likewise |
| LzFind.MatchFinder.Skip | CorebootUplShimPkg/Library/LzmaCustomDecompressLib/Sdk/C/LzFind.c:1153-1261 | Skipping num places leaves hash, links, positions and window exactly as num searches do |
| LzFind.MatchFinder.SearchAll | CorebootUplShimPkg/Library/LzmaCustomDecompressLib/Sdk/C/LzFind.c:779-1051 | Searching num times runs the specified steps |
| BaseMemory.CopyMem | CorebootUplShimPkg/Library/BaseLib/BaseLib.c:44-172 | For every overlap and alignment the destination holds the original source bytes and all else is unchanged |
| BaseMemory.ZeroMem | CorebootUplShimPkg/Library/BaseLib/BaseLib.c:188-242 | Exactly the range is cleared, at every alignment |
| BaseDivision.Fls | CorebootUplShimPkg/Library/BaseLib/BaseLib.c:252-279 | The number of significant bits |
| BaseDivision.Div64 | CorebootUplShimPkg/Library/BaseLib/BaseLib.c:340-358 | The quotient with all 64-bit wrap-around of its correction step |
| BaseDivision.EstimateNeverUnder | CorebootUplShimPkg/Library/BaseLib/BaseLib.c:340-358 | The estimate is never below the quotient |
| BaseDivision.Overshoot | CorebootUplShimPkg/Library/BaseLib/BaseLib.c:340-358 | Where one less than the estimate is still too large, the divisor is below 2^34 and the dividend at least 2^62 |
| BaseDivision.DivisionExact | CorebootUplShimPkg/Library/BaseLib/BaseLib.c:340-358 | The result is the quotient exactly when the estimate is zero or one less than it, times the divisor, is within the dividend; else it is the estimate, too large |
| BaseDivision.DivisionSafe | CorebootUplShimPkg/Library/BaseLib/BaseLib.c:340-358 | It is the quotient for every divisor below 2^32 or from 2^34 on, and for every dividend below 2^62 |
| BaseDivision.DivisionCanFail | CorebootUplShimPkg/Library/BaseLib/BaseLib.c:340-358 | It is not the quotient of 2^64 - 1 and 2^32 + 3 |
| Memory.PutField | CorebootUplShimPkg/Library/HobLib/HobLib.c:60-74 | A little-endian store of n bytes changes just these |
| Memory.GetField | CorebootUplShimPkg/Library/HobLib/HobLib.c:105-112 | The little-endian value of n bytes |
| HobLib.HobList.HobConstructor | CorebootUplShimPkg/Library/HobLib/HobLib.c:45-78 | The table, its fields and the end mark are written, nothing else; where the region has room for the table the result is a heap with an empty list and nothing handed out |
| HobLib.HobList.CreateHob | CorebootUplShimPkg/Library/HobLib/HobLib.c:90-126 | For every kind and length the new state is the specified step, and in any state the stores are exactly these four |
| HobLib.HobList.GetNextHob | CorebootUplShimPkg/Library/HobLib/HobLib.c:174-195 | The first block of the kind from a given member of the list on, null if there is none; the walk ends |
| HobLib.HobList.GetFirstHob | CorebootUplShimPkg/Library/HobLib/HobLib.c:208-217 | The first block of the kind in the list |
| HobLib.HobList.GetNextGuidHob | CorebootUplShimPkg/Library/HobLib/HobLib.c:238-257 | The first block that carries the name from a given member of the list on, null if there is none |
| HobLib.HobList.GetFirstGuidHob | CorebootUplShimPkg/Library/HobLib/HobLib.c:273-282 | The first block that carries the name in the list |
| HobLib.HobList.BuildMemoryAllocationHob | CorebootUplShimPkg/Library/HobLib/HobLib.c:495-514 | One block is appended, with base, length and memory type in its fields and zeros elsewhere |
| HobLib.HobList.AllocatePages | CorebootUplShimPkg/ShimLayer/ShimLayer.c:31-64 | The new state is the specified step, and the address is the new top, or null for no pages and a refused request |
| HobBytes.FreshBytes | CorebootUplShimPkg/Library/HobLib/HobLib.c:45-78 | The 64 bytes of a fresh table and its end mark, as numbers in their order |
| HobBytes.CreatedBytes | CorebootUplShimPkg/Library/HobLib/HobLib.c:90-126 | The bytes of a new header and end mark, and of the two table fields that move |
| HobBytes.AllocatedBytes | CorebootUplShimPkg/ShimLayer/ShimLayer.c:45-63 | The bytes after a grant: the top lowered by 4096 for each page, and the 48 bytes of the record, with memory type 4 |
| HobBytes.NamedBytes | CorebootUplShimPkg/Library/HobLib/HobLib.c:238-257 | A block has a name just when its kind is 4 and the sixteen bytes behind its header are those of the name |
| HobBytes.GrantNumbers | CorebootUplShimPkg/ShimLayer/ShimLayer.c:45-57 | The boundary is that of 4096 bytes, and a request within the top is granted just when its pages and 48 bytes fit |
| HobHeap.CreatedHeap | CorebootUplShimPkg/Library/HobLib/HobLib.c:90-126 | Creating a block that fits keeps the list well formed and lengthens it by this block |
| HobHeap.Round8Exact | CorebootUplShimPkg/Library/HobLib/HobLib.c:102 | The rounded length leaves room for a header unless the length is zero, or so large that rounding wraps around to zero |
| HobHeap.AllocationCheckExact | CorebootUplShimPkg/ShimLayer/ShimLayer.c:53-57 | Granting takes just the pages asked for, and leaves room for the record, exactly when request and record are together no larger than the top, or their 32-bit remainder is refused |
| HobRuns.AllocationCanCorrupt | CorebootUplShimPkg/ShimLayer/ShimLayer.c:53-57 | From a fresh heap a request larger than everything below the top is granted, and what it leaves is no heap |
| HobHeap.TrimmedHeap | CorebootUplShimPkg/ShimLayer/ShimLayer.c:45-48 | Lowering the top to a page boundary keeps the heap exactly when the boundary is not below the free memory’s bottom |
| HobRuns.TrimCanCorrupt | CorebootUplShimPkg/ShimLayer/ShimLayer.c:45-48 | From a fresh heap whose page boundary is below the bottom even a refused request leaves no heap |
| HobHeap.HeapApart | CorebootUplShimPkg/ShimLayer/ShimLayer.c:31-64 | Everything handed out lies above the list, page-aligned, inside the region and in no other block |
| Destination.DestinationExact | CorebootUplShimPkg/ShimLayer/ShimLayer.c:557-562 | For every size and alignment, in page-aligned pages that end before 2^32: the whole payload lies in the pages allocated for it exactly when the alignment is not zero and its sum with the size does not wrap around in 32 bits |
| Destination.ExactSumFits | CorebootUplShimPkg/ShimLayer/ShimLayer.c:557-562 | At any address, pages for a sum that does not wrap around hold the payload exactly when the alignment is not zero |
| Destination.WrappedSumNeverFits | CorebootUplShimPkg/ShimLayer/ShimLayer.c:557-562 | When size and alignment wrap around in 32 bits the payload does not lie in its pages, whatever the alignment |
| Destination.PayloadPlaced | CorebootUplShimPkg/ShimLayer/ShimLayer.c:557-562 | From any heap and for any request in order: the payload lies in the pages just handed out exactly when the request is granted, the alignment is not zero and the sum does not wrap around; it then lies apart from every block of the list and all earlier pages |
| Destination.DestinationAligned | CorebootUplShimPkg/ShimLayer/ShimLayer.c:557-562 | For a power of two the destination is a multiple of it, with the whole payload in its pages |
| Destination.DestinationLost | CorebootUplShimPkg/Include/Base.h:354 | With an alignment of zero the destination is the null address, wherever the pages lie |
| HobRuns.CreateKeeps | CorebootUplShimPkg/Library/HobLib/HobLib.c:90-126 | A block with a length is added exactly when it fits, else nothing changes; the heap stays well formed and the pages are not written |
| HobRuns.CreateExact | CorebootUplShimPkg/Library/HobLib/HobLib.c:90-126 | A block that fits leaves some list behind exactly when it is no end mark or its rounded length is zero, and the list lengthened by itself exactly when it is no end mark and its length is neither zero nor above 0xFFF8 |
| HobRuns.CreateNothing | CorebootUplShimPkg/Library/HobLib/HobLib.c:102-123 | With a rounded length of zero memory does not change, and what the caller gets is the address of the end mark |
| HobHeap.CreatedEnd | CorebootUplShimPkg/Library/HobLib/HobLib.c:102-123 | After a second end mark with a length no list ends where the table says that it ends |
| HobRuns.RefusedExact | CorebootUplShimPkg/ShimLayer/ShimLayer.c:45-55 | A refused request changes nothing but the alignment of the top, and keeps the heap exactly when the boundary allows it |
| HobRuns.GrantedKeeps | CorebootUplShimPkg/ShimLayer/ShimLayer.c:53-63 | A grant to a request that its caller may make keeps the heap, the pages lie edge to edge below the earlier ones, their record is in the list, and earlier pages are not written |
| HobRuns.RequestExact | CorebootUplShimPkg/ShimLayer/ShimLayer.c:31-64 | A request keeps the heap, and hands out nothing or just the pages asked for, exactly when the page boundary is not below the bottom, and request and record are no larger than the top or leave a 32-bit remainder that is refused |
| HobRuns.RunKeeps | CorebootUplShimPkg/ShimLayer/ShimLayer.c:31-64 | Over any interleaving of requests that meet this condition and of creations, end marks only where nothing is created, the heap stays well formed, list and pages only grow, all stay apart, and pages keep their contents |
| HobRuns.AlignedRunKeeps | CorebootUplShimPkg/ShimLayer/ShimLayer.c:31-64 | From a page-aligned top the part of the condition about the boundary holds by itself at every step of a run |
| ElfFile.LastMarkIgnored | CorebootUplShimPkg/Library/ElfLoaderLib/ElfLib/ElfLib.c:30-37 | The format check ignores the fourth signature byte; an accepted file has the signature exactly when that byte is right |
| ElfEncoder.FileHeaderRead | CorebootUplShimPkg/Library/ElfLoaderLib/ElfLib/ElfLib.c:21-107 | A file that begins with an encoded header is accepted exactly for the marks of a little-endian i386 or x86-64 image, and each field that the loader reads, the entry point included, is the one encoded |
| ElfEncoder.ProgramHeaderRead | CorebootUplShimPkg/Library/ElfLoaderLib/ElfLib/ElfLib.c:171-212 | An encoded program header is read back, and is loaded exactly when its type is 1 and it has a length |
| ElfEncoder.SectionHeaderRead | CorebootUplShimPkg/Library/ElfLoaderLib/ElfLib/Elf32Lib.c:21-93 | An encoded section header is read back, and holds relocations exactly when its type is 4 or 9 |
| ElfEncoder.DynamicEntryRead | CorebootUplShimPkg/Library/ElfLoaderLib/ElfLib/Elf32Lib.c:236-277 | Encoded dynamic entries of tag 7 or 17 give the address of the relocations, of 8 or 18 their size, and others nothing |
| ElfEncoder.RelocationRead | CorebootUplShimPkg/Library/ElfLoaderLib/ElfLib/Elf32Lib.c:107-192 | An encoded relocation entry asks for exactly its own word, moved with the image, in an executable for type 1 and in a dynamic image for type 8, and for none otherwise |
| ElfEncoder.TableRead | CorebootUplShimPkg/Library/ElfLoaderLib/ElfLib/Elf32Lib.c:107-192 | A relocation section asks for what the encoded entries that begin in it want, and for nothing else |
| ElfEncoder.FixupsRead | CorebootUplShimPkg/Library/ElfLoaderLib/ElfLib/Elf32Lib.c:334-397 | An executable asks for what all tables that count ask for, a dynamic image for what its one table does, and for nothing else |
| ElfEncoder.AppliesRead | CorebootUplShimPkg/Library/ElfLoaderLib/ElfLib/Elf32Lib.c:357-391 | In an executable a section of relocations counts exactly when the section it names by number is in memory |
| ElfEncoder.DynamicSectionRead | CorebootUplShimPkg/Library/ElfLoaderLib/ElfLib/Elf32Lib.c:217-234 | The dynamic section is the first one with the place and the length of the first program header of type 2 |
| ElfEncoder.RelocationSectionRead | CorebootUplShimPkg/Library/ElfLoaderLib/ElfLib/Elf32Lib.c:284-306 | The relocations of a dynamic image are in the first section at the address and of the size that its entries say |
| ElfFile.WindowExact | CorebootUplShimPkg/Library/ElfLoaderLib/ElfLib/ElfLib.c:293-319 | The window is the smallest run of whole pages that holds every loadable segment, an empty one at address zero included |
| ElfFile.NothingToLoad | CorebootUplShimPkg/Library/ElfLoaderLib/ElfLib/ElfLib.c:321-325 | Without loadable segments the size is two |
| ElfFile.SegmentShown | CorebootUplShimPkg/Library/ElfLoaderLib/ElfLib/Elf32Lib.c:412-450 | Without overlaps each segment shows its bytes of the file and then zeros |
| ElfFile.ImageOutside | CorebootUplShimPkg/Library/ElfLoaderLib/ElfLib/Elf32Lib.c:412-450 | Loading writes nothing outside the segments |
| ElfFile.FixesExact | CorebootUplShimPkg/Library/ElfLoaderLib/ElfLib/Elf32Lib.c:107-192 | When no two words overlap, each ends as its own entry demands of its value before all of them |
| ElfFile.FixesElsewhere | CorebootUplShimPkg/Library/ElfLoaderLib/ElfLib/Elf32Lib.c:107-192 | Relocating writes nothing but the words of its entries |
| ElfFile.FixesCommute | CorebootUplShimPkg/Library/ElfLoaderLib/ElfLib/Elf32Lib.c:107-192 | The order of relocation entries does not matter |
| ElfFile.UnrelocatedExact | CorebootUplShimPkg/Library/ElfLoaderLib/ElfLib/Elf32Lib.c:236-306 | In a dynamic image without an entry for the address of a relocation table the search for it fails, and the image is reported as unsupported, exactly when no section has the address 0xFFFFFFFF and the size of the last size entry, or zero without one |
| ElfFile.NoRelocationsUnsupported | CorebootUplShimPkg/Library/ElfLoaderLib/ElfLib/Elf32Lib.c:277-306 | There is an accepted dynamic image without relocations for which the search fails |
| ElfLoaded.FixupsShift | CorebootUplShimPkg/Library/ElfLoaderLib/ElfLib/Elf32Lib.c:107-192 | An image moved by some distance asks for the same words, moved by it, with this distance more to add |
| ElfLoaded.RoomSuffices | CorebootUplShimPkg/Library/ElfLoaderLib/ElfLib/Elf32Lib.c:412-458 | A well-formed file finds room for every segment, and every word if it is moved, in a window’s space beside the file |
| ElfLoaded.LoadedOutside | CorebootUplShimPkg/Library/ElfLoaderLib/ElfLib/Elf32Lib.c:412-458 | Loading and relocating write nothing outside the window |
| ElfLoaded.LoadedBytes | CorebootUplShimPkg/Library/ElfLoaderLib/ElfLib/Elf32Lib.c:412-458 | Every byte of a segment that no relocation touches is the file’s, or zero behind the file’s part |
| ElfLoaded.LoadedWords | CorebootUplShimPkg/Library/ElfLoaderLib/ElfLib/Elf32Lib.c:107-192 | In a moved image every relocated word is what the file put there, or the entry’s addend, plus the distance moved, in 32 bits |
| ElfLoaded.LoadedInPlace | CorebootUplShimPkg/ShimLayer/ShimLayer.c:650-658 | A file that lies at its preferred address with every segment at its own place is loaded already: memory does not change |
| ElfLib.ElfImage.IsElfFormat | CorebootUplShimPkg/Library/ElfLoaderLib/ElfLib/ElfLib.c:21-107 | The marks are compared as in the code |
| ElfLib.ElfImage.GetElf32SectionByIndex | CorebootUplShimPkg/Library/ElfLoaderLib/ElfLib/Elf32Lib.c:21-35 | The place of a section header, or nothing for too large an index |
| ElfLib.ElfImage.GetElfSegmentInfo | CorebootUplShimPkg/Library/ElfLoaderLib/ElfLib/ElfLib.c:171-212 | The fields of a program header, or nothing for too large an index |
| ElfLib.ElfImage.ParseElfImage | CorebootUplShimPkg/Library/ElfLoaderLib/ElfLib/ElfLib.c:226-330 | The status, and after success every field of the context, the window among them |
| ElfLib.ElfImage.GetElf32SectionByRange | CorebootUplShimPkg/Library/ElfLoaderLib/ElfLib/Elf32Lib.c:70-93 | The first section with this place and size |
| ElfLib.ElfImage.ProcessRelocation32 | CorebootUplShimPkg/Library/ElfLoaderLib/ElfLib/Elf32Lib.c:107-192 | Memory after applying all entries of a table |
| ElfLib.ElfImage.RelocateElf32Dynamic | CorebootUplShimPkg/Library/ElfLoaderLib/ElfLib/Elf32Lib.c:202-324 | Memory and status for a dynamic image, including the searches that find its table |
| ElfLib.ElfImage.RelocateElf32Sections | CorebootUplShimPkg/Library/ElfLoaderLib/ElfLib/Elf32Lib.c:334-397 | Memory, entry point and status, for both kinds of image |
| ElfLib.ElfImage.LoadElf32Image | CorebootUplShimPkg/Library/ElfLoaderLib/ElfLib/Elf32Lib.c:412-458 | Memory is the specified loaded image; success is returned whatever relocating reports |
| ElfLib.ElfImage.LoadElfImage | CorebootUplShimPkg/Library/ElfLoaderLib/ElfLib/ElfLib.c:347-374 | The status for unparsed images and null addresses, and else the specified loaded image |
| ElfLib.ElfImage.WellFormedReady | CorebootUplShimPkg/Library/ElfLoaderLib/ElfLib/Elf32Lib.c:412-458 | A parsed well-formed file can be loaded wherever its window finds room beside the file |
| ElfLib.ElfImage.InPlaceReady | CorebootUplShimPkg/ShimLayer/ShimLayer.c:650-658 | A parsed file at its preferred address that asks for no reload can be loaded where it lies, which changes nothing |

## Left out

LZMA decoder:

- LzmaDecoder.LzmaDec.DecodeToDic: after a data error the contract says that the dictionary still mirrors a history, how far the position went and what is returned, not which symbols came before the error, because the code makes no promise about a failed decoder.
- LzmaDecoder.LzmaDec.DecodeToBuf: after a data error it says what is returned and what is not written, not what was delivered before the error.
- LzmaOneCall.LzmaDecode: what the destination holds behind the output is not stated.
- LzmaDecoder.LzmaDec.InitDicAndState: with neither flag set only the fields are stated; decoding with a restarted coder and the probabilities of before is not modelled, and no caller in the code asks for it.
- Values that the loop caches in registers are locals here too, but the pointer into the input is an input sequence and a position in it.
- LzmaDecoder.LzmaDec.Allocate: failures of the allocator, the refusal of unsupported properties, and the reuse of an old buffer of the same size are not modelled; properties are checked in `PropsDecodeExact`, and a new buffer has the size of the code.
- The external assembler variant of the symbol loop, and the build variants for small size, which unroll the same loops differently.
- `LzmaUefiDecompressGetInfo` and the file header in front of the stream.
- No encoder is in the repository. `TextCoder` writes streams of given moves; which moves an encoder chooses, and streams whose code is not below its range, are not part of it.

Match finder:

- FinderRuns.EveryReportLongest: speaks of the tree finders, as `ChainIndex.EveryChainReportCovers` does of the chain finder, and of agreements that cover the hashed bytes; for shorter ones the short hashes keep only the newest place (`NewestHeads.EveryReportShort`), so longer ones among two or three bytes can be missed by design.
- LzFind.MatchFinder.GetMatches: all of the text lies in memory (direct input); the stream callback, block moves and their reading ahead are not modelled.
- Hash and links are two arrays, not one array with an offset, and a reported match is a pair, not two adjacent words.
- The finders for zip files, and those for five bytes that are commented out.
- The contents of fresh link slots, and the 256 words of the table behind the hashes, are arbitrary.
- The limit on match lengths is at least the number of hashed bytes, as the encoder sets it.

Memory and division:

- BaseMemory.CopyMem: its paths for eight, four and one byte are one loop over a word size; whether the processor allows an unaligned access is not modelled.
- Bit masks of the form `x & ~m` are written as differences and remainders.

Hand-off blocks and pages:

- HobLib.HobList.CreateHob: a block of a list has its table, and the new block, in memory; the code checks neither. What the caller then writes behind a header, over the end mark if the rounded length was zero, is not modelled.
- HobLib.HobList.HobConstructor: the table fits memory; the result is a heap where the region has room for the table and ends at least 64 bytes before the end of memory, so that even a record written past the region is in memory.
- Destination.DestinationExact: an address of zero, which `AllocatePages` returns on refusal and the code does not check, is excluded.
- Names of blocks are pairs of 64-bit words, as the comparison reads them.
- The builders of other blocks store fields behind a block that `CreateHob` made, and would only add easy members.

ELF loader:

- ElfLib.ElfImage.ParseElfImage: a file of the 64-bit class is excluded; that branch has the same structure. The size of the file is not computed.
- ElfLib.ElfImage.LoadElfImage: the tables that are read must be in the file, segments and relocated words must fit memory, and none may touch the file itself, except a segment that lies at its own place in it; the code checks none of this. `ElfLoaded.RoomSuffices` derives all but the first from a well-formed file and a window with room, and `InPlaceReady` from a file at its preferred address. A file loaded over itself with segments at other places, or with zeros to be cleared behind one, is not modelled.
- ElfLib.ElfImage.LoadElf32Image: likewise.
- Image addresses are taken as given; that a caller allocates them is not part of this model.

Elsewhere:

- Walking the coreboot tables, the flash map and the file system in flash, and what is copied from them into blocks.
- Serial port, graphics, tables for ACPI and SMBIOS, and the hand-over to the payload.
- Strings, and copying of names.
